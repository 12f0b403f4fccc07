# nebula-gui decision logic in Dafny

nebula-gui is a web console for a Nebula mesh VPN. Its backend does four
things: it issues certificates through the external `nebula-cert` tool, it
edits Nebula YAML configuration, it manages user accounts, and it
provisions client devices with one-time download tokens. This project
models the pure decision logic around those operations and proves
properties of it:

- **InputValidation** (`input_validation.dfy`): the name whitelist and the
  IPv4/CIDR check of `api/middleware.py`. Python's `re.match` with `$`
  also accepts one trailing newline, and the model keeps that behaviour.
- **Security** (`security.dfy`): password strength, with its checks in a
  fixed order; the role hierarchy and `check_permission`; and the expiry
  of access tokens.
- **Settings** (`settings.dfy`): splitting of the allowed-origins list and
  the production warnings of `validate_security_config`.
- **Throttling** (`throttling.dfy`): the login-lockout tracker and the
  sliding-window rate limiter of `core/middleware.py`. Both are state
  machines over lists of timestamps, with time passed in explicitly.
- **NebulaConfig** (`nebula_config.dfy`): the structural validator of
  `core/config_parser.py` over a YAML tree, the section setters, and the
  default configuration.
- **Storage** (`storage.dfy`): encryption at rest of private keys,
  configuration text and 2FA secrets (`core/database.py`).
- **Accounts** (`accounts.dfy`): sign-up, login, the authentication gates
  and the admin/self-service user endpoints, as guarded transitions over
  the `users` table.
- **ConfigStore** (`config_store.dfy`): creation, activation,
  deactivation and deletion of stored configurations.
- **Provisioning** (`provisioning.dfy`): overlay-address auto-assignment,
  token issue and expiry, and the one-time exchange of a token for a
  host certificate (`api/client_setup.py`).
- **Text** and **Wrappers** supply Python's `str.split`, `str.strip`,
  `int()` and `str()`, plus the `Result` type that carries an HTTP status
  and detail.

Modelling conventions:

- Database tables are finite maps keyed by primary key. The id that
  autoincrement hands out is a parameter that must be fresh.
- Times are integers in microseconds, the resolution of Python's
  `datetime`.
- Hashing (bcrypt) and encryption (Fernet) are function-valued parameters.
  What they promise is stated as a predicate that callers require: a hash
  verifies its password, and decryption undoes encryption.
- The signer's output and the random token text are parameters.
- A unique-constraint violation at commit time becomes an error result
  with status 500.

Provisioning tokens are stored as JSON files under `/tmp/nebula-tokens`,
not in a database table. The model follows the code and treats them as a
map from token text to token data.

## Model

| member | source | states |
|---|---|---|
| InputValidation.ScanSafePattern | backend/api/middleware.py:12 | the character scan says yes exactly when the text is in the language of `^[a-zA-Z0-9._-]+$`, a final newline allowed by `$` included |
| InputValidation.ValidateCertificateName | backend/api/middleware.py:16-20 | an empty name or one over 100 characters is refused; an accepted name holds only letters, digits, `.`, `_` and `-`, apart from one possible final newline |
| InputValidation.ValidateConfigName | backend/api/middleware.py:42-46 | accepts exactly the names the certificate-name check accepts |
| InputValidation.MatchCidr | backend/api/middleware.py:22-25 | a match returns four 1–3 digit octets and a 1–2 digit prefix that render back to the input |
| InputValidation.MatchCidrComplete | backend/api/middleware.py:13 | every text of the address pattern is matched, with exactly its own pieces |
| InputValidation.MatchCidrExact | backend/api/middleware.py:22-25 | the matcher succeeds exactly on the language of the address pattern |
| InputValidation.RangeChecksMeaning | backend/api/middleware.py:28-38 | on a matched text the `int()` calls cannot fail, and the range checks hold exactly when every octet is at most 255 and the prefix at most 32 |
| InputValidation.UniqueReading | backend/api/middleware.py:13 | a text has at most one reading as octets and prefix |
| InputValidation.ValidateIpCidr | backend/api/middleware.py:22-40 | accepts exactly when the text has the address shape with octets in 0..255 and a prefix length in 0..32 |
| Security.ValidatePasswordStrength | backend/core/security.py:44-61 | valid exactly when the password has at least 8 characters and an uppercase letter, a lowercase letter, a digit and a special character; otherwise the message of the first failing check, in the order length, uppercase, lowercase, digit, special |
| Security.RoleLevel | backend/core/security.py:27-31 | admin is level 3, and exactly the strings outside the hierarchy get level 0 |
| Security.CheckPermission | backend/core/security.py:88-92 | reflexive; admin satisfies every requirement; an unknown required role is always satisfied; only admin satisfies an admin requirement |
| Security.CheckPermissionTransitive | backend/core/security.py:88-92 | the permission relation is transitive |
| Security.CheckPermissionTotal | backend/core/security.py:88-92 | any two roles are comparable |
| Security.RoleRanking | backend/core/security.py:27-31 | viewer and user fail an admin requirement, user satisfies viewer but not the reverse, and an unknown role satisfies exactly the unknown requirements |
| Security.CreateAccessToken | backend/core/security.py:64-76 | the claims carry the subject and role, and expire after the given delta, or after 15 minutes when the delta is absent or zero; an expiry outside the years 1 to 9999 of `datetime` overflows and gives 500 |
| Security.AccessTokenOutlivesIssue | backend/core/security.py:64-76 | a token that is issued is still valid at its issue time exactly when its delta is absent or not negative |
| Settings.GetAllowedOrigins | backend/core/config.py:71-75 | there is one origin per comma-separated piece; each origin is its piece with only whitespace cut from both ends, and holds no comma and no whitespace at either end |
| Settings.OriginsRoundTrip | backend/core/config.py:71-75 | on a list without whitespace, joining the origins with commas gives the setting back |
| Settings.SecurityIssues | backend/core/config.py:85-98 | no issue outside production; in production, one issue each for the default secret key, an empty encryption key and an expiry over 10080 minutes, with no duplicates |
| Settings.ValidateSecurityConfig | backend/core/config.py:100-108 | the success line exactly when there are no issues, otherwise one warning message per issue, in order |
| Settings.QuietOutsideProduction | backend/core/config.py:87 | outside production the configuration always validates |
| Settings.DefaultsInProduction | backend/core/config.py:18-26 | the default settings, run in production, raise exactly the secret-key and encryption-key warnings |
| Throttling.Prune | backend/core/middleware.py:104-108 | the pruned list is no longer than the original and holds only times after the cutoff |
| Throttling.PruneMembers | backend/core/middleware.py:104-108 | a time survives pruning exactly when it was there and is after the cutoff |
| Throttling.PruneTwice | backend/core/middleware.py:104-108 | pruning at one cutoff and then a later one is pruning at the later one |
| Throttling.RecordFailedAttempt | backend/core/middleware.py:99-115 | afterwards the attempts are `now` plus the earlier attempts inside the window; a lock until `now + lockout` is set exactly when their count reaches the maximum; other identifiers are unchanged |
| Throttling.IsLocked | backend/core/middleware.py:117-128 | locked exactly when a lock exists and has not passed; an expired lock is removed together with the attempts, and nothing else changes |
| Throttling.GetRemainingLockoutTime | backend/core/middleware.py:130-136 | never negative, 0 without a lock, otherwise the remaining time truncated to whole seconds |
| Throttling.ClearAttempts | backend/core/middleware.py:138-142 | leaves no attempts and no lock for the identifier, and other identifiers unchanged |
| Throttling.GetAttemptCount | backend/core/middleware.py:144-152 | the stored list becomes the attempts inside the window, in order, and the count is its length |
| Throttling.CountAfterRecord | backend/core/middleware.py:99-152 | with a positive lockout duration, counting right after a failure changes nothing and sees at least that failure |
| Throttling.LockHoldsForWindow | backend/core/middleware.py:114-128 | a lock set at `now` holds at a later time exactly until `now + lockout` |
| Throttling.ClearUnlocks | backend/core/middleware.py:117-142 | after clearing, the identifier is not locked and has no remaining lockout time |
| Throttling.BurstLocks | backend/core/middleware.py:99-115 | at least the maximum number of failures inside one lockout window locks the identifier until the last failure plus the window |
| Throttling.Dispatch | backend/core/middleware.py:54-84 | a request is rejected, with `retry_after` equal to the period and without being recorded, exactly when the pruned window already holds `calls` entries; an accepted one is appended, and the remaining count reported is never negative |
| Throttling.DispatchIsolated | backend/core/middleware.py:61-77 | a request changes only its own client's window |
| Throttling.DispatchKeepsBound | backend/core/middleware.py:61-77 | no window ever holds more than `calls` entries |
| Throttling.RunReplays | backend/core/middleware.py:54-77 | a sequence of requests from one client, starting from an empty window, behaves as the sequence-level replay |
| Throttling.ReplayBounded | backend/core/middleware.py:67-77 | the replayed window never exceeds `calls` |
| Throttling.ReplayWindowIsRecent | backend/core/middleware.py:61-77 | for ordered request times, the window is exactly the accepted requests inside the last period |
| Throttling.RateLimitHolds | backend/core/middleware.py:54-77 | in the period ending at the last request, at most `calls` requests from one client are accepted |
| NebulaConfig.MissingFields | backend/core/config_parser.py:51-53 | one "Missing required field" error for each absent required field, no other errors and no duplicates |
| NebulaConfig.MissingKeys | backend/core/config_parser.py:60-65 | one error for each absent key of a section, no duplicates |
| NebulaConfig.SectionErrors | backend/core/config_parser.py:55-83 | a present section that is not a map gives one error; a present map gives one error per missing key; an absent section gives none |
| NebulaConfig.Validate | backend/core/config_parser.py:43-85 | a non-map gives exactly the one "must be a dictionary" error; otherwise each missing field, non-map section and missing section key gives exactly one error, with no duplicates |
| NebulaConfig.ValidateAcceptsWellFormed | backend/core/config_parser.py:43-85 | validation succeeds exactly on well-formed configurations |
| NebulaConfig.SetKeys | backend/core/config_parser.py:99-131 | writing keys into a section changes only that section and only the written keys, creates the section when it is absent, and fails when the section is not a map |
| NebulaConfig.SetKeysKeepsWellFormed | backend/core/config_parser.py:99-131 | a setter applied to a well-formed configuration keeps it well-formed |
| NebulaConfig.SetPkiPathsEffect | backend/core/config_parser.py:99-106 | `set_pki_paths` writes exactly the three paths, completes the `pki` section and leaves every other field alone |
| NebulaConfig.SetListenPortEffect | backend/core/config_parser.py:108-114 | `set_listen_port` writes the host and port, completes the `listen` section and leaves every other field alone |
| NebulaConfig.SetLighthouseKeepsHosts | backend/core/config_parser.py:116-124 | without a host list, `lighthouse.hosts` is kept as it was |
| NebulaConfig.SetLighthouseWritesHosts | backend/core/config_parser.py:116-124 | with a host list, the flag and the hosts are written in order |
| NebulaConfig.AddStaticHostOnlyThatEntry | backend/core/config_parser.py:126-131 | `add_static_host` changes only the entry for the given overlay address |
| NebulaConfig.DefaultConfig | backend/core/config_parser.py:133-181 | the default configuration is well-formed |
| NebulaConfig.DefaultConfigValidates | backend/core/config_parser.py:133-181 | the default configuration passes the validator with no errors |
| Storage.SetPrivateKey | backend/core/database.py:111-133 | an empty key stores null and no flag; with encryption on and a key configured, a successful encryption stores ciphertext with the flag set; a failed encryption, or encryption off, stores the plain text with the flag clear |
| Storage.GetPrivateKey | backend/core/database.py:92-109 | null when nothing is stored; decryption is tried only when the flag is set and a key is configured, and a failure returns the stored text |
| Storage.FlagAgreesWithStored | backend/core/database.py:111-133 | the encrypted flag is never set on an empty slot |
| Storage.PrivateKeyRoundTrip | backend/core/database.py:92-133 | with a sound cipher, reading back a key that was set gives the key, whichever branch stored it |
| Storage.PrivateKeyCleared | backend/core/database.py:92-117 | a cleared key reads back as null |
| Storage.SetConfigData | backend/core/database.py:167-175 | configuration text is stored as given and never flagged encrypted |
| Storage.GetConfigData | backend/core/database.py:152-165 | decryption is tried only for a flagged slot while a key is configured, and a failure returns the stored text |
| Storage.ConfigDataRoundTrip | backend/core/database.py:152-175 | configuration text reads back as written, whatever the settings and the cipher |
| Storage.Set2faSecret | backend/core/database.py:46-53 | a non-empty secret is encrypted when a key is configured, otherwise it is stored as given |
| Storage.Get2faSecret | backend/core/database.py:55-64 | a stored secret is decrypted when a key is configured, and a failed decryption gives no secret |
| Storage.TwoFactorRoundTrip | backend/core/database.py:46-64 | with a sound cipher, a stored secret reads back unchanged |
| Storage.TwoFactorSetFails | backend/core/database.py:46-53 | the setter fails exactly when encryption is attempted and raises |
| Accounts.Commit | backend/core/database.py:28-30 | a written row that shares a username or email with another row makes the commit fail with 500, and the table is kept |
| Accounts.WriteKeepsUnique | backend/core/database.py:28-30 | a write that commits keeps usernames and emails unique |
| Accounts.ValidateUsername | backend/api/auth.py:33-37 | a username is accepted exactly when it has 3 to 50 characters |
| Accounts.ValidateCreateRole | backend/api/auth.py:31-43 | an omitted role becomes "user"; a given role is accepted exactly when it is viewer, user or admin; an explicit null is refused |
| Accounts.ValidateUpdateRole | backend/api/users.py:35-45 | an update role is refused exactly when it is non-empty and not one of the three roles |
| Accounts.UpdateRoleAcceptsCreateRoles | backend/api/users.py:40-45 | every role accepted at sign-up is accepted in an update, and the empty role is accepted only in an update |
| Accounts.CurrentUser | backend/api/auth.py:65-88 | succeeds exactly when the token decodes, carries a subject, and the subject names a user; the result is that user |
| Accounts.CurrentActiveUser | backend/api/auth.py:91-97 | the current user when active; a failure of the current-user gate is passed on unchanged, and an inactive user gets 400 |
| Accounts.CurrentAdminUser | backend/api/auth.py:100-109 | the token's own user when active and admin; a failure of the active-user gate is passed on unchanged, and an active non-admin gets 403 |
| Accounts.AdminGateFor | backend/api/auth.py:65-109 | on a token naming a user, the admin gate answers that user when active and admin, 400 when inactive, and 403 otherwise |
| Accounts.AdminGateRefusesStrangers | backend/api/auth.py:65-88 | a token that is missing, has no subject or names no user gets 401 from the admin gate |
| Accounts.Signup | backend/api/auth.py:113-153 | checks the username length, the role, a taken username, a taken email and then password strength, in that order; a success adds exactly one active user whose admin flag equals `role == admin`, keeping the table valid |
| Accounts.SignupThenVerify | backend/api/auth.py:142-153 | the password of a new user verifies against the stored hash |
| Accounts.FindByUsername | backend/api/auth.py:177 | finds the row with the username, or reports that there is none |
| Accounts.Login | backend/api/auth.py:171-214 | an unknown user or a wrong password gives 401 with the same message, and a failure is audited only for an existing user; an inactive user gets 400 only after the password verifies; a verified active user has the login time recorded, then gets claims expiring `ACCESS_TOKEN_EXPIRE_MINUTES` later (15 minutes when that is zero), or a 500 when that expiry falls outside the range of `datetime` |
| Accounts.TokenLifetime | backend/core/security.py:15 | the lifetime of a login token is the configured minutes, or 15 minutes when the setting is zero |
| Accounts.SignupThenLogin | backend/api/auth.py:142-214 | a user who has just signed up logs in with their password; whenever the expiry is within the range of `datetime` they get a token naming them with the role they chose; only their row changes |
| Accounts.GetUser | backend/api/users.py:94-108 | the user with the id, or 404 |
| Accounts.Updated | backend/api/users.py:135-150 | only truthy fields are written, and a written role sets the admin flag to `role == admin` |
| Accounts.UpdateUser | backend/api/users.py:112-155 | 404 for an unknown id; self-demotion is refused with 400 "Cannot change your own admin role", and otherwise self-deactivation with 400 "Cannot deactivate yourself"; every other update is written, or answered with 500 when the new email clashes with another user; a success changes only the target row and the table stays valid |
| Accounts.UpdateKeepsSelfAdmin | backend/api/users.py:128-150 | an active admin who updates their own row stays an active admin |
| Accounts.ToggleUserActive | backend/api/users.py:175-200 | 404 for an unknown id, 400 for one's own id; otherwise only the target's active flag is negated |
| Accounts.ToggleTwice | backend/api/users.py:197 | toggling twice restores the table |
| Accounts.DeleteUser | backend/api/users.py:265-301 | deleting oneself is refused before any lookup; otherwise 404 or removal of exactly the target |
| Accounts.ChangeMyEmail | backend/api/users.py:306-349 | the password must verify (401), then the address must not belong to another user (400); a success changes only the caller's email and keeps emails unique |
| Accounts.ChangeMyPassword | backend/api/users.py:219-247 | the old password must verify, then the new one must be strong, in that order; a success changes only the caller's hash |
| Accounts.ChangedPasswordVerifies | backend/api/users.py:229-244 | the new password verifies against the stored hash |
| ConfigStore.CreateConfig | backend/api/config.py:33-58 | a taken name gives 400 and no change; otherwise exactly one inactive row is added and the active set is unchanged |
| ConfigStore.GetConfig | backend/api/config.py:74-88 | the configuration with the id, or 404 |
| ConfigStore.ActivateConfig | backend/api/config.py:92-116 | 404 for an unknown id; otherwise the target is the one and only active configuration |
| ConfigStore.DeactivateConfig | backend/api/config.py:120-140 | 404 for an unknown id; otherwise only the target's flag is cleared |
| ConfigStore.DeleteConfig | backend/api/config.py:144-161 | 404 for an unknown id; otherwise exactly the target is removed |
| ConfigStore.AtMostOneActiveMeansSmallActiveSet | backend/api/config.py:106-110 | "at most one active" holds exactly when the active set has at most one member |
| ConfigStore.ActivateIdempotent | backend/api/config.py:106-110 | activating twice is activating once |
| ConfigStore.ActivateThenDeactivate | backend/api/config.py:92-140 | deactivating the configuration just activated leaves none active |
| Provisioning.NextAddress | backend/api/client_setup.py:73-79 | the address after the latest one has octet `last + 1`, with no upper bound; an unparsable last octet gives 500 |
| Provisioning.LatestPoolCert | backend/api/client_setup.py:69-71 | finds the highest-id certificate whose address starts with `192.168.100.`, or reports that there is none |
| Provisioning.AssignAddress | backend/api/client_setup.py:67-79 | a non-empty requested address is kept; an empty pool gives `192.168.100.10/24`; otherwise the address follows the latest pool certificate's |
| Provisioning.Issue | backend/api/client_setup.py:81-103 | the token is stored with the request data and an expiry exactly 24 hours after issue, and other tokens are kept |
| Provisioning.Provision | backend/api/client_setup.py:42-122 | 404 unless `ca_id` names a CA certificate; otherwise a token is issued for the assigned address |
| Provisioning.ClientCert | backend/api/client_setup.py:183-194 | the new certificate is a non-CA host certificate in group `clients`, valid for 8760 hours, at the token's address |
| Provisioning.Download | backend/api/client_setup.py:125-231 | an unknown token gives 404; an expired token gives 410 and is removed; a missing CA gives 404; a signing failure or name clash gives 500 and keeps the token; a success adds the certificate and consumes the token |
| Provisioning.DownloadKeepsUniqueNames | backend/api/client_setup.py:183-196 | certificate names stay unique |
| Provisioning.RetryAfterSignFailure | backend/api/client_setup.py:171-231 | after a signing failure the token still works: a retry within its lifetime with a working signer delivers the package |
| Provisioning.SecondDownloadFails | backend/api/client_setup.py:140-146 | after a successful download the same token gives 404 |
| Provisioning.IssuedKeyReadsBack | backend/api/client_setup.py:191 | with a sound cipher, the stored private key reads back as the signer's key |
| Provisioning.IssueThenDownload | backend/api/client_setup.py:150-157 | a token is honoured up to and including 24 hours after issue, and the certificate gets the address chosen at issue |
| Provisioning.IssueThenLateDownload | backend/api/client_setup.py:150-157 | past 24 hours the token is refused with 410 and removed |
| Provisioning.LastOctetOfPoolAddress | backend/api/client_setup.py:74-79 | reading back the octet of an assigned address gives the octet written |
| Provisioning.NextAfterDownload | backend/api/client_setup.py:69-79 | once a device with octet `n` has its certificate under the newest id, the next automatic assignment picks `n + 1` |
| Provisioning.PoolAddressValid | backend/api/client_setup.py:79 | an assigned address passes the console's own address validator exactly when its octet is in 0..255 |
| Provisioning.OctetOverflow | backend/api/client_setup.py:73-79 | after octet 255 the assignment produces octet 256, an address the validator refuses |

## Left out

- `\d` in the patterns is read as the ASCII digits only. Python's `\d` on `str` also matches other Unicode decimal digits.
- Provisioning.NextAddress: Python's `int()` also accepts non-ASCII Unicode decimal digits (for example Arabic-Indic digits). `Text.ParseInt` reads only the ASCII digits, so a stored address such as `192.168.100.٣/24` gives 500 here, where the source assigns `.4`. Stored addresses are not validated (backend/api/client_setup.py:29), so such an address can exist.
- Accounts.Login: the token lifetime `ACCESS_TOKEN_EXPIRE_MINUTES` comes from the environment (backend/core/security.py:15, default 30) and is a parameter here. It is a different setting from the `ACCESS_TOKEN_EXPIRE_MINUTES` field of the settings class, which only the production check reads. The `OverflowError` of `timedelta` and `datetime` is modelled as a 500 after the login time is recorded. `Security.MinDateTime` and `Security.MaxDateTime` bound `datetime`.
- `validate_request_size` (backend/api/middleware.py:48-57) is left out because it reads request headers.
- `NEBULA_IP_PATTERN` is left out because nothing uses it.
- The security-headers, IP-whitelist and request-hashing middlewares (backend/core/middleware.py:12-43, 159-198) are HTTP plumbing outside the modelled logic.
- The `X-RateLimit-Reset` header is left out: it is a floating-point POSIX timestamp of the wall clock.
- Concurrency between requests is not modelled: the middlewares' shared dictionaries are treated as sequential calls with explicit time.
- bcrypt and JWT are represented by parameters. `PasswordHasher` stands for bcrypt, and `decode_access_token` for a payload that is present or absent.
- Fernet, PBKDF2 and base64 (`core/encryption.py`) are represented by the `Cipher` parameter. Its soundness predicate keeps the empty-string convention and the round trip.
- Audit-log writes are left out. The one exception is the flag in `Accounts.Login` that records whether a failed login was audited.
- ZIP and QR generation, the QR endpoint, the client-status endpoint and the template texts of `generate_client_config`, `generate_install_script` and `generate_readme` are I/O or fixed text.
- Provisioning.Download: the signer's output is a parameter, because certificate signing runs the external `nebula-cert` tool. The exact text of the database's integrity-error message is likewise a constant, not derived.
- Provisioning.Provision: the random token text and the clock are parameters. A token equal to an existing one overwrites it, as the file write does.
- `EmailStr` syntax checking and normalisation are left out, so emails are plain strings.
- The pydantic validation error body is reduced to one 422 message per validator.
- `created_at` and `updated_at` are left out because nothing reads them.
- `parse_file`, `parse_string`, `to_yaml`, `get_config` and `get_errors` of the configuration parser are left out as file and YAML I/O. YAML mapping keys are modelled as strings.
- NebulaConfig.Validate: returns structured errors, and `NebulaConfig.Message` renders each as the source's text.
- `list_users`, `get_user_stats`, `list_configs`, `get_me` and `logout` are read-only listings or no-ops with no decision logic.
- Accounts.CurrentUser requires unique usernames, because the query takes the first match and the column is unique.
- Process control, system monitoring, certificate management through `nebula-cert`, app wiring, logging and the migration script are outside the modelled logic.
