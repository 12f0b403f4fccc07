/** Password policy, role hierarchy and access-token expiry
    (`core/security.py`). Hashing and token signing are foreign library
    calls; the model receives them as function values. */
module Security {
  import opened Wrappers
  import opened Text

  // ---------------------------------------------------------------------
  // validate_password_strength

  const MinPasswordLength := 8

  const LengthMessage := "Password must be at least 8 characters long"
  const UpperMessage := "Password must contain at least one uppercase letter"
  const LowerMessage := "Password must contain at least one lowercase letter"
  const DigitMessage := "Password must contain at least one number"
  const SpecialMessage := "Password must contain at least one special character"
  const StrongMessage := "Password is strong"

  /** The `(bool, str)` pair the validator returns. */
  datatype Verdict = Verdict(valid: bool, message: string)

  /** The character classes searched for: `[A-Z]`, `[a-z]`, `\d`, `[^A-Za-z0-9]`. */
  datatype CharClass = Upper | Lower | Digit | Special

  predicate InClass(c: char, cls: CharClass) {
    match cls
    case Upper => IsUpper(c)
    case Lower => IsLower(c)
    case Digit => IsDigit(c)
    case Special => !IsAlnum(c)
  }

  /** Some character of `p` is in the class. */
  ghost predicate Contains(p: string, cls: CharClass) {
    exists k :: 0 <= k < |p| && InClass(p[k], cls)
  }

  /** `re.search` for a one-character class. */
  function Search(p: string, cls: CharClass): (found: bool)
    ensures found <==> Contains(p, cls)
  {
    if |p| == 0 then false
    else if InClass(p[0], cls) then true
    else
      assert forall k :: 1 <= k < |p| ==> p[k] == p[1..][k - 1];
      Search(p[1..], cls)
  }

  /** The policy a valid password meets. */
  ghost predicate Strong(p: string) {
    && |p| >= MinPasswordLength
    && Contains(p, Upper) && Contains(p, Lower) && Contains(p, Digit) && Contains(p, Special)
  }

  /** Every check before `cls` passes and the check for `cls` fails. */
  ghost predicate FailsFirstAt(p: string, cls: CharClass) {
    && |p| >= MinPasswordLength
    && !Contains(p, cls)
    && (cls == Lower || cls == Digit || cls == Special ==> Contains(p, Upper))
    && (cls == Digit || cls == Special ==> Contains(p, Lower))
    && (cls == Special ==> Contains(p, Digit))
  }

  /** `validate_password_strength`: length, then upper case, lower case,
      digit and special character, in that order; the first failing check
      gives the message. */
  function ValidatePasswordStrength(p: string): (v: Verdict)
    ensures v.valid <==> Strong(p)
    ensures v.valid <==> v.message == StrongMessage
    ensures |p| < MinPasswordLength ==> v == Verdict(false, LengthMessage)
    ensures FailsFirstAt(p, Upper) ==> v == Verdict(false, UpperMessage)
    ensures FailsFirstAt(p, Lower) ==> v == Verdict(false, LowerMessage)
    ensures FailsFirstAt(p, Digit) ==> v == Verdict(false, DigitMessage)
    ensures FailsFirstAt(p, Special) ==> v == Verdict(false, SpecialMessage)
  {
    if |p| < MinPasswordLength then Verdict(false, LengthMessage)
    else if !Search(p, Upper) then Verdict(false, UpperMessage)
    else if !Search(p, Lower) then Verdict(false, LowerMessage)
    else if !Search(p, Digit) then Verdict(false, DigitMessage)
    else if !Search(p, Special) then Verdict(false, SpecialMessage)
    else Verdict(true, StrongMessage)
  }

  // ---------------------------------------------------------------------
  // Roles

  const Admin := "admin"
  const User := "user"
  const Viewer := "viewer"

  predicate IsRole(r: string) {
    r == Viewer || r == User || r == Admin
  }

  /** `ROLE_HIERARCHY.get(role, 0)`. */
  function RoleLevel(role: string): (level: nat)
    ensures level <= 3
    ensures level == 0 <==> !IsRole(role)
    ensures level == 3 <==> role == Admin
  {
    if role == Admin then 3
    else if role == User then 2
    else if role == Viewer then 1
    else 0
  }

  /** `check_permission`: the holder's level is at least the required one. */
  function CheckPermission(userRole: string, requiredRole: string): (ok: bool)
    ensures userRole == requiredRole ==> ok
    ensures userRole == Admin ==> ok
    ensures !IsRole(requiredRole) ==> ok
    ensures requiredRole == Admin ==> (ok <==> userRole == Admin)
  {
    RoleLevel(userRole) >= RoleLevel(requiredRole)
  }

  /** The permission order is transitive. */
  lemma CheckPermissionTransitive(a: string, b: string, c: string)
    requires CheckPermission(a, b) && CheckPermission(b, c)
    ensures CheckPermission(a, c)
  {
  }

  /** Any two roles are comparable. */
  lemma CheckPermissionTotal(a: string, b: string)
    ensures CheckPermission(a, b) || CheckPermission(b, a)
  {
  }

  /** The concrete ranking: viewer and user fail an admin requirement, user
      satisfies a viewer requirement, and an unknown role satisfies only
      requirements that are themselves unknown. */
  lemma RoleRanking(r: string)
    ensures !CheckPermission(Viewer, Admin) && !CheckPermission(User, Admin)
    ensures CheckPermission(User, Viewer) && !CheckPermission(Viewer, User)
    ensures !IsRole(r) ==> forall q :: CheckPermission(r, q) <==> !IsRole(q)
  {
  }

  // ---------------------------------------------------------------------
  // Foreign primitives: bcrypt and JWT

  /** bcrypt through passlib: `get_password_hash` and `verify_password`. */
  datatype PasswordHasher = PasswordHasher(hash: string -> string, verify: (string, string) -> bool)

  /** The one property the console relies on: a password verifies against
      its own hash. */
  ghost predicate HashVerifies(h: PasswordHasher) {
    forall p :: h.verify(p, h.hash(p))
  }

  /** Claims of an access token: subject, role and expiry. */
  datatype Claims = Claims(sub: Option<string>, role: string, exp: int)

  /** Microseconds in a minute (times are microseconds since the epoch). */
  const Minute := 60_000_000

  /** The range of Python's `datetime` in microseconds since the epoch:
      0001-01-01 00:00:00 up to 9999-12-31 23:59:59.999999. */
  const MinDateTime := -62_135_596_800_000_000
  const MaxDateTime := 253_402_300_799_999_999

  predicate InDateRange(t: int) {
    MinDateTime <= t <= MaxDateTime
  }

  /** `create_access_token`: expiry `now + expires_delta`, or 15 minutes
      when no delta is given or the delta is zero (a zero `timedelta` is
      false in Python). An expiry outside the range of `datetime` raises
      `OverflowError`, which reaches the client as a 500. A delta too large
      for `timedelta` itself cannot be added to any time in range either,
      so it ends the same way. */
  function CreateAccessToken(sub: string, role: string, now: int, expiresDelta: Option<int>): (r: Result<Claims>)
    ensures r.Ok? ==> r.value.sub == Some(sub) && r.value.role == role
    ensures expiresDelta.Some? && expiresDelta.value != 0 ==>
              && (r.Ok? <==> InDateRange(now + expiresDelta.value))
              && (r.Ok? ==> r.value.exp - now == expiresDelta.value)
    ensures expiresDelta == None || expiresDelta == Some(0) ==>
              && (r.Ok? <==> InDateRange(now + 15 * Minute))
              && (r.Ok? ==> r.value.exp - now == 15 * Minute)
    ensures r.Err? ==> r.error == Uncaught
  {
    var delta := if expiresDelta.Some? && expiresDelta.value != 0 then expiresDelta.value else 15 * Minute;
    if InDateRange(now + delta) then Ok(Claims(Some(sub), role, now + delta)) else Err(Uncaught)
  }

  /** A token outlives the moment it is issued exactly when its delta is
      absent or not negative: a zero delta is replaced by 15 minutes, and a
      negative one yields a token that is already expired. */
  lemma AccessTokenOutlivesIssue(sub: string, role: string, now: int, expiresDelta: Option<int>)
    ensures var r := CreateAccessToken(sub, role, now, expiresDelta);
            r.Ok? ==> (r.value.exp > now <==> expiresDelta.None? || expiresDelta.value >= 0)
  {
  }
}
