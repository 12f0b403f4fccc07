/** Encryption at rest of the stored secrets (`core/database.py`): the
    certificate private key, the configuration text and the 2FA secret. */
module Storage {
  import opened Wrappers
  import opened Settings

  /** The encryption primitives `encrypt_data` and `decrypt_data`; `None`
      is a raised exception. */
  datatype Cipher = Cipher(encrypt: string -> Option<string>, decrypt: string -> Option<string>)

  /** What the primitives promise: the empty string maps to itself, a
      successful encryption of a non-empty text is non-empty, and
      decryption undoes a successful encryption. */
  ghost predicate Sound(c: Cipher) {
    && c.encrypt("") == Some("")
    && c.decrypt("") == Some("")
    && (forall p :: p != "" && c.encrypt(p).Some? ==> c.encrypt(p).value != "")
    && (forall p :: c.encrypt(p).Some? ==> c.decrypt(c.encrypt(p).value) == Some(p))
  }

  /** Python truthiness of a nullable text column. */
  predicate Present(s: Option<string>) {
    s.Some? && s.value != ""
  }

  // =====================================================================
  // Certificate.private_key

  /** The `private_key` and `is_encrypted` columns of a certificate. */
  datatype KeySlot = KeySlot(stored: Option<string>, encrypted: bool)

  /** Encryption of private keys is switched on and a key is configured. */
  predicate EncryptsKeys(st: Settings) {
    st.encryptPrivateKeys && st.encryptionKey != ""
  }

  /** The `private_key` setter. */
  function SetPrivateKey(st: Settings, c: Cipher, value: Option<string>): (slot: KeySlot)
    ensures !Present(value) ==> slot == KeySlot(None, false)
    ensures slot.encrypted <==> Present(value) && EncryptsKeys(st) && c.encrypt(value.value).Some?
    ensures slot.encrypted ==> slot.stored == c.encrypt(value.value)
    ensures Present(value) && !slot.encrypted ==> slot.stored == value
  {
    if !Present(value) then KeySlot(None, false)
    else if EncryptsKeys(st) then
      match c.encrypt(value.value)
      case Some(ciphertext) => KeySlot(Some(ciphertext), true)
      case None => KeySlot(value, false)
    else KeySlot(value, false)
  }

  /** The `private_key` getter: decryption is attempted only for a slot
      flagged encrypted while a key is configured, and a failure falls back
      to the stored text. */
  function GetPrivateKey(st: Settings, c: Cipher, slot: KeySlot): (r: Option<string>)
    ensures !Present(slot.stored) ==> r == None
    ensures Present(slot.stored) && !(slot.encrypted && st.encryptionKey != "") ==> r == slot.stored
    ensures Present(slot.stored) && slot.encrypted && st.encryptionKey != "" ==>
              r == (if c.decrypt(slot.stored.value).Some? then c.decrypt(slot.stored.value) else slot.stored)
  {
    if !Present(slot.stored) then None
    else if slot.encrypted && st.encryptionKey != "" then
      match c.decrypt(slot.stored.value)
      case Some(plain) => Some(plain)
      case None => slot.stored
    else slot.stored
  }

  /** The flag never claims encryption for an empty slot. */
  lemma FlagAgreesWithStored(st: Settings, c: Cipher, value: Option<string>)
    requires Sound(c)
    ensures var slot := SetPrivateKey(st, c, value);
            slot.encrypted ==> Present(slot.stored)
  {
  }

  /** Setting a key and reading it back under the same settings and cipher
      gives the key, whether it was encrypted, left plain because
      encryption is off, or left plain because encryption failed. */
  lemma PrivateKeyRoundTrip(st: Settings, c: Cipher, key: string)
    requires Sound(c) && key != ""
    ensures GetPrivateKey(st, c, SetPrivateKey(st, c, Some(key))) == Some(key)
  {
  }

  /** Clearing the key reads back as no key. */
  lemma PrivateKeyCleared(st: Settings, c: Cipher)
    ensures GetPrivateKey(st, c, SetPrivateKey(st, c, Some(""))) == None
    ensures GetPrivateKey(st, c, SetPrivateKey(st, c, None)) == None
  {
  }

  // =====================================================================
  // NebulaConfig.config_data

  /** The `config_data` and `config_encrypted` columns of a configuration. */
  datatype ConfigSlot = ConfigSlot(stored: string, encrypted: bool)

  /** The `config_data` setter: the text is stored as given, never
      encrypted. */
  function SetConfigData(value: string): (slot: ConfigSlot)
    ensures !slot.encrypted && slot.stored == value
  {
    ConfigSlot(value, false)
  }

  /** The `config_data` getter. */
  function GetConfigData(st: Settings, c: Cipher, slot: ConfigSlot): (r: string)
    ensures !(slot.encrypted && st.encryptionKey != "") ==> r == slot.stored
    ensures slot.encrypted && st.encryptionKey != "" && c.decrypt(slot.stored).Some? ==>
              r == c.decrypt(slot.stored).value
    ensures c.decrypt(slot.stored).None? ==> r == slot.stored
  {
    if slot.encrypted && st.encryptionKey != "" then
      match c.decrypt(slot.stored)
      case Some(plain) => plain
      case None => slot.stored
    else slot.stored
  }

  /** Configuration text reads back as written, whatever the settings and
      the cipher. */
  lemma ConfigDataRoundTrip(st: Settings, c: Cipher, value: string)
    ensures GetConfigData(st, c, SetConfigData(value)) == value
  {
  }

  // =====================================================================
  // User.set_2fa_secret / get_2fa_secret

  /** `set_2fa_secret`: the new column value, or `None` when encryption
      raises (the exception is not caught). */
  function Set2faSecret(st: Settings, c: Cipher, secret: string): (r: Option<string>)
    ensures secret != "" && st.encryptionKey != "" ==> r == c.encrypt(secret)
    ensures !(secret != "" && st.encryptionKey != "") ==> r == Some(secret)
  {
    if secret != "" && st.encryptionKey != "" then c.encrypt(secret) else Some(secret)
  }

  /** `get_2fa_secret`: a failed decryption gives no secret. */
  function Get2faSecret(st: Settings, c: Cipher, stored: Option<string>): (r: Option<string>)
    ensures !(Present(stored) && st.encryptionKey != "") ==> r == stored
    ensures Present(stored) && st.encryptionKey != "" ==> r == c.decrypt(stored.value)
  {
    if Present(stored) && st.encryptionKey != "" then c.decrypt(stored.value) else stored
  }

  /** A secret that was stored reads back unchanged under the same settings
      and cipher. */
  lemma TwoFactorRoundTrip(st: Settings, c: Cipher, secret: string)
    requires Sound(c)
    requires Set2faSecret(st, c, secret).Some?
    ensures Get2faSecret(st, c, Set2faSecret(st, c, secret)) == Some(secret)
  {
  }

  /** With a sound cipher only an encryption failure stops the setter. */
  lemma TwoFactorSetFails(st: Settings, c: Cipher, secret: string)
    ensures Set2faSecret(st, c, secret).None? <==>
              secret != "" && st.encryptionKey != "" && c.encrypt(secret).None?
  {
  }
}
