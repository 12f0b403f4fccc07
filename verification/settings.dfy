/** Application settings and the start-up security check (`core/config.py`). */
module Settings {
  import opened Text

  /** The settings the rest of the model reads. */
  datatype Settings = Settings(
    environment: string,
    secretKey: string,
    accessTokenExpireMinutes: int,
    encryptionKey: string,
    allowedOrigins: string,
    encryptPrivateKeys: bool)

  const DefaultSecretKey := "change-this-to-a-secure-secret-key"
  const MaxProductionTokenMinutes := 10080

  /** Field defaults of the settings class. */
  const Defaults := Settings(
    "development", DefaultSecretKey, 10080, "",
    "http://localhost:5173,http://127.0.0.1:5173", true)

  /** `get_allowed_origins`: split on commas and strip each piece. */
  function GetAllowedOrigins(s: Settings): (origins: seq<string>)
    ensures |origins| == Count(s.allowedOrigins, ',') + 1
    ensures forall k :: 0 <= k < |origins| ==> ',' !in origins[k]
    ensures forall k :: 0 <= k < |origins| && |origins[k]| > 0 ==>
              !IsSpace(origins[k][0]) && !IsSpace(origins[k][|origins[k]| - 1])
    ensures var pieces := Split(s.allowedOrigins, ',');
            |origins| == |pieces| && forall k :: 0 <= k < |origins| ==> StrippedFrom(origins[k], pieces[k])
  {
    SplitCount(s.allowedOrigins, ',');
    StripPieces(Split(s.allowedOrigins, ','))
  }

  /** `strip()` applied to each comma-free piece. */
  function StripPieces(pieces: seq<string>): (origins: seq<string>)
    requires forall k :: 0 <= k < |pieces| ==> ',' !in pieces[k]
    ensures |origins| == |pieces|
    ensures forall k :: 0 <= k < |pieces| ==> origins[k] == StripOf(pieces[k])
    ensures forall k :: 0 <= k < |pieces| ==> ',' !in origins[k] && StrippedFrom(origins[k], pieces[k])
    ensures forall k :: 0 <= k < |pieces| && |origins[k]| > 0 ==>
              !IsSpace(origins[k][0]) && !IsSpace(origins[k][|origins[k]| - 1])
  {
    seq(|pieces|, k requires 0 <= k < |pieces| => StripOf(pieces[k]))
  }

  /** `strip()` of a comma-free piece is comma-free. */
  function StripOf(piece: string): (r: string)
    requires ',' !in piece
    ensures ',' !in r
    ensures |r| > 0 ==> !IsSpace(r[0]) && !IsSpace(r[|r| - 1])
    ensures StrippedFrom(r, piece)
  {
    Strip(piece)
  }

  /** On a list written without whitespace nothing is stripped, so joining
      the origins back with commas gives the setting. */
  lemma OriginsRoundTrip(s: Settings)
    requires forall k :: 0 <= k < |s.allowedOrigins| ==> !IsSpace(s.allowedOrigins[k])
    ensures Join(GetAllowedOrigins(s), ',') == s.allowedOrigins
  {
    var pieces := Split(s.allowedOrigins, ',');
    var origins := GetAllowedOrigins(s);
    forall k | 0 <= k < |pieces|
      ensures origins[k] == pieces[k]
    {
      var p := pieces[k];
      assert forall i :: 0 <= i < |p| ==> !IsSpace(p[i]) by {
        PieceChars(pieces, ',', k);
      }
      StripUntrimmed(p);
    }
    assert origins == pieces;
  }

  /** Every character of a piece of `split` occurs in the text split. */
  lemma PieceChars(pieces: seq<string>, sep: char, k: nat)
    requires |pieces| >= 1 && k < |pieces|
    ensures forall i :: 0 <= i < |pieces[k]| ==> pieces[k][i] in Join(pieces, sep)
  {
    if k > 0 {
      PieceChars(pieces[1..], sep, k - 1);
      assert pieces[1..][k - 1] == pieces[k];
      assert forall x :: x in Join(pieces[1..], sep) ==> x in Join(pieces, sep);
    }
  }

  /** The warnings `validate_security_config` may collect. */
  datatype SecurityIssue = DefaultSecret | MissingEncryptionKey | LongTokenLifetime

  function IssueMessage(i: SecurityIssue): string {
    match i
    case DefaultSecret => "\U{26A0}\U{FE0F}  SECRET_KEY is using default value! Generate a secure key!"
    case MissingEncryptionKey => "\U{26A0}\U{FE0F}  ENCRYPTION_KEY is not set! Private keys won't be encrypted!"
    case LongTokenLifetime => "\U{26A0}\U{FE0F}  ACCESS_TOKEN_EXPIRE_MINUTES is too long for production!"
  }

  /** The issue list of `validate_security_config`, in the order checked. */
  function SecurityIssues(s: Settings): (issues: seq<SecurityIssue>)
    ensures s.environment != "production" ==> issues == []
    ensures s.environment == "production" ==>
              && (DefaultSecret in issues <==> s.secretKey == DefaultSecretKey)
              && (MissingEncryptionKey in issues <==> s.encryptionKey == "")
              && (LongTokenLifetime in issues <==> s.accessTokenExpireMinutes > MaxProductionTokenMinutes)
    ensures forall i, j :: 0 <= i < j < |issues| ==> issues[i] != issues[j]
  {
    if s.environment != "production" then []
    else
      (if s.secretKey == DefaultSecretKey then [DefaultSecret] else [])
      + (if s.encryptionKey == "" then [MissingEncryptionKey] else [])
      + (if s.accessTokenExpireMinutes > MaxProductionTokenMinutes then [LongTokenLifetime] else [])
  }

  /** What `validate_security_config` prints: a warning block or the
      success line. */
  datatype SecurityReport = Warnings(messages: seq<string>) | ValidatedSuccessfully

  function ValidateSecurityConfig(s: Settings): (report: SecurityReport)
    ensures report.ValidatedSuccessfully? <==> SecurityIssues(s) == []
    ensures report.Warnings? ==> |report.messages| == |SecurityIssues(s)|
                                 && forall k :: 0 <= k < |report.messages| ==>
                                      report.messages[k] == IssueMessage(SecurityIssues(s)[k])
  {
    var issues := SecurityIssues(s);
    if issues == [] then ValidatedSuccessfully
    else Warnings(seq(|issues|, k requires 0 <= k < |issues| => IssueMessage(issues[k])))
  }

  /** Outside production nothing is reported. */
  lemma QuietOutsideProduction(s: Settings)
    requires s.environment != "production"
    ensures ValidateSecurityConfig(s) == ValidatedSuccessfully
  {
  }

  /** The defaults, run in production, raise exactly the secret-key and
      encryption-key warnings. */
  lemma DefaultsInProduction()
    ensures SecurityIssues(Defaults.(environment := "production")) == [DefaultSecret, MissingEncryptionKey]
  {
  }
}
