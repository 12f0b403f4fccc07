/** Client provisioning (`api/client_setup.py`): a one-time token is issued
    for a device, with an overlay address picked from 192.168.100.0/24 when
    none is requested, and the token is later exchanged for a signed host
    certificate. */
module Provisioning {
  import opened Wrappers
  import opened Text
  import opened Settings
  import opened Storage
  import InputValidation

  /** Time is counted in microseconds, the resolution of Python's
      `datetime`. */
  const Second := 1_000_000
  const Hour := 3600 * Second

  /** A provisioning token is valid for 24 hours after issue. */
  const TokenLifetime := 24 * Hour

  /** Client certificates are signed for 8760 hours (one year). */
  const ClientCertHours := 8760

  // =====================================================================
  // The certificates table

  /** A row of the `certificates` table. */
  datatype Cert = Cert(
    id: int,
    name: string,
    certType: string,
    ipAddress: Option<string>,
    groups: Option<string>,
    isCa: bool,
    durationHours: int,
    publicKey: string,
    privateKey: KeySlot,
    createdBy: Option<int>,
    expiresAt: int)

  type Certs = map<int, Cert>

  /** The unique constraint of the `name` column. */
  predicate UniqueNames(t: Certs) {
    forall a, b :: a in t && b in t && t[a].name == t[b].name ==> a == b
  }

  predicate NameTaken(t: Certs, name: string) {
    exists id :: id in t && t[id].name == name
  }

  /** `ca_id` names a certificate authority. */
  predicate IsCaId(t: Certs, caId: int) {
    caId in t && t[caId].isCa
  }

  // =====================================================================
  // Address auto-assignment

  const PoolPrefix := "192.168.100."
  const FirstPoolOctet := 10

  /** The address a certificate would get for octet `n`:
      `f"192.168.100.{n}/24"`. */
  function PoolAddress(n: int): string {
    PoolPrefix + IntToString(n) + "/24"
  }

  /** The SQL filter `ip_address LIKE '192.168.100.%'`. The pattern holds
      no letters, so the case-insensitivity of `LIKE` plays no part, and a
      null address never matches. */
  predicate InPool(c: Cert) {
    c.ipAddress.Some? && PoolPrefix <= c.ipAddress.value
  }

  /** `id` is the highest id among the certificates in the pool: the first
      row of the query ordered by descending id. */
  predicate IsLatestPool(t: Certs, id: int) {
    && id in t && InPool(t[id])
    && forall j :: j in t && InPool(t[j]) ==> j <= id
  }

  /** `int(ip.split('.')[3].split('/')[0])`; `None` is the `IndexError` or
      `ValueError` the expression raises. */
  function LastOctet(ip: string): Option<int> {
    var pieces := Split(ip, '.');
    if |pieces| < 4 then None
    else ParseInt(Split(pieces[3], '/')[0])
  }

  /** The address following the latest pool certificate's address. There
      is no upper bound: octet 255 is followed by 256. */
  function NextAddress(ip: string): (r: Result<string>)
    ensures r.Err? <==> LastOctet(ip).None?
    ensures r.Err? ==> r.error == Uncaught
    ensures r.Ok? ==> r.value == PoolAddress(LastOctet(ip).value + 1)
  {
    match LastOctet(ip)
    case None => Err(Uncaught)
    case Some(last) => Ok(PoolAddress(last + 1))
  }

  /** The query for the latest certificate in the pool. */
  method LatestPoolCert(t: Certs) returns (last: Option<int>)
    ensures last.Some? ==> IsLatestPool(t, last.value)
    ensures last.None? <==> forall id :: id in t ==> !InPool(t[id])
  {
    var keys := t.Keys;
    last := None;
    while exists x :: x in keys
      invariant keys <= t.Keys
      invariant last.Some? ==> last.value in t && InPool(t[last.value])
      invariant forall j :: j in t && j !in keys && InPool(t[j]) ==> last.Some? && j <= last.value
      decreases |keys|
    {
      var x :| x in keys;
      if InPool(t[x]) && (last.None? || last.value < x) {
        last := Some(x);
      }
      keys := keys - {x};
    }
  }

  /** The address a provisioning request ends up with: the requested one
      when it is non-empty, otherwise the one after the latest pool
      certificate's, or octet 10 when the pool is empty. */
  method AssignAddress(t: Certs, requested: string) returns (r: Result<string>)
    ensures requested != "" ==> r == Ok(requested)
    ensures requested == "" && (forall id :: id in t ==> !InPool(t[id])) ==>
              r == Ok(PoolAddress(FirstPoolOctet))
    ensures requested == "" ==>
              forall id :: IsLatestPool(t, id) ==> r == NextAddress(t[id].ipAddress.value)
  {
    if requested != "" {
      return Ok(requested);
    }
    var last := LatestPoolCert(t);
    match last
    case None =>
      r := Ok(PoolAddress(FirstPoolOctet));
    case Some(id) =>
      LatestIsUnique(t, id);
      r := NextAddress(t[id].ipAddress.value);
  }

  lemma LatestIsUnique(t: Certs, id: int)
    requires IsLatestPool(t, id)
    ensures forall j :: IsLatestPool(t, j) ==> j == id
  {
  }

  // =====================================================================
  // Issuing a token

  /** The body of a provisioning request. */
  datatype ProvisionRequest = ProvisionRequest(
    deviceName: string,
    deviceType: string,
    ipAddress: string,
    caId: int,
    autoConnect: bool)

  /** What is stored under a token. */
  datatype TokenData = TokenData(
    deviceName: string,
    deviceType: string,
    ipAddress: string,
    caId: int,
    userId: int,
    expiresAt: int,
    autoConnect: bool)

  /** The token store, keyed by token text. */
  type Tokens = map<string, TokenData>

  /** The response of a provisioning request, with the token store it
      leaves behind. */
  datatype Issued = Issued(tokens: Tokens, token: string, expiresAt: int, deviceName: string, downloadUrl: string)

  const DownloadPath := "/api/client-setup/download/"
  const CaNotFound := HttpError(NotFound, "CA certificate not found")

  /** Stores the request under `token` (drawn by the caller) with an expiry
      24 hours after `now`; a token already in the store is overwritten. */
  function Issue(tokens: Tokens, req: ProvisionRequest, address: string, userId: int, token: string, now: int): (r: Issued)
    ensures r.tokens.Keys == tokens.Keys + {token}
    ensures forall k :: k in tokens && k != token ==> r.tokens[k] == tokens[k]
    ensures r.tokens[token].expiresAt == r.expiresAt == now + TokenLifetime
    ensures r.tokens[token].ipAddress == address
    ensures r.tokens[token].caId == req.caId && r.tokens[token].userId == userId
    ensures r.tokens[token].deviceName == r.deviceName == req.deviceName
    ensures r.token == token && DownloadPath <= r.downloadUrl && r.downloadUrl[|DownloadPath|..] == token
  {
    var expiresAt := now + TokenLifetime;
    var data := TokenData(req.deviceName, req.deviceType, address, req.caId, userId, expiresAt, req.autoConnect);
    Issued(tokens[token := data], token, expiresAt, req.deviceName, DownloadPath + token)
  }

  /** `provision_client_device` for user `userId` at time `now`, with
      `token` the random token. */
  method Provision(t: Certs, tokens: Tokens, req: ProvisionRequest, userId: int, token: string, now: int)
    returns (r: Result<Issued>)
    ensures !IsCaId(t, req.caId) ==> r == Err(CaNotFound)
    ensures IsCaId(t, req.caId) && req.ipAddress != "" ==>
              r == Ok(Issue(tokens, req, req.ipAddress, userId, token, now))
    ensures IsCaId(t, req.caId) && req.ipAddress == "" && (forall id :: id in t ==> !InPool(t[id])) ==>
              r == Ok(Issue(tokens, req, PoolAddress(FirstPoolOctet), userId, token, now))
    ensures IsCaId(t, req.caId) && req.ipAddress == "" ==>
              forall id :: IsLatestPool(t, id) ==>
                r == (match NextAddress(t[id].ipAddress.value)
                      case Err(e) => Err(e)
                      case Ok(a) => Ok(Issue(tokens, req, a, userId, token, now)))
  {
    if !IsCaId(t, req.caId) {
      return Err(CaNotFound);
    }
    var address := AssignAddress(t, req.ipAddress);
    match address
    case Err(e) =>
      r := Err(e);
    case Ok(a) =>
      r := Ok(Issue(tokens, req, a, userId, token, now));
  }

  // =====================================================================
  // Exchanging a token for a certificate

  /** The outcome of `sign_certificate`: the certificate and key, or the
      message of the exception it raised. */
  datatype Signature = Signed(cert: string, key: string) | SignFailed(reason: string)

  /** The files of the downloaded package that carry data (the rest is
      fixed template text). */
  datatype Package = Package(deviceName: string, caCert: string, hostCert: string, hostKey: string, ipAddress: string)

  /** A download's response together with the token store and certificate
      table it leaves behind: a failure can still remove the token. */
  datatype DownloadOutcome = DownloadOutcome(result: Result<Package>, tokens: Tokens, certs: Certs)

  const InvalidToken := HttpError(NotFound, "Invalid or expired token")
  const TokenExpired := HttpError(Gone, "Token expired")

  /** The database's message for a clash with the unique `name` column. */
  const NameClash := "UNIQUE constraint failed: certificates.name"

  function CreateFailed(reason: string): HttpError {
    HttpError(InternalServerError, "Failed to create certificate: " + reason)
  }

  /** The certificate row written for a provisioned device. */
  function ClientCert(st: Settings, c: Cipher, id: int, d: TokenData, cert: string, key: string, now: int): (row: Cert)
    ensures row.id == id && row.name == d.deviceName && row.ipAddress == Some(d.ipAddress)
    ensures row.certType == "host" && row.groups == Some("clients") && !row.isCa
    ensures row.durationHours == ClientCertHours && row.expiresAt == now + ClientCertHours * Hour
    ensures row.publicKey == cert && row.privateKey == SetPrivateKey(st, c, Some(key))
    ensures row.createdBy == Some(d.userId)
  {
    Cert(id, d.deviceName, "host", Some(d.ipAddress), Some("clients"), false, ClientCertHours,
         cert, SetPrivateKey(st, c, Some(key)), Some(d.userId), now + ClientCertHours * Hour)
  }

  /** `download_client_package` at time `now`. `sign` is what the signer
      returns for the token's device and `newId` the id the database hands
      out. */
  function Download(st: Settings, c: Cipher, t: Certs, tokens: Tokens, token: string, now: int,
                    sign: Signature, newId: int): (o: DownloadOutcome)
    requires newId !in t
    ensures token !in tokens ==> o == DownloadOutcome(Err(InvalidToken), tokens, t)
    ensures token in tokens && now > tokens[token].expiresAt ==>
              o == DownloadOutcome(Err(TokenExpired), tokens - {token}, t)
    ensures token in tokens && now <= tokens[token].expiresAt && tokens[token].caId !in t ==>
              o == DownloadOutcome(Err(CaNotFound), tokens, t)
    ensures token in tokens && now <= tokens[token].expiresAt && tokens[token].caId in t && sign.SignFailed? ==>
              o == DownloadOutcome(Err(CreateFailed(sign.reason)), tokens, t)
    ensures token in tokens && now <= tokens[token].expiresAt && tokens[token].caId in t && sign.Signed?
              && NameTaken(t, tokens[token].deviceName) ==>
              o == DownloadOutcome(Err(CreateFailed(NameClash)), tokens, t)
    ensures o.result.Ok? <==>
              && token in tokens && now <= tokens[token].expiresAt && tokens[token].caId in t
              && sign.Signed? && !NameTaken(t, tokens[token].deviceName)
    ensures o.result.Ok? ==>
              && o.tokens == tokens - {token}
              && o.certs == t[newId := ClientCert(st, c, newId, tokens[token], sign.cert, sign.key, now)]
              && o.result.value == Package(tokens[token].deviceName, t[tokens[token].caId].publicKey,
                                           sign.cert, sign.key, tokens[token].ipAddress)
  {
    if token !in tokens then DownloadOutcome(Err(InvalidToken), tokens, t)
    else
      var d := tokens[token];
      if now > d.expiresAt then DownloadOutcome(Err(TokenExpired), tokens - {token}, t)
      else if d.caId !in t then DownloadOutcome(Err(CaNotFound), tokens, t)
      else
        match sign
        case SignFailed(reason) => DownloadOutcome(Err(CreateFailed(reason)), tokens, t)
        case Signed(cert, key) =>
          if NameTaken(t, d.deviceName) then DownloadOutcome(Err(CreateFailed(NameClash)), tokens, t)
          else
            var row := ClientCert(st, c, newId, d, cert, key, now);
            DownloadOutcome(Ok(Package(d.deviceName, t[d.caId].publicKey, cert, key, d.ipAddress)),
                            tokens - {token}, t[newId := row])
  }

  /** A download keeps the certificate names unique. */
  lemma DownloadKeepsUniqueNames(st: Settings, c: Cipher, t: Certs, tokens: Tokens, token: string, now: int,
                                 sign: Signature, newId: int)
    requires newId !in t && UniqueNames(t)
    ensures UniqueNames(Download(st, c, t, tokens, token, now, sign, newId).certs)
  {
  }

  /** A token works once: after a successful download the same token is
      unknown, whatever the time and the signer. */
  lemma SecondDownloadFails(st: Settings, c: Cipher, t: Certs, tokens: Tokens, token: string, now: int,
                            sign: Signature, newId: int, later: int, sign2: Signature, newId2: int)
    requires newId !in t
    requires Download(st, c, t, tokens, token, now, sign, newId).result.Ok?
    requires newId2 !in Download(st, c, t, tokens, token, now, sign, newId).certs
    ensures var o := Download(st, c, t, tokens, token, now, sign, newId);
            Download(st, c, o.certs, o.tokens, token, later, sign2, newId2).result == Err(InvalidToken)
  {
  }

  /** A download the signer failed leaves the token usable: a retry within
      its lifetime with a working signer delivers the package. */
  lemma RetryAfterSignFailure(st: Settings, c: Cipher, t: Certs, tokens: Tokens, token: string, now: int,
                              reason: string, newId: int, later: int, cert: string, key: string)
    requires newId !in t && token in tokens && tokens[token].caId in t
    requires now <= later <= tokens[token].expiresAt
    requires !NameTaken(t, tokens[token].deviceName)
    ensures var o := Download(st, c, t, tokens, token, now, SignFailed(reason), newId);
            && o.result == Err(CreateFailed(reason))
            && Download(st, c, o.certs, o.tokens, token, later, Signed(cert, key), newId).result.Ok?
  {
  }

  /** The stored private key of the issued certificate reads back as the
      signer's key. */
  lemma IssuedKeyReadsBack(st: Settings, c: Cipher, t: Certs, tokens: Tokens, token: string, now: int,
                           sign: Signature, newId: int)
    requires newId !in t && Sound(c)
    requires Download(st, c, t, tokens, token, now, sign, newId).result.Ok? && sign.key != ""
    ensures GetPrivateKey(st, c, Download(st, c, t, tokens, token, now, sign, newId).certs[newId].privateKey)
            == Some(sign.key)
  {
    PrivateKeyRoundTrip(st, c, sign.key);
  }

  /** A token issued at `now` is honoured up to and including
      `now + 24h`, and the certificate gets the address chosen at issue. */
  lemma IssueThenDownload(st: Settings, c: Cipher, t: Certs, tokens: Tokens, req: ProvisionRequest,
                          address: string, userId: int, token: string, now: int, later: int,
                          cert: string, key: string, newId: int)
    requires newId !in t && req.caId in t && !NameTaken(t, req.deviceName)
    requires now <= later <= now + TokenLifetime
    ensures var i := Issue(tokens, req, address, userId, token, now);
            var o := Download(st, c, t, i.tokens, token, later, Signed(cert, key), newId);
            && o.result.Ok?
            && o.tokens == tokens - {token}
            && o.certs[newId].ipAddress == Some(address)
            && o.certs[newId].createdBy == Some(userId)
  {
    var i := Issue(tokens, req, address, userId, token, now);
    assert i.tokens - {token} == tokens - {token};
  }

  /** Past `now + 24h` the token is refused with 410 and removed. */
  lemma IssueThenLateDownload(st: Settings, c: Cipher, t: Certs, tokens: Tokens, req: ProvisionRequest,
                              address: string, userId: int, token: string, now: int, later: int,
                              sign: Signature, newId: int)
    requires newId !in t
    requires later > now + TokenLifetime
    ensures var i := Issue(tokens, req, address, userId, token, now);
            var o := Download(st, c, t, i.tokens, token, later, sign, newId);
            o.result == Err(TokenExpired) && o.tokens == tokens - {token}
  {
    var i := Issue(tokens, req, address, userId, token, now);
    assert i.tokens - {token} == tokens - {token};
  }

  // =====================================================================
  // Properties of the address pool

  /** `str(n)` holds neither a dot nor a slash. */
  lemma IntToStringPlain(n: int)
    ensures '.' !in IntToString(n) && '/' !in IntToString(n)
    ensures n >= 0 ==> AllDigits(IntToString(n))
    ensures n < 0 ==> IntToString(n)[0] == '-'
  {
    var s := IntToString(n);
    if n < 0 {
      var d := NatToString(-n);
      assert s == "-" + d;
      assert forall k :: 0 <= k < |s| ==> s[k] == '-' || IsDigit(s[k]) by {
        forall k | 0 <= k < |s|
          ensures s[k] == '-' || IsDigit(s[k])
        {
          if k > 0 {
            assert s[k] == d[k - 1];
          }
        }
      }
    }
  }

  lemma JoinTwo(a: string, b: string, sep: char)
    ensures Join([a, b], sep) == a + [sep] + b
  {
    assert [a, b][1..] == [b];
  }

  /** Joining the three fixed octets and a last piece with dots gives the
      pool prefix followed by that piece. */
  lemma JoinQuad(last: string)
    ensures Join(["192", "168", "100", last], '.') == PoolPrefix + last
  {
    var quad := ["192", "168", "100", last];
    assert quad[1..][1..] == ["100", last];
    JoinTwo("100", last, '.');
    assert Join(quad[1..][1..], '.') == "100." + last;
    assert Join(quad[1..], '.') == "168." + ("100." + last);
    assert Join(quad, '.') == "192." + ("168." + ("100." + last));
    assert "192." + ("168." + ("100." + last)) == PoolPrefix + last;
  }

  lemma SplitQuad(last: string)
    requires '.' !in last
    ensures Split(PoolPrefix + last, '.') == ["192", "168", "100", last]
  {
    JoinQuad(last);
    SplitJoin(["192", "168", "100", last], '.');
  }

  lemma SplitPair(a: string, b: string, sep: char)
    requires sep !in a && sep !in b
    ensures Split(a + [sep] + b, sep) == [a, b]
  {
    JoinTwo(a, b, sep);
    SplitJoin([a, b], sep);
  }

  /** `split('/')` of a pool address: the dotted part and the prefix
      length. */
  lemma PoolAddressSlashSplit(n: int)
    ensures Split(PoolAddress(n), '/') == [PoolPrefix + IntToString(n), "24"]
  {
    var s := IntToString(n);
    IntToStringPlain(n);
    assert '/' !in PoolPrefix + s;
    assert PoolAddress(n) == (PoolPrefix + s) + ['/'] + "24";
    SplitPair(PoolPrefix + s, "24", '/');
  }

  /** `split('.')` of a pool address: the three fixed octets and the
      rest. */
  lemma PoolAddressDotSplit(n: int)
    ensures Split(PoolAddress(n), '.') == ["192", "168", "100", IntToString(n) + "/24"]
  {
    var s := IntToString(n);
    IntToStringPlain(n);
    assert '.' !in s + "/24";
    assert PoolAddress(n) == PoolPrefix + (s + "/24");
    SplitQuad(s + "/24");
  }

  lemma OctetSlashSplit(n: int)
    ensures Split(IntToString(n) + "/24", '/') == [IntToString(n), "24"]
  {
    var s := IntToString(n);
    IntToStringPlain(n);
    assert s + "/24" == s + ['/'] + "24";
    SplitPair(s, "24", '/');
  }

  /** Reading back the octet of a pool address gives the octet written. */
  lemma LastOctetOfPoolAddress(n: int)
    ensures LastOctet(PoolAddress(n)) == Some(n)
  {
    PoolAddressDotSplit(n);
    OctetSlashSplit(n);
    ParseIntToString(n);
  }

  /** Every pool address lies in the pool. */
  lemma PoolAddressInPool(n: int)
    ensures PoolPrefix <= PoolAddress(n)
  {
  }

  /** Consecutive assignment: once a device with pool octet `n` has its
      certificate under an id above every existing one, the next automatic
      assignment picks octet `n + 1`. */
  lemma NextAfterDownload(st: Settings, c: Cipher, t: Certs, tokens: Tokens, token: string, now: int,
                          sign: Signature, newId: int, n: int)
    requires newId !in t && forall id :: id in t ==> id < newId
    requires token in tokens && tokens[token].ipAddress == PoolAddress(n)
    requires Download(st, c, t, tokens, token, now, sign, newId).result.Ok?
    ensures var t' := Download(st, c, t, tokens, token, now, sign, newId).certs;
            IsLatestPool(t', newId) && NextAddress(t'[newId].ipAddress.value) == Ok(PoolAddress(n + 1))
  {
    var row := ClientCert(st, c, newId, tokens[token], sign.cert, sign.key, now);
    NextAfterInsert(t, newId, row, n);
  }

  /** Inserting a certificate with pool octet `n` above every existing id
      makes it the latest, and the next assignment follows it. */
  lemma NextAfterInsert(t: Certs, newId: int, row: Cert, n: int)
    requires forall id :: id in t ==> id < newId
    requires row.ipAddress == Some(PoolAddress(n))
    ensures IsLatestPool(t[newId := row], newId)
    ensures NextAddress(row.ipAddress.value) == Ok(PoolAddress(n + 1))
  {
    PoolAddressInPool(n);
    NextOfPoolAddress(n);
  }

  /** The address after pool octet `n` is pool octet `n + 1`. */
  lemma NextOfPoolAddress(n: int)
    ensures NextAddress(PoolAddress(n)) == Ok(PoolAddress(n + 1))
  {
    var ip := PoolAddress(n);
    LastOctetOfPoolAddress(n);
    assert LastOctet(ip) == Some(n);
    var r := NextAddress(ip);
    assert r.Ok? && r.value == PoolAddress(n + 1);
  }

  lemma NatToStringShort(n: nat)
    requires n <= 999
    ensures |NatToString(n)| <= 3
  {
    if n >= 10 {
      assert |NatToString(n)| == |NatToString(n / 10)| + 1;
      if n / 10 >= 10 {
        assert |NatToString(n / 10)| == |NatToString(n / 100)| + 1;
      }
    }
  }

  /** The only reading of a pool address has the octet text as its last
      octet. */
  lemma PoolReadingLastOctet(n: int, cidr: InputValidation.CidrText)
    requires InputValidation.WellShaped(cidr) && InputValidation.Render(cidr) == PoolAddress(n)
    ensures cidr.octets[3] == IntToString(n)
  {
    var s := IntToString(n);
    InputValidation.CidrSplits(cidr);
    PoolAddressSlashSplit(n);
    var dotted := Join(cidr.octets, '.');
    assert dotted == PoolPrefix + s;
    IntToStringPlain(n);
    SplitQuad(s);
  }

  /** A pool address that passes the validator has an octet in 0..255. */
  lemma PoolAddressValidInRange(n: int, cidr: InputValidation.CidrText)
    requires InputValidation.WellShaped(cidr) && InputValidation.Render(cidr) == PoolAddress(n)
    requires InputValidation.InRange(cidr)
    ensures 0 <= n <= 255
  {
    var s := IntToString(n);
    PoolReadingLastOctet(n, cidr);
    assert DigitRun(s, 1, 3);
    IntToStringPlain(n);
    assert IsDigit(s[0]);
    assert DecimalValue(cidr.octets[3]) <= 255;
  }

  /** The four octets and the prefix length of a pool address with octet
      `n` in 0..255, as the validator reads them. */
  lemma PoolAddressReading(n: int)
    requires 0 <= n <= 255
    ensures var cidr := InputValidation.CidrText(["192", "168", "100", IntToString(n)], "24", false);
            InputValidation.WellShaped(cidr) && InputValidation.Render(cidr) == PoolAddress(n)
  {
    var s := IntToString(n);
    NatToStringShort(n);
    JoinQuad(s);
  }

  lemma FixedOctetValues()
    ensures DecimalValue("192") == 192 && DecimalValue("168") == 168
    ensures DecimalValue("100") == 100 && DecimalValue("24") == 24
  {
    assert "192"[..2] == "19" && "19"[..1] == "1" && "1"[..0] == "";
    assert "168"[..2] == "16" && "16"[..1] == "1";
    assert "100"[..2] == "10" && "10"[..1] == "1";
    assert "24"[..1] == "2" && "2"[..0] == "";
  }

  /** The pool has no upper bound: a pool address passes the address
      validator of the console exactly when its octet lies in 0..255. */
  lemma PoolAddressValid(n: int)
    ensures InputValidation.ValidateIpCidr(PoolAddress(n)) <==> 0 <= n <= 255
  {
    if InputValidation.ValidateIpCidr(PoolAddress(n)) {
      var cidr :| InputValidation.WellShaped(cidr) && InputValidation.Render(cidr) == PoolAddress(n)
                  && InputValidation.InRange(cidr);
      PoolAddressValidInRange(n, cidr);
    }
    if 0 <= n <= 255 {
      PoolAddressInRangeValid(n);
    }
  }

  /** A pool address whose octet lies in 0..255 passes the validator. */
  lemma PoolAddressInRangeValid(n: int)
    requires 0 <= n <= 255
    ensures InputValidation.ValidateIpCidr(PoolAddress(n))
  {
    var cidr := InputValidation.CidrText(["192", "168", "100", IntToString(n)], "24", false);
    PoolAddressReading(n);
    FixedOctetValues();
    assert InputValidation.InRange(cidr);
  }

  /** The address after octet 255 is produced without complaint and is
      not a valid address. */
  lemma OctetOverflow(t: Certs, id: int)
    requires IsLatestPool(t, id) && t[id].ipAddress == Some(PoolAddress(255))
    ensures NextAddress(t[id].ipAddress.value) == Ok(PoolAddress(256))
    ensures !InputValidation.ValidateIpCidr(PoolAddress(256))
  {
    NextOfPoolAddress(255);
    PoolAddressValid(256);
  }
}
