/**
 OCSP CertIDs, single responses, nonces and freshness (src/ltv/ocsp.rs).
 */
module OcspMatching {
  import opened Results
  import opened Der
  import opened DerIntegers
  import opened Certificates
  import opened CrlVerdicts
  import opened Statuses

  const SHA1_OID: Bytes := [0x2B, 0x0E, 0x03, 0x02, 0x1A]

  /** SHA-1, and the decoding of times and of extension lists, as libraries provide them. */
  datatype OcspCodecs = OcspCodecs(
    sha1: Bytes -> Bytes,
    generalizedTime: Bytes -> Option<int>,
    singleExtensionsOk: Bytes -> bool)

  datatype OcspError =
    | OcspDer
    | OcspTag
    | OcspTime
    | OcspStatusTag
    | OcspExtensions
    | UnsupportedHash

  datatype CertStatus = Good | RevokedAt(time: int, reason: Byte) | StatusUnknown

  datatype SingleResponse = SingleResponse(
    hashOid: Bytes,
    nameHash: Bytes,
    keyHash: Bytes,
    serial: Bytes,
    status: CertStatus,
    thisUpdate: int,
    nextUpdate: Option<int>)

  // ----- the CertID of a request -----

  function Sha1AlgorithmIdentifier(): Bytes {
    EncodeTlv(0x30, EncodeTlv(0x06, SHA1_OID) + [0x05, 0x00])
  }

  function CertIdBody(k: OcspCodecs, cert: Cert, issuer: Cert): Bytes {
    Sha1AlgorithmIdentifier()
    + (EncodeTlv(0x04, k.sha1(issuer.subject))
       + (EncodeTlv(0x04, k.sha1(issuer.publicKey)) + EncodeTlv(0x02, cert.serial)))
  }

  /** The CertID that identifies `cert` of `issuer`. */
  function BuildCertId(k: OcspCodecs, cert: Cert, issuer: Cert): Bytes {
    EncodeTlv(0x30, CertIdBody(k, cert, issuer))
  }

  /** The octets of a CertID: SHA-1, the hashes of the issuer's name and of its key, and the serial number. */
  lemma {:induction false} CertIdLayout(k: OcspCodecs, cert: Cert, issuer: Cert)
    ensures BuildCertId(k, cert, issuer) ==
            EncodeTlv(0x30, [0x30, 0x09, 0x06, 0x05, 0x2B, 0x0E, 0x03, 0x02, 0x1A, 0x05, 0x00]
            + (EncodeTlv(0x04, k.sha1(issuer.subject))
               + (EncodeTlv(0x04, k.sha1(issuer.publicKey)) + EncodeTlv(0x02, cert.serial))))
  {
    Sha1Octets();
  }

  lemma {:induction false} Sha1Octets()
    ensures Sha1AlgorithmIdentifier() == [0x30, 0x09, 0x06, 0x05, 0x2B, 0x0E, 0x03, 0x02, 0x1A, 0x05, 0x00]
  {
    var oid := [0x06, 0x05, 0x2B, 0x0E, 0x03, 0x02, 0x1A];
    assert EncodeTlv(0x06, SHA1_OID) == oid;
    assert EncodeTlv(0x30, oid + [0x05, 0x00]) == [0x30, 0x09] + (oid + [0x05, 0x00]);
  }

  // ----- reading a single response -----

  function Expect(tag: Byte, pos: Bytes): Result<(Bytes, Bytes), OcspError> {
    match ParseTlv(pos)
    case Err(_) => Err(OcspDer)
    case Ok(p) => if p.tag != tag then Err(OcspTag) else Ok((p.value, p.rest))
  }

  /** Hash algorithm, name hash, key hash and stripped serial number. */
  function ReadCertId(body: Bytes): Result<(Bytes, Bytes, Bytes, Bytes), OcspError> {
    var alg :- Expect(0x30, body);
    var oid :- Expect(0x06, alg.0);
    var name :- Expect(0x04, alg.1);
    var key :- Expect(0x04, name.1);
    var serial :- Expect(0x02, key.1);
    Ok((oid.0, name.0, key.0, ParseIntegerBody(serial.0)))
  }

  function ReadTime(k: OcspCodecs, pos: Bytes): Result<(int, Bytes), OcspError> {
    var t :- Expect(0x18, pos);
    match k.generalizedTime(t.0)
    case None => Err(OcspTime)
    case Some(at) => Ok((at, t.1))
  }

  function ReadReason(pos: Bytes): Result<Byte, OcspError> {
    if pos == [] || pos[0] != 0xA0 then Ok(0)
    else
      var wrap :- Expect(0xA0, pos);
      match FirstWithTag(SplitChildren(wrap.0).0, 0x0A)
      case Some(code) => Ok(if code != [] then code[0] else 0)
      case None => Ok(0)
  }

  function ReadRevokedInfo(k: OcspCodecs, body: Bytes): Result<CertStatus, OcspError> {
    var at :- ReadTime(k, body);
    var reason :- ReadReason(at.1);
    Ok(RevokedAt(at.0, reason))
  }

  function ReadStatus(k: OcspCodecs, pos: Bytes): Result<(CertStatus, Bytes), OcspError> {
    match ParseTlv(pos)
    case Err(_) => Err(OcspDer)
    case Ok(p) =>
      if p.tag == 0x80 then Ok((Good, p.rest))
      else if p.tag == 0xA1 then
        var revoked :- ReadRevokedInfo(k, p.value);
        Ok((revoked, p.rest))
      else if p.tag == 0x82 then Ok((StatusUnknown, p.rest))
      else Err(OcspStatusTag)
  }

  function ReadNextUpdate(k: OcspCodecs, pos: Bytes): Result<(Option<int>, Bytes), OcspError> {
    if pos == [] || pos[0] != 0xA0 then Ok((None, pos))
    else
      var wrap :- Expect(0xA0, pos);
      match ParseTlv(wrap.0)
      case Err(_) => Err(OcspDer)
      case Ok(p) =>
        if p.tag != 0x18 then Ok((None, wrap.1))
        else
          match k.generalizedTime(p.value)
          case None => Err(OcspTime)
          case Some(at) => Ok((Some(at), wrap.1))
  }

  function ReadSingleExtensions(k: OcspCodecs, pos: Bytes): Result<(), OcspError> {
    if pos == [] then Ok(())
    else
      match ParseTlv(pos)
      case Err(_) => Err(OcspDer)
      case Ok(p) =>
        if p.tag != 0xA1 || p.rest != [] then Err(OcspExtensions)
        else if !k.singleExtensionsOk(p.value) then Err(OcspExtensions)
        else Ok(())
  }

  /** What follows the CertID: status, thisUpdate, nextUpdate. */
  function ReadAnswer(k: OcspCodecs, pos: Bytes): Result<(CertStatus, int, Option<int>), OcspError> {
    var status :- ReadStatus(k, pos);
    var thisUpdate :- ReadTime(k, status.1);
    var nextUpdate :- ReadNextUpdate(k, thisUpdate.1);
    var _ :- ReadSingleExtensions(k, nextUpdate.1);
    Ok((status.0, thisUpdate.0, nextUpdate.0))
  }

  function ParseSingleResponse(k: OcspCodecs, body: Bytes): Result<SingleResponse, OcspError> {
    var cid :- Expect(0x30, body);
    var id :- ReadCertId(cid.0);
    var answer :- ReadAnswer(k, cid.1);
    Ok(SingleResponse(id.0, id.1, id.2, id.3, answer.0, answer.1, answer.2))
  }

  // ----- an echoed CertID -----

  lemma {:induction false} ExpectPrinted(tag: Byte, value: Bytes, rest: Bytes)
    requires LowTag(tag) && |value| < LENGTH_LIMIT
    ensures Expect(tag, EncodeTlv(tag, value) + rest) == Ok((value, rest))
  {
    ParsePrinted(tag, value, rest);
  }

  lemma {:induction false} Sha1IdentifierReads()
    ensures |EncodeTlv(0x06, SHA1_OID) + [0x05, 0x00]| < LENGTH_LIMIT
    ensures Expect(0x06, EncodeTlv(0x06, SHA1_OID) + [0x05, 0x00]) == Ok((SHA1_OID, [0x05, 0x00]))
  {
    ExpectPrinted(0x06, SHA1_OID, [0x05, 0x00]);
  }

  /** The CertID built for a certificate reads back as its issuer hashes and its stripped serial. */
  lemma {:induction false} CertIdReadsBack(k: OcspCodecs, cert: Cert, issuer: Cert)
    requires |CertIdBody(k, cert, issuer)| < LENGTH_LIMIT
    ensures ReadCertId(CertIdBody(k, cert, issuer)) ==
            Ok((SHA1_OID, k.sha1(issuer.subject), k.sha1(issuer.publicKey), ParseIntegerBody(cert.serial)))
  {
    var name, key := k.sha1(issuer.subject), k.sha1(issuer.publicKey);
    var serial := EncodeTlv(0x02, cert.serial);
    var afterName := EncodeTlv(0x04, key) + serial;
    var afterAlg := EncodeTlv(0x04, name) + afterName;
    Sha1IdentifierReads();
    ExpectPrinted(0x30, EncodeTlv(0x06, SHA1_OID) + [0x05, 0x00], afterAlg);
    ExpectPrinted(0x04, name, afterName);
    ExpectPrinted(0x04, key, serial);
    ExpectPrinted(0x02, cert.serial, []);
    assert serial + [] == serial;
  }

  /** A response that echoes the CertID parses whenever its answer does, and reports that identity. */
  lemma {:induction false} EchoedResponseParses(k: OcspCodecs, cert: Cert, issuer: Cert, answer: Bytes)
    requires |CertIdBody(k, cert, issuer)| < LENGTH_LIMIT
    ensures ParseSingleResponse(k, BuildCertId(k, cert, issuer) + answer) ==
            match ReadAnswer(k, answer)
            case Err(e) => Err(e)
            case Ok(a) => Ok(SingleResponse(SHA1_OID, k.sha1(issuer.subject), k.sha1(issuer.publicKey),
                                            ParseIntegerBody(cert.serial), a.0, a.1, a.2))
  {
    ExpectPrinted(0x30, CertIdBody(k, cert, issuer), answer);
    CertIdReadsBack(k, cert, issuer);
  }

  /** A status and its dates, by the contents of their fields. */
  datatype StatusSyntax = GoodStatus | RevokedStatus(time: Bytes, reason: Option<Byte>) | UnknownStatus

  function PrintReason(reason: Option<Byte>): Bytes {
    if reason.None? then [] else EncodeTlv(0xA0, EncodeTlv(0x0A, [reason.value]))
  }

  function PrintStatus(s: StatusSyntax): Bytes {
    match s
    case GoodStatus => EncodeTlv(0x80, [])
    case RevokedStatus(time, reason) => EncodeTlv(0xA1, EncodeTlv(0x18, time) + PrintReason(reason))
    case UnknownStatus => EncodeTlv(0x82, [])
  }

  function PrintNextUpdate(next: Option<Bytes>): Bytes {
    if next.None? then [] else EncodeTlv(0xA0, EncodeTlv(0x18, next.value))
  }

  function PrintAnswer(s: StatusSyntax, thisUpdate: Bytes, next: Option<Bytes>): Bytes {
    PrintStatus(s) + (EncodeTlv(0x18, thisUpdate) + PrintNextUpdate(next))
  }

  /** What a printed status means; none when its time does not decode. */
  function StatusMeaning(k: OcspCodecs, s: StatusSyntax): Option<CertStatus> {
    match s
    case GoodStatus => Some(Good)
    case UnknownStatus => Some(StatusUnknown)
    case RevokedStatus(time, reason) =>
      match k.generalizedTime(time)
      case None => None
      case Some(at) => Some(RevokedAt(at, if reason.Some? then reason.value else 0))
  }

  lemma {:induction false} ReasonReadsBack(reason: Option<Byte>)
    ensures ReadReason(PrintReason(reason)) == Ok(if reason.Some? then reason.value else 0)
  {
    if reason.Some? {
      var code := Tlv(0x0A, [reason.value]);
      var inner := EncodeTlv(0x0A, [reason.value]);
      assert PrintAll([code]) == inner by {
        assert PrintAll([code]) == inner + PrintAll([code][1..]);
      }
      SplitOfWellFormed([code]);
      ExpectPrinted(0xA0, inner, []);
      assert PrintReason(reason) + [] == PrintReason(reason);
    }
  }

  lemma {:induction false} StatusReadsBack(k: OcspCodecs, s: StatusSyntax, rest: Bytes)
    requires |PrintStatus(s)| < LENGTH_LIMIT && StatusMeaning(k, s).Some?
    ensures ReadStatus(k, PrintStatus(s) + rest) == Ok((StatusMeaning(k, s).value, rest))
  {
    match s
    case GoodStatus => ParsePrinted(0x80, [], rest);
    case UnknownStatus => ParsePrinted(0x82, [], rest);
    case RevokedStatus(time, reason) =>
      ParsePrinted(0xA1, EncodeTlv(0x18, time) + PrintReason(reason), rest);
      ExpectPrinted(0x18, time, PrintReason(reason));
      ReasonReadsBack(reason);
  }

  lemma {:induction false} NextUpdateReadsBack(k: OcspCodecs, next: Option<Bytes>)
    requires |PrintNextUpdate(next)| < LENGTH_LIMIT && (next.Some? ==> k.generalizedTime(next.value).Some?)
    ensures ReadNextUpdate(k, PrintNextUpdate(next)) ==
            Ok((if next.Some? then k.generalizedTime(next.value) else None, []))
  {
    if next.Some? {
      var inner := EncodeTlv(0x18, next.value);
      ExpectPrinted(0xA0, inner, []);
      ParsePrinted(0x18, next.value, []);
      assert PrintNextUpdate(next) + [] == PrintNextUpdate(next) && inner + [] == inner;
    }
  }

  /** A printed answer reads back: its status and its dates. */
  lemma {:induction false} AnswerReadsBack(k: OcspCodecs, s: StatusSyntax, thisUpdate: Bytes, next: Option<Bytes>)
    requires |PrintAnswer(s, thisUpdate, next)| < LENGTH_LIMIT && StatusMeaning(k, s).Some?
    requires k.generalizedTime(thisUpdate).Some? && (next.Some? ==> k.generalizedTime(next.value).Some?)
    ensures ReadAnswer(k, PrintAnswer(s, thisUpdate, next)) ==
            Ok((StatusMeaning(k, s).value, k.generalizedTime(thisUpdate).value,
                if next.Some? then k.generalizedTime(next.value) else None))
  {
    StatusReadsBack(k, s, EncodeTlv(0x18, thisUpdate) + PrintNextUpdate(next));
    ExpectPrinted(0x18, thisUpdate, PrintNextUpdate(next));
    NextUpdateReadsBack(k, next);
  }

  lemma {:induction false} NextUpdateLeaves(k: OcspCodecs, next: Option<Bytes>, exts: Bytes)
    requires next.Some? ==> |EncodeTlv(0x18, next.value)| < LENGTH_LIMIT && k.generalizedTime(next.value).Some?
    ensures ReadNextUpdate(k, PrintNextUpdate(next) + EncodeTlv(0xA1, exts)) ==
            Ok((if next.Some? then k.generalizedTime(next.value) else None, EncodeTlv(0xA1, exts)))
  {
    if next.None? {
      assert PrintNextUpdate(next) + EncodeTlv(0xA1, exts) == EncodeTlv(0xA1, exts);
    } else {
      var inner := EncodeTlv(0x18, next.value);
      ExpectPrinted(0xA0, inner, EncodeTlv(0xA1, exts));
      assert inner + [] == inner;
      ParsePrinted(0x18, next.value, []);
    }
  }

  lemma {:induction false} ExtensionsRead(k: OcspCodecs, exts: Bytes)
    requires |exts| < LENGTH_LIMIT
    ensures ReadSingleExtensions(k, EncodeTlv(0xA1, exts)) == if k.singleExtensionsOk(exts) then Ok(())
            else Err(OcspExtensions)
  {
    assert EncodeTlv(0xA1, exts) + [] == EncodeTlv(0xA1, exts);
    ParsePrinted(0xA1, exts, []);
  }

  lemma {:induction false} PartsFit(s: StatusSyntax, thisUpdate: Bytes, next: Option<Bytes>)
    requires |PrintAnswer(s, thisUpdate, next)| < LENGTH_LIMIT
    ensures |PrintStatus(s)| < LENGTH_LIMIT && |thisUpdate| < LENGTH_LIMIT
    ensures next.Some? ==> |EncodeTlv(0x18, next.value)| < LENGTH_LIMIT
  {
  }

  /** Extensions may follow the dates, once, and must be acceptable. */
  lemma {:induction false} AnswerWithExtensions(k: OcspCodecs, s: StatusSyntax, thisUpdate: Bytes, next: Option<Bytes>,
                                                exts: Bytes)
    requires |PrintAnswer(s, thisUpdate, next)| < LENGTH_LIMIT && StatusMeaning(k, s).Some? && |exts| < LENGTH_LIMIT
    requires k.generalizedTime(thisUpdate).Some? && (next.Some? ==> k.generalizedTime(next.value).Some?)
    ensures var tail := PrintNextUpdate(next) + EncodeTlv(0xA1, exts);
            ReadAnswer(k, PrintStatus(s) + (EncodeTlv(0x18, thisUpdate) + tail)) ==
            if !k.singleExtensionsOk(exts) then Err(OcspExtensions)
            else Ok((StatusMeaning(k, s).value, k.generalizedTime(thisUpdate).value,
                     if next.Some? then k.generalizedTime(next.value) else None))
  {
    var tail := PrintNextUpdate(next) + EncodeTlv(0xA1, exts);
    PartsFit(s, thisUpdate, next);
    StatusReadsBack(k, s, EncodeTlv(0x18, thisUpdate) + tail);
    ExpectPrinted(0x18, thisUpdate, tail);
    NextUpdateLeaves(k, next, exts);
    ExtensionsRead(k, exts);
  }

  // ----- finding the response for a certificate -----

  predicate Identifies(r: SingleResponse, nameHash: Bytes, keyHash: Bytes, serial: Bytes) {
    r.nameHash == nameHash && r.keyHash == keyHash && IntegerBodiesEqual(r.serial, serial)
  }

  /** The first response for the identity, which must use the hash the request used. */
  function FirstMatch(rs: seq<SingleResponse>, nameHash: Bytes, keyHash: Bytes, serial: Bytes)
    : Result<Option<SingleResponse>, OcspError>
  {
    if rs == [] then Ok(None)
    else if !Identifies(rs[0], nameHash, keyHash, serial) then FirstMatch(rs[1..], nameHash, keyHash, serial)
    else if rs[0].hashOid != SHA1_OID then Err(UnsupportedHash)
    else Ok(Some(rs[0]))
  }

  /** The scanning loop. */
  method FindMatchingResponse(rs: seq<SingleResponse>, nameHash: Bytes, keyHash: Bytes, serial: Bytes)
    returns (r: Result<Option<SingleResponse>, OcspError>)
    ensures r == FirstMatch(rs, nameHash, keyHash, serial)
  {
    for i := 0 to |rs|
      invariant FirstMatch(rs, nameHash, keyHash, serial) == FirstMatch(rs[i..], nameHash, keyHash, serial)
    {
      assert rs[i..][1..] == rs[i + 1..];
      if rs[i].nameHash == nameHash && rs[i].keyHash == keyHash && IntegerBodiesEqual(rs[i].serial, serial) {
        if rs[i].hashOid != SHA1_OID {
          return Err(UnsupportedHash);
        }
        return Ok(Some(rs[i]));
      }
    }
    return Ok(None);
  }

  lemma {:induction false} FirstMatchIsFirst(rs: seq<SingleResponse>, nameHash: Bytes, keyHash: Bytes, serial: Bytes,
                                             i: nat)
    requires i < |rs| && Identifies(rs[i], nameHash, keyHash, serial)
    requires forall j :: 0 <= j < i ==> !Identifies(rs[j], nameHash, keyHash, serial)
    ensures FirstMatch(rs, nameHash, keyHash, serial) ==
            if rs[i].hashOid == SHA1_OID then Ok(Some(rs[i])) else Err(UnsupportedHash)
  {
    if i > 0 {
      FirstMatchIsFirst(rs[1..], nameHash, keyHash, serial, i - 1);
    }
  }

  lemma {:induction false} FirstMatchIdentifies(rs: seq<SingleResponse>, nameHash: Bytes, keyHash: Bytes, serial: Bytes)
    requires FirstMatch(rs, nameHash, keyHash, serial).Ok? && FirstMatch(rs, nameHash, keyHash, serial).value.Some?
    ensures var r := FirstMatch(rs, nameHash, keyHash, serial).value.value;
            r in rs && Identifies(r, nameHash, keyHash, serial) && r.hashOid == SHA1_OID
  {
    if !Identifies(rs[0], nameHash, keyHash, serial) {
      FirstMatchIdentifies(rs[1..], nameHash, keyHash, serial);
    }
  }

  /** Looking up the certificate, as the check does. */
  function LookUp(k: OcspCodecs, rs: seq<SingleResponse>, cert: Cert, issuer: Cert)
    : Result<Option<SingleResponse>, OcspError>
  {
    FirstMatch(rs, k.sha1(issuer.subject), k.sha1(issuer.publicKey), ParseIntegerBody(cert.serial))
  }

  /**
   A response that echoes the CertID of the certificate is the match, for every serial
   number, when no earlier response identifies the certificate.
   */
  lemma {:induction false} EchoIsMatched(k: OcspCodecs, rs: seq<SingleResponse>, cert: Cert, issuer: Cert,
                                         answer: Bytes, i: nat)
    requires |CertIdBody(k, cert, issuer)| < LENGTH_LIMIT
    requires i < |rs| && ParseSingleResponse(k, BuildCertId(k, cert, issuer) + answer) == Ok(rs[i])
    requires forall j :: 0 <= j < i ==>
               !Identifies(rs[j], k.sha1(issuer.subject), k.sha1(issuer.publicKey), ParseIntegerBody(cert.serial))
    ensures LookUp(k, rs, cert, issuer) == Ok(Some(rs[i]))
  {
    EchoedResponseParses(k, cert, issuer, answer);
    FirstMatchIsFirst(rs, k.sha1(issuer.subject), k.sha1(issuer.publicKey), ParseIntegerBody(cert.serial), i);
  }

  ghost predicate InjectiveHash(k: OcspCodecs) {
    forall a, b :: k.sha1(a) == k.sha1(b) ==> a == b
  }

  /** The CertID of `other` under `otherIssuer` is what the response reports. */
  predicate Reports(k: OcspCodecs, r: SingleResponse, other: Cert, otherIssuer: Cert) {
    && r.nameHash == k.sha1(otherIssuer.subject) && r.keyHash == k.sha1(otherIssuer.publicKey)
    && r.serial == ParseIntegerBody(other.serial)
  }

  /**
   Without hash collisions a match is about the same issuer name, issuer key and serial
   value, although leading zeros are stripped twice on the way; and for minimal
   non-negative serials about the same serial.
   */
  lemma {:induction false} MatchIsAboutTheCertificate(k: OcspCodecs, rs: seq<SingleResponse>, cert: Cert, issuer: Cert,
                                                      other: Cert, otherIssuer: Cert)
    requires InjectiveHash(k)
    requires LookUp(k, rs, cert, issuer).Ok? && LookUp(k, rs, cert, issuer).value.Some?
    requires Reports(k, LookUp(k, rs, cert, issuer).value.value, other, otherIssuer)
    ensures otherIssuer.subject == issuer.subject && otherIssuer.publicKey == issuer.publicKey
    ensures BeValue(other.serial) == BeValue(cert.serial)
    ensures MinimalNonNegative(cert.serial) && MinimalNonNegative(other.serial) ==> other.serial == cert.serial
  {
    var r := LookUp(k, rs, cert, issuer).value.value;
    FirstMatchIdentifies(rs, k.sha1(issuer.subject), k.sha1(issuer.publicKey), ParseIntegerBody(cert.serial));
    StripOneKeepsValue(cert.serial);
    StripOneKeepsValue(other.serial);
    StripOneKeepsValue(ParseIntegerBody(cert.serial));
    StripOneKeepsValue(ParseIntegerBody(other.serial));
    if MinimalNonNegative(cert.serial) && MinimalNonNegative(other.serial) {
      PaddingInsensitiveEquality(other.serial, cert.serial);
    }
  }

  // ----- nonces -----

  /** The three-way comparison of the response's nonce with the one that was sent. */
  predicate NonceMatches(request: Bytes, response: Bytes) {
    || response == request
    || response == EncodeTlv(0x04, request)
    || (response != [] && response[0] == 0x04 && ParseTlv(response).Ok?
        && ParseTlv(response).value.tag == 0x04 && ParseTlv(response).value.rest == []
        && ParseTlv(response).value.value == request)
  }

  /** Exactly two byte strings are accepted: the nonce, and the nonce as an OCTET STRING. */
  lemma {:induction false} NonceMatchesExactlyTwo(request: Bytes, response: Bytes)
    ensures NonceMatches(request, response) <==> response == request || response == EncodeTlv(0x04, request)
  {
    if ParseTlv(response).Ok? {
      PrintParsed(response);
      var p := ParseTlv(response).value;
      assert p.rest == [] ==> response == EncodeTlv(p.tag, p.value);
    }
  }

  // ----- freshness and status -----

  /** The status of the single response at an instant; an error outside its window. */
  function StatusAt(r: SingleResponse, f: Freshness, now: int): Option<ValidationStatus> {
    if !DatesOk(r.thisUpdate, r.nextUpdate, now, f) then None
    else
      match r.status
      case Good => Some(Valid(FromOcsp, now))
      case RevokedAt(time, reason) => Some(if time > now then Valid(FromOcsp, now) else Revoked(FromOcsp, reason, time))
      case StatusUnknown => Some(Unknown(ReportedUnknown))
  }

  /** The instant is not past the response's window, whose ends are in order. */
  predicate Fresh(r: SingleResponse, f: Freshness, now: int) {
    match r.nextUpdate
    case Some(next) => r.thisUpdate <= next && now <= next + f.clockSkew
    case None => now <= r.thisUpdate + f.maxAgeWithoutNextUpdate + f.clockSkew
  }

  /**
   A fresh response answers revoked, with its reason and date, exactly when it says so with a
   date not after the instant; unknown exactly when it says unknown; valid otherwise.
   */
  lemma {:induction false} StatusAtMeans(r: SingleResponse, f: Freshness, now: int)
    ensures StatusAt(r, f, now) ==
            if !Fresh(r, f, now) then None
            else if r.status.RevokedAt? && r.status.time <= now
              then Some(Revoked(FromOcsp, r.status.reason, r.status.time))
            else if r.status.StatusUnknown? then Some(Unknown(ReportedUnknown))
            else Some(Valid(FromOcsp, now))
  {
    assert r.status.Good? || r.status.RevokedAt? || r.status.StatusUnknown?;
  }

  /** Over time a revoked answer stays that answer until the response expires, which it does for good. */
  lemma {:induction false} OcspStatusOverTime(r: SingleResponse, f: Freshness, t1: int, t2: int)
    requires t1 <= t2
    ensures StatusAt(r, f, t1).None? ==> StatusAt(r, f, t2).None?
    ensures StatusAt(r, f, t1).Some? && StatusAt(r, f, t1).value.Revoked? ==>
              StatusAt(r, f, t2).None? || StatusAt(r, f, t2) == StatusAt(r, f, t1)
    ensures StatusAt(r, f, t2).Some? && StatusAt(r, f, t2).value.Valid? ==>
              StatusAt(r, f, t1).Some? && StatusAt(r, f, t1).value.Valid?
  {
    assert r.status.Good? || r.status.RevokedAt? || r.status.StatusUnknown?;
  }
}
