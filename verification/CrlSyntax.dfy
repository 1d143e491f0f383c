/**
 The DER of a certificate revocation list (src/ltv/crl.rs, `parse_crl`; section 5.1 of
 RFC 5280): what is accepted, how it prints, and that the two are inverse.
 */
module CrlSyntax {
  import opened Results
  import opened Der
  import opened DerIntegers

  /** An AlgorithmIdentifier as the library decodes it. */
  datatype Algorithm = Algorithm(oid: Bytes, parameters: Option<Bytes>)

  datatype CrlExtension = CrlExtension(oid: Bytes, critical: bool, value: Bytes)

  /** Decoding that the model takes from libraries: algorithms, extension lists and calendar times. */
  datatype Codecs = Codecs(
    decodeAlgorithm: Bytes -> Option<Algorithm>,
    decodeExtensions: Bytes -> Option<seq<CrlExtension>>,
    utcTime: Bytes -> Option<int>,
    generalizedTime: Bytes -> Option<int>)

  const SEQ: Byte := 0x30
  const INTEGER: Byte := 0x02
  const BIT_STRING: Byte := 0x03
  const UTC_TIME: Byte := 0x17
  const GENERALIZED_TIME: Byte := 0x18
  const EXTENSIONS: Byte := 0xA0

  const DELTA_CRL_INDICATOR: Bytes := [0x55, 0x1D, 0x1B]
  const ISSUING_DIST_POINT: Bytes := [0x55, 0x1D, 0x1C]
  const CERTIFICATE_ISSUER: Bytes := [0x55, 0x1D, 0x1D]
  const REASON_CODE: Bytes := [0x55, 0x1D, 0x15]

  datatype CrlError =
    | CrlDer
    | CrlTag
    | CrlTrailing
    | CrlAlgorithm
    | CrlAlgorithmMismatch
    | CrlSignatureBits
    | CrlVersion
    | CrlTime
    | CrlExtensions
    | CrlDelta
    | CrlPartitioned

  function Lift<T>(r: Result<T, DerError>): Result<T, CrlError> {
    match r
    case Ok(v) => Ok(v)
    case Err(_) => Err(CrlDer)
  }

  // ----- abstract syntax -----

  datatype TimeField = TimeField(tag: Byte, body: Bytes)

  /** A revoked certificate; `extensions` is empty or the DER of its extension list. */
  datatype EntrySyntax = EntrySyntax(serial: Bytes, date: TimeField, extensions: Bytes)

  /** The signed part: fields by their contents, optional fields by presence. */
  datatype TbsSyntax = TbsSyntax(
    explicitVersion: bool,
    algorithm: Bytes,
    issuer: Bytes,
    thisUpdate: TimeField,
    nextUpdate: Option<TimeField>,
    revoked: Option<seq<EntrySyntax>>,
    extensions: Option<Bytes>)

  datatype CrlSyntax = CrlSyntax(tbs: TbsSyntax, algorithm: Bytes, signature: Bytes)

  // ----- printing -----

  function PrintTime(t: TimeField): Bytes {
    EncodeTlv(t.tag, t.body)
  }

  function PrintOptionalTime(t: Option<TimeField>): Bytes {
    if t.None? then [] else PrintTime(t.value)
  }

  function PrintVersion(explicit: bool): Bytes {
    if explicit then EncodeTlv(INTEGER, [1]) else []
  }

  function EntryBody(e: EntrySyntax): Bytes {
    EncodeTlv(INTEGER, e.serial) + (PrintTime(e.date) + e.extensions)
  }

  function PrintEntries(es: seq<EntrySyntax>): Bytes {
    if es == [] then [] else EncodeTlv(SEQ, EntryBody(es[0])) + PrintEntries(es[1..])
  }

  function PrintRevoked(es: Option<seq<EntrySyntax>>): Bytes {
    if es.None? then [] else EncodeTlv(SEQ, PrintEntries(es.value))
  }

  function PrintExtensions(exts: Option<Bytes>): Bytes {
    if exts.None? then [] else EncodeTlv(EXTENSIONS, EncodeTlv(SEQ, exts.value))
  }

  function TbsBody(t: TbsSyntax): Bytes {
    PrintVersion(t.explicitVersion)
      + (EncodeTlv(SEQ, t.algorithm) + (EncodeTlv(SEQ, t.issuer) + (PrintTime(t.thisUpdate)
    + (PrintOptionalTime(t.nextUpdate) + (PrintRevoked(t.revoked) + PrintExtensions(t.extensions))))))
  }

  /** The bytes the signature covers. */
  function PrintTbs(t: TbsSyntax): Bytes {
    EncodeTlv(SEQ, TbsBody(t))
  }

  function CrlBody(c: CrlSyntax): Bytes {
    PrintTbs(c.tbs) + (EncodeTlv(SEQ, c.algorithm) + EncodeTlv(BIT_STRING, [0] + c.signature))
  }

  function PrintCrl(c: CrlSyntax): Bytes {
    EncodeTlv(SEQ, CrlBody(c))
  }

  // ----- what the fields must satisfy -----

  function TimeValue(k: Codecs, t: TimeField): Option<int> {
    if t.tag == UTC_TIME then k.utcTime(t.body)
    else if t.tag == GENERALIZED_TIME then k.generalizedTime(t.body)
    else None
  }

  /** One decoded extension of a complete, direct CRL or of one of its entries. */
  predicate ExtensionAllowed(e: CrlExtension) {
    && !e.critical
    && e.oid != CERTIFICATE_ISSUER
    && (e.oid == REASON_CODE ==> ReasonAllowed(e.value))
  }

  predicate ReasonAllowed(value: Bytes) {
    && ParseTlv(value).Ok?
    && ParseTlv(value).value.tag == 0x0A && |ParseTlv(value).value.value| == 1 && ParseTlv(value).value.rest == []
    && ParseTlv(value).value.value[0] <= 10
    && ParseTlv(value).value.value[0] != 7 && ParseTlv(value).value.value[0] != 8
  }

  /** A non-empty list of allowed extensions, no identifier twice. */
  predicate ExtensionsAllowed(k: Codecs, encoded: Bytes) {
    && k.decodeExtensions(encoded).Some?
    && var es := k.decodeExtensions(encoded).value;
       && es != []
       && (forall i :: 0 <= i < |es| ==> ExtensionAllowed(es[i]))
       && (forall i, j :: 0 <= i < j < |es| ==> es[i].oid != es[j].oid)
  }

  /** The loop over the decoded extensions. */
  method ValidateCrlExtensions(k: Codecs, encoded: Bytes) returns (ok: bool)
    ensures ok <==> ExtensionsAllowed(k, encoded)
  {
    var decoded := k.decodeExtensions(encoded);
    if decoded.None? || decoded.value == [] {
      return false;
    }
    var es := decoded.value;
    var seen: set<Bytes> := {};
    for i := 0 to |es|
      invariant forall o :: o in seen <==> exists j :: 0 <= j < i && es[j].oid == o
      invariant forall j, l :: 0 <= j < l < i ==> es[j].oid != es[l].oid
      invariant forall j :: 0 <= j < i ==> ExtensionAllowed(es[j])
    {
      if es[i].oid in seen {
        return false;
      }
      seen := seen + {es[i].oid};
      if es[i].critical || es[i].oid == CERTIFICATE_ISSUER {
        return false;
      }
      if es[i].oid == REASON_CODE && !ReasonAllowed(es[i].value) {
        return false;
      }
    }
    return true;
  }

  /** Whether an extension list names `target`; a malformed list is an error, not an absence. */
  function ContainsOid(body: Bytes, target: Bytes): Result<bool, CrlError>
    decreases |body|
  {
    if body == [] then Ok(false)
    else
      var ext :- Lift(ParseTlv(body));
      if ext.tag != SEQ then Err(CrlExtensions)
      else
        var oid :- Lift(ParseTlv(ext.value));
        if oid.tag == 0x06 && oid.value == target then Ok(true) else ContainsOid(ext.rest, target)
  }

  /** The cursor loop over the extension list. */
  method ExtensionsContainOid(body: Bytes, target: Bytes) returns (r: Result<bool, CrlError>)
    ensures r == ContainsOid(body, target)
  {
    var pos := body;
    while pos != []
      invariant ContainsOid(body, target) == ContainsOid(pos, target)
      decreases |pos|
    {
      var ext :- Lift(ParseTlv(pos));
      if ext.tag != SEQ {
        return Err(CrlExtensions);
      }
      var oid :- Lift(ParseTlv(ext.value));
      if oid.tag == 0x06 && oid.value == target {
        return Ok(true);
      }
      pos := ext.rest;
    }
    return Ok(false);
  }

  /** The element is a SEQUENCE that starts with some element, whatever follows. */
  predicate IsExtension(t: Tlv) {
    t.tag == SEQ && ParseTlv(t.value).Ok?
  }

  predicate Names(t: Tlv, target: Bytes) {
    IsExtension(t) && ParseTlv(t.value).value.tag == 0x06 && ParseTlv(t.value).value.value == target
  }

  /** The element at `i` names the target, and those before it are extensions. */
  ghost predicate NamedAt(ts: seq<Tlv>, target: Bytes, i: int) {
    0 <= i < |ts| && Names(ts[i], target) && forall j :: 0 <= j < i ==> IsExtension(ts[j])
  }

  ghost predicate Reaches(ts: seq<Tlv>, target: Bytes) {
    exists i :: NamedAt(ts, target, i)
  }

  lemma {:induction false} NamedAtSteps(t: Tlv, ts: seq<Tlv>, target: Bytes, i: nat)
    ensures NamedAt([t] + ts, target, i + 1) <==> IsExtension(t) && NamedAt(ts, target, i)
  {
    var all := [t] + ts;
    assert all[0] == t && forall j :: 0 <= j < |ts| ==> ts[j] == all[j + 1];
    assert forall j :: 1 <= j < |all| ==> all[j] == ts[j - 1];
  }

  lemma {:induction false} ReachesSteps(t: Tlv, ts: seq<Tlv>, target: Bytes)
    ensures Reaches([t] + ts, target) <==> Names(t, target) || (IsExtension(t) && Reaches(ts, target))
  {
    if Names(t, target) {
      assert NamedAt([t] + ts, target, 0);
    } else if Reaches([t] + ts, target) {
      var i :| NamedAt([t] + ts, target, i);
      NamedAtSteps(t, ts, target, i - 1);
    } else if IsExtension(t) && Reaches(ts, target) {
      var i :| NamedAt(ts, target, i);
      NamedAtSteps(t, ts, target, i);
    }
  }

  /**
   The identifier is found exactly when an element names it after well-formed extensions
   only, and is absent exactly when the whole body is well-formed extensions that do not.
   */
  lemma {:induction false} ContainsOidReads(body: Bytes, target: Bytes)
    ensures ContainsOid(body, target) == Ok(true) <==> Reaches(SplitChildren(body).0, target)
    ensures ContainsOid(body, target) == Ok(false) <==>
            && ParseAll(body).Ok?
            && forall t <- ParseAll(body).value :: IsExtension(t) && !Names(t, target)
    decreases |body|
  {
    if body != [] && ParseTlv(body).Ok? {
      var p := ParseTlv(body).value;
      var t := Tlv(p.tag, p.value);
      ContainsOidReads(p.rest, target);
      ReachesSteps(t, SplitChildren(p.rest).0, target);
      ParseAllSteps(body);
      if ParseAll(body).Ok? {
        assert forall u :: u in ParseAll(body).value <==> u == t || u in ParseAll(p.rest).value;
      }
    }
  }

  /** Neither a delta CRL nor a partitioned one, and only allowed extensions. */
  function CheckListExtensions(k: Codecs, body: Bytes): Result<(), CrlError> {
    var delta :- ContainsOid(body, DELTA_CRL_INDICATOR);
    if delta then Err(CrlDelta)
    else
      var partitioned :- ContainsOid(body, ISSUING_DIST_POINT);
      if partitioned then Err(CrlPartitioned)
      else if !ExtensionsAllowed(k, EncodeTlv(SEQ, body)) then Err(CrlExtensions)
      else Ok(())
  }

  predicate EntryOk(k: Codecs, e: EntrySyntax) {
    && TimeValue(k, e.date).Some?
    && (e.extensions != [] ==> ExtensionsAllowed(k, e.extensions))
  }

  predicate TbsOk(k: Codecs, t: TbsSyntax) {
    && TimeValue(k, t.thisUpdate).Some?
    && (t.nextUpdate.Some? ==> TimeValue(k, t.nextUpdate.value).Some?)
    && (t.revoked.Some? ==> forall e <- t.revoked.value :: EntryOk(k, e))
    && (t.extensions.Some? ==> CheckListExtensions(k, t.extensions.value).Ok?)
  }

  predicate CrlOk(k: Codecs, c: CrlSyntax) {
    && |CrlBody(c)| < LENGTH_LIMIT
    && c.signature != []
    && k.decodeAlgorithm(EncodeTlv(SEQ, c.algorithm)).Some?
    && k.decodeAlgorithm(EncodeTlv(SEQ, c.tbs.algorithm)) == k.decodeAlgorithm(EncodeTlv(SEQ, c.algorithm))
    && TbsOk(k, c.tbs)
  }

  // ----- what that says, with the tags and identifiers spelled out -----

  /** A UTCTime or GeneralizedTime that decodes. */
  predicate GoodTime(k: Codecs, t: TimeField) {
    (t.tag == 0x17 && k.utcTime(t.body).Some?) || (t.tag == 0x18 && k.generalizedTime(t.body).Some?)
  }

  /** One ENUMERATED octet, one of the assigned reason codes that a complete CRL may give. */
  predicate GoodReason(value: Bytes) {
    exists code: Byte :: code in {0, 1, 2, 3, 4, 5, 6, 9, 10} && value == EncodeTlv(0x0A, [code])
  }

  /** A non-empty list without repeats, nothing critical, no certificateIssuer, and only good reason codes. */
  predicate GoodExtensions(k: Codecs, encoded: Bytes) {
    && k.decodeExtensions(encoded).Some?
    && var es := k.decodeExtensions(encoded).value;
       && es != []
       && (forall i, j :: 0 <= i < j < |es| ==> es[i].oid != es[j].oid)
       && forall i :: 0 <= i < |es| ==>
            && !es[i].critical && es[i].oid != [0x55, 0x1D, 0x1D]
            && (es[i].oid == [0x55, 0x1D, 0x15] ==> GoodReason(es[i].value))
  }

  /** The element starts with this identifier. */
  predicate Identified(t: Tlv, oid: Bytes) {
    ParseTlv(t.value).Ok? && ParseTlv(t.value).value.tag == 0x06 && ParseTlv(t.value).value.value == oid
  }

  /** Good extensions, none of which marks a delta CRL or a CRL for a part of the scope. */
  predicate GoodListExtensions(k: Codecs, body: Bytes) {
    && ParseAll(body).Ok?
    && (forall t <- ParseAll(body).value ::
          && t.tag == 0x30 && ParseTlv(t.value).Ok?
          && !Identified(t, [0x55, 0x1D, 0x1B]) && !Identified(t, [0x55, 0x1D, 0x1C]))
    && GoodExtensions(k, EncodeTlv(0x30, body))
  }

  lemma {:induction false} TimeMeans(k: Codecs, t: TimeField)
    ensures TimeValue(k, t).Some? <==> GoodTime(k, t)
    ensures t.tag == 0x17 ==> TimeValue(k, t) == k.utcTime(t.body)
    ensures t.tag == 0x18 ==> TimeValue(k, t) == k.generalizedTime(t.body)
  {
  }

  lemma {:induction false} ReasonMeans(value: Bytes)
    ensures ReasonAllowed(value) <==> GoodReason(value)
  {
    if ReasonAllowed(value) {
      var p := ParseTlv(value).value;
      PrintParsed(value);
      assert p.value == [p.value[0]];
      assert value == EncodeTlv(0x0A, [p.value[0]]) + [] == EncodeTlv(0x0A, [p.value[0]]);
    }
    if code: Byte :| code in {0, 1, 2, 3, 4, 5, 6, 9, 10} && value == EncodeTlv(0x0A, [code]) {
      ParsePrinted(0x0A, [code], []);
      assert value + [] == value;
    }
  }

  lemma {:induction false} ExtensionsMean(k: Codecs, encoded: Bytes)
    ensures ExtensionsAllowed(k, encoded) <==> GoodExtensions(k, encoded)
  {
    if k.decodeExtensions(encoded).Some? {
      var es := k.decodeExtensions(encoded).value;
      forall i | 0 <= i < |es| ensures ReasonAllowed(es[i].value) <==> GoodReason(es[i].value) {
        ReasonMeans(es[i].value);
      }
    }
  }

  lemma {:induction false} ListExtensionsMean(k: Codecs, body: Bytes)
    ensures CheckListExtensions(k, body).Ok? <==> GoodListExtensions(k, body)
  {
    ContainsOidReads(body, DELTA_CRL_INDICATOR);
    ContainsOidReads(body, ISSUING_DIST_POINT);
    ExtensionsMean(k, EncodeTlv(0x30, body));
  }

  /**
   A complete direct CRL: its algorithm is stated twice alike, it is signed, its dates
   decode, and neither its own extensions nor those of its entries change what it covers.
   */
  lemma {:induction false} CrlOkMeans(k: Codecs, c: CrlSyntax)
    ensures CrlOk(k, c) <==>
            && |CrlBody(c)| < LENGTH_LIMIT && c.signature != []
            && k.decodeAlgorithm(EncodeTlv(0x30, c.algorithm)).Some?
            && k.decodeAlgorithm(EncodeTlv(0x30, c.tbs.algorithm)) == k.decodeAlgorithm(EncodeTlv(0x30, c.algorithm))
            && GoodTime(k, c.tbs.thisUpdate)
            && (c.tbs.nextUpdate.Some? ==> GoodTime(k, c.tbs.nextUpdate.value))
            && (c.tbs.extensions.Some? ==> GoodListExtensions(k, c.tbs.extensions.value))
            && (c.tbs.revoked.Some? ==>
                  forall e <- c.tbs.revoked.value ::
                    GoodTime(k, e.date) && (e.extensions != [] ==> GoodExtensions(k, e.extensions)))
  {
    if c.tbs.extensions.Some? {
      ListExtensionsMean(k, c.tbs.extensions.value);
    }
    if c.tbs.revoked.Some? {
      forall e <- c.tbs.revoked.value
        ensures EntryOk(k, e) <==> GoodTime(k, e.date) && (e.extensions != [] ==> GoodExtensions(k, e.extensions))
      {
        ExtensionsMean(k, e.extensions);
      }
    }
  }

  /** The layout of section 5.1 of RFC 5280, tag by tag. */
  lemma {:induction false} CrlLayout(c: CrlSyntax)
    ensures PrintCrl(c) ==
            EncodeTlv(0x30, PrintTbs(c.tbs) + (EncodeTlv(0x30, c.algorithm) + EncodeTlv(0x03, [0] + c.signature)))
    ensures var t := c.tbs;
            PrintTbs(t) ==
            EncodeTlv(0x30, (if t.explicitVersion then EncodeTlv(0x02, [1]) else [])
            + (EncodeTlv(0x30, t.algorithm) + (EncodeTlv(0x30, t.issuer)
            + (EncodeTlv(t.thisUpdate.tag, t.thisUpdate.body)
            + ((if t.nextUpdate.Some? then EncodeTlv(t.nextUpdate.value.tag, t.nextUpdate.value.body) else [])
            + ((if t.revoked.Some? then EncodeTlv(0x30, PrintEntries(t.revoked.value)) else [])
            + (if t.extensions.Some? then EncodeTlv(0xA0, EncodeTlv(0x30, t.extensions.value)) else [])))))))
    ensures forall e, es :: PrintEntries([e] + es) ==
                            EncodeTlv(0x30,
                                      EncodeTlv(0x02, e.serial) + (EncodeTlv(e.date.tag, e.date.body) + e.extensions))
                            + PrintEntries(es)
  {
    forall e, es
      ensures PrintEntries([e] + es) ==
              EncodeTlv(0x30, EncodeTlv(0x02, e.serial) + (EncodeTlv(e.date.tag, e.date.body) + e.extensions))
              + PrintEntries(es)
    {
      assert ([e] + es)[1..] == es;
    }
  }

  // ----- reading, field by field -----

  function Starts(pos: Bytes, tag: Byte): bool {
    pos != [] && pos[0] == tag
  }

  /** An element with the given tag: its contents, and the bytes after it. */
  function Expect(tag: Byte, pos: Bytes): (r: Result<(Bytes, Bytes), CrlError>)
    ensures r.Ok? ==> |r.value.1| < |pos|
  {
    var p :- Lift(ParseTlv(pos));
    if p.tag != tag then Err(CrlTag) else Ok((p.value, p.rest))
  }

  function ReadVersion(pos: Bytes): Result<(bool, Bytes), CrlError> {
    if Starts(pos, INTEGER) then
      var p :- Lift(ParseTlv(pos));
      if p.value != [1] then Err(CrlVersion) else Ok((true, p.rest))
    else Ok((false, pos))
  }

  function ReadTime(k: Codecs, pos: Bytes): (r: Result<(TimeField, Bytes), CrlError>)
    ensures r.Ok? ==> |r.value.1| < |pos| && TimeValue(k, r.value.0).Some?
  {
    var p :- Lift(ParseTlv(pos));
    var t := TimeField(p.tag, p.value);
    if TimeValue(k, t).None? then Err(CrlTime) else Ok((t, p.rest))
  }

  function ReadNextUpdate(k: Codecs, pos: Bytes): Result<(Option<TimeField>, Bytes), CrlError> {
    if Starts(pos, UTC_TIME) || Starts(pos, GENERALIZED_TIME) then
      var t :- ReadTime(k, pos);
      Ok((Some(t.0), t.1))
    else Ok((None, pos))
  }

  function ReadEntry(k: Codecs, pos: Bytes): (r: Result<(EntrySyntax, Bytes), CrlError>)
    ensures r.Ok? ==> |r.value.1| < |pos| && EntryOk(k, r.value.0)
  {
    var entry :- Expect(SEQ, pos);
    var serial :- Expect(INTEGER, entry.0);
    var date :- ReadTime(k, serial.1);
    if date.1 != [] && !ExtensionsAllowed(k, date.1) then Err(CrlExtensions)
    else Ok((EntrySyntax(serial.0, date.0, date.1), entry.1))
  }

  function ReadEntries(k: Codecs, body: Bytes): (r: Result<seq<EntrySyntax>, CrlError>)
    ensures r.Ok? ==> forall e <- r.value :: EntryOk(k, e)
    decreases |body|
  {
    if body == [] then Ok([])
    else
      var first :- ReadEntry(k, body);
      Prepend([first.0], ReadEntries(k, first.1))
  }

  function ReadRevoked(k: Codecs, pos: Bytes): Result<(Option<seq<EntrySyntax>>, Bytes), CrlError> {
    if Starts(pos, SEQ) then
      var list :- Expect(SEQ, pos);
      var es :- ReadEntries(k, list.0);
      Ok((Some(es), list.1))
    else Ok((None, pos))
  }

  /** The optional extensions, after which nothing may follow. */
  function ReadExtensions(k: Codecs, pos: Bytes): Result<Option<Bytes>, CrlError> {
    if Starts(pos, EXTENSIONS) then
      var wrap :- Expect(EXTENSIONS, pos);
      if wrap.1 != [] then Err(CrlTrailing)
      else
        var p :- Lift(ParseTlv(wrap.0));
        if p.rest != [] then Err(CrlTrailing)
        else if p.tag != SEQ then Err(CrlTag)
        else
          var _ :- CheckListExtensions(k, p.value);
          Ok(Some(p.value))
    else if pos != [] then Err(CrlTrailing)
    else Ok(None)
  }

  /** The fields after thisUpdate. */
  function ReadTail(k: Codecs, pos: Bytes)
    : Result<(Option<TimeField>, Option<seq<EntrySyntax>>, Option<Bytes>), CrlError>
  {
    var nextUpdate :- ReadNextUpdate(k, pos);
    var revoked :- ReadRevoked(k, nextUpdate.1);
    var extensions :- ReadExtensions(k, revoked.1);
    Ok((nextUpdate.0, revoked.0, extensions))
  }

  /** The issuer and thisUpdate, and the bytes after them. */
  function ReadIssuerAndDate(k: Codecs, pos: Bytes): Result<(Bytes, TimeField, Bytes), CrlError> {
    var issuer :- Expect(SEQ, pos);
    var thisUpdate :- ReadTime(k, issuer.1);
    Ok((issuer.0, thisUpdate.0, thisUpdate.1))
  }

  /** The signed part, whose algorithm must be the outer one. */
  function ReadTbs(k: Codecs, body: Bytes, outer: Algorithm): Result<TbsSyntax, CrlError> {
    var version :- ReadVersion(body);
    var alg :- Expect(SEQ, version.1);
    var decoded := k.decodeAlgorithm(EncodeTlv(SEQ, alg.0));
    if decoded.None? then Err(CrlAlgorithm)
    else if decoded.value != outer then Err(CrlAlgorithmMismatch)
    else
      var head :- ReadIssuerAndDate(k, alg.1);
      var tail :- ReadTail(k, head.2);
      Ok(TbsSyntax(version.0, alg.0, head.0, head.1, tail.0, tail.1, tail.2))
  }

  /** The parts of the outer SEQUENCE: the signed contents, the algorithm both ways, and the signature. */
  datatype Envelope = Envelope(tbsValue: Bytes, algorithmBody: Bytes, algorithm: Algorithm, signature: Bytes)

  /** The closing BIT STRING of whole octets. */
  function ReadSignature(pos: Bytes): Result<Bytes, CrlError> {
    var sig :- Lift(ParseTlv(pos));
    if sig.rest != [] then Err(CrlTrailing)
    else if sig.tag != BIT_STRING then Err(CrlTag)
    else if |sig.value| < 2 || sig.value[0] != 0 then Err(CrlSignatureBits)
    else Ok(sig.value[1..])
  }

  /** The contents of the signed part, and the bytes after it inside the outer SEQUENCE. */
  function ReadOuter(der: Bytes): Result<(Bytes, Bytes), CrlError> {
    var outer :- Lift(ParseTlv(der));
    if outer.rest != [] then Err(CrlTrailing)
    else if outer.tag != SEQ then Err(CrlTag)
    else Expect(SEQ, outer.value)
  }

  function ReadEnvelope(k: Codecs, der: Bytes): Result<Envelope, CrlError> {
    var tbs :- ReadOuter(der);
    var alg :- Expect(SEQ, tbs.1);
    var decoded := k.decodeAlgorithm(EncodeTlv(SEQ, alg.0));
    if decoded.None? then Err(CrlAlgorithm)
    else
      var signature :- ReadSignature(alg.1);
      Ok(Envelope(tbs.0, alg.0, decoded.value, signature))
  }

  function ReadCrl(k: Codecs, der: Bytes): Result<CrlSyntax, CrlError> {
    var e :- ReadEnvelope(k, der);
    var t :- ReadTbs(k, e.tbsValue, e.algorithm);
    Ok(CrlSyntax(t, e.algorithmBody, e.signature))
  }

  // ----- each field is read exactly where it is printed -----

  lemma {:induction false} ExpectExact(tag: Byte, pos: Bytes, value: Bytes, rest: Bytes)
    requires LowTag(tag)
    ensures Expect(tag, pos) == Ok((value, rest)) <==> |value| < LENGTH_LIMIT && pos == EncodeTlv(tag, value) + rest
  {
    TlvBijection(pos, Parsed(tag, value, rest));
    if Expect(tag, pos) == Ok((value, rest)) {
      assert ParseTlv(pos) == Ok(Parsed(tag, value, rest));
    }
  }

  lemma {:induction false} ReadVersionExact(pos: Bytes, explicit: bool, rest: Bytes)
    ensures ReadVersion(pos) == Ok((explicit, rest)) <==>
            pos == PrintVersion(explicit) + rest && (!explicit ==> !Starts(rest, INTEGER))
  {
    TlvBijection(pos, Parsed(INTEGER, [1], rest));
    assert [] + rest == rest;
    if Starts(pos, INTEGER) && ParseTlv(pos).Ok? {
      var p := ParseTlv(pos).value;
      assert p == Parsed(INTEGER, p.value, p.rest);
    }
  }

  lemma {:induction false} ReadTimeExact(k: Codecs, pos: Bytes, t: TimeField, rest: Bytes)
    ensures ReadTime(k, pos) == Ok((t, rest)) <==>
            |t.body| < LENGTH_LIMIT && TimeValue(k, t).Some? && pos == PrintTime(t) + rest
  {
    TlvBijection(pos, Parsed(t.tag, t.body, rest));
    if ReadTime(k, pos) == Ok((t, rest)) {
      assert ParseTlv(pos) == Ok(Parsed(t.tag, t.body, rest));
    }
  }

  /** The printed optional time is short enough to read back. */
  predicate Fits(t: Option<TimeField>) {
    t.Some? ==> |t.value.body| < LENGTH_LIMIT
  }

  lemma {:induction false} ReadNextUpdateExact(k: Codecs, pos: Bytes, t: Option<TimeField>, rest: Bytes)
    ensures ReadNextUpdate(k, pos) == Ok((t, rest)) <==>
            && Fits(t) && (t.Some? ==> TimeValue(k, t.value).Some?)
            && pos == PrintOptionalTime(t) + rest
            && (t.None? ==> !Starts(rest, UTC_TIME) && !Starts(rest, GENERALIZED_TIME))
  {
    assert [] + rest == rest;
    if t.Some? {
      ReadTimeExact(k, pos, t.value, rest);
    }
  }

  lemma {:induction false} EntryBodyExact(k: Codecs, body: Bytes, e: EntrySyntax)
    ensures (exists s ::
               Expect(INTEGER, body) == Ok((e.serial, s)) && ReadTime(k, s) == Ok((e.date, e.extensions))) <==>
            && |e.serial| < LENGTH_LIMIT && |e.date.body| < LENGTH_LIMIT
            && TimeValue(k, e.date).Some? && body == EntryBody(e)
  {
    var s := PrintTime(e.date) + e.extensions;
    ExpectExact(INTEGER, body, e.serial, s);
    ReadTimeExact(k, s, e.date, e.extensions);
    if s' :| Expect(INTEGER, body) == Ok((e.serial, s')) && ReadTime(k, s') == Ok((e.date, e.extensions)) {
      ExpectExact(INTEGER, body, e.serial, s');
      ReadTimeExact(k, s', e.date, e.extensions);
    }
  }

  lemma {:induction false} ReadEntryExact(k: Codecs, pos: Bytes, e: EntrySyntax, rest: Bytes)
    ensures ReadEntry(k, pos) == Ok((e, rest)) <==>
            && |EntryBody(e)| < LENGTH_LIMIT && EntryOk(k, e)
            && pos == EncodeTlv(SEQ, EntryBody(e)) + rest
  {
    ExpectExact(SEQ, pos, EntryBody(e), rest);
    EntryBodyExact(k, EntryBody(e), e);
    assert |e.serial| < |EntryBody(e)| && |e.date.body| < |EntryBody(e)|;
    if ReadEntry(k, pos) == Ok((e, rest)) {
      var body := Expect(SEQ, pos).value.0;
      EntryBodyExact(k, body, e);
      assert Expect(INTEGER, body) == Ok((e.serial, Expect(INTEGER, body).value.1));
      ExpectExact(SEQ, pos, body, rest);
    }
  }

  lemma {:induction false} ReadEntriesExact(k: Codecs, body: Bytes, es: seq<EntrySyntax>)
    requires |body| < LENGTH_LIMIT
    ensures ReadEntries(k, body) == Ok(es) <==> (forall e <- es :: EntryOk(k, e)) && body == PrintEntries(es)
    decreases |es|
  {
    if es == [] {
      if body != [] && ReadEntry(k, body).Ok? {
        assert ReadEntries(k, body).Ok? ==> ReadEntries(k, body).value != [];
      }
    } else {
      var e, rest := es[0], PrintEntries(es[1..]);
      assert es == [e] + es[1..];
      ReadEntryExact(k, body, e, rest);
      if ReadEntries(k, body) == Ok(es) {
        var first := ReadEntry(k, body).value;
        ReadEntryExact(k, body, first.0, first.1);
        ReadEntriesExact(k, first.1, es[1..]);
        assert ReadEntries(k, first.1).value == es[1..];
      }
      if (forall x <- es :: EntryOk(k, x)) && body == PrintEntries(es) {
        assert e in es;
        assert |EntryBody(e)| < |body|;
        ReadEntriesExact(k, rest, es[1..]);
      }
    }
  }

  lemma {:induction false} ReadRevokedExact(k: Codecs, pos: Bytes, es: Option<seq<EntrySyntax>>, rest: Bytes)
    requires |pos| < LENGTH_LIMIT
    ensures ReadRevoked(k, pos) == Ok((es, rest)) <==>
            && (es.Some? ==> forall e <- es.value :: EntryOk(k, e))
            && pos == PrintRevoked(es) + rest
            && (es.None? ==> !Starts(rest, SEQ))
  {
    assert [] + rest == rest;
    if es.Some? {
      var body := PrintEntries(es.value);
      ExpectExact(SEQ, pos, body, rest);
      if pos == PrintRevoked(es) + rest {
        assert |body| < |pos|;
        ReadEntriesExact(k, body, es.value);
      }
      if ReadRevoked(k, pos) == Ok((es, rest)) {
        var list := Expect(SEQ, pos).value;
        ExpectExact(SEQ, pos, list.0, list.1);
        ReadEntriesExact(k, list.0, es.value);
      }
    }
  }

  lemma {:induction false} ReadExtensionsExact(k: Codecs, pos: Bytes, exts: Option<Bytes>)
    requires |pos| < LENGTH_LIMIT
    ensures ReadExtensions(k, pos) == Ok(exts) <==>
            && (exts.Some? ==> CheckListExtensions(k, exts.value).Ok?)
            && pos == PrintExtensions(exts)
  {
    if exts.Some? {
      var inner := EncodeTlv(SEQ, exts.value);
      assert inner + [] == inner && EncodeTlv(EXTENSIONS, inner) + [] == EncodeTlv(EXTENSIONS, inner);
      ExpectExact(EXTENSIONS, pos, inner, []);
      TlvBijection(inner, Parsed(SEQ, exts.value, []));
      if pos == PrintExtensions(exts) {
        assert |exts.value| < |inner| < |pos|;
      }
      if ReadExtensions(k, pos) == Ok(exts) {
        var wrap := Expect(EXTENSIONS, pos).value;
        ExpectExact(EXTENSIONS, pos, wrap.0, wrap.1);
        assert ParseTlv(wrap.0) == Ok(Parsed(SEQ, exts.value, []));
        TlvBijection(wrap.0, Parsed(SEQ, exts.value, []));
      }
    }
  }

  /** What follows thisUpdate. */
  function TbsTail(t: TbsSyntax): Bytes {
    PrintOptionalTime(t.nextUpdate) + (PrintRevoked(t.revoked) + PrintExtensions(t.extensions))
  }

  lemma {:induction false} ReadTailExact(k: Codecs, pos: Bytes, t: TbsSyntax)
    requires |pos| < LENGTH_LIMIT
    ensures ReadTail(k, pos) == Ok((t.nextUpdate, t.revoked, t.extensions)) <==>
            && (t.nextUpdate.Some? ==> TimeValue(k, t.nextUpdate.value).Some?)
            && (t.revoked.Some? ==> forall e <- t.revoked.value :: EntryOk(k, e))
            && (t.extensions.Some? ==> CheckListExtensions(k, t.extensions.value).Ok?)
            && pos == TbsTail(t)
  {
    var exts := PrintExtensions(t.extensions);
    var revoked := PrintRevoked(t.revoked) + exts;
    if pos == TbsTail(t) {
      assert Fits(t.nextUpdate);
      ReadNextUpdateExact(k, pos, t.nextUpdate, revoked);
      ReadRevokedExact(k, revoked, t.revoked, exts);
      ReadExtensionsExact(k, exts, t.extensions);
    }
    if ReadTail(k, pos) == Ok((t.nextUpdate, t.revoked, t.extensions)) {
      var next := ReadNextUpdate(k, pos).value;
      ReadNextUpdateExact(k, pos, next.0, next.1);
      var list := ReadRevoked(k, next.1).value;
      ReadRevokedExact(k, next.1, list.0, list.1);
      ReadExtensionsExact(k, list.1, t.extensions);
    }
  }

  lemma {:induction false} ReadIssuerAndDateExact(k: Codecs, pos: Bytes, issuer: Bytes, t: TimeField, rest: Bytes)
    requires |pos| < LENGTH_LIMIT
    ensures ReadIssuerAndDate(k, pos) == Ok((issuer, t, rest)) <==>
            TimeValue(k, t).Some? && pos == EncodeTlv(SEQ, issuer) + (PrintTime(t) + rest)
  {
    var dated := PrintTime(t) + rest;
    if TimeValue(k, t).Some? && pos == EncodeTlv(SEQ, issuer) + dated {
      ExpectExact(SEQ, pos, issuer, dated);
      ReadTimeExact(k, dated, t, rest);
    }
    if ReadIssuerAndDate(k, pos) == Ok((issuer, t, rest)) {
      var i := Expect(SEQ, pos).value;
      ExpectExact(SEQ, pos, i.0, i.1);
      ReadTimeExact(k, i.1, t, rest);
    }
  }

  lemma {:induction false} TbsReadsBack(k: Codecs, outer: Algorithm, t: TbsSyntax)
    requires |TbsBody(t)| < LENGTH_LIMIT && TbsOk(k, t)
    requires k.decodeAlgorithm(EncodeTlv(SEQ, t.algorithm)) == Some(outer)
    ensures ReadTbs(k, TbsBody(t), outer) == Ok(t)
  {
    var head := EncodeTlv(SEQ, t.issuer) + (PrintTime(t.thisUpdate) + TbsTail(t));
    var alg := EncodeTlv(SEQ, t.algorithm) + head;
    ReadVersionExact(TbsBody(t), t.explicitVersion, alg);
    ExpectExact(SEQ, alg, t.algorithm, head);
    ReadIssuerAndDateExact(k, head, t.issuer, t.thisUpdate, TbsTail(t));
    ReadTailExact(k, TbsTail(t), t);
  }

  lemma {:induction false} TbsReadIsPrinted(k: Codecs, body: Bytes, outer: Algorithm)
    requires |body| < LENGTH_LIMIT && ReadTbs(k, body, outer).Ok?
    ensures var t := ReadTbs(k, body, outer).value;
            && k.decodeAlgorithm(EncodeTlv(SEQ, t.algorithm)) == Some(outer)
            && TbsOk(k, t) && body == TbsBody(t)
  {
    var t := ReadTbs(k, body, outer).value;
    var version := ReadVersion(body).value;
    ReadVersionExact(body, version.0, version.1);
    var alg := Expect(SEQ, version.1).value;
    ExpectExact(SEQ, version.1, alg.0, alg.1);
    var head := ReadIssuerAndDate(k, alg.1).value;
    ReadIssuerAndDateExact(k, alg.1, head.0, head.1, head.2);
    ReadTailExact(k, head.2, t);
  }

  /** The envelope, printed. */
  function EnvelopeBody(e: Envelope): Bytes {
    EncodeTlv(SEQ, e.tbsValue) + (EncodeTlv(SEQ, e.algorithmBody) + EncodeTlv(BIT_STRING, [0] + e.signature))
  }

  lemma {:induction false} ReadSignatureExact(pos: Bytes, signature: Bytes)
    ensures ReadSignature(pos) == Ok(signature) <==>
            signature != [] && |signature| + 1 < LENGTH_LIMIT && pos == EncodeTlv(BIT_STRING, [0] + signature)
  {
    var p := Parsed(BIT_STRING, [0] + signature, []);
    TlvBijection(pos, p);
    assert EncodeTlv(BIT_STRING, [0] + signature) + [] == EncodeTlv(BIT_STRING, [0] + signature);
    assert ([0] + signature)[1..] == signature;
    if ReadSignature(pos) == Ok(signature) {
      var sig := ParseTlv(pos).value;
      assert sig.value == [0] + sig.value[1..];
      assert ParseTlv(pos) == Ok(p);
    }
  }

  lemma {:induction false} EnvelopeReadsBack(k: Codecs, e: Envelope)
    requires |EnvelopeBody(e)| < LENGTH_LIMIT && e.signature != []
    requires k.decodeAlgorithm(EncodeTlv(SEQ, e.algorithmBody)) == Some(e.algorithm)
    ensures ReadEnvelope(k, EncodeTlv(SEQ, EnvelopeBody(e))) == Ok(e)
  {
    var body := EnvelopeBody(e);
    var sig := EncodeTlv(BIT_STRING, [0] + e.signature);
    var afterTbs := EncodeTlv(SEQ, e.algorithmBody) + sig;
    assert EncodeTlv(SEQ, body) + [] == EncodeTlv(SEQ, body);
    ParsePrinted(SEQ, body, []);
    ExpectExact(SEQ, body, e.tbsValue, afterTbs);
    ExpectExact(SEQ, afterTbs, e.algorithmBody, sig);
    ReadSignatureExact(sig, e.signature);
  }

  lemma {:induction false} EnvelopeReadIsPrinted(k: Codecs, der: Bytes)
    requires ReadEnvelope(k, der).Ok?
    ensures var e := ReadEnvelope(k, der).value;
            && |EnvelopeBody(e)| < LENGTH_LIMIT && e.signature != []
            && k.decodeAlgorithm(EncodeTlv(SEQ, e.algorithmBody)) == Some(e.algorithm)
            && der == EncodeTlv(SEQ, EnvelopeBody(e))
  {
    var outer := ParseTlv(der).value;
    PrintParsed(der);
    var tbs := Expect(SEQ, outer.value).value;
    ExpectExact(SEQ, outer.value, tbs.0, tbs.1);
    var alg := Expect(SEQ, tbs.1).value;
    ExpectExact(SEQ, tbs.1, alg.0, alg.1);
    ReadSignatureExact(alg.1, ReadEnvelope(k, der).value.signature);
    assert EncodeTlv(SEQ, outer.value) + [] == EncodeTlv(SEQ, outer.value);
  }

  lemma {:induction false} CrlReadsBack(k: Codecs, c: CrlSyntax)
    requires CrlOk(k, c)
    ensures ReadCrl(k, PrintCrl(c)) == Ok(c)
  {
    var algorithm := k.decodeAlgorithm(EncodeTlv(SEQ, c.algorithm)).value;
    EnvelopeReadsBack(k, Envelope(TbsBody(c.tbs), c.algorithm, algorithm, c.signature));
    TbsReadsBack(k, algorithm, c.tbs);
  }

  lemma {:induction false} CrlReadIsPrinted(k: Codecs, der: Bytes)
    requires ReadCrl(k, der).Ok?
    ensures var c := ReadCrl(k, der).value; CrlOk(k, c) && der == PrintCrl(c)
  {
    EnvelopeReadIsPrinted(k, der);
    var e := ReadEnvelope(k, der).value;
    TbsReadIsPrinted(k, e.tbsValue, e.algorithm);
  }

  /**
   A byte string is accepted as a CRL, with this syntax, exactly when it is the syntax
   printed and the syntax is a complete direct CRL; so no byte is unaccounted for, and
   every such CRL is read back as it was printed.
   */
  lemma {:induction false} CrlBijection(k: Codecs, der: Bytes, c: CrlSyntax)
    ensures ReadCrl(k, der) == Ok(c) <==> CrlOk(k, c) && der == PrintCrl(c)
  {
    if CrlOk(k, c) && der == PrintCrl(c) {
      CrlReadsBack(k, c);
    }
    if ReadCrl(k, der) == Ok(c) {
      CrlReadIsPrinted(k, der);
    }
  }

  // ----- what the caller gets -----

  datatype RevokedEntry = RevokedEntry(serial: Bytes, time: int, reason: Byte)

  datatype ParsedCrl = ParsedCrl(
    tbs: Bytes,
    algorithm: Algorithm,
    signature: Bytes,
    issuer: Bytes,
    thisUpdate: int,
    nextUpdate: Option<int>,
    entries: seq<RevokedEntry>)

  /** The reason code of one extension, if it is a readable reason-code extension. */
  function ReasonIn(ext: Tlv): Option<Byte> {
    var children := SplitChildren(ext.value).0;
    if ext.tag == SEQ && FirstWithTag(children, 0x06) == Some(REASON_CODE) && FirstWithTag(children, 0x04).Some? then
      match FirstWithTag(SplitChildren(FirstWithTag(children, 0x04).value).0, 0x0A)
      case Some(code) => if code != [] then Some(code[0]) else None
      case None => None
    else None
  }

  /** The first readable reason code among the extensions; unspecified otherwise. */
  function FirstReason(exts: seq<Tlv>): Byte {
    if exts == [] then 0
    else if ReasonIn(exts[0]).Some? then ReasonIn(exts[0]).value
    else FirstReason(exts[1..])
  }

  function Reason(area: Bytes): Byte {
    match ParseTlv(area)
    case Err(_) => 0
    case Ok(p) => if p.tag != SEQ then 0 else FirstReason(SplitChildren(p.value).0)
  }

  /** A reason-code extension, printed. */
  function ReasonExtension(code: Byte): Tlv {
    Tlv(SEQ, EncodeTlv(0x06, REASON_CODE) + EncodeTlv(0x04, EncodeTlv(0x0A, [code])))
  }

  lemma {:induction false} SplitOfOne(t: Tlv)
    requires Printable(t)
    ensures SplitChildren(EncodeTlv(t.tag, t.value)) == ([t], [])
  {
    assert EncodeTlv(t.tag, t.value) + [] == EncodeTlv(t.tag, t.value);
    ParsePrinted(t.tag, t.value, []);
    assert SplitChildren([]) == ([], []) && [t] + [] == [t];
  }

  lemma {:induction false} SplitOfTwo(t: Tlv, u: Tlv)
    requires Printable(t) && Printable(u)
    ensures SplitChildren(EncodeTlv(t.tag, t.value) + EncodeTlv(u.tag, u.value)) == ([t, u], [])
  {
    ParsePrinted(t.tag, t.value, EncodeTlv(u.tag, u.value));
    SplitOfOne(u);
    assert [t] + [u] == [t, u];
  }

  lemma {:induction false} ReasonExtensionReads(code: Byte)
    ensures ReasonIn(ReasonExtension(code)) == Some(code)
  {
    var inner := EncodeTlv(0x0A, [code]);
    SplitOfTwo(Tlv(0x06, REASON_CODE), Tlv(0x04, inner));
    SplitOfOne(Tlv(0x0A, [code]));
    var fields := [Tlv(0x06, REASON_CODE), Tlv(0x04, inner)];
    assert FirstWithTag(fields, 0x04) == FirstWithTag(fields[1..], 0x04) == Some(inner);
  }

  lemma {:induction false} FirstReasonIsFirst(exts: seq<Tlv>, i: nat)
    requires i < |exts| && ReasonIn(exts[i]).Some? && forall j :: 0 <= j < i ==> ReasonIn(exts[j]).None?
    ensures FirstReason(exts) == ReasonIn(exts[i]).value
  {
    if i > 0 {
      FirstReasonIsFirst(exts[1..], i - 1);
    }
  }

  lemma {:induction false} NoReason(exts: seq<Tlv>)
    requires forall i :: 0 <= i < |exts| ==> ReasonIn(exts[i]).None?
    ensures FirstReason(exts) == 0
  {
    if exts != [] {
      NoReason(exts[1..]);
    }
  }

  /**
   The reason reported for printed extensions is that of the first reason-code extension
   among them, and unspecified when none is readable.
   */
  lemma {:induction false} ReasonReadsBack(exts: seq<Tlv>)
    requires (forall t <- exts :: Printable(t)) && |PrintAll(exts)| < LENGTH_LIMIT
    ensures forall i: nat, code {:trigger exts[i], ReasonExtension(code)} ::
              i < |exts| && exts[i] == ReasonExtension(code) && (forall j :: 0 <= j < i ==> ReasonIn(exts[j]).None?) ==>
                Reason(EncodeTlv(SEQ, PrintAll(exts))) == code
    ensures (forall i :: 0 <= i < |exts| ==> ReasonIn(exts[i]).None?) ==> Reason(EncodeTlv(SEQ, PrintAll(exts))) == 0
  {
    var area := EncodeTlv(SEQ, PrintAll(exts));
    ParsePrinted(SEQ, PrintAll(exts), []);
    assert area + [] == area;
    SplitOfWellFormed(exts);
    forall i: nat, code | i < |exts| && exts[i] == ReasonExtension(code)
      && (forall j :: 0 <= j < i ==> ReasonIn(exts[j]).None?)
      ensures Reason(area) == code
    {
      ReasonExtensionReads(code);
      FirstReasonIsFirst(exts, i);
    }
    if forall i :: 0 <= i < |exts| ==> ReasonIn(exts[i]).None? {
      NoReason(exts);
    }
  }

  /** The cursor loop over an entry's extensions. */
  method ParseRevocationReason(area: Bytes) returns (reason: Byte)
    ensures reason == Reason(area)
  {
    if area == [] {
      return 0;
    }
    var outer := ParseTlv(area);
    if outer.Err? || outer.value.tag != SEQ {
      return 0;
    }
    var pos := outer.value.value;
    while pos != []
      invariant FirstReason(SplitChildren(outer.value.value).0) == FirstReason(SplitChildren(pos).0)
      decreases |pos|
    {
      var ext := ParseTlv(pos);
      if ext.Err? {
        break;
      }
      assert SplitChildren(pos).0[1..] == SplitChildren(ext.value.rest).0;
      if ext.value.tag == SEQ {
        var oid := FindTaggedValue(ext.value.value, 0x06);
        var octets := FindTaggedValue(ext.value.value, 0x04);
        if oid == Some(REASON_CODE) && octets.Some? {
          var code := FindTaggedValue(octets.value, 0x0A);
          if code.Some? && code.value != [] {
            return code.value[0];
          }
        }
      }
      pos := ext.value.rest;
    }
    return 0;
  }

  function EntryView(k: Codecs, e: EntrySyntax): RevokedEntry
    requires EntryOk(k, e)
  {
    RevokedEntry(ParseIntegerBody(e.serial), TimeValue(k, e.date).value, Reason(e.extensions))
  }

  /** The entries reported, in the order they are listed. */
  function EntryViews(k: Codecs, es: seq<EntrySyntax>): (r: seq<RevokedEntry>)
    requires forall e <- es :: EntryOk(k, e)
    ensures |r| == |es|
    ensures forall i {:trigger r[i]} {:trigger es[i]} :: 0 <= i < |es| ==> es[i] in es && r[i] == EntryView(k, es[i])
  {
    if es == [] then [] else [EntryView(k, es[0])] + EntryViews(k, es[1..])
  }

  function View(k: Codecs, c: CrlSyntax): ParsedCrl
    requires CrlOk(k, c)
  {
    ParsedCrl(
      PrintTbs(c.tbs),
      k.decodeAlgorithm(EncodeTlv(SEQ, c.algorithm)).value,
      c.signature,
      EncodeTlv(SEQ, c.tbs.issuer),
      TimeValue(k, c.tbs.thisUpdate).value,
      if c.tbs.nextUpdate.Some? then TimeValue(k, c.tbs.nextUpdate.value) else None,
      if c.tbs.revoked.Some? then EntryViews(k, c.tbs.revoked.value) else [])
  }

  /**
   What is reported of a CRL: its issuer's encoding, its dates, and each entry's serial, date
   and reason, in order.
   */
  lemma {:induction false} ViewMeans(k: Codecs, c: CrlSyntax)
    requires CrlOk(k, c)
    ensures var p := View(k, c);
            && p.tbs == PrintTbs(c.tbs) && p.signature == c.signature
            && Some(p.algorithm) == k.decodeAlgorithm(EncodeTlv(0x30, c.algorithm))
            && p.issuer == EncodeTlv(0x30, c.tbs.issuer)
            && Some(p.thisUpdate) == TimeValue(k, c.tbs.thisUpdate)
            && p.nextUpdate == (if c.tbs.nextUpdate.Some? then TimeValue(k, c.tbs.nextUpdate.value) else None)
            && |p.entries| == (if c.tbs.revoked.Some? then |c.tbs.revoked.value| else 0)
            && forall i :: 0 <= i < |p.entries| ==>
                 && p.entries[i].serial == ParseIntegerBody(c.tbs.revoked.value[i].serial)
                 && Some(p.entries[i].time) == TimeValue(k, c.tbs.revoked.value[i].date)
                 && p.entries[i].reason == Reason(c.tbs.revoked.value[i].extensions)
  {
  }

  /** What a byte string means as a CRL. */
  function Meaning(k: Codecs, der: Bytes): Result<ParsedCrl, CrlError> {
    match ReadCrl(k, der)
    case Err(e) => Err(e)
    case Ok(c) =>
      CrlReadIsPrinted(k, der);
      Ok(View(k, c))
  }

  /** Printing a complete direct CRL and parsing it returns its issuer, dates and entries in order. */
  lemma {:induction false} ParsePrintedCrl(k: Codecs, c: CrlSyntax)
    requires CrlOk(k, c)
    ensures Meaning(k, PrintCrl(c)) == Ok(View(k, c))
  {
    CrlReadsBack(k, c);
  }

  /**
   An accepted CRL is the outer SEQUENCE of the reported signed bytes, the algorithm and
   the BIT STRING of a zero octet and the reported signature; the issuer, dates and entries
   come from fields of the signed bytes.
   */
  lemma {:induction false} AcceptedCrlIsAccountedFor(k: Codecs, der: Bytes)
    requires Meaning(k, der).Ok?
    ensures var p := Meaning(k, der).value;
            exists c :: CrlOk(k, c) && p == View(k, c)
              && p.tbs == EncodeTlv(SEQ, TbsBody(c.tbs))
              && der == EncodeTlv(SEQ, p.tbs + (EncodeTlv(SEQ, c.algorithm) + EncodeTlv(BIT_STRING, [0] + p.signature)))
  {
    CrlReadIsPrinted(k, der);
    var c := ReadCrl(k, der).value;
    assert CrlBody(c) == PrintTbs(c.tbs) + (EncodeTlv(SEQ, c.algorithm) + EncodeTlv(BIT_STRING, [0] + c.signature));
  }

  /** Two accepted byte strings with the same abstract CRL are the same bytes. */
  lemma {:induction false} OneEncodingPerCrl(k: Codecs, d1: Bytes, d2: Bytes)
    requires ReadCrl(k, d1).Ok? && ReadCrl(k, d1) == ReadCrl(k, d2)
    ensures d1 == d2
  {
    CrlReadIsPrinted(k, d1);
    CrlReadIsPrinted(k, d2);
  }

  // ----- the parser, with its cursors and slices -----

  /** Read an element with the given tag and cut out its whole encoding: the slice, the contents, the rest. */
  method TakeElement(tag: Byte, pos: Bytes) returns (r: Result<(Bytes, Bytes, Bytes), CrlError>)
    ensures Expect(tag, pos).Err? ==> r == Err(Expect(tag, pos).error)
    ensures Expect(tag, pos).Ok? ==>
              r == Ok((EncodeTlv(tag, Expect(tag, pos).value.0), Expect(tag, pos).value.0, Expect(tag, pos).value.1))
  {
    var p :- Lift(ParseTlv(pos));
    if p.tag != tag {
      return Err(CrlTag);
    }
    PrintParsed(pos);
    return Ok((pos[..|pos| - |p.rest|], p.value, p.rest));
  }

  /** The offsets computed from lengths cut the first child out of the outer element. */
  lemma {:induction false} SignedSlice(der: Bytes, outer: Parsed, tbs: Bytes, rest: Bytes)
    requires ParseTlv(der) == Ok(outer) && outer.rest == [] && outer.value == tbs + rest
    ensures var start, end := |der| - |outer.value|, |der| - |outer.value| + (|outer.value| - |rest|);
            0 <= start <= end <= |der| && der[start..end] == tbs
  {
    PrintParsed(der);
    var start, end := |der| - |outer.value|, |der| - |rest|;
    assert der[start..] == outer.value;
    assert der[start..end] == der[start..][..end - start];
  }

  lemma {:induction false} EntryViewsSnoc(k: Codecs, es: seq<EntrySyntax>, e: EntrySyntax)
    requires (forall x <- es :: EntryOk(k, x)) && EntryOk(k, e)
    ensures EntryViews(k, es + [e]) == EntryViews(k, es) + [EntryView(k, e)]
  {
    var longer := es + [e];
    forall i | 0 <= i < |longer| ensures EntryViews(k, longer)[i] == (EntryViews(k, es) + [EntryView(k, e)])[i] {
      assert longer[i] in longer;
      if i < |es| {
        assert es[i] in es;
      }
    }
  }

  /** The cursor loop over the revoked certificates. */
  method ParseRevokedCertificates(k: Codecs, body: Bytes) returns (r: Result<seq<RevokedEntry>, CrlError>)
    ensures ReadEntries(k, body).Ok? ==> r == Ok(EntryViews(k, ReadEntries(k, body).value))
    ensures ReadEntries(k, body).Err? ==> r == Err(ReadEntries(k, body).error)
  {
    var entries := [];
    var pos := body;
    ghost var done: seq<EntrySyntax> := [];
    PrependTwice([], [], ReadEntries(k, pos));
    while pos != []
      invariant forall e <- done :: EntryOk(k, e)
      invariant ReadEntries(k, body) == Prepend(done, ReadEntries(k, pos))
      invariant entries == EntryViews(k, done)
      decreases |pos|
    {
      var read := ReadEntry(k, pos);
      if read.Err? {
        return Err(read.error);
      }
      var entry, rest := read.value.0, read.value.1;
      var reason := ParseRevocationReason(entry.extensions);
      PrependTwice(done, [entry], ReadEntries(k, rest));
      EntryViewsSnoc(k, done, entry);
      entries := entries + [RevokedEntry(ParseIntegerBody(entry.serial), TimeValue(k, entry.date).value, reason)];
      done := done + [entry];
      pos := rest;
    }
    PrependDone(done, ReadEntries(k, pos));
    return Ok(entries);
  }

  /** The cursor over the fields after thisUpdate. */
  method ParseTail(k: Codecs, pos: Bytes) returns (r: Result<(Option<int>, seq<RevokedEntry>), CrlError>)
    ensures ReadTail(k, pos).Err? ==> r == Err(ReadTail(k, pos).error)
    ensures ReadTail(k, pos).Ok? ==>
              var (next, revoked, _) := ReadTail(k, pos).value;
              && (revoked.Some? ==> forall e <- revoked.value :: EntryOk(k, e))
              && r == Ok((if next.Some? then TimeValue(k, next.value) else None,
                          if revoked.Some? then EntryViews(k, revoked.value) else []))
  {
    var nextTime :- ReadNextUpdate(k, pos);
    var nextUpdate: Option<int> := if nextTime.0.Some? then TimeValue(k, nextTime.0.value) else None;
    var tbsPos := nextTime.1;

    var entries := [];
    if tbsPos != [] && tbsPos[0] == SEQ {
      var list :- Expect(SEQ, tbsPos);
      entries :- ParseRevokedCertificates(k, list.0);
      tbsPos := list.1;
    }
    var _ :- ReadExtensions(k, tbsPos);
    return Ok((nextUpdate, entries));
  }

  /** The cursor over the signed part: issuer slice, dates and entries. */
  method ParseTbs(k: Codecs, tbsValue: Bytes, outer: Algorithm)
    returns (r: Result<(Bytes, int, Option<int>, seq<RevokedEntry>), CrlError>)
    requires |tbsValue| < LENGTH_LIMIT
    ensures ReadTbs(k, tbsValue, outer).Err? ==> r == Err(ReadTbs(k, tbsValue, outer).error)
    ensures ReadTbs(k, tbsValue, outer).Ok? ==>
              var t := ReadTbs(k, tbsValue, outer).value;
              && TbsOk(k, t)
              && r == Ok((EncodeTlv(SEQ, t.issuer),
                          TimeValue(k, t.thisUpdate).value,
                          if t.nextUpdate.Some? then TimeValue(k, t.nextUpdate.value) else None,
                          if t.revoked.Some? then EntryViews(k, t.revoked.value) else []))
  {
    if ReadTbs(k, tbsValue, outer).Ok? {
      TbsReadIsPrinted(k, tbsValue, outer);
    }
    var tbsPos := tbsValue;
    var version :- ReadVersion(tbsPos);
    tbsPos := version.1;

    var alg :- TakeElement(SEQ, tbsPos);
    var inner := k.decodeAlgorithm(alg.0);
    if inner.None? {
      return Err(CrlAlgorithm);
    }
    if inner.value != outer {
      return Err(CrlAlgorithmMismatch);
    }
    tbsPos := alg.2;

    var issuer :- TakeElement(SEQ, tbsPos);
    tbsPos := issuer.2;

    var thisTime :- ReadTime(k, tbsPos);
    tbsPos := thisTime.1;

    var tail :- ParseTail(k, tbsPos);
    return Ok((issuer.0, TimeValue(k, thisTime.0).value, tail.0, tail.1));
  }

  /** The signed bytes, cut out of the outer SEQUENCE by their offsets; their contents; what follows them. */
  method CutSigned(der: Bytes) returns (r: Result<(Bytes, Bytes, Bytes), CrlError>)
    ensures ReadOuter(der).Err? ==> r == Err(ReadOuter(der).error)
    ensures ReadOuter(der).Ok? ==>
              r == Ok((EncodeTlv(SEQ, ReadOuter(der).value.0), ReadOuter(der).value.0, ReadOuter(der).value.1))
  {
    var outer :- Lift(ParseTlv(der));
    if outer.rest != [] {
      return Err(CrlTrailing);
    }
    if outer.tag != SEQ {
      return Err(CrlTag);
    }
    var tbs :- TakeElement(SEQ, outer.value);
    ExpectExact(SEQ, outer.value, tbs.1, tbs.2);
    SignedSlice(der, outer, tbs.0, tbs.2);
    var tbsStart := |der| - |outer.value|;
    var tbsEnd := |der| - |outer.value| + (|outer.value| - |tbs.2|);
    return Ok((der[tbsStart..tbsEnd], tbs.1, tbs.2));
  }

  method ParseEnvelope(k: Codecs, der: Bytes) returns (r: Result<(Bytes, Envelope), CrlError>)
    ensures ReadEnvelope(k, der).Err? ==> r == Err(ReadEnvelope(k, der).error)
    ensures ReadEnvelope(k, der).Ok? ==>
              r == Ok((EncodeTlv(SEQ, ReadEnvelope(k, der).value.tbsValue), ReadEnvelope(k, der).value))
  {
    var tbs :- CutSigned(der);
    var alg :- TakeElement(SEQ, tbs.2);
    var algorithm := k.decodeAlgorithm(alg.0);
    if algorithm.None? {
      return Err(CrlAlgorithm);
    }
    var signature :- ReadSignature(alg.2);
    return Ok((tbs.0, Envelope(tbs.1, alg.1, algorithm.value, signature)));
  }

  /** The parser reports exactly what the bytes mean as a CRL. */
  method ParseCrl(k: Codecs, der: Bytes) returns (r: Result<ParsedCrl, CrlError>)
    ensures r == Meaning(k, der)
  {
    var cut :- ParseEnvelope(k, der);
    var tbsBytes, e := cut.0, cut.1;
    EnvelopeReadIsPrinted(k, der);
    var f :- ParseTbs(k, e.tbsValue, e.algorithm);
    TbsReadIsPrinted(k, e.tbsValue, e.algorithm);
    return Ok(ParsedCrl(tbsBytes, e.algorithm, e.signature, f.0, f.1, f.2, f.3));
  }
}
