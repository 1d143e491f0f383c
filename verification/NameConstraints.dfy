/**
 The NameConstraints extension: reading it, accumulating the constraints of several
 issuers, and checking a certificate's names against them
 (src/ltv/name_constraints.rs, section 4.2.1.10 of RFC 5280).
 */
module NameConstraints {
  import opened Results
  import opened Der
  import opened TextFolding
  import opened DirectoryNames
  import opened GeneralNames
  import opened Certificates

  const GN_RFC822: Byte := 0x81
  const GN_DNS: Byte := 0x82
  const GN_IP: Byte := 0x87

  /** A constraint base. */
  datatype Base =
    | DnsBase(text: Bytes)
    | MailBase(text: Bytes)
    | IpBase(addr: Bytes, mask: Bytes)
    | DirectoryBase(der: Bytes)

  /** A name a certificate asserts. */
  datatype Asserted =
    | DnsName(text: Bytes)
    | MailName(text: Bytes)
    | IpName(addr: Bytes)
    | DirectoryName(der: Bytes)

  /** One group of permitted bases per permittedSubtrees field met, and all excluded bases. */
  datatype Constraints = Constraints(permitted: seq<seq<Base>>, excluded: seq<Base>)

  const NO_CONSTRAINTS := Constraints([], [])

  function Merge(a: Constraints, b: Constraints): Constraints {
    Constraints(a.permitted + b.permitted, a.excluded + b.excluded)
  }

  // ----- reading the extension -----

  function Ia5(body: Bytes): Result<Bytes, NameConstraintError> {
    if IsAscii(body) then Ok(ToLowerAscii(body)) else Err(Malformed)
  }

  function DecodeBase(tag: Byte, body: Bytes): Result<Base, NameConstraintError> {
    if tag == GN_DNS then
      var text :- Ia5(body);
      Ok(DnsBase(text))
    else if tag == GN_RFC822 then
      var text :- Ia5(body);
      Ok(MailBase(text))
    else if tag == GN_DIRECTORY then
      var inner :- Checked(ParseTlv(body));
      if inner.tag != SEQUENCE then Err(Malformed) else Ok(DirectoryBase(body))
    else if tag == GN_IP then
      if |body| == 8 then Ok(IpBase(body[..4], body[4..]))
      else if |body| == 32 then Ok(IpBase(body[..16], body[16..]))
      else Err(Malformed)
    else Err(Unsupported)
  }

  /**
   The bases by their tags: [2] is a DNS name, [1] a mail address, [4] a directory name and
   [7] an address followed by a mask, of 4 or 16 octets each.
   */
  lemma {:induction false} DecodeBaseReads(tag: Byte, body: Bytes, base: Base)
    ensures DecodeBase(tag, body) == Ok(base) <==>
            || (tag == 0x82 && IsAscii(body) && base == DnsBase(ToLowerAscii(body)))
            || (tag == 0x81 && IsAscii(body) && base == MailBase(ToLowerAscii(body)))
            || (tag == 0xA4 && ParseTlv(body).Ok? && ParseTlv(body).value.tag == 0x30 && base == DirectoryBase(body))
            || (&& tag == 0x87 && base.IpBase? && body == base.addr + base.mask
                && (|base.addr| == |base.mask| == 4 || |base.addr| == |base.mask| == 16))
  {
    if tag == 0x87 && (|body| == 8 || |body| == 32) {
      var half := |body| / 2;
      assert body[..half] + body[half..] == body;
      if base.IpBase? && body == base.addr + base.mask && |base.addr| == half {
        assert body[..half] == base.addr && body[half..] == base.mask;
      }
    }
  }

  /** After the base only explicit zero minimums may follow. */
  function CheckMinMax(rest: Bytes): Result<(), NameConstraintError>
    decreases |rest|
  {
    if rest == [] then Ok(())
    else
      var p :- Checked(ParseTlv(rest));
      if p.tag == 0x80 then
        if |p.value| != 1 || p.value[0] != 0 then Err(Violation) else CheckMinMax(p.rest)
      else if p.tag == 0x81 then Err(Violation)
      else Err(Malformed)
  }

  function ReadSubtree(body: Bytes): (r: Result<(Base, Bytes), NameConstraintError>)
    ensures r.Ok? ==> |r.value.1| < |body|
  {
    var st :- Checked(ParseTlv(body));
    if st.tag != SEQUENCE then Err(Malformed)
    else
      var gn :- Checked(ParseTlv(st.value));
      var _ :- CheckMinMax(gn.rest);
      var base :- DecodeBase(gn.tag, gn.value);
      Ok((base, st.rest))
  }

  function ReadSubtrees(body: Bytes): Result<seq<Base>, NameConstraintError>
    decreases |body|
  {
    if body == [] then Ok([])
    else
      var first :- ReadSubtree(body);
      Prepend([first.0], ReadSubtrees(first.1))
  }

  /** The explicit default of a subtree's minimum. */
  const ZERO_MINIMUM := Tlv(0x80, [0])

  predicate OnlyMinimums(ts: seq<Tlv>) {
    forall i :: 0 <= i < |ts| ==> ts[i] == ZERO_MINIMUM
  }

  lemma {:induction false} OnlyMinimumsSteps(t: Tlv, ts: seq<Tlv>)
    ensures OnlyMinimums([t] + ts) <==> t == ZERO_MINIMUM && OnlyMinimums(ts)
  {
    var all := [t] + ts;
    assert all[0] == t && forall i :: 0 <= i < |ts| ==> ts[i] == all[i + 1];
  }

  /** After the base there are explicit zero minimums, and nothing else. */
  lemma {:induction false} MinMaxAccepts(rest: Bytes)
    ensures CheckMinMax(rest).Ok? <==> ParseAll(rest).Ok? && OnlyMinimums(ParseAll(rest).value)
    decreases |rest|
  {
    if rest != [] && ParseTlv(rest).Ok? {
      var p := ParseTlv(rest).value;
      ParseAllSteps(rest);
      MinMaxAccepts(p.rest);
      assert Tlv(p.tag, p.value) == ZERO_MINIMUM <==> p.tag == 0x80 && |p.value| == 1 && p.value[0] == 0;
      if ParseAll(p.rest).Ok? {
        OnlyMinimumsSteps(Tlv(p.tag, p.value), ParseAll(p.rest).value);
      }
    }
  }

  /** The element is a subtree with this base: a SEQUENCE of the base and explicit zero minimums. */
  predicate IsSubtree(t: Tlv, base: Base) {
    && t.tag == SEQUENCE && ParseAll(t.value).Ok?
    && var fields := ParseAll(t.value).value;
       fields != [] && DecodeBase(fields[0].tag, fields[0].value) == Ok(base) && OnlyMinimums(fields[1..])
  }

  lemma {:induction false} SubtreeAccepts(body: Bytes, base: Base)
    requires ParseTlv(body).Ok?
    ensures var st := ParseTlv(body).value;
            && (ReadSubtree(body) == Ok((base, st.rest)) <==> IsSubtree(Tlv(st.tag, st.value), base))
            && (ReadSubtree(body).Ok? ==> ReadSubtree(body).value.1 == st.rest)
  {
    var st := ParseTlv(body).value;
    if st.value != [] && ParseTlv(st.value).Ok? {
      var gn := ParseTlv(st.value).value;
      ParseAllSteps(st.value);
      MinMaxAccepts(gn.rest);
      if ParseAll(gn.rest).Ok? {
        assert ParseAll(st.value).value[1..] == ParseAll(gn.rest).value;
      }
    }
  }

  /** The elements are the subtrees with these bases, in order. */
  predicate AreSubtrees(ts: seq<Tlv>, bases: seq<Base>) {
    |ts| == |bases| && forall i :: 0 <= i < |ts| ==> IsSubtree(ts[i], bases[i])
  }

  lemma {:induction false} SubtreesSteps(t: Tlv, ts: seq<Tlv>, bases: seq<Base>)
    ensures AreSubtrees([t] + ts, bases) <==> bases != [] && IsSubtree(t, bases[0]) && AreSubtrees(ts, bases[1..])
  {
    var all := [t] + ts;
    if AreSubtrees(all, bases) {
      assert IsSubtree(all[0], bases[0]);
      forall i | 0 <= i < |ts| ensures IsSubtree(ts[i], bases[1..][i]) {
        assert IsSubtree(all[i + 1], bases[i + 1]);
      }
    }
    if bases != [] && IsSubtree(t, bases[0]) && AreSubtrees(ts, bases[1..]) {
      forall i | 0 <= i < |all| ensures IsSubtree(all[i], bases[i]) {
        if i > 0 {
          assert IsSubtree(ts[i - 1], bases[1..][i - 1]);
        }
      }
    }
  }

  /** A field is read with these bases exactly when it is a list of subtrees with them. */
  lemma {:induction false} SubtreesAccept(body: Bytes, bases: seq<Base>)
    ensures ReadSubtrees(body) == Ok(bases) <==> ParseAll(body).Ok? && AreSubtrees(ParseAll(body).value, bases)
    decreases |body|
  {
    if body != [] && ParseTlv(body).Ok? {
      var p := ParseTlv(body).value;
      ParseAllSteps(body);
      if bases != [] {
        SubtreeAccepts(body, bases[0]);
        SubtreesAccept(p.rest, bases[1..]);
        assert bases == [bases[0]] + bases[1..];
      }
      if ParseAll(p.rest).Ok? {
        SubtreesSteps(Tlv(p.tag, p.value), ParseAll(p.rest).value, bases);
      }
    }
  }

  /** One field of the extension: the constraints it contributes, and the bytes after it. */
  function ReadMember(body: Bytes): (r: Result<(Constraints, Bytes), NameConstraintError>)
    ensures r.Ok? ==> |r.value.1| < |body|
  {
    var p :- Checked(ParseTlv(body));
    if p.tag == 0xA0 then
      var bases :- ReadSubtrees(p.value);
      Ok((Constraints([bases], []), p.rest))
    else if p.tag == 0xA1 then
      var bases :- ReadSubtrees(p.value);
      Ok((Constraints([], bases), p.rest))
    else Err(Malformed)
  }

  /** The constraints of all the fields, in order. */
  function ReadMembers(body: Bytes): Result<Constraints, NameConstraintError>
    decreases |body|
  {
    if body == [] then Ok(NO_CONSTRAINTS)
    else
      var first :- ReadMember(body);
      var others :- ReadMembers(first.1);
      Ok(Merge(first.0, others))
  }

  function ReadExtension(value: Bytes): Result<Constraints, NameConstraintError> {
    var outer :- Checked(ParseTlv(value));
    if outer.tag != SEQUENCE then Err(Malformed) else ReadMembers(outer.value)
  }

  /** The contents of the elements with this tag, in order. */
  function WithTag(ts: seq<Tlv>, tag: Byte): seq<Bytes> {
    if ts == [] then [] else (if ts[0].tag == tag then [ts[0].value] else []) + WithTag(ts[1..], tag)
  }

  /** The bases of each of these fields. */
  function BasesOf(fields: seq<Bytes>): seq<seq<Base>> {
    if fields == [] then []
    else [if ReadSubtrees(fields[0]).Ok? then ReadSubtrees(fields[0]).value else []] + BasesOf(fields[1..])
  }

  function Flatten(groups: seq<seq<Base>>): seq<Base> {
    if groups == [] then [] else groups[0] + Flatten(groups[1..])
  }

  /** The elements are the fields of an extension: each [0] or [1], and a list of subtrees. */
  predicate AreFields(ts: seq<Tlv>) {
    forall i :: 0 <= i < |ts| ==> (ts[i].tag == 0xA0 || ts[i].tag == 0xA1) && ReadSubtrees(ts[i].value).Ok?
  }

  lemma {:induction false} FieldsSteps(t: Tlv, ts: seq<Tlv>)
    ensures AreFields([t] + ts) <==>
            (t.tag == 0xA0 || t.tag == 0xA1) && ReadSubtrees(t.value).Ok? && AreFields(ts)
    ensures forall tag :: WithTag([t] + ts, tag) == (if t.tag == tag then [t.value] else []) + WithTag(ts, tag)
  {
    var all := [t] + ts;
    assert all[0] == t && all[1..] == ts;
    assert forall i :: 0 <= i < |ts| ==> ts[i] == all[i + 1];
    assert forall j :: 1 <= j < |all| ==> all[j] == ts[j - 1];
  }

  lemma {:induction false} BasesSteps(field: Bytes, fields: seq<Bytes>)
    ensures BasesOf([] + fields) == BasesOf(fields) && Flatten(BasesOf([] + fields)) == Flatten(BasesOf(fields))
    ensures ReadSubtrees(field).Ok? ==>
              && BasesOf([field] + fields) == [ReadSubtrees(field).value] + BasesOf(fields)
              && Flatten(BasesOf([field] + fields)) == ReadSubtrees(field).value + Flatten(BasesOf(fields))
  {
    assert [] + fields == fields && ([field] + fields)[1..] == fields;
    var bases := BasesOf([field] + fields);
    assert bases[1..] == BasesOf(fields);
  }

  /**
   The constraints a body states: one permitted group for each [0] field in order, and as
   excluded the bases of all [1] fields; any other field is an error.
   */
  lemma {:induction false} MembersAccept(body: Bytes)
    ensures ReadMembers(body).Ok? <==> ParseAll(body).Ok? && AreFields(ParseAll(body).value)
    ensures ReadMembers(body).Ok? ==>
              ReadMembers(body).value == Constraints(BasesOf(WithTag(ParseAll(body).value, 0xA0)),
                                                     Flatten(BasesOf(WithTag(ParseAll(body).value, 0xA1))))
    decreases |body|
  {
    if body != [] && ParseTlv(body).Ok? {
      var p := ParseTlv(body).value;
      ParseAllSteps(body);
      MembersAccept(p.rest);
      if ParseAll(p.rest).Ok? {
        var ts := ParseAll(p.rest).value;
        FieldsSteps(Tlv(p.tag, p.value), ts);
        BasesSteps(p.value, WithTag(ts, 0xA0));
        BasesSteps(p.value, WithTag(ts, 0xA1));
        assert forall xs: seq<seq<Base>> :: [] + xs == xs;
        assert forall xs: seq<Base> :: [] + xs == xs;
      }
    }
  }

  /** A printed extension states exactly what its fields say. */
  lemma {:induction false} PrintedExtensionReads(ts: seq<Tlv>)
    requires AreFields(ts) && (forall t <- ts :: Printable(t)) && |PrintAll(ts)| < LENGTH_LIMIT
    ensures ReadExtension(EncodeTlv(0x30, PrintAll(ts))) ==
            Ok(Constraints(BasesOf(WithTag(ts, 0xA0)), Flatten(BasesOf(WithTag(ts, 0xA1)))))
  {
    var body := PrintAll(ts);
    assert EncodeTlv(0x30, body) + [] == EncodeTlv(0x30, body);
    ParsePrinted(0x30, body, []);
    BodyBijection(body, ts);
    MembersAccept(body);
  }

  /** The constraints a certificate itself states. */
  function Own(cert: Cert): Result<Constraints, NameConstraintError> {
    match FindExtension(cert.extensions, NameConstraintsOid)
    case None => Ok(NO_CONSTRAINTS)
    case Some(value) => ReadExtension(value)
  }

  /** A certificate states what its first NameConstraints extension does, and nothing without one. */
  lemma {:induction false} OwnMeans(cert: Cert)
    ensures (forall ext <- cert.extensions :: ext.oid != NameConstraintsOid) ==> Own(cert) == Ok(Constraints([], []))
    ensures (exists ext <- cert.extensions :: ext.oid == NameConstraintsOid) ==>
              exists i :: && IsFirstExtension(cert.extensions, NameConstraintsOid, i)
                          && Own(cert) == ReadExtension(cert.extensions[i].value)
  {
    FindExtensionIsFirst(cert.extensions, NameConstraintsOid);
  }

  // ----- the names a certificate asserts -----

  function ReadSanName(tag: Byte, body: Bytes): Result<seq<Asserted>, NameConstraintError> {
    if tag == GN_DNS then
      var text :- Ia5(body);
      Ok([DnsName(text)])
    else if tag == GN_RFC822 then
      var text :- Ia5(body);
      Ok([MailName(text)])
    else if tag == GN_IP then
      if |body| == 4 || |body| == 16 then Ok([IpName(body)]) else Err(Malformed)
    else if tag == GN_DIRECTORY then Ok([DirectoryName(body)])
    else Ok([])
  }

  /** The names by their tags, as for bases; an address has no mask, and other forms assert nothing. */
  lemma {:induction false} SanNameReads(tag: Byte, body: Bytes)
    ensures tag == 0x82 ==> ReadSanName(tag, body) == if IsAscii(body) then Ok([DnsName(ToLowerAscii(body))])
            else Err(Malformed)
    ensures tag == 0x81 ==> ReadSanName(tag, body) == if IsAscii(body) then Ok([MailName(ToLowerAscii(body))])
            else Err(Malformed)
    ensures tag == 0x87 ==> ReadSanName(tag, body) == if |body| in {4, 16} then Ok([IpName(body)]) else Err(Malformed)
    ensures tag == 0xA4 ==> ReadSanName(tag, body) == Ok([DirectoryName(body)])
    ensures tag !in {0x81, 0x82, 0x87, 0xA4} ==> ReadSanName(tag, body) == Ok([])
  {
  }

  function ReadSanNames(body: Bytes): Result<seq<Asserted>, NameConstraintError>
    decreases |body|
  {
    if body == [] then Ok([])
    else
      var p :- Checked(ParseTlv(body));
      var names :- ReadSanName(p.tag, p.value);
      Prepend(names, ReadSanNames(p.rest))
  }

  /** The supported names among the elements, in order. */
  function NamesOf(ts: seq<Tlv>): seq<Asserted>
    requires forall t <- ts :: ReadSanName(t.tag, t.value).Ok?
  {
    if ts == [] then []
    else
      assert ts[0] in ts;
      ReadSanName(ts[0].tag, ts[0].value).value + NamesOf(ts[1..])
  }

  /** The alternative names are read exactly when the body is a list of readable names, and are those names in order. */
  lemma {:induction false} SanNamesAccept(body: Bytes, names: seq<Asserted>)
    ensures ReadSanNames(body) == Ok(names) <==>
            && ParseAll(body).Ok? && (forall t <- ParseAll(body).value :: ReadSanName(t.tag, t.value).Ok?)
            && names == NamesOf(ParseAll(body).value)
    decreases |body|
  {
    if body != [] && ParseTlv(body).Ok? {
      var p := ParseTlv(body).value;
      ParseAllSteps(body);
      if ReadSanNames(p.rest).Ok? {
        SanNamesAccept(p.rest, ReadSanNames(p.rest).value);
      }
      if ParseAll(body).Ok? {
        var ts := ParseAll(body).value;
        assert ts[0] == Tlv(p.tag, p.value) && ts[1..] == ParseAll(p.rest).value;
        assert forall t :: t in ts <==> t == ts[0] || t in ts[1..];
        if forall t <- ts :: ReadSanName(t.tag, t.value).Ok? {
          SanNamesAccept(p.rest, NamesOf(ts[1..]));
        }
      }
    }
  }

  function SanNames(value: Bytes): Result<seq<Asserted>, NameConstraintError> {
    var outer :- Checked(ParseTlv(value));
    if outer.tag != SEQUENCE then Err(Malformed) else ReadSanNames(outer.value)
  }

  function MailNames(emails: seq<EmailAttribute>): Result<seq<Asserted>, NameConstraintError> {
    if emails == [] then Ok([])
    else if emails[0].UndecodableEmail? || emails[0].text == [] then Err(Malformed)
    else Prepend([MailName(ToLowerAscii(emails[0].text))], MailNames(emails[1..]))
  }

  function SubjectName(cert: Cert): seq<Asserted> {
    if |cert.subject| > 2 then [DirectoryName(cert.subject)] else []
  }

  /** The subject, then the alternative names or, without that extension, the legacy mail addresses. */
  function AssertedNames(cert: Cert, constrainMail: bool): Result<seq<Asserted>, NameConstraintError> {
    match FindExtension(cert.extensions, SubjectAltNameOid)
    case Some(value) => Prepend(SubjectName(cert), SanNames(value))
    case None =>
      if constrainMail then Prepend(SubjectName(cert), MailNames(cert.emails)) else Ok(SubjectName(cert))
  }

  /** Printed alternative names read back, the supported ones in order. */
  lemma {:induction false} PrintedSanReads(ts: seq<Tlv>)
    requires forall t <- ts :: Printable(t) && ReadSanName(t.tag, t.value).Ok?
    requires |PrintAll(ts)| < LENGTH_LIMIT
    ensures SanNames(EncodeTlv(0x30, PrintAll(ts))) == Ok(NamesOf(ts))
  {
    var body := PrintAll(ts);
    assert EncodeTlv(0x30, body) + [] == EncodeTlv(0x30, body);
    ParsePrinted(0x30, body, []);
    BodyBijection(body, ts);
    SanNamesAccept(body, NamesOf(ts));
  }

  /** The legacy mail addresses are all taken, lower-cased, unless one is undecodable or empty. */
  lemma {:induction false} MailNamesAccept(emails: seq<EmailAttribute>)
    ensures MailNames(emails).Ok? <==> forall i :: 0 <= i < |emails| ==> emails[i].Ia5Email? && emails[i].text != []
    ensures MailNames(emails).Ok? ==>
              && |MailNames(emails).value| == |emails|
              && forall i :: 0 <= i < |emails| ==> MailNames(emails).value[i] == MailName(ToLowerAscii(emails[i].text))
  {
    if emails != [] {
      MailNamesAccept(emails[1..]);
      assert forall i :: 1 <= i < |emails| ==> emails[i] == emails[1..][i - 1];
    }
  }

  /** The names that must be read besides the subject. */
  function OtherNames(cert: Cert, constrainMail: bool): Result<seq<Asserted>, NameConstraintError> {
    match FindExtension(cert.extensions, SubjectAltNameOid)
    case Some(value) => SanNames(value)
    case None => if constrainMail then MailNames(cert.emails) else Ok([])
  }

  /**
   A certificate asserts its subject, unless that is empty, and its alternative names; the
   legacy mail addresses only without that extension and when mail is constrained.
   */
  lemma {:induction false} AssertedNamesMeans(cert: Cert, constrainMail: bool, name: Asserted)
    ensures AssertedNames(cert, constrainMail).Ok? <==> OtherNames(cert, constrainMail).Ok?
    ensures AssertedNames(cert, constrainMail).Ok? ==>
              (name in AssertedNames(cert, constrainMail).value <==>
               || (|cert.subject| > 2 && name == DirectoryName(cert.subject))
               || name in OtherNames(cert, constrainMail).value)
  {
  }

  // ----- checking -----

  predicate SameType(base: Base, name: Asserted) {
    || (base.DnsBase? && name.DnsName?)
    || (base.MailBase? && name.MailName?)
    || (base.IpBase? && name.IpName?)
    || (base.DirectoryBase? && name.DirectoryName?)
  }

  function BaseMatches(u: Unicode, base: Base, name: Asserted): Result<bool, NameConstraintError> {
    match (base, name)
    case (DnsBase(b), DnsName(n)) => Ok(DnsMatches(b, n))
    case (MailBase(b), MailName(n)) => Ok(Rfc822Matches(b, n))
    case (IpBase(addr, mask), IpName(n)) => Ok(IpMatches(addr, mask, n))
    case (DirectoryBase(b), DirectoryName(n)) => DirectoryMatches(u, b, n)
    case _ => Ok(false)
  }

  /** How a base answers for a name. */
  type Matcher = (Base, Asserted) -> Result<bool, NameConstraintError>

  function MatcherOf(u: Unicode): Matcher {
    (base, name) => BaseMatches(u, base, name)
  }

  function CheckExcluded(m: Matcher, excluded: seq<Base>, name: Asserted): Result<(), NameConstraintError> {
    if excluded == [] then Ok(())
    else
      var inside :- m(excluded[0], name);
      if inside then Err(Violation) else CheckExcluded(m, excluded[1..], name)
  }

  /** Within one group a base of the name's type must match, if there is any; `seen` says one was met. */
  function CheckGroup(m: Matcher, group: seq<Base>, name: Asserted, seen: bool): Result<(), NameConstraintError> {
    if group == [] then (if seen then Err(Violation) else Ok(()))
    else if !SameType(group[0], name) then CheckGroup(m, group[1..], name, seen)
    else
      var inside :- m(group[0], name);
      if inside then Ok(()) else CheckGroup(m, group[1..], name, true)
  }

  function CheckGroups(m: Matcher, groups: seq<seq<Base>>, name: Asserted): Result<(), NameConstraintError> {
    if groups == [] then Ok(())
    else
      var _ :- CheckGroup(m, groups[0], name, false);
      CheckGroups(m, groups[1..], name)
  }

  function CheckName(m: Matcher, c: Constraints, name: Asserted): Result<(), NameConstraintError> {
    var _ :- CheckExcluded(m, c.excluded, name);
    CheckGroups(m, c.permitted, name)
  }

  function CheckNames(m: Matcher, c: Constraints, names: seq<Asserted>): Result<(), NameConstraintError> {
    if names == [] then Ok(())
    else
      var _ :- CheckName(m, c, names[0]);
      CheckNames(m, c, names[1..])
  }

  predicate MailBaseIn(bases: seq<Base>) {
    exists i :: 0 <= i < |bases| && bases[i].MailBase?
  }

  predicate ConstrainsMail(c: Constraints) {
    MailBaseIn(c.excluded) || exists i :: 0 <= i < |c.permitted| && MailBaseIn(c.permitted[i])
  }

  /** A certificate's names against the constraints. */
  function CheckCert(m: Matcher, c: Constraints, cert: Cert): Result<(), NameConstraintError> {
    if c.permitted == [] && c.excluded == [] then Ok(())
    else
      var names :- AssertedNames(cert, ConstrainsMail(c));
      CheckNames(m, c, names)
  }

  // ----- checking against merged constraints -----

  lemma {:induction false} ExcludedOkPointwise(m: Matcher, excluded: seq<Base>, name: Asserted)
    ensures CheckExcluded(m, excluded, name).Ok? <==> forall b <- excluded :: m(b, name) == Ok(false)
  {
    if excluded != [] {
      ExcludedOkPointwise(m, excluded[1..], name);
      assert excluded == [excluded[0]] + excluded[1..];
    }
  }

  lemma {:induction false} GroupsOkPointwise(m: Matcher, groups: seq<seq<Base>>, name: Asserted)
    ensures CheckGroups(m, groups, name).Ok? <==> forall g <- groups :: CheckGroup(m, g, name, false).Ok?
  {
    if groups != [] {
      GroupsOkPointwise(m, groups[1..], name);
      assert groups[0] in groups && forall g <- groups :: g == groups[0] || g in groups[1..];
    }
  }

  /** The base at `i` is of the name's type and matches, and those of its type before it do not. */
  ghost predicate MatchesFirstAt(m: Matcher, group: seq<Base>, name: Asserted, i: int) {
    && 0 <= i < |group| && SameType(group[i], name) && m(group[i], name) == Ok(true)
    && forall j :: 0 <= j < i && SameType(group[j], name) ==> m(group[j], name) == Ok(false)
  }

  ghost predicate HasMatch(m: Matcher, group: seq<Base>, name: Asserted) {
    exists i :: MatchesFirstAt(m, group, name, i)
  }

  predicate HasType(group: seq<Base>, name: Asserted) {
    exists i :: 0 <= i < |group| && SameType(group[i], name)
  }

  lemma {:induction false} MatchInTail(m: Matcher, group: seq<Base>, name: Asserted, i: int)
    requires group != [] && (SameType(group[0], name) ==> m(group[0], name) == Ok(false))
    ensures MatchesFirstAt(m, group, name, i) <==> MatchesFirstAt(m, group[1..], name, i - 1)
  {
    var tail := group[1..];
    assert forall j :: 0 <= j < |tail| ==> tail[j] == group[j + 1];
    if MatchesFirstAt(m, tail, name, i - 1) {
      forall j | 0 <= j < i && SameType(group[j], name) ensures m(group[j], name) == Ok(false) {
        assert j > 0 ==> group[j] == tail[j - 1];
      }
    }
  }

  lemma {:induction false} HasMatchSteps(m: Matcher, group: seq<Base>, name: Asserted)
    requires group != []
    ensures SameType(group[0], name) && m(group[0], name) == Ok(true) ==> HasMatch(m, group, name)
    ensures SameType(group[0], name) && m(group[0], name).Err? ==> !HasMatch(m, group, name)
    ensures (SameType(group[0], name) ==> m(group[0], name) == Ok(false)) ==>
              (HasMatch(m, group, name) <==> HasMatch(m, group[1..], name))
  {
    if SameType(group[0], name) && m(group[0], name) == Ok(true) {
      assert MatchesFirstAt(m, group, name, 0);
    }
    if SameType(group[0], name) ==> m(group[0], name) == Ok(false) {
      if HasMatch(m, group, name) {
        var i :| MatchesFirstAt(m, group, name, i);
        MatchInTail(m, group, name, i);
      }
      if HasMatch(m, group[1..], name) {
        var i :| MatchesFirstAt(m, group[1..], name, i);
        MatchInTail(m, group, name, i + 1);
      }
    }
  }

  lemma {:induction false} HasTypeSteps(group: seq<Base>, name: Asserted)
    requires group != []
    ensures HasType(group, name) <==> SameType(group[0], name) || HasType(group[1..], name)
  {
    if i :| 0 <= i < |group[1..]| && SameType(group[1..][i], name) {
      assert SameType(group[i + 1], name);
    }
    if i :| 1 <= i < |group| && SameType(group[i], name) {
      assert SameType(group[1..][i - 1], name);
    }
  }

  /** A group lets a name through when it has no base of the name's type, or one that matches. */
  lemma {:induction false} GroupAccepts(m: Matcher, group: seq<Base>, name: Asserted, seen: bool)
    ensures CheckGroup(m, group, name, seen).Ok? <==>
            (!seen && !HasType(group, name)) || HasMatch(m, group, name)
  {
    if group != [] {
      HasMatchSteps(m, group, name);
      HasTypeSteps(group, name);
      GroupAccepts(m, group[1..], name, seen || SameType(group[0], name));
    }
  }

  /**
   A name passes the constraints when every excluded base answers that it does not match, and
   each permitted group has no base of the name's type or one that matches.
   */
  lemma {:induction false} NameAccepted(m: Matcher, c: Constraints, name: Asserted)
    ensures CheckName(m, c, name).Ok? <==>
            && (forall b <- c.excluded :: m(b, name) == Ok(false))
            && forall g <- c.permitted :: HasType(g, name) ==> HasMatch(m, g, name)
  {
    ExcludedOkPointwise(m, c.excluded, name);
    GroupsOkPointwise(m, c.permitted, name);
    forall g <- c.permitted
      ensures CheckGroup(m, g, name, false).Ok? <==> (HasType(g, name) ==> HasMatch(m, g, name))
    {
      GroupAccepts(m, g, name, false);
      if HasMatch(m, g, name) {
        var i :| MatchesFirstAt(m, g, name, i);
        assert HasType(g, name);
      }
    }
  }

  /** Constraints on mail among these. */
  predicate AnyMail(c: Constraints) {
    || (exists b <- c.excluded :: b.MailBase?)
    || exists g <- c.permitted :: exists b <- g :: b.MailBase?
  }

  lemma {:induction false} ConstrainsMailMeans(c: Constraints)
    ensures ConstrainsMail(c) <==> AnyMail(c)
  {
    if ConstrainsMail(c) {
      if MailBaseIn(c.excluded) {
        var i :| 0 <= i < |c.excluded| && c.excluded[i].MailBase?;
        assert c.excluded[i] in c.excluded;
      } else {
        var i :| 0 <= i < |c.permitted| && MailBaseIn(c.permitted[i]);
        var j :| 0 <= j < |c.permitted[i]| && c.permitted[i][j].MailBase?;
        assert c.permitted[i] in c.permitted && c.permitted[i][j] in c.permitted[i];
      }
    }
  }

  /**
   A certificate passes when there are no constraints, or its names can be read and each is
   within none of the excluded bases and within every permitted group of its type.
   */
  lemma {:induction false} CertAccepted(m: Matcher, c: Constraints, cert: Cert)
    ensures CheckCert(m, c, cert).Ok? <==>
            || c == NO_CONSTRAINTS
            || (&& AssertedNames(cert, AnyMail(c)).Ok?
                && forall n <- AssertedNames(cert, AnyMail(c)).value ::
                     && (forall b <- c.excluded :: m(b, n) == Ok(false))
                     && forall g <- c.permitted :: HasType(g, n) ==> HasMatch(m, g, n))
  {
    ConstrainsMailMeans(c);
    var names := AssertedNames(cert, AnyMail(c));
    if names.Ok? {
      NamesOkPointwise(m, c, names.value);
      forall n <- names.value
        ensures CheckName(m, c, n).Ok? <==>
                && (forall b <- c.excluded :: m(b, n) == Ok(false))
                && forall g <- c.permitted :: HasType(g, n) ==> HasMatch(m, g, n)
      {
        NameAccepted(m, c, n);
      }
    }
  }

  /** What it means for a name to be within a base of its type, other than a directory name. */
  ghost predicate Within(base: Base, name: Asserted) {
    match (base, name)
    case (DnsBase(b), DnsName(n)) =>
      || b == []
      || (b[0] != 0x2E && LabelSuffix(Labels(b), Labels(n)))
      || (b[0] == 0x2E && LabelSuffix(Labels(b[1..]), Labels(n)) && |Labels(b[1..])| < |Labels(n)|)
    case (MailBase(b), MailName(n)) => Rfc822Matches(b, n)
    case (IpBase(addr, mask), IpName(n)) =>
      |n| == |addr| == |mask| && forall i :: 0 <= i < |n| ==> AgreeUnder(mask[i], addr[i], n[i], 8)
    case _ => false
  }

  /** Bases answer by label suffixes, mail hosts and masked bits; only directory names can be malformed. */
  lemma {:induction false} BaseMatchesMeans(u: Unicode, base: Base, name: Asserted)
    ensures base.DirectoryBase? && name.DirectoryName? ==>
              BaseMatches(u, base, name) == DirectoryMatches(u, base.der, name.der)
    ensures !(base.DirectoryBase? && name.DirectoryName?) ==>
              BaseMatches(u, base, name) == Ok(Within(base, name))
  {
    match (base, name)
    case (DnsBase(b), DnsName(n)) =>
      if b != [] {
        DnsMatchIsLabelSuffix(b, n);
      }
    case (IpBase(addr, mask), IpName(n)) => IpMatchIsMaskedAgreement(addr, mask, n);
    case _ =>
  }

  lemma {:induction false} NamesOkPointwise(m: Matcher, c: Constraints, names: seq<Asserted>)
    ensures CheckNames(m, c, names).Ok? <==> forall n <- names :: CheckName(m, c, n).Ok?
  {
    if names != [] {
      NamesOkPointwise(m, c, names[1..]);
      assert names == [names[0]] + names[1..];
    }
  }

  lemma {:induction false} CheckNameMerged(m: Matcher, a: Constraints, b: Constraints, name: Asserted)
    ensures CheckName(m, Merge(a, b), name).Ok? <==> CheckName(m, a, name).Ok? && CheckName(m, b, name).Ok?
  {
    var c := Merge(a, b);
    ExcludedOkPointwise(m, a.excluded, name);
    ExcludedOkPointwise(m, b.excluded, name);
    ExcludedOkPointwise(m, c.excluded, name);
    GroupsOkPointwise(m, a.permitted, name);
    GroupsOkPointwise(m, b.permitted, name);
    GroupsOkPointwise(m, c.permitted, name);
  }

  lemma {:induction false} GroupWithoutMail(m: Matcher, group: seq<Base>, text: Bytes)
    requires !MailBaseIn(group)
    ensures CheckGroup(m, group, MailName(text), false).Ok?
  {
    if group != [] {
      assert !group[0].MailBase?;
      assert forall i :: 0 <= i < |group[1..]| ==> group[1..][i] == group[i + 1];
      GroupWithoutMail(m, group[1..], text);
    }
  }

  /** The matcher answers "no" for bases of another type. */
  ghost predicate TypedMatcher(m: Matcher) {
    forall b, n :: !SameType(b, n) ==> m(b, n) == Ok(false)
  }

  lemma {:induction false} MatcherOfIsTyped(u: Unicode)
    ensures TypedMatcher(MatcherOf(u))
  {
  }

  /** Constraints that say nothing about mail accept every mail address. */
  lemma {:induction false} MailPassesWithoutMailBases(m: Matcher, c: Constraints, text: Bytes)
    requires TypedMatcher(m) && !ConstrainsMail(c)
    ensures CheckName(m, c, MailName(text)).Ok?
  {
    ExcludedOkPointwise(m, c.excluded, MailName(text));
    GroupsOkPointwise(m, c.permitted, MailName(text));
    forall g | g in c.permitted ensures CheckGroup(m, g, MailName(text), false).Ok? {
      var i :| 0 <= i < |c.permitted| && c.permitted[i] == g;
      GroupWithoutMail(m, g, text);
    }
  }

  lemma {:induction false} ConstrainsMailMerged(a: Constraints, b: Constraints)
    ensures ConstrainsMail(Merge(a, b)) <==> ConstrainsMail(a) || ConstrainsMail(b)
  {
    var c := Merge(a, b);
    if ConstrainsMail(a) {
      if MailBaseIn(a.excluded) {
        var i :| 0 <= i < |a.excluded| && a.excluded[i].MailBase?;
        assert c.excluded[i].MailBase?;
      } else {
        var i :| 0 <= i < |a.permitted| && MailBaseIn(a.permitted[i]);
        assert MailBaseIn(c.permitted[i]);
      }
    }
    if ConstrainsMail(b) {
      if MailBaseIn(b.excluded) {
        var i :| 0 <= i < |b.excluded| && b.excluded[i].MailBase?;
        assert c.excluded[|a.excluded| + i].MailBase?;
      } else {
        var i :| 0 <= i < |b.permitted| && MailBaseIn(b.permitted[i]);
        assert MailBaseIn(c.permitted[|a.permitted| + i]);
      }
    }
  }

  lemma {:induction false} MailNamesAreMail(emails: seq<EmailAttribute>)
    requires MailNames(emails).Ok?
    ensures forall n <- MailNames(emails).value :: n.MailName?
  {
    if emails != [] {
      MailNamesAreMail(emails[1..]);
    }
  }

  /** Asking for mail addresses adds only mail addresses, or fails. */
  lemma {:induction false} AskingForMail(cert: Cert)
    ensures AssertedNames(cert, true).Ok? ==>
              && AssertedNames(cert, false).Ok?
              && (forall n <- AssertedNames(cert, false).value :: n in AssertedNames(cert, true).value)
              && (forall n <- AssertedNames(cert, true).value :: n in AssertedNames(cert, false).value || n.MailName?)
  {
    if FindExtension(cert.extensions, SubjectAltNameOid).None? && MailNames(cert.emails).Ok? {
      MailNamesAreMail(cert.emails);
    }
  }

  /** Constraints check alike whether or not unconstrained mail addresses are collected. */
  lemma {:induction false} UnconstrainedMailIsHarmless(m: Matcher, c: Constraints, cert: Cert)
    requires TypedMatcher(m) && !ConstrainsMail(c) && AssertedNames(cert, true).Ok?
    ensures AssertedNames(cert, false).Ok?
    ensures CheckNames(m, c, AssertedNames(cert, false).value).Ok? <==>
            CheckNames(m, c, AssertedNames(cert, true).value).Ok?
  {
    AskingForMail(cert);
    var few, all := AssertedNames(cert, false).value, AssertedNames(cert, true).value;
    NamesOkPointwise(m, c, few);
    NamesOkPointwise(m, c, all);
    forall n | n in all && n.MailName? ensures CheckName(m, c, n).Ok? {
      MailPassesWithoutMailBases(m, c, n.text);
    }
  }

  lemma {:induction false} CheckNamesMerged(m: Matcher, a: Constraints, b: Constraints, names: seq<Asserted>)
    ensures CheckNames(m, Merge(a, b), names).Ok? <==> CheckNames(m, a, names).Ok? && CheckNames(m, b, names).Ok?
  {
    NamesOkPointwise(m, a, names);
    NamesOkPointwise(m, b, names);
    NamesOkPointwise(m, Merge(a, b), names);
    forall n | n in names
      ensures CheckName(m, Merge(a, b), n).Ok? <==> CheckName(m, a, n).Ok? && CheckName(m, b, n).Ok?
    {
      CheckNameMerged(m, a, b, n);
    }
  }

  /** The check on one set of constraints, with the names another set asks for as well. */
  lemma {:induction false} CheckCertWithMoreNames(m: Matcher, a: Constraints, cert: Cert, constrainMail: bool)
    requires TypedMatcher(m) && a != NO_CONSTRAINTS && (ConstrainsMail(a) ==> constrainMail)
    requires AssertedNames(cert, constrainMail).Ok?
    ensures CheckCert(m, a, cert).Ok? <==> CheckNames(m, a, AssertedNames(cert, constrainMail).value).Ok?
  {
    if constrainMail && !ConstrainsMail(a) {
      UnconstrainedMailIsHarmless(m, a, cert);
    }
  }

  /**
   Merged constraints accept a certificate exactly when each part does, legacy mail
   addresses included; so adding an issuer's constraints never widens what is accepted.
   */
  lemma {:induction false} CheckCertMerged(m: Matcher, a: Constraints, b: Constraints, cert: Cert)
    requires TypedMatcher(m)
    ensures CheckCert(m, Merge(a, b), cert).Ok? <==> CheckCert(m, a, cert).Ok? && CheckCert(m, b, cert).Ok?
  {
    var c := Merge(a, b);
    if a == NO_CONSTRAINTS {
      assert c == b;
    } else if b == NO_CONSTRAINTS {
      assert c == a;
    } else {
      ConstrainsMailMerged(a, b);
      AskingForMail(cert);
      var mail := ConstrainsMail(c);
      if AssertedNames(cert, mail).Ok? {
        CheckCertWithMoreNames(m, a, cert, mail);
        CheckCertWithMoreNames(m, b, cert, mail);
        CheckNamesMerged(m, a, b, AssertedNames(cert, mail).value);
      }
    }
  }

  // ----- the loops -----

  /** The cursor loop over the optional fields after a base. */
  method ValidateSubtreeMinMax(rest: Bytes) returns (r: Result<(), NameConstraintError>)
    ensures r == CheckMinMax(rest)
  {
    var pos := rest;
    while pos != []
      invariant CheckMinMax(rest) == CheckMinMax(pos)
      decreases |pos|
    {
      var p :- Checked(ParseTlv(pos));
      if p.tag == 0x80 {
        if |p.value| != 1 || p.value[0] != 0 {
          return Err(Violation);
        }
      } else if p.tag == 0x81 {
        return Err(Violation);
      } else {
        return Err(Malformed);
      }
      pos := p.rest;
    }
    return Ok(());
  }

  /** The cursor loop over the subtrees of one field. */
  method ParseGeneralSubtrees(body: Bytes) returns (r: Result<seq<Base>, NameConstraintError>)
    ensures r == ReadSubtrees(body)
  {
    var out := [];
    var pos := body;
    PrependTwice([], [], ReadSubtrees(pos));
    while pos != []
      invariant ReadSubtrees(body) == Prepend(out, ReadSubtrees(pos))
      decreases |pos|
    {
      var st :- Checked(ParseTlv(pos));
      if st.tag != SEQUENCE {
        return Err(Malformed);
      }
      var gn :- Checked(ParseTlv(st.value));
      var _ :- ValidateSubtreeMinMax(gn.rest);
      var base :- DecodeBase(gn.tag, gn.value);
      PrependTwice(out, [base], ReadSubtrees(st.rest));
      out := out + [base];
      pos := st.rest;
    }
    PrependDone(out, ReadSubtrees(pos));
    return Ok(out);
  }

  /** The cursor loop over the alternative names. */
  method CollectSanNames(body: Bytes) returns (r: Result<seq<Asserted>, NameConstraintError>)
    ensures r == ReadSanNames(body)
  {
    var names := [];
    var pos := body;
    PrependTwice([], [], ReadSanNames(pos));
    while pos != []
      invariant ReadSanNames(body) == Prepend(names, ReadSanNames(pos))
      decreases |pos|
    {
      var p :- Checked(ParseTlv(pos));
      var found :- ReadSanName(p.tag, p.value);
      PrependTwice(names, found, ReadSanNames(p.rest));
      names := names + found;
      pos := p.rest;
    }
    PrependDone(names, ReadSanNames(pos));
    return Ok(names);
  }

  lemma {:induction false} MergeAssociative(a: Constraints, b: Constraints, c: Constraints)
    ensures Merge(Merge(a, b), c) == Merge(a, Merge(b, c))
    ensures Merge(a, NO_CONSTRAINTS) == a == Merge(NO_CONSTRAINTS, a)
  {
  }

  /** The constraints accumulated from the issuers met so far. */
  class NameConstraintState {
    var permitted: seq<seq<Base>>
    var excluded: seq<Base>

    function Value(): Constraints
      reads this
    {
      Constraints(permitted, excluded)
    }

    constructor ()
      ensures Value() == NO_CONSTRAINTS
    {
      permitted, excluded := [], [];
    }

    /** Fold in an issuer's constraints; on a malformed extension, at most a part of them is left behind. */
    method AddFromCert(cert: Cert) returns (r: Result<(), NameConstraintError>)
      modifies this
      ensures r.Ok? <==> Own(cert).Ok?
      ensures r.Ok? ==> Value() == Merge(old(Value()), Own(cert).value)
      ensures r.Err? ==> r.error == Own(cert).error
      ensures old(permitted) <= permitted && old(excluded) <= excluded
    {
      var ext := FindExtension(cert.extensions, NameConstraintsOid);
      if ext.None? {
        MergeAssociative(Value(), NO_CONSTRAINTS, NO_CONSTRAINTS);
        return Ok(());
      }
      r := AddFromExtensionValue(ext.value);
    }

    method AddFromExtensionValue(value: Bytes) returns (r: Result<(), NameConstraintError>)
      modifies this
      ensures r.Ok? <==> ReadExtension(value).Ok?
      ensures r.Ok? ==> Value() == Merge(old(Value()), ReadExtension(value).value)
      ensures r.Err? ==> r.error == ReadExtension(value).error
      ensures old(permitted) <= permitted && old(excluded) <= excluded
    {
      var outer :- Checked(ParseTlv(value));
      if outer.tag != SEQUENCE {
        return Err(Malformed);
      }
      r := AddMembers(outer.value);
    }

    /** The cursor loop over the extension's fields. */
    method AddMembers(body: Bytes) returns (r: Result<(), NameConstraintError>)
      modifies this
      ensures r.Ok? <==> ReadMembers(body).Ok?
      ensures r.Ok? ==> Value() == Merge(old(Value()), ReadMembers(body).value)
      ensures r.Err? ==> r.error == ReadMembers(body).error
      ensures old(permitted) <= permitted && old(excluded) <= excluded
    {
      var pos := body;
      ghost var was, added := Value(), NO_CONSTRAINTS;
      MergeAssociative(was, was, was);
      if ReadMembers(body).Ok? {
        MergeAssociative(ReadMembers(body).value, was, was);
      }
      while pos != []
        invariant Value() == Merge(was, added)
        invariant ReadMembers(pos).Err? ==> ReadMembers(body) == Err(ReadMembers(pos).error)
        invariant ReadMembers(pos).Ok? ==> ReadMembers(body) == Ok(Merge(added, ReadMembers(pos).value))
        decreases |pos|
      {
        var p :- Checked(ParseTlv(pos));
        ghost var first := ReadMember(pos);
        if p.tag == 0xA0 {
          var bases :- ParseGeneralSubtrees(p.value);
          permitted := permitted + [bases];
        } else if p.tag == 0xA1 {
          var bases :- ParseGeneralSubtrees(p.value);
          excluded := excluded + bases;
        } else {
          return Err(Malformed);
        }
        MergeAssociative(was, added, first.value.0);
        if ReadMembers(p.rest).Ok? {
          MergeAssociative(added, first.value.0, ReadMembers(p.rest).value);
        }
        added := Merge(added, first.value.0);
        pos := p.rest;
      }
      MergeAssociative(added, added, added);
      return Ok(());
    }

    predicate IsEmpty()
      reads this
    {
      permitted == [] && excluded == []
    }

    /** The loops over a certificate's names, the excluded bases and the permitted groups. */
    method CheckCertNames(u: Unicode, cert: Cert) returns (r: Result<(), NameConstraintError>)
      ensures r == CheckCert(MatcherOf(u), Value(), cert)
    {
      if IsEmpty() {
        return Ok(());
      }
      var names :- AssertedNames(cert, ConstrainsMail(Value()));
      for i := 0 to |names|
        invariant CheckNames(MatcherOf(u), Value(), names) == CheckNames(MatcherOf(u), Value(), names[i..])
      {
        assert names[i..][1..] == names[i + 1..];
        var _ :- CheckOneName(MatcherOf(u), names[i]);
      }
      return Ok(());
    }

    method CheckOneName(m: Matcher, name: Asserted) returns (r: Result<(), NameConstraintError>)
      ensures r == CheckName(m, Value(), name)
    {
      for i := 0 to |excluded|
        invariant CheckExcluded(m, excluded, name) == CheckExcluded(m, excluded[i..], name)
      {
        assert excluded[i..][1..] == excluded[i + 1..];
        var inside :- m(excluded[i], name);
        if inside {
          return Err(Violation);
        }
      }
      for i := 0 to |permitted|
        invariant CheckGroups(m, permitted, name) == CheckGroups(m, permitted[i..], name)
      {
        assert permitted[i..][1..] == permitted[i + 1..];
        var _ :- CheckOneGroup(m, permitted[i], name);
      }
      return Ok(());
    }

    method CheckOneGroup(m: Matcher, group: seq<Base>, name: Asserted) returns (r: Result<(), NameConstraintError>)
      ensures r == CheckGroup(m, group, name, false)
    {
      var hasPermittedOfType := false;
      for i := 0 to |group|
        invariant CheckGroup(m, group, name, false) == CheckGroup(m, group[i..], name, hasPermittedOfType)
      {
        assert group[i..][1..] == group[i + 1..];
        if SameType(group[i], name) {
          hasPermittedOfType := true;
          var inside :- m(group[i], name);
          if inside {
            return Ok(());
          }
        }
      }
      return if hasPermittedOfType then Err(Violation) else Ok(());
    }
  }
}
