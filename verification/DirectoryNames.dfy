/**
 Matching of directory names as sequences of relative distinguished names, each a
 multiset of attributes (src/ltv/name_constraints.rs).
 */
module DirectoryNames {
  import opened Results
  import opened Der
  import opened TextFolding

  datatype NameConstraintError = Violation | Unsupported | Malformed

  const SEQUENCE: Byte := 0x30
  const SET: Byte := 0x31
  const OID: Byte := 0x06
  const GN_DIRECTORY: Byte := 0xA4

  function Checked<T>(r: Result<T, DerError>): Result<T, NameConstraintError> {
    match r
    case Ok(v) => Ok(v)
    case Err(_) => Err(Malformed)
  }

  // ----- attributes -----

  datatype Atv = Atv(oid: Bytes, tag: Byte, value: Bytes)

  /** UTF8String, PrintableString and IA5String compare as text. */
  predicate IsDirectoryString(tag: Byte) {
    tag == 0x0c || tag == 0x13 || tag == 0x16
  }

  predicate ValueWellFormed(u: Unicode, tag: Byte, value: Bytes) {
    if tag == 0x0c then DecodeText(u, value).Some?
    else if tag == 0x13 || tag == 0x16 then IsAscii(value)
    else true
  }

  /** The comparison form of a value's bytes, when they decode as text. */
  function NormalizeDirectoryString(u: Unicode, value: Bytes): Option<string> {
    match DecodeText(u, value)
    case None => None
    case Some(s) => Some(Fold(u, s))
  }

  predicate AtvValueMatches(u: Unicode, bTag: Byte, bVal: Bytes, nTag: Byte, nVal: Bytes) {
    if IsDirectoryString(bTag) && IsDirectoryString(nTag) then
      match (NormalizeDirectoryString(u, bVal), NormalizeDirectoryString(u, nVal))
      case (Some(b), Some(n)) => b == n
      case _ => false
    else
      bTag == nTag && bVal == nVal
  }

  /** What an attribute is compared by: its type, and its folded text or its tag and bytes. */
  datatype Key = TextKey(oid: Bytes, text: string) | RawKey(oid: Bytes, tag: Byte, value: Bytes)

  function KeyOf(u: Unicode, a: Atv): Key {
    var text := NormalizeDirectoryString(u, a.value);
    if IsDirectoryString(a.tag) && text.Some? then TextKey(a.oid, text.value)
    else RawKey(a.oid, a.tag, a.value)
  }

  function Keys(key: Atv -> Key, atvs: seq<Atv>): (ks: seq<Key>)
    ensures |ks| == |atvs|
    ensures forall i :: 0 <= i < |ks| ==> ks[i] == key(atvs[i])
  {
    if atvs == [] then [] else [key(atvs[0])] + Keys(key, atvs[1..])
  }

  /** Value matching on attributes of one type is equality of comparison keys. */
  lemma {:induction false} MatchIsKeyEquality(u: Unicode, a: Atv, b: Atv)
    requires ValueWellFormed(u, a.tag, a.value) && ValueWellFormed(u, b.tag, b.value)
    ensures b.oid == a.oid && AtvValueMatches(u, a.tag, a.value, b.tag, b.value) <==> KeyOf(u, a) == KeyOf(u, b)
  {
  }

  /**
   UTF8String, PrintableString and IA5String values match when their lower-cased word lists
   agree, whichever of the three each is; other values only when tag and octets are the same.
   */
  lemma {:induction false} ValuesMatchMeans(u: Unicode, bTag: Byte, bVal: Bytes, nTag: Byte, nVal: Bytes)
    ensures AtvValueMatches(u, bTag, bVal, nTag, nVal) <==>
            if bTag in {0x0C, 0x13, 0x16} && nTag in {0x0C, 0x13, 0x16} then
              && DecodeText(u, bVal).Some? && DecodeText(u, nVal).Some?
              && LowerWords(u, Words(u, DecodeText(u, bVal).value)) ==
                   LowerWords(u, Words(u, DecodeText(u, nVal).value))
            else bTag == nTag && bVal == nVal
  {
    if DecodeText(u, bVal).Some? && DecodeText(u, nVal).Some? {
      FoldComparesWordLists(u, DecodeText(u, bVal).value, DecodeText(u, nVal).value);
    }
  }

  // ----- relative distinguished names -----

  /** Read the attribute at the front of an RDN body. */
  function ReadAtv(u: Unicode, body: Bytes): (r: Result<(Atv, Bytes), NameConstraintError>)
    ensures r.Ok? ==> |r.value.1| < |body| && ValueWellFormed(u, r.value.0.tag, r.value.0.value)
  {
    var atv :- Checked(ParseTlv(body));
    if atv.tag != SEQUENCE then Err(Malformed)
    else
      var oid :- Checked(ParseTlv(atv.value));
      if oid.tag != OID then Err(Malformed)
      else
        var val :- Checked(ParseTlv(oid.rest));
        if val.rest != [] then Err(Malformed)
        else if !ValueWellFormed(u, val.tag, val.value) then Err(Malformed)
        else Ok((Atv(oid.value, val.tag, val.value), atv.rest))
  }

  function ReadAtvs(u: Unicode, body: Bytes): (r: Result<seq<Atv>, NameConstraintError>)
    ensures r.Ok? ==> forall a <- r.value :: ValueWellFormed(u, a.tag, a.value)
    decreases |body|
  {
    if body == [] then Ok([])
    else
      var first :- ReadAtv(u, body);
      Prepend([first.0], ReadAtvs(u, first.1))
  }

  /** The element is this attribute: a SEQUENCE of its type and a value that is text where it claims to be. */
  predicate IsAttribute(u: Unicode, t: Tlv, a: Atv) {
    && t.tag == 0x30 && ParseAll(t.value) == Ok([Tlv(0x06, a.oid), Tlv(a.tag, a.value)])
    && (a.tag == 0x0C ==> DecodeText(u, a.value).Some?)
    && (a.tag in {0x13, 0x16} ==> IsAscii(a.value))
  }

  lemma {:induction false} AtvAccepts(u: Unicode, body: Bytes, a: Atv)
    requires ParseTlv(body).Ok?
    ensures var p := ParseTlv(body).value;
            && (ReadAtv(u, body) == Ok((a, p.rest)) <==> IsAttribute(u, Tlv(p.tag, p.value), a))
            && (ReadAtv(u, body).Ok? ==> ReadAtv(u, body).value.1 == p.rest)
  {
    var p := ParseTlv(body).value;
    ParseAllHead(p.value, Tlv(0x06, a.oid), [Tlv(a.tag, a.value)]);
    if ParseTlv(p.value).Ok? {
      var oid := ParseTlv(p.value).value;
      assert [Tlv(a.tag, a.value)] + [] == [Tlv(a.tag, a.value)];
      ParseAllHead(oid.rest, Tlv(a.tag, a.value), []);
      if ParseTlv(oid.rest).Ok? {
        ParseAllEmpty(ParseTlv(oid.rest).value.rest);
      }
    }
    assert [Tlv(0x06, a.oid)] + [Tlv(a.tag, a.value)] == [Tlv(0x06, a.oid), Tlv(a.tag, a.value)];
  }

  /** The elements are these attributes, in order. */
  predicate AreAttributes(u: Unicode, ts: seq<Tlv>, atvs: seq<Atv>) {
    |ts| == |atvs| && forall i :: 0 <= i < |ts| ==> IsAttribute(u, ts[i], atvs[i])
  }

  lemma {:induction false} AttributesSteps(u: Unicode, t: Tlv, ts: seq<Tlv>, atvs: seq<Atv>)
    ensures AreAttributes(u, [t] + ts, atvs) <==>
            atvs != [] && IsAttribute(u, t, atvs[0]) && AreAttributes(u, ts, atvs[1..])
  {
    var all := [t] + ts;
    if AreAttributes(u, all, atvs) {
      assert IsAttribute(u, all[0], atvs[0]);
      forall i | 0 <= i < |ts| ensures IsAttribute(u, ts[i], atvs[1..][i]) {
        assert IsAttribute(u, all[i + 1], atvs[i + 1]);
      }
    }
    if atvs != [] && IsAttribute(u, t, atvs[0]) && AreAttributes(u, ts, atvs[1..]) {
      forall i | 0 <= i < |all| ensures IsAttribute(u, all[i], atvs[i]) {
        if i > 0 {
          assert IsAttribute(u, ts[i - 1], atvs[1..][i - 1]);
        }
      }
    }
  }

  /** The attributes of an RDN are read exactly when its body is the list of them. */
  lemma {:induction false} AtvsAccept(u: Unicode, body: Bytes, atvs: seq<Atv>)
    ensures ReadAtvs(u, body) == Ok(atvs) <==> ParseAll(body).Ok? && AreAttributes(u, ParseAll(body).value, atvs)
    decreases |body|
  {
    if body != [] && ParseTlv(body).Ok? {
      var p := ParseTlv(body).value;
      ParseAllSteps(body);
      if atvs != [] {
        AtvAccepts(u, body, atvs[0]);
        AtvsAccept(u, p.rest, atvs[1..]);
        assert atvs == [atvs[0]] + atvs[1..];
      }
      if ParseAll(p.rest).Ok? {
        AttributesSteps(u, Tlv(p.tag, p.value), ParseAll(p.rest).value, atvs);
      }
    }
  }

  /** The attributes of one RDN. */
  function RdnAtvs(u: Unicode, rdn: Bytes): (r: Result<seq<Atv>, NameConstraintError>)
    ensures r.Ok? ==> forall a <- r.value :: ValueWellFormed(u, a.tag, a.value)
  {
    var outer :- Checked(ParseTlv(rdn));
    if outer.tag != SET then Err(Malformed) else ReadAtvs(u, outer.value)
  }

  /** The cursor loop over an RDN's attributes. */
  method ParseAtvs(u: Unicode, body: Bytes) returns (r: Result<seq<Atv>, NameConstraintError>)
    ensures r == ReadAtvs(u, body)
  {
    var atvs := [];
    var pos := body;
    PrependTwice([], [], ReadAtvs(u, pos));
    while pos != []
      invariant ReadAtvs(u, body) == Prepend(atvs, ReadAtvs(u, pos))
      decreases |pos|
    {
      var first := ReadAtv(u, pos);
      if first.Err? {
        return Err(first.error);
      }
      PrependTwice(atvs, [first.value.0], ReadAtvs(u, first.value.1));
      atvs := atvs + [first.value.0];
      pos := first.value.1;
    }
    PrependDone(atvs, ReadAtvs(u, pos));
    return Ok(atvs);
  }

  method ParseRdnAtvs(u: Unicode, rdn: Bytes) returns (r: Result<seq<Atv>, NameConstraintError>)
    ensures r == RdnAtvs(u, rdn)
  {
    var outer :- Checked(ParseTlv(rdn));
    if outer.tag != SET {
      return Err(Malformed);
    }
    r := ParseAtvs(u, outer.value);
  }

  /** The RDN as the multiset of its attributes' keys. */
  function RdnKeys(u: Unicode, rdn: Bytes): Result<multiset<Key>, NameConstraintError> {
    var atvs :- RdnAtvs(u, rdn);
    Ok(multiset(Keys(a => KeyOf(u, a), atvs)))
  }

  /** Two RDNs match when they hold the same keys, each as often. */
  function RdnMatches(u: Unicode, base: Bytes, name: Bytes): Result<bool, NameConstraintError> {
    var b :- RdnKeys(u, base);
    var n :- RdnKeys(u, name);
    Ok(b == n)
  }

  // ----- the greedy match with used flags -----

  /** The keys whose flag is set. */
  ghost function UsedKeys(ks: seq<Key>, used: seq<bool>): multiset<Key>
    requires |ks| == |used|
  {
    if ks == [] then multiset{}
    else
      UsedKeys(ks[..|ks| - 1], used[..|used| - 1])
      + (if used[|used| - 1] then multiset{ks[|ks| - 1]} else multiset{})
  }

  lemma {:induction false} NoneUsed(ks: seq<Key>, used: seq<bool>)
    requires |ks| == |used| && forall i :: 0 <= i < |used| ==> !used[i]
    ensures UsedKeys(ks, used) == multiset{}
  {
    if ks != [] {
      NoneUsed(ks[..|ks| - 1], used[..|used| - 1]);
    }
  }

  lemma {:induction false} SetFlagAddsKey(ks: seq<Key>, used: seq<bool>, i: nat)
    requires |ks| == |used| && i < |ks| && !used[i]
    ensures UsedKeys(ks, used[i := true]) == UsedKeys(ks, used) + multiset{ks[i]}
  {
    var n := |ks| - 1;
    if i < n {
      SetFlagAddsKey(ks[..n], used[..n], i);
      assert used[i := true][..n] == used[..n][i := true];
    } else {
      assert used[i := true][..n] == used[..n];
    }
  }

  /** Used keys occur in the list, and an unflagged key is never fully used up. */
  lemma {:induction false} UsedKeysBounded(ks: seq<Key>, used: seq<bool>, k: Key)
    requires |ks| == |used|
    ensures UsedKeys(ks, used)[k] <= multiset(ks)[k]
    ensures (forall i :: 0 <= i < |ks| && ks[i] == k ==> used[i]) ==> UsedKeys(ks, used)[k] == multiset(ks)[k]
  {
    if ks != [] {
      var n := |ks| - 1;
      UsedKeysBounded(ks[..n], used[..n], k);
      assert ks == ks[..n] + [ks[n]];
    }
  }

  lemma {:induction false} UsedKeysWithin(ks: seq<Key>, used: seq<bool>)
    requires |ks| == |used|
    ensures UsedKeys(ks, used) <= multiset(ks)
  {
    forall k ensures UsedKeys(ks, used)[k] <= multiset(ks)[k] {
      UsedKeysBounded(ks, used, k);
    }
  }

  /** A key with no unflagged occurrence left occurs too often in the other list. */
  lemma {:induction false} NoUnflaggedOccurrence(bs: seq<Key>, ns: seq<Key>, used: seq<bool>, j: nat)
    requires |ns| == |used| && j < |bs| && UsedKeys(ns, used) == multiset(bs[..j])
    requires forall i :: 0 <= i < |ns| && ns[i] == bs[j] ==> used[i]
    ensures multiset(bs) != multiset(ns)
  {
    UsedKeysBounded(ns, used, bs[j]);
    assert bs == bs[..j] + [bs[j]] + bs[j + 1..];
    assert multiset(bs)[bs[j]] > multiset(ns)[bs[j]];
  }

  lemma {:induction false} OneMoreClaimed(bs: seq<Key>, ns: seq<Key>, used: seq<bool>, j: nat, at: nat)
    requires |ns| == |used| && j < |bs| && at < |ns| && !used[at] && ns[at] == bs[j]
    requires UsedKeys(ns, used) == multiset(bs[..j])
    ensures UsedKeys(ns, used[at := true]) == multiset(bs[..j + 1])
  {
    SetFlagAddsKey(ns, used, at);
    assert bs[..j + 1] == bs[..j] + [bs[j]];
  }

  /** When as many keys are used as there are, all are. */
  lemma {:induction false} AllKeysUsed(bs: seq<Key>, ns: seq<Key>, used: seq<bool>)
    requires |ns| == |used| == |bs| && UsedKeys(ns, used) == multiset(bs)
    ensures multiset(bs) == multiset(ns)
  {
    UsedKeysWithin(ns, used);
    assert multiset(ns) == multiset(bs) + (multiset(ns) - multiset(bs));
    assert |multiset(ns) - multiset(bs)| == 0;
  }

  /** `matches` compares the attributes of the two lists by `key`. */
  ghost predicate DecidesKey(matches: (Atv, Atv) -> bool, key: Atv -> Key, base: seq<Atv>, name: seq<Atv>) {
    forall b <- base, n <- name :: matches(b, n) <==> key(b) == key(n)
  }

  /** Flag the first unflagged name attribute that matches `b`, if there is one. */
  method ClaimMatch(matches: (Atv, Atv) -> bool, b: Atv, name: seq<Atv>, used: array<bool>)
    returns (found: bool, at: nat)
    requires used.Length == |name|
    modifies used
    ensures found ==>
              && at < |name| && !old(used[at]) && matches(b, name[at])
              && used[..] == old(used[..])[at := true]
    ensures !found ==>
              && used[..] == old(used[..])
              && forall i :: 0 <= i < |name| && matches(b, name[i]) ==> used[i]
  {
    found, at := false, 0;
    while at < |name|
      invariant 0 <= at <= |name|
      invariant used[..] == old(used[..])
      invariant forall j :: 0 <= j < at && matches(b, name[j]) ==> used[j]
    {
      if !used[at] && matches(b, name[at]) {
        used[at] := true;
        return true, at;
      }
      at := at + 1;
    }
  }

  /** Claim a match for each base attribute in turn. */
  method ClaimAll(matches: (Atv, Atv) -> bool, base: seq<Atv>, name: seq<Atv>, used: array<bool>, ghost key: Atv -> Key)
    returns (same: bool)
    requires used.Length == |name| == |base| && forall i :: 0 <= i < |name| ==> !used[i]
    requires DecidesKey(matches, key, base, name)
    modifies used
    ensures same <==> multiset(Keys(key, base)) == multiset(Keys(key, name))
  {
    ghost var bs, ns := Keys(key, base), Keys(key, name);
    NoneUsed(ns, used[..]);
    for j := 0 to |base|
      invariant UsedKeys(ns, used[..]) == multiset(bs[..j])
    {
      ghost var before := used[..];
      var found, at := ClaimMatch(matches, base[j], name, used);
      assert base[j] in base && forall i :: 0 <= i < |name| ==> (matches(base[j], name[i]) <==> bs[j] == ns[i]);
      if !found {
        NoUnflaggedOccurrence(bs, ns, used[..], j);
        return false;
      }
      OneMoreClaimed(bs, ns, before, j, at);
    }
    assert bs[..|base|] == bs;
    AllKeysUsed(bs, ns, used[..]);
    return true;
  }

  /** The greedy match with used flags decides multiset equality of the keys. */
  method MatchAtvs(matches: (Atv, Atv) -> bool, base: seq<Atv>, name: seq<Atv>, ghost key: Atv -> Key)
    returns (same: bool)
    requires DecidesKey(matches, key, base, name)
    ensures same <==> multiset(Keys(key, base)) == multiset(Keys(key, name))
  {
    if |base| != |name| {
      assert |multiset(Keys(key, base))| != |multiset(Keys(key, name))|;
      return false;
    }
    var used := new bool[|name|](_ => false);
    same := ClaimAll(matches, base, name, used, key);
  }

  method MatchRdns(u: Unicode, baseRdn: Bytes, nameRdn: Bytes) returns (r: Result<bool, NameConstraintError>)
    ensures r == RdnMatches(u, baseRdn, nameRdn)
  {
    var base :- ParseRdnAtvs(u, baseRdn);
    var name :- ParseRdnAtvs(u, nameRdn);
    var matches := (b: Atv, n: Atv) => n.oid == b.oid && AtvValueMatches(u, b.tag, b.value, n.tag, n.value);
    ghost var key := (a: Atv) => KeyOf(u, a);
    assert DecidesKey(matches, key, base, name) by {
      forall b <- base, n <- name ensures matches(b, n) <==> key(b) == key(n) {
        MatchIsKeyEquality(u, b, n);
      }
    }
    var same := MatchAtvs(matches, base, name, key);
    return Ok(same);
  }

  // ----- names -----

  /** The raw RDNs of a Name body. */
  function ReadRdns(body: Bytes): Result<seq<Bytes>, NameConstraintError>
    decreases |body|
  {
    if body == [] then Ok([])
    else
      var rdn :- Checked(ParseTlv(body));
      if rdn.tag != SET then Err(Malformed)
      else
        Prepend([body[..|body| - |rdn.rest|]], ReadRdns(rdn.rest))
  }

  /** The elements are SETs, and these are their encodings, in order. */
  predicate AreRdns(ts: seq<Tlv>, rdns: seq<Bytes>) {
    |ts| == |rdns| && forall i :: 0 <= i < |ts| ==> ts[i].tag == 0x31 && rdns[i] == EncodeTlv(0x31, ts[i].value)
  }

  lemma {:induction false} RdnsSteps(t: Tlv, ts: seq<Tlv>, rdns: seq<Bytes>)
    ensures AreRdns([t] + ts, rdns) <==>
            rdns != [] && t.tag == 0x31 && rdns[0] == EncodeTlv(0x31, t.value) && AreRdns(ts, rdns[1..])
  {
    var all := [t] + ts;
    assert all[0] == t && forall i :: 0 <= i < |ts| ==> ts[i] == all[i + 1];
    assert forall j :: 1 <= j < |all| ==> all[j] == ts[j - 1];
    if rdns != [] {
      assert forall i :: 0 <= i < |rdns[1..]| ==> rdns[1..][i] == rdns[i + 1];
      assert forall j :: 1 <= j < |rdns| ==> rdns[j] == rdns[1..][j - 1];
    }
  }

  /** A Name's body is read exactly when it is a list of SETs, and gives their encodings in order. */
  lemma {:induction false} RdnsAccept(body: Bytes, rdns: seq<Bytes>)
    ensures ReadRdns(body) == Ok(rdns) <==> ParseAll(body).Ok? && AreRdns(ParseAll(body).value, rdns)
    decreases |body|
  {
    if body != [] && ParseTlv(body).Ok? {
      var p := ParseTlv(body).value;
      PrintParsed(body);
      assert body[..|body| - |p.rest|] == EncodeTlv(p.tag, p.value);
      ParseAllSteps(body);
      if rdns != [] {
        RdnsAccept(p.rest, rdns[1..]);
        assert rdns == [rdns[0]] + rdns[1..];
      }
      if ParseAll(p.rest).Ok? {
        RdnsSteps(Tlv(p.tag, p.value), ParseAll(p.rest).value, rdns);
      }
    }
  }

  /** The body of the Name, which may be wrapped in an explicit directoryName tag. */
  function NameBody(der: Bytes): Result<Bytes, NameConstraintError> {
    var outer :- Checked(ParseTlv(der));
    if outer.tag == GN_DIRECTORY then
      var inner :- Checked(ParseTlv(outer.value));
      if inner.tag != SEQUENCE then Err(Malformed) else Ok(inner.value)
    else if outer.tag == SEQUENCE then Ok(outer.value)
    else Err(Malformed)
  }

  function InnerNameRdns(der: Bytes): Result<seq<Bytes>, NameConstraintError> {
    var body :- NameBody(der);
    ReadRdns(body)
  }

  /** A printed Name of SETs has them as its RDNs, wrapped in the explicit tag [4] or not. */
  lemma {:induction false} PrintedNameReads(ts: seq<Tlv>, rdns: seq<Bytes>)
    requires (forall t <- ts :: Printable(t)) && |EncodeTlv(0x30, PrintAll(ts))| < LENGTH_LIMIT && AreRdns(ts, rdns)
    ensures InnerNameRdns(EncodeTlv(0x30, PrintAll(ts))) == Ok(rdns)
    ensures InnerNameRdns(EncodeTlv(0xA4, EncodeTlv(0x30, PrintAll(ts)))) == Ok(rdns)
  {
    var body := PrintAll(ts);
    var name := EncodeTlv(0x30, body);
    BodyBijection(body, ts);
    RdnsAccept(body, rdns);
    assert name + [] == name && EncodeTlv(0xA4, name) + [] == EncodeTlv(0xA4, name);
    ParsePrinted(0x30, body, []);
    ParsePrinted(0xA4, name, []);
  }

  /** The cursor loop over a name's RDNs. */
  method ParseInnerNameRdns(der: Bytes) returns (r: Result<seq<Bytes>, NameConstraintError>)
    ensures r == InnerNameRdns(der)
  {
    var body :- NameBody(der);
    var rdns := [];
    var pos := body;
    PrependTwice([], [], ReadRdns(pos));
    while pos != []
      invariant ReadRdns(body) == Prepend(rdns, ReadRdns(pos))
      decreases |pos|
    {
      var rdn := Checked(ParseTlv(pos));
      if rdn.Err? {
        return Err(rdn.error);
      }
      var consumed := |pos| - |rdn.value.rest|;
      if rdn.value.tag != SET {
        return Err(Malformed);
      }
      PrependTwice(rdns, [pos[..consumed]], ReadRdns(rdn.value.rest));
      rdns := rdns + [pos[..consumed]];
      pos := rdn.value.rest;
    }
    PrependDone(rdns, ReadRdns(pos));
    return Ok(rdns);
  }

  /** Element-by-element comparison, stopping at the first pair that differs or fails. */
  function ZipMatches(same: (Bytes, Bytes) -> Result<bool, NameConstraintError>, bs: seq<Bytes>, ns: seq<Bytes>)
    : Result<bool, NameConstraintError>
    requires |bs| <= |ns|
  {
    if bs == [] then Ok(true)
    else
      var first :- same(bs[0], ns[0]);
      if !first then Ok(false) else ZipMatches(same, bs[1..], ns[1..])
  }

  function RdnMatcher(u: Unicode): (Bytes, Bytes) -> Result<bool, NameConstraintError> {
    (b, n) => RdnMatches(u, b, n)
  }

  function DirectoryMatches(u: Unicode, base: Bytes, name: Bytes): Result<bool, NameConstraintError> {
    var bs :- InnerNameRdns(base);
    var ns :- InnerNameRdns(name);
    if |bs| > |ns| then Ok(false) else ZipMatches(RdnMatcher(u), bs, ns)
  }

  /** The pairwise loop of the directory-name match. */
  method MatchDirectoryNames(u: Unicode, base: Bytes, name: Bytes) returns (r: Result<bool, NameConstraintError>)
    ensures r == DirectoryMatches(u, base, name)
  {
    var bs :- ParseInnerNameRdns(base);
    var ns :- ParseInnerNameRdns(name);
    if |bs| > |ns| {
      return Ok(false);
    }
    for i := 0 to |bs|
      invariant ZipMatches(RdnMatcher(u), bs, ns) == ZipMatches(RdnMatcher(u), bs[i..], ns[i..])
    {
      assert bs[i..][1..] == bs[i + 1..] && ns[i..][1..] == ns[i + 1..];
      var same :- MatchRdns(u, bs[i], ns[i]);
      if !same {
        return Ok(false);
      }
    }
    return Ok(true);
  }

  // ----- the order on names -----

  /** The canonical form of a list of RDNs: the keys of each. */
  function RdnListKeys(u: Unicode, rdns: seq<Bytes>): (r: Result<seq<multiset<Key>>, NameConstraintError>)
    ensures r.Ok? ==> |r.value| == |rdns|
    ensures r.Ok? ==> forall i :: 0 <= i < |rdns| ==> RdnKeys(u, rdns[i]) == Ok(r.value[i])
  {
    if rdns == [] then Ok([])
    else
      var first :- RdnKeys(u, rdns[0]);
      var others :- RdnListKeys(u, rdns[1..]);
      Ok([first] + others)
  }

  /** The canonical form of a name; an error when some part of it is malformed. */
  function NameKeys(u: Unicode, der: Bytes): Result<seq<multiset<Key>>, NameConstraintError> {
    var rdns :- InnerNameRdns(der);
    RdnListKeys(u, rdns)
  }

  lemma {:induction false} ZipMatchesPairwise(same: (Bytes, Bytes) -> Result<bool, NameConstraintError>, bs: seq<Bytes>,
                                              ns: seq<Bytes>)
    requires |bs| <= |ns|
    ensures ZipMatches(same, bs, ns) == Ok(true) <==> forall i :: 0 <= i < |bs| ==> same(bs[i], ns[i]) == Ok(true)
    ensures (forall i :: 0 <= i < |bs| ==> same(bs[i], ns[i]).Ok?) ==> ZipMatches(same, bs, ns).Ok?
  {
    if bs != [] {
      ZipMatchesPairwise(same, bs[1..], ns[1..]);
      assert forall i :: 0 <= i < |bs[1..]| ==> bs[1..][i] == bs[i + 1] && ns[1..][i] == ns[i + 1];
      assert forall i :: 0 < i < |bs| ==> bs[i] == bs[1..][i - 1] && ns[i] == ns[1..][i - 1];
    }
  }

  lemma {:induction false} ZipMatchesByKey(same: (Bytes, Bytes) -> Result<bool, NameConstraintError>, bs: seq<Bytes>,
                                           ns: seq<Bytes>, bks: seq<multiset<Key>>, nks: seq<multiset<Key>>)
    requires |bks| == |bs| <= |ns| == |nks|
    requires forall i :: 0 <= i < |bs| ==> same(bs[i], ns[i]) == Ok(bks[i] == nks[i])
    ensures ZipMatches(same, bs, ns) == Ok(bks <= nks)
  {
    ZipMatchesPairwise(same, bs, ns);
    assert forall i :: 0 <= i < |bs| ==> same(bs[i], ns[i]).Ok?;
    if bks <= nks {
      assert forall i :: 0 <= i < |bs| ==> bks[i] == nks[i] && same(bs[i], ns[i]) == Ok(true);
    }
    if ZipMatches(same, bs, ns) == Ok(true) {
      assert forall i :: 0 <= i < |bs| ==> same(bs[i], ns[i]) == Ok(true) && bks[i] == nks[i];
      assert bks == nks[..|bks|];
    }
    var r := ZipMatches(same, bs, ns);
    assert r.Ok? && (r.value <==> bks <= nks);
  }

  lemma {:induction false} ZipMatchesOfKeys(u: Unicode, bs: seq<Bytes>, ns: seq<Bytes>)
    requires RdnListKeys(u, bs).Ok? && RdnListKeys(u, ns).Ok? && |bs| <= |ns|
    ensures ZipMatches(RdnMatcher(u), bs, ns) == Ok(RdnListKeys(u, bs).value <= RdnListKeys(u, ns).value)
  {
    var bks, nks := RdnListKeys(u, bs).value, RdnListKeys(u, ns).value;
    forall i | 0 <= i < |bs| ensures RdnMatcher(u)(bs[i], ns[i]) == Ok(bks[i] == nks[i]) {
      assert RdnKeys(u, bs[i]) == Ok(bks[i]) && RdnKeys(u, ns[i]) == Ok(nks[i]);
    }
    ZipMatchesByKey(RdnMatcher(u), bs, ns, bks, nks);
  }

  /** On well-formed names, matching is the prefix order on their canonical forms. */
  lemma {:induction false} DirectoryMatchIsPrefix(u: Unicode, base: Bytes, name: Bytes)
    requires NameKeys(u, base).Ok? && NameKeys(u, name).Ok?
    ensures DirectoryMatches(u, base, name) == Ok(NameKeys(u, base).value <= NameKeys(u, name).value)
  {
    var bs, ns := InnerNameRdns(base).value, InnerNameRdns(name).value;
    if |bs| <= |ns| {
      ZipMatchesOfKeys(u, bs, ns);
    }
  }

  /** A well-formed name is within itself. */
  lemma {:induction false} DirectoryMatchReflexive(u: Unicode, name: Bytes)
    requires NameKeys(u, name).Ok?
    ensures DirectoryMatches(u, name, name) == Ok(true)
  {
    DirectoryMatchIsPrefix(u, name, name);
  }

  lemma {:induction false} RdnListKeysTotal(u: Unicode, rdns: seq<Bytes>)
    requires forall i :: 0 <= i < |rdns| ==> RdnKeys(u, rdns[i]).Ok?
    ensures RdnListKeys(u, rdns).Ok?
  {
    if rdns != [] {
      assert forall i :: 0 <= i < |rdns[1..]| ==> rdns[1..][i] == rdns[i + 1];
      RdnListKeysTotal(u, rdns[1..]);
    }
  }

  /** Only a base that parses throughout matches anything. */
  lemma {:induction false} MatchingBaseIsWellFormed(u: Unicode, base: Bytes, name: Bytes)
    requires DirectoryMatches(u, base, name) == Ok(true)
    ensures NameKeys(u, base).Ok?
  {
    var bs, ns := InnerNameRdns(base).value, InnerNameRdns(name).value;
    ZipMatchesPairwise(RdnMatcher(u), bs, ns);
    assert forall i :: 0 <= i < |bs| ==> RdnMatcher(u)(bs[i], ns[i]) == Ok(true) && RdnKeys(u, bs[i]).Ok?;
    RdnListKeysTotal(u, bs);
  }

  lemma {:induction false} ZipMatchesTransitive(u: Unicode, ws: seq<Bytes>, bs: seq<Bytes>, ns: seq<Bytes>)
    requires |ws| <= |bs| <= |ns|
    requires ZipMatches(RdnMatcher(u), ws, bs) == Ok(true) && ZipMatches(RdnMatcher(u), bs, ns) == Ok(true)
    ensures ZipMatches(RdnMatcher(u), ws, ns) == Ok(true)
  {
    var same := RdnMatcher(u);
    forall a, b, c | same(a, b) == Ok(true) && same(b, c) == Ok(true) ensures same(a, c) == Ok(true) {
      RdnMatchEquivalence(u, a, b, c);
    }
    ZipMatchesChain(same, ws, bs, ns);
  }

  lemma {:induction false} ZipMatchesChain(same: (Bytes, Bytes) -> Result<bool, NameConstraintError>, ws: seq<Bytes>,
                                           bs: seq<Bytes>, ns: seq<Bytes>)
    requires |ws| <= |bs| <= |ns|
    requires forall a, b, c :: same(a, b) == Ok(true) && same(b, c) == Ok(true) ==> same(a, c) == Ok(true)
    requires ZipMatches(same, ws, bs) == Ok(true) && ZipMatches(same, bs, ns) == Ok(true)
    ensures ZipMatches(same, ws, ns) == Ok(true)
  {
    if ws != [] {
      ZipMatchesChain(same, ws[1..], bs[1..], ns[1..]);
    }
  }

  /** A narrower base admits only names the wider base admits, malformed names included. */
  lemma {:induction false} DirectoryMatchTransitive(u: Unicode, wide: Bytes, narrow: Bytes, name: Bytes)
    requires DirectoryMatches(u, wide, narrow) == Ok(true)
    requires DirectoryMatches(u, narrow, name) == Ok(true)
    ensures DirectoryMatches(u, wide, name) == Ok(true)
  {
    ZipMatchesTransitive(u, InnerNameRdns(wide).value, InnerNameRdns(narrow).value, InnerNameRdns(name).value);
  }

  /** RDN matching is an equivalence: an RDN matches itself, and matches agree both ways and chain. */
  lemma {:induction false} RdnMatchEquivalence(u: Unicode, a: Bytes, b: Bytes, c: Bytes)
    ensures RdnAtvs(u, a).Ok? ==> RdnMatches(u, a, a) == Ok(true)
    ensures RdnMatches(u, a, b) == Ok(true) <==> RdnMatches(u, b, a) == Ok(true)
    ensures RdnMatches(u, a, b) == Ok(true) && RdnMatches(u, b, c) == Ok(true) ==> RdnMatches(u, a, c) == Ok(true)
  {
  }
}
