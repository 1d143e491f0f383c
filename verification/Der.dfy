/**
 The DER layer (src/der_utils.rs): definite-form lengths, tag-length-value elements
 with a low-form tag, and the lists of elements that make up a constructed body.

 The parser accepts exactly what the printer writes, so every accepted byte string has
 one reading; the parsers of the other modules are proved on top of that.
 */
module Der {
  import opened Results

  type Byte = x: int | 0 <= x < 256
  type Bytes = seq<Byte>

  /** Lengths at or above this bound do not fit the four length octets the code writes. */
  const LENGTH_LIMIT: nat := 0x1_0000_0000

  datatype DerError =
    | EmptyInput
    | HighTagNumber
    | EmptyLength
    | IndefiniteLength
    | LengthTooLarge
    | InsufficientLength
    | LeadingZeroLength
    | UnnecessaryLongForm
    | LengthExceedsData

  /** One element: a tag and its contents. */
  datatype Tlv = Tlv(tag: Byte, value: Bytes)

  /** A parsed element and the bytes after it. */
  datatype Parsed = Parsed(tag: Byte, value: Bytes, rest: Bytes)

  /** The tag's low five bits are not all set. */
  predicate LowTag(tag: Byte) {
    tag % 32 != 31
  }

  /** The elements the printer can write so that the parser reads them back. */
  predicate Printable(t: Tlv) {
    LowTag(t.tag) && |t.value| < LENGTH_LIMIT
  }

  // ----- big-endian octets -----

  /** The unsigned value of big-endian octets. */
  function BeValue(b: Bytes): nat {
    if b == [] then 0 else 256 * BeValue(b[..|b| - 1]) + b[|b| - 1]
  }

  /** The `k` low-order octets of `n`, most significant first. */
  function LowOctets(n: nat, k: nat): (b: Bytes)
    ensures |b| == k
  {
    if k == 0 then [] else LowOctets(n / 256, k - 1) + [n % 256]
  }

  function Pow256(k: nat): (p: nat)
    ensures p > 0
  {
    if k == 0 then 1 else 256 * Pow256(k - 1)
  }

  lemma {:induction false} BeValueOfLowOctets(n: nat, k: nat)
    requires n < Pow256(k)
    ensures BeValue(LowOctets(n, k)) == n
  {
    if k > 0 {
      BeValueOfLowOctets(n / 256, k - 1);
      assert LowOctets(n, k)[..k - 1] == LowOctets(n / 256, k - 1);
    }
  }

  lemma {:induction false} LowOctetsOfBeValue(b: Bytes)
    ensures LowOctets(BeValue(b), |b|) == b
  {
    if b != [] {
      LowOctetsOfBeValue(b[..|b| - 1]);
    }
  }

  lemma {:induction false} BeValueBounds(b: Bytes)
    ensures BeValue(b) < Pow256(|b|)
    ensures b != [] && b[0] != 0 ==> Pow256(|b| - 1) <= BeValue(b)
  {
    if |b| > 1 {
      BeValueBounds(b[..|b| - 1]);
    } else if |b| == 1 {
      assert b[..0] == [];
    }
  }

  lemma {:induction false} LowOctetsLead(n: nat, k: nat)
    requires k > 0 && Pow256(k - 1) <= n < Pow256(k)
    ensures LowOctets(n, k)[0] != 0
  {
    if k > 1 {
      LowOctetsLead(n / 256, k - 1);
    }
  }

  /** Leading zero octets do not change the unsigned value. */
  lemma {:induction false} BeValueDropsZero(b: Bytes)
    ensures BeValue([0] + b) == BeValue(b)
  {
    if b == [] {
      assert BeValue([0]) == 256 * BeValue([]) + 0;
    } else {
      BeValueDropsZero(b[..|b| - 1]);
      assert ([0] + b)[..|b|] == [0] + b[..|b| - 1];
    }
  }

  // ----- lengths -----

  /** How many length octets the long form uses; four also stands for every larger length. */
  function OctetCount(n: nat): (k: nat)
    ensures 1 <= k <= 4
  {
    if n <= 0xFF then 1 else if n <= 0xFFFF then 2 else if n <= 0xFF_FFFF then 3 else 4
  }

  /** The definite-form length octets of `n`, truncated to four octets as the code does. */
  function EncodeLength(n: nat): Bytes {
    if n < 0x80 then [n] else [0x80 + OctetCount(n)] + LowOctets(n, OctetCount(n))
  }

  /** Append the length octets of `len` to `out`. */
  method EncodeDerLength(out: Bytes, len: nat) returns (r: Bytes)
    ensures r == out + EncodeLength(len)
  {
    LengthOctetsTruncated(len);
    r := out;
    if len < 0x80 {
      r := r + [len];
    } else if len <= 0xFF {
      r := r + [0x81];
      r := r + [len % 256];
    } else if len <= 0xFFFF {
      r := r + [0x82];
      r := r + [(len / 0x100) % 256];
      r := r + [len % 256];
    } else if len <= 0xFF_FFFF {
      r := r + [0x83];
      r := r + [(len / 0x1_0000) % 256];
      r := r + [(len / 0x100) % 256];
      r := r + [len % 256];
    } else {
      r := r + [0x84];
      r := r + [(len / 0x100_0000) % 256];
      r := r + [(len / 0x1_0000) % 256];
      r := r + [(len / 0x100) % 256];
      r := r + [len % 256];
    }
  }

  /** The octets that each range of lengths takes. */
  lemma {:induction false} LengthOctetsTruncated(n: nat)
    ensures EncodeLength(n) ==
            if n < 0x80 then [n]
            else if n <= 0xFF then [0x81, n % 256]
            else if n <= 0xFFFF then [0x82, (n / 0x100) % 256, n % 256]
            else if n <= 0xFF_FFFF then [0x83, (n / 0x1_0000) % 256, (n / 0x100) % 256, n % 256]
            else [0x84, (n / 0x100_0000) % 256, (n / 0x1_0000) % 256, (n / 0x100) % 256, n % 256]
  {
    LowOctetsSpelledOut(n);
    assert LowOctets(n, 1) == [n % 256];
  }

  lemma {:induction false} LowOctetsSpelledOut(n: nat)
    ensures LowOctets(n, 2) == [(n / 0x100) % 256, n % 256]
    ensures LowOctets(n, 3) == [(n / 0x1_0000) % 256, (n / 0x100) % 256, n % 256]
    ensures LowOctets(n, 4) == [(n / 0x100_0000) % 256, (n / 0x1_0000) % 256, (n / 0x100) % 256, n % 256]
  {
    assert n / 256 / 256 == n / 0x1_0000;
    assert n / 256 / 256 / 256 == n / 0x100_0000;
    assert LowOctets(n / 0x100_0000, 1) == [(n / 0x100_0000) % 256];
    assert LowOctets(n / 0x1_0000, 1) == [(n / 0x1_0000) % 256];
    assert LowOctets(n / 0x100, 1) == [(n / 0x100) % 256];
    assert LowOctets(n / 0x1_0000, 2) == LowOctets(n / 0x100_0000, 1) + [(n / 0x1_0000) % 256];
    assert LowOctets(n / 0x100, 2) == LowOctets(n / 0x1_0000, 1) + [(n / 0x100) % 256];
    assert LowOctets(n / 0x100, 3) == LowOctets(n / 0x1_0000, 2) + [(n / 0x100) % 256];
  }

  /** The length octets in full: short form below 128, else a count and the big-endian octets. */
  lemma {:induction false} LengthOctets(n: nat)
    requires n < LENGTH_LIMIT
    ensures EncodeLength(n) ==
            if n < 128 then [n]
            else if n < 0x100 then [0x81, n]
            else if n < 0x1_0000 then [0x82, n / 0x100, n % 0x100]
            else if n < 0x100_0000 then [0x83, n / 0x1_0000, n / 0x100 % 0x100, n % 0x100]
            else [0x84, n / 0x100_0000, n / 0x1_0000 % 0x100, n / 0x100 % 0x100, n % 0x100]
  {
    LengthOctetsTruncated(n);
  }

  /** Read a definite-form length: its value and how many octets it took. */
  function DecodeLength(data: Bytes): Result<(nat, nat), DerError> {
    if data == [] then Err(EmptyLength)
    else if data[0] < 0x80 then Ok((data[0], 1))
    else if data[0] == 0x80 then Err(IndefiniteLength)
    else
      var k := data[0] % 128;
      if k > 4 then Err(LengthTooLarge)
      else if 1 + k > |data| then Err(InsufficientLength)
      else if data[1] == 0 then Err(LeadingZeroLength)
      else if BeValue(data[1..1 + k]) < 128 then Err(UnnecessaryLongForm)
      else Ok((BeValue(data[1..1 + k]), 1 + k))
  }

  /** The length parser's accumulating loop computes `DecodeLength`. */
  method ParseDerLength(data: Bytes) returns (r: Result<(nat, nat), DerError>)
    ensures r == DecodeLength(data)
  {
    if data == [] {
      return Err(EmptyLength);
    }
    var first := data[0];
    if first < 0x80 {
      return Ok((first, 1));
    }
    if first == 0x80 {
      return Err(IndefiniteLength);
    }
    var numBytes := first % 128;
    if numBytes > 4 {
      return Err(LengthTooLarge);
    }
    if 1 + numBytes > |data| {
      return Err(InsufficientLength);
    }
    if data[1] == 0 {
      return Err(LeadingZeroLength);
    }
    var len: nat := 0;
    for i := 0 to numBytes
      invariant len == BeValue(data[1..1 + i])
    {
      assert data[1..2 + i][..i] == data[1..1 + i];
      len := len * 256 + data[1 + i];
    }
    if len < 128 {
      return Err(UnnecessaryLongForm);
    }
    return Ok((len, 1 + numBytes));
  }

  lemma {:induction false} OctetCountIsMinimal(n: nat)
    requires 0x80 <= n < LENGTH_LIMIT
    ensures n < Pow256(OctetCount(n))
    ensures OctetCount(n) > 1 ==> Pow256(OctetCount(n) - 1) <= n
  {
    assert Pow256(1) == 256;
    assert Pow256(2) == 0x1_0000;
    assert Pow256(3) == 0x100_0000;
    assert Pow256(4) == LENGTH_LIMIT;
  }

  lemma {:induction false} OctetCountIsUnique(n: nat, k: nat)
    requires 1 <= k <= 4 && n < Pow256(k) && Pow256(k - 1) <= n
    ensures OctetCount(n) == k && n < LENGTH_LIMIT
  {
    assert Pow256(0) == 1;
    assert Pow256(1) == 256;
    assert Pow256(2) == 0x1_0000;
    assert Pow256(3) == 0x100_0000;
    assert Pow256(4) == LENGTH_LIMIT;
  }

  /** A length the printer wrote is read back, whatever follows it. */
  lemma {:induction false} DecodeEncodeLength(n: nat, rest: Bytes)
    requires n < LENGTH_LIMIT
    ensures DecodeLength(EncodeLength(n) + rest) == Ok((n, |EncodeLength(n)|))
  {
    var data := EncodeLength(n) + rest;
    if n >= 0x80 {
      var k := OctetCount(n);
      OctetCountIsMinimal(n);
      BeValueOfLowOctets(n, k);
      assert data[1..1 + k] == LowOctets(n, k);
      if k > 1 {
        LowOctetsLead(n, k);
      }
      assert data[1] == LowOctets(n, k)[0];
      assert data[0] == 0x80 + k;
      assert (0x80 + k) % 128 == k;
    }
  }

  /** An accepted length is one the printer writes. */
  lemma {:induction false} EncodeDecodeLength(data: Bytes)
    requires DecodeLength(data).Ok?
    ensures var (n, k) := DecodeLength(data).value;
            n < LENGTH_LIMIT && k <= |data| && data[..k] == EncodeLength(n)
  {
    var (n, k) := DecodeLength(data).value;
    if data[0] >= 0x80 {
      var octets := data[1..k];
      BeValueBounds(octets);
      LowOctetsOfBeValue(octets);
      OctetCountIsUnique(n, k - 1);
      assert data[..k] == [data[0]] + octets;
      assert data[0] == 0x80 + (k - 1);
    }
  }

  // ----- elements -----

  /** Print one element. */
  function EncodeTlv(tag: Byte, value: Bytes): Bytes {
    [tag] + EncodeLength(|value|) + value
  }

  /** Read one element off the front of `data`. */
  function ParseTlv(data: Bytes): (r: Result<Parsed, DerError>)
    ensures r.Ok? ==> |r.value.rest| < |data|
  {
    if data == [] then Err(EmptyInput)
    else if data[0] % 32 == 31 then Err(HighTagNumber)
    else
      var header :- DecodeLength(data[1..]);
      var total := 1 + header.1;
      if header.0 > |data| - total then Err(LengthExceedsData)
      else Ok(Parsed(data[0], data[total..total + header.0], data[total + header.0..]))
  }

  lemma {:induction false} ParseParts(data: Bytes, tag: Byte, len: Bytes, value: Bytes, rest: Bytes)
    requires LowTag(tag) && data == [tag] + len + value + rest
    requires DecodeLength(len + (value + rest)) == Ok((|value|, |len|))
    ensures ParseTlv(data) == Ok(Parsed(tag, value, rest))
  {
    assert data[1..] == len + (value + rest);
    var total := 1 + |len|;
    assert data[total..total + |value|] == value;
    assert data[total + |value|..] == rest;
  }

  /** Parsing reads back a printed element and leaves what follows it. */
  lemma {:induction false} ParsePrinted(tag: Byte, value: Bytes, rest: Bytes)
    requires LowTag(tag) && |value| < LENGTH_LIMIT
    ensures ParseTlv(EncodeTlv(tag, value) + rest) == Ok(Parsed(tag, value, rest))
  {
    DecodeEncodeLength(|value|, value + rest);
    ParseParts(EncodeTlv(tag, value) + rest, tag, EncodeLength(|value|), value, rest);
  }

  /** Accepted bytes are the printed element followed by the rest. */
  lemma {:induction false} PrintParsed(data: Bytes)
    requires ParseTlv(data).Ok?
    ensures var p := ParseTlv(data).value;
            LowTag(p.tag) && |p.value| < LENGTH_LIMIT && data == EncodeTlv(p.tag, p.value) + p.rest
  {
    EncodeDecodeLength(data[1..]);
    var (n, k) := DecodeLength(data[1..]).value;
    assert data[1..][..k] == data[1..1 + k];
  }

  /**
   The element parser and printer are mutual inverses: a byte string parses to an element
   and a rest exactly when it is that element, printed, followed by that rest.
   */
  lemma {:induction false} TlvBijection(data: Bytes, p: Parsed)
    ensures ParseTlv(data) == Ok(p) <==>
            Printable(Tlv(p.tag, p.value)) && data == EncodeTlv(p.tag, p.value) + p.rest
  {
    if ParseTlv(data) == Ok(p) {
      PrintParsed(data);
    }
    if Printable(Tlv(p.tag, p.value)) && data == EncodeTlv(p.tag, p.value) + p.rest {
      ParsePrinted(p.tag, p.value, p.rest);
    }
  }

  /** Past four length octets the printer truncates, and the parser never reads the value back. */
  lemma {:induction false} RoundTripExactlyBelowLimit(tag: Byte, value: Bytes)
    ensures ParseTlv(EncodeTlv(tag, value)) == Ok(Parsed(tag, value, [])) <==> Printable(Tlv(tag, value))
  {
    TlvBijection(EncodeTlv(tag, value), Parsed(tag, value, []));
    assert EncodeTlv(tag, value) + [] == EncodeTlv(tag, value);
  }

  // ----- lists of elements -----

  /** Print a list of elements one after the other. */
  function PrintAll(ts: seq<Tlv>): Bytes {
    if ts == [] then [] else EncodeTlv(ts[0].tag, ts[0].value) + PrintAll(ts[1..])
  }

  /** Read elements while the bytes parse: the elements, and the bytes where reading stopped. */
  function SplitChildren(body: Bytes): (seq<Tlv>, Bytes)
    decreases |body|
  {
    match ParseTlv(body)
    case Err(_) => ([], body)
    case Ok(p) =>
      var (ts, tail) := SplitChildren(p.rest);
      ([Tlv(p.tag, p.value)] + ts, tail)
  }

  /** Read a whole body as a list of elements. */
  function ParseAll(body: Bytes): Result<seq<Tlv>, DerError>
    decreases |body|
  {
    if body == [] then Ok([])
    else
      var p :- ParseTlv(body);
      var ts :- ParseAll(p.rest);
      Ok([Tlv(p.tag, p.value)] + ts)
  }

  /** A non-empty body is well-formed when its first element and the rest are. */
  lemma {:induction false} ParseAllSteps(body: Bytes)
    requires body != []
    ensures ParseAll(body).Ok? <==> ParseTlv(body).Ok? && ParseAll(ParseTlv(body).value.rest).Ok?
    ensures ParseAll(body).Ok? ==>
              var p := ParseTlv(body).value;
              ParseAll(body).value == [Tlv(p.tag, p.value)] + ParseAll(p.rest).value
  {
  }

  lemma {:induction false} ParseAllEmpty(body: Bytes)
    ensures ParseAll(body) == Ok([]) <==> body == []
  {
    if body != [] {
      ParseAllSteps(body);
    }
  }

  lemma {:induction false} ParseAllHead(body: Bytes, t: Tlv, ts: seq<Tlv>)
    ensures ParseAll(body) == Ok([t] + ts) <==>
            && ParseTlv(body).Ok? && Tlv(ParseTlv(body).value.tag, ParseTlv(body).value.value) == t
            && ParseAll(ParseTlv(body).value.rest) == Ok(ts)
  {
    if body != [] {
      ParseAllSteps(body);
      if ParseAll(body) == Ok([t] + ts) {
        assert ParseAll(body).value[0] == t && ParseAll(body).value[1..] == ts;
        assert ParseAll(ParseTlv(body).value.rest).value == ts;
      }
    }
  }

  /** Well-formed bodies are in bijection with lists of printable elements. */
  lemma {:induction false} BodyBijection(body: Bytes, ts: seq<Tlv>)
    ensures ParseAll(body) == Ok(ts) <==> (forall t <- ts :: Printable(t)) && body == PrintAll(ts)
    decreases |ts|
  {
    if ts == [] {
      if body != [] && ParseTlv(body).Ok? {
        assert ParseAll(body).Ok? ==> ParseAll(body).value != [];
      }
    } else {
      var t, rest := ts[0], PrintAll(ts[1..]);
      BodyBijection(rest, ts[1..]);
      if ParseAll(body) == Ok(ts) {
        var p := ParseTlv(body).value;
        PrintParsed(body);
        BodyBijection(p.rest, ts[1..]);
        assert [Tlv(p.tag, p.value)] + ParseAll(p.rest).value == ts;
        assert ParseAll(p.rest).value == ts[1..];
        assert forall u <- ts :: u == t || u in ts[1..];
      }
      if (forall u <- ts :: Printable(u)) && body == PrintAll(ts) {
        assert t in ts;
        ParsePrinted(t.tag, t.value, rest);
        assert [t] + ts[1..] == ts;
      }
    }
  }

  /** The first element of the list that carries `tag`. */
  function FirstWithTag(ts: seq<Tlv>, tag: Byte): Option<Bytes> {
    if ts == [] then None
    else if ts[0].tag == tag then Some(ts[0].value)
    else FirstWithTag(ts[1..], tag)
  }

  /**
   The search over a body's children finds the first child with the tag, among the children
   before the first malformed one.
   */
  method FindTaggedValue(body: Bytes, targetTag: Byte) returns (r: Option<Bytes>)
    ensures r == FirstWithTag(SplitChildren(body).0, targetTag)
  {
    var pos := body;
    while pos != []
      invariant FirstWithTag(SplitChildren(body).0, targetTag) == FirstWithTag(SplitChildren(pos).0, targetTag)
      decreases |pos|
    {
      var parsed := ParseTlv(pos);
      match parsed
      case Ok(p) =>
        assert SplitChildren(pos).0[1..] == SplitChildren(p.rest).0;
        if p.tag == targetTag {
          return Some(p.value);
        }
        pos := p.rest;
      case Err(_) =>
        break;
    }
    return None;
  }

  /** Splitting keeps every byte, and stops only at the end or at bytes that do not parse. */
  lemma {:induction false} SplitAccountsForAllBytes(body: Bytes)
    ensures var (ts, tail) := SplitChildren(body);
            && body == PrintAll(ts) + tail
            && (forall t <- ts :: Printable(t))
            && ParseTlv(tail).Err?
    decreases |body|
  {
    if ParseTlv(body).Ok? {
      var p := ParseTlv(body).value;
      PrintParsed(body);
      SplitAccountsForAllBytes(p.rest);
      var ts := SplitChildren(body).0;
      assert ts[1..] == SplitChildren(p.rest).0;
    }
  }

  /** On a well-formed body the search and the full parse agree. */
  lemma {:induction false} SplitOfWellFormed(ts: seq<Tlv>)
    requires forall t <- ts :: Printable(t)
    ensures SplitChildren(PrintAll(ts)) == (ts, [])
  {
    if ts != [] {
      assert ts[0] in ts;
      ParsePrinted(ts[0].tag, ts[0].value, PrintAll(ts[1..]));
      SplitOfWellFormed(ts[1..]);
      assert [ts[0]] + ts[1..] == ts;
    }
  }
}
