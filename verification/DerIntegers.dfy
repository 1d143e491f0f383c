/**
 DER INTEGER bodies and the BasicConstraints extension value (src/der_utils.rs).
 */
module DerIntegers {
  import opened Results
  import opened Der

  // ----- INTEGER bodies -----

  /** Drop one leading zero octet, the sign padding, unless it is the only octet. */
  function ParseIntegerBody(body: Bytes): Bytes {
    if |body| > 1 && body[0] == 0 then body[1..] else body
  }

  predicate IntegerBodiesEqual(a: Bytes, b: Bytes) {
    ParseIntegerBody(a) == ParseIntegerBody(b)
  }

  /** The shortest two's-complement body of a non-negative integer. */
  predicate MinimalNonNegative(b: Bytes) {
    b != [] && b[0] < 128 && (|b| > 1 && b[0] == 0 ==> b[1] >= 128)
  }

  /** The body is a shortest two's-complement encoding, of either sign. */
  predicate MinimalInteger(b: Bytes) {
    b != [] && (|b| > 1 ==> !(b[0] == 0 && b[1] < 128) && !(b[0] == 255 && b[1] >= 128))
  }

  /** All leading zero octets removed, keeping one octet. */
  function StripZeros(b: Bytes): (s: Bytes)
    ensures b != [] ==> s != [] && |s| <= |b|
    ensures |s| > 1 ==> s[0] != 0
  {
    if |b| > 1 && b[0] == 0 then StripZeros(b[1..]) else b
  }

  /** The two's-complement body the encoder writes for a 64-bit unsigned integer. */
  function IntegerBody(v: nat): Bytes {
    var significant := StripZeros(LowOctets(v, 8));
    if significant[0] >= 128 then [0] + significant else significant
  }

  datatype IntegerError = EmptyBody | NegativeBody | TooLarge

  /** Read an INTEGER body as a 64-bit unsigned integer. */
  function DecodeInteger(b: Bytes): Result<nat, IntegerError> {
    if b == [] then Err(EmptyBody)
    else if (|b| == 1 || b[0] != 0) && b[0] >= 128 then Err(NegativeBody)
    else if |ParseIntegerBody(b)| > 8 then Err(TooLarge)
    else Ok(BeValue(ParseIntegerBody(b)))
  }

  /** Accepted are non-negative bodies of at most eight octets besides one leading zero, with their value. */
  lemma {:induction false} DecodeIntegerMeans(b: Bytes, v: nat)
    ensures DecodeInteger(b) == Ok(v) <==>
            && b != [] && b[0] < 128 && (|b| <= 8 || (|b| == 9 && b[0] == 0))
            && v == BeValue(b)
  {
    if b != [] {
      StripOneKeepsValue(b);
    }
  }

  /** The encoder's search for the first significant octet writes `IntegerBody`. */
  method EncodeIntegerU64(v: nat) returns (r: Bytes)
    requires v < Pow256(8)
    ensures r == EncodeTlv(0x02, IntegerBody(v))
  {
    var be := LowOctets(v, 8);
    var start := 0;
    while start < 7 && be[start] == 0
      invariant 0 <= start <= 7
      invariant StripZeros(be) == StripZeros(be[start..])
    {
      assert be[start..][1..] == be[start + 1..];
      start := start + 1;
    }
    var significant := be[start..];
    var valueBytes := [];
    if significant[0] >= 128 {
      valueBytes := valueBytes + [0x00];
    }
    valueBytes := valueBytes + significant;
    var out := [0x02];
    out := EncodeDerLength(out, |valueBytes|);
    r := out + valueBytes;
  }

  /** The decoder's accumulating loop computes `DecodeInteger`. */
  method DecodeIntegerU64(b: Bytes) returns (r: Result<nat, IntegerError>)
    ensures r == DecodeInteger(b)
  {
    if b == [] {
      return Err(EmptyBody);
    }
    var significant: Bytes := b;
    if |b| > 1 && b[0] == 0x00 {
      significant := b[1..];
    } else if b[0] >= 128 {
      return Err(NegativeBody);
    }
    if |significant| > 8 {
      return Err(TooLarge);
    }
    var val: nat := 0;
    for i := 0 to |significant|
      invariant val == BeValue(significant[..i])
    {
      assert significant[..i + 1][..i] == significant[..i];
      assert BeValue(significant[..i + 1]) == 256 * val + significant[i];
      val := val * 256 + significant[i];
    }
    assert significant[..|significant|] == significant;
    return Ok(val);
  }

  lemma {:induction false} StripKeepsValue(b: Bytes)
    ensures BeValue(StripZeros(b)) == BeValue(b)
  {
    if |b| > 1 && b[0] == 0 {
      StripKeepsValue(b[1..]);
      BeValueDropsZero(b[1..]);
      assert b == [0] + b[1..];
    }
  }

  lemma {:induction false} StripOneKeepsValue(b: Bytes)
    ensures BeValue(ParseIntegerBody(b)) == BeValue(b)
  {
    if |b| > 1 && b[0] == 0 {
      BeValueDropsZero(b[1..]);
      assert b == [0] + b[1..];
    }
  }

  lemma {:induction false} Pow256Grows(i: nat, j: nat)
    requires i <= j
    ensures Pow256(i) <= Pow256(j)
  {
    if i < j {
      Pow256Grows(i, j - 1);
    }
  }

  lemma {:induction false} ShorterIsSmaller(a: Bytes, b: Bytes)
    requires |a| < |b| && b[0] != 0
    ensures BeValue(a) < BeValue(b)
  {
    BeValueBounds(a);
    BeValueBounds(b);
    Pow256Grows(|a|, |b| - 1);
  }

  /** Octets without redundant leading zeros are determined by their value. */
  lemma {:induction false} StrippedDeterminedByValue(a: Bytes, b: Bytes)
    requires a != [] && b != [] && (|a| > 1 ==> a[0] != 0) && (|b| > 1 ==> b[0] != 0)
    requires BeValue(a) == BeValue(b)
    ensures a == b
  {
    if |a| < |b| {
      ShorterIsSmaller(a, b);
    } else if |b| < |a| {
      ShorterIsSmaller(b, a);
    } else {
      LowOctetsOfBeValue(a);
      LowOctetsOfBeValue(b);
    }
  }

  /** Encoding then decoding a 64-bit integer gives it back, in minimal form. */
  lemma {:induction false} DecodeEncodeInteger(v: nat)
    requires v < Pow256(8)
    ensures MinimalNonNegative(IntegerBody(v))
    ensures DecodeInteger(IntegerBody(v)) == Ok(v)
  {
    var octets := LowOctets(v, 8);
    var significant := StripZeros(octets);
    StripKeepsValue(octets);
    BeValueOfLowOctets(v, 8);
    var body := IntegerBody(v);
    if significant[0] >= 128 {
      assert body[1..] == significant;
    }
    assert ParseIntegerBody(body) == significant;
  }

  /** A minimal body that decodes is the one the encoder writes for its value. */
  lemma {:induction false} EncodeDecodeInteger(b: Bytes)
    requires MinimalNonNegative(b) && DecodeInteger(b).Ok?
    ensures DecodeInteger(b).value < Pow256(8)
    ensures IntegerBody(DecodeInteger(b).value) == b
  {
    var s := ParseIntegerBody(b);
    var v := DecodeInteger(b).value;
    BeValueBounds(s);
    Pow256Grows(|s|, 8);
    var octets := LowOctets(v, 8);
    StripKeepsValue(octets);
    BeValueOfLowOctets(v, 8);
    StrippedDeterminedByValue(s, StripZeros(octets));
  }

  /** For non-negative minimal bodies, ignoring sign padding compares the integers. */
  lemma {:induction false} PaddingInsensitiveEquality(a: Bytes, b: Bytes)
    requires MinimalNonNegative(a) && MinimalNonNegative(b)
    ensures IntegerBodiesEqual(a, b) <==> a == b
    ensures IntegerBodiesEqual(a, b) <==> BeValue(a) == BeValue(b)
  {
    StripOneKeepsValue(a);
    StripOneKeepsValue(b);
    if BeValue(a) == BeValue(b) {
      StrippedDeterminedByValue(ParseIntegerBody(a), ParseIntegerBody(b));
    }
    if IntegerBodiesEqual(a, b) {
      assert a == (if a[0] == 0 && |a| > 1 then [0] + ParseIntegerBody(a) else ParseIntegerBody(a));
      assert b == (if b[0] == 0 && |b| > 1 then [0] + ParseIntegerBody(b) else ParseIntegerBody(b));
    }
  }

  /** Stripping padding before comparing, as the parsers do, changes nothing. */
  lemma {:induction false} StrippedEquality(a: Bytes, b: Bytes)
    requires MinimalNonNegative(a) && MinimalNonNegative(b)
    ensures IntegerBodiesEqual(ParseIntegerBody(a), ParseIntegerBody(b)) <==> a == b
  {
    PaddingInsensitiveEquality(a, b);
  }

  /**
   With negative bodies allowed the comparison is not equality: it identifies a negative
   body with the padded positive one of the same octets, and nothing else.
   */
  lemma {:induction false} PaddingInsensitiveOnAllMinimal(a: Bytes, b: Bytes)
    requires MinimalInteger(a) && MinimalInteger(b)
    ensures IntegerBodiesEqual(a, b) <==> a == b || a == [0] + b || b == [0] + a
    ensures IntegerBodiesEqual(a, b) && (a[0] >= 128 <==> b[0] >= 128) ==> a == b
  {
    assert IntegerBodiesEqual([0] + b, b) <== b[0] >= 128;
    if IntegerBodiesEqual(a, b) {
      assert a == (if a[0] == 0 && |a| > 1 then [0] + ParseIntegerBody(a) else ParseIntegerBody(a));
      assert b == (if b[0] == 0 && |b| > 1 then [0] + ParseIntegerBody(b) else ParseIntegerBody(b));
    }
    if a == [0] + b {
      assert a[1..] == b;
    }
    if b == [0] + a {
      assert b[1..] == a;
    }
  }

  /** The encodings of -128 and of 128 compare equal. */
  lemma {:induction false} NegativeSerialCollides()
    ensures MinimalInteger([0x80]) && MinimalInteger([0x00, 0x80]) && IntegerBodiesEqual([0x80], [0x00, 0x80])
  {
    assert [0x00, 0x80][1..] == [0x80];
  }

  // ----- BasicConstraints -----

  datatype BasicConstraintsError =
    | BcDer(der: DerError)
    | NotASequence
    | BadBoolean
    | UnexpectedElement
    | PathLenWithoutCa
    | BadPathLen(cause: IntegerError)
    | TrailingAfterPathLen

  function MapDer<T>(r: Result<T, DerError>): Result<T, BasicConstraintsError> {
    match r
    case Ok(v) => Ok(v)
    case Err(e) => Err(BcDer(e))
  }

  /** The optional cA BOOLEAN: its value, and the bytes after it. */
  function ReadCaFlag(body: Bytes): Result<(bool, Bytes), BasicConstraintsError> {
    if body == [] then Ok((false, body))
    else
      var p :- MapDer(ParseTlv(body));
      if p.tag != 0x01 then Ok((false, body))
      else if |p.value| != 1 then Err(BadBoolean)
      else Ok((p.value[0] != 0, p.rest))
  }

  /** The optional pathLenConstraint INTEGER, which must end the body. */
  function ReadPathLen(body: Bytes, isCa: bool): Result<Option<nat>, BasicConstraintsError> {
    if body == [] then Ok(None)
    else
      var p :- MapDer(ParseTlv(body));
      if p.tag != 0x02 then Err(UnexpectedElement)
      else if !isCa then Err(PathLenWithoutCa)
      else
        match DecodeInteger(p.value)
        case Err(e) => Err(BadPathLen(e))
        case Ok(n) => if p.rest != [] then Err(TrailingAfterPathLen) else Ok(Some(n))
  }

  /** Read a BasicConstraints extension value: the cA flag and the path length limit. */
  function ParseBasicConstraints(ext: Bytes): Result<(bool, Option<nat>), BasicConstraintsError> {
    var outer :- MapDer(ParseTlv(ext));
    if outer.tag != 0x30 then Err(NotASequence)
    else
      var flag :- ReadCaFlag(outer.value);
      var pathLen :- ReadPathLen(flag.1, flag.0);
      Ok((flag.0, pathLen))
  }

  /** The element lists that are a BasicConstraints with these two readings. */
  predicate BasicConstraintsGrammar(ts: seq<Tlv>, isCa: bool, pathLen: Option<nat>) {
    || (ts == [] && !isCa && pathLen.None?)
    || (|ts| == 1 && ts[0].tag == 0x01 && |ts[0].value| == 1 && isCa == (ts[0].value[0] != 0) && pathLen.None?)
    || (|ts| == 2 && ts[0].tag == 0x01 && |ts[0].value| == 1 && ts[0].value[0] != 0 && isCa
        && ts[1].tag == 0x02 && pathLen.Some? && DecodeInteger(ts[1].value) == Ok(pathLen.value))
  }

  lemma {:induction false} ReadPathLenGrammar(body: Bytes, isCa: bool, pathLen: Option<nat>)
    ensures ReadPathLen(body, isCa) == Ok(pathLen) <==>
            || (body == [] && pathLen.None?)
            || (isCa && pathLen.Some? && ParseAll(body).Ok? && |ParseAll(body).value| == 1
                && ParseAll(body).value[0].tag == 0x02
                && DecodeInteger(ParseAll(body).value[0].value) == Ok(pathLen.value))
  {
    if body != [] && ParseTlv(body).Ok? {
      var p := ParseTlv(body).value;
      if ParseAll(p.rest).Ok? {
        var ts := ParseAll(p.rest).value;
        assert ParseAll(body) == Ok([Tlv(p.tag, p.value)] + ts);
        assert ts == [] <==> p.rest == [];
      }
    }
  }

  /**
   A BasicConstraints value is accepted, with the given reading, exactly when its outer
   SEQUENCE holds nothing, a one-octet BOOLEAN, or a true BOOLEAN and a 64-bit INTEGER.
   */
  lemma {:induction false} BasicConstraintsAccepts(ext: Bytes, isCa: bool, pathLen: Option<nat>)
    ensures ParseBasicConstraints(ext) == Ok((isCa, pathLen)) <==>
            && ParseTlv(ext).Ok? && ParseTlv(ext).value.tag == 0x30
            && ParseAll(ParseTlv(ext).value.value).Ok?
            && BasicConstraintsGrammar(ParseAll(ParseTlv(ext).value.value).value, isCa, pathLen)
  {
    if ParseTlv(ext).Ok? && ParseTlv(ext).value.tag == 0x30 {
      var body := ParseTlv(ext).value.value;
      if body != [] && ParseTlv(body).Ok? {
        var p := ParseTlv(body).value;
        var flag := ReadCaFlag(body);
        if flag.Ok? {
          ReadPathLenGrammar(flag.value.1, flag.value.0, pathLen);
        }
        if ParseAll(p.rest).Ok? {
          assert ParseAll(body).value == [Tlv(p.tag, p.value)] + ParseAll(p.rest).value;
        }
      }
    }
  }
}
