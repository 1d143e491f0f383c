/**
 Matching of DNS names, mail addresses and IP addresses against constraint bases
 (src/ltv/name_constraints.rs). Names are ASCII, lower-cased before they get here.
 */
module GeneralNames {
  import opened Der

  const DOT: Byte := 0x2E
  const AT: Byte := 0x40

  function ToLowerAscii(b: Bytes): (r: Bytes)
    ensures |r| == |b|
  {
    seq(|b|, i requires 0 <= i < |b| => if 0x41 <= b[i] <= 0x5A then b[i] + 0x20 else b[i])
  }

  /** Capital letters become small ones; everything else stays. */
  lemma {:induction false} LowerAsciiMeans(b: Bytes, i: nat)
    requires i < |b|
    ensures ToLowerAscii(b)[i] == if 'A' as int <= b[i] <= 'Z' as int then b[i] - 'A' as int + 'a' as int else b[i]
  {
  }

  predicate EndsWith(s: Bytes, suffix: Bytes) {
    |suffix| <= |s| && s[|s| - |suffix|..] == suffix
  }

  /** `name` is something, then a dot, then `suffix`. */
  predicate BelowDomain(suffix: Bytes, name: Bytes) {
    |name| > |suffix| && EndsWith(name, suffix) && name[|name| - |suffix| - 1] == DOT
  }

  predicate DnsMatches(base: Bytes, name: Bytes) {
    if base == [] then true
    else if base[0] == DOT then BelowDomain(base[1..], name)
    else name == base || BelowDomain(base, name)
  }

  /** What follows the last at-sign, or everything when there is none. */
  function MailHost(name: Bytes): Bytes {
    if AT !in name then name
    else if name[|name| - 1] == AT then []
    else MailHost(name[..|name| - 1]) + [name[|name| - 1]]
  }

  predicate Rfc822Matches(base: Bytes, name: Bytes) {
    var host := MailHost(name);
    if base == [] then true
    else if base[0] == DOT then BelowDomain(base[1..], host)
    else if AT in base then name == base
    else host == base
  }

  /** Bitwise conjunction of the `bits` low-order bits. */
  function And(a: nat, b: nat, bits: nat): nat {
    if bits == 0 then 0 else 2 * And(a / 2, b / 2, bits - 1) + (if a % 2 == 1 && b % 2 == 1 then 1 else 0)
  }

  predicate IpMatches(addr: Bytes, mask: Bytes, name: Bytes) {
    && |name| == |addr| && |mask| == |addr|
    && forall i :: 0 <= i < |addr| ==> And(addr[i], mask[i], 8) == And(name[i], mask[i], 8)
  }

  // ----- DNS names as lists of labels -----

  /** Put one more character in front of a name's labels. */
  function WithFirst(c: Byte, ls: seq<Bytes>): seq<Bytes>
    requires ls != []
  {
    if c == DOT then [[]] + ls else [[c] + ls[0]] + ls[1..]
  }

  /** The dot-separated labels. */
  function Labels(s: Bytes): (ls: seq<Bytes>)
    ensures ls != []
  {
    if s == [] then [[]] else WithFirst(s[0], Labels(s[1..]))
  }

  function Dotted(ls: seq<Bytes>): Bytes
    requires ls != []
  {
    if |ls| == 1 then ls[0] else ls[0] + [DOT] + Dotted(ls[1..])
  }

  /** `xs` ends with the labels `ys`. */
  predicate LabelSuffix(ys: seq<Bytes>, xs: seq<Bytes>) {
    |ys| <= |xs| && xs[|xs| - |ys|..] == ys
  }

  lemma {:induction false} DottedOfLabels(s: Bytes)
    ensures Dotted(Labels(s)) == s
  {
    if s != [] {
      DottedOfLabels(s[1..]);
      var ls := Labels(s[1..]);
      assert WithFirst(s[0], ls)[1..] == if s[0] == DOT then ls else ls[1..];
    }
  }

  lemma {:induction false} DottedAppends(xs: seq<Bytes>, ys: seq<Bytes>)
    requires xs != [] && ys != []
    ensures Dotted(xs + ys) == Dotted(xs) + [DOT] + Dotted(ys)
  {
    assert (xs + ys)[1..] == xs[1..] + ys;
    if |xs| == 1 {
      assert xs[1..] + ys == ys;
    } else {
      DottedAppends(xs[1..], ys);
    }
  }

  lemma {:induction false} WithFirstAppends(c: Byte, xs: seq<Bytes>, ys: seq<Bytes>)
    requires xs != []
    ensures WithFirst(c, xs + ys) == WithFirst(c, xs) + ys
  {
    assert (xs + ys)[1..] == xs[1..] + ys;
  }

  lemma {:induction false} LabelsOfDotted(s: Bytes, t: Bytes)
    ensures Labels(s + [DOT] + t) == Labels(s) + Labels(t)
  {
    var whole := s + [DOT] + t;
    if s == [] {
      assert whole[1..] == t;
    } else {
      LabelsOfDotted(s[1..], t);
      assert whole[1..] == s[1..] + [DOT] + t;
      WithFirstAppends(s[0], Labels(s[1..]), Labels(t));
    }
  }

  /** Being below a domain is having its labels as a proper suffix. */
  lemma {:induction false} BelowDomainIsProperSuffix(suffix: Bytes, name: Bytes)
    ensures BelowDomain(suffix, name) <==>
            LabelSuffix(Labels(suffix), Labels(name)) && |Labels(suffix)| < |Labels(name)|
  {
    if BelowDomain(suffix, name) {
      var front := name[..|name| - |suffix| - 1];
      assert name == front + [DOT] + suffix;
      LabelsOfDotted(front, suffix);
    }
    if LabelSuffix(Labels(suffix), Labels(name)) && |Labels(suffix)| < |Labels(name)| {
      var k := |Labels(name)| - |Labels(suffix)|;
      var front := Labels(name)[..k];
      assert Labels(name) == front + Labels(suffix);
      DottedAppends(front, Labels(suffix));
      DottedOfLabels(name);
      DottedOfLabels(suffix);
      assert name == Dotted(front) + [DOT] + suffix;
    }
  }

  /**
   A base without a leading dot matches exactly the names whose labels end with the base's
   labels; a leading dot asks for at least one more label.
   */
  lemma {:induction false} DnsMatchIsLabelSuffix(base: Bytes, name: Bytes)
    requires base != []
    ensures base[0] != DOT ==> (DnsMatches(base, name) <==> LabelSuffix(Labels(base), Labels(name)))
    ensures base[0] == DOT ==>
              (DnsMatches(base, name) <==>
               LabelSuffix(Labels(base[1..]), Labels(name)) && |Labels(base[1..])| < |Labels(name)|)
  {
    if base[0] == DOT {
      BelowDomainIsProperSuffix(base[1..], name);
    } else {
      BelowDomainIsProperSuffix(base, name);
      DottedOfLabels(base);
      DottedOfLabels(name);
    }
  }

  lemma {:induction false} BelowDomainTransitive(a: Bytes, b: Bytes, c: Bytes)
    requires BelowDomain(a, b) && EndsWith(c, b)
    ensures BelowDomain(a, c)
  {
    var k := |c| - |b|;
    assert forall i :: 0 <= i < |b| ==> c[k + i] == c[k..][i];
    assert c[|c| - |a|..] == b[|b| - |a|..];
  }

  /** A name within a base that is itself within a wider base is within the wider base. */
  lemma {:induction false} DnsMatchTransitive(wide: Bytes, narrow: Bytes, name: Bytes)
    requires DnsMatches(wide, narrow) && DnsMatches(narrow, name)
    ensures DnsMatches(wide, name)
  {
    if wide != [] && narrow != [] {
      if narrow[0] == DOT {
        assert EndsWith(name, narrow) by {
          var k := |name| - |narrow|;
          assert name[k..] == [name[k]] + name[k + 1..];
        }
      }
      var suffix := if wide[0] == DOT then wide[1..] else wide;
      if BelowDomain(suffix, narrow) {
        BelowDomainTransitive(suffix, narrow, name);
      }
    }
  }

  lemma {:induction false} MailHostHasNoAtSign(name: Bytes)
    ensures AT !in MailHost(name)
  {
    if AT in name && name[|name| - 1] != AT {
      MailHostHasNoAtSign(name[..|name| - 1]);
    }
  }

  /** The host of a mail address is what follows its last at-sign. */
  lemma {:induction false} MailHostOfAddress(local: Bytes, host: Bytes)
    requires AT !in host
    ensures MailHost(local + [AT] + host) == host
    decreases |host|
  {
    var name := local + [AT] + host;
    assert name[|local|] == AT && AT in name;
    if host != [] {
      var init := host[..|host| - 1];
      assert host == init + [host[|host| - 1]] && host[|host| - 1] in host;
      assert forall c <- init :: c in host;
      assert name[..|name| - 1] == local + [AT] + init;
      MailHostOfAddress(local, init);
    }
  }

  /**
   An address matches a base that is empty; one with a leading dot when the labels after it
   are a proper suffix of the host's; one with an at-sign when it is the address; and any
   other when it is the host.
   */
  lemma {:induction false} Rfc822MatchOfAddress(base: Bytes, local: Bytes, host: Bytes)
    requires AT !in host
    ensures Rfc822Matches(base, local + [0x40] + host) <==>
            || base == []
            || (&& base[0] == 0x2E && LabelSuffix(Labels(base[1..]), Labels(host))
                && |Labels(base[1..])| < |Labels(host)|)
            || (base[0] != 0x2E && 0x40 in base && base == local + [0x40] + host)
            || (base[0] != 0x2E && 0x40 !in base && base == host)
  {
    MailHostOfAddress(local, host);
    if base != [] && base[0] == DOT {
      BelowDomainIsProperSuffix(base[1..], host);
    }
  }

  /** Nested mail subtrees are contained in each other: hosts, domains and single mailboxes, over all strings. */
  lemma {:induction false} Rfc822MatchTransitive(wide: Bytes, narrow: Bytes, name: Bytes)
    requires Rfc822Matches(wide, narrow) && Rfc822Matches(narrow, name)
    ensures Rfc822Matches(wide, name)
  {
    if wide != [] && narrow != [] && narrow[0] == DOT {
      var host := MailHost(name);
      MailHostHasNoAtSign(name);
      var k := |host| - |narrow|;
      assert host[k..] == [host[k]] + host[k + 1..];
      assert EndsWith(host, narrow);
      assert forall i :: 0 <= i < |narrow| ==> narrow[i] == host[k..][i] == host[k + i];
      assert AT !in narrow;
      if wide[0] == DOT {
        BelowDomainTransitive(wide[1..], narrow, host);
      }
    }
  }

  /** The bit of weight 2 to the `k`. */
  predicate Bit(x: nat, k: nat) {
    if k == 0 then x % 2 == 1 else Bit(x / 2, k - 1)
  }

  /** The two octets agree on the bits that the mask sets. */
  ghost predicate AgreeUnder(mask: nat, a: nat, b: nat, bits: nat) {
    forall k: nat :: k < bits && Bit(mask, k) ==> (Bit(a, k) <==> Bit(b, k))
  }

  lemma {:induction false} AgreeUnderSteps(mask: nat, a: nat, b: nat, bits: nat)
    requires bits > 0
    ensures AgreeUnder(mask, a, b, bits) <==>
            (Bit(mask, 0) ==> (Bit(a, 0) <==> Bit(b, 0))) && AgreeUnder(mask / 2, a / 2, b / 2, bits - 1)
  {
    if AgreeUnder(mask, a, b, bits) {
      forall k: nat | k < bits - 1 && Bit(mask / 2, k) ensures Bit(a / 2, k) <==> Bit(b / 2, k) {
        assert Bit(mask, k + 1);
      }
    }
    if (Bit(mask, 0) ==> (Bit(a, 0) <==> Bit(b, 0))) && AgreeUnder(mask / 2, a / 2, b / 2, bits - 1) {
      forall k: nat | k < bits && Bit(mask, k) ensures Bit(a, k) <==> Bit(b, k) {
        if k > 0 {
          assert Bit(mask / 2, k - 1);
        }
      }
    }
  }

  lemma {:induction false} AndComparesMaskedBits(a: nat, b: nat, mask: nat, bits: nat)
    ensures And(a, mask, bits) == And(b, mask, bits) <==> AgreeUnder(mask, a, b, bits)
    decreases bits
  {
    if bits > 0 {
      AndComparesMaskedBits(a / 2, b / 2, mask / 2, bits - 1);
      AgreeUnderSteps(mask, a, b, bits);
    }
  }

  /** An address is in the block exactly when it agrees with the base on every bit the mask sets. */
  lemma {:induction false} IpMatchIsMaskedAgreement(addr: Bytes, mask: Bytes, name: Bytes)
    ensures IpMatches(addr, mask, name) <==>
            && |name| == |addr| == |mask|
            && forall i :: 0 <= i < |name| ==> AgreeUnder(mask[i], addr[i], name[i], 8)
  {
    if |name| == |addr| == |mask| {
      forall i | 0 <= i < |name|
        ensures And(addr[i], mask[i], 8) == And(name[i], mask[i], 8) <==> AgreeUnder(mask[i], addr[i], name[i], 8)
      {
        AndComparesMaskedBits(addr[i], name[i], mask[i], 8);
      }
    }
  }

  lemma {:induction false} AndOfNarrowerMask(a: nat, b: nat, wide: nat, narrow: nat, bits: nat)
    requires And(wide, narrow, bits) == And(wide, wide, bits)
    requires And(a, narrow, bits) == And(b, narrow, bits)
    ensures And(a, wide, bits) == And(b, wide, bits)
  {
    if bits > 0 {
      AndOfNarrowerMask(a / 2, b / 2, wide / 2, narrow / 2, bits - 1);
    }
  }

  /** An address block inside a wider block admits only addresses of the wider block. */
  lemma {:induction false} IpMatchTransitive(wideAddr: Bytes, wideMask: Bytes, addr: Bytes, mask: Bytes, name: Bytes)
    requires |wideMask| == |mask|
    requires forall i :: 0 <= i < |mask| ==> And(wideMask[i], mask[i], 8) == And(wideMask[i], wideMask[i], 8)
    requires IpMatches(wideAddr, wideMask, addr) && IpMatches(addr, mask, name)
    ensures IpMatches(wideAddr, wideMask, name)
  {
    forall i | 0 <= i < |name| ensures And(wideAddr[i], wideMask[i], 8) == And(name[i], wideMask[i], 8) {
      AndOfNarrowerMask(addr[i], name[i], wideMask[i], mask[i], 8);
    }
  }
}
