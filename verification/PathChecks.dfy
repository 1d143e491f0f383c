/**
 The per-certificate and whole-path checks of chain verification (src/trust/store.rs):
 extensions, certificate-authority profile, path lengths and name constraints.
 */
module PathChecks {
  import opened Results
  import opened Der
  import opened DerIntegers
  import opened TextFolding
  import opened DirectoryNames
  import opened Certificates
  import opened NameConstraints

  /** Why a chain is refused; an index is the position of the certificate in the chain. */
  datatype TrustError =
    | EmptyChain
    | ChainBroken(index: nat)
    | NotYetValid(index: nat)
    | Expired(index: nat)
    | UntrustedRoot
    | BadSignature(index: nat)
    | ProfileViolation
    | CertificateParse

  // ----- basicConstraints and keyUsage -----

  /** The cA flag and the path length limit; a certificate without the extension has neither. */
  function BasicConstraintsOf(cert: Cert): Result<(bool, Option<nat>), TrustError> {
    match FindExtension(cert.extensions, BasicConstraintsOid)
    case None => Ok((false, None))
    case Some(value) =>
      match ParseBasicConstraints(value)
      case Ok(bc) => Ok(bc)
      case Err(_) => Err(CertificateParse)
  }

  function Pow2(k: nat): (p: nat)
    ensures p > 0
  {
    if k == 0 then 1 else 2 * Pow2(k - 1)
  }

  /** The keyCertSign bit of a strictly encoded keyUsage BIT STRING. */
  function KeyCertSignBit(value: Bytes): Result<bool, TrustError> {
    match ParseTlv(value)
    case Err(_) => Err(CertificateParse)
    case Ok(p) =>
      if p.rest != [] || p.tag != 0x03 || p.value == [] || p.value[0] > 7 || |p.value| == 1 then Err(CertificateParse)
      else if p.value[|p.value| - 1] % Pow2(p.value[0]) != 0 then Err(CertificateParse)
      else Ok((p.value[1] / 4) % 2 == 1)
  }

  /** The content of a BIT STRING in DER: at most seven unused bits, all zero, in octets that are there. */
  predicate BitString(unused: Byte, octets: Bytes) {
    unused <= 7 && octets != [] && octets[|octets| - 1] % Pow2(unused) == 0 && 1 + |octets| < LENGTH_LIMIT
  }

  /** Whether the named bit, counted from the most significant, is present and set. */
  predicate NamedBit(unused: Byte, octets: Bytes, bit: nat) {
    bit < 8 * |octets| - unused && (octets[bit / 8] / Pow2(7 - bit % 8)) % 2 == 1
  }

  /** A keyUsage value is accepted exactly when it is one BIT STRING in DER, and read as its bit 5. */
  lemma {:induction false} KeyCertSignIsBitFive(value: Bytes, sign: bool)
    ensures KeyCertSignBit(value) == Ok(sign) <==>
            exists unused, octets :: && BitString(unused, octets) && value == EncodeTlv(0x03, [unused] + octets)
                                     && sign == NamedBit(unused, octets, 5)
  {
    if KeyCertSignBit(value).Ok? {
      var p := ParseTlv(value).value;
      TlvBijection(value, p);
      assert EncodeTlv(p.tag, p.value) + [] == EncodeTlv(p.tag, p.value);
      assert p.value == [p.value[0]] + p.value[1..];
      BitFiveIsNotPadding(p.value[0], p.value[1..]);
    }
    forall unused, octets | BitString(unused, octets) && value == EncodeTlv(0x03, [unused] + octets)
      ensures KeyCertSignBit(value) == Ok(NamedBit(unused, octets, 5))
    {
      assert EncodeTlv(0x03, [unused] + octets) + [] == EncodeTlv(0x03, [unused] + octets);
      ParsePrinted(0x03, [unused] + octets, []);
      BitFiveIsNotPadding(unused, octets);
    }
  }

  /** A bit that falls into the padding is zero there, so the first octet alone answers for bit 5. */
  lemma {:induction false} BitFiveIsNotPadding(unused: Byte, octets: Bytes)
    requires BitString(unused, octets)
    ensures NamedBit(unused, octets, 5) <==> (octets[0] / 4) % 2 == 1
  {
    assert Pow2(2) == 4 && Pow2(3) == 8 && Pow2(4) == 16 && Pow2(5) == 32 && Pow2(6) == 64 && Pow2(7) == 128;
  }

  /** The certificate may sign certificates. */
  function CheckCaExtensions(cert: Cert): Result<(), TrustError> {
    var bc :- BasicConstraintsOf(cert);
    if !bc.0 then Err(ProfileViolation)
    else
      match FindExtension(cert.extensions, KeyUsageOid)
      case None => Ok(())
      case Some(value) =>
        var sign :- KeyCertSignBit(value);
        if sign then Ok(()) else Err(ProfileViolation)
  }

  /** The value is a SEQUENCE whose elements read as these basic constraints. */
  ghost predicate IsBasicConstraints(value: Bytes, isCa: bool, pathLen: Option<nat>) {
    && ParseTlv(value).Ok? && ParseTlv(value).value.tag == 0x30
    && ParseAll(ParseTlv(value).value.value).Ok?
    && BasicConstraintsGrammar(ParseAll(ParseTlv(value).value.value).value, isCa, pathLen)
  }

  /** The value is one BIT STRING in DER with bit 5, keyCertSign, set. */
  ghost predicate AssertsKeyCertSign(value: Bytes) {
    exists unused, octets ::
      BitString(unused, octets) && value == EncodeTlv(0x03, [unused] + octets) && NamedBit(unused, octets, 5)
  }

  /** The certificate is marked as an authority and, if it restricts its key, the key may sign certificates. */
  ghost predicate MaySignCertificates(cert: Cert) {
    var bc, ku := FindExtension(cert.extensions, BasicConstraintsOid), FindExtension(cert.extensions, KeyUsageOid);
    && bc.Some? && (exists pathLen :: IsBasicConstraints(bc.value, true, pathLen))
    && (ku.Some? ==> AssertsKeyCertSign(ku.value))
  }

  /** The flag and the limit are those of the first basicConstraints extension; without one there is neither. */
  lemma {:induction false} BasicConstraintsOfMeans(cert: Cert, isCa: bool, pathLen: Option<nat>)
    ensures BasicConstraintsOf(cert) == Ok((isCa, pathLen)) <==>
            match FindExtension(cert.extensions, BasicConstraintsOid)
            case None => !isCa && pathLen.None?
            case Some(value) => IsBasicConstraints(value, isCa, pathLen)
  {
    var ext := FindExtension(cert.extensions, BasicConstraintsOid);
    if ext.Some? {
      BasicConstraintsAccepts(ext.value, isCa, pathLen);
    }
  }

  /** The authority check accepts exactly the certificates that may sign certificates. */
  lemma {:induction false} CaExtensionsAccept(cert: Cert)
    ensures CheckCaExtensions(cert).Ok? <==> MaySignCertificates(cert)
  {
    var bc, ku := FindExtension(cert.extensions, BasicConstraintsOid), FindExtension(cert.extensions, KeyUsageOid);
    if ku.Some? {
      KeyCertSignIsBitFive(ku.value, true);
    }
    if BasicConstraintsOf(cert).Ok? {
      BasicConstraintsOfMeans(cert, true, BasicConstraintsOf(cert).value.1);
    }
    if bc.Some? && exists pathLen :: IsBasicConstraints(bc.value, true, pathLen) {
      var pathLen :| IsBasicConstraints(bc.value, true, pathLen);
      BasicConstraintsOfMeans(cert, true, pathLen);
    }
  }

  // ----- duplicate and critical extensions -----

  ghost predicate NoDuplicateExtensions(cert: Cert) {
    forall i, j :: 0 <= i < j < |cert.extensions| ==> cert.extensions[i].oid != cert.extensions[j].oid
  }

  predicate Recognized(oid: Oid) {
    !oid.OtherOid? && !oid.OcspNoCheckOid?
  }

  /** The extension is not critical, or the verifier processes it and it is no CA key-purpose restriction. */
  predicate ExtensionTolerated(cert: Cert, ext: Extension) {
    ext.critical ==>
      && Recognized(ext.oid)
      && (ext.oid.ExtendedKeyUsageOid? ==> BasicConstraintsOf(cert).Ok? && !BasicConstraintsOf(cert).value.0)
  }

  ghost predicate ExtensionsOk(cert: Cert) {
    NoDuplicateExtensions(cert) && forall ext <- cert.extensions :: ExtensionTolerated(cert, ext)
  }

  /** The loops over a certificate's extensions. */
  method RejectBadExtensions(cert: Cert) returns (r: Result<(), TrustError>)
    ensures r.Ok? <==> ExtensionsOk(cert)
    ensures r.Err? ==> r.error.ProfileViolation? || r.error.CertificateParse?
  {
    var seen: set<Oid> := {};
    for i := 0 to |cert.extensions|
      invariant forall o :: o in seen <==> exists j :: 0 <= j < i && cert.extensions[j].oid == o
      invariant forall j, k :: 0 <= j < k < i ==> cert.extensions[j].oid != cert.extensions[k].oid
    {
      if cert.extensions[i].oid in seen {
        return Err(ProfileViolation);
      }
      seen := seen + {cert.extensions[i].oid};
    }
    for i := 0 to |cert.extensions|
      invariant forall j :: 0 <= j < i ==> ExtensionTolerated(cert, cert.extensions[j])
    {
      var ext := cert.extensions[i];
      assert ext in cert.extensions;
      if ext.critical {
        if ext.oid == ExtendedKeyUsageOid {
          var bc :- BasicConstraintsOf(cert);
          if bc.0 {
            return Err(ProfileViolation);
          }
        }
        if !Recognized(ext.oid) {
          return Err(ProfileViolation);
        }
      }
    }
    return Ok(());
  }

  // ----- path lengths -----

  /** The certificate uses up one step of a path length limit above it. */
  predicate ConsumesPathLen(cert: Cert) {
    BasicConstraintsOf(cert).Ok? && BasicConstraintsOf(cert).value.0 && !SelfIssued(cert)
  }

  function CountConsumers(below: seq<Cert>): nat {
    if below == [] then 0
    else CountConsumers(below[..|below| - 1]) + (if ConsumesPathLen(below[|below| - 1]) then 1 else 0)
  }

  ghost predicate AllParse(below: seq<Cert>) {
    below != [] ==> BasicConstraintsOf(below[|below| - 1]).Ok? && AllParse(below[..|below| - 1])
  }

  lemma {:induction false} AllParseEach(below: seq<Cert>, i: nat)
    requires i < |below| && AllParse(below)
    ensures BasicConstraintsOf(below[i]).Ok?
  {
    if i < |below| - 1 {
      AllParseEach(below[..|below| - 1], i);
    }
  }

  /** The issuer's limit, if any, covers the certificates below it, which must then all parse. */
  ghost predicate PathLenOk(issuer: Cert, below: seq<Cert>) {
    && BasicConstraintsOf(issuer).Ok?
    && (BasicConstraintsOf(issuer).value.1.Some? ==>
          AllParse(below) && CountConsumers(below) <= BasicConstraintsOf(issuer).value.1.value)
  }

  /** The extension of a certificate authority without a path length limit. */
  function CaFlag(): Extension {
    Extension(BasicConstraintsOid, true, EncodeTlv(0x30, EncodeTlv(0x01, [255])))
  }

  /** A certificate with that extension alone passes as an authority and states no constraints. */
  lemma {:induction false} CaFlagAlone(cert: Cert)
    requires cert.extensions == [CaFlag()]
    ensures ExtensionsOk(cert) && CheckCaExtensions(cert).Ok? && PathLenOk(cert, [])
            && BasicConstraintsOf(cert) == Ok((true, None))
    ensures Own(cert) == Ok(NO_CONSTRAINTS)
  {
    var flag := EncodeTlv(0x01, [255]);
    ParsePrinted(0x01, [255], []);
    ParsePrinted(0x30, flag, []);
    assert flag + [] == flag && EncodeTlv(0x30, flag) + [] == EncodeTlv(0x30, flag);
    assert ParseBasicConstraints(EncodeTlv(0x30, flag)) == Ok((true, None));
    assert cert.extensions[1..] == [];
    assert FindExtension(cert.extensions, NameConstraintsOid) == FindExtension([], NameConstraintsOid) == None;
    assert FindExtension(cert.extensions, KeyUsageOid) == FindExtension([], KeyUsageOid) == None;
  }

  /** The counting loop. */
  method CountSubordinateCas(below: seq<Cert>) returns (r: Result<nat, TrustError>)
    ensures r == if AllParse(below) then Ok(CountConsumers(below)) else Err(ProfileViolation)
  {
    var count := 0;
    for i := 0 to |below|
      invariant AllParse(below[..i]) && count == CountConsumers(below[..i])
    {
      var sub := BasicConstraintsOf(below[i]);
      if sub.Err? {
        if AllParse(below) {
          AllParseEach(below, i);
        }
        return Err(ProfileViolation);
      }
      assert below[..i + 1][..i] == below[..i];
      if sub.value.0 && !SelfIssued(below[i]) {
        count := count + 1;
      }
    }
    assert below[..|below|] == below;
    return Ok(count);
  }

  method EnforcePathLen(issuer: Cert, below: seq<Cert>) returns (r: Result<(), TrustError>)
    ensures r.Ok? <==> PathLenOk(issuer, below)
    ensures r.Err? ==> r.error.ProfileViolation?
  {
    var bc := BasicConstraintsOf(issuer);
    if bc.Err? {
      return Err(ProfileViolation);
    }
    if bc.value.1.None? {
      return Ok(());
    }
    var count :- CountSubordinateCas(below);
    if count > bc.value.1.value {
      return Err(ProfileViolation);
    }
    return Ok(());
  }

  /** Every issuer's limit holds on the path, counted afresh for each. */
  ghost predicate RecountOk(path: seq<Cert>) {
    forall j :: 1 <= j < |path| ==> PathLenOk(path[j], path[..j])
  }

  /** The tighter of the budget left and a certificate's own limit. */
  function Tighter(budget: Option<nat>, limit: Option<nat>): Option<nat> {
    match (budget, limit)
    case (None, _) => limit
    case (_, None) => budget
    case (Some(b), Some(l)) => Some(if l < b then l else b)
  }

  /**
   One pass from the top: a consuming certificate takes one step off the budget, which must
   not be used up, and every certificate may then tighten it (steps (l) and (m) of section
   6.1.4 of RFC 5280). Here the leaf consumes too when it is a CA, and need not parse when
   nothing limits the path.
   */
  predicate TopDownOk(below: seq<Cert>, budget: Option<nat>)
    decreases |below|
  {
    if below == [] then true
    else
      var cert, lower := below[|below| - 1], below[..|below| - 1];
      if BasicConstraintsOf(cert).Err? then lower == [] && budget.None?
      else if !ConsumesPathLen(cert) then TopDownOk(lower, Tighter(budget, BasicConstraintsOf(cert).value.1))
      else
        match budget
        case None => TopDownOk(lower, BasicConstraintsOf(cert).value.1)
        case Some(b) => b > 0 && TopDownOk(lower, Tighter(Some(b - 1), BasicConstraintsOf(cert).value.1))
  }

  lemma {:induction false} RecountOfPrefix(path: seq<Cert>)
    requires path != []
    ensures RecountOk(path) <==>
            && RecountOk(path[..|path| - 1])
            && (|path| > 1 ==> PathLenOk(path[|path| - 1], path[..|path| - 1]))
  {
    var n := |path| - 1;
    assert forall j :: 1 <= j < n ==> path[..n][j] == path[j] && path[..n][..j] == path[..j];
    if RecountOk(path) {
      forall j | 1 <= j < n ensures PathLenOk(path[..n][j], path[..n][..j]) {
        assert PathLenOk(path[j], path[..j]);
      }
    }
    if RecountOk(path[..n]) && (|path| > 1 ==> PathLenOk(path[n], path[..n])) {
      forall j | 1 <= j < |path| ensures PathLenOk(path[j], path[..j]) {
        if j < n {
          assert PathLenOk(path[..n][j], path[..n][..j]);
        }
      }
    }
  }

  /** Some budget covers the certificates below, all of which parse. */
  ghost predicate Covers(budget: Option<nat>, below: seq<Cert>) {
    budget.Some? ==> AllParse(below) && CountConsumers(below) <= budget.value
  }

  lemma {:induction false} CoversTighter(budget: Option<nat>, limit: Option<nat>, below: seq<Cert>)
    ensures Covers(Tighter(budget, limit), below) <==> Covers(budget, below) && Covers(limit, below)
  {
  }

  /** The pass from the top accepts what the budget covers and every lower issuer's limit covers. */
  lemma {:induction false} TopDownIsRecount(below: seq<Cert>, budget: Option<nat>)
    ensures TopDownOk(below, budget) <==> Covers(budget, below) && RecountOk(below)
    decreases |below|
  {
    if below != [] {
      var cert, lower := below[|below| - 1], below[..|below| - 1];
      RecountOfPrefix(below);
      if BasicConstraintsOf(cert).Ok? {
        var limit := BasicConstraintsOf(cert).value.1;
        var step := ConsumesPathLen(cert) && budget.Some? && budget.value > 0;
        var left := if step then Some(budget.value - 1) else budget;
        TopDownIsRecount(lower, Tighter(left, limit));
        CoversTighter(left, limit, lower);
        assert lower == [] ==> Covers(limit, lower);
        assert Covers(limit, lower) <==> PathLenOk(cert, lower);
      }
    }
  }

  /**
   Recounting below every issuer accepts exactly the paths that one top-down pass with a
   decreasing budget accepts.
   */
  lemma {:induction false} RecountIsTopDown(path: seq<Cert>)
    requires path != []
    ensures RecountOk(path) <==>
            || |path| == 1
            || (BasicConstraintsOf(path[|path| - 1]).Ok?
                && TopDownOk(path[..|path| - 1], BasicConstraintsOf(path[|path| - 1]).value.1))
  {
    var top, below := path[|path| - 1], path[..|path| - 1];
    RecountOfPrefix(path);
    if BasicConstraintsOf(top).Ok? {
      TopDownIsRecount(below, BasicConstraintsOf(top).value.1);
    }
  }

  /**
   The pass of section 6.1.4 of RFC 5280: every certificate above the leaf is an authority
   (steps (k) and (n)), takes a step off the budget unless it is self-issued (step (l)), and
   may then tighten it (step (m)); the leaf is not prepared for another certificate.
   */
  predicate RfcPassOk(below: seq<Cert>, budget: Option<nat>)
    decreases |below|
  {
    if |below| <= 1 then true
    else
      var cert, lower := below[|below| - 1], below[..|below| - 1];
      if CheckCaExtensions(cert).Err? then false
      else if SelfIssued(cert) then RfcPassOk(lower, Tighter(budget, BasicConstraintsOf(cert).value.1))
      else
        match budget
        case None => RfcPassOk(lower, BasicConstraintsOf(cert).value.1)
        case Some(b) => b > 0 && RfcPassOk(lower, Tighter(Some(b - 1), BasicConstraintsOf(cert).value.1))
  }

  /** What is left of the budget when the RFC's pass reaches the leaf. */
  function LeftAtLeaf(below: seq<Cert>, budget: Option<nat>): Option<nat>
    decreases |below|
  {
    if |below| <= 1 then budget
    else
      var cert, lower := below[|below| - 1], below[..|below| - 1];
      if BasicConstraintsOf(cert).Err? then None
      else LeftAtLeaf(lower, Tighter(StepTaken(cert, budget), BasicConstraintsOf(cert).value.1))
  }

  function StepTaken(cert: Cert, budget: Option<nat>): Option<nat> {
    if !SelfIssued(cert) && budget.Some? && budget.value > 0 then Some(budget.value - 1) else budget
  }

  /**
   The leaf does not strain what is left: nothing limits the path, or the leaf parses and
   finds a step if it takes one.
   */
  predicate LeafFits(leaf: Cert, left: Option<nat>) {
    left.Some? ==> BasicConstraintsOf(leaf).Ok? && (ConsumesPathLen(leaf) ==> left.value > 0)
  }

  /** Every certificate above the leaf may sign certificates. */
  ghost predicate Authorities(path: seq<Cert>) {
    forall i :: 1 <= i < |path| ==> CheckCaExtensions(path[i]).Ok?
  }

  lemma {:induction false} AuthoritiesBelow(path: seq<Cert>, n: nat)
    requires n <= |path| && Authorities(path)
    ensures Authorities(path[..n])
  {
    forall i | 1 <= i < n ensures CheckCaExtensions(path[..n][i]).Ok? {
      assert CheckCaExtensions(path[i]).Ok?;
    }
  }

  lemma {:induction false} AuthoritiesOfPrefix(path: seq<Cert>)
    requires |path| > 1
    ensures Authorities(path) <==>
            Authorities(path[..|path| - 1]) && CheckCaExtensions(path[|path| - 1]).Ok?
  {
    var n := |path| - 1;
    if Authorities(path) {
      AuthoritiesBelow(path, n);
    }
    if Authorities(path[..n]) && CheckCaExtensions(path[n]).Ok? {
      AuthoritiesAbove(path);
    }
  }

  lemma {:induction false} AuthoritiesAbove(path: seq<Cert>)
    requires |path| > 1 && Authorities(path[..|path| - 1]) && CheckCaExtensions(path[|path| - 1]).Ok?
    ensures Authorities(path)
  {
    forall i | 1 <= i < |path| - 1 ensures CheckCaExtensions(path[i]).Ok? {
      assert CheckCaExtensions(path[..|path| - 1][i]).Ok?;
    }
  }

  /**
   The code asks for exactly one thing more than the RFC: when a limit reaches the leaf, the
   leaf's own basicConstraints must parse and, if it is a CA, leave a step to take.
   */
  lemma {:induction false} TopDownVersusRfc(below: seq<Cert>, budget: Option<nat>)
    requires below != []
    ensures Authorities(below) && TopDownOk(below, budget) <==>
            RfcPassOk(below, budget) && LeafFits(below[0], LeftAtLeaf(below, budget))
    decreases |below|
  {
    if |below| > 1 {
      var cert, lower := below[|below| - 1], below[..|below| - 1];
      AuthoritiesOfPrefix(below);
      if CheckCaExtensions(cert).Ok? {
        assert ConsumesPathLen(cert) <==> !SelfIssued(cert);
        TopDownVersusRfc(lower, Tighter(StepTaken(cert, budget), BasicConstraintsOf(cert).value.1));
      }
    } else {
      assert below[..0] == [];
    }
  }

  /**
   On a whole path, the code's authority and path length checks are the RFC's pass started
   with the limit of the topmost certificate, and the condition on the leaf.
   */
  lemma {:induction false} PathVersusRfc(path: seq<Cert>)
    requires |path| > 1
    ensures Authorities(path) && RecountOk(path) <==>
            var top, below := path[|path| - 1], path[..|path| - 1];
            && CheckCaExtensions(top).Ok?
            && var limit := BasicConstraintsOf(top).value.1;
               RfcPassOk(below, limit) && LeafFits(path[0], LeftAtLeaf(below, limit))
  {
    var top, below := path[|path| - 1], path[..|path| - 1];
    AuthoritiesOfPrefix(path);
    RecountIsTopDown(path);
    if CheckCaExtensions(top).Ok? {
      TopDownVersusRfc(below, BasicConstraintsOf(top).value.1);
    }
  }

  /** A non-self-issued CA as leaf is where the two differ: the code refuses it under a used-up budget. */
  lemma {:induction false} CaLeafDiffers(leaf: Cert)
    requires leaf.extensions == [CaFlag()] && !SelfIssued(leaf)
    ensures RfcPassOk([leaf], Some(0)) && !TopDownOk([leaf], Some(0))
  {
    CaFlagAlone(leaf);
    TopDownVersusRfc([leaf], Some(0));
  }

  /** A leaf with malformed basicConstraints is the other: the code refuses it under every limit. */
  lemma {:induction false} MalformedLeafDiffers(leaf: Cert, budget: nat)
    requires leaf.extensions == [Extension(BasicConstraintsOid, false, [])]
    ensures RfcPassOk([leaf], Some(budget)) && !TopDownOk([leaf], Some(budget)) && TopDownOk([leaf], None)
  {
    assert BasicConstraintsOf(leaf).Err?;
    TopDownVersusRfc([leaf], Some(budget));
    TopDownVersusRfc([leaf], None);
  }

  // ----- name constraints over a path -----

  /** The constraints a certificate states, and which certificates constraints accept. */
  datatype NameRules = NameRules(
    own: Cert -> Result<Constraints, NameConstraintError>,
    accepts: (Constraints, Cert) -> bool)

  function RulesOf(u: Unicode): NameRules {
    NameRules(cert => Own(cert), (c, cert) => CheckCert(MatcherOf(u), c, cert).Ok?)
  }

  /** Merged constraints accept what each part accepts. */
  ghost predicate Distributive(rules: NameRules) {
    && (forall cert :: rules.accepts(NO_CONSTRAINTS, cert))
    && forall a, b, cert :: rules.accepts(Merge(a, b), cert) <==> rules.accepts(a, cert) && rules.accepts(b, cert)
  }

  lemma {:induction false} RulesAreDistributive(u: Unicode)
    ensures Distributive(RulesOf(u))
  {
    MatcherOfIsTyped(u);
    forall a, b, cert
      ensures RulesOf(u).accepts(Merge(a, b), cert) <==> RulesOf(u).accepts(a, cert) && RulesOf(u).accepts(b, cert)
    {
      CheckCertMerged(MatcherOf(u), a, b, cert);
    }
  }

  /** Every issuer's extension parses, and every certificate meets the own constraints of every issuer above it. */
  ghost predicate NameConstraintsOk(rules: NameRules, path: seq<Cert>) {
    && (forall j :: 1 <= j < |path| ==> rules.own(path[j]).Ok?)
    && forall i, j :: 0 <= i < j < |path| ==> rules.accepts(rules.own(path[j]).value, path[i])
  }

  /** The constraints folded in from the top down to position `top`. */
  function Accumulated(rules: NameRules, path: seq<Cert>, top: nat): Constraints
    requires top <= |path| && forall j :: top <= j < |path| ==> rules.own(path[j]).Ok?
    decreases |path| - top
  {
    if top == |path| then NO_CONSTRAINTS else Merge(Accumulated(rules, path, top + 1), rules.own(path[top]).value)
  }

  /** The certificate meets the own constraints of every issuer from position `top` up. */
  ghost predicate MeetsAll(rules: NameRules, path: seq<Cert>, top: nat, cert: Cert)
    requires forall j :: top <= j < |path| ==> rules.own(path[j]).Ok?
  {
    forall j :: top <= j < |path| ==> rules.accepts(rules.own(path[j]).value, cert)
  }

  /** The accumulated constraints accept what each issuer's own constraints accept. */
  lemma {:induction false} AccumulatedIsConjunction(rules: NameRules, path: seq<Cert>, top: nat, cert: Cert)
    requires Distributive(rules)
    requires top <= |path| && forall j :: top <= j < |path| ==> rules.own(path[j]).Ok?
    ensures rules.accepts(Accumulated(rules, path, top), cert) <==> MeetsAll(rules, path, top, cert)
    decreases |path| - top
  {
    if top < |path| {
      AccumulatedIsConjunction(rules, path, top + 1, cert);
    }
  }

  /** The checks the walk has made once it has folded in the issuers from position `top` up. */
  ghost predicate Walked(rules: NameRules, path: seq<Cert>, top: nat) {
    && (forall j :: 1 <= j < |path| && top <= j ==> rules.own(path[j]).Ok?)
    && forall i, j :: 0 <= i < j < |path| && top <= j ==> rules.accepts(rules.own(path[j]).value, path[i])
  }

  /** Folding in the next issuer and checking what is below it extends the walk by that issuer. */
  lemma {:induction false} WalkStep(rules: NameRules, path: seq<Cert>, top: nat)
    requires Distributive(rules) && 1 <= top < |path| && Walked(rules, path, top + 1) && rules.own(path[top]).Ok?
    ensures Walked(rules, path, top) <==>
            forall i :: 0 <= i < top ==> rules.accepts(Accumulated(rules, path, top), path[..top][i])
  {
    forall i | 0 <= i < top
      ensures rules.accepts(Accumulated(rules, path, top), path[..top][i]) <==> MeetsAll(rules, path, top, path[i])
    {
      AccumulatedIsConjunction(rules, path, top, path[i]);
    }
  }

  lemma {:induction false} WalkedAll(rules: NameRules, path: seq<Cert>, top: nat)
    ensures NameConstraintsOk(rules, path) ==> Walked(rules, path, top)
    ensures top <= 1 ==> (NameConstraintsOk(rules, path) <==> Walked(rules, path, top))
  {
  }

  /** The top-down walk, which re-checks every lower certificate after each issuer is folded in. */
  method EnforceNameConstraintsPath(u: Unicode, path: seq<Cert>) returns (r: Result<(), TrustError>)
    ensures r.Ok? <==> NameConstraintsOk(RulesOf(u), path)
    ensures r.Err? ==> r.error.ProfileViolation?
  {
    RulesAreDistributive(u);
    var ok := Walk(u, path, RulesOf(u));
    return if ok then Ok(()) else Err(ProfileViolation);
  }

  method Walk(u: Unicode, path: seq<Cert>, ghost rules: NameRules) returns (ok: bool)
    requires rules == RulesOf(u) && Distributive(rules)
    ensures ok <==> NameConstraintsOk(rules, path)
  {
    var state := new NameConstraintState();
    var top := |path|;
    while top > 1
      invariant 0 <= top <= |path| && (|path| > 0 ==> top > 0)
      invariant Walked(rules, path, top)
      invariant state.Value() == Accumulated(rules, path, top)
    {
      top := top - 1;
      ok := WalkOne(u, state, path, top, rules);
      if !ok {
        WalkedAll(rules, path, top);
        return;
      }
    }
    WalkedAll(rules, path, top);
    return true;
  }

  /** One step of the walk: fold in the issuer at `top`, then check everything below it. */
  method WalkOne(u: Unicode, state: NameConstraintState, path: seq<Cert>, top: nat, ghost rules: NameRules)
    returns (ok: bool)
    requires rules == RulesOf(u) && Distributive(rules)
    requires 1 <= top < |path| && Walked(rules, path, top + 1) && state.Value() == Accumulated(rules, path, top + 1)
    modifies state
    ensures ok <==> Walked(rules, path, top)
    ensures ok ==> state.Value() == Accumulated(rules, path, top)
  {
    ok := Fold(state, path[top], rules.own);
    if ok {
      WalkStep(rules, path, top);
      ok := CheckBelow(u, state, path[..top], rules.accepts);
    }
  }

  /** Fold in one issuer's constraints; false when its extension is malformed. */
  method Fold(state: NameConstraintState, cert: Cert, ghost own: Cert -> Result<Constraints, NameConstraintError>)
    returns (ok: bool)
    requires own(cert) == Own(cert)
    modifies state
    ensures ok <==> own(cert).Ok?
    ensures ok ==> state.Value() == Merge(old(state.Value()), own(cert).value)
  {
    var added := state.AddFromCert(cert);
    ok := added.Ok?;
  }

  /** The inner loop of the walk: every certificate below against the state. */
  method CheckBelow(u: Unicode, state: NameConstraintState, below: seq<Cert>,
                    ghost accepts: (Constraints, Cert) -> bool)
    returns (ok: bool)
    requires accepts == RulesOf(u).accepts
    ensures ok <==> forall i :: 0 <= i < |below| ==> accepts(state.Value(), below[i])
  {
    if state.IsEmpty() {
      return true;
    }
    for sub := 0 to |below|
      invariant forall i :: 0 <= i < sub ==> accepts(state.Value(), below[i])
    {
      var checked := state.CheckCertNames(u, below[sub]);
      if checked.Err? {
        return false;
      }
    }
    return true;
  }

  /** Checking each certificate once, against all the constraints above it, decides the same. */
  lemma {:induction false} SinglePassSuffices(rules: NameRules, path: seq<Cert>)
    requires Distributive(rules)
    ensures NameConstraintsOk(rules, path) <==>
            && (forall j :: 1 <= j < |path| ==> rules.own(path[j]).Ok?)
            && forall i :: 0 <= i < |path| - 1 ==> rules.accepts(Accumulated(rules, path, i + 1), path[i])
  {
    if forall j :: 1 <= j < |path| ==> rules.own(path[j]).Ok? {
      forall i | 0 <= i < |path| - 1
        ensures rules.accepts(Accumulated(rules, path, i + 1), path[i]) <==> MeetsAll(rules, path, i + 1, path[i])
      {
        AccumulatedIsConjunction(rules, path, i + 1, path[i]);
      }
    }
  }

  /** Putting issuers on top, or leaving certificates off the bottom, never widens what is accepted. */
  lemma {:induction false} LongerPathIsStricter(rules: NameRules, path: seq<Cert>, more: seq<Cert>)
    requires NameConstraintsOk(rules, path + more)
    ensures NameConstraintsOk(rules, path)
    ensures NameConstraintsOk(rules, more)
  {
    var whole := path + more;
    assert forall j :: 0 <= j < |path| ==> path[j] == whole[j];
    assert forall j :: 0 <= j < |more| ==> more[j] == whole[|path| + j];
  }
}
