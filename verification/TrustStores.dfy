/**
 Chain verification against a store of trust anchors (src/trust/store.rs, `verify_chain_inner`).
 */
module TrustStores {
  import opened Results
  import opened Der
  import opened TextFolding
  import opened Certificates
  import opened NameConstraints
  import opened PathChecks
  import opened AnchorSearch

  /** What a verification asks: the instant, the purpose of the leaf, and whether the instant has a fraction. */
  datatype Request = Request(time: Option<int>, purpose: Option<Role>, positiveFraction: bool)

  // ----- what acceptance means -----

  predicate InWindow(cert: Cert, q: Request) {
    q.time.Some? ==>
      && cert.notBefore <= q.time.value <= cert.notAfter
      && !(q.positiveFraction && q.time.value == cert.notAfter)
  }

  /** The certificate at `i` is issued and signed by the next one, a CA whose path length limit holds. */
  ghost predicate LinkOk(k: Backend, policy: SignaturePolicy, chain: seq<Cert>, i: nat)
    requires i + 1 < |chain|
  {
    && chain[i].issuer == chain[i + 1].subject
    && SignatureOk(k, chain[i], chain[i + 1], policy)
    && CheckCaExtensions(chain[i + 1]).Ok?
    && PathLenOk(chain[i + 1], chain[..i + 1])
  }

  /** The first `n` links hold. */
  ghost predicate FirstLinksOk(k: Backend, policy: SignaturePolicy, chain: seq<Cert>, n: nat)
    requires n < |chain|
  {
    n > 0 ==> FirstLinksOk(k, policy, chain, n - 1) && LinkOk(k, policy, chain, n - 1)
  }

  lemma {:induction false} FirstLinksInclude(k: Backend, policy: SignaturePolicy, chain: seq<Cert>, n: nat, i: nat)
    requires i < n < |chain| && FirstLinksOk(k, policy, chain, n)
    ensures LinkOk(k, policy, chain, i)
  {
    if i < n - 1 {
      FirstLinksInclude(k, policy, chain, n - 1, i);
    }
  }

  /** All the checks that do not involve an anchor. */
  ghost predicate ChainOk(k: Backend, policy: SignaturePolicy, chain: seq<Cert>, q: Request) {
    && chain != []
    && (forall cert <- chain :: ExtensionsOk(cert))
    && (q.purpose.Some? ==> k.roleOk(chain[0], q.purpose.value))
    && (forall cert <- chain :: InWindow(cert, q))
    && (forall i: nat :: i + 1 < |chain| ==> LinkOk(k, policy, chain, i))
  }

  function Last(chain: seq<Cert>): Cert
    requires chain != []
  {
    chain[|chain| - 1]
  }

  predicate StoredIn(anchors: seq<TrustAnchor>, cert: Cert) {
    exists a <- anchors :: a.der == cert.der
  }

  /** The chain ends with a root that the store holds byte for byte. */
  ghost predicate EndsAtStoredRoot(anchors: seq<TrustAnchor>, chain: seq<Cert>)
    requires chain != []
  {
    SelfIssued(Last(chain)) && StoredIn(anchors, Last(chain))
  }

  ghost predicate StoredRootOk(k: Backend, policy: SignaturePolicy, chain: seq<Cert>)
    requires chain != []
  {
    SignatureOk(k, Last(chain), Last(chain), policy) && NameConstraintsOk(RulesOf(k.unicode), chain)
  }

  /** The chain extended with this anchor is a valid path. */
  ghost predicate AnchorOk(k: Backend, policy: SignaturePolicy, chain: seq<Cert>, q: Request, anchor: Cert)
    requires chain != []
  {
    && SignatureOk(k, Last(chain), anchor, policy)
    && ExtensionsOk(anchor)
    && CheckCaExtensions(anchor).Ok?
    && PathLenOk(anchor, chain)
    && InWindow(anchor, q)
    && NameConstraintsOk(RulesOf(k.unicode), chain + [anchor])
  }

  /** The anchor carries the issuer's name and completes a valid path. */
  ghost predicate Completes(k: Backend, policy: SignaturePolicy, chain: seq<Cert>, q: Request, a: TrustAnchor)
    requires chain != []
  {
    a.cert.subject == Last(chain).issuer && AnchorOk(k, policy, chain, q, a.cert)
  }

  /** The store accepts the chain. */
  ghost predicate Accepts(k: Backend, anchors: seq<TrustAnchor>, policy: SignaturePolicy, chain: seq<Cert>,
                          q: Request) {
    && ChainOk(k, policy, chain, q)
    && if EndsAtStoredRoot(anchors, chain) then StoredRootOk(k, policy, chain)
       else exists a <- anchors :: Completes(k, policy, chain, q, a)
  }

  /** `cert` is the first anchor that the acceptance rests on. */
  ghost predicate IsChosen(k: Backend, anchors: seq<TrustAnchor>, policy: SignaturePolicy, chain: seq<Cert>, q: Request,
                           cert: Cert)
    requires chain != []
  {
    if EndsAtStoredRoot(anchors, chain)
    then exists i :: FirstStored(anchors, chain, i) && anchors[i].cert == cert
    else exists i :: FirstCompletes(k, anchors, policy, chain, q, i) && anchors[i].cert == cert
  }

  ghost predicate FirstStored(anchors: seq<TrustAnchor>, chain: seq<Cert>, i: int)
    requires chain != []
  {
    && 0 <= i < |anchors| && anchors[i].der == Last(chain).der
    && forall j :: 0 <= j < i ==> anchors[j].der != Last(chain).der
  }

  ghost predicate FirstCompletes(k: Backend, anchors: seq<TrustAnchor>, policy: SignaturePolicy, chain: seq<Cert>,
                                 q: Request, i: int)
    requires chain != []
  {
    && 0 <= i < |anchors| && Completes(k, policy, chain, q, anchors[i])
    && forall j :: 0 <= j < i ==> !Completes(k, policy, chain, q, anchors[j])
  }

  /** What a candidate anchor can fail on. */
  predicate AnchorFault(chain: seq<Cert>, e: TrustError) {
    !e.ChainBroken? && !e.EmptyChain? && !e.UntrustedRoot? && (e.BadSignature? ==> e.index + 1 == |chain|)
  }

  /** Whether a certificate makes a valid path of the chain, as a judgement on candidates. */
  ghost function Judgement(k: Backend, policy: SignaturePolicy, chain: seq<Cert>, q: Request): Cert -> bool
    requires chain != []
  {
    anchor => AnchorOk(k, policy, chain, q, anchor)
  }

  // ----- the verification -----

  class TrustStore {
    var anchors: seq<TrustAnchor>
    var policy: SignaturePolicy

    constructor ()
      ensures anchors == [] && policy == Strict
    {
      anchors, policy := [], Strict;
    }

    method AddCertificate(cert: Cert)
      modifies this`anchors
      ensures anchors == old(anchors) + [TrustAnchor(cert, cert.der)]
    {
      anchors := anchors + [TrustAnchor(cert, cert.der)];
    }

    method CheckTime(cert: Cert, index: nat, q: Request) returns (r: Result<(), TrustError>)
      ensures r.Ok? <==> InWindow(cert, q)
      ensures r.Err? ==> r.error == NotYetValid(index) || r.error == Expired(index)
    {
      if q.time.Some? {
        if q.time.value < cert.notBefore {
          return Err(NotYetValid(index));
        }
        if q.time.value > cert.notAfter || (q.positiveFraction && q.time.value == cert.notAfter) {
          return Err(Expired(index));
        }
      }
      return Ok(());
    }

    /** One link of the chain. */
    method CheckLink(k: Backend, chain: seq<Cert>, i: nat) returns (r: Result<(), TrustError>)
      requires i + 1 < |chain|
      ensures r.Ok? <==> LinkOk(k, policy, chain, i)
      ensures r.Err? ==> LinkError(k, policy, chain, r.error)
    {
      if chain[i].issuer != chain[i + 1].subject {
        return Err(ChainBroken(i));
      }
      if !SignatureOk(k, chain[i], chain[i + 1], policy) {
        return Err(BadSignature(i));
      }
      var ca := CheckCaExtensions(chain[i + 1]);
      if ca.Err? {
        return Err(if ca.error.CertificateParse? then CertificateParse else ProfileViolation);
      }
      r := EnforcePathLen(chain[i + 1], chain[..i + 1]);
    }

    /** The walk along the links of the chain. */
    method WalkLinks(k: Backend, chain: seq<Cert>) returns (r: Result<(), TrustError>)
      requires chain != []
      ensures r.Ok? <==> forall i: nat :: i + 1 < |chain| ==> LinkOk(k, policy, chain, i)
      ensures r.Err? ==> LinkError(k, policy, chain, r.error)
    {
      for i := 0 to |chain| - 1
        invariant FirstLinksOk(k, policy, chain, i)
      {
        var _ :- CheckLink(k, chain, i);
      }
      forall i: nat | i + 1 < |chain| ensures LinkOk(k, policy, chain, i) {
        FirstLinksInclude(k, policy, chain, |chain| - 1, i);
      }
      return Ok(());
    }

    /** The extensions, purpose and validity of the chain's certificates. */
    method CheckCertificates(k: Backend, chain: seq<Cert>, q: Request) returns (r: Result<(), TrustError>)
      requires chain != []
      ensures r.Ok? <==>
              && (forall cert <- chain :: ExtensionsOk(cert))
              && (q.purpose.Some? ==> k.roleOk(chain[0], q.purpose.value))
              && (forall cert <- chain :: InWindow(cert, q))
      ensures r.Err? ==>
                !r.error.ChainBroken? && !r.error.BadSignature? && !r.error.EmptyChain? && !r.error.UntrustedRoot?
    {
      for i := 0 to |chain|
        invariant forall j :: 0 <= j < i ==> ExtensionsOk(chain[j])
      {
        assert chain[i] in chain;
        var _ :- RejectBadExtensions(chain[i]);
      }
      if q.purpose.Some? && !k.roleOk(chain[0], q.purpose.value) {
        return Err(ProfileViolation);
      }
      for i := 0 to |chain|
        invariant forall j :: 0 <= j < i ==> InWindow(chain[j], q)
      {
        assert chain[i] in chain;
        var _ :- CheckTime(chain[i], i, q);
      }
      return Ok(());
    }

    /** One candidate anchor, as a complete path. */
    method TryAnchor(k: Backend, chain: seq<Cert>, q: Request, anchor: Cert) returns (r: Result<(), TrustError>)
      requires chain != []
      ensures r.Ok? <==> AnchorOk(k, policy, chain, q, anchor)
      ensures r.Err? ==> AnchorFault(chain, r.error)
    {
      if !SignatureOk(k, Last(chain), anchor, policy) {
        return Err(BadSignature(|chain| - 1));
      }
      var _ :- RejectBadExtensions(anchor);
      var ca := CheckCaExtensions(anchor);
      if ca.Err? {
        return Err(if ca.error.CertificateParse? then CertificateParse else ProfileViolation);
      }
      var _ :- EnforcePathLen(anchor, chain);
      var _ :- CheckTime(anchor, |chain|, q);
      r := EnforceNameConstraintsPath(k.unicode, chain + [anchor]);
    }

    /** The root the store holds byte for byte, if the chain ends with one. */
    method FindStoredRoot(chain: seq<Cert>) returns (r: Option<Cert>)
      requires chain != []
      ensures r.Some? <==> EndsAtStoredRoot(anchors, chain)
      ensures r.Some? ==> exists i :: FirstStored(anchors, chain, i) && anchors[i].cert == r.value
    {
      if Last(chain).issuer == Last(chain).subject {
        for i := 0 to |anchors|
          invariant forall j :: 0 <= j < i ==> anchors[j].der != Last(chain).der
        {
          if anchors[i].der == Last(chain).der {
            assert anchors[i] in anchors && FirstStored(anchors, chain, i);
            return Some(anchors[i].cert);
          }
        }
      }
      return None;
    }

    /** The candidates in turn, as complete paths: the first that holds, else the last fault. */
    method TryEach(k: Backend, chain: seq<Cert>, q: Request, candidates: seq<Cert>) returns (r: Result<nat, TrustError>)
      requires chain != [] && candidates != []
      ensures r.Ok? ==> && r.value < |candidates| && AnchorOk(k, policy, chain, q, candidates[r.value])
                        && AllFail(Judgement(k, policy, chain, q), candidates[..r.value])
      ensures r.Err? ==> AllFail(Judgement(k, policy, chain, q), candidates) && AnchorFault(chain, r.error)
    {
      var lastErr := UntrustedRoot;
      for c := 0 to |candidates|
        invariant AllFail(Judgement(k, policy, chain, q), candidates[..c])
        invariant c > 0 ==> AnchorFault(chain, lastErr)
      {
        var tried := TryAnchor(k, chain, q, candidates[c]);
        if tried.Ok? {
          return Ok(c);
        }
        lastErr := tried.error;
        assert candidates[..c + 1][..c] == candidates[..c];
      }
      assert candidates[..|candidates|] == candidates;
      return Err(lastErr);
    }

    /** The search over the anchors that carry the issuer's name. */
    method TryCandidates(k: Backend, chain: seq<Cert>, q: Request) returns (r: Result<Cert, TrustError>)
      requires chain != []
      ensures r.Ok? ==> exists i :: FirstCompletes(k, anchors, policy, chain, q, i) && anchors[i].cert == r.value
      ensures r.Err? ==> forall a <- anchors :: !Completes(k, policy, chain, q, a)
      ensures if exists a <- anchors :: a.cert.subject == Last(chain).issuer then r.Err? ==> AnchorFault(chain, r.error)
              else r == Err(UntrustedRoot)
    {
      var candidates := FindAllIssuers(anchors, Last(chain).issuer);
      AllFailMeansNoneHolds(Judgement(k, policy, chain, q), anchors, Last(chain).issuer);
      if candidates == [] {
        return Err(UntrustedRoot);
      }
      var tried := TryEach(k, chain, q, candidates);
      if tried.Err? {
        return Err(tried.error);
      }
      FirstPassingCandidate(Judgement(k, policy, chain, q), anchors, Last(chain).issuer, tried.value);
      ghost var i :| IsFirst(Judgement(k, policy, chain, q), anchors, Last(chain).issuer, i)
        && anchors[i].cert == candidates[tried.value];
      assert FirstCompletes(k, anchors, policy, chain, q, i);
      return Ok(candidates[tried.value]);
    }

    /**
     A chain is accepted exactly when all its own checks hold and either it ends with a
     stored root that signs itself and the path meets the name constraints, or some anchor
     with the issuer's name completes a valid path; the first such anchor is returned,
     whatever the candidates before it failed on.
     */
    method VerifyChainInner(k: Backend, chain: seq<Cert>, q: Request) returns (r: Result<Cert, TrustError>)
      ensures r.Ok? <==> Accepts(k, anchors, policy, chain, q)
      ensures r.Ok? ==> IsChosen(k, anchors, policy, chain, q, r.value)
      ensures r == Err(EmptyChain) <==> chain == []
      ensures r == Err(UntrustedRoot) <==>
              && ChainOk(k, policy, chain, q) && !EndsAtStoredRoot(anchors, chain)
              && forall a <- anchors :: a.cert.subject != Last(chain).issuer
      ensures r.Err? ==> WalkFaultsAreReal(k, policy, chain, r.error)
    {
      if chain == [] {
        return Err(EmptyChain);
      }
      var _ :- CheckCertificates(k, chain, q);
      var _ :- WalkLinks(k, chain);
      var root := FindStoredRoot(chain);
      if root.Some? {
        if !SignatureOk(k, Last(chain), Last(chain), policy) {
          return Err(BadSignature(|chain| - 1));
        }
        var _ :- EnforceNameConstraintsPath(k.unicode, chain);
        return Ok(root.value);
      }
      r := TryCandidates(k, chain, q);
    }
  }

  /** The fault a failing link is reported with. */
  ghost predicate LinkError(k: Backend, policy: SignaturePolicy, chain: seq<Cert>, e: TrustError) {
    match e
    case ChainBroken(i) => i + 1 < |chain| && chain[i].issuer != chain[i + 1].subject
    case BadSignature(i) => i + 1 < |chain| && !SignatureOk(k, chain[i], chain[i + 1], policy)
    case ProfileViolation => true
    case CertificateParse => true
    case _ => false
  }

  /** A broken link or a bad signature inside the chain is reported only where there is one. */
  ghost predicate WalkFaultsAreReal(k: Backend, policy: SignaturePolicy, chain: seq<Cert>, e: TrustError) {
    && (e.ChainBroken? ==> LinkError(k, policy, chain, e))
    && (e.BadSignature? ==> e.index + 1 == |chain| || LinkError(k, policy, chain, e))
  }

  // ----- how acceptance depends on the policy and the anchors -----

  /** The stricter policy first. */
  predicate PolicyAtMost(p: SignaturePolicy, q: SignaturePolicy) {
    p.Strict? || q.AllowLegacy?
  }

  /** A chain accepted under a policy is accepted under every laxer one. */
  lemma {:induction false} AcceptanceMonotoneInPolicy(k: Backend, anchors: seq<TrustAnchor>, p: SignaturePolicy,
                                                      p': SignaturePolicy, chain: seq<Cert>, q: Request)
    requires PolicyAtMost(p, p') && Accepts(k, anchors, p, chain, q)
    ensures Accepts(k, anchors, p', chain, q)
  {
    forall i: nat | i + 1 < |chain| ensures LinkOk(k, p', chain, i) {
      assert LinkOk(k, p, chain, i);
    }
    if !EndsAtStoredRoot(anchors, chain) {
      var a :| a in anchors && Completes(k, p, chain, q, a);
      assert Completes(k, p', chain, q, a);
    }
  }

  /** Acceptance depends only on which anchors are stored, not on their order or repetition. */
  lemma {:induction false} AcceptanceIgnoresAnchorOrder(k: Backend, as1: seq<TrustAnchor>, as2: seq<TrustAnchor>,
                                                        p: SignaturePolicy, chain: seq<Cert>, q: Request)
    requires forall a :: a in as1 <==> a in as2
    ensures Accepts(k, as1, p, chain, q) <==> Accepts(k, as2, p, chain, q)
  {
    if Accepts(k, as1, p, chain, q) {
      AcceptanceWithinAnchors(k, as1, as2, p, chain, q);
    }
    if Accepts(k, as2, p, chain, q) {
      AcceptanceWithinAnchors(k, as2, as1, p, chain, q);
    }
  }

  /**
   With more anchors an accepted chain stays accepted, unless the additions store its
   self-issued last certificate and that certificate does not sign itself.
   */
  lemma {:induction false} AcceptanceWithinAnchors(k: Backend, fewer: seq<TrustAnchor>, more: seq<TrustAnchor>,
                                                   p: SignaturePolicy, chain: seq<Cert>, q: Request)
    requires forall a <- fewer :: a in more
    requires Accepts(k, fewer, p, chain, q)
    ensures Accepts(k, more, p, chain, q) <==>
            !(&& SelfIssued(Last(chain)) && StoredIn(more, Last(chain)) && !StoredIn(fewer, Last(chain))
              && !SignatureOk(k, Last(chain), Last(chain), p))
  {
    if EndsAtStoredRoot(fewer, chain) {
      var a :| a in fewer && a.der == Last(chain).der;
      assert a in more;
    } else {
      var a :| a in fewer && Completes(k, p, chain, q, a);
      assert a in more;
      LongerPathIsStricter(RulesOf(k.unicode), chain, [a.cert]);
    }
  }

  /** A certificate with a name, told apart from others by its key. */
  function Named(name: Bytes, key: Bytes, exts: seq<Extension>): Cert {
    Cert([1] + name + key, name, name, [], key, key, 0, 0, exts, [])
  }

  /** A backend in which this one certificate's key signed everything. */
  function SignedOnlyBy(signer: Cert, u: Unicode): Backend {
    Backend((_, issuer) => issuer == signer, _ => false, (_, _) => true, u)
  }

  lemma {:induction false} RolloverPathIsValid(k: Backend, root: Cert, rollover: Cert, q: Request)
    requires root.extensions == [CaFlag()]
    requires q == Request(None, None, false) && SignatureOk(k, rollover, root, Strict)
    ensures AnchorOk(k, Strict, [rollover], q, root)
  {
    CaFlagAlone(root);
    RulesAreDistributive(k.unicode);
    assert RulesOf(k.unicode).own(root) == Ok(NO_CONSTRAINTS);
    assert RulesOf(k.unicode).accepts(NO_CONSTRAINTS, rollover);
  }

  lemma {:induction false} RolloverAccepted(k: Backend, root: Cert, rollover: Cert)
    requires root.extensions == [CaFlag()]
    requires rollover.extensions == [] && SelfIssued(rollover) && root.subject == rollover.subject
             && root.der != rollover.der
    requires SignatureOk(k, rollover, root, Strict)
    ensures Accepts(k, [TrustAnchor(root, root.der)], Strict, [rollover], Request(None, None, false))
  {
    RolloverPathIsValid(k, root, rollover, Request(None, None, false));
    assert Completes(k, Strict, [rollover], Request(None, None, false), TrustAnchor(root, root.der));
  }

  lemma {:induction false} RolloverRefused(k: Backend, root: Cert, rollover: Cert)
    requires SelfIssued(rollover) && !SignatureOk(k, rollover, rollover, Strict)
    ensures !Accepts(k, [TrustAnchor(root, root.der), TrustAnchor(rollover, rollover.der)], Strict, [rollover],
                     Request(None, None, false))
  {
    var anchors := [TrustAnchor(root, root.der), TrustAnchor(rollover, rollover.der)];
    assert anchors[1] in anchors && anchors[1].der == Last([rollover]).der;
  }

  /**
   Adding an anchor can end acceptance: a self-issued certificate another key signed, once
   stored, must sign itself.
   */
  lemma {:induction false} StoringARolloverCertificateEndsAcceptance(u: Unicode)
    returns (k: Backend, stored: Cert, added: Cert)
    ensures Accepts(k, [TrustAnchor(stored, stored.der)], Strict, [added], Request(None, None, false))
    ensures !Accepts(k, [TrustAnchor(stored, stored.der), TrustAnchor(added, added.der)], Strict, [added],
                     Request(None, None, false))
  {
    stored, added := Named([7], [0], [CaFlag()]), Named([7], [1], []);
    assert stored.der[2] != added.der[2];
    k := SignedOnlyBy(stored, u);
    RolloverAccepted(k, stored, added);
    RolloverRefused(k, stored, added);
  }

  /** In particular, when the last certificate is not self-issued. */
  lemma {:induction false} AcceptanceMonotoneInAnchors(k: Backend, fewer: seq<TrustAnchor>, more: seq<TrustAnchor>,
                                                       p: SignaturePolicy, chain: seq<Cert>, q: Request)
    requires forall a <- fewer :: a in more
    requires Accepts(k, fewer, p, chain, q) && !SelfIssued(Last(chain))
    ensures Accepts(k, more, p, chain, q)
  {
    AcceptanceWithinAnchors(k, fewer, more, p, chain, q);
  }

  /** The policy for an OCSP responder's path: legacy only when both the caller and the store allow it. */
  function EffectivePolicy(caller: SignaturePolicy, store: SignaturePolicy): SignaturePolicy {
    if caller.AllowLegacy? && store.AllowLegacy? then AllowLegacy else Strict
  }

  /** It is the laxest policy that is as strict as both. */
  lemma {:induction false} EffectivePolicyIsMeet(caller: SignaturePolicy, store: SignaturePolicy, p: SignaturePolicy)
    ensures PolicyAtMost(p, EffectivePolicy(caller, store)) <==> PolicyAtMost(p, caller) && PolicyAtMost(p, store)
  {
    assert p.Strict? || p.AllowLegacy?;
  }

  /** A path accepted under the effective policy is accepted under the caller's and under the store's. */
  lemma {:induction false} EffectivePolicyIsIntersection(k: Backend, anchors: seq<TrustAnchor>, caller: SignaturePolicy,
                                                         store: SignaturePolicy, chain: seq<Cert>, q: Request)
    requires Accepts(k, anchors, EffectivePolicy(caller, store), chain, q)
    ensures Accepts(k, anchors, caller, chain, q) && Accepts(k, anchors, store, chain, q)
  {
    AcceptanceMonotoneInPolicy(k, anchors, EffectivePolicy(caller, store), caller, chain, q);
    AcceptanceMonotoneInPolicy(k, anchors, EffectivePolicy(caller, store), store, chain, q);
  }

  /** The path up to and including the certificate it is trusted for meets the RFC's limits, and its leaf fits. */
  ghost predicate MeetsRfcLimits(path: seq<Cert>)
    requires |path| > 1
  {
    var top, below := path[|path| - 1], path[..|path| - 1];
    && CheckCaExtensions(top).Ok?
    && var limit := BasicConstraintsOf(top).value.1;
       && TopDownOk(below, limit)
       && RfcPassOk(below, limit)
       && LeafFits(path[0], LeftAtLeaf(below, limit))
  }

  lemma {:induction false} PathMeetsRfcLimits(path: seq<Cert>)
    requires |path| > 1 && Authorities(path) && RecountOk(path)
    ensures MeetsRfcLimits(path)
  {
    RecountIsTopDown(path);
    PathVersusRfc(path);
  }

  /** A chain whose links hold meets the limits of one top-down pass and of the RFC, leaf included. */
  lemma {:induction false} AcceptedChainLimits(k: Backend, p: SignaturePolicy, chain: seq<Cert>, q: Request)
    requires ChainOk(k, p, chain, q)
    ensures Authorities(chain) && RecountOk(chain)
    ensures |chain| > 1 ==> MeetsRfcLimits(chain)
  {
    forall j | 1 <= j < |chain| ensures CheckCaExtensions(chain[j]).Ok? && PathLenOk(chain[j], chain[..j]) {
      assert LinkOk(k, p, chain, j - 1);
    }
    if |chain| > 1 {
      PathMeetsRfcLimits(chain);
    }
  }

  /** And so does an accepted chain with the anchor that completes it. */
  lemma {:induction false} AcceptedPathLengths(k: Backend, p: SignaturePolicy, chain: seq<Cert>, q: Request,
                                               anchor: Cert)
    requires ChainOk(k, p, chain, q) && AnchorOk(k, p, chain, q, anchor)
    ensures BasicConstraintsOf(anchor).Ok? && TopDownOk(chain, BasicConstraintsOf(anchor).value.1)
    ensures MeetsRfcLimits(chain + [anchor])
  {
    var path := chain + [anchor];
    AcceptedChainLimits(k, p, chain, q);
    assert path[..|chain|] == chain && path[|chain|] == anchor;
    AuthoritiesOfPrefix(path);
    RecountOfPrefix(path);
    PathMeetsRfcLimits(path);
  }
}
