/**
 A run of the orchestrator under the relaxed policy (src/ltv/revocation.rs) whose valid
 result no complete evidence supports: a delegated responder answers, and nothing can be
 learnt about the responder itself.
 */
module RelaxedPolicy {
  import opened Results
  import opened Der
  import opened TextFolding
  import opened Certificates
  import opened NameConstraints
  import opened PathChecks
  import opened AnchorSearch
  import opened TrustStores
  import opened Statuses
  import opened CrlVerdicts
  import opened OcspMatching
  import opened OcspChecks
  import opened Revocation

  /**
   The bytes of the response stand for some response: `decodeResponse` is arbitrary in the
   model, and the witness lets it decode them. They are no response in the real format.
   */
  const RESPONSE: Bytes := [0x30, 0x00]
  const SERIAL: Bytes := [5]
  const NONCE: Bytes := [1]

  /** A root, and the responder and the certificate it issued. */
  function Root(): Cert {
    Named([7], [0], [CaFlag()])
  }

  function Issued(name: Bytes, key: Bytes): Cert {
    Cert([2] + name + key, name, Root().subject, SERIAL, key, key, 0, 0, [], [])
  }

  function Responder(): Cert {
    Issued([8], [1])
  }

  function Subject(): Cert {
    Issued([9], [2])
  }

  /** The response: signed by the embedded responder, good for the certificate. */
  function GoodResponse(sha1: Bytes -> Bytes): ParsedOcsp {
    ParsedOcsp([], [], ByName(Responder().subject),
               [SingleResponse(SHA1_OID, sha1(Root().subject), sha1(Root().publicKey), SERIAL, Good, 0, Some(0))],
               Some(NONCE), [Responder()])
  }

  function Keys(codecs: OcspCodecs, u: Unicode): OcspBackend {
    OcspBackend(SignedOnlyBy(Root(), u), codecs,
                r => if r == RESPONSE then Ok(GoodResponse(codecs.sha1)) else Err(OcspFailure),
                (_, signer) => signer == Responder(), _ => false, _ => true)
  }

  function Asked(c: Config): OcspRequest {
    OcspRequest(None, c.requireNonce, Strict, Freshness(0, 0),
                Some(IssuerPath([Root()], [TrustAnchor(Root(), Root().der)], Strict)), 0)
  }

  function Still(): Clock {
    Clock(_ => 0, _ => 0)
  }

  /** The root by itself is an accepted path. */
  lemma {:induction false} RootIsAccepted(u: Unicode, role: Role)
    ensures Accepts(SignedOnlyBy(Root(), u), [TrustAnchor(Root(), Root().der)], Strict, [Root()], AtInstant(0, role))
  {
    var anchors := [TrustAnchor(Root(), Root().der)];
    CaFlagAlone(Root());
    assert anchors[0] in anchors;
    assert ChainOk(SignedOnlyBy(Root(), u), Strict, [Root()], AtInstant(0, role));
  }

  lemma {:induction false} ResponderMeetsNoConstraints(u: Unicode)
    ensures NameConstraintsOk(RulesOf(u), [Responder()] + [Root()])
  {
    CaFlagAlone(Root());
    RulesAreDistributive(u);
    assert RulesOf(u).own(Root()) == Ok(NO_CONSTRAINTS) && RulesOf(u).accepts(NO_CONSTRAINTS, Responder());
  }

  lemma {:induction false} ResponderChainIsOk(u: Unicode, role: Role)
    ensures ChainOk(SignedOnlyBy(Root(), u), Strict, [Responder()] + [Root()], AtInstant(0, role))
  {
    CaFlagAlone(Root());
    assert LinkOk(SignedOnlyBy(Root(), u), Strict, [Responder()] + [Root()], 0);
  }

  /** The responder under the root is an accepted path. */
  lemma {:induction false} ResponderIsAccepted(u: Unicode, role: Role)
    ensures Accepts(SignedOnlyBy(Root(), u), [TrustAnchor(Root(), Root().der)], Strict, [Responder()] + [Root()],
                    AtInstant(0, role))
  {
    var anchors := [TrustAnchor(Root(), Root().der)];
    assert anchors[0] in anchors;
    ResponderChainIsOk(u, role);
    ResponderMeetsNoConstraints(u);
  }

  lemma {:induction false} ResponderIsEntitled(codecs: OcspCodecs, u: Unicode, q: OcspRequest)
    requires q.now == 0 && q.policy == Strict
    ensures var b := Keys(codecs, u);
            && FirstSigner(b, GoodResponse(codecs.sha1), [Responder()] + [Root()], Root(), Strict) == Some(Responder())
            && Entitled(b, GoodResponse(codecs.sha1), Responder(), Root(), q)
            && NeedsOwnCheck(Responder(), Root())
  {
    CaFlagAlone(Root());
    assert Responder().subject[0] != Root().subject[0];
  }

  lemma {:induction false} PathsAreOk(codecs: OcspCodecs, u: Unicode, c: Config, level: nat, nonce: Option<Bytes>)
    ensures PathsOk(Keys(codecs, u), Responder(), Root(), RequestAt(Asked(c), Still(), level, nonce))
  {
    RootIsAccepted(u, IntermediateCa);
    ResponderIsAccepted(u, OcspResponder);
  }

  lemma {:induction false} CertificateIsFound(codecs: OcspCodecs)
    ensures LookUp(codecs, GoodResponse(codecs.sha1).responses, Subject(), Root()) ==
            Ok(Some(GoodResponse(codecs.sha1).responses[0]))
  {
  }

  lemma {:induction false} ResponseIsGood(codecs: OcspCodecs, u: Unicode, c: Config, level: nat, nonce: Option<Bytes>)
    requires c.requireNonce ==> c.useOcspNonce
    requires nonce == if c.useOcspNonce then Some(NONCE) else None
    ensures CheckDetailed(Keys(codecs, u), RESPONSE, Subject(), Root(), RequestAt(Asked(c), Still(), level, nonce)) ==
            Ok(Outcome(Valid(FromOcsp, 0), Some(Responder())))
  {
    var q := RequestAt(Asked(c), Still(), level, nonce);
    ResponderIsEntitled(codecs, u, q);
    PathsAreOk(codecs, u, c, level, nonce);
    CertificateIsFound(codecs);
    assert NonceOk(GoodResponse(codecs.sha1), q);
  }

  /** A responder is reached at `top` and at no other level, so nothing is learnt about the responder. */
  ghost function Environment(codecs: OcspCodecs, u: Unicode, cb: CrlBackend, c: Config, top: nat): World {
    World(_ => true, _ => false,
          (_, level) => if level == top then Some((RESPONSE, Some(NONCE))) else None, (_, _) => None,
          (_, _) => false, (_, _) => false, (_, _) => true, (_, _) => true,
          (l: nat, r, n, cert, issuer) =>
            CheckDetailed(Keys(codecs, u), r, cert, issuer, RequestAt(Asked(c), Still(), l, n)),
          (l: nat, der, cert, issuer) => CheckCrl(cb, der, cert, issuer, Strict, Freshness(0, 0), 0))
  }

  /** The settings under which a result can be left open. */
  predicate Relaxed(c: Config) {
    !c.requireRevocationCheck && (c.requireNonce ==> c.useOcspNonce)
  }

  lemma {:induction false} NothingIsLearnt(codecs: OcspCodecs, u: Unicode, cb: CrlBackend, c: Config, top: nat)
    requires Relaxed(c) && top > 0
    ensures Check(Environment(codecs, u, cb, c, top), c, top - 1, Responder(), Root()).Unknown?
  {
    var w := Environment(codecs, u, cb, c, top);
    FinalKinds(RunOcsp(w, c, top - 1, Responder(), Root()), RunCrl(w, top - 1, Responder(), Root()), c.preferOcsp,
               false);
  }

  lemma {:induction false} CertificateIsValid(codecs: OcspCodecs, u: Unicode, cb: CrlBackend, c: Config, top: nat)
    requires Relaxed(c) && top > 0
    ensures var w := Environment(codecs, u, cb, c, top);
            && Delegate(w, c, top, Subject(), Root()) == Some(Responder())
            && Check(w, c, top, Subject(), Root()) == Valid(FromOcsp, 0)
            && !RestsOnCrl(w, c, top, Subject(), Root())
  {
    var w := Environment(codecs, u, cb, c, top);
    ResponseIsGood(codecs, u, c, top, if c.useOcspNonce then Some(NONCE) else None);
    NothingIsLearnt(codecs, u, cb, c, top);
    FinalKinds(RunOcsp(w, c, top, Subject(), Root()), RunCrl(w, top, Subject(), Root()), c.preferOcsp, false);
  }

  /** The run ends with a definite result that has no complete evidence. */
  ghost predicate LeavesOpen(w: World, c: Config, level: nat, cert: Cert, issuer: Cert) {
    && Definite(Check(w, c, level, cert, issuer))
    && !HasCompleteEvidence(w, c, level, cert, issuer, Check(w, c, level, cert, issuer))
  }

  /**
   Without the requirement, and unless the nonce settings rule OCSP out, there is for every
   recursion limit above zero a run of the library's own checks, with an issuer path, whose
   result is valid and has no complete evidence.
   */
  lemma {:induction false} RelaxedPolicyToleratesUnknownResponder(codecs: OcspCodecs, u: Unicode, cb: CrlBackend,
                                                                  c: Config, top: nat)
    requires Relaxed(c) && top > 0
    ensures var w := Environment(codecs, u, cb, c, top);
            && ChecksFor(w, Keys(codecs, u), cb, Asked(c), Freshness(0, 0), Still())
            && Check(w, c, top, Subject(), Root()).Valid?
            && LeavesOpen(w, c, top, Subject(), Root())
  {
    var w := Environment(codecs, u, cb, c, top);
    NothingIsLearnt(codecs, u, cb, c, top);
    CertificateIsValid(codecs, u, cb, c, top);
    assert ResponderChecks(w, c, top, Subject(), Root())[0].Unknown?;
    CompleteExactlyWhenNoneUnknown(w, c, top, Subject(), Root());
  }

  /** The environment runs the library's checks, with or without an issuer path, under these settings. */
  ghost predicate RunsUnder(c: Config, withPath: bool, w: World, ob: OcspBackend, cb: CrlBackend, q: OcspRequest,
                            f: Freshness, clock: Clock)
  {
    ChecksFor(w, ob, cb, q, f, clock) && q.path.Some? == withPath && q.requireNonce == c.requireNonce
  }

  lemma {:induction false} StrictOrNoOcspIsComplete(w: World, c: Config, level: nat, cert: Cert, issuer: Cert)
    requires !Relaxed(c)
    ensures !LeavesOpen(w, c, level, cert, issuer)
  {
    if Definite(Check(w, c, level, cert, issuer)) {
      CompleteExactlyWhenNoneUnknown(w, c, level, cert, issuer);
      if c.requireRevocationCheck {
        RequiredChecksAreNeverUnknown(w, c, level, cert, issuer);
      } else if !RestsOnCrl(w, c, level, cert, issuer) {
        RestsOnOcsp(w, c, level, cert, issuer);
      }
    }
  }

  /** Without a recursion budget, or without a responder to check, nothing is left open. */
  lemma {:induction false} NoDelegationIsComplete(w: World, c: Config, level: nat, cert: Cert, issuer: Cert)
    requires level == 0 || Delegate(w, c, level, cert, issuer).None?
    ensures !LeavesOpen(w, c, level, cert, issuer)
  {
    if Definite(Check(w, c, level, cert, issuer)) {
      CompleteExactlyWhenNoneUnknown(w, c, level, cert, issuer);
    }
  }

  /** Without an issuer path the library hands no responder back. */
  lemma {:induction false} NoPathNoDelegate(w: World, ob: OcspBackend, cb: CrlBackend, q: OcspRequest, f: Freshness,
                                            clock: Clock, c: Config, level: nat, cert: Cert, issuer: Cert)
    requires ChecksFor(w, ob, cb, q, f, clock) && q.path.None?
    ensures Delegate(w, c, level, cert, issuer).None?
  {
  }

  /** Some run under these settings, with this recursion limit, leaves a responder open. */
  ghost predicate CanLeaveOpen(c: Config, level: nat, withPath: bool) {
    exists w: World, ob: OcspBackend, cb: CrlBackend, q: OcspRequest, f: Freshness, clock: Clock, cert: Cert,
      issuer: Cert ::
      RunsUnder(c, withPath, w, ob, cb, q, f, clock) && LeavesOpen(w, c, level, cert, issuer)
  }

  /**
   The settings admit a definite result without complete evidence if and only if they do not
   require the check, their nonce settings do not rule OCSP out, the recursion limit is not
   zero, and an issuer path is given.
   */
  lemma {:induction false} OpenExactlyUnderRelaxedPolicy(codecs: OcspCodecs, u: Unicode, cb: CrlBackend, c: Config,
                                                         level: nat, withPath: bool)
    ensures CanLeaveOpen(c, level, withPath) <==>
            && !c.requireRevocationCheck && (c.requireNonce ==> c.useOcspNonce)
            && level > 0
            && withPath
  {
    if Relaxed(c) && level > 0 && withPath {
      RelaxedPolicyToleratesUnknownResponder(codecs, u, cb, c, level);
      var w := Environment(codecs, u, cb, c, level);
      assert RunsUnder(c, withPath, w, Keys(codecs, u), cb, Asked(c), Freshness(0, 0), Still());
      assert LeavesOpen(w, c, level, Subject(), Root());
    }
    if CanLeaveOpen(c, level, withPath) {
      var w: World, ob: OcspBackend, cb: CrlBackend, q: OcspRequest, f: Freshness, clock: Clock, cert: Cert,
        issuer: Cert :|
        RunsUnder(c, withPath, w, ob, cb, q, f, clock) && LeavesOpen(w, c, level, cert, issuer);
      if !Relaxed(c) {
        StrictOrNoOcspIsComplete(w, c, level, cert, issuer);
      }
      if !withPath {
        NoPathNoDelegate(w, ob, cb, q, f, clock, c, level, cert, issuer);
      }
      if level == 0 || !withPath {
        NoDelegationIsComplete(w, c, level, cert, issuer);
      }
    }
  }
}
