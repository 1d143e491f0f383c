/**
 What an OCSP response establishes about a certificate (src/ltv/ocsp.rs,
 `check_revocation_detailed_inner`): who signed it, whether that signer is entitled to,
 and whether the signer's own revocation status is still open.
 */
module OcspChecks {
  import opened Results
  import opened Der
  import opened DerIntegers
  import opened Certificates
  import opened NameConstraints
  import opened AnchorSearch
  import opened TrustStores
  import opened CrlVerdicts
  import opened Statuses
  import opened OcspMatching

  datatype ResponderId = ByName(name: Bytes) | ByKeyHash(hash: Bytes)

  /** A decoded response; undecodable embedded certificates are already left out. */
  datatype ParsedOcsp = ParsedOcsp(
    tbs: Bytes,
    signature: Bytes,
    responderId: ResponderId,
    responses: seq<SingleResponse>,
    nonce: Option<Bytes>,
    embedded: seq<Cert>)

  /** A responder-side status, or anything that discredits the response. */
  datatype LtvError = ResponderStatus | OcspFailure

  datatype OcspBackend = OcspBackend(
    crypto: Backend,
    codecs: OcspCodecs,
    decodeResponse: Bytes -> Result<ParsedOcsp, LtvError>,
    responseVerifies: (ParsedOcsp, Cert) -> bool,
    weakResponse: ParsedOcsp -> bool,
    delegatedProfileOk: Cert -> bool)

  /** The issuer's path toward a trust store, when the caller supplies it. */
  datatype IssuerPath = IssuerPath(chain: seq<Cert>, anchors: seq<TrustAnchor>, policy: SignaturePolicy)

  /** The status, and the delegated responder whose own status must still be checked. */
  datatype Outcome = Outcome(status: ValidationStatus, delegated: Option<Cert>)

  /** How many units of an instant make a second, the unit of certificate validity. */
  const TICKS: nat := 1_000_000_000

  /** Everything about a check but the response and the certificate; the instant is in ticks. */
  datatype OcspRequest = OcspRequest(
    nonce: Option<Bytes>,
    requireNonce: bool,
    policy: SignaturePolicy,
    freshness: Freshness,
    path: Option<IssuerPath>,
    now: int)

  // ----- the signer -----

  predicate SameIdentity(a: Cert, b: Cert) {
    a.subject == b.subject && a.spki == b.spki
  }

  predicate ResponseSignedBy(b: OcspBackend, p: ParsedOcsp, signer: Cert, policy: SignaturePolicy) {
    (policy.AllowLegacy? || !b.weakResponse(p)) && b.responseVerifies(p, signer)
  }

  /** The first candidate whose key verifies the response; the caller's issuer stands in for its own look-alikes. */
  function FirstSigner(b: OcspBackend, p: ParsedOcsp, candidates: seq<Cert>, issuer: Cert,
                       policy: SignaturePolicy)
    : Option<Cert>
  {
    if candidates == [] then None
    else if ResponseSignedBy(b, p, candidates[0], policy) then
      Some(if SameIdentity(candidates[0], issuer) then issuer else candidates[0])
    else FirstSigner(b, p, candidates[1..], issuer, policy)
  }

  /** The loop over the embedded certificates and the issuer. */
  method VerifyResponseSignature(b: OcspBackend, p: ParsedOcsp, issuer: Cert, policy: SignaturePolicy)
    returns (r: Option<Cert>)
    ensures r == FirstSigner(b, p, p.embedded + [issuer], issuer, policy)
  {
    var candidates := p.embedded + [issuer];
    for i := 0 to |candidates|
      invariant FirstSigner(b, p, candidates, issuer, policy) == FirstSigner(b, p, candidates[i..], issuer, policy)
    {
      assert candidates[i..][1..] == candidates[i + 1..];
      if ResponseSignedBy(b, p, candidates[i], policy) {
        return Some(if SameIdentity(candidates[i], issuer) then issuer else candidates[i]);
      }
    }
    return None;
  }

  lemma {:induction false} SignerIsACandidate(b: OcspBackend, p: ParsedOcsp, candidates: seq<Cert>, issuer: Cert,
                                              policy: SignaturePolicy)
    requires FirstSigner(b, p, candidates, issuer, policy).Some?
    ensures var s := FirstSigner(b, p, candidates, issuer, policy).value;
            exists c <- candidates ::
              ResponseSignedBy(b, p, c, policy) && (s == c || (s == issuer && SameIdentity(c, issuer)))
    ensures SameIdentity(FirstSigner(b, p, candidates, issuer, policy).value, issuer) ==>
              FirstSigner(b, p, candidates, issuer, policy).value == issuer
  {
    if !ResponseSignedBy(b, p, candidates[0], policy) {
      SignerIsACandidate(b, p, candidates[1..], issuer, policy);
      var c :| c in candidates[1..] && ResponseSignedBy(b, p, c, policy)
               && (FirstSigner(b, p, candidates, issuer, policy).value == c
                   || (FirstSigner(b, p, candidates, issuer, policy).value == issuer && SameIdentity(c, issuer)));
      assert c in candidates;
    } else {
      assert candidates[0] in candidates;
    }
  }

  // ----- the signer's entitlement -----

  predicate MatchesResponderId(b: OcspBackend, signer: Cert, id: ResponderId) {
    match id
    case ByName(name) => signer.subject == name
    case ByKeyHash(hash) => b.codecs.sha1(signer.publicKey) == hash
  }

  predicate HasNoCheck(cert: Cert) {
    exists i :: && 0 <= i < |cert.extensions| && cert.extensions[i].oid == OcspNoCheckOid
                && cert.extensions[i].value == [0x05, 0x00]
  }

  /** The issuer itself issued the responder for this purpose and its constraints allow it. */
  predicate DelegatedBy(b: OcspBackend, signer: Cert, issuer: Cert, policy: SignaturePolicy) {
    && signer.issuer == issuer.subject
    && SignatureOk(b.crypto, signer, issuer, policy)
    && b.delegatedProfileOk(signer)
    && Own(issuer).Ok?
    && CheckCert(MatcherOf(b.crypto.unicode), Own(issuer).value, signer).Ok?
  }

  /** The signer may answer for the issuer at this instant. */
  predicate Entitled(b: OcspBackend, p: ParsedOcsp, signer: Cert, issuer: Cert, q: OcspRequest) {
    && signer.notBefore * TICKS <= q.now <= signer.notAfter * TICKS
    && MatchesResponderId(b, signer, p.responderId)
    && (SameIdentity(signer, issuer) || DelegatedBy(b, signer, issuer, q.policy))
  }

  /** A delegated signer without the waiver must itself be checked. */
  predicate NeedsOwnCheck(signer: Cert, issuer: Cert) {
    !SameIdentity(signer, issuer) && !HasNoCheck(signer)
  }

  /** The path check works on whole seconds, and is told of a fraction it cut off. */
  function AtInstant(now: int, role: Role): Request {
    Request(Some(now / TICKS), Some(role), now % TICKS != 0)
  }

  /** So cutting off the fraction loses nothing: a window is left exactly when the full instant leaves it. */
  lemma {:induction false} FractionKeepsWindowsExact(cert: Cert, now: int, role: Role)
    ensures InWindow(cert, AtInstant(now, role)) <==> cert.notBefore * TICKS <= now <= cert.notAfter * TICKS
  {
    var s, f := now / TICKS, now % TICKS;
    assert now == s * TICKS + f && 0 <= f < TICKS;
  }

  /** The path is accepted by the store for this role, under the stricter of the two policies. */
  ghost predicate PathAccepted(b: OcspBackend, chain: seq<Cert>, path: IssuerPath, role: Role, q: OcspRequest) {
    Accepts(b.crypto, path.anchors, EffectivePolicy(q.policy, path.policy), chain, AtInstant(q.now, role))
  }

  /** The paths the check asks for: the issuer's, and the delegated responder's over it. */
  ghost predicate PathsOk(b: OcspBackend, signer: Cert, issuer: Cert, q: OcspRequest) {
    && (q.path.Some? ==>
          && q.path.value.chain != [] && q.path.value.chain[0] == issuer
          && PathAccepted(b, q.path.value.chain, q.path.value, IntermediateCa, q))
    && (!SameIdentity(signer, issuer) ==>
          q.path.Some? && PathAccepted(b, [signer] + q.path.value.chain, q.path.value, OcspResponder, q))
  }

  /** The nonce was echoed, or neither required nor contradicted. */
  predicate NonceOk(p: ParsedOcsp, q: OcspRequest) {
    && (q.requireNonce ==> q.nonce.Some? && q.nonce.value != [])
    && (q.nonce.Some? ==>
          match p.nonce
          case Some(n) => NonceMatches(q.nonce.value, n)
          case None => !q.requireNonce)
  }

  // ----- the check -----

  /** The status the response gives the certificate, once its signer is accepted. */
  function Answer(b: OcspBackend, p: ParsedOcsp, signer: Cert, cert: Cert, issuer: Cert,
                  q: OcspRequest)
    : Result<Outcome, LtvError>
  {
    match LookUp(b.codecs, p.responses, cert, issuer)
    case Err(_) => Err(OcspFailure)
    case Ok(None) => Ok(Outcome(Unknown(NotCovered), None))
    case Ok(Some(sr)) =>
      match StatusAt(sr, q.freshness, q.now)
      case None => Err(OcspFailure)
      case Some(status) => Ok(Outcome(status, if NeedsOwnCheck(signer, issuer) then Some(signer) else None))
  }

  ghost function CheckDetailed(b: OcspBackend, response: Bytes, cert: Cert, issuer: Cert,
                               q: OcspRequest)
    : Result<Outcome, LtvError>
  {
    if q.requireNonce && (q.nonce.None? || q.nonce.value == []) then Err(OcspFailure)
    else
      var p :- b.decodeResponse(response);
      match FirstSigner(b, p, p.embedded + [issuer], issuer, q.policy)
      case None => Err(OcspFailure)
      case Some(signer) =>
        if !Entitled(b, p, signer, issuer, q) || !PathsOk(b, signer, issuer, q) || !NonceOk(p, q) then Err(OcspFailure)
        else Answer(b, p, signer, cert, issuer, q)
  }

  /** A signer that makes a response trustworthy, with what the outcome leaves open about it. */
  ghost predicate TrustedSigner(b: OcspBackend, p: ParsedOcsp, signer: Cert, issuer: Cert, q: OcspRequest,
                                delegated: Option<Cert>) {
    && Entitled(b, p, signer, issuer, q)
    && PathsOk(b, signer, issuer, q)
    && NonceOk(p, q)
    && (|| (delegated.None? && signer == issuer)
        || (delegated.None? && HasNoCheck(signer) && DelegatedBy(b, signer, issuer, q.policy))
        || (delegated == Some(signer) && DelegatedBy(b, signer, issuer, q.policy)))
    && (!SameIdentity(signer, issuer) ==>
          q.path.Some?
          && Accepts(b.crypto, q.path.value.anchors, q.policy, [signer] + q.path.value.chain,
                     AtInstant(q.now, OcspResponder)))
  }

  /** The key of some candidate verifies the response, and the signer is that candidate or the issuer it looks like. */
  ghost predicate SignedAs(b: OcspBackend, p: ParsedOcsp, signer: Cert, issuer: Cert, policy: SignaturePolicy) {
    exists c <- p.embedded + [issuer] ::
      ResponseSignedBy(b, p, c, policy) && (signer == c || (signer == issuer && SameIdentity(c, issuer)))
  }

  /**
   The response gives the certificate this status: it is signed, by a signer trusted to
   answer for the issuer, and its first response for the certificate says so at the instant.
   */
  ghost predicate Vouches(b: OcspBackend, response: Bytes, cert: Cert, issuer: Cert, q: OcspRequest,
                          status: ValidationStatus, delegated: Option<Cert>)
  {
    exists p, signer, sr ::
      && b.decodeResponse(response) == Ok(p)
      && SignedAs(b, p, signer, issuer, q.policy)
      && TrustedSigner(b, p, signer, issuer, q, delegated)
      && LookUp(b.codecs, p.responses, cert, issuer) == Ok(Some(sr))
      && StatusAt(sr, q.freshness, q.now) == Some(status)
  }

  /**
   A definite answer comes from a response a candidate's key verifies, whose signer is the
   issuer itself, a delegated responder with the waiver, or a delegated responder that is
   handed back for its own check; a delegated responder's path is accepted under the
   caller's own policy; and the answer is that of the first response for the certificate.
   */
  lemma {:induction false} DefiniteAnswerHasTrustedSigner(b: OcspBackend, response: Bytes, cert: Cert, issuer: Cert,
                                                          q: OcspRequest)
    requires CheckDetailed(b, response, cert, issuer, q).Ok?
    requires var s := CheckDetailed(b, response, cert, issuer, q).value.status; s.Valid? || s.Revoked?
    ensures var o := CheckDetailed(b, response, cert, issuer, q).value;
            Vouches(b, response, cert, issuer, q, o.status, o.delegated)
  {
    var p := b.decodeResponse(response).value;
    SignerIsTrusted(b, p, issuer, q);
    var sr := LookUp(b.codecs, p.responses, cert, issuer).value.value;
    assert StatusAt(sr, q.freshness, q.now) == Some(CheckDetailed(b, response, cert, issuer, q).value.status);
  }

  lemma {:induction false} SignerIsTrusted(b: OcspBackend, p: ParsedOcsp, issuer: Cert, q: OcspRequest)
    requires FirstSigner(b, p, p.embedded + [issuer], issuer, q.policy).Some?
    requires var signer := FirstSigner(b, p, p.embedded + [issuer], issuer, q.policy).value;
             Entitled(b, p, signer, issuer, q) && PathsOk(b, signer, issuer, q) && NonceOk(p, q)
    ensures var signer := FirstSigner(b, p, p.embedded + [issuer], issuer, q.policy).value;
            && SignedAs(b, p, signer, issuer, q.policy)
            && TrustedSigner(b, p, signer, issuer, q, if NeedsOwnCheck(signer, issuer) then Some(signer) else None)
  {
    var signer := FirstSigner(b, p, p.embedded + [issuer], issuer, q.policy).value;
    SignerIsACandidate(b, p, p.embedded + [issuer], issuer, q.policy);
    if !SameIdentity(signer, issuer) {
      EffectivePolicyIsIntersection(b.crypto, q.path.value.anchors, q.policy, q.path.value.policy,
                                    [signer] + q.path.value.chain, AtInstant(q.now, OcspResponder));
    }
  }

  // ----- the check, over the fields of certificates and responses -----

  /** The key of the candidate at `i` verifies the response under an allowed digest, and no key before it does. */
  ghost predicate VerifiesFirst(b: OcspBackend, p: ParsedOcsp, candidates: seq<Cert>, policy: SignaturePolicy, i: int) {
    && 0 <= i < |candidates| && b.responseVerifies(p, candidates[i]) && (policy.Strict? ==> !b.weakResponse(p))
    && forall j :: 0 <= j < i ==> !b.responseVerifies(p, candidates[j])
  }

  predicate SameNameAndKey(a: Cert, c: Cert) {
    a.subject == c.subject && a.spki == c.spki
  }

  /** The signer is the first candidate that verifies, or the issuer in place of one with its name and key. */
  ghost predicate IsSigner(b: OcspBackend, p: ParsedOcsp, issuer: Cert, policy: SignaturePolicy, signer: Cert) {
    exists i :: && VerifiesFirst(b, p, p.embedded + [issuer], policy, i)
                && var c := (p.embedded + [issuer])[i];
                   signer == if SameNameAndKey(c, issuer) then issuer else c
  }

  lemma {:induction false} FirstSignerAt(b: OcspBackend, p: ParsedOcsp, candidates: seq<Cert>, issuer: Cert,
                                         policy: SignaturePolicy, i: nat)
    requires VerifiesFirst(b, p, candidates, policy, i)
    ensures FirstSigner(b, p, candidates, issuer, policy) ==
            Some(if SameNameAndKey(candidates[i], issuer) then issuer else candidates[i])
  {
    if i > 0 {
      assert VerifiesFirst(b, p, candidates[1..], policy, i - 1);
      FirstSignerAt(b, p, candidates[1..], issuer, policy, i - 1);
    }
  }

  lemma {:induction false} SomeVerifiesFirst(b: OcspBackend, p: ParsedOcsp, candidates: seq<Cert>, issuer: Cert,
                                             policy: SignaturePolicy) returns (i: nat)
    requires FirstSigner(b, p, candidates, issuer, policy).Some?
    ensures VerifiesFirst(b, p, candidates, policy, i)
  {
    if ResponseSignedBy(b, p, candidates[0], policy) {
      return 0;
    }
    i := SomeVerifiesFirst(b, p, candidates[1..], issuer, policy);
    assert forall j :: 1 <= j < i + 1 ==> candidates[j] == candidates[1..][j - 1];
    i := i + 1;
  }

  lemma {:induction false} SignerMeans(b: OcspBackend, p: ParsedOcsp, issuer: Cert, policy: SignaturePolicy,
                                       signer: Cert)
    ensures FirstSigner(b, p, p.embedded + [issuer], issuer, policy) == Some(signer) <==>
            IsSigner(b, p, issuer, policy, signer)
  {
    var candidates := p.embedded + [issuer];
    if FirstSigner(b, p, candidates, issuer, policy) == Some(signer) {
      var i := SomeVerifiesFirst(b, p, candidates, issuer, policy);
      FirstSignerAt(b, p, candidates, issuer, policy, i);
    }
    if IsSigner(b, p, issuer, policy, signer) {
      var i :| && VerifiesFirst(b, p, candidates, policy, i)
               && signer == if SameNameAndKey(candidates[i], issuer) then issuer else candidates[i];
      FirstSignerAt(b, p, candidates, issuer, policy, i);
    }
  }

  /** The signer is the issuer, or issued and signed by it as a responder whose names it permits. */
  ghost predicate MayAnswerFor(b: OcspBackend, signer: Cert, issuer: Cert, policy: SignaturePolicy) {
    || SameNameAndKey(signer, issuer)
    || (&& signer.issuer == issuer.subject
        && b.crypto.signatureVerifies(signer, issuer) && (policy.Strict? ==> !b.crypto.weakSignature(signer))
        && b.delegatedProfileOk(signer)
        && Own(issuer).Ok? && CheckCert(MatcherOf(b.crypto.unicode), Own(issuer).value, signer).Ok?)
  }

  /** The response names the signer, by its subject or by the hash of its key. */
  predicate NamesSigner(b: OcspBackend, p: ParsedOcsp, signer: Cert) {
    match p.responderId
    case ByName(name) => name == signer.subject
    case ByKeyHash(hash) => hash == b.codecs.sha1(signer.publicKey)
  }

  /** The nonce sent comes back as it is or as an OCTET STRING, or not at all if that is tolerated. */
  predicate NonceEchoed(p: ParsedOcsp, q: OcspRequest) {
    match (q.nonce, p.nonce)
    case (None, _) => !q.requireNonce
    case (Some(sent), None) => !q.requireNonce
    case (Some(sent), Some(got)) => (q.requireNonce ==> sent != []) && (got == sent || got == EncodeTlv(0x04, sent))
  }

  /** The store accepts the chain for the role at the instant; weak digests only if caller and store both allow them. */
  ghost predicate PathHolds(b: OcspBackend, q: OcspRequest, chain: seq<Cert>, role: Role)
    requires q.path.Some?
  {
    var policy := if q.policy.AllowLegacy? && q.path.value.policy.AllowLegacy? then AllowLegacy else Strict;
    Accepts(b.crypto, q.path.value.anchors, policy, chain, Request(Some(q.now / TICKS), Some(role), q.now % TICKS != 0))
  }

  /**
   A supplied path starts at the issuer and is accepted; for another signer there is one, and
   it is accepted over it.
   */
  ghost predicate PathsHold(b: OcspBackend, q: OcspRequest, signer: Cert, issuer: Cert) {
    && (q.path.Some? ==> && q.path.value.chain != [] && q.path.value.chain[0] == issuer
                         && PathHolds(b, q, q.path.value.chain, IntermediateCa))
    && (!SameNameAndKey(signer, issuer) ==>
          q.path.Some? && PathHolds(b, q, [signer] + q.path.value.chain, OcspResponder))
  }

  /** Everything that makes the signer's word count at the instant. */
  ghost predicate SignerCounts(b: OcspBackend, p: ParsedOcsp, signer: Cert, issuer: Cert, q: OcspRequest) {
    && signer.notBefore * TICKS <= q.now <= signer.notAfter * TICKS
    && NamesSigner(b, p, signer) && MayAnswerFor(b, signer, issuer, q.policy)
    && PathsHold(b, q, signer, issuer)
    && NonceEchoed(p, q)
  }

  lemma {:induction false} SignerCountsMeans(b: OcspBackend, p: ParsedOcsp, signer: Cert, issuer: Cert, q: OcspRequest)
    ensures SignerCounts(b, p, signer, issuer, q) <==>
            && (q.requireNonce ==> q.nonce.Some? && q.nonce.value != [])
            && Entitled(b, p, signer, issuer, q) && PathsOk(b, signer, issuer, q) && NonceOk(p, q)
  {
    if q.nonce.Some? && p.nonce.Some? {
      NonceMatchesExactlyTwo(q.nonce.value, p.nonce.value);
    }
  }

  /** The waiver: an ocsp-nocheck extension whose value is NULL. */
  predicate CarriesWaiver(cert: Cert) {
    Extension(OcspNoCheckOid, false, [0x05, 0x00]) in cert.extensions
    || Extension(OcspNoCheckOid, true, [0x05, 0x00]) in cert.extensions
  }

  lemma {:induction false} WaiverMeans(cert: Cert)
    ensures HasNoCheck(cert) <==> CarriesWaiver(cert)
  {
    if HasNoCheck(cert) {
      var i :| && 0 <= i < |cert.extensions| && cert.extensions[i].oid == OcspNoCheckOid
               && cert.extensions[i].value == [0x05, 0x00];
      assert cert.extensions[i] == Extension(OcspNoCheckOid, cert.extensions[i].critical, [0x05, 0x00]);
      assert cert.extensions[i] in cert.extensions;
    }
  }

  /**
   The outcome of the check, exactly: some signer verifies the response first, its word
   counts, and the first response for the certificate says so; a responder that is not the
   issuer and carries no waiver is handed back.
   */
  lemma {:induction false} CheckDetailedMeans(b: OcspBackend, response: Bytes, cert: Cert, issuer: Cert, q: OcspRequest,
                                              o: Outcome)
    ensures CheckDetailed(b, response, cert, issuer, q) == Ok(o) <==>
            exists p, signer ::
              && b.decodeResponse(response) == Ok(p)
              && IsSigner(b, p, issuer, q.policy, signer) && SignerCounts(b, p, signer, issuer, q)
              && match LookUp(b.codecs, p.responses, cert, issuer)
                 case Err(_) => false
                 case Ok(None) => o == Outcome(Unknown(NotCovered), None)
                 case Ok(Some(sr)) =>
                   && StatusAt(sr, q.freshness, q.now) == Some(o.status)
                   && o.delegated == if SameNameAndKey(signer, issuer) || CarriesWaiver(signer) then None
                        else Some(signer)
  {
    if b.decodeResponse(response).Ok? {
      var p := b.decodeResponse(response).value;
      forall signer
        ensures FirstSigner(b, p, p.embedded + [issuer], issuer, q.policy) == Some(signer) <==>
                IsSigner(b, p, issuer, q.policy, signer)
      {
        SignerMeans(b, p, issuer, q.policy, signer);
      }
      var found := FirstSigner(b, p, p.embedded + [issuer], issuer, q.policy);
      if found.Some? {
        SignerCountsMeans(b, p, found.value, issuer, q);
        WaiverMeans(found.value);
      }
    }
  }

  /**
   A response that echoes the CertID of the certificate with a printed answer, no earlier one
   being for it, revokes the certificate, once the response is accepted, exactly when the
   answer is revoked with a date not after the instant, and with that reason and date.
   */
  lemma {:induction false} RevokedExactlyWhenAnswered(b: OcspBackend, response: Bytes, p: ParsedOcsp, cert: Cert,
                                                      issuer: Cert, q: OcspRequest, i: nat, s: StatusSyntax,
                                                      thisUpdate: Bytes, next: Option<Bytes>)
    requires b.decodeResponse(response) == Ok(p) && CheckDetailed(b, response, cert, issuer, q).Ok?
    requires |CertIdBody(b.codecs, cert, issuer)| < LENGTH_LIMIT && |PrintAnswer(s, thisUpdate, next)| < LENGTH_LIMIT
    requires StatusMeaning(b.codecs, s).Some? && b.codecs.generalizedTime(thisUpdate).Some?
    requires next.Some? ==> b.codecs.generalizedTime(next.value).Some?
    requires i < |p.responses|
    requires ParseSingleResponse(b.codecs, BuildCertId(b.codecs, cert, issuer) + PrintAnswer(s, thisUpdate, next)) ==
             Ok(p.responses[i])
    requires forall j :: 0 <= j < i ==>
               !Identifies(p.responses[j], b.codecs.sha1(issuer.subject), b.codecs.sha1(issuer.publicKey),
                           ParseIntegerBody(cert.serial))
    ensures CheckDetailed(b, response, cert, issuer, q).value.status ==
            match s
            case GoodStatus => Valid(FromOcsp, q.now)
            case UnknownStatus => Unknown(ReportedUnknown)
            case RevokedStatus(time, reason) =>
              var at := b.codecs.generalizedTime(time).value;
              if at <= q.now then Revoked(FromOcsp, if reason.Some? then reason.value else 0, at)
                else Valid(FromOcsp, q.now)
  {
    AnswerReadsBack(b.codecs, s, thisUpdate, next);
    EchoedResponseParses(b.codecs, cert, issuer, PrintAnswer(s, thisUpdate, next));
    EchoIsMatched(b.codecs, p.responses, cert, issuer, PrintAnswer(s, thisUpdate, next), i);
    StatusAtMeans(p.responses[i], q.freshness, q.now);
  }
}
