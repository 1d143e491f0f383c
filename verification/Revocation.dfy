/**
 The revocation orchestrator (src/ltv/revocation.rs): two concurrent sources under one
 deadline, a priority merge, a fail-closed policy, and bounded recursion into delegated
 OCSP responders (section 4.2.2.2.1 of RFC 6960).
 */
module Revocation {
  import opened Results
  import opened Der
  import opened Certificates
  import opened Statuses
  import opened CrlVerdicts
  import opened OcspChecks

  // ----- collecting the two results -----

  /** What one poll of the select sees: which source is ready, and whether the deadline has passed. */
  datatype Poll = Poll(ocspReady: bool, crlReady: bool, deadline: bool)

  /** Readiness persists until consumed, and the deadline passes at the latest at the last poll. */
  ghost predicate Schedule(polls: seq<Poll>) {
    && polls != [] && polls[|polls| - 1].deadline
    && forall i, j :: 0 <= i <= j < |polls| ==>
         && (polls[i].ocspReady ==> polls[j].ocspReady)
         && (polls[i].crlReady ==> polls[j].crlReady)
         && (polls[i].deadline ==> polls[j].deadline)
  }

  /** The first poll that sees the deadline. */
  ghost predicate IsDeadlinePoll(polls: seq<Poll>, d: nat) {
    d < |polls| && polls[d].deadline && forall i :: 0 <= i < d ==> !polls[i].deadline
  }

  /** What the select sees at its `n`-th poll; past the end of the list nothing changes any more. */
  function At(polls: seq<Poll>, n: nat): Poll
    requires polls != []
  {
    if n < |polls| then polls[n] else polls[|polls| - 1]
  }

  /** The other source, ready first exactly at the deadline poll, buys OCSP one more poll, and OCSP is ready there. */
  ghost predicate OcspLate(polls: seq<Poll>, d: nat)
    requires polls != []
  {
    !At(polls, d).ocspReady && At(polls, d).crlReady && (d > 0 ==> !At(polls, d - 1).crlReady)
      && At(polls, d + 1).ocspReady
  }

  ghost predicate CrlLate(polls: seq<Poll>, d: nat)
    requires polls != []
  {
    !At(polls, d).crlReady && At(polls, d).ocspReady && (d > 0 ==> !At(polls, d - 1).ocspReady)
      && At(polls, d + 1).crlReady
  }

  /**
   The biased select loop, for every schedule: a source ends with its own result exactly
   when it was ready at the deadline poll, or at the next one after the other source was
   taken exactly at the deadline poll; otherwise it is unknown.
   */
  method CollectRevocationResults(polls: seq<Poll>, ocsp: ValidationStatus, crl: ValidationStatus, ghost d: nat)
    returns (ocspStatus: ValidationStatus, crlStatus: ValidationStatus)
    requires Schedule(polls) && IsDeadlinePoll(polls, d)
    ensures ocspStatus == if polls[d].ocspReady || OcspLate(polls, d) then ocsp else Unknown(TimedOut(FromOcsp))
    ensures crlStatus == if polls[d].crlReady || CrlLate(polls, d) then crl else Unknown(TimedOut(FromCrl))
  {
    var ocspSlot: Option<ValidationStatus> := None;
    var crlSlot: Option<ValidationStatus> := None;
    ghost var ocspAt, crlAt := 0, 0;
    var n := 0;
    while ocspSlot.None? || crlSlot.None?
      invariant ocspSlot.Some? ==> ocspSlot.value == ocsp && 0 <= ocspAt < n && At(polls, ocspAt).ocspReady
      invariant crlSlot.Some? ==> crlSlot.value == crl && 0 <= crlAt < n && At(polls, crlAt).crlReady
      invariant forall j: nat :: j < n && (ocspSlot.Some? ==> j < ocspAt) ==> !At(polls, j).ocspReady
      invariant forall j: nat :: j < n && (crlSlot.Some? ==> j < crlAt) && At(polls, j).crlReady ==>
                                   ocspSlot.Some? && j == ocspAt
      invariant n > d ==> (ocspSlot.Some? && ocspAt == d) || (crlSlot.Some? && crlAt == d)
      invariant n > d + 1 ==> (ocspSlot.Some? && ocspAt == d + 1) || (crlSlot.Some? && crlAt == d + 1)
      invariant n <= d + 2
      decreases (if ocspSlot.None? then 1 else 0) + (if crlSlot.None? then 1 else 0), |polls| - n
    {
      var poll := At(polls, n);
      if poll.ocspReady && ocspSlot.None? {
        ocspSlot, ocspAt := Some(ocsp), n;
      } else if poll.crlReady && crlSlot.None? {
        crlSlot, crlAt := Some(crl), n;
      } else if poll.deadline {
        break;
      }
      n := n + 1;
    }
    ocspStatus := if ocspSlot.Some? then ocspSlot.value else Unknown(TimedOut(FromOcsp));
    crlStatus := if crlSlot.Some? then crlSlot.value else Unknown(TimedOut(FromCrl));
  }

  /** A source that was not ready by the deadline can still be received: ready one poll after it. */
  method CollectLateResult(ocsp: ValidationStatus, crl: ValidationStatus)
    returns (polls: seq<Poll>, crlStatus: ValidationStatus)
    ensures Schedule(polls) && IsDeadlinePoll(polls, 1) && !polls[1].crlReady
    ensures crlStatus == crl
  {
    polls := [Poll(false, false, false), Poll(true, false, true), Poll(true, true, true)];
    assert CrlLate(polls, 1);
    var _, c := CollectRevocationResults(polls, ocsp, crl, 1);
    crlStatus := c;
  }

  // ----- merging and enforcing -----

  function MergePreferred(ocsp: ValidationStatus, crl: ValidationStatus, preferOcsp: bool): ValidationStatus {
    if preferOcsp then ResolvePriority(ocsp, crl) else ResolvePriority(crl, ocsp)
  }

  function EnforcePolicy(status: ValidationStatus, require: bool): ValidationStatus {
    if require && status.Unknown? then Invalid(Unestablished(status.why)) else status
  }

  function Final(ocsp: ValidationStatus, crl: ValidationStatus, preferOcsp: bool, require: bool): ValidationStatus {
    EnforcePolicy(MergePreferred(ocsp, crl, preferOcsp), require)
  }

  /**
   A received revocation always decides, under every policy and preference; a valid result
   needs one valid source and no revocation; the kind of the result never depends on the
   preference; and under a required check it is never unknown.
   */
  lemma {:induction false} FinalKinds(ocsp: ValidationStatus, crl: ValidationStatus, prefer: bool, require: bool)
    ensures Final(ocsp, crl, prefer, require).Revoked? <==> ocsp.Revoked? || crl.Revoked?
    ensures Final(ocsp, crl, prefer, require).Valid? <==> (ocsp.Valid? || crl.Valid?) && !ocsp.Revoked? && !crl.Revoked?
    ensures KindOf(Final(ocsp, crl, prefer, require)) == KindOf(Final(ocsp, crl, !prefer, require))
    ensures KindOf(Final(ocsp, crl, prefer, require)) == KindOf(Final(crl, ocsp, prefer, require))
    ensures require ==> !Final(ocsp, crl, prefer, require).Unknown?
    ensures !require ==> (Final(ocsp, crl, prefer, require).Unknown? <==> ocsp.Unknown? && crl.Unknown?)
    ensures (Final(ocsp, crl, prefer, require).Valid? || Final(ocsp, crl, prefer, require).Revoked?) ==>
              Final(ocsp, crl, prefer, require) in {ocsp, crl}
  {
  }

  /** The merged result of every schedule; a revocation ready by the deadline is the final result. */
  method CollectAndDecide(polls: seq<Poll>, ocsp: ValidationStatus, crl: ValidationStatus, prefer: bool, require: bool,
                          ghost d: nat)
    returns (r: ValidationStatus)
    requires Schedule(polls) && IsDeadlinePoll(polls, d)
    ensures r == Final(if polls[d].ocspReady || OcspLate(polls, d) then ocsp else Unknown(TimedOut(FromOcsp)),
                       if polls[d].crlReady || CrlLate(polls, d) then crl else Unknown(TimedOut(FromCrl)),
                       prefer, require)
    ensures (polls[d].ocspReady && ocsp.Revoked?) || (polls[d].crlReady && crl.Revoked?) ==> r.Revoked?
    ensures r.Revoked? ==> r == ocsp || r == crl
    ensures r.Valid? ==> r == ocsp || r == crl
    ensures require ==> !r.Unknown?
  {
    var o, c := CollectRevocationResults(polls, ocsp, crl, d);
    FinalKinds(o, c, prefer, require);
    r := Final(o, c, prefer, require);
  }

  // ----- the whole check, over an arbitrary environment -----

  datatype Config = Config(
    preferOcsp: bool,
    requireRevocationCheck: bool,
    useOcspNonce: bool,
    requireNonce: bool)

  /**
   The environment, arbitrary at each recursion level: which URLs a certificate names, what
   is fetched, what times out, which source is received before the deadline, and how
   responses and CRLs check.
   */
  datatype World = World(
    hasOcspUrls: Cert -> bool,
    hasCrlUrls: Cert -> bool,
    ocspFetch: (Cert, nat) -> Option<(Bytes, Option<Bytes>)>,
    crlFetch: (Cert, nat) -> Option<Bytes>,
    ocspTimesOut: (Cert, nat) -> bool,
    crlTimesOut: (Cert, nat) -> bool,
    ocspReceived: (Cert, nat) -> bool,
    crlReceived: (Cert, nat) -> bool,
    ocspCheck: (nat, Bytes, Option<Bytes>, Cert, Cert) -> Result<Outcome, LtvError>,
    crlCheck: (nat, Bytes, Cert, Cert) -> Result<ValidationStatus, CrlCheckError>)

  function OcspErrorStatus(e: LtvError): ValidationStatus {
    match e
    case ResponderStatus => Unknown(ResponderUnavailable)
    case OcspFailure => Invalid(FailedValidation)
  }

  function RunCrl(w: World, level: nat, cert: Cert, issuer: Cert): ValidationStatus {
    if !w.hasCrlUrls(cert) then Unknown(NoUrl(FromCrl))
    else if w.crlTimesOut(cert, level) then Unknown(TimedOut(FromCrl))
    else
      match w.crlFetch(cert, level)
      case None => Unknown(NotFetched(FromCrl))
      case Some(der) =>
        match w.crlCheck(level, der, cert, issuer)
        case Ok(status) => status
        case Err(_) => Invalid(FailedValidation)
  }

  /** The OCSP check, with `level` delegated responders left that may be checked. */
  function RunOcsp(w: World, c: Config, level: nat, cert: Cert, issuer: Cert): ValidationStatus
    decreases level, 0
  {
    if c.requireNonce && !c.useOcspNonce then Invalid(NonceDisabled)
    else if !w.hasOcspUrls(cert) then Unknown(NoUrl(FromOcsp))
    else if w.ocspTimesOut(cert, level) then Unknown(TimedOut(FromOcsp))
    else
      match w.ocspFetch(cert, level)
      case None => Unknown(NotFetched(FromOcsp))
      case Some((response, nonce)) =>
        match w.ocspCheck(level, response, if c.useOcspNonce then nonce else None, cert, issuer)
        case Err(e) => OcspErrorStatus(e)
        case Ok(o) =>
          match o.delegated
          case None => o.status
          case Some(responder) =>
            if level == 0 then Invalid(ResponderUnchecked)
            else
              var s := Check(w, c, level - 1, responder, issuer);
              if s.Revoked? || s.Invalid? then Invalid(ResponderRefused)
              else o.status
  }

  /** The merged and enforced result for a certificate; at the top, `level` is `max_ocsp_recursion`. */
  function Check(w: World, c: Config, level: nat, cert: Cert, issuer: Cert): ValidationStatus
    decreases level, 1
  {
    Final(if w.ocspReceived(cert, level) then RunOcsp(w, c, level, cert, issuer) else Unknown(TimedOut(FromOcsp)),
          if w.crlReceived(cert, level) then RunCrl(w, level, cert, issuer) else Unknown(TimedOut(FromCrl)),
          c.preferOcsp, c.requireRevocationCheck)
  }

  /** Under a required check the result is never unknown. */
  lemma {:induction false} NeverUnknown(w: World, c: Config, level: nat, cert: Cert, issuer: Cert)
    requires c.requireRevocationCheck
    ensures !Check(w, c, level, cert, issuer).Unknown?
  {
  }

  /** A revocation one of the received sources reports is the result, at every level and under every policy. */
  lemma {:induction false} ReceivedRevocationDecides(w: World, c: Config, level: nat, cert: Cert, issuer: Cert)
    requires || (w.ocspReceived(cert, level) && RunOcsp(w, c, level, cert, issuer).Revoked?)
             || (w.crlReceived(cert, level) && RunCrl(w, level, cert, issuer).Revoked?)
    ensures Check(w, c, level, cert, issuer).Revoked?
  {
  }

  /** The responder the received OCSP answer leaves to be checked. */
  function Delegate(w: World, c: Config, level: nat, cert: Cert, issuer: Cert): Option<Cert> {
    match w.ocspFetch(cert, level)
    case None => None
    case Some((response, nonce)) =>
      match w.ocspCheck(level, response, if c.useOcspNonce then nonce else None, cert, issuer)
      case Err(_) => None
      case Ok(o) => o.delegated
  }

  lemma {:induction false} OcspSeesOnlyTheKind(w: World, c: Config, c': Config, level: nat, cert: Cert, issuer: Cert)
    requires c' == c.(preferOcsp := c'.preferOcsp)
    requires level > 0 && Delegate(w, c, level, cert, issuer).Some? ==>
               var responder := Delegate(w, c, level, cert, issuer).value;
               KindOf(Check(w, c, level - 1, responder, issuer)) == KindOf(Check(w, c', level - 1, responder, issuer))
    ensures RunOcsp(w, c, level, cert, issuer) == RunOcsp(w, c', level, cert, issuer)
  {
    if level > 0 && Delegate(w, c, level, cert, issuer).Some? {
      var responder := Delegate(w, c, level, cert, issuer).value;
      var s, s' := Check(w, c, level - 1, responder, issuer), Check(w, c', level - 1, responder, issuer);
      assert (s.Revoked? <==> s'.Revoked?) && (s.Invalid? <==> s'.Invalid?);
    }
  }

  /** The preference never changes the OCSP result nor the kind of the final one, through all delegated responders. */
  lemma {:induction false} PreferenceNeverMatters(w: World, c: Config, c': Config, level: nat, cert: Cert, issuer: Cert)
    requires c' == c.(preferOcsp := c'.preferOcsp)
    ensures RunOcsp(w, c, level, cert, issuer) == RunOcsp(w, c', level, cert, issuer)
    ensures KindOf(Check(w, c, level, cert, issuer)) == KindOf(Check(w, c', level, cert, issuer))
    decreases level
  {
    if level > 0 && Delegate(w, c, level, cert, issuer).Some? {
      PreferenceNeverMatters(w, c, c', level - 1, Delegate(w, c, level, cert, issuer).value, issuer);
    }
    OcspSeesOnlyTheKind(w, c, c', level, cert, issuer);
    var ocsp := if w.ocspReceived(cert, level) then RunOcsp(w, c, level, cert, issuer) else Unknown(TimedOut(FromOcsp));
    var crl := if w.crlReceived(cert, level) then RunCrl(w, level, cert, issuer) else Unknown(TimedOut(FromCrl));
    FinalKinds(ocsp, crl, c.preferOcsp, c.requireRevocationCheck);
  }

  // ----- evidence -----

  /**
   A tree of accepted CRLs and OCSP responses; a delegated responder carries its own
   evidence, or is left open.
   */
  datatype Evidence =
    | CrlEvidence(der: Bytes)
    | OcspEvidence(response: Bytes, nonce: Option<Bytes>)
    | DelegatedEvidence(response: Bytes, nonce: Option<Bytes>, responder: Cert, own: Evidence)
    | OpenEvidence(response: Bytes, nonce: Option<Bytes>, responder: Cert)

  /** The CRL source was received, and this CRL gave the status. */
  predicate CrlGave(w: World, level: nat, cert: Cert, issuer: Cert, der: Bytes, status: ValidationStatus) {
    && w.crlReceived(cert, level) && w.hasCrlUrls(cert) && !w.crlTimesOut(cert, level)
    && w.crlFetch(cert, level) == Some(der)
    && w.crlCheck(level, der, cert, issuer) == Ok(status)
  }

  /** The OCSP source was received, and this response, asked for with this nonce, gave the outcome. */
  predicate OcspGave(w: World, c: Config, level: nat, cert: Cert, issuer: Cert, response: Bytes, nonce: Option<Bytes>,
                     o: Outcome) {
    && w.ocspReceived(cert, level) && w.hasOcspUrls(cert) && !w.ocspTimesOut(cert, level)
    && w.ocspFetch(cert, level).Some? && w.ocspFetch(cert, level).value.0 == response
    && nonce == (if c.useOcspNonce then w.ocspFetch(cert, level).value.1 else None)
    && w.ocspCheck(level, response, nonce, cert, issuer) == Ok(o)
  }

  /** The tree supports this status of the certificate; a responder is left open when its own check was unknown. */
  ghost predicate Supports(w: World, c: Config, level: nat, cert: Cert, issuer: Cert, status: ValidationStatus,
                           e: Evidence)
    decreases e
  {
    match e
    case CrlEvidence(der) => CrlGave(w, level, cert, issuer, der, status)
    case OcspEvidence(response, nonce) => OcspGave(w, c, level, cert, issuer, response, nonce, Outcome(status, None))
    case DelegatedEvidence(response, nonce, responder, own) =>
      && level > 0 && OcspGave(w, c, level, cert, issuer, response, nonce, Outcome(status, Some(responder)))
      && Check(w, c, level - 1, responder, issuer).Valid?
      && Supports(w, c, level - 1, responder, issuer, Check(w, c, level - 1, responder, issuer), own)
    case OpenEvidence(response, nonce, responder) =>
      && level > 0 && OcspGave(w, c, level, cert, issuer, response, nonce, Outcome(status, Some(responder)))
      && Check(w, c, level - 1, responder, issuer).Unknown?
  }

  /** No responder is left open. */
  predicate Complete(e: Evidence) {
    match e
    case DelegatedEvidence(_, _, _, own) => Complete(own)
    case OpenEvidence(_, _, _) => false
    case _ => true
  }

  /** The delegated links on the branch of the tree. */
  function Links(e: Evidence): nat {
    match e
    case DelegatedEvidence(_, _, _, own) => 1 + Links(own)
    case OpenEvidence(_, _, _) => 1
    case _ => 0
  }

  lemma {:induction false} LinksBounded(w: World, c: Config, level: nat, cert: Cert, issuer: Cert,
                                        status: ValidationStatus, e: Evidence)
    requires Supports(w, c, level, cert, issuer, status, e)
    ensures Links(e) <= level
    decreases e
  {
    if e.DelegatedEvidence? {
      LinksBounded(w, c, level - 1, e.responder, issuer, Check(w, c, level - 1, e.responder, issuer), e.own);
    }
  }

  predicate Definite(s: ValidationStatus) {
    s.Valid? || s.Revoked?
  }

  /** The CRL source was received and is what the result rests on. */
  predicate RestsOnCrl(w: World, c: Config, level: nat, cert: Cert, issuer: Cert) {
    w.crlReceived(cert, level) && RunCrl(w, level, cert, issuer) == Check(w, c, level, cert, issuer)
  }

  /** The results of the responders' own checks on the branch the result rests on. */
  function ResponderChecks(w: World, c: Config, level: nat, cert: Cert, issuer: Cert): seq<ValidationStatus>
    decreases level
  {
    if level == 0 || RestsOnCrl(w, c, level, cert, issuer) then []
    else
      match Delegate(w, c, level, cert, issuer)
      case None => []
      case Some(responder) =>
        [Check(w, c, level - 1, responder, issuer)] + ResponderChecks(w, c, level - 1, responder, issuer)
  }

  predicate NoneUnknown(ss: seq<ValidationStatus>) {
    forall i :: 0 <= i < |ss| ==> !ss[i].Unknown?
  }

  /** A definite result that does not rest on the CRL is the received OCSP result. */
  lemma {:induction false} RestsOnOcsp(w: World, c: Config, level: nat, cert: Cert, issuer: Cert)
    requires Definite(Check(w, c, level, cert, issuer)) && !RestsOnCrl(w, c, level, cert, issuer)
    ensures w.ocspReceived(cert, level) && RunOcsp(w, c, level, cert, issuer) == Check(w, c, level, cert, issuer)
  {
    var ocsp := if w.ocspReceived(cert, level) then RunOcsp(w, c, level, cert, issuer) else Unknown(TimedOut(FromOcsp));
    var crl := if w.crlReceived(cert, level) then RunCrl(w, level, cert, issuer) else Unknown(TimedOut(FromCrl));
    FinalKinds(ocsp, crl, c.preferOcsp, c.requireRevocationCheck);
  }

  /** A definite OCSP result is that of a response, whose responder, if to be checked, was not found wanting. */
  lemma {:induction false} DefiniteOcspResult(w: World, c: Config, level: nat, cert: Cert, issuer: Cert)
    returns (response: Bytes, nonce: Option<Bytes>)
    requires w.ocspReceived(cert, level) && Definite(RunOcsp(w, c, level, cert, issuer))
    ensures var d := Delegate(w, c, level, cert, issuer);
            && OcspGave(w, c, level, cert, issuer, response, nonce, Outcome(RunOcsp(w, c, level, cert, issuer), d))
            && (d.Some? ==> level > 0 && var s := Check(w, c, level - 1, d.value, issuer); s.Valid? || s.Unknown?)
  {
    response := w.ocspFetch(cert, level).value.0;
    nonce := if c.useOcspNonce then w.ocspFetch(cert, level).value.1 else None;
  }

  lemma {:induction false} RestsOnThatCrl(w: World, c: Config, level: nat, cert: Cert, issuer: Cert)
    requires Definite(Check(w, c, level, cert, issuer)) && RestsOnCrl(w, c, level, cert, issuer)
    ensures w.crlFetch(cert, level).Some?
            && CrlGave(w, level, cert, issuer, w.crlFetch(cert, level).value, Check(w, c, level, cert, issuer))
  {
  }

  /**
   For every environment and every policy, a valid or revoked result is supported by a finite
   tree of accepted evidence with at most `level` delegated links, which leaves a responder
   open only when a responder's own check on the branch was unknown.
   */
  lemma {:induction false} CheckSupported(w: World, c: Config, level: nat, cert: Cert, issuer: Cert)
    returns (e: Evidence)
    requires Definite(Check(w, c, level, cert, issuer))
    ensures Supports(w, c, level, cert, issuer, Check(w, c, level, cert, issuer), e)
    ensures Links(e) <= level
    ensures NoneUnknown(ResponderChecks(w, c, level, cert, issuer)) ==> Complete(e)
    decreases level
  {
    if RestsOnCrl(w, c, level, cert, issuer) {
      RestsOnThatCrl(w, c, level, cert, issuer);
      return CrlEvidence(w.crlFetch(cert, level).value);
    }
    RestsOnOcsp(w, c, level, cert, issuer);
    var response, nonce := DefiniteOcspResult(w, c, level, cert, issuer);
    match Delegate(w, c, level, cert, issuer)
    case None =>
      e := OcspEvidence(response, nonce);
    case Some(responder) =>
      var checks := ResponderChecks(w, c, level, cert, issuer);
      assert checks[0] == Check(w, c, level - 1, responder, issuer);
      if checks[0].Unknown? {
        e := OpenEvidence(response, nonce, responder);
      } else {
        var own := CheckSupported(w, c, level - 1, responder, issuer);
        e := DelegatedEvidence(response, nonce, responder, own);
        TailNoneUnknown(checks[0], ResponderChecks(w, c, level - 1, responder, issuer));
      }
  }

  lemma {:induction false} TailNoneUnknown(s: ValidationStatus, ss: seq<ValidationStatus>)
    ensures NoneUnknown([s] + ss) <==> !s.Unknown? && NoneUnknown(ss)
  {
    var all := [s] + ss;
    assert all[0] == s && forall i :: 0 <= i < |ss| ==> ss[i] == all[i + 1];
    assert forall j :: 1 <= j < |all| ==> all[j] == ss[j - 1];
  }

  lemma {:induction false} CompleteLeavesNoneUnknown(w: World, c: Config, level: nat, cert: Cert, issuer: Cert,
                                                     e: Evidence)
    requires Definite(Check(w, c, level, cert, issuer)) && Complete(e)
    requires Supports(w, c, level, cert, issuer, Check(w, c, level, cert, issuer), e)
    ensures NoneUnknown(ResponderChecks(w, c, level, cert, issuer))
    decreases level
  {
    if !RestsOnCrl(w, c, level, cert, issuer) && e.DelegatedEvidence? {
      CompleteLeavesNoneUnknown(w, c, level - 1, e.responder, issuer, e.own);
      TailNoneUnknown(Check(w, c, level - 1, e.responder, issuer),
                      ResponderChecks(w, c, level - 1, e.responder, issuer));
    }
  }

  ghost predicate HasCompleteEvidence(w: World, c: Config, level: nat, cert: Cert, issuer: Cert,
                                      status: ValidationStatus) {
    exists e :: Complete(e) && Supports(w, c, level, cert, issuer, status, e)
  }

  /**
   Under every policy, a definite result has complete evidence if and only if no responder's
   own check on the branch it rests on was unknown.
   */
  lemma {:induction false} CompleteExactlyWhenNoneUnknown(w: World, c: Config, level: nat, cert: Cert, issuer: Cert)
    requires Definite(Check(w, c, level, cert, issuer))
    ensures HasCompleteEvidence(w, c, level, cert, issuer, Check(w, c, level, cert, issuer)) <==>
            NoneUnknown(ResponderChecks(w, c, level, cert, issuer))
  {
    var result := Check(w, c, level, cert, issuer);
    var tree := CheckSupported(w, c, level, cert, issuer);
    if HasCompleteEvidence(w, c, level, cert, issuer, result) {
      var e :| Complete(e) && Supports(w, c, level, cert, issuer, result, e);
      CompleteLeavesNoneUnknown(w, c, level, cert, issuer, e);
    }
  }

  /** Under a required check no responder's own check is unknown, so the evidence is always complete. */
  lemma {:induction false} RequiredChecksAreNeverUnknown(w: World, c: Config, level: nat, cert: Cert, issuer: Cert)
    requires c.requireRevocationCheck
    ensures NoneUnknown(ResponderChecks(w, c, level, cert, issuer))
    decreases level
  {
    var checks := ResponderChecks(w, c, level, cert, issuer);
    if checks != [] {
      var responder := Delegate(w, c, level, cert, issuer).value;
      NeverUnknown(w, c, level - 1, responder, issuer);
      RequiredChecksAreNeverUnknown(w, c, level - 1, responder, issuer);
      TailNoneUnknown(Check(w, c, level - 1, responder, issuer), ResponderChecks(w, c, level - 1, responder, issuer));
    }
  }

  // ----- what the sources say decides -----

  /** A received response gives the status, and its responder, if it has to be checked, was not found wanting. */
  ghost predicate OcspSays(w: World, c: Config, level: nat, cert: Cert, issuer: Cert, status: ValidationStatus) {
    && (c.requireNonce ==> c.useOcspNonce)
    && exists response, nonce, delegated ::
         && OcspGave(w, c, level, cert, issuer, response, nonce, Outcome(status, delegated))
         && ResponderHolds(w, c, level, issuer, delegated)
  }

  /** No responder to check, or one within the budget that is valid or, as far as the policy lets it, unknown. */
  predicate ResponderHolds(w: World, c: Config, level: nat, issuer: Cert, delegated: Option<Cert>) {
    match delegated
    case None => true
    case Some(responder) =>
      level > 0 && var s := Check(w, c, level - 1, responder, issuer); s.Valid? || s.Unknown?
  }

  ghost predicate CrlSays(w: World, level: nat, cert: Cert, issuer: Cert, status: ValidationStatus) {
    exists der :: CrlGave(w, level, cert, issuer, der, status)
  }

  /** Nothing was learnt from OCSP, for want of a response or because the responder could not say. */
  ghost predicate OcspQuiet(w: World, c: Config, level: nat, cert: Cert, issuer: Cert) {
    || !w.ocspReceived(cert, level)
    || (&& (c.requireNonce ==> c.useOcspNonce)
        && (|| !w.hasOcspUrls(cert) || w.ocspTimesOut(cert, level) || w.ocspFetch(cert, level).None?
            || (var (response, nonce) := w.ocspFetch(cert, level).value;
                w.ocspCheck(level, response, if c.useOcspNonce then nonce else None, cert, issuer) ==
                  Err(ResponderStatus))
            || exists s: ValidationStatus :: s.Unknown? && OcspSays(w, c, level, cert, issuer, s)))
  }

  ghost predicate CrlQuiet(w: World, level: nat, cert: Cert, issuer: Cert) {
    || !w.crlReceived(cert, level)
    || !w.hasCrlUrls(cert) || w.crlTimesOut(cert, level) || w.crlFetch(cert, level).None?
    || exists s: ValidationStatus :: s.Unknown? && CrlSays(w, level, cert, issuer, s)
  }

  lemma {:induction false} OcspSaysMeans(w: World, c: Config, level: nat, cert: Cert, issuer: Cert,
                                         status: ValidationStatus)
    requires Definite(status)
    ensures OcspSays(w, c, level, cert, issuer, status) <==>
            w.ocspReceived(cert, level) && RunOcsp(w, c, level, cert, issuer) == status
  {
    if w.ocspReceived(cert, level) && RunOcsp(w, c, level, cert, issuer) == status {
      var response, nonce := DefiniteOcspResult(w, c, level, cert, issuer);
      assert ResponderHolds(w, c, level, issuer, Delegate(w, c, level, cert, issuer));
    }
  }

  lemma {:induction false} CrlSaysMeans(w: World, level: nat, cert: Cert, issuer: Cert, status: ValidationStatus)
    requires Definite(status)
    ensures CrlSays(w, level, cert, issuer, status) <==>
            w.crlReceived(cert, level) && RunCrl(w, level, cert, issuer) == status
  {
    if w.crlReceived(cert, level) && RunCrl(w, level, cert, issuer) == status {
      assert CrlGave(w, level, cert, issuer, w.crlFetch(cert, level).value, status);
    }
  }

  /** Some source gives a revoked status. */
  ghost predicate SomeRevoked(w: World, c: Config, level: nat, cert: Cert, issuer: Cert) {
    exists s: ValidationStatus ::
      s.Revoked? && (OcspSays(w, c, level, cert, issuer, s) || CrlSays(w, level, cert, issuer, s))
  }

  ghost predicate SomeValid(w: World, c: Config, level: nat, cert: Cert, issuer: Cert) {
    exists s: ValidationStatus ::
      s.Valid? && (OcspSays(w, c, level, cert, issuer, s) || CrlSays(w, level, cert, issuer, s))
  }

  /** The two parts that are merged. */
  function OcspPart(w: World, c: Config, level: nat, cert: Cert, issuer: Cert): ValidationStatus {
    if w.ocspReceived(cert, level) then RunOcsp(w, c, level, cert, issuer) else Unknown(TimedOut(FromOcsp))
  }

  function CrlPart(w: World, level: nat, cert: Cert, issuer: Cert): ValidationStatus {
    if w.crlReceived(cert, level) then RunCrl(w, level, cert, issuer) else Unknown(TimedOut(FromCrl))
  }

  lemma {:induction false} PartsSay(w: World, c: Config, level: nat, cert: Cert, issuer: Cert)
    ensures SomeRevoked(w, c, level, cert, issuer) <==>
            OcspPart(w, c, level, cert, issuer).Revoked? || CrlPart(w, level, cert, issuer).Revoked?
    ensures SomeValid(w, c, level, cert, issuer) <==>
            OcspPart(w, c, level, cert, issuer).Valid? || CrlPart(w, level, cert, issuer).Valid?
  {
    forall s: ValidationStatus | Definite(s)
      ensures OcspSays(w, c, level, cert, issuer, s) <==> OcspPart(w, c, level, cert, issuer) == s
      ensures CrlSays(w, level, cert, issuer, s) <==> CrlPart(w, level, cert, issuer) == s
    {
      OcspSaysMeans(w, c, level, cert, issuer, s);
      CrlSaysMeans(w, level, cert, issuer, s);
    }
  }

  /**
   The result is revoked exactly when some source gives a revoked status, whatever the other
   says, and valid exactly when one gives a valid status and none a revoked one; at every
   level, under every policy and preference.
   */
  lemma {:induction false} SourcesDecide(w: World, c: Config, level: nat, cert: Cert, issuer: Cert)
    ensures Check(w, c, level, cert, issuer).Revoked? <==> SomeRevoked(w, c, level, cert, issuer)
    ensures Check(w, c, level, cert, issuer).Valid? <==>
            SomeValid(w, c, level, cert, issuer) && !SomeRevoked(w, c, level, cert, issuer)
  {
    PartsSay(w, c, level, cert, issuer);
    FinalKinds(OcspPart(w, c, level, cert, issuer), CrlPart(w, level, cert, issuer), c.preferOcsp,
               c.requireRevocationCheck);
  }

  /** Between two statuses of the deciding kind the preferred source's is the result. */
  lemma {:induction false} PreferenceBreaksTies(w: World, c: Config, level: nat, cert: Cert, issuer: Cert,
                                                ocsp: ValidationStatus, crl: ValidationStatus)
    requires OcspSays(w, c, level, cert, issuer, ocsp) && CrlSays(w, level, cert, issuer, crl)
    requires (ocsp.Revoked? && crl.Revoked?) || (ocsp.Valid? && crl.Valid?)
    ensures Check(w, c, level, cert, issuer) == if c.preferOcsp then ocsp else crl
  {
    OcspSaysMeans(w, c, level, cert, issuer, ocsp);
    CrlSaysMeans(w, level, cert, issuer, crl);
  }

  lemma {:induction false} QuietParts(w: World, c: Config, level: nat, cert: Cert, issuer: Cert)
    ensures OcspQuiet(w, c, level, cert, issuer) <==> OcspPart(w, c, level, cert, issuer).Unknown?
    ensures CrlQuiet(w, level, cert, issuer) <==> CrlPart(w, level, cert, issuer).Unknown?
  {
    OcspQuietMeans(w, c, level, cert, issuer);
    if CrlPart(w, level, cert, issuer).Unknown? && !(
         || !w.crlReceived(cert, level)
         || !w.hasCrlUrls(cert) || w.crlTimesOut(cert, level) || w.crlFetch(cert, level).None?) {
      assert CrlGave(w, level, cert, issuer, w.crlFetch(cert, level).value, RunCrl(w, level, cert, issuer));
    }
  }

  lemma {:induction false} OcspQuietMeans(w: World, c: Config, level: nat, cert: Cert, issuer: Cert)
    ensures OcspQuiet(w, c, level, cert, issuer) <==> OcspPart(w, c, level, cert, issuer).Unknown?
  {
    if OcspPart(w, c, level, cert, issuer).Unknown? && w.ocspReceived(cert, level) && w.hasOcspUrls(cert)
       && !w.ocspTimesOut(cert, level) && w.ocspFetch(cert, level).Some? {
      var (response, fetched) := w.ocspFetch(cert, level).value;
      var nonce := if c.useOcspNonce then fetched else None;
      var checked := w.ocspCheck(level, response, nonce, cert, issuer);
      if checked.Ok? {
        assert OcspGave(w, c, level, cert, issuer, response, nonce, checked.value);
        assert ResponderHolds(w, c, level, issuer, checked.value.delegated);
        assert checked.value == Outcome(checked.value.status, checked.value.delegated);
        assert OcspSays(w, c, level, cert, issuer, checked.value.status);
      }
    }
  }

  /**
   The result is unknown exactly when nothing was learnt from either source and that is
   tolerated; else it is invalid.
   */
  lemma {:induction false} SilenceIsUnknown(w: World, c: Config, level: nat, cert: Cert, issuer: Cert)
    ensures Check(w, c, level, cert, issuer).Unknown? <==>
            !c.requireRevocationCheck && OcspQuiet(w, c, level, cert, issuer) && CrlQuiet(w, level, cert, issuer)
  {
    QuietParts(w, c, level, cert, issuer);
    FinalKinds(OcspPart(w, c, level, cert, issuer), CrlPart(w, level, cert, issuer), c.preferOcsp,
               c.requireRevocationCheck);
  }

  // ----- evidence that the real checks accept -----

  /** The instants the two sources read at each level; they differ when no validation time is given. */
  datatype Clock = Clock(ocsp: nat -> int, crl: nat -> int)

  /** The request at one level: with the nonce that was sent and the instant read there. */
  function RequestAt(q: OcspRequest, clock: Clock, level: nat, nonce: Option<Bytes>): OcspRequest {
    q.(nonce := nonce, now := clock.ocsp(level))
  }

  /** The environment checks responses and CRLs as the library does, each level by its own clock readings. */
  ghost predicate ChecksFor(w: World, ob: OcspBackend, cb: CrlBackend, q: OcspRequest, f: Freshness, clock: Clock) {
    && (forall l, r, n, c, i :: w.ocspCheck(l, r, n, c, i) == CheckDetailed(ob, r, c, i, RequestAt(q, clock, l, n)))
    && (forall l, der, c, i :: w.crlCheck(l, der, c, i) == CheckCrl(cb, der, c, i, q.policy, f, clock.crl(l)))
  }

  /** What a node's CRL must satisfy, and what its response with the responder left to check must. */
  type CrlTest = (nat, Bytes, Cert, Cert, ValidationStatus) -> bool
  type ResponseTest = (nat, Bytes, Option<Bytes>, Cert, Cert, Outcome) -> bool

  /** Every node of the tree satisfies its test, for the certificate and the status it speaks for. */
  ghost predicate AllNodes(crlTest: CrlTest, responseTest: ResponseTest, level: nat, cert: Cert, issuer: Cert,
                           status: ValidationStatus, e: Evidence)
    decreases e
  {
    match e
    case CrlEvidence(der) => crlTest(level, der, cert, issuer, status)
    case OcspEvidence(response, nonce) => responseTest(level, response, nonce, cert, issuer, Outcome(status, None))
    case DelegatedEvidence(response, nonce, responder, own) =>
      && responseTest(level, response, nonce, cert, issuer, Outcome(status, Some(responder)))
      && level > 0
      && exists s: ValidationStatus :: s.Valid? && AllNodes(crlTest, responseTest, level - 1, responder, issuer, s, own)
    case OpenEvidence(response, nonce, responder) =>
      responseTest(level, response, nonce, cert, issuer, Outcome(status, Some(responder)))
  }

  /** What the environment's checks accept satisfies the tests. */
  ghost predicate ChecksImply(w: World, crlTest: CrlTest, responseTest: ResponseTest) {
    && (forall l, der, c, i :: w.crlCheck(l, der, c, i).Ok? ==> crlTest(l, der, c, i, w.crlCheck(l, der, c, i).value))
    && (forall l, r, n, c, i :: w.ocspCheck(l, r, n, c, i).Ok? && Definite(w.ocspCheck(l, r, n, c, i).value.status) ==>
          responseTest(l, r, n, c, i, w.ocspCheck(l, r, n, c, i).value))
  }

  lemma {:induction false} SupportSatisfiesTests(w: World, c: Config, crlTest: CrlTest, responseTest: ResponseTest,
                                                 level: nat, cert: Cert, issuer: Cert, status: ValidationStatus,
                                                 e: Evidence)
    requires ChecksImply(w, crlTest, responseTest)
    requires Definite(status) && Supports(w, c, level, cert, issuer, status, e)
    ensures AllNodes(crlTest, responseTest, level, cert, issuer, status, e)
    decreases e
  {
    if e.DelegatedEvidence? {
      SupportSatisfiesTests(w, c, crlTest, responseTest, level - 1, e.responder, issuer,
                            Check(w, c, level - 1, e.responder, issuer), e.own);
    }
  }

  /** The CRL check gives the certificate exactly this status. */
  ghost function AcceptedCrl(cb: CrlBackend, q: OcspRequest, f: Freshness, clock: Clock): CrlTest {
    (l: nat, der, c, i, status) => CheckCrl(cb, der, c, i, q.policy, f, clock.crl(l)) == Ok(status)
  }

  /** The response is signed by a trusted signer and gives the certificate exactly this status. */
  ghost function AcceptedResponse(ob: OcspBackend, q: OcspRequest, clock: Clock): ResponseTest {
    (l: nat, r, n, c, i, o: Outcome) => Vouches(ob, r, c, i, RequestAt(q, clock, l, n), o.status, o.delegated)
  }

  /** Every node is a CRL or a signed response that gives its certificate the status the tree rests on. */
  ghost predicate Genuine(ob: OcspBackend, cb: CrlBackend, q: OcspRequest, f: Freshness, clock: Clock, level: nat,
                          cert: Cert, issuer: Cert, status: ValidationStatus, e: Evidence)
  {
    AllNodes(AcceptedCrl(cb, q, f, clock), AcceptedResponse(ob, q, clock), level, cert, issuer, status, e)
  }

  /** A response that no key verifies is evidence of nothing. */
  lemma {:induction false} UnsignedIsNoEvidence(ob: OcspBackend, cb: CrlBackend, q: OcspRequest, f: Freshness,
                                                clock: Clock, level: nat, cert: Cert, issuer: Cert,
                                                status: ValidationStatus, e: Evidence)
    requires forall p, signer :: !ob.responseVerifies(p, signer)
    requires Genuine(ob, cb, q, f, clock, level, cert, issuer, status, e)
    ensures e.CrlEvidence?
  {
  }

  /** Nor is a CRL that no key verifies; without either, nothing is evidence. */
  lemma {:induction false} NoKeyNoEvidence(ob: OcspBackend, cb: CrlBackend, q: OcspRequest, f: Freshness, clock: Clock,
                                           level: nat, cert: Cert, issuer: Cert, status: ValidationStatus, e: Evidence)
    requires forall p, signer :: !cb.signatureVerifies(p, signer)
    ensures e.CrlEvidence? ==> !Genuine(ob, cb, q, f, clock, level, cert, issuer, status, e)
    ensures (forall p, signer :: !ob.responseVerifies(p, signer)) ==>
              !Genuine(ob, cb, q, f, clock, level, cert, issuer, status, e)
  {
    if e.CrlEvidence? {
      CheckCrlMeans(cb, e.der, cert, issuer, q.policy, f, clock.crl(level));
    } else if forall p, signer :: !ob.responseVerifies(p, signer) {
      if Genuine(ob, cb, q, f, clock, level, cert, issuer, status, e) {
        UnsignedIsNoEvidence(ob, cb, q, f, clock, level, cert, issuer, status, e);
      }
    }
  }

  lemma {:induction false} LibraryChecksImply(w: World, ob: OcspBackend, cb: CrlBackend, q: OcspRequest, f: Freshness,
                                              clock: Clock)
    requires ChecksFor(w, ob, cb, q, f, clock)
    ensures ChecksImply(w, AcceptedCrl(cb, q, f, clock), AcceptedResponse(ob, q, clock))
  {
    forall l, r, n, c, i | w.ocspCheck(l, r, n, c, i).Ok? && Definite(w.ocspCheck(l, r, n, c, i).value.status)
      ensures AcceptedResponse(ob, q, clock)(l, r, n, c, i, w.ocspCheck(l, r, n, c, i).value)
    {
      DefiniteAnswerHasTrustedSigner(ob, r, c, i, RequestAt(q, clock, l, n));
    }
  }

  /**
   In the evidence behind a definite result every CRL is one that gives its certificate the
   status, and every OCSP response is signed, gives its certificate the status, and has as
   signer the issuer, a delegated responder with the waiver, or a delegated responder whose
   own evidence shows it valid or that is left open.
   */
  lemma {:induction false} SupportIsGenuine(w: World, ob: OcspBackend, cb: CrlBackend, q: OcspRequest, f: Freshness,
                                            clock: Clock, c: Config, level: nat, cert: Cert, issuer: Cert,
                                            status: ValidationStatus, e: Evidence)
    requires ChecksFor(w, ob, cb, q, f, clock)
    requires Definite(status) && Supports(w, c, level, cert, issuer, status, e)
    ensures Genuine(ob, cb, q, f, clock, level, cert, issuer, status, e)
  {
    LibraryChecksImply(w, ob, cb, q, f, clock);
    SupportSatisfiesTests(w, c, AcceptedCrl(cb, q, f, clock), AcceptedResponse(ob, q, clock), level, cert, issuer,
                          status, e);
  }

  /**
   The main result: for every environment whose responses and CRLs are checked by the
   library, and every policy, a valid or revoked result has a finite genuine evidence tree
   with at most `level` delegated links; under a required check the tree is complete. And
   whatever tree supports the result is genuine and as short.
   */
  lemma {:induction false} DefiniteResultHasGenuineEvidence(w: World, ob: OcspBackend, cb: CrlBackend, q: OcspRequest,
                                                            f: Freshness, clock: Clock, c: Config, level: nat,
                                                            cert: Cert, issuer: Cert)
    requires ChecksFor(w, ob, cb, q, f, clock)
    requires Definite(Check(w, c, level, cert, issuer))
    ensures exists e :: && Supports(w, c, level, cert, issuer, Check(w, c, level, cert, issuer), e)
                        && Genuine(ob, cb, q, f, clock, level, cert, issuer, Check(w, c, level, cert, issuer), e)
                        && Links(e) <= level
                        && (c.requireRevocationCheck ==> Complete(e))
    ensures forall e :: Supports(w, c, level, cert, issuer, Check(w, c, level, cert, issuer), e) ==>
                          && Genuine(ob, cb, q, f, clock, level, cert, issuer, Check(w, c, level, cert, issuer), e)
                          && Links(e) <= level
  {
    var result := Check(w, c, level, cert, issuer);
    forall e | Supports(w, c, level, cert, issuer, result, e)
      ensures Genuine(ob, cb, q, f, clock, level, cert, issuer, result, e) && Links(e) <= level
    {
      SupportIsGenuine(w, ob, cb, q, f, clock, c, level, cert, issuer, result, e);
      LinksBounded(w, c, level, cert, issuer, result, e);
    }
    var e := CheckSupported(w, c, level, cert, issuer);
    if c.requireRevocationCheck {
      RequiredChecksAreNeverUnknown(w, c, level, cert, issuer);
    }
  }
}
