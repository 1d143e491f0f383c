/**
 What a CRL says about a certificate at an instant, and whether it is still current
 (src/ltv/crl.rs).
 */
module CrlVerdicts {
  import opened Results
  import opened Der
  import opened DerIntegers
  import opened Certificates
  import opened CrlSyntax
  import opened Statuses

  /** Tolerances, in the unit of instants. */
  datatype Freshness = Freshness(clockSkew: int, maxAgeWithoutNextUpdate: int)

  datatype CrlCheckError =
    | CrlMalformed(cause: CrlError)
    | CrlNotSignedByIssuer
    | CrlStale
    | CrlOfOtherIssuer

  /** What the model takes from the cryptographic backend and the keyUsage check. */
  datatype CrlBackend = CrlBackend(
    codecs: Codecs,
    signatureVerifies: (ParsedCrl, Cert) -> bool,
    weakAlgorithm: Algorithm -> bool,
    maySignCrls: Cert -> bool)

  // ----- dates -----

  /** The dates of the CRL are in order and the instant is not past the end of its window. */
  predicate DatesOk(thisUpdate: int, nextUpdate: Option<int>, now: int, f: Freshness) {
    match nextUpdate
    case Some(next) => next >= thisUpdate && now <= next + f.clockSkew
    case None => now <= thisUpdate + f.maxAgeWithoutNextUpdate + f.clockSkew
  }

  /** The dates kept with a cached CRL. */
  datatype CrlValidity = CrlValidity(thisUpdate: int, nextUpdate: Option<int>)

  function ValidityOf(k: Codecs, der: Bytes): Option<CrlValidity> {
    match Meaning(k, der)
    case Ok(p) => Some(CrlValidity(p.thisUpdate, p.nextUpdate))
    case Err(_) => None
  }

  predicate IsCurrent(v: CrlValidity, now: int, f: Freshness) {
    now + f.clockSkew >= v.thisUpdate && DatesOk(v.thisUpdate, v.nextUpdate, now, f)
  }

  /** The CRL parses and the instant lies in its window. */
  predicate CrlIsCurrent(k: Codecs, der: Bytes, now: int, f: Freshness) {
    match Meaning(k, der)
    case Err(_) => false
    case Ok(p) =>
      if now + f.clockSkew < p.thisUpdate then false else DatesOk(p.thisUpdate, p.nextUpdate, now, f)
  }

  /** The stored dates decide currentness as a reparse would, at every instant and under every policy. */
  lemma {:induction false} StoredDatesStandInForReparse(k: Codecs, der: Bytes, v: CrlValidity)
    requires ValidityOf(k, der) == Some(v)
    ensures forall now, f :: IsCurrent(v, now, f) <==> CrlIsCurrent(k, der, now, f)
  {
  }

  // ----- the verdict -----

  /** The issuer may sign CRLs, is the CRL's issuer, and signed it with an allowed digest. */
  predicate SignatureAccepted(b: CrlBackend, p: ParsedCrl, issuer: Cert, policy: SignaturePolicy) {
    && b.maySignCrls(issuer)
    && issuer.subject == p.issuer
    && (policy.AllowLegacy? || !b.weakAlgorithm(p.algorithm))
    && b.signatureVerifies(p, issuer)
  }

  /** The first entry for the serial number. */
  function FirstEntry(entries: seq<RevokedEntry>, serial: Bytes): Option<RevokedEntry> {
    if entries == [] then None
    else if IntegerBodiesEqual(entries[0].serial, serial) then Some(entries[0])
    else FirstEntry(entries[1..], serial)
  }

  function EntryStatus(entry: Option<RevokedEntry>, now: int): ValidationStatus {
    match entry
    case Some(e) => if e.time > now then Valid(FromCrl, now) else Revoked(FromCrl, e.reason, e.time)
    case None => Valid(FromCrl, now)
  }

  function Verdict(b: CrlBackend, p: ParsedCrl, cert: Cert, issuer: Cert, policy: SignaturePolicy, f: Freshness,
                   now: int)
    : Result<ValidationStatus, CrlCheckError>
  {
    if !SignatureAccepted(b, p, issuer, policy) then Err(CrlNotSignedByIssuer)
    else if !DatesOk(p.thisUpdate, p.nextUpdate, now, f) then Err(CrlStale)
    else if p.issuer != cert.issuer then Err(CrlOfOtherIssuer)
    else Ok(EntryStatus(FirstEntry(p.entries, ParseIntegerBody(cert.serial)), now))
  }

  /** The verdict on the bytes of a CRL. */
  function CheckCrl(b: CrlBackend, der: Bytes, cert: Cert, issuer: Cert, policy: SignaturePolicy, f: Freshness,
                    now: int)
    : Result<ValidationStatus, CrlCheckError>
  {
    match Meaning(b.codecs, der)
    case Err(e) => Err(CrlMalformed(e))
    case Ok(p) => Verdict(b, p, cert, issuer, policy, f, now)
  }

  /** The loop over the revoked entries, with the verdict on the first that matches. */
  method SearchEntries(entries: seq<RevokedEntry>, serial: Bytes, now: int) returns (status: ValidationStatus)
    ensures status == EntryStatus(FirstEntry(entries, serial), now)
  {
    for i := 0 to |entries|
      invariant FirstEntry(entries, serial) == FirstEntry(entries[i..], serial)
    {
      assert entries[i..][1..] == entries[i + 1..];
      if IntegerBodiesEqual(entries[i].serial, serial) {
        if entries[i].time > now {
          return Valid(FromCrl, now);
        }
        return Revoked(FromCrl, entries[i].reason, entries[i].time);
      }
    }
    return Valid(FromCrl, now);
  }

  method CheckRevocation(b: CrlBackend, der: Bytes, cert: Cert, issuer: Cert, policy: SignaturePolicy, f: Freshness,
                         now: int)
    returns (r: Result<ValidationStatus, CrlCheckError>)
    ensures r == CheckCrl(b, der, cert, issuer, policy, f, now)
  {
    var parsed := ParseCrl(b.codecs, der);
    if parsed.Err? {
      return Err(CrlMalformed(parsed.error));
    }
    var p := parsed.value;
    if !SignatureAccepted(b, p, issuer, policy) {
      return Err(CrlNotSignedByIssuer);
    }
    if !DatesOk(p.thisUpdate, p.nextUpdate, now, f) {
      return Err(CrlStale);
    }
    if p.issuer != cert.issuer {
      return Err(CrlOfOtherIssuer);
    }
    var status := SearchEntries(p.entries, ParseIntegerBody(cert.serial), now);
    return Ok(status);
  }

  /** The entry at `i` is the first that matches the serial number. */
  ghost predicate IsFirstEntry(entries: seq<RevokedEntry>, serial: Bytes, i: int) {
    && 0 <= i < |entries| && IntegerBodiesEqual(entries[i].serial, serial)
    && forall j :: 0 <= j < i ==> !IntegerBodiesEqual(entries[j].serial, serial)
  }

  lemma {:induction false} FirstEntryInTail(entries: seq<RevokedEntry>, serial: Bytes, i: int)
    requires entries != [] && !IntegerBodiesEqual(entries[0].serial, serial)
    ensures IsFirstEntry(entries, serial, i) <==> IsFirstEntry(entries[1..], serial, i - 1)
  {
    if IsFirstEntry(entries[1..], serial, i - 1) {
      assert forall j :: 1 <= j < i ==> entries[j] == entries[1..][j - 1];
    }
  }

  /** The entry a verdict rests on is the first that matches the serial, and without one none matches. */
  lemma {:induction false} FirstEntryIsFirst(entries: seq<RevokedEntry>, serial: Bytes)
    ensures FirstEntry(entries, serial).None? <==> forall e <- entries :: !IntegerBodiesEqual(e.serial, serial)
    ensures FirstEntry(entries, serial).Some? ==>
              exists i :: IsFirstEntry(entries, serial, i) && entries[i] == FirstEntry(entries, serial).value
  {
    if entries != [] && IntegerBodiesEqual(entries[0].serial, serial) {
      assert entries[0] in entries && IsFirstEntry(entries, serial, 0);
    } else if entries != [] {
      FirstEntryIsFirst(entries[1..], serial);
      assert forall e :: e in entries <==> e == entries[0] || e in entries[1..];
      if FirstEntry(entries, serial).Some? {
        var i :| IsFirstEntry(entries[1..], serial, i) && entries[1..][i] == FirstEntry(entries, serial).value;
        FirstEntryInTail(entries, serial, i + 1);
      }
    }
  }

  // ----- what a verdict needs -----

  /**
   A CRL gives a verdict exactly when it parses, the issuer may sign CRLs, names it and the
   certificate as its own, and its key verifies the CRL under an allowed digest, and the
   instant is not past the CRL's window, whose ends are in order.
   */
  lemma {:induction false} CheckCrlMeans(b: CrlBackend, der: Bytes, cert: Cert, issuer: Cert, policy: SignaturePolicy,
                                         f: Freshness, now: int)
    ensures CheckCrl(b, der, cert, issuer, policy, f, now).Ok? <==>
            && Meaning(b.codecs, der).Ok?
            && var p := Meaning(b.codecs, der).value;
               && b.signatureVerifies(p, issuer) && b.maySignCrls(issuer)
               && (policy.Strict? ==> !b.weakAlgorithm(p.algorithm))
               && issuer.subject == p.issuer == cert.issuer
               && match p.nextUpdate
                  case Some(next) => p.thisUpdate <= next && now <= next + f.clockSkew
                  case None => now <= p.thisUpdate + f.maxAgeWithoutNextUpdate + f.clockSkew
  {
  }

  /** Dates are current from a skew before thisUpdate up to the end of the window. */
  lemma {:induction false} CurrentMeans(v: CrlValidity, now: int, f: Freshness)
    ensures IsCurrent(v, now, f) <==>
            && v.thisUpdate - f.clockSkew <= now
            && match v.nextUpdate
               case Some(next) => v.thisUpdate <= next && now <= next + f.clockSkew
               case None => now <= v.thisUpdate + f.maxAgeWithoutNextUpdate + f.clockSkew
  {
  }

  // ----- what a verdict says about the listed serial numbers -----

  function Listed(c: CrlSyntax): seq<EntrySyntax> {
    if c.tbs.revoked.Some? then c.tbs.revoked.value else []
  }

  /** The entry at `i` is the first that lists the serial number. */
  ghost predicate IsFirstListing(es: seq<EntrySyntax>, serial: Bytes, i: int) {
    0 <= i < |es| && es[i].serial == serial && forall j :: 0 <= j < i ==> es[j].serial != serial
  }

  lemma {:induction false} ListingInTail(es: seq<EntrySyntax>, serial: Bytes, i: int)
    requires es != [] && es[0].serial != serial
    ensures IsFirstListing(es, serial, i) <==> IsFirstListing(es[1..], serial, i - 1)
  {
    if IsFirstListing(es[1..], serial, i - 1) {
      assert forall j :: 1 <= j < i ==> es[j] == es[1..][j - 1];
    }
  }

  /**
   The first reported entry is the answer when the first listing has the serial number;
   otherwise the rest decides.
   */
  lemma {:induction false} FirstEntrySteps(k: Codecs, es: seq<EntrySyntax>, serial: Bytes)
    requires es != [] && forall e <- es :: EntryOk(k, e)
    requires MinimalNonNegative(es[0].serial) && MinimalNonNegative(serial)
    ensures FirstEntry(EntryViews(k, es), ParseIntegerBody(serial)) ==
            if es[0].serial == serial then Some(EntryView(k, es[0]))
            else FirstEntry(EntryViews(k, es[1..]), ParseIntegerBody(serial))
  {
    StrippedEquality(es[0].serial, serial);
    assert EntryViews(k, es)[1..] == EntryViews(k, es[1..]);
  }

  /** The first matching entry of the reported list is the first listing of the serial number. */
  lemma {:induction false} FirstEntryIsFirstListing(k: Codecs, es: seq<EntrySyntax>, serial: Bytes)
    returns (at: Option<nat>)
    requires forall e <- es :: EntryOk(k, e) && MinimalNonNegative(e.serial)
    requires MinimalNonNegative(serial)
    ensures at.Some? ==> IsFirstListing(es, serial, at.value)
                         && FirstEntry(EntryViews(k, es), ParseIntegerBody(serial)) == Some(EntryView(k, es[at.value]))
    ensures at.None? ==> FirstEntry(EntryViews(k, es), ParseIntegerBody(serial)).None?
                         && forall i :: !IsFirstListing(es, serial, i)
  {
    if es == [] {
      return None;
    }
    FirstEntrySteps(k, es, serial);
    if es[0].serial == serial {
      return Some(0);
    }
    at := FirstEntryIsFirstListing(k, es[1..], serial);
    forall i ensures IsFirstListing(es, serial, i) <==> IsFirstListing(es[1..], serial, i - 1) {
      ListingInTail(es, serial, i);
    }
    if at.Some? {
      assert es[1..][at.value] == es[at.value + 1];
      at := Some(at.value + 1);
    }
  }

  /**
   For minimal non-negative serial numbers, a printed CRL that is relied on revokes a
   certificate exactly when it lists its serial number, first in an entry dated not after
   the instant; and the verdict carries that entry's reason and date.
   */
  lemma {:induction false} RevokedExactlyWhenListed(b: CrlBackend, c: CrlSyntax, cert: Cert, issuer: Cert,
                                                    policy: SignaturePolicy, f: Freshness, now: int)
    requires CrlOk(b.codecs, c) && MinimalNonNegative(cert.serial)
    requires forall e <- Listed(c) :: MinimalNonNegative(e.serial)
    ensures var r, p := CheckCrl(b, PrintCrl(c), cert, issuer, policy, f, now), View(b.codecs, c);
            && (r.Ok? <==> TimelessOk(b, p, cert, issuer, policy) && now <= Cutoff(p, f))
            && (r.Ok? ==>
                  (r.value.Revoked? <==>
                   exists i :: && IsFirstListing(Listed(c), cert.serial, i)
                               && TimeValue(b.codecs, Listed(c)[i].date).value <= now))
            && (r.Ok? ==> forall i :: IsFirstListing(Listed(c), cert.serial, i) && r.value.Revoked? ==>
                  r.value == Revoked(FromCrl, Reason(Listed(c)[i].extensions),
                                     TimeValue(b.codecs, Listed(c)[i].date).value))
  {
    ParsePrintedCrl(b.codecs, c);
    VerdictIsAStepFunction(b, View(b.codecs, c), cert, issuer, policy, f, now);
    var at := FirstEntryIsFirstListing(b.codecs, Listed(c), cert.serial);
    if at.Some? {
      forall i | IsFirstListing(Listed(c), cert.serial, i) ensures i == at.value {
      }
    }
  }

  // ----- the verdict over time -----

  /** The checks that do not look at the instant. */
  predicate TimelessOk(b: CrlBackend, p: ParsedCrl, cert: Cert, issuer: Cert, policy: SignaturePolicy) {
    && SignatureAccepted(b, p, issuer, policy)
    && p.issuer == cert.issuer
    && (p.nextUpdate.Some? ==> p.thisUpdate <= p.nextUpdate.value)
  }

  /** The last instant at which the CRL is relied on. */
  function Cutoff(p: ParsedCrl, f: Freshness): int {
    match p.nextUpdate
    case Some(next) => next + f.clockSkew
    case None => p.thisUpdate + f.maxAgeWithoutNextUpdate + f.clockSkew
  }

  /**
   Over the validation time the verdict is a step function: valid before the first matching
   entry's revocation date, revoked with that entry from then on, an error past the cutoff;
   and an error throughout when a timeless check fails.
   */
  lemma {:induction false} VerdictIsAStepFunction(b: CrlBackend, p: ParsedCrl, cert: Cert, issuer: Cert,
                                                  policy: SignaturePolicy, f: Freshness, now: int)
    ensures Verdict(b, p, cert, issuer, policy, f, now).Ok? <==>
            TimelessOk(b, p, cert, issuer, policy) && now <= Cutoff(p, f)
    ensures TimelessOk(b, p, cert, issuer, policy) && now <= Cutoff(p, f) ==>
              match FirstEntry(p.entries, ParseIntegerBody(cert.serial))
              case None => Verdict(b, p, cert, issuer, policy, f, now) == Ok(Valid(FromCrl, now))
              case Some(e) =>
                && (now < e.time ==> Verdict(b, p, cert, issuer, policy, f, now) == Ok(Valid(FromCrl, now)))
                && (e.time <= now ==>
                    Verdict(b, p, cert, issuer, policy, f, now) == Ok(Revoked(FromCrl, e.reason, e.time)))
  {
    var entry := FirstEntry(p.entries, ParseIntegerBody(cert.serial));
    assert entry.Some? || entry.None?;
  }

  /** From a revoked verdict on, every later instant gives the same verdict or an error. */
  lemma {:induction false} RevocationIsNeverUndone(b: CrlBackend, p: ParsedCrl, cert: Cert, issuer: Cert,
                                                   policy: SignaturePolicy, f: Freshness, t1: int, t2: int)
    requires t1 <= t2
    ensures var v1, v2 := Verdict(b, p, cert, issuer, policy, f, t1), Verdict(b, p, cert, issuer, policy, f, t2);
            && (v1.Ok? && v1.value.Revoked? ==> v2 == v1 || v2.Err?)
            && (v1.Err? ==> v2.Err?)
            && (v2.Ok? && v2.value.Valid? ==> v1.Ok? && v1.value.Valid?)
  {
    VerdictIsAStepFunction(b, p, cert, issuer, policy, f, t1);
    VerdictIsAStepFunction(b, p, cert, issuer, policy, f, t2);
  }

  /** A stricter signature policy only turns verdicts into errors. */
  lemma {:induction false} VerdictMonotoneInPolicy(b: CrlBackend, p: ParsedCrl, cert: Cert, issuer: Cert, f: Freshness,
                                                   now: int)
    ensures var strict := Verdict(b, p, cert, issuer, Strict, f, now);
            strict.Ok? ==> Verdict(b, p, cert, issuer, AllowLegacy, f, now) == strict
  {
  }

  // ----- choosing among distribution points -----

  /** What one distribution point gave: a body and the instant it was looked at, or nothing. */
  datatype FetchOutcome = Fetched(der: Bytes, at: int) | FetchFailed

  predicate GivesCurrent(current: (Bytes, int) -> bool, o: FetchOutcome) {
    o.Fetched? && current(o.der, o.at)
  }

  /** The body kept is that of the first distribution point that gave one. */
  ghost predicate IsFirstFetched(outcomes: seq<FetchOutcome>, der: Bytes) {
    exists i :: 0 <= i < |outcomes| && outcomes[i].Fetched? && der == outcomes[i].der
                && forall j :: 0 <= j < i ==> outcomes[j].FetchFailed?
  }

  /** The body is that of the first distribution point that gave a current one. */
  ghost predicate IsFirstCurrent(current: (Bytes, int) -> bool, outcomes: seq<FetchOutcome>, der: Bytes) {
    exists i :: 0 <= i < |outcomes| && GivesCurrent(current, outcomes[i]) && der == outcomes[i].der
                && forall j :: 0 <= j < i ==> !GivesCurrent(current, outcomes[j])
  }

  /** The loop over the distribution points: the first current body, else the first body, else none. */
  method SelectCrl(current: (Bytes, int) -> bool, outcomes: seq<FetchOutcome>) returns (r: seq<Bytes>)
    ensures r == [] <==> forall o <- outcomes :: o.FetchFailed?
    ensures (exists o <- outcomes :: GivesCurrent(current, o)) ==>
              |r| == 1 && IsFirstCurrent(current, outcomes, r[0])
    ensures (forall o <- outcomes :: !GivesCurrent(current, o)) && r != [] ==>
              |r| == 1 && IsFirstFetched(outcomes, r[0])
  {
    var staleFallback: Option<Bytes> := None;
    for i := 0 to |outcomes|
      invariant forall j :: 0 <= j < i ==> !GivesCurrent(current, outcomes[j])
      invariant staleFallback.None? <==> forall j :: 0 <= j < i ==> outcomes[j].FetchFailed?
      invariant staleFallback.Some? ==> IsFirstFetched(outcomes, staleFallback.value)
    {
      assert outcomes[i] in outcomes;
      match outcomes[i]
      case Fetched(der, at) =>
        if current(der, at) {
          return [der];
        }
        if staleFallback.None? {
          staleFallback := Some(der);
        }
      case FetchFailed =>
    }
    return if staleFallback.Some? then [staleFallback.value] else [];
  }

  /** The selection for a certificate, by the currentness of the CRL bodies themselves. */
  method FetchCrlsForCert(k: Codecs, f: Freshness, outcomes: seq<FetchOutcome>) returns (r: seq<Bytes>)
    ensures r == [] <==> forall o <- outcomes :: o.FetchFailed?
    ensures (exists o <- outcomes :: GivesCurrent(Currentness(k, f), o)) ==>
              |r| == 1 && IsFirstCurrent(Currentness(k, f), outcomes, r[0])
    ensures (forall o <- outcomes :: !GivesCurrent(Currentness(k, f), o)) && r != [] ==>
              |r| == 1 && IsFirstFetched(outcomes, r[0])
  {
    r := SelectCrl(Currentness(k, f), outcomes);
  }

  function Currentness(k: Codecs, f: Freshness): (Bytes, int) -> bool {
    (der, at) => CrlIsCurrent(k, der, at, f)
  }
}
