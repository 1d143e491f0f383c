/**
 Building a chain from an unordered pool of certificates (src/trust/chain_build.rs).
 */
module ChainBuilding {
  import opened Results
  import opened Der
  import opened Certificates
  import opened PathChecks
  import opened TrustStores

  function Ders(chain: seq<Cert>): (ds: seq<Bytes>)
    ensures |ds| == |chain|
    ensures forall i :: 0 <= i < |chain| ==> ds[i] == chain[i].der
  {
    if chain == [] then [] else Ders(chain[..|chain| - 1]) + [chain[|chain| - 1].der]
  }

  /** The candidate carries the issuer's name and was not visited yet. */
  predicate Unvisited(current: Cert, visited: seq<Bytes>, candidate: Cert) {
    candidate.subject == current.issuer && candidate.der !in visited
  }

  predicate Eligible(k: Backend, policy: SignaturePolicy, current: Cert, visited: seq<Bytes>, candidate: Cert) {
    Unvisited(current, visited, candidate) && SignatureOk(k, current, candidate, policy)
  }

  /** `next` is the first eligible certificate of the pool. */
  ghost predicate IsFirstEligible(k: Backend, policy: SignaturePolicy, pool: seq<Cert>, current: Cert,
                                  visited: seq<Bytes>, next: Cert) {
    exists i :: 0 <= i < |pool| && pool[i] == next && Eligible(k, policy, current, visited, next)
                && forall j :: 0 <= j < i ==> !Eligible(k, policy, current, visited, pool[j])
  }

  /** The walk stops here: the certificate is self-issued or an anchor issued it. */
  predicate Finished(anchorSubjects: seq<Bytes>, cert: Cert) {
    cert.issuer == cert.subject || cert.issuer in anchorSubjects
  }

  /** Each certificate after the leaf is the first eligible one, and no certificate before the last ends the walk. */
  ghost predicate GreedyChain(k: Backend, policy: SignaturePolicy, leaf: Cert, pool: seq<Cert>,
                              anchorSubjects: seq<Bytes>, chain: seq<Cert>) {
    && chain != [] && chain[0] == leaf
    && forall i :: 0 <= i < |chain| - 1 ==>
         && !Finished(anchorSubjects, chain[i])
         && IsFirstEligible(k, policy, pool, chain[i], Ders(chain[..i + 1]), chain[i + 1])
  }

  /** Scan the pool for the issuer of `current`; `matched` says a candidate failed only on its signature. */
  method FindIssuer(k: Backend, policy: SignaturePolicy, pool: seq<Cert>, current: Cert, visited: seq<Bytes>)
    returns (found: Option<Cert>, matched: bool)
    ensures found.Some? ==> IsFirstEligible(k, policy, pool, current, visited, found.value)
    ensures found.None? ==> forall c <- pool :: !Eligible(k, policy, current, visited, c)
    ensures found.None? ==> (matched <==> exists c <- pool :: Unvisited(current, visited, c))
  {
    matched := false;
    for i := 0 to |pool|
      invariant forall j :: 0 <= j < i ==> !Eligible(k, policy, current, visited, pool[j])
      invariant matched <==> exists j :: 0 <= j < i && Unvisited(current, visited, pool[j])
    {
      if pool[i].subject == current.issuer && pool[i].der !in visited {
        if SignatureOk(k, current, pool[i], policy) {
          return Some(pool[i]), matched;
        }
        matched := true;
      }
    }
    return None, matched;
  }

  lemma {:induction false} GreedyExtend(k: Backend, policy: SignaturePolicy, leaf: Cert, pool: seq<Cert>,
                                        anchorSubjects: seq<Bytes>, chain: seq<Cert>, next: Cert)
    requires GreedyChain(k, policy, leaf, pool, anchorSubjects, chain)
    requires !Finished(anchorSubjects, chain[|chain| - 1])
    requires IsFirstEligible(k, policy, pool, chain[|chain| - 1], Ders(chain), next)
    ensures GreedyChain(k, policy, leaf, pool, anchorSubjects, chain + [next])
    ensures Ders(chain + [next]) == Ders(chain) + [next.der]
  {
    var longer := chain + [next];
    assert longer[..|chain|] == chain;
    forall i | 0 <= i < |longer| - 1
      ensures !Finished(anchorSubjects, longer[i])
      ensures IsFirstEligible(k, policy, pool, longer[i], Ders(longer[..i + 1]), longer[i + 1])
    {
      assert longer[..i + 1] == chain[..i + 1];
      assert chain[..|chain|] == chain;
    }
  }

  /** The greedy walk up from the leaf. */
  method BuildChainFromPool(k: Backend, policy: SignaturePolicy, leaf: Cert, pool: seq<Cert>,
                            anchorSubjects: seq<Bytes>, maxDepth: nat)
    returns (r: Result<seq<Cert>, TrustError>)
    ensures r.Ok? ==>
              && GreedyChain(k, policy, leaf, pool, anchorSubjects, r.value)
              && |r.value| <= maxDepth + 1
              && (|r.value| < maxDepth + 1 ==>
                    var last := r.value[|r.value| - 1];
                    last.issuer == last.subject || last.issuer in anchorSubjects)
    ensures r.Err? ==> exists chain ::
              && GreedyChain(k, policy, leaf, pool, anchorSubjects, chain) && |chain| <= maxDepth
              && DeadEnd(k, policy, pool, anchorSubjects, chain, r.error)
  {
    var chain := [leaf];
    var current := leaf;
    var visited := [leaf.der];
    for depth := 0 to maxDepth
      invariant GreedyChain(k, policy, leaf, pool, anchorSubjects, chain)
      invariant |chain| == depth + 1
      invariant current == chain[|chain| - 1] && visited == Ders(chain)
    {
      if current.issuer == current.subject {
        break;
      }
      if current.issuer in anchorSubjects {
        break;
      }
      var found, matched := FindIssuer(k, policy, pool, current, visited);
      if found.None? {
        assert DeadEnd(k, policy, pool, anchorSubjects, chain,
                       if matched then BadSignature(|chain| - 1) else ChainBroken(|chain| - 1));
        if matched {
          return Err(BadSignature(|chain| - 1));
        }
        return Err(ChainBroken(|chain| - 1));
      }
      GreedyExtend(k, policy, leaf, pool, anchorSubjects, chain, found.value);
      visited := visited + [found.value.der];
      chain := chain + [found.value];
      current := found.value;
    }
    return Ok(chain);
  }

  /** The walk cannot go on: nothing in the pool is eligible, for the reason reported. */
  ghost predicate DeadEnd(k: Backend, policy: SignaturePolicy, pool: seq<Cert>, anchorSubjects: seq<Bytes>,
                          chain: seq<Cert>, e: TrustError)
    requires chain != []
  {
    var last, visited := chain[|chain| - 1], Ders(chain);
    && !Finished(anchorSubjects, last)
    && (forall c <- pool :: !Eligible(k, policy, last, visited, c))
    && e == if exists c <- pool :: Unvisited(last, visited, c) then BadSignature(|chain| - 1)
         else ChainBroken(|chain| - 1)
  }

  // ----- what every built chain has -----

  /** No DER encoding occurs twice. */
  ghost predicate NoRepeatedDer(chain: seq<Cert>) {
    forall i, j :: 0 <= i < j < |chain| ==> chain[i].der != chain[j].der
  }

  /** The distinct encodings in the pool. */
  ghost function PoolDers(pool: seq<Cert>): set<Bytes> {
    set c | c in pool :: c.der
  }

  lemma {:induction false} GreedyChainHasNoRepeats(k: Backend, policy: SignaturePolicy, leaf: Cert, pool: seq<Cert>,
                                                   anchorSubjects: seq<Bytes>, chain: seq<Cert>)
    requires GreedyChain(k, policy, leaf, pool, anchorSubjects, chain)
    ensures NoRepeatedDer(chain)
    ensures forall i :: 0 < i < |chain| ==> chain[i] in pool
  {
    forall i, j | 0 <= i < j < |chain| ensures chain[i].der != chain[j].der && chain[j] in pool {
      var visited := Ders(chain[..j]);
      assert IsFirstEligible(k, policy, pool, chain[j - 1], Ders(chain[..j - 1 + 1]), chain[j]);
      assert visited[i] == chain[i].der;
      assert visited[i] in visited;
    }
  }

  /** Distinct encodings from a set are at most as many as the set has. */
  lemma {:induction false} DistinctWithinSet(chain: seq<Cert>, ders: set<Bytes>)
    requires NoRepeatedDer(chain) && forall c <- chain :: c.der in ders
    ensures |chain| <= |ders|
  {
    if chain != [] {
      var n := |chain| - 1;
      var rest := ders - {chain[n].der};
      forall c | c in chain[..n] ensures c.der in rest {
        var i :| 0 <= i < n && chain[..n][i] == c;
        assert c in chain && chain[i].der != chain[n].der;
      }
      assert chain[n] in chain;
      DistinctWithinSet(chain[..n], rest);
    }
  }

  /**
   For every pool, cyclic or repetitive or not, the chain built repeats no certificate and
   is at most one longer than the number of distinct certificates in the pool.
   */
  lemma {:induction false} BuiltChainIsBounded(k: Backend, policy: SignaturePolicy, leaf: Cert, pool: seq<Cert>,
                                               anchorSubjects: seq<Bytes>, chain: seq<Cert>)
    requires GreedyChain(k, policy, leaf, pool, anchorSubjects, chain)
    ensures NoRepeatedDer(chain)
    ensures |chain| <= 1 + |PoolDers(pool)|
  {
    GreedyChainHasNoRepeats(k, policy, leaf, pool, anchorSubjects, chain);
    var tail := chain[1..];
    forall c | c in tail ensures c.der in PoolDers(pool) {
      var i :| 0 <= i < |tail| && tail[i] == c;
      assert chain[i + 1] in pool;
    }
    DistinctWithinSet(tail, PoolDers(pool));
  }

  /** Consecutive certificates are linked by name and signature. */
  lemma {:induction false} BuiltChainIsLinked(k: Backend, policy: SignaturePolicy, leaf: Cert, pool: seq<Cert>,
                                              anchorSubjects: seq<Bytes>, chain: seq<Cert>, i: nat)
    requires GreedyChain(k, policy, leaf, pool, anchorSubjects, chain) && i + 1 < |chain|
    ensures chain[i].issuer == chain[i + 1].subject && SignatureOk(k, chain[i], chain[i + 1], policy)
  {
    assert IsFirstEligible(k, policy, pool, chain[i], Ders(chain[..i + 1]), chain[i + 1]);
  }

  /** The certificate is one the walk may go on to from the chain so far: name, novelty and signature. */
  ghost predicate Continues(k: Backend, policy: SignaturePolicy, sofar: seq<Cert>, next: Cert)
    requires sofar != []
  {
    var current := sofar[|sofar| - 1];
    && next.subject == current.issuer && (forall c <- sofar :: c.der != next.der)
    && k.signatureVerifies(current, next) && (policy.Strict? ==> !k.weakSignature(current))
  }

  /** No certificate before the last ends the walk, and each is followed by the first of the pool that continues it. */
  lemma {:induction false} GreedyStepMeans(k: Backend, policy: SignaturePolicy, leaf: Cert, pool: seq<Cert>,
                                           anchorSubjects: seq<Bytes>, chain: seq<Cert>, i: nat)
    requires GreedyChain(k, policy, leaf, pool, anchorSubjects, chain) && i + 1 < |chain|
    ensures chain[i].issuer != chain[i].subject && chain[i].issuer !in anchorSubjects
    ensures exists n :: && 0 <= n < |pool| && pool[n] == chain[i + 1] && Continues(k, policy, chain[..i + 1], pool[n])
                        && forall j :: 0 <= j < n ==> !Continues(k, policy, chain[..i + 1], pool[j])
  {
    var sofar := chain[..i + 1];
    forall c: Cert ensures Eligible(k, policy, chain[i], Ders(sofar), c) <==> Continues(k, policy, sofar, c) {
      assert forall d <- sofar :: d.der in Ders(sofar) by {
        forall d <- sofar ensures d.der in Ders(sofar) {
          var j :| 0 <= j < |sofar| && sofar[j] == d;
          assert Ders(sofar)[j] == d.der;
        }
      }
      if c.der in Ders(sofar) {
        var j :| 0 <= j < |sofar| && Ders(sofar)[j] == c.der;
        assert sofar[j] in sofar;
      }
    }
    assert IsFirstEligible(k, policy, pool, chain[i], Ders(sofar), chain[i + 1]);
    var n :| && 0 <= n < |pool| && pool[n] == chain[i + 1] && Eligible(k, policy, chain[i], Ders(sofar), chain[i + 1])
             && forall j :: 0 <= j < n ==> !Eligible(k, policy, chain[i], Ders(sofar), pool[j]);
    assert Continues(k, policy, sofar, pool[n]);
  }

  /** The greedy chain is determined: two of the same length agree. */
  lemma {:induction false} GreedyChainUnique(k: Backend, policy: SignaturePolicy, leaf: Cert, pool: seq<Cert>,
                                             anchorSubjects: seq<Bytes>, c1: seq<Cert>, c2: seq<Cert>)
    requires GreedyChain(k, policy, leaf, pool, anchorSubjects, c1)
    requires GreedyChain(k, policy, leaf, pool, anchorSubjects, c2)
    requires |c1| == |c2|
    ensures c1 == c2
  {
    if |c1| > 1 {
      var n := |c1| - 1;
      GreedyPrefix(k, policy, leaf, pool, anchorSubjects, c1);
      GreedyPrefix(k, policy, leaf, pool, anchorSubjects, c2);
      GreedyChainUnique(k, policy, leaf, pool, anchorSubjects, c1[..n], c2[..n]);
      assert c1[n - 1] == c1[..n][n - 1] == c2[n - 1];
      assert IsFirstEligible(k, policy, pool, c1[n - 1], Ders(c1[..n - 1 + 1]), c1[n]);
      assert IsFirstEligible(k, policy, pool, c2[n - 1], Ders(c2[..n - 1 + 1]), c2[n]);
    }
  }

  lemma {:induction false} GreedyPrefix(k: Backend, policy: SignaturePolicy, leaf: Cert, pool: seq<Cert>,
                                        anchorSubjects: seq<Bytes>, chain: seq<Cert>)
    requires GreedyChain(k, policy, leaf, pool, anchorSubjects, chain) && |chain| > 1
    ensures GreedyChain(k, policy, leaf, pool, anchorSubjects, chain[..|chain| - 1])
  {
    var init := chain[..|chain| - 1];
    forall i | 0 <= i < |init| - 1
      ensures !Finished(anchorSubjects, init[i])
      ensures IsFirstEligible(k, policy, pool, init[i], Ders(init[..i + 1]), init[i + 1])
    {
      assert init[..i + 1] == chain[..i + 1];
      assert IsFirstEligible(k, policy, pool, chain[i], Ders(chain[..i + 1]), chain[i + 1]);
    }
  }

  /**
   A chain built under the store's policy is ready for verification: the walk never reports
   a broken link, nor a bad signature inside the chain.
   */
  method BuildAndVerify(k: Backend, store: TrustStore, leaf: Cert, pool: seq<Cert>, anchorSubjects: seq<Bytes>,
                        maxDepth: nat, q: Request)
    returns (built: Result<seq<Cert>, TrustError>, verified: Result<Cert, TrustError>)
    ensures built.Ok? && verified.Err? ==>
              !verified.error.ChainBroken?
                && (verified.error.BadSignature? ==> verified.error.index == |built.value| - 1)
    ensures built.Ok? ==> (verified.Ok? <==> Accepts(k, store.anchors, store.policy, built.value, q))
  {
    built := BuildChainFromPool(k, store.policy, leaf, pool, anchorSubjects, maxDepth);
    verified := Err(EmptyChain);
    if built.Ok? {
      var chain := built.value;
      verified := store.VerifyChainInner(k, chain, q);
      forall i: nat | i + 1 < |chain|
        ensures chain[i].issuer == chain[i + 1].subject && SignatureOk(k, chain[i], chain[i + 1], store.policy)
      {
        BuiltChainIsLinked(k, store.policy, leaf, pool, anchorSubjects, chain, i);
      }
    }
  }
}
