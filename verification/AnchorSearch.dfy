/**
 The search for a trust anchor among those that carry a name (src/trust/store.rs,
 `find_all_issuers` and its use), for any judgement on candidates.
 */
module AnchorSearch {
  import opened Der
  import opened Certificates

  datatype TrustAnchor = TrustAnchor(cert: Cert, der: Bytes)

  /** The anchors whose subject is the issuer looked for, in the order they are stored. */
  function FindAllIssuers(anchors: seq<TrustAnchor>, issuer: Bytes): seq<Cert> {
    if anchors == [] then []
    else
      var n := |anchors| - 1;
      FindAllIssuers(anchors[..n], issuer) + if anchors[n].cert.subject == issuer then [anchors[n].cert] else []
  }

  /** The anchor has the name and passes the judgement. */
  predicate Holds(ok: Cert -> bool, issuer: Bytes, a: TrustAnchor) {
    a.cert.subject == issuer && ok(a.cert)
  }

  /** The anchor at `i` is the first that holds. */
  ghost predicate IsFirst(ok: Cert -> bool, anchors: seq<TrustAnchor>, issuer: Bytes, i: int) {
    && 0 <= i < |anchors| && Holds(ok, issuer, anchors[i])
    && forall j :: 0 <= j < i ==> !Holds(ok, issuer, anchors[j])
  }

  /** None of these candidates passes. */
  predicate AllFail(ok: Cert -> bool, candidates: seq<Cert>) {
    candidates != [] ==> !ok(candidates[|candidates| - 1]) && AllFail(ok, candidates[..|candidates| - 1])
  }

  /** There is a candidate exactly when an anchor has the name; they all fail exactly when no anchor holds. */
  lemma {:induction false} AllFailMeansNoneHolds(ok: Cert -> bool, anchors: seq<TrustAnchor>, issuer: Bytes)
    ensures AllFail(ok, FindAllIssuers(anchors, issuer)) <==> forall a <- anchors :: !Holds(ok, issuer, a)
    ensures FindAllIssuers(anchors, issuer) == [] <==> forall a <- anchors :: a.cert.subject != issuer
  {
    if anchors != [] {
      var n := |anchors| - 1;
      AllFailMeansNoneHolds(ok, anchors[..n], issuer);
      var lower := FindAllIssuers(anchors[..n], issuer);
      var all := FindAllIssuers(anchors, issuer);
      if anchors[n].cert.subject == issuer {
        assert all[..|all| - 1] == lower && all[|all| - 1] == anchors[n].cert;
        assert Holds(ok, issuer, anchors[n]) <==> ok(all[|all| - 1]);
      } else {
        assert all == lower;
      }
      assert forall a :: a in anchors <==> a in anchors[..n] || a == anchors[n];
    }
  }

  /** The first candidate that passes is the first anchor that holds. */
  lemma {:induction false} FirstPassingCandidate(ok: Cert -> bool, anchors: seq<TrustAnchor>, issuer: Bytes, c: nat)
    requires c < |FindAllIssuers(anchors, issuer)|
    requires ok(FindAllIssuers(anchors, issuer)[c]) && AllFail(ok, FindAllIssuers(anchors, issuer)[..c])
    ensures exists i :: IsFirst(ok, anchors, issuer, i) && anchors[i].cert == FindAllIssuers(anchors, issuer)[c]
  {
    var n := |anchors| - 1;
    var lower, all := FindAllIssuers(anchors[..n], issuer), FindAllIssuers(anchors, issuer);
    assert all[..|lower|] == lower;
    if c < |lower| {
      assert all[..c] == lower[..c];
      FirstPassingCandidate(ok, anchors[..n], issuer, c);
      var i :| IsFirst(ok, anchors[..n], issuer, i) && anchors[i].cert == lower[c];
      assert IsFirst(ok, anchors, issuer, i);
    } else {
      AllFailMeansNoneHolds(ok, anchors[..n], issuer);
      assert forall j :: 0 <= j < n ==> anchors[j] in anchors[..n];
      assert IsFirst(ok, anchors, issuer, n);
    }
  }
}
