/**
 What chain verification accepts (src/trust/store.rs, `verify_chain_inner`), said without
 the verifier's own predicates: over the fields of the certificates, the answers of the
 backend and the path rules of RFC 5280.
 */
module AcceptedPaths {
  import opened Results
  import opened Certificates
  import opened NameConstraints
  import opened PathChecks
  import opened AnchorSearch
  import opened TrustStores

  /** The issuer's key verifies the certificate, whose digest is not weak unless that is allowed. */
  predicate SignedBy(k: Backend, p: SignaturePolicy, cert: Cert, issuer: Cert) {
    k.signatureVerifies(cert, issuer) && (p.Strict? ==> !k.weakSignature(cert))
  }

  /** The instant, if one is asked for, lies in the certificate's window, its fraction included. */
  predicate Timely(cert: Cert, q: Request) {
    match q.time
    case None => true
    case Some(t) =>
      cert.notBefore <= t && (if q.positiveFraction then t < cert.notAfter else t <= cert.notAfter)
  }

  const PROCESSED := {BasicConstraintsOid, KeyUsageOid, ExtendedKeyUsageOid, SubjectAltNameOid,
                      CrlDistributionPointsOid, AuthorityInfoAccessOid, NameConstraintsOid}

  /**
   No extension twice; critical ones are processed, and restrict the key's purposes only on
   certificates of no authority.
   */
  ghost predicate WellExtended(cert: Cert) {
    && (forall i, j :: 0 <= i < j < |cert.extensions| ==> cert.extensions[i].oid != cert.extensions[j].oid)
    && (forall ext <- cert.extensions :: ext.critical ==> ext.oid in PROCESSED)
    && ((exists ext <- cert.extensions :: ext.critical && ext.oid == ExtendedKeyUsageOid) ==>
          exists pathLen: Option<nat> :: BasicConstraintsOf(cert) == Ok((false, pathLen)))
  }

  lemma {:induction false} ExtensionsOkMeans(cert: Cert)
    ensures ExtensionsOk(cert) <==> WellExtended(cert)
  {
    if BasicConstraintsOf(cert).Ok? && !BasicConstraintsOf(cert).value.0 {
      assert BasicConstraintsOf(cert) == Ok((false, BasicConstraintsOf(cert).value.1));
    }
  }

  /** Every certificate of the path has tolerable extensions and is in its window. */
  ghost predicate CertificatesOk(path: seq<Cert>, q: Request) {
    forall i :: 0 <= i < |path| ==> WellExtended(path[i]) && Timely(path[i], q)
  }

  /** The certificate at `i` is issued, signed and authorised by the next. */
  ghost predicate Linked(k: Backend, p: SignaturePolicy, path: seq<Cert>, i: int)
    requires 0 <= i < |path| - 1
  {
    && path[i].issuer == path[i + 1].subject
    && SignedBy(k, p, path[i], path[i + 1])
    && MaySignCertificates(path[i + 1])
  }

  ghost predicate LinksOk(k: Backend, p: SignaturePolicy, path: seq<Cert>) {
    forall i :: 0 <= i < |path| - 1 ==> Linked(k, p, path, i)
  }

  /** The path length limits of the RFC hold, from the topmost certificate's down, and the leaf fits. */
  ghost predicate LimitsOk(path: seq<Cert>) {
    |path| > 1 && MaySignCertificates(path[|path| - 1]) && BasicConstraintsOf(path[|path| - 1]).Ok? ==>
      var below, limit := path[..|path| - 1], BasicConstraintsOf(path[|path| - 1]).value.1;
      RfcPassOk(below, limit) && LeafFits(path[0], LeftAtLeaf(below, limit))
  }

  /** Every certificate meets the constraints that each certificate above it states. */
  ghost predicate NamesOk(k: Backend, path: seq<Cert>) {
    forall i, j :: 0 <= i < j < |path| ==>
      Own(path[j]).Ok? && CheckCert(MatcherOf(k.unicode), Own(path[j]).value, path[i]).Ok?
  }

  /** A path, leaf first, all of whose links, limits and names are in order. */
  ghost predicate ValidPath(k: Backend, p: SignaturePolicy, path: seq<Cert>, q: Request) {
    CertificatesOk(path, q) && LinksOk(k, p, path) && LimitsOk(path) && NamesOk(k, path)
  }

  lemma {:induction false} LinkMeans(k: Backend, p: SignaturePolicy, chain: seq<Cert>, i: nat)
    requires i + 1 < |chain|
    ensures LinkOk(k, p, chain, i) <==> Linked(k, p, chain, i) && PathLenOk(chain[i + 1], chain[..i + 1])
  {
    CaExtensionsAccept(chain[i + 1]);
  }

  lemma {:induction false} LinksAuthorise(k: Backend, p: SignaturePolicy, path: seq<Cert>)
    requires LinksOk(k, p, path)
    ensures Authorities(path)
  {
    forall i | 1 <= i < |path| ensures CheckCaExtensions(path[i]).Ok? {
      assert Linked(k, p, path, i - 1);
      CaExtensionsAccept(path[i]);
    }
  }

  lemma {:induction false} LimitsMean(path: seq<Cert>)
    requires Authorities(path)
    ensures RecountOk(path) <==> LimitsOk(path)
  {
    if |path| > 1 {
      CaExtensionsAccept(path[|path| - 1]);
      PathVersusRfc(path);
    }
  }

  /** The links the walk checks, its length limits apart. */
  lemma {:induction false} LinksMean(k: Backend, p: SignaturePolicy, chain: seq<Cert>)
    ensures (forall i: nat :: i + 1 < |chain| ==> LinkOk(k, p, chain, i)) <==>
            LinksOk(k, p, chain) && RecountOk(chain)
  {
    if forall i: nat :: i + 1 < |chain| ==> LinkOk(k, p, chain, i) {
      forall i | 0 <= i < |chain| - 1 ensures Linked(k, p, chain, i) {
        LinkMeans(k, p, chain, i);
      }
      forall j | 1 <= j < |chain| ensures PathLenOk(chain[j], chain[..j]) {
        assert LinkOk(k, p, chain, j - 1);
      }
    }
    if LinksOk(k, p, chain) && RecountOk(chain) {
      forall i: nat | i + 1 < |chain| ensures LinkOk(k, p, chain, i) {
        LinkMeans(k, p, chain, i);
        assert PathLenOk(chain[i + 1], chain[..i + 1]);
      }
    }
  }

  lemma {:induction false} CertificatesMean(path: seq<Cert>, q: Request)
    ensures CertificatesOk(path, q) <==>
            (forall cert <- path :: ExtensionsOk(cert)) && forall cert <- path :: InWindow(cert, q)
  {
    forall cert ensures ExtensionsOk(cert) && InWindow(cert, q) <==> WellExtended(cert) && Timely(cert, q) {
      ExtensionsOkMeans(cert);
    }
    if CertificatesOk(path, q) {
      forall cert <- path ensures ExtensionsOk(cert) && InWindow(cert, q) {
        var i :| 0 <= i < |path| && path[i] == cert;
      }
    }
  }

  lemma {:induction false} NamesMean(k: Backend, path: seq<Cert>)
    ensures NameConstraintsOk(RulesOf(k.unicode), path) <==> NamesOk(k, path)
  {
    var rules := RulesOf(k.unicode);
    if NamesOk(k, path) {
      forall j | 1 <= j < |path| ensures rules.own(path[j]).Ok? {
        assert path[0] == path[0] && Own(path[j]).Ok?;
      }
    }
  }

  /** The part of acceptance that does not involve the anchor. */
  lemma {:induction false} ChainMeans(k: Backend, p: SignaturePolicy, chain: seq<Cert>, q: Request)
    ensures ChainOk(k, p, chain, q) <==>
            && chain != [] && (q.purpose.Some? ==> k.roleOk(chain[0], q.purpose.value))
            && CertificatesOk(chain, q) && LinksOk(k, p, chain) && LimitsOk(chain)
  {
    CertificatesMean(chain, q);
    LinksMean(k, p, chain);
    if LinksOk(k, p, chain) {
      LinksAuthorise(k, p, chain);
      LimitsMean(chain);
    }
  }

  lemma {:induction false} CertificatesExtend(chain: seq<Cert>, a: Cert, q: Request)
    ensures CertificatesOk(chain + [a], q) <==> CertificatesOk(chain, q) && WellExtended(a) && Timely(a, q)
  {
    var path := chain + [a];
    assert path[|chain|] == a && forall i :: 0 <= i < |chain| ==> chain[i] == path[i];
  }

  lemma {:induction false} LinksExtend(k: Backend, p: SignaturePolicy, chain: seq<Cert>, a: Cert)
    requires chain != []
    ensures LinksOk(k, p, chain + [a]) <==>
            && LinksOk(k, p, chain)
            && Last(chain).issuer == a.subject && SignedBy(k, p, Last(chain), a) && MaySignCertificates(a)
  {
    var path := chain + [a];
    if LinksOk(k, p, path) {
      assert Linked(k, p, path, |chain| - 1);
      forall i | 0 <= i < |chain| - 1 ensures Linked(k, p, chain, i) {
        assert Linked(k, p, path, i);
      }
    }
    if LinksOk(k, p, chain) {
      forall i | 0 <= i < |chain| - 1 ensures Linked(k, p, path, i) {
        assert Linked(k, p, chain, i);
      }
    }
  }

  lemma {:induction false} RecountExtend(chain: seq<Cert>, a: Cert)
    requires chain != []
    ensures RecountOk(chain + [a]) <==> RecountOk(chain) && PathLenOk(a, chain)
  {
    var path := chain + [a];
    assert path[..|path| - 1] == chain && path[|path| - 1] == a;
    RecountOfPrefix(path);
  }

  lemma {:induction false} AnchorMeans(k: Backend, p: SignaturePolicy, chain: seq<Cert>, q: Request, a: Cert)
    requires chain != []
    ensures AnchorOk(k, p, chain, q, a) <==>
            && SignedBy(k, p, Last(chain), a) && MaySignCertificates(a) && WellExtended(a) && Timely(a, q)
            && PathLenOk(a, chain) && NamesOk(k, chain + [a])
  {
    CaExtensionsAccept(a);
    ExtensionsOkMeans(a);
    NamesMean(k, chain + [a]);
  }

  /** An anchor completes a chain exactly when it makes a valid path of it. */
  lemma {:induction false} CompletedMeans(k: Backend, p: SignaturePolicy, chain: seq<Cert>, q: Request, a: TrustAnchor)
    requires chain != []
    ensures ChainOk(k, p, chain, q) && Completes(k, p, chain, q, a) <==>
            (q.purpose.Some? ==> k.roleOk(chain[0], q.purpose.value)) && ValidPath(k, p, chain + [a.cert], q)
  {
    var path := chain + [a.cert];
    ChainMeans(k, p, chain, q);
    AnchorMeans(k, p, chain, q, a.cert);
    CertificatesExtend(chain, a.cert, q);
    LinksExtend(k, p, chain, a.cert);
    RecountExtend(chain, a.cert);
    if LinksOk(k, p, path) {
      LinksAuthorise(k, p, path);
      LimitsMean(path);
      LinksAuthorise(k, p, chain);
      LimitsMean(chain);
    }
  }

  /** A chain that ends at a stored root is accepted exactly when it is a valid path and its root signs itself. */
  lemma {:induction false} RootedMeans(k: Backend, p: SignaturePolicy, chain: seq<Cert>, q: Request)
    requires chain != []
    ensures ChainOk(k, p, chain, q) && StoredRootOk(k, p, chain) <==>
            && (q.purpose.Some? ==> k.roleOk(chain[0], q.purpose.value))
            && ValidPath(k, p, chain, q) && SignedBy(k, p, Last(chain), Last(chain))
  {
    ChainMeans(k, p, chain, q);
    NamesMean(k, chain);
  }

  /**
   The store accepts exactly the chains whose leaf has the purpose asked for and that are a
   valid path up to a stored root that signs itself or, when they do not end with a stored
   self-issued certificate, become a valid path with some anchor on top.
   */
  lemma {:induction false} AcceptsExactlyValidPaths(k: Backend, anchors: seq<TrustAnchor>, p: SignaturePolicy,
                                                    chain: seq<Cert>, q: Request)
    ensures Accepts(k, anchors, p, chain, q) <==>
            && chain != []
            && (q.purpose.Some? ==> k.roleOk(chain[0], q.purpose.value))
            && var last := chain[|chain| - 1];
               if last.subject == last.issuer && exists a <- anchors :: a.der == last.der then
                 ValidPath(k, p, chain, q) && SignedBy(k, p, last, last)
               else exists a <- anchors :: ValidPath(k, p, chain + [a.cert], q)
  {
    if chain != [] {
      RootedMeans(k, p, chain, q);
      forall a: TrustAnchor
        ensures ChainOk(k, p, chain, q) && Completes(k, p, chain, q, a) <==>
                && (q.purpose.Some? ==> k.roleOk(chain[0], q.purpose.value))
                && ValidPath(k, p, chain + [a.cert], q)
      {
        CompletedMeans(k, p, chain, q, a);
      }
    }
  }
}
