/**
 Certificates as the decoding library hands them over, and the signature check as the
 cryptographic backend answers it.
 */
module Certificates {
  import opened Results
  import opened Der
  import opened TextFolding

  /** The extension identifiers the verifier knows by name, and all the others. */
  datatype Oid =
    | BasicConstraintsOid
    | KeyUsageOid
    | ExtendedKeyUsageOid
    | SubjectAltNameOid
    | CrlDistributionPointsOid
    | AuthorityInfoAccessOid
    | NameConstraintsOid
    | OcspNoCheckOid
    | OtherOid(body: Bytes)

  datatype Extension = Extension(oid: Oid, critical: bool, value: Bytes)

  /** An emailAddress attribute of the subject, decoded as IA5String or not decodable so. */
  datatype EmailAttribute = Ia5Email(text: Bytes) | UndecodableEmail

  /** Names are held as their DER; instants as seconds. */
  datatype Cert = Cert(
    der: Bytes,
    subject: Bytes,
    issuer: Bytes,
    serial: Bytes,
    publicKey: Bytes,
    spki: Bytes,
    notBefore: int,
    notAfter: int,
    extensions: seq<Extension>,
    emails: seq<EmailAttribute>)

  datatype Role = IntermediateCa | OcspResponder | TimestampSigner | EndEntity

  /** Whether MD5, SHA-1 and SHA-224 signatures are refused or let through. */
  datatype SignaturePolicy = Strict | AllowLegacy

  /** What the model takes from the cryptographic backend, the profile checks and the text tables. */
  datatype Backend = Backend(
    signatureVerifies: (Cert, Cert) -> bool,
    weakSignature: Cert -> bool,
    roleOk: (Cert, Role) -> bool,
    unicode: Unicode)

  /** The certificate's signature verifies under the issuer's key and its digest is allowed. */
  predicate SignatureOk(k: Backend, cert: Cert, issuer: Cert, policy: SignaturePolicy) {
    (policy.AllowLegacy? || !k.weakSignature(cert)) && k.signatureVerifies(cert, issuer)
  }

  predicate SelfIssued(cert: Cert) {
    cert.subject == cert.issuer
  }

  /** The value of the first extension with this identifier. */
  function FindExtension(exts: seq<Extension>, oid: Oid): Option<Bytes> {
    if exts == [] then None
    else if exts[0].oid == oid then Some(exts[0].value)
    else FindExtension(exts[1..], oid)
  }

  /** The extension at `i` is the first with this identifier. */
  ghost predicate IsFirstExtension(exts: seq<Extension>, oid: Oid, i: int) {
    0 <= i < |exts| && exts[i].oid == oid && forall j :: 0 <= j < i ==> exts[j].oid != oid
  }

  lemma {:induction false} FindExtensionIsFirst(exts: seq<Extension>, oid: Oid)
    ensures FindExtension(exts, oid).None? <==> forall ext <- exts :: ext.oid != oid
    ensures FindExtension(exts, oid).Some? ==>
              exists i :: IsFirstExtension(exts, oid, i) && exts[i].value == FindExtension(exts, oid).value
  {
    if exts != [] && exts[0].oid == oid {
      assert exts[0] in exts && IsFirstExtension(exts, oid, 0);
    } else if exts != [] {
      FindExtensionIsFirst(exts[1..], oid);
      assert forall ext :: ext in exts <==> ext == exts[0] || ext in exts[1..];
      if FindExtension(exts, oid).Some? {
        var i :| IsFirstExtension(exts[1..], oid, i) && exts[1..][i].value == FindExtension(exts, oid).value;
        assert forall j :: 1 <= j < i + 1 ==> exts[j] == exts[1..][j - 1];
        assert IsFirstExtension(exts, oid, i + 1);
      }
    }
  }
}
