# Offline X.509 validation, modelled in Dafny

This project models the parts of a Rust library that decide, over untrusted bytes, whether a
certificate chain, a CRL or an OCSP response is to be believed, and proves what those
decisions mean.

| file | what it models |
|---|---|
| `Der.dfy`, `DerIntegers.dfy` | the DER element and integer codecs, BasicConstraints |
| `TextFolding.dfy`, `DirectoryNames.dfy`, `GeneralNames.dfy` | how names are compared |
| `Certificates.dfy`, `NameConstraints.dfy` | certificates, and the accumulated name constraints |
| `PathChecks.dfy`, `AnchorSearch.dfy`, `TrustStores.dfy`, `AcceptedPaths.dfy` | chain verification against trust anchors, and what it accepts |
| `ChainBuilding.dfy` | the greedy chain builder over a certificate pool |
| `CrlSyntax.dfy`, `CrlVerdicts.dfy`, `CrlCaching.dfy` | the CRL parser, the CRL verdict over time, the shared cache |
| `OcspMatching.dfy`, `OcspChecks.dfy` | single responses, CertIDs, nonces, and who may sign a response |
| `Statuses.dfy`, `Revocation.dfy`, `RelaxedPolicy.dfy` | the two concurrent sources, the merge, the policy, delegated responders |

Loops of the source are methods with invariants, each proved equal to a specification
function or to a declarative condition; the lemmas are about those specifications. Library
code that is not modelled enters as an arbitrary function (`Backend`, `Codecs`,
`OcspCodecs`, `OcspBackend`, `UnicodeTables`, `World`), so every result holds for all of its
possible behaviours. `dafny verify dfyconfig.toml` checks everything.

The main results:

- **DER.** Parsing and printing elements are mutual inverses (`Der.TlvBijection`), hence
  well-formed bodies are in bijection with lists of children (`Der.BodyBijection`); a nonce is
  accepted in exactly two spellings (`OcspMatching.NonceMatchesExactlyTwo`).
- **Names.** The greedy used-flag loop decides multiset equality of comparison keys
  (`DirectoryNames.MatchRdns`), so directory subtrees form a prefix order; folding compares
  lower-cased word lists; DNS subtrees are label suffixes.
- **Name constraints.** Checking merged constraints is the conjunction of checking each
  (`NameConstraints.CheckCertMerged`), so the quadratic walk accepts exactly the paths where
  every certificate meets every issuer above it (`PathChecks.EnforceNameConstraintsPath`), and
  a single pass would do (`PathChecks.SinglePassSuffices`).
- **Path lengths.** The recount below every issuer equals one top-down pass with a budget
  (`PathChecks.RecountIsTopDown`). Together with the check that every issuer is an authority,
  it asks for exactly one thing more than steps (k) to (n) of section 6.1.4 of RFC 5280, started
  with the topmost certificate's own limit: when a limit reaches the leaf, the leaf's
  basicConstraints must parse and, if the leaf is a non-self-issued CA, leave a step to take
  (`PathChecks.PathVersusRfc`, with both kinds of differing leaf).
- **Verification.** `VerifyChainInner` accepts exactly what `Accepts` describes and returns the
  first anchor that completes a path, and that is exactly the valid paths
  (`AcceptedPaths.AcceptsExactlyValidPaths`), said over the certificates' fields and the
  backend's answers. Acceptance is monotone in the signature policy and blind to the order of the
  anchors. It is *not* monotone in the anchors: storing a self-issued certificate that another
  key signed can end it (`TrustStores.StoringARolloverCertificateEndsAcceptance`), and
  `TrustStores.AcceptanceWithinAnchors` says exactly when.
- **CRLs.** A byte string parses exactly when it is the printed form of a complete direct CRL
  (`CrlSyntax.CrlBijection`, `CrlSyntax.CrlOkMeans`); a verdict needs the issuer's signature and a
  current window (`CrlVerdicts.CheckCrlMeans`), names exactly the listed serials
  (`CrlVerdicts.RevokedExactlyWhenListed`), and over time is a step function that never goes back.
- **OCSP.** The outcome of a check is determined, field by field, by a trusted signer and the
  first response for the certificate (`OcspChecks.CheckDetailedMeans`,
  `OcspChecks.RevokedExactlyWhenAnswered`).
- **Cache.** In every state of every run of any number of clones both bounds hold and the stored
  dates are those of the bytes (`CrlCaching.EveryStateIsSound`).
- **Revocation.** What the sources give decides, in both directions (`Revocation.SourcesDecide`,
  `Revocation.SilenceIsUnknown`). For every schedule the collector's two results are determined
  (`Revocation.CollectRevocationResults`); a source that was not ready by the deadline is still
  taken in one situation, when the other became ready exactly at the deadline. For every
  environment and policy a valid or revoked result rests on a finite tree of signed responses
  and CRLs that give it, with at most `max_ocsp_recursion` delegated links, complete when the
  check is required (`Revocation.DefiniteResultHasGenuineEvidence`). Otherwise it is complete
  exactly when no responder's own check was unknown; a run where one was is possible exactly
  when OCSP is not ruled out, the recursion limit is above zero and an issuer path is given
  (`RelaxedPolicy.OpenExactlyUnderRelaxedPolicy`).

Where comments and code differ the model follows the code: a comment at
src/ltv/revocation.rs:619-622 speaks of a relaxed policy for a responder's own check, while the
code passes the caller's requirement on.

## Model

| member | source | states |
|---|---|---|
| Der.EncodeDerLength | src/der_utils.rs:108-130 | the pushing encoder appends exactly the minimal definite-form octets of the length, cut to four octets as the code does |
| Der.LengthOctets | src/der_utils.rs:108-130 | the length octets in full, range by range, as section 10.1 of X.690 has them |
| Der.ParseDerLength | src/der_utils.rs:47-77 | the accumulating loop computes the big-endian reading, with every refusal: indefinite, over four octets, short, leading zero, long form where short fits |
| Der.DecodeEncodeLength | src/der_utils.rs:47-130 | every length below 2^32 is read back whatever follows it |
| Der.EncodeDecodeLength | src/der_utils.rs:47-130 | an accepted length is below 2^32 and is spelled exactly as the encoder spells it |
| Der.ParsePrinted | src/der_utils.rs:20-86 | a printed element is read back, leaving what follows |
| Der.PrintParsed | src/der_utils.rs:20-86 | accepted bytes are the printed element and the rest |
| Der.TlvBijection | src/der_utils.rs:20-130 | bytes parse to an element and a rest exactly when they are that element printed, then the rest |
| Der.RoundTripExactlyBelowLimit | src/der_utils.rs:20-130 | an element survives printing and parsing if and only if its tag is low-form and its value shorter than 2^32 octets |
| Der.BodyBijection | src/der_utils.rs:20-130 | well-formed bodies are in bijection with lists of printable elements |
| Der.FindTaggedValue | src/der_utils.rs:279-293 | the search finds the first child with the tag among those before the first malformed one |
| Der.SplitAccountsForAllBytes | src/der_utils.rs:279-293 | reading children keeps every byte and stops only at the end or at bytes that do not parse |
| Der.SplitOfWellFormed | src/der_utils.rs:279-293 | on a printed list the search sees all the children |
| DerIntegers.EncodeIntegerU64 | src/der_utils.rs:133-146 | the search for the first significant octet writes the shortest non-negative two's-complement body |
| DerIntegers.DecodeIntegerU64 | src/der_utils.rs:153-183 | the accumulating loop computes the value, refusing empty, negative and over 64-bit bodies |
| DerIntegers.DecodeIntegerMeans | src/der_utils.rs:153-183 | accepted are exactly the non-negative bodies of at most eight octets besides one leading zero, with their value |
| DerIntegers.DecodeEncodeInteger | src/der_utils.rs:133-183 | every 64-bit integer is encoded minimally and read back |
| DerIntegers.EncodeDecodeInteger | src/der_utils.rs:133-183 | a minimal body that decodes is the one the encoder writes |
| DerIntegers.PaddingInsensitiveEquality | src/der_utils.rs:194-317 | for minimal non-negative bodies, comparing without padding is equality of the integers |
| DerIntegers.PaddingInsensitiveOnAllMinimal | src/der_utils.rs:194-317 | for all minimal bodies, it identifies a negative body with the padded positive one of the same octets and nothing else |
| DerIntegers.NegativeSerialCollides | src/der_utils.rs:315-317 | the bodies of -128 and 128 compare equal |
| DerIntegers.BasicConstraintsAccepts | src/der_utils.rs:216-273 | accepted with a reading exactly when the SEQUENCE holds nothing, a one-octet BOOLEAN, or a true BOOLEAN and a 64-bit INTEGER |
| TextFolding.NormalizeText | src/ltv/name_constraints.rs:648-664 | the pending-space loop joins the lower-cased words with single spaces |
| TextFolding.WordsOfJoin | src/ltv/name_constraints.rs:648-664 | splitting a joined list of words gives the list back |
| TextFolding.WordsSplitAtSpace | src/ltv/name_constraints.rs:648-664 | white space separates: the words of a text are those before it and those after it |
| TextFolding.WordsAndLetters | src/ltv/name_constraints.rs:648-664 | a text without white space is one word, lower-cased letter by letter |
| TextFolding.FoldComparesWordLists | src/ltv/name_constraints.rs:648-685 | two strings fold alike exactly when their lower-cased word lists agree |
| TextFolding.FoldIdempotent | src/ltv/name_constraints.rs:648-664 | folding is idempotent when lower-casing is |
| DirectoryNames.ParseAtvs | src/ltv/name_constraints.rs:582-629 | the cursor loop reads all attributes of an RDN or fails at the first malformed one |
| DirectoryNames.ParseRdnAtvs | src/ltv/name_constraints.rs:582-629 | an RDN is a SET of attributes; bytes after the SET are ignored, as in the code |
| DirectoryNames.AtvsAccept | src/ltv/name_constraints.rs:582-641 | attributes are read exactly when the body is a list of SEQUENCEs, each of an identifier and one value that is text where its type says so |
| DirectoryNames.MatchIsKeyEquality | src/ltv/name_constraints.rs:674-685 | on well-formed values of one type, value matching is equality of comparison keys |
| DirectoryNames.ValuesMatchMeans | src/ltv/name_constraints.rs:674-685 | the three string types match when their lower-cased word lists agree, other values only when tag and octets are the same |
| DirectoryNames.ClaimMatch | src/ltv/name_constraints.rs:691-715 | one inner scan flags the first unflagged attribute that matches, and only that one |
| DirectoryNames.ClaimAll | src/ltv/name_constraints.rs:691-715 | the outer loop succeeds exactly when the two lists have the same multiset of keys |
| DirectoryNames.MatchAtvs | src/ltv/name_constraints.rs:691-715 | the greedy match with used flags decides multiset equality of the keys |
| DirectoryNames.MatchRdns | src/ltv/name_constraints.rs:691-715 | RDNs match exactly when their key multisets are equal; a malformed one is an error |
| DirectoryNames.RdnMatchEquivalence | src/ltv/name_constraints.rs:691-715 | RDN matching is reflexive, symmetric and transitive |
| DirectoryNames.ParseInnerNameRdns | src/ltv/name_constraints.rs:720-756 | the cursor loop reads the RDNs of a Name, wrapped in an explicit tag or not |
| DirectoryNames.RdnsAccept | src/ltv/name_constraints.rs:720-756 | a Name's body is read exactly when it is a list of SETs, and gives their encodings in order |
| DirectoryNames.PrintedNameReads | src/ltv/name_constraints.rs:720-756 | a printed Name has its SETs as RDNs, wrapped in the explicit tag or not |
| DirectoryNames.MatchDirectoryNames | src/ltv/name_constraints.rs:554-571 | the pairwise loop stops at the first pair that differs or fails |
| DirectoryNames.DirectoryMatchIsPrefix | src/ltv/name_constraints.rs:554-571 | on well-formed names, matching is the prefix order on canonical forms |
| DirectoryNames.DirectoryMatchReflexive | src/ltv/name_constraints.rs:554-571 | a well-formed name is within itself |
| DirectoryNames.MatchingBaseIsWellFormed | src/ltv/name_constraints.rs:554-571 | only a base that parses throughout matches anything |
| DirectoryNames.DirectoryMatchTransitive | src/ltv/name_constraints.rs:554-571 | a narrower base admits only names the wider base admits, malformed names included |
| GeneralNames.BelowDomainIsProperSuffix | src/ltv/name_constraints.rs:482-498 | being below a domain is having its labels as a proper suffix |
| GeneralNames.DnsMatchIsLabelSuffix | src/ltv/name_constraints.rs:482-498 | a base without a leading dot matches exactly the names whose labels end with its labels; with one, at least one more label is asked for |
| GeneralNames.DnsMatchTransitive | src/ltv/name_constraints.rs:482-498 | nested DNS subtrees are contained in each other, the empty base included |
| GeneralNames.LowerAsciiMeans | src/ltv/name_constraints.rs:315-322 | capital letters become small ones and nothing else changes |
| GeneralNames.MailHostOfAddress | src/ltv/name_constraints.rs:502-523 | the host of an address is what follows its last at-sign |
| GeneralNames.Rfc822MatchOfAddress | src/ltv/name_constraints.rs:502-523 | a mail base matches when it is empty, when its labels after a leading dot are a proper suffix of the host's, when it is the address, or when it is the host |
| GeneralNames.Rfc822MatchTransitive | src/ltv/name_constraints.rs:502-523 | nested mail subtrees are contained in each other, over all strings and all three forms of base |
| GeneralNames.IpMatchIsMaskedAgreement | src/ltv/name_constraints.rs:527-535 | an address is in a block exactly when it agrees with the base on every bit the mask sets |
| GeneralNames.IpMatchTransitive | src/ltv/name_constraints.rs:527-535 | an address block inside a wider block admits only addresses of the wider block |
| NameConstraints.CheckCertMerged | src/ltv/name_constraints.rs:137-408 | merged constraints accept a certificate exactly when each part does, with the emailAddress fallback |
| NameConstraints.UnconstrainedMailIsHarmless | src/ltv/name_constraints.rs:359-408 | constraints without a mail base check alike whether or not mail addresses are collected |
| NameConstraints.AskingForMail | src/ltv/name_constraints.rs:359-408 | asking for mail addresses adds only mail addresses, or fails |
| NameConstraints.DecodeBaseReads | src/ltv/name_constraints.rs:315-350 | the bases by their tags, with address and mask in that order |
| NameConstraints.ValidateSubtreeMinMax | src/ltv/name_constraints.rs:281-311 | the cursor loop accepts only explicit zero minimums after a base |
| NameConstraints.MinMaxAccepts | src/ltv/name_constraints.rs:281-311 | accepted after a base are lists of explicit zero minimums and nothing else |
| NameConstraints.ParseGeneralSubtrees | src/ltv/name_constraints.rs:246-271 | the cursor loop reads all subtrees or fails at the first malformed one |
| NameConstraints.SubtreesAccept | src/ltv/name_constraints.rs:246-350 | a field is read with given bases exactly when it is a list of SEQUENCEs, each of that base and explicit zero minimums |
| NameConstraints.MembersAccept | src/ltv/name_constraints.rs:137-171 | an extension's body is accepted exactly when it is a list of [0] and [1] fields of subtrees; the permitted groups are the [0] fields in order, the excluded bases those of the [1] fields |
| NameConstraints.PrintedExtensionReads | src/ltv/name_constraints.rs:137-171 | a printed extension states exactly what its fields say |
| NameConstraints.OwnMeans | src/ltv/name_constraints.rs:126-135 | a certificate states what its first NameConstraints extension does, and nothing without one |
| NameConstraints.CollectSanNames | src/ltv/name_constraints.rs:412-454 | the cursor loop collects the supported alternative names in order, failing closed on malformed ones |
| NameConstraints.SanNamesAccept | src/ltv/name_constraints.rs:412-454 | alternative names are read exactly when the body is a list of readable names, and are the supported ones in order |
| NameConstraints.SanNameReads | src/ltv/name_constraints.rs:412-454 | the alternative names by their tags; other forms assert nothing |
| NameConstraints.PrintedSanReads | src/ltv/name_constraints.rs:412-454 | printed alternative names read back, the supported ones in order |
| NameConstraints.MailNamesAccept | src/ltv/name_constraints.rs:386-404 | the legacy addresses are all taken, lower-cased, unless one is undecodable or empty |
| NameConstraints.AssertedNamesMeans | src/ltv/name_constraints.rs:359-408 | a certificate asserts its non-empty subject and its alternative names, or the legacy addresses without that extension when mail is constrained |
| NameConstraints.NameConstraintState.AddFromCert | src/ltv/name_constraints.rs:126-135 | the state becomes its merge with the certificate's own constraints, or the extension is malformed |
| NameConstraints.NameConstraintState.AddFromExtensionValue | src/ltv/name_constraints.rs:137-171 | the state becomes its merge with the extension's constraints, or the value is malformed |
| NameConstraints.NameConstraintState.AddMembers | src/ltv/name_constraints.rs:137-171 | one permitted group per [0] field is pushed and the bases of [1] fields are appended to the excluded ones; with `MembersAccept` for which is which |
| NameConstraints.NameConstraintState.CheckCertNames | src/ltv/name_constraints.rs:181-195 | the loop over the asserted names gives the result of checking them all |
| NameConstraints.NameConstraintState.CheckOneName | src/ltv/name_constraints.rs:197-241 | a name fails on an excluded base or on a group that has bases of its type and none that matches |
| NameConstraints.BaseMatchesMeans | src/ltv/name_constraints.rs:469-477 | bases answer by label suffixes, mail hosts and masked bits; across types never |
| NameConstraints.NameAccepted | src/ltv/name_constraints.rs:197-241 | a name passes exactly when every excluded base says no, and each permitted group has no base of its type or one that matches |
| NameConstraints.CertAccepted | src/ltv/name_constraints.rs:181-241 | a certificate passes exactly when there are no constraints, or its names can be read and all pass |
| PathChecks.KeyCertSignIsBitFive | src/trust/store.rs:56-103 | a keyUsage value is accepted exactly when it is one BIT STRING in DER, and is read as its bit 5, padding never counting |
| PathChecks.BasicConstraintsOfMeans | src/trust/store.rs:13-25 | the flag and limit are those of the first basicConstraints extension, and there is neither without one |
| PathChecks.CaExtensionsAccept | src/trust/store.rs:120-137 | accepted are exactly the certificates whose basicConstraints read as cA TRUE and whose keyUsage, if there is one, is a BIT STRING with bit 5 set |
| PathChecks.RejectBadExtensions | src/trust/store.rs:235-296 | the two loops accept exactly the certificates without duplicate extensions and without a critical one that is not processed |
| PathChecks.CountSubordinateCas | src/trust/store.rs:143-175 | the loop counts the non-self-issued CAs below, if all certificates there parse |
| PathChecks.EnforcePathLen | src/trust/store.rs:143-175 | an issuer's limit holds, or there is none |
| PathChecks.TopDownIsRecount | src/trust/store.rs:143-175 | a pass from the top with a budget accepts what the budget covers and every lower issuer's limit covers |
| PathChecks.RecountIsTopDown | src/trust/store.rs:854-894 | recounting below every issuer accepts exactly the paths of one top-down pass |
| PathChecks.TopDownVersusRfc | src/trust/store.rs:120-175 | with every certificate above the leaf an authority, the code accepts exactly the paths that steps (k) to (n) of section 6.1.4 of RFC 5280 accept in which, when a limit reaches the leaf, the leaf's basicConstraints parse and a non-self-issued CA leaf finds a step left |
| PathChecks.PathVersusRfc | src/trust/store.rs:854-894 | on every path the code's authority and path length checks hold exactly when the topmost certificate is an authority, the RFC's pass started with its limit succeeds, and the leaf fits |
| PathChecks.CaLeafDiffers | src/trust/store.rs:143-175 | every non-self-issued CA leaf under a used-up limit is refused by the code and not by the RFC |
| PathChecks.MalformedLeafDiffers | src/trust/store.rs:143-175 | a leaf with malformed basicConstraints is refused by the code under every limit, not by the RFC, and accepted without a limit |
| PathChecks.RulesAreDistributive | src/ltv/name_constraints.rs:137-241 | the checks of the name-constraint state distribute over merging |
| PathChecks.AccumulatedIsConjunction | src/trust/store.rs:312-336 | the accumulated constraints accept what each issuer's own constraints accept |
| PathChecks.EnforceNameConstraintsPath | src/trust/store.rs:312-336 | the walk succeeds exactly when every issuer's extension parses and every certificate meets the own constraints of every issuer above it |
| PathChecks.Walk | src/trust/store.rs:312-336 | the outer loop, with the state equal to the constraints accumulated so far |
| PathChecks.CheckBelow | src/trust/store.rs:312-336 | the inner loop accepts exactly when the state accepts every lower certificate |
| PathChecks.SinglePassSuffices | src/trust/store.rs:312-336 | checking each certificate once against all constraints above it decides the same |
| PathChecks.LongerPathIsStricter | src/trust/store.rs:312-336 | a part of an accepted path is accepted, so adding an issuer never widens |
| AnchorSearch.AllFailMeansNoneHolds | src/trust/store.rs:687-699 | there is a candidate exactly when an anchor has the name, and all fail exactly when no anchor holds |
| AnchorSearch.FirstPassingCandidate | src/trust/store.rs:687-699 | the first candidate that passes is the first anchor that holds |
| TrustStores.TrustStore.AddCertificate | src/trust/store.rs:602-608 | the anchor is appended with its encoding |
| TrustStores.TrustStore.CheckTime | src/trust/store.rs:828-847 | accepted exactly inside the validity window, a fraction of a second past its end being outside |
| TrustStores.TrustStore.CheckCertificates | src/trust/store.rs:807-847 | the loops accept exactly when all certificates have tolerable extensions, the leaf its purpose, and all are in their windows |
| TrustStores.TrustStore.CheckLink | src/trust/store.rs:854-894 | a link holds exactly when names chain, the signature verifies, the issuer is a CA and its limit holds; a reported fault is there |
| TrustStores.TrustStore.WalkLinks | src/trust/store.rs:854-894 | the walk succeeds exactly when all links hold |
| TrustStores.TrustStore.FindStoredRoot | src/trust/store.rs:896-921 | finds the first anchor equal byte for byte to a self-issued last certificate |
| TrustStores.TrustStore.TryAnchor | src/trust/store.rs:938-984 | a candidate passes exactly when the chain extended with it is a complete valid path |
| TrustStores.TrustStore.TryEach | src/trust/store.rs:930-996 | the loop returns the first candidate that passes whatever failed before it, else the last fault |
| TrustStores.TrustStore.TryCandidates | src/trust/store.rs:923-996 | the first anchor that completes a path is returned; on an error none does; untrusted root exactly when no anchor has the name |
| TrustStores.TrustStore.VerifyChainInner | src/trust/store.rs:794-996 | Ok exactly when the chain is accepted, with the first anchor acceptance rests on; exact conditions for an empty chain and an untrusted root; faults inside the chain are real |
| AcceptedPaths.ExtensionsOkMeans | src/trust/store.rs:235-296 | no identifier twice, only the seven processed extensions critical, and no critical key purposes on an authority |
| AcceptedPaths.CompletedMeans | src/trust/store.rs:923-996 | an anchor completes a chain exactly when it makes a valid path of it |
| AcceptedPaths.AcceptsExactlyValidPaths | src/trust/store.rs:794-996 | the store accepts exactly the chains with the purpose that are a valid path up to a stored root that signs itself or, not ending at a stored self-issued certificate, become one with some anchor: windows, extensions, names, signatures, authority, RFC limits and name constraints over the certificates' fields and the backend's answers |
| TrustStores.AcceptanceMonotoneInPolicy | src/trust/store.rs:802-802 | a chain accepted under a policy is accepted under every laxer one |
| TrustStores.AcceptanceIgnoresAnchorOrder | src/trust/store.rs:896-996 | acceptance depends only on which anchors are stored |
| TrustStores.AcceptanceWithinAnchors | src/trust/store.rs:896-996 | with more anchors an accepted chain stays accepted if and only if the additions do not newly store its self-issued last certificate while that does not sign itself |
| TrustStores.StoringARolloverCertificateEndsAcceptance | src/trust/store.rs:896-921 | a concrete store, addition and chain where adding an anchor ends acceptance |
| TrustStores.AcceptanceMonotoneInAnchors | src/trust/store.rs:896-996 | adding anchors keeps acceptance when the last certificate is not self-issued |
| TrustStores.EffectivePolicyIsMeet | src/ltv/ocsp.rs:1983-1990 | the effective policy is the laxest that is as strict as both |
| TrustStores.EffectivePolicyIsIntersection | src/ltv/ocsp.rs:1965-1999 | a path accepted under the effective policy is accepted under the caller's and the store's |
| TrustStores.AcceptedChainLimits | src/trust/store.rs:854-894 | a chain whose checks hold meets the limits of one top-down pass and of the RFC, leaf included |
| TrustStores.AcceptedPathLengths | src/trust/store.rs:938-954 | an accepted chain with the anchor that completes it meets those limits too |
| ChainBuilding.FindIssuer | src/trust/chain_build.rs:67-142 | the inner scan finds the first unvisited certificate with the issuer's name whose key verifies, and says whether one failed on its signature alone |
| ChainBuilding.BuildChainFromPool | src/trust/chain_build.rs:67-142 | an Ok chain is the greedy one, at most one longer than the depth, and if shorter ends at a self-issued or anchor-issued certificate; an error names a real dead end |
| ChainBuilding.GreedyStepMeans | src/trust/chain_build.rs:67-142 | no certificate before the last is self-issued or anchor-issued, and each is followed by the first of the pool with the issuer's name, a new encoding and a verifying key |
| ChainBuilding.BuiltChainIsBounded | src/trust/chain_build.rs:67-142 | for every pool the chain starts at the leaf, repeats no encoding and is at most one longer than the number of distinct pool certificates |
| ChainBuilding.BuiltChainIsLinked | src/trust/chain_build.rs:67-142 | consecutive certificates are linked by name and signature |
| ChainBuilding.GreedyChainUnique | src/trust/chain_build.rs:67-142 | the greedy chain of a length is unique |
| ChainBuilding.BuildAndVerify | src/trust/store.rs:854-872 | on a built chain, verification under the same policy never reports a broken link or a bad signature inside it |
| CrlSyntax.ValidateCrlExtensions | src/ltv/crl.rs:566-606 | the loop accepts exactly non-empty lists of allowed extensions without a repeated identifier |
| CrlSyntax.ExtensionsContainOid | src/ltv/crl.rs:544-562 | the cursor loop finds the identifier, a malformed list being an error and not an absence |
| CrlSyntax.ContainsOidReads | src/ltv/crl.rs:544-562 | found exactly when an element names the identifier after well-formed extensions only; absent exactly when the whole body is well-formed extensions that do not name it |
| CrlSyntax.ParseRevocationReason | src/ltv/crl.rs:895-937 | the cursor loop gives the first readable reason code, else unspecified |
| CrlSyntax.ReasonReadsBack | src/ltv/crl.rs:895-937 | for printed extensions the reason is that of the first reason-code extension, and unspecified when none is readable |
| CrlSyntax.ParseRevokedCertificates | src/ltv/crl.rs:845-890 | the cursor loop reports the entries in order or fails at the first malformed one |
| CrlSyntax.CutSigned | src/ltv/crl.rs:627-651 | the offsets computed from lengths cut out exactly the encoding of the first child |
| CrlSyntax.ParseTbs | src/ltv/crl.rs:688-834 | the cursor over the signed part reports its issuer slice, dates and entries |
| CrlSyntax.ParseCrl | src/ltv/crl.rs:627-834 | the parser reports exactly what the bytes mean as a CRL, errors included |
| CrlSyntax.CrlBijection | src/ltv/crl.rs:627-834 | bytes read as an abstract CRL exactly when they are its printed form and it is a complete direct CRL |
| CrlSyntax.CrlLayout | src/ltv/crl.rs:627-834 | the printed form tag by tag, in the order of section 5.1 of RFC 5280 |
| CrlSyntax.CrlOkMeans | src/ltv/crl.rs:544-834 | a complete direct CRL: one algorithm stated twice, a signature, decodable dates, no delta or partition marker, and only non-critical, unrepeated extensions with good reason codes |
| CrlSyntax.ViewMeans | src/ltv/crl.rs:822-834 | what is reported: issuer encoding, dates, and each entry's serial, date and reason in order |
| CrlSyntax.ParsePrintedCrl | src/ltv/crl.rs:1407-1481 | printing any complete direct CRL and parsing it returns its issuer, dates and entries in order |
| CrlSyntax.AcceptedCrlIsAccountedFor | src/ltv/crl.rs:627-834 | accepted bytes are the outer SEQUENCE of the signed bytes, the algorithm and the BIT STRING of a zero octet and the signature; every reported field comes from the signed bytes |
| CrlSyntax.OneEncodingPerCrl | src/ltv/crl.rs:627-834 | two accepted byte strings with the same abstract CRL are equal |
| CrlVerdicts.StoredDatesStandInForReparse | src/ltv/crl.rs:39-52 | the stored dates decide currentness as a reparse would, at every instant and policy |
| CrlVerdicts.CurrentMeans | src/ltv/crl.rs:48-51 | dates are current from a skew before thisUpdate to the end of the window |
| CrlVerdicts.SearchEntries | src/ltv/crl.rs:1250-1281 | the loop gives the status of the first entry for the serial |
| CrlVerdicts.CheckRevocation | src/ltv/crl.rs:1218-1281 | the check on bytes gives the verdict on what they mean; with `CheckCrlMeans` for when there is one |
| CrlVerdicts.CheckCrlMeans | src/ltv/crl.rs:960-1005 | there is a verdict exactly when the CRL parses, the issuer may sign CRLs, is named by it and by the certificate, and verifies it under an allowed digest, and the instant is within its window |
| CrlVerdicts.FirstEntryIsFirst | src/ltv/crl.rs:1250-1281 | the entry a verdict rests on is the first that matches, and without one none matches |
| CrlVerdicts.RevokedExactlyWhenListed | src/ltv/crl.rs:1218-1281 | for minimal non-negative serials, a printed CRL that is relied on revokes exactly when it lists the serial, first in an entry dated not after the instant, with that entry's reason and date |
| CrlVerdicts.VerdictIsAStepFunction | src/ltv/crl.rs:1080-1281 | valid before the first matching entry's date, revoked with that entry from then on, an error past one cutoff |
| CrlVerdicts.RevocationIsNeverUndone | src/ltv/crl.rs:1218-1281 | after a revoked verdict every later instant gives the same verdict or an error |
| CrlVerdicts.VerdictMonotoneInPolicy | src/ltv/crl.rs:960-1005 | a stricter policy only turns verdicts into errors |
| CrlVerdicts.SelectCrl | src/ltv/crl.rs:384-416 | the first current body, else the first downloaded one, else none |
| CrlVerdicts.FetchCrlsForCert | src/ltv/crl.rs:384-416 | the same selection, with currentness read off the bodies |
| CrlCaching.CrlCache.SumBytes | src/ltv/crl.rs:101-101 | the sum over the values is the true total |
| CrlCaching.CrlCache.InsertCacheEntry | src/ltv/crl.rs:91-115 | a replaced entry aside, each eviction removes an oldest entry and only while a bound would be broken; the loop ends without its break, the running total stays exact, and the entry is in |
| CrlCaching.CrlCache.LookupUrl | src/ltv/crl.rs:246-266 | a live entry is served or refused for size and stays; any other is dropped |
| CrlCaching.CrlCache.StoreFetched | src/ltv/crl.rs:335-350 | a body that parses is inserted with the dates it parses to; any other leaves the cache alone |
| CrlCaching.CrlCache.ClearCache | src/ltv/crl.rs:419-423 | the cache becomes empty |
| CrlCaching.EveryStateIsSound | src/ltv/crl.rs:85-115 | in every state of every run there are at most 64 entries and 32 MiB, and stored dates are those of the bytes |
| CrlCaching.EveryStateIsBounded | src/ltv/crl.rs:85-115 | the bounds in numbers, in every state of every run |
| CrlCaching.CachedCurrentnessIsTrue | src/ltv/crl.rs:241-266 | in every state of every run the cached decision equals the one on the bytes |
| CrlCaching.InsertionThatFitsEvictsNothing | src/ltv/crl.rs:91-115 | nothing is evicted exactly when the entry fits, and what is evicted was there |
| CrlCaching.EvictionsAreOldestAndNeeded | src/ltv/crl.rs:102-113 | each eviction takes an entry fetched no later than any other, while 64 entries or 32 MiB would be exceeded |
| CrlCaching.InsertionKeepsTheRest | src/ltv/crl.rs:91-115 | an oversized entry changes nothing, any other is in, and what was not evicted or replaced stays as it was |
| OcspMatching.CertIdReadsBack | src/ltv/ocsp.rs:544-580 | the CertID built for a certificate reads back as the issuer hashes and the stripped serial |
| OcspMatching.CertIdLayout | src/ltv/ocsp.rs:544-597 | the octets of a CertID: SHA-1 identifier, name hash, key hash, serial |
| OcspMatching.EchoedResponseParses | src/ltv/ocsp.rs:912-963 | a response that echoes the CertID parses whenever its answer does and reports that identity |
| OcspMatching.AnswerReadsBack | src/ltv/ocsp.rs:965-1072 | a printed status with its dates reads back |
| OcspMatching.AnswerWithExtensions | src/ltv/ocsp.rs:1018-1028 | extensions may follow the dates, once, and must be acceptable |
| OcspMatching.FindMatchingResponse | src/ltv/ocsp.rs:2004-2025 | the scan gives the first response for the identity, or an error if that one uses another hash |
| OcspMatching.FirstMatchIsFirst | src/ltv/ocsp.rs:2004-2025 | a matching response with none before it is the result |
| OcspMatching.FirstMatchIdentifies | src/ltv/ocsp.rs:2004-2025 | a result is in the list, identifies the certificate and uses the request's hash |
| OcspMatching.EchoIsMatched | src/ltv/ocsp.rs:2004-2025 | an echoed CertID is matched when no earlier response identifies the certificate |
| OcspMatching.MatchIsAboutTheCertificate | src/ltv/ocsp.rs:2004-2025 | without hash collisions a match is about the same issuer name, key and serial value, and for minimal non-negative serials the same serial |
| OcspMatching.NonceMatchesExactlyTwo | src/ltv/ocsp.rs:1456-1479 | exactly the nonce and its OCTET STRING are accepted, so the third branch adds nothing |
| OcspMatching.OcspStatusOverTime | src/ltv/ocsp.rs:1539-1579 | a revoked answer stays until the response expires, which it does for good |
| OcspMatching.StatusAtMeans | src/ltv/ocsp.rs:1927-1957 | a fresh response answers revoked, with reason and date, exactly when it says so with a date not after the instant, unknown when it says unknown, valid otherwise; nothing when not fresh |
| OcspChecks.VerifyResponseSignature | src/ltv/ocsp.rs:1126-1176 | the loop gives the first candidate whose key verifies, the caller's issuer standing in for its look-alikes |
| OcspChecks.SignerIsACandidate | src/ltv/ocsp.rs:1126-1176 | the signer is a candidate whose key verifies the response, or the issuer in place of one |
| OcspChecks.SignerMeans | src/ltv/ocsp.rs:1126-1176 | the signer is the first candidate whose key verifies under an allowed digest, or the issuer in place of one with its name and key |
| OcspChecks.FractionKeepsWindowsExact | src/ltv/ocsp.rs:1965-1999 | cutting the instant to whole seconds, with the fraction flag, keeps validity windows exact |
| OcspChecks.DefiniteAnswerHasTrustedSigner | src/ltv/ocsp.rs:1805-1963 | a valid or revoked answer is that of the first response for the certificate, in a response that a candidate's key verifies; the signer is that candidate or the issuer it looks like, and is the issuer, carries the waiver, or is handed back for its own check; a supplied path starts at the issuer and is accepted, and a delegated signer's path is accepted under the effective and the caller's policy |
| OcspChecks.CheckDetailedMeans | src/ltv/ocsp.rs:1805-1963 | the outcome exactly: a signer that verifies first, is in its window, named by the response, the issuer or issued and signed by it as a responder within its name constraints, with accepted paths and an echoed nonce, and the status of the first response for the certificate; who is handed back for a check |
| OcspChecks.RevokedExactlyWhenAnswered | src/ltv/ocsp.rs:1805-1963 | in an accepted response that echoes the CertID with a printed answer, the status is that answer: revoked, with its reason and date, exactly when dated not after the instant |
| Statuses.ResolutionIsASymmetricChoice | src/ltv/status.rs:187-235 | resolution picks one of its arguments, and its kind does not depend on their order or grouping |
| Revocation.CollectRevocationResults | src/ltv/revocation.rs:316-348 | for every schedule a source ends with its own result if it was ready at the deadline poll, or at the next one when the other source was first ready exactly at the deadline poll; otherwise it is unknown |
| Revocation.CollectLateResult | src/ltv/revocation.rs:316-348 | a concrete schedule in which a source not ready by the deadline is received |
| Revocation.FinalKinds | src/ltv/revocation.rs:301-376 | a received revocation decides under every policy and preference; the kind of result never depends on the preference; never unknown when required |
| Revocation.CollectAndDecide | src/ltv/revocation.rs:270-299 | the merged result of every schedule; a revocation ready by the deadline makes it revoked |
| Revocation.ReceivedRevocationDecides | src/ltv/revocation.rs:270-299 | a revoked result of a received source is the final result at every level; with `SourcesDecide` for what the sources give |
| Revocation.SourcesDecide | src/ltv/revocation.rs:270-648 | the result is revoked exactly when an accepted response whose responder holds, or an accepted CRL, gives a revoked status, and valid exactly when one gives a valid status and none a revoked one |
| Revocation.PreferenceBreaksTies | src/ltv/revocation.rs:301-311 | between two statuses of the deciding kind the preferred source's is the result |
| Revocation.SilenceIsUnknown | src/ltv/revocation.rs:361-735 | the result is unknown exactly when it is not required and neither source taught anything: not received, no URL, timed out, not fetched, a responder's own refusal, or an unknown answer; failed validations are never silence |
| Revocation.PreferenceNeverMatters | src/ltv/revocation.rs:270-648 | at every recursion level the OCSP result and the kind of the final result are the same under both preferences |
| Revocation.NeverUnknown | src/ltv/revocation.rs:361-376 | under a required check the result is never unknown |
| Revocation.CheckSupported | src/ltv/revocation.rs:270-648 | under every policy a definite result has an evidence tree with at most the allowed number of delegated links, complete when no responder's own check on the branch was unknown |
| Revocation.CompleteExactlyWhenNoneUnknown | src/ltv/revocation.rs:441-648 | under every policy a definite result has complete evidence if and only if no responder's own check on the branch was unknown |
| Revocation.RequiredChecksAreNeverUnknown | src/ltv/revocation.rs:601-648 | under a required check no responder's own check is unknown, at any depth |
| Revocation.LinksBounded | src/ltv/revocation.rs:601-648 | every tree that supports a status has at most the allowed number of delegated links |
| Revocation.SupportIsGenuine | src/ltv/revocation.rs:441-735 | every CRL in the tree gives its certificate the status the tree rests on, and so does every response, signed, by a trusted signer |
| Revocation.UnsignedIsNoEvidence | src/ltv/ocsp.rs:1126-1176 | without a key that verifies responses, genuine evidence is a CRL |
| Revocation.NoKeyNoEvidence | src/ltv/crl.rs:960-1005 | a CRL that no key verifies is no genuine evidence, and without keys for either there is none |
| Revocation.DefiniteResultHasGenuineEvidence | src/ltv/revocation.rs:270-648 | for every environment, clock readings per level and source, and policy, a definite result has a finite genuine evidence tree with at most `max_ocsp_recursion` delegated links, complete under a required check; and every tree that supports it is genuine and as short |
| RelaxedPolicy.RelaxedPolicyToleratesUnknownResponder | src/ltv/revocation.rs:601-648 | for every recursion limit above zero, a run of the library's own checks under the relaxed policy whose valid result has no complete evidence |
| RelaxedPolicy.NoPathNoDelegate | src/ltv/ocsp.rs:1843-1858 | without an issuer path the library hands no delegated responder back |
| RelaxedPolicy.OpenExactlyUnderRelaxedPolicy | src/ltv/revocation.rs:441-648 | for given settings, recursion limit and presence of an issuer path, some run of the library's checks leaves a definite result without complete evidence if and only if the check is not required, the nonce settings do not rule OCSP out, the limit is not zero and a path is given |

## Left out

- HTTP, DNS, address filtering, TLS and AIA fetching: every fetch is an arbitrary outcome of the environment.
- Cryptography: a signature verifies or not and its digest is weak or not, for arbitrary predicates; the policy only rules out weak digests.
- Certificate decoding by the `der`, `x509-cert` and `spki` crates: a certificate is a datatype of fields, and a Name is its DER encoding.
- AlgorithmIdentifier, Extensions and time codecs: arbitrary functions of the bytes; calendar arithmetic is not modelled and instants are unbounded integers.
- The envelope of an OCSP response (`parse_ocsp_response`, `parse_basic_ocsp_response`): an arbitrary function from bytes to signer, embedded certificates, nonce and single responses; single responses themselves are parsed.
- Role profiles other than the CA profile: an arbitrary predicate on a certificate and a role.
- Loading anchors from files, PEM scanning, labels and sets of stores: easy members, or I/O.
- Timestamp tokens and their client.
- Error texts: errors are kinds, with a position where one is reported; a bad signature carries the position of the certificate.
- Which of several equally old cache entries is evicted: any of them, since the hash map's order is not fixed.
- Lock poisoning in the cache, and allocation failure.
- Case and white-space tables of Unicode: arbitrary, given that the space is white space and that lower-casing text gives text without white space.
- The monotonic clock: a parameter of the cache look-up, so elapsed time may be any integer.
