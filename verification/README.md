# veil-guard: verified model of the verification protocol

A Dafny model of what veil-guard does from the bytes on disk to the answers of its Tier 1
Service Worker, with proofs. Signature verification and hashing are functions handed in from
outside (`TrustRoots.Primitives`); everything around them - byte layouts, lists, counts,
offsets, memory addresses, states - is concrete. No hash is assumed injective: where a result
needs two particular strings not to collide, it says so for those two strings.

| files | models |
|---|---|
| `Prelude` | bytes, outcome datatypes, byte-string order |
| `Bundle`, `TrustRoot`, `Threshold`, `Layouts` | `src/crypto.rs`: the signature container, trust roots, the quorum rule; both formats byte by byte |
| `Manifest`, `Signing`, `Revocation`, `SignedRevocations`, `Paths` | `src/manifest.rs`: the Rust verdicts, signing against verifying, revocation, path order |
| `JsVerify`, `Judging` | `runtime/veilguard-verify.mjs`: the JavaScript verdicts, where the two verifiers agree, and which violation has which verdict |
| `Hasher`, `Interleaving`, `Streaming` | the streaming hasher over shared Wasm memory, and streamed verification |
| `Policy`, `Rotation`, `SignedRotations` | `runtime/veilguard-policy.mjs` |
| `Worker`, `WorkerSafety`, `Refreshing`, `Answering` | `runtime/veil-guard-sw.js`: the worker as an object, what every run of it keeps, what a refresh achieves, and which request gets which answer |
| `Html`, `Printing`, `Escaping`, `Splice`, `Rescan`, `Reinject`, `Inject`, `Covering`, `Base64` | `src/html.rs`, `src/generators.rs`: locating tags, what is read of a page as written, splicing, which tags gain what, scanning the output again |
| `Daemon`, `Diff`, `Diverging` | `src/auditor.rs`: the alerting daemon, the snapshot comparison and what it reports |

Loops and objects of the source are methods and classes here, each proved equal to a
specification function; the theorems are about those functions. For each main operation there is
one that says when it does what without calling the functions it is about: `Layouts.BundleLaidOut`,
`Layouts.ValidRootIs`, `Judging.ContentIs`, `SignedRevocations.SignedRevocation`,
`Refreshing.RotatedRefresh`, `Answering.EveryAnswerExplained`, `Printing.PrintedPageScans`,
`Covering.ReportIs`, `Daemon.FailingIffGrave`, `Diverging.ReportsExactly`. `dafny verify dfyconfig.toml`
checks everything.

## What turned out otherwise than written down

The code is modelled as it is. Where its documentation, or a natural expectation, says something
else, the difference is itself a theorem:

- The protocol description (section 9.2.3, item 4) wants a manifest that enough un-revoked keys
  signed to be VALID under a revocation. `verify_manifest_with_revocation` compares the manifest's
  root identifier with that of the filtered root, so as soon as one key of the root is revoked the
  verdict is UNTRUSTED_ROOT, whatever the revoked keys signed (`HealthyUnderRevocation`, with
  `HealthyManifestRefused` as an instance).
- The trust-root identifier covers the algorithm list only as a bit mask, the keys only as decoded
  and the threshold only as a byte. The JavaScript verifier does not validate the embedded root, so
  it accepts there a permuted or repeating list, keys spelled in capitals, or a threshold larger by
  256, all of which the Rust verifier calls TAMPERED (`VerifiersAgree`, `VariantsDiverge`).
- Rust compares paths as UTF-8, JavaScript as UTF-16. The orders differ exactly when the first
  difference sets a supplementary-plane character against one of U+E000..U+FFFF (`OrdersAgree`, `OrdersPart`);
  where neighbouring paths do that, no manifest passes both verifiers (`VerifiersAgree`).
- An attribute list that ends in a bare `=` takes the inserted attribute for that attribute's
  value: the tag ends up unprotected (`ProtectedUnlessBare`, on a page in full
  `BareScriptStaysUnprotected`).
- The JavaScript rotation verifier checks neither the key identities of the root rotated to nor
  the upper bound of the version; the two verifiers agree on a rotation exactly where these hold
  (`RotationsAgree`, `OversizedRotationDiverges`).
- Cached bodies have their entry's digest exactly for entries whose cache key is their own
  (`HitsMatchExactly`), which every field of 64 letters and digits makes it. A field that spells the
  path of the control mirror is answered with the mirrored manifest (`MisshapenDigestHitsMirror`),
  a digest with a fragment behind it with the body of the bare digest (`FragmentHitsAnother`).
- Findings are compared by kind, NUL, subject. That tells apart what kind and subject tell apart
  exactly if no kind is another with a NUL behind it (`KeysTellPairs`, `KindsCollide`); otherwise
  snapshots with different findings can compare as equal (`NulConfuses`).
- The comment at `src/html.rs:53` says content spans are recorded for scripts without `src`; the
  scanner records them for every script that is not self-closing (`ScriptsHaveText`).
- The protocol description (section 9.1, rule 4) asks of a rotation that its version be at least the
  pinned manifest version; the code compares it with the pinned rotation version only. On any
  platform, a signed statement is accepted against the rule exactly if its version lies strictly
  between the two (`AcceptedAgainstTheRule`, `ManifestVersionIsNoFloor`).
- Section 9.1 forbids cycles. No root is applied twice, but the root a walk starts from does not
  count as applied (`CyclesOnlyThroughTheStart`), and a walk can come back to it (`WalkComesBack`).

## Model

| member | source | states |
|---|---|---|
| Bundle.ParseBundle | src/crypto.rs:270-340 | the cursor loop with its early returns yields, for every byte string, the entries or the first violated rule as `Parsed` names it |
| Bundle.BuildBundle | src/crypto.rs:342-359 | sorting and appending yields `Built` of the entries |
| Bundle.ParseThenBuild | src/crypto.rs:270-359 | whatever the parser accepts is canonical (1 to 64 legal entries, strictly sorted), and re-encoding it gives back the same bytes |
| Bundle.BuildThenParse | src/crypto.rs:342-359 | any list at all, however long its signatures, encodes to something that parses if and only if count, signature lengths and pairs are legal, and then to the same entries sorted |
| Bundle.AcceptedBytes | src/crypto.rs:270-340 | the accepted byte strings are exactly the encodings of canonical lists |
| Bundle.OrderIrrelevant | src/crypto.rs:342-346 | entries with distinct pairs encode to the same bytes in whatever order they were collected |
| Layouts.BundleLaidOut | src/crypto.rs:244-359 | a byte string parses to these entries if and only if they keep the rules (1 to 64, ascending by identifier and algorithm number, signatures of at most 128 bytes and of 64 under a known algorithm) and lie in it at their offsets: magic, version 1, zero, the number of entries with the low byte first, and each entry field by field |
| TrustRoots.Validate | src/crypto.rs:175-208 | no error if and only if the root meets every declared rule: ranges, canonical algorithms, key fields and identities, ascending keys |
| TrustRoots.TrBytes | src/crypto.rs:210-222 | the mask fold and appended buffer give the root's encoding, or nothing if a key field does not decode |
| TrustRoots.MaterialInjective | src/crypto.rs:210-222 | equal encodings force equal byte thresholds, key sequence and set of algorithms, even though the key count is cut to a byte |
| TrustRoots.RootBytesInjective | src/crypto.rs:175-222 | on validated roots equal bytes force equal roots up to the advisory role field |
| TrustRoots.ValidityFollowsMaterial | src/crypto.rs:175-222 | a root with the encoding of a valid one is valid itself exactly when its algorithm list is in canonical order and its threshold is a byte |
| TrustRoots.DomainsAreDisjoint | src/crypto.rs:18-22 | no byte string is a signed message under two different signing prefixes |
| TrustRoots.UnhexInjective | src/crypto.rs:61-72 | every byte string has one accepted hex spelling |
| TrustRoots.HexIsSpelling | src/crypto.rs:61-72 | encoding gives, and decoding takes, exactly the two lower-case digits of each byte, the higher one first |
| Layouts.ValidRootIs | src/crypto.rs:175-208 | validation passes if and only if there are 1 to 16 keys, a threshold they can reach, one of the three algorithm lists in order, and every key's fields spell an identifier, a key and an uncompressed point of which the first is the hash of the others, ascending |
| Layouts.RootLaidOut | src/crypto.rs:210-222 | the encoding exists exactly if all key fields spell what they should, and is threshold, key count, one bit per algorithm, and 105 bytes a key |
| Layouts.IdentifierIs | src/crypto.rs:226-235 | the identifier is the hex of the hash of those bytes under their domain |
| Layouts.SignedUnderItsDomain | src/crypto.rs:535-556 | a signer contributes algorithm 1 and 2 over the document behind the prefix of its kind, under the identifier its two public keys give |
| Threshold.CheckThreshold | src/crypto.rs:419-463 | the nested loops compute the order-free outcome: unsupported, tampered, or the number of qualifying keys |
| Threshold.ThresholdMeaning | src/crypto.rs:400-463 | tampered exactly when some root key has a failing entry under an active algorithm; otherwise the count of keys that signed under all active algorithms |
| Threshold.ForeignIrrelevant | src/crypto.rs:419-463 | removing an entry of an outsider, or under an inactive algorithm, changes nothing |
| Threshold.DeletionNeverHelps | src/crypto.rs:419-463 | dropping any entries from a bundle that is not tampered never makes it tampered and never raises the count |
| Threshold.CountIsBounded | src/crypto.rs:419-463 | a key counts once and by entries of its own: the count is at most the number of ring keys, and times the active algorithms at most the number of entries |
| Signing.BundleOfSigners | src/crypto.rs:342-359 | the collected signatures of distinct signers parse if and only if there are 1 to 32 of them, and then to the same set, sorted |
| Signing.SignedOutcome | src/crypto.rs:535-556 | the bundle of any signers, outsiders included, whose own signatures verify reaches exactly the number of root keys among them |
| Signing.SignThenVerify | src/manifest.rs:149-206 | sign, encode, verify: for a valid root and manifest and any number of signers the verdict follows from how many root keys signed, the version and the clock, in any signing order |
| Manifests.CheckStructure | src/manifest.rs:102-134 | the scanning loop decides structural validity |
| Manifests.VerifyManifest | src/manifest.rs:149-206 | the early-return chain computes `ManifestVerdict` |
| Manifests.VerifyManifestWithRevocation | src/manifest.rs:209-236 | filtering the root in place and verifying under it computes `RevokedVerdict` |
| Manifests.VerifyRotation | src/manifest.rs:257-300 | the chain computes `RotationVerdict` |
| Manifests.VerifyRevocation | src/manifest.rs:324-381 | the chain and its scan over the named keys compute `RevocationVerdict`, of which `SignedRevocation` says when it accepts |
| RevocationEffects.QuorumIffBacked | src/manifest.rs:158-176 | the bundle gets past the signature checks exactly when it is the encoding of a canonical list in which no root key's signature is bad and a threshold of root keys signed under all of at least one active algorithm |
| RevocationEffects.PassedExactly | src/manifest.rs:149-206 | valid, expired or rolled back if and only if root, signatures, structure and identifiers are all in order, with no order of checks in the condition; and which of the three, from version and clock |
| RevocationEffects.AcceptedLeavesThreshold | src/manifest.rs:360-378 | an accepted revocation leaves at least the threshold of keys and a root that still validates, so the short-of-keys exit cannot fire |
| RevocationEffects.PassedRestsOnUnrevoked | src/manifest.rs:209-236 | any passing verdict under a revocation rests on at least `threshold` un-revoked keys that signed under every active algorithm |
| RevocationEffects.HealthyUnderRevocation | src/manifest.rs:209-236 | a sound manifest that enough un-revoked keys signed, whatever the revoked ones signed, has the verdict of version and clock exactly when no key of the root is revoked, and UNTRUSTED_ROOT otherwise |
| RevocationEffects.PassingUnderRevocation | src/manifest.rs:209-236 | a manifest that passes without the revocation keeps its verdict exactly when no key of the root is revoked |
| RevocationEffects.HealthyManifestRefused | src/manifest.rs:181-194 | an instance where enough un-revoked keys signed and the verdict is not VALID |
| SignedRevocations.SignedRevocation | src/manifest.rs:324-381 | sign, encode, revoke: a statement is accepted if and only if enough root keys signed, it is of the right kind, its numbers are safe, its version is above the pinned one, it has not ended and ends after its version, it names this root, and lists at most as many keys as the root can spare, each a key of the root |
| SignedRevocations.NoReplay | src/manifest.rs:354-359 | whoever signed it, a statement once accepted is accepted at exactly the pinned versions below its own, up to its end |
| Judging.StructureIs | src/manifest.rs:102-134 | a manifest is structurally valid if and only if spec, numbers and algorithms are as they should be, its root keeps the rules for roots, and its assets are normalized and ascend by code points |
| Judging.ContentIs | src/manifest.rs:174-206 | past the signatures: tampered exactly if a rule is broken or the manifest misnames its own root, untrusted exactly if it is sound but of another root, and otherwise rolled back, expired or valid by version and clock |
| Paths.RustOrderIs | src/manifest.rs:129 | the byte order of Rust is the dictionary order of code points |
| Paths.OrdersAgree | src/manifest.rs:129 | UTF-8 and UTF-16 order agree on two paths if and only if their first difference does not straddle the surrogates |
| Paths.BasicPlaneAgrees | runtime/veilguard-verify.mjs:251 | on paths without supplementary-plane characters the two orders are one |
| Paths.OrdersPart | runtime/veilguard-verify.mjs:251 | U+E000 and U+10000 are ordered one way by Rust and the other by JavaScript |
| JsVerify.VerifyManifestJs | runtime/veilguard-verify.mjs:202-257 | the JavaScript chain, with its filter for revoked keys, computes `JsManifestVerdict` |
| JsVerify.VerifyRotationJs | runtime/veilguard-verify.mjs:260-291 | the JavaScript chain computes `JsRotationVerdict` |
| JsVerify.EmbeddedRootMatches | runtime/veilguard-verify.mjs:236-237 | an embedded root in canonical hex with the identifier of a valid pinned root has encodable keys and is itself valid exactly when its algorithm list is canonical and its threshold a byte |
| JsVerify.VerifiersAgree | runtime/veilguard-verify.mjs:202-257 | what Rust passes, JavaScript names the same exactly if neighbouring paths compare alike; what JavaScript passes, Rust names the same exactly if besides the embedded algorithms are in order, the embedded keys in canonical hex and the embedded threshold a byte; the other verdict is TAMPERED then, and everything else fails hard on both sides |
| JsVerify.VerifiersAgreeUnderRevocation | src/manifest.rs:209-236 | the same with revoked keys on both sides |
| JsVerify.VariantsDiverge | runtime/veilguard-verify.mjs:236-238 | a signed manifest whose embedded root has the pinned bytes but not the canonical order, spelling or threshold is VALID in JavaScript and TAMPERED in Rust |
| JsVerify.VariantsKeepTheirBytes | runtime/veilguard-verify.mjs:149-155 | swapping two listed algorithms, respelling a key so that it decodes alike, or adding 256 to the threshold leaves the bytes the identifier is made of |
| JsVerify.RotationsAgree | runtime/veilguard-verify.mjs:260-291 | under a valid pinned root Rust accepts exactly the rotations JavaScript accepts whose version is in the safe range and whose new root has only well-formed keys with derived identities |
| JsVerify.HardBySignatures | src/manifest.rs:158-176 | both verifiers: tampered for a bundle that does not parse or has a bad signature of a root key, unsupported without an algorithm, untrusted with too few keys |
| Judging.JsContentIs | runtime/veilguard-verify.mjs:233-257 | past the signatures JavaScript compares identifiers before structure: untrusted exactly if the manifest names its own root rightly and another than the pinned one, tampered exactly if it misnames it or is ours and breaks a rule |
| Judging.InvalidRootIsUntrusted | src/manifest.rs:149-157 | under a pinned root that breaks the rules - for JavaScript, its own fewer rules - manifests are not trusted, whatever else is wrong with them, and no statement is taken |
| WasmHasher.SlotsDisjoint | runtime/veilguard-verify.mjs:570-605 | different slots are disjoint stretches above the heap base |
| WasmHasher.SlotAllocator.Take | runtime/veilguard-verify.mjs:582-596 | a slot is reused or new and lies inside memory, which grew only if it had to and by the fewest 64 KiB pages; no live slot's state changed |
| WasmHasher.TakenKeepsPartition | runtime/veilguard-verify.mjs:582-600 | live and free slots go on partitioning the indices handed out, of which there are as many as were live at once |
| WasmHasher.StateWritten | wasm-hasher/src/lib.rs:45-59 | writing into a slot a state that stands for a message changes what that slot stands for and no other |
| WasmHasher.OthersUndisturbed | wasm-hasher/src/lib.rs:45-73 | whatever a call does inside one slot and below the heap base leaves every other slot's state |
| WasmHasher.WasmSha256Hasher.Update | runtime/veilguard-verify.mjs:626-642 | a chunk of any length, taken through the 64 KiB window, is appended to this hasher's message and to no other's; refused after the end |
| WasmHasher.WasmSha256Hasher.Finalize | runtime/veilguard-verify.mjs:649-657 | the hex digest of this hasher's whole message, once, and the slot is given back |
| WasmHasher.WasmSha256Hasher.Dispose | runtime/veilguard-verify.mjs:660-664 | gives the slot back once, and changes nothing when repeated |
| Interleaving.RunScript | runtime/veilguard-verify.mjs:570-665 | for every interleaving of construct, update, finalize and dispose over one growing memory, each operation answers as on instances that share nothing, and the slots allocated are the peak number alive |
| Interleaving.OwnChunksOnly | runtime/veilguard-verify.mjs:609-665 | an instance's message is the concatenation of the chunks addressed to it, whatever else the script does |
| Interleaving.FinalizeHashesOwnChunks | runtime/veilguard-verify.mjs:649-657 | finalizing a live instance at the end of any script gives the hash of exactly its own chunks |
| Streaming.StreamVerify | runtime/veil-guard-sw.js:307-342 | hashing and counting chunk by chunk gives, for every cut of the body, the verdict on the whole body |
| Streaming.StreamedEqualsBuffered | runtime/veil-guard-sw.js:353-457 | the streamed and the buffered path come to the same outcome for the same reason |
| Streaming.HeadThenEnd | runtime/veilguard-policy.mjs:141-179 | the head verdict is final, or leaves exactly the two questions the end of the stream settles |
| Policy.EveryAssetIsFound | runtime/veilguard-verify.mjs:376-386 | in a structurally valid manifest no entry is shadowed: looking up its path finds it |
| RotationChain.ApplyRotationChain | runtime/veilguard-policy.mjs:213-245 | the loop over at most 8 statements computes `Walk` |
| RotationChain.WalkFindsLongestPrefix | runtime/veilguard-policy.mjs:213-245 | for any server, root and pin returned are the end of the longest acceptable prefix, at most 8 hops, applied identifiers distinct, the pin names the root, and the statements asked for are one more than the hops, but eight at most |
| RotationChain.LeadsClimbs | runtime/veilguard-policy.mjs:226-241 | rotation versions climb by at least one a hop |
| SignedRotations.SignedRotation | runtime/veilguard-verify.mjs:260-291 | sign, encode, rotate: on every platform a signed statement is accepted if and only if enough root keys signed, it is well formed, and its version is above the pinned rotation version |
| SignedRotations.AcceptedAgainstTheRule | runtime/veilguard-verify.mjs:287-288 | it is accepted with a version below the pinned manifest version exactly if its version lies strictly between the two pinned ones |
| SignedRotations.ManifestVersionIsNoFloor | runtime/veilguard-verify.mjs:287-288 | for any root and signers who can speak for it, everything accepted has at least the pinned manifest version if and only if no rotation with a version in between can be stated |
| SignedRotations.CyclesOnlyThroughTheStart | runtime/veilguard-policy.mjs:216-241 | starting root included, a chain is free of cycles if and only if no hop leads back to the start |
| SignedRotations.WalkComesBack | runtime/veilguard-policy.mjs:213-245 | a statement out and a statement back, each signed by the root it leaves, are both taken and end where the walk began |
| SignedRotations.OversizedRotationDiverges | src/manifest.rs:257-300 | a signed rotation with a version beyond the safe range is accepted by JavaScript and rejected by Rust |
| Worker.ServiceWorker.Refresh | runtime/veil-guard-sw.js:142-242 | one refresh takes pin, cache, status, manifest and root to `Refreshed`, of which `Refreshing` says what it takes, refuses and leaves alone |
| Worker.ServiceWorker.Handle | runtime/veil-guard-sw.js:353-457 | one request is answered as `AnswerOf` says of the readied state, with the cause that `Answering` gives, and only a verified body enters the cache |
| Refreshing.RotatedRefresh | runtime/veil-guard-sw.js:175-242 | with the pin on one root, another one built in and one to eight statements on the server, each signed by enough keys of the root it leaves, a manifest signed by enough keys of the last root is taken under that root unless its version is below the pinned one, and pinned with that root's identifier, its version and the last statement's version; from the network or from the mirror |
| Refreshing.FirstRefresh | runtime/veil-guard-sw.js:168-242 | with nothing pinned a manifest signed by enough keys of the built-in root is taken, pinned at rotation version 0 and mirrored, whatever statements there are |
| Refreshing.PinnedRefresh | runtime/veil-guard-sw.js:175-242 | without a complete chain - none needed, none there, or one that is spoilt after any number of good statements - root and rotation version stay, and a manifest signed for the pinned root is taken |
| Refreshing.UnannouncedRootRefused | runtime/veil-guard-sw.js:172-174 | and one signed by too few keys of the pinned root leaves UNTRUSTED_ROOT, no manifest, and pin and cache untouched, whoever else signed it |
| Refreshing.MismatchedPinRefused | runtime/veilguard-policy.mjs:189-206 | a stored pin that does not belong to its root lets nothing in, not even what that root's own keys signed |
| Refreshing.NothingToGoBy | runtime/veil-guard-sw.js:151-173 | with neither network nor mirror, or no root at all, only the state shown changes |
| Refreshing.ServedOnFirstVisit | runtime/veil-guard-sw.js:251-457 | a worker just installed serves a listed asset, verified, on the first request |
| Refreshing.ServedThroughOutage | runtime/veil-guard-sw.js:114-140 | stopped after that and started again without a network, it recovers the manifest from the mirror and serves the same body from the cache |
| Answering.EveryAnswerExplained | runtime/veil-guard-sw.js:353-457 | after any run, each of the seven answers is given exactly when its cause is there: forwarded out of remit, out of scope or for an unlisted page; blocked for each reason; unavailable; hit, verified, streamed or passed on as it came, from the entry the key, its index page or its `.html` page has |
| Answering.HardBlocksAll | runtime/veilguard-policy.mjs:84-86 | in a hard state everything in remit is blocked, with the state for a reason |
| Answering.ServedAgain | runtime/veil-guard-sw.js:344-457 | what was verified once is served from the cache the next time, whatever the network does |
| Answering.NothingElseKept | runtime/veil-guard-sw.js:251-257 | no other answer leaves a trace, and a worker with a manifest in a soft state does not refresh |
| Answering.ResponseDecided | runtime/veilguard-policy.mjs:141-169 | for a body read or not, or only hashed, or only counted, each decision about a response is made exactly when its condition holds and none before it does |
| WorkerSafety.RejectUnreachable | runtime/veilguard-policy.mjs:189-206 | after a soft verdict the pin decision cannot be a refusal |
| WorkerSafety.RunKeeps | runtime/veil-guard-sw.js:142-242 | over every run: the pin's identifier is its root's, a held manifest was accepted under the root in use and is the one the pin records, and cache entries sit under their digests |
| WorkerSafety.RunAdvances | runtime/veil-guard-sw.js:142-242 | over every run pinned version and rotation version never decrease, and the root moves only along links signed by the threshold of the root before |
| WorkerSafety.RunAnchored | runtime/veil-guard-sw.js:160-200 | from an empty store every reachable pin descends from the baked root by such links |
| WorkerSafety.HitsMatchExactly | runtime/veil-guard-sw.js:344-346 | every hit in every sound cache has the entry's digest if and only if the entry's key is neither control URL nor the key of a body with another digest |
| WorkerSafety.KeyIsOwnBySpelling | runtime/veil-guard-sw.js:344-346 | that can be read off the key's spelling, exactly so if the hash reaches every digest, and holds for every field of 64 letters and digits |
| WorkerSafety.ServedIsSigned | runtime/veil-guard-sw.js:353-457 | after any run, every 200 answer to a checked request is of an entry of an accepted manifest under the pinned root; buffered bytes have its digest, cached ones if its key is its own, and what is passed on as it came is no 200 |
| WorkerSafety.FromInstallation | runtime/veil-guard-sw.js:142-242 | all of it from the empty store on, with nothing assumed of the network: soundness, descent from the baked root, no earlier pin above a later one, right answers |
| WorkerSafety.MisshapenDigestHitsMirror | runtime/veil-guard-sw.js:121-129 | a field that spells the mirror's path is answered with the control mirror |
| WorkerSafety.FragmentHitsAnother | runtime/veil-guard-sw.js:344-346 | a digest with a fragment behind it is answered with the body of the bare digest |
| Html.Scan | src/html.rs:74-137 | the index loop yields `Tags`: the tags, or the first error |
| Html.ParseAttributes | src/html.rs:152-220 | the attribute loop yields `Attributes` |
| Html.FindCloseIsFirst | src/html.rs:223-241 | the closing tag found is the first that matches |
| Html.TagsSound | src/html.rs:74-137 | on success tags are in bounds, `<` at start and `>` at gt, in order and disjoint, a script's text runs to its first closing tag, and no later tag starts before that |
| Html.NothingMissed | src/html.rs:74-137 | a script or link start tag is reported if and only if it does not lie inside something that begins at an earlier stop of the scan |
| Html.ScriptsHaveText | src/html.rs:117-133 | a located script has a text span if and only if it does not close itself, with or without `src` |
| Printing.PrintedPageScans | src/html.rs:74-220 | print, then scan: any page of text, lone `<`, comments, declarations, instructions, closing tags, start tags with attributes without a value, in quotes of either kind or bare, with any spacing and slashes between, and scripts and styles with their text, scans without error to exactly the scripts and links written, at their offsets, with their attributes |
| Printing.FirstErrorIsReported | src/html.rs:74-137 | behind such a page, whatever error the rest has is the one reported |
| Printing.UnclosedComment | src/html.rs:85-88 | a comment that is not closed is that error, at its `<` |
| Printing.UnclosedMark | src/html.rs:89-97 | so is a declaration, an instruction or a closing tag |
| Printing.UnclosedText | src/html.rs:117-127 | so is a script or style without its closing tag, in any case |
| Printing.QuoteUnclosed | src/html.rs:186-204 | a start tag with a quote that is not closed is unterminated |
| Printing.ListBreaksOff | src/html.rs:152-182 | and so is one that ends in a gap; before an equals sign without a name it is malformed, at that sign |
| Splicing.Splice | src/html.rs:279-291 | sort, copy, insert: the output is the original with every text woven in at its offset |
| Escaping.DecodeEscape | src/html.rs:244-256 | resolving references inverts an escaper on every byte string, references to references included |
| Escaping.EscapedValueIsRead | src/html.rs:186-210 | a value written escaped between quotes of either kind is read back as it was |
| Splicing.OriginalKept | src/html.rs:279-291 | every byte of the original is in the output, displaced by exactly the text put in up to it, and nothing else was added |
| Rescan.AttributesInsert | src/html.rs:152-220 | a list with the attribute spliced in at its `>` reads as the old list plus that attribute, or, if it ended in a bare `=`, with its last value replaced |
| Reinjection.ScanAgain | src/html.rs:74-137 | scanning the spliced document sees the same tags, displaced, with the attributes so changed |
| Reinjection.InjectionCarries | src/generators.rs:62-97 | the output scans to the same tags in order with script text untouched; exactly the wanted tags gain one attribute, unless their list ended in a bare `=` |
| Reinjection.ProtectedUnlessBare | src/html.rs:186-210 | a wanted tag comes out with the right integrity value if and only if its list does not end in a bare `=` |
| Reinjection.InjectTwice | src/generators.rs:62-97 | a second injection changes no byte if and only if no wanted tag that ends in a bare `=` is wanted again with its last value overwritten |
| Injection.InjectSri | src/generators.rs:62-97 | scan, plan and splice produce the planned output and the report, which `Covering` spells out tag by tag |
| Injection.SriPlanIsSound | src/generators.rs:37-39 | integrity values hold no byte that could end them, and tags that have the attribute are left alone |
| Injection.SecondPass | src/generators.rs:62-97 | a second pass changes no byte if and only if no bare tag is wanted again, and reports what the first applied as pre-existing and everything else as before if and only if no applied tag ended in a bare `=` |
| Injection.CoveredByDigest | src/generators.rs:37-39 | the integrity attribute of a covered tag in the output decodes to the asset's digest |
| Injection.BareScriptStaysUnprotected | src/html.rs:186-210 | on `<script src=a x=></script>` the pass reports the script as covered, and the output's script has no integrity attribute |
| Injection.NothingUncounted | src/generators.rs:41-97 | every reference that supports integrity is counted once in the report, and as many texts go in as are reported applied |
| Covering.ReportIs | src/generators.rs:62-97 | each list of the report, in order: applied exactly the tags without `integrity` whose reference resolves to an asset with a digest that decodes, cross-origin those whose reference does not resolve, unresolved those without such a digest, pre-existing those with the attribute; the reference is a script's `src`, or the `href` of a link whose `rel` has, in any case, the word stylesheet or modulepreload, or preload with an `as` of script or style |
| Covering.TagGains | src/generators.rs:62-97 | a tag of the output has an `integrity` attribute it had not before if and only if it is one of those applied and its list does not end in a bare `=`; the value is `sha384-` and the digest in base64, and all other tags keep their attributes |
| Covering.EveryReferenceCounted | src/generators.rs:41-97 | the report accounts for every such reference once |
| Covering.StylesheetProtected | src/generators.rs:62-97 | on `<link rel="stylesheet" href="/a.css">` the attribute goes in before the last byte, and the link is reported applied |
| Base64.Encode | src/generators.rs:12-35 | the chunk loop yields `Encoded` |
| Base64.RoundTrip | src/generators.rs:12-35 | a decoder for RFC 4648 section 4 inverts the encoder on every byte string |
| Base64.EncodedShape | src/generators.rs:12-35 | four symbols for every three bytes begun, padding exactly in the last places that need it |
| Base64.EncodedGroup | src/generators.rs:12-35 | group by group and bit by bit the encoding is that of RFC 4648 section 4: six bits a symbol, highest first, A to Z, a to z, 0 to 9, `+` and `/`, with `=` for what would be of missing bytes alone |
| Daemon.AuditDaemon.Run | src/auditor.rs:788-905 | the loop over ticks and targets takes statuses and alerts to the fold of its probes, which `FailingIffGrave` and `NextAlert` spell out |
| Daemon.TargetsAreIndependent | src/auditor.rs:846-905 | a target's status and alerts are those of its own successful probes; without a webhook nothing is sent |
| Daemon.ErrorsChangeNothing | src/auditor.rs:825-835 | probes that err or panic leave no trace |
| Daemon.StatusMeans | src/auditor.rs:846-889 | failing exactly if the last probe failed, since the first failure after the last healthy one |
| Daemon.LogShape | src/auditor.rs:852-904 | every resolve directly follows a trigger, failing is onsets minus resolves, and onsets and resolves are exactly the breakdowns and recoveries |
| Daemon.FailingIffGrave | src/auditor.rs:837-889 | a target is failing if and only if its last answered probe brought a finding at least as grave as the threshold: a critical one, or for a lower threshold a warning, or any |
| Daemon.NextAlert | src/auditor.rs:852-904 | what one more probe adds to the log: a trigger with its time and number of findings at onset and when the last alert is an interval old, a resolve at recovery, nothing else |
| Daemon.NeverIll | src/auditor.rs:846-851 | a target that never had a grave finding keeps the status it started with and is never alerted about |
| Daemon.HeartbeatsAreSpaced | src/auditor.rs:871-886 | consecutive triggers are a heartbeat interval apart on any clock, and there are none if the interval is zero |
| Daemon.HeartbeatsAreBounded | src/auditor.rs:871-886 | an episode has at most its length divided by the interval heartbeats |
| Daemon.HeartbeatIsPunctual | src/auditor.rs:871-886 | after a probe of a failing target the last alert is less than an interval old |
| SnapshotDiff.Diff | src/auditor.rs:656-753 | the loops over ordered maps and sorted paths yield `Divergences` |
| SnapshotDiff.SilentIffAgree | src/auditor.rs:656-753 | empty exactly when manifest hash, state, set of finding keys, and observed paths with their digests agree |
| SnapshotDiff.KindsCollide | src/auditor.rs:686 | two different kinds have a key in common, under some subjects, if and only if one is the other with a NUL and perhaps more behind it |
| Diverging.ReportsExactly | src/auditor.rs:656-753 | a divergence is reported if and only if it is one: the side it names shows what it shows, and the other side has nothing there, or something else |
| Diverging.ReportsInOrder | src/auditor.rs:656-753 | manifest, state, findings of the left, findings of the right, files: each group in order, nothing twice |
| SnapshotDiff.KeysTellPairs | src/auditor.rs:686-690 | for findings of given kinds, agreeing on keys is agreeing on kinds and subjects, whatever the findings, if and only if no kind so extends another |
| SnapshotDiff.SilentIffSameReport | src/auditor.rs:656-753 | with such kinds, empty exactly when manifest hash, state, set of (kind, subject) findings, and observed paths with their digests agree |
| SnapshotDiff.NulConfuses | src/auditor.rs:686-690 | with any other kinds there are snapshots that differ in their findings and compare as equal |
| SnapshotDiff.SwapMirrors | src/auditor.rs:656-753 | swapping the snapshots gives the same divergences as a multiset with left and right exchanged |

## Left out

- Ed25519, P-256, SHA-256, SHA-384 and key generation: parameters with stated laws; for the hasher the law is that a slot which stands for a message stands, once fed, for the message with the fed bytes behind it, whatever leftovers it holds (`WasmHasher.Lawful`).
- JSON: verifiers start from a parse function shared by both sides. Its numbers are naturals, so `Number.isSafeInteger` letting negative numbers through is not captured, nor are the BOM and UTF-8 differences between `TextDecoder` and serde, nor members of a record that one side refuses and the other passes over: unknown or missing ones, or a threshold that is no whole number.
- Unicode normalization, percent-decoding, `request_key`, content-type classes and URL serialization: parameters of `Manifests.Host`.
- `parseBundle`, `checkThreshold` and the revocation verdict of the JavaScript side: the first two share the Rust model, with the lenient `unhex` of JavaScript as a parameter; the third would repeat the Rust one.
- Overlapping refreshes, storage that fails or loses the pin, and the single-flight promise of `ensureReady`: a run is a sequence of whole refreshes over storage that keeps what it is given. Evictions of cache entries and restarts of the worker are in the model.
- A failing `memory.grow`, and the module loader: memory grows when asked.
- WalkFindsLongestPrefix: does not claim that chains longer than 8 are completed, because every call begins at statement 0 and stops after 8.
- Bodies that are never read to the end, cancelled streams and the forwarding of bytes before the verdict: the streamed answer is the verdict at flush.
- Lossy UTF-8 decoding of attribute names and values: they stay bytes.
- `resolve_same_origin`: a parameter of `Injection.Site`; it decides which tags are wanted and plays no part in re-scanning.
- Import-map integrity, inline script hashes, CSP and header generators: the first rests on a JSON library, the others only format.
- SwapMirrors: compares multisets, because findings of the left side are always listed before those of the right.
- Texts of divergences and alerts: what each side shows is a datatype, and of an alert kind, target, time and count are kept.
- The tick timer of the daemon, webhook delivery, the relay and process shutdown: a run is a finite sequence of ticks, each with a time and a probe result per target, and an alert counts as sent when delivery is attempted.
- HTTP, KMS, Vault, relay and telemetry servers, Rekor, file system scanning, the command line, the page loader: not part of this model.
