/** What signing a rotation achieves, and what the protocol description asks of rotations that the code
    does not see to: the manifest version as a floor, and chains without cycles. */
module SignedRotations {
  import opened Prelude
  import opened Bundle
  import opened TrustRoots
  import opened Threshold
  import opened Manifests
  import opened Signing
  import opened JsVerify
  import opened Policy
  import opened RotationChain

  // ---------------------------------------------------------------- signed rotations

  /** These signers can speak for the root. */
  ghost predicate Enough(p: Primitives, signers: seq<SignerKeys>, root: TrustRoot, supported: set<SigAlg>) {
    && 1 <= |signers| <= 32
    && Active(root.sigalgs, supported) != []
    && RootSigners(p, signers, root) >= root.threshold
  }

  /** They sign for real, each with keys of their own. */
  ghost predicate Honest(p: Primitives, sign: SignOp, signers: seq<SignerKeys>, root: TrustRoot) {
    ValidRoot(p, root) && SigningWorks(p, sign, signers) && DistinctSigners(p, signers) && NoImpostor(p, signers, root)
  }

  /** A statement that takes this root somewhere. */
  ghost predicate WellFormed(h: Host, root: TrustRoot, r: Rotation) {
    r.spec == SPEC_ROTATION && r.fromTrustRootId == JsRootId(h, root) && JsValidRoot(h, r.toTrustRoot)
  }

  function SignedBy(p: Primitives, sign: SignOp, signers: seq<SignerKeys>, payload: Bytes): SignedFile {
    SignedFile(payload, Built(Collected(p, sign, signers, PREFIX_ROTATION, payload)))
  }

  /** Sign, bundle, rotate: on every platform a signed statement is accepted if and only if enough keys of
      the root signed it, it is well formed, and its version is above the pinned rotation version. */
  lemma SignedRotation(h: Host, sign: SignOp, signers: seq<SignerKeys>, payload: Bytes, root: TrustRoot, r: Rotation,
                       rotationVersion: nat, supported: set<SigAlg>)
    requires JsHexAgrees(h) && Honest(h.prims, sign, signers, root) && h.parseRotation(payload) == Some(r)
    ensures
      var f := SignedBy(h.prims, sign, signers, payload);
      JsRotationVerdict(h, f.payload, f.bundle, root, rotationVersion, supported) == Accept
      <==> Enough(h.prims, signers, root, supported) && WellFormed(h, root, r) && r.version > rotationVersion
  {
    JsSeesValidRoot(h, root);
    SignedQuorum(h.prims, sign, signers, PREFIX_ROTATION, payload, root, Active(root.sigalgs, supported));
    hide QuorumState, Built, Collected, ValidRoot, JsValidRoot, JsRootId, RootSigners, RingOf, JsRing, Active, SigningWorks,
         DistinctSigners, NoImpostor, JsHexAgrees;
  }

  /** So is its hop a link of a chain. */
  lemma SignedLink(h: Host, sign: SignOp, signers: seq<SignerKeys>, payload: Bytes, root: TrustRoot, r: Rotation,
                   rotationVersion: nat, supported: set<SigAlg>)
    requires JsHexAgrees(h) && Honest(h.prims, sign, signers, root) && h.parseRotation(payload) == Some(r)
    requires Enough(h.prims, signers, root, supported) && WellFormed(h, root, r) && r.version > rotationVersion
    ensures
      var f := SignedBy(h.prims, sign, signers, payload);
      Link(h, supported, f, root, rotationVersion, Hop(f, r.toTrustRoot, r.version))
  {
    SignedRotation(h, sign, signers, payload, root, r, rotationVersion, supported);
    hide Honest, Enough, WellFormed, JsRotationVerdict, JsHexAgrees;
  }

  // ---------------------------------------------------------------- the manifest version as a floor

  /** Nothing that moves a pin from this root and rotation version has a version below `least`. */
  ghost predicate NeverBelow(h: Host, supported: set<SigAlg>, root: TrustRoot, rotationVersion: nat, least: nat) {
    forall f: SignedFile, hop: Hop :: Link(h, supported, f, root, rotationVersion, hop) ==> hop.version >= least
  }

  /** Some payload states a rotation of this root with this version. */
  ghost predicate Stateable(h: Host, root: TrustRoot, version: nat) {
    exists payload :: h.parseRotation(payload).Some?
      && WellFormed(h, root, h.parseRotation(payload).value) && h.parseRotation(payload).value.version == version
  }

  lemma LinkIsStated(h: Host, supported: set<SigAlg>, f: SignedFile, root: TrustRoot, rotationVersion: nat, hop: Hop)
    requires Link(h, supported, f, root, rotationVersion, hop)
    ensures hop.version > rotationVersion && Stateable(h, root, hop.version)
  {
    LinkMeans(h, supported, f, root, rotationVersion, hop);
    AcceptedParses(h, supported, f, root, rotationVersion);
    assert WellFormed(h, root, h.parseRotation(f.payload).value);
  }

  /** Rule 4 of section 9.1 asks of an accepted rotation that its version be no lower than the pinned
      manifest version. For any platform, root, and signers who can speak for it: what the code checks
      guarantees that if and only if no rotation of the root can so much as be stated with a version
      strictly between the pinned rotation version and the pinned manifest version; and as soon as the
      next version can be stated, if and only if there is no room between the two. */
  lemma ManifestVersionIsNoFloor(h: Host, sign: SignOp, signers: seq<SignerKeys>, root: TrustRoot, pin: Pin,
                                 supported: set<SigAlg>)
    requires JsHexAgrees(h) && Honest(h.prims, sign, signers, root) && Enough(h.prims, signers, root, supported)
    ensures NeverBelow(h, supported, root, pin.rotationVersion, pin.version)
      <==> forall v: nat :: pin.rotationVersion < v < pin.version ==> !Stateable(h, root, v)
    ensures Stateable(h, root, pin.rotationVersion + 1) ==>
      (NeverBelow(h, supported, root, pin.rotationVersion, pin.version) <==> pin.version <= pin.rotationVersion + 1)
  {
    hide Honest, Enough, Link, JsHexAgrees;
    forall f: SignedFile, hop: Hop | Link(h, supported, f, root, pin.rotationVersion, hop)
      ensures hop.version > pin.rotationVersion && Stateable(h, root, hop.version)
    {
      LinkIsStated(h, supported, f, root, pin.rotationVersion, hop);
    }
    forall v: nat | pin.rotationVersion < v && Stateable(h, root, v)
      ensures exists f: SignedFile, hop: Hop :: Link(h, supported, f, root, pin.rotationVersion, hop) && hop.version == v
    {
      var payload :| h.parseRotation(payload).Some?
        && WellFormed(h, root, h.parseRotation(payload).value) && h.parseRotation(payload).value.version == v;
      var r := h.parseRotation(payload).value;
      SignedLink(h, sign, signers, payload, root, r, pin.rotationVersion, supported);
      var f := SignedBy(h.prims, sign, signers, payload);
      assert Link(h, supported, f, root, pin.rotationVersion, Hop(f, r.toTrustRoot, r.version));
    }
    hide Stateable;
  }

  /** Statement by statement: a signed one is accepted against the rule exactly if it is well formed, enough
      signed it, and its version lies strictly between the two pinned ones. */
  lemma AcceptedAgainstTheRule(h: Host, sign: SignOp, signers: seq<SignerKeys>, payload: Bytes, root: TrustRoot,
                               r: Rotation, pin: Pin, supported: set<SigAlg>)
    requires JsHexAgrees(h) && Honest(h.prims, sign, signers, root) && h.parseRotation(payload) == Some(r)
    ensures
      var f := SignedBy(h.prims, sign, signers, payload);
      && JsRotationVerdict(h, f.payload, f.bundle, root, pin.rotationVersion, supported) == Accept && r.version < pin.version
      <==>
      && Enough(h.prims, signers, root, supported) && WellFormed(h, root, r)
      && pin.rotationVersion < r.version < pin.version
  {
    SignedRotation(h, sign, signers, payload, root, r, pin.rotationVersion, supported);
    hide Honest, Enough, WellFormed, JsRotationVerdict, JsHexAgrees;
  }

  // ---------------------------------------------------------------- cycles through the start

  /** Section 9.1 forbids cycles. No root is applied twice; but the root a walk starts from does not count
      as applied, so with it the chain is free of cycles exactly if no hop leads back there. */
  lemma CyclesOnlyThroughTheStart(h: Host, supported: set<SigAlg>, server: Statements, root: TrustRoot, pin: Pin)
    returns (hops: seq<Hop>)
    ensures
      var w := Walk(h, supported, server, 0, root, pin, []);
      && LongestPrefix(h, supported, server, 0, root, pin, [], hops, w)
      && (Distinct([JsRootId(h, root)] + w.applied)
          <==> forall j :: 0 <= j < |hops| ==> JsRootId(h, hops[j].root) != JsRootId(h, root))
  {
    assert Distinct([]) && 0 <= MAX_ROTATION_CHAIN;
    hide *;
    hops := WalkFindsLongestPrefix(h, supported, server, 0, root, pin, []);
    var w := Walk(h, supported, server, 0, root, pin, []);
    AppliedAre(h, supported, server, root, pin, hops, w);
    DistinctWith(JsRootId(h, root), w.applied);
  }

  lemma AppliedAre(h: Host, supported: set<SigAlg>, server: Statements, root: TrustRoot, pin: Pin, hops: seq<Hop>, w: Walked)
    requires LongestPrefix(h, supported, server, 0, root, pin, [], hops, w)
    ensures Distinct(w.applied) && |w.applied| == |hops|
    ensures forall j :: 0 <= j < |hops| ==> w.applied[j] == JsRootId(h, hops[j].root)
  {
    IdsAre(h, hops);
    assert [] + Ids(h, hops) == Ids(h, hops);
    hide Ids, JsRootId, Stuck, Leads;
  }

  lemma DistinctWith(id: string, ids: seq<string>)
    requires Distinct(ids)
    ensures Distinct([id] + ids) <==> forall j :: 0 <= j < |ids| ==> ids[j] != id
  {
    var all := [id] + ids;
    if forall j :: 0 <= j < |ids| ==> ids[j] != id {
      forall i, j | 0 <= i < j < |all| ensures all[i] != all[j] {
        if i > 0 { assert all[i] == ids[i - 1] && all[j] == ids[j - 1]; }
      }
    } else {
      var j :| 0 <= j < |ids| && ids[j] == id;
      assert all[0] == all[j + 1];
    }
  }

  lemma {:induction false} IdsAre(h: Host, hops: seq<Hop>)
    ensures forall j :: 0 <= j < |hops| ==> Ids(h, hops)[j] == JsRootId(h, hops[j].root)
  {
    hide JsRootId;
    if hops != [] {
      IdsAre(h, hops[1..]);
      forall j | 0 <= j < |hops| ensures Ids(h, hops)[j] == JsRootId(h, hops[j].root) {
        if j > 0 { assert hops[j] == hops[1..][j - 1]; }
      }
    }
  }

  /** And walks do come back: one statement away from a root and one back to it, each signed by the root it
      leaves, are both taken, and the pin ends where it began. */
  lemma WalkComesBack(h: Host, sign: SignOp, here: seq<SignerKeys>, there: seq<SignerKeys>, a: TrustRoot, b: TrustRoot,
                      out: Bytes, back: Bytes, r: Rotation, r': Rotation, pin: Pin, supported: set<SigAlg>, server: Statements)
    requires JsHexAgrees(h) && Honest(h.prims, sign, here, a) && Honest(h.prims, sign, there, b)
    requires Enough(h.prims, here, a, supported) && Enough(h.prims, there, b, supported)
    requires h.parseRotation(out) == Some(r) && WellFormed(h, a, r) && r.toTrustRoot == b
    requires h.parseRotation(back) == Some(r') && WellFormed(h, b, r') && r'.toTrustRoot == a
    requires pin.rotationVersion < r.version < r'.version && JsRootId(h, a) != JsRootId(h, b)
    requires server(0) == Some(SignedBy(h.prims, sign, here, out))
    requires server(1) == Some(SignedBy(h.prims, sign, there, back)) && server(2).None?
    ensures Walk(h, supported, server, 0, a, pin, []) ==
      Walked(ChainEnded, a, pin.(trustRootId := JsRootId(h, a), rotationVersion := r'.version), [JsRootId(h, b), JsRootId(h, a)], 3)
  {
    hide *;
    SignedRotation(h, sign, here, out, a, r, pin.rotationVersion, supported);
    SignedRotation(h, sign, there, back, b, r', r.version, supported);
    var f, g := SignedBy(h.prims, sign, here, out), SignedBy(h.prims, sign, there, back);
    SignedPayload(h.prims, sign, here, out);
    SignedPayload(h.prims, sign, there, back);
    var first := pin.(trustRootId := JsRootId(h, b), rotationVersion := r.version);
    assert [] + [JsRootId(h, b)] == [JsRootId(h, b)];
    WalkStep(h, supported, server, 0, a, pin, [], f, r);
    assert [JsRootId(h, b)] + [JsRootId(h, a)] == [JsRootId(h, b), JsRootId(h, a)];
    WalkStep(h, supported, server, 1, b, first, [JsRootId(h, b)], g, r');
    WalkEnds(h, supported, server, 2, a, first.(trustRootId := JsRootId(h, a), rotationVersion := r'.version),
             [JsRootId(h, b), JsRootId(h, a)]);
  }

  lemma SignedPayload(p: Primitives, sign: SignOp, signers: seq<SignerKeys>, payload: Bytes)
    ensures SignedBy(p, sign, signers, payload).payload == payload
  {
  }

  lemma WalkEnds(h: Host, supported: set<SigAlg>, server: Statements, i: nat, root: TrustRoot, pin: Pin, applied: seq<string>)
    requires i < 8 && server(i).None?
    ensures Walk(h, supported, server, i, root, pin, applied) == Walked(ChainEnded, root, pin, applied, i + 1)
  {
  }

  // ---------------------------------------------------------------- one platform, one signer

  function Zeros(n: nat): (r: Bytes)
    ensures |r| == n
  {
    if n == 0 then [] else [0] + Zeros(n - 1)
  }

  const ZEROS: Digest := Zeros(32)
  const POINT: Bytes := [4] + Zeros(64)

  /** A platform on which every signature verifies, and one key to sign with. */
  function TrustingPrims(): Primitives {
    Primitives(message => ZEROS, (alg, key, sig, msg) => true)
  }

  function LoneSigner(): SignerKeys { SignerKeys(ZEROS, POINT, 0) }

  function LoneKey(): TrustedKey {
    TrustedKey(Hex(DeriveKeyId(TrustingPrims(), ZEROS, POINT)), "", Hex(ZEROS), Hex(POINT))
  }

  function LoneRoot(): TrustRoot { TrustRoot(1, [Ed25519], [LoneKey()]) }

  /** Its only rotation: from the root to itself, with this version. */
  function TrustingHost(version: nat): Host {
    Host(TrustingPrims(), _ => None, _ => Some(Rotation(SPEC_ROTATION, version, Hex(ZEROS), LoneRoot())),
         _ => None, s => s, s => Some(s), s => Decoded(s), s => s, (a, b) => true)
  }

  function Decoded(s: string): Bytes { if Unhex(s).Some? then Unhex(s).value else [] }

  lemma LoneRootIsValid()
    ensures ValidRoot(TrustingPrims(), LoneRoot())
    ensures KeyIdBytes(LoneKey()) == Some(SignerId(TrustingPrims(), LoneSigner()))
    ensures Ed25519Bytes(LoneKey()) == Some(ZEROS) && P256Bytes(LoneKey()) == Some(POINT)
  {
    UnhexHex(DeriveKeyId(TrustingPrims(), ZEROS, POINT));
    UnhexHex(ZEROS);
    UnhexHex(POINT);
    hide Unhex, Hex;
  }

  function LoneSign(): SignOp { (alg, s, msg) => Zeros(64) }

  lemma LoneSignerWorks()
    ensures SigningWorks(TrustingPrims(), LoneSign(), [LoneSigner()])
    ensures DistinctSigners(TrustingPrims(), [LoneSigner()])
  {
    hide Zeros;
  }

  lemma LoneSignerCounts()
    ensures NoImpostor(TrustingPrims(), [LoneSigner()], LoneRoot())
    ensures RootSigners(TrustingPrims(), [LoneSigner()], LoneRoot()) == 1
  {
    assert LoneSigner() == SignerKeys(ZEROS, POINT, 0);
    assert LoneRoot().keys == [LoneKey()];
    hide LoneRoot, LoneSigner, LoneKey;
    LoneRootIsValid();
    OneSignerOneKey(TrustingPrims(), LoneSigner(), LoneKey(), LoneRoot());
  }

  lemma OneSignerOneKey(p: Primitives, s: SignerKeys, k: TrustedKey, root: TrustRoot)
    requires root.keys == [k] && KeyIdBytes(k) == Some(SignerId(p, s))
    requires Ed25519Bytes(k) == Some(s.ed25519Public) && P256Bytes(k) == Some(s.p256Public)
    ensures NoImpostor(p, [s], root) && RootSigners(p, [s], root) == 1
  {
    hide KeyIdBytes, Ed25519Bytes, P256Bytes, SignerId;
    assert s in [s] && root.keys[0] == k;
    assert HasSigner(p, [s], root.keys[0]);
    assert (set i: int | 0 <= i < |root.keys| && HasSigner(p, [s], root.keys[i])) == {0};
  }

  lemma LoneHexAgrees(version: nat)
    ensures JsHexAgrees(TrustingHost(version)) && TrustingHost(version).prims == TrustingPrims()
    ensures JsRootId(TrustingHost(version), LoneRoot()) == Hex(ZEROS)
    ensures TrustingHost(version).parseRotation([]) == Some(Rotation(SPEC_ROTATION, version, Hex(ZEROS), LoneRoot()))
  {
    hide Hex, Unhex, LoneRoot, JsRootBytes, Zeros;
  }

  lemma OneAlgorithm()
    ensures LoneRoot().threshold == 1 && Active(LoneRoot().sigalgs, {Ed25519, P256}) == [Ed25519]
  {
    hide Hex, Zeros, LoneKey;
  }

  /** The signer, on this platform, meets every hypothesis above, with a statement of any version. */
  lemma HypothesesAreMet(version: nat)
    ensures
      var h, r := TrustingHost(version), Rotation(SPEC_ROTATION, version, Hex(ZEROS), LoneRoot());
      && JsHexAgrees(h) && Honest(h.prims, LoneSign(), [LoneSigner()], LoneRoot())
      && Enough(h.prims, [LoneSigner()], LoneRoot(), {Ed25519, P256})
      && h.parseRotation([]) == Some(r) && WellFormed(h, LoneRoot(), r)
  {
    LoneRootIsValid();
    LoneSignerWorks();
    LoneSignerCounts();
    LoneHexAgrees(version);
    OneAlgorithm();
    hide LoneRoot, ValidRoot, JsValidRoot, JsRootId, JsHexAgrees, TrustingHost, TrustingPrims, Active, Hex, Zeros, SigningWorks,
         DistinctSigners, NoImpostor, RootSigners, LoneSign, LoneSigner;
    JsSeesValidRoot(TrustingHost(version), LoneRoot());
  }

  /** A rotation on which the two verifiers part: its version is beyond what JSON integers carry exactly. */
  lemma OversizedRotationDiverges(version: nat)
    requires version > MAX_SAFE_INT
    ensures
      var h, f := TrustingHost(version), SignedBy(TrustingPrims(), LoneSign(), [LoneSigner()], []);
      && JsRotationVerdict(h, f.payload, f.bundle, LoneRoot(), 0, {Ed25519, P256}) == Accept
      && RotationVerdict(h, f.payload, f.bundle, LoneRoot(), 0, {Ed25519, P256}) == Reject
  {
    var h, r := TrustingHost(version), Rotation(SPEC_ROTATION, version, Hex(ZEROS), LoneRoot());
    HypothesesAreMet(version);
    LoneHexAgrees(version);
    LoneRootIsValid();
    var f := SignedBy(TrustingPrims(), LoneSign(), [LoneSigner()], []);
    assert f.payload == [] && f == SignedBy(h.prims, LoneSign(), [LoneSigner()], []);
    hide *;
    SignedRotation(h, LoneSign(), [LoneSigner()], [], LoneRoot(), r, 0, {Ed25519, P256});
    RotationsAgree(h, f.payload, f.bundle, LoneRoot(), 0, {Ed25519, P256});
  }
}
