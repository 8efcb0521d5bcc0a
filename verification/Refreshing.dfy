/** What a refresh achieves when the operator's signers do their part (runtime/veil-guard-sw.js, refresh). */
module Refreshing {
  import opened Prelude
  import opened Bundle
  import opened TrustRoots
  import opened Threshold
  import opened Manifests
  import opened Signing
  import opened JsVerify
  import opened Policy
  import opened RotationChain
  import opened SignedRotations
  import opened Worker
  import opened WorkerSafety
  import opened Answering

  // ---------------------------------------------------------------- a signed manifest

  /** Enough keys of the root, held by honest signers. */
  ghost predicate Speak(c: Config, sign: SignOp, signers: seq<SignerKeys>, root: TrustRoot) {
    Honest(c.h.prims, sign, signers, root) && Enough(c.h.prims, signers, root, c.supported)
  }

  /** A manifest of this root, as it should be. */
  ghost predicate Sane(c: Config, payload: Bytes, root: TrustRoot, m: Manifest) {
    && c.h.parseManifest(payload) == Some(m) && StructurallyValid(c.h, m) && PathsComparable(m)
    && IdHex(c.h.prims, m.trustRoot) == IdHex(c.h.prims, root) == Some(m.trustRootId)
  }

  function ManifestBy(c: Config, sign: SignOp, signers: seq<SignerKeys>, payload: Bytes): SignedFile {
    SignedFile(payload, Built(Collected(c.h.prims, sign, signers, PREFIX_MANIFEST, payload)))
  }

  ghost function Verdict(c: Config, f: SignedFile, root: TrustRoot, version: nat, now: nat): ManifestState {
    JsManifestVerdict(c.h, f.payload, f.bundle, root, version, now, c.supported, [])
  }

  /** The JavaScript verifier on what honest signers signed. */
  lemma SignThenVerifyJs(c: Config, sign: SignOp, signers: seq<SignerKeys>, payload: Bytes, root: TrustRoot, m: Manifest,
                         version: nat, now: nat)
    requires JsHexAgrees(c.h) && Speak(c, sign, signers, root) && Sane(c, payload, root, m)
    ensures Verdict(c, ManifestBy(c, sign, signers, payload), root, version, now) ==
      if m.version < version then Rollback else if now > m.notAfter then Expired else Valid
  {
    JsSeesValidRoot(c.h, root);
    SignedQuorum(c.h.prims, sign, signers, PREFIX_MANIFEST, payload, root, Active(root.sigalgs, c.supported));
    RustThenJs(c.h, payload, root, version, now);
    hide QuorumState, Built, Collected, ValidRoot, JsValidRoot, JsRootId, IdHex, RootSigners, RingOf, JsRing, Active, SigningWorks,
         DistinctSigners, NoImpostor, JsHexAgrees, StructurallyValid, PathsComparable, JsContent;
  }

  /** Signers too few for the root are not believed. */
  lemma TooFewAreNotTrusted(c: Config, sign: SignOp, signers: seq<SignerKeys>, payload: Bytes, root: TrustRoot,
                            version: nat, now: nat)
    requires JsHexAgrees(c.h) && Honest(c.h.prims, sign, signers, root)
    requires 1 <= |signers| <= 32 && Active(root.sigalgs, c.supported) != []
    requires RootSigners(c.h.prims, signers, root) < root.threshold
    ensures Verdict(c, ManifestBy(c, sign, signers, payload), root, version, now) == UntrustedRoot
  {
    JsSeesValidRoot(c.h, root);
    SignedQuorum(c.h.prims, sign, signers, PREFIX_MANIFEST, payload, root, Active(root.sigalgs, c.supported));
    hide QuorumState, Built, Collected, ValidRoot, JsValidRoot, JsRootId, RootSigners, RingOf, JsRing, Active, SigningWorks,
         DistinctSigners, NoImpostor, JsHexAgrees, JsContent;
  }

  // ---------------------------------------------------------------- a chain of signed statements

  /** One signed statement: who signed it, and what it says. */
  datatype Leg = Leg(signers: seq<SignerKeys>, payload: Bytes, r: Rotation)

  /** Each statement takes the root where the one before it led, signed by enough of that root's keys. */
  ghost predicate Chain(c: Config, sign: SignOp, root: TrustRoot, version: nat, legs: seq<Leg>)
    decreases |legs|
  {
    legs != [] ==>
      && Speak(c, sign, legs[0].signers, root)
      && c.h.parseRotation(legs[0].payload) == Some(legs[0].r)
      && WellFormed(c.h, root, legs[0].r) && legs[0].r.version > version
      && Chain(c, sign, legs[0].r.toTrustRoot, legs[0].r.version, legs[1..])
  }

  function EndRoot(root: TrustRoot, legs: seq<Leg>): TrustRoot {
    if legs == [] then root else legs[|legs| - 1].r.toTrustRoot
  }

  function EndVersion(version: nat, legs: seq<Leg>): nat {
    if legs == [] then version else legs[|legs| - 1].r.version
  }

  /** No root is led to twice. */
  ghost predicate NoRepeat(h: Host, legs: seq<Leg>) {
    forall i, j :: 0 <= i < j < |legs| ==> JsRootId(h, legs[i].r.toTrustRoot) != JsRootId(h, legs[j].r.toTrustRoot)
  }

  ghost predicate Unapplied(h: Host, legs: seq<Leg>, applied: seq<string>) {
    forall j :: 0 <= j < |legs| ==> JsRootId(h, legs[j].r.toTrustRoot) !in applied
  }

  /** From its `i`-th statement on, the server has these. */
  ghost predicate Serves(p: Primitives, sign: SignOp, server: Statements, i: nat, legs: seq<Leg>) {
    forall j :: 0 <= j < |legs| ==> server(i + j) == Some(SignedBy(p, sign, legs[j].signers, legs[j].payload))
  }

  ghost function LegIds(h: Host, legs: seq<Leg>): (r: seq<string>)
    ensures |r| == |legs| && forall j :: 0 <= j < |legs| ==> r[j] == JsRootId(h, legs[j].r.toTrustRoot)
  {
    seq(|legs|, j requires 0 <= j < |legs| => JsRootId(h, legs[j].r.toTrustRoot))
  }

  /** The pin at the end of the chain. */
  ghost function EndPin(h: Host, pin: Pin, legs: seq<Leg>): Pin {
    if legs == [] then pin
    else pin.(trustRootId := JsRootId(h, legs[|legs| - 1].r.toTrustRoot), rotationVersion := legs[|legs| - 1].r.version)
  }

  /** What is left of a chain after its first statement. */
  lemma ChainTail(c: Config, sign: SignOp, server: Statements, i: nat, root: TrustRoot, pin: Pin, applied: seq<string>,
                  legs: seq<Leg>)
    requires legs != [] && Serves(c.h.prims, sign, server, i, legs) && NoRepeat(c.h, legs)
    requires Unapplied(c.h, legs, applied)
    ensures
      var id := JsRootId(c.h, legs[0].r.toTrustRoot);
      && server(i) == Some(SignedBy(c.h.prims, sign, legs[0].signers, legs[0].payload))
      && Serves(c.h.prims, sign, server, i + 1, legs[1..]) && NoRepeat(c.h, legs[1..])
      && Unapplied(c.h, legs[1..], applied + [id]) && id !in applied
      && applied + LegIds(c.h, legs) == (applied + [id]) + LegIds(c.h, legs[1..])
      && EndRoot(root, legs) == EndRoot(legs[0].r.toTrustRoot, legs[1..])
      && EndPin(c.h, pin, legs)
         == EndPin(c.h, pin.(trustRootId := id, rotationVersion := legs[0].r.version), legs[1..])
  {
    hide *;
    ServedTail(c.h.prims, sign, server, i, legs);
    FreshTail(c.h, legs, applied);
    SameEnds(c.h, root, pin, legs);
  }

  lemma ServedTail(p: Primitives, sign: SignOp, server: Statements, i: nat, legs: seq<Leg>)
    requires legs != [] && Serves(p, sign, server, i, legs)
    ensures server(i) == Some(SignedBy(p, sign, legs[0].signers, legs[0].payload)) && Serves(p, sign, server, i + 1, legs[1..])
  {
    hide SignedBy;
    assert server(i + 0) == Some(SignedBy(p, sign, legs[0].signers, legs[0].payload));
    forall j | 0 <= j < |legs[1..]|
      ensures server(i + 1 + j) == Some(SignedBy(p, sign, legs[1..][j].signers, legs[1..][j].payload))
    {
      assert legs[1..][j] == legs[j + 1] && i + 1 + j == i + (j + 1);
    }
  }

  lemma FreshTail(h: Host, legs: seq<Leg>, applied: seq<string>)
    requires legs != [] && NoRepeat(h, legs) && Unapplied(h, legs, applied)
    ensures
      var id := JsRootId(h, legs[0].r.toTrustRoot);
      && NoRepeat(h, legs[1..]) && Unapplied(h, legs[1..], applied + [id]) && id !in applied
      && applied + LegIds(h, legs) == (applied + [id]) + LegIds(h, legs[1..])
  {
    hide JsRootId;
    forall j | 0 <= j < |legs[1..]|
      ensures JsRootId(h, legs[1..][j].r.toTrustRoot) !in applied + [JsRootId(h, legs[0].r.toTrustRoot)]
    {
      assert legs[1..][j] == legs[j + 1];
    }
  }

  lemma SameEnds(h: Host, root: TrustRoot, pin: Pin, legs: seq<Leg>)
    requires legs != []
    ensures EndRoot(root, legs) == EndRoot(legs[0].r.toTrustRoot, legs[1..])
    ensures EndPin(h, pin, legs)
         == EndPin(h, pin.(trustRootId := JsRootId(h, legs[0].r.toTrustRoot), rotationVersion := legs[0].r.version), legs[1..])
  {
    hide JsRootId;
  }

  /** A chain of signed statements is walked to its end. */
  lemma {:induction false} WalkFollows(c: Config, sign: SignOp, server: Statements, i: nat, root: TrustRoot, pin: Pin,
                                       applied: seq<string>, legs: seq<Leg>)
    requires JsHexAgrees(c.h) && Chain(c, sign, root, pin.rotationVersion, legs) && i + |legs| <= 8
    requires Serves(c.h.prims, sign, server, i, legs) && NoRepeat(c.h, legs)
    requires Unapplied(c.h, legs, applied)
    ensures Walk(c.h, c.supported, server, i, root, pin, applied) ==
      Walk(c.h, c.supported, server, i + |legs|, EndRoot(root, legs), EndPin(c.h, pin, legs), applied + LegIds(c.h, legs))
    decreases |legs|
  {
    hide *;
    if legs == [] {
      NowhereToGo(c.h, root, pin, legs, applied);
    } else {
      var leg := legs[0];
      var id := JsRootId(c.h, leg.r.toTrustRoot);
      ChainHead(c, sign, root, pin.rotationVersion, legs);
      ChainTail(c, sign, server, i, root, pin, applied, legs);
      SignedRotation(c.h, sign, leg.signers, leg.payload, root, leg.r, pin.rotationVersion, c.supported);
      SignedPayload(c.h.prims, sign, leg.signers, leg.payload);
      WalkStep(c.h, c.supported, server, i, root, pin, applied, SignedBy(c.h.prims, sign, leg.signers, leg.payload), leg.r);
      WalkFollows(c, sign, server, i + 1, leg.r.toTrustRoot, pin.(trustRootId := id, rotationVersion := leg.r.version),
                  applied + [id], legs[1..]);
    }
  }

  lemma NowhereToGo(h: Host, root: TrustRoot, pin: Pin, legs: seq<Leg>, applied: seq<string>)
    requires legs == []
    ensures EndRoot(root, legs) == root && EndPin(h, pin, legs) == pin && applied + LegIds(h, legs) == applied
  {
    assert LegIds(h, legs) == [];
  }

  lemma ChainHead(c: Config, sign: SignOp, root: TrustRoot, version: nat, legs: seq<Leg>)
    requires Chain(c, sign, root, version, legs) && legs != []
    ensures Honest(c.h.prims, sign, legs[0].signers, root) && Enough(c.h.prims, legs[0].signers, root, c.supported)
    ensures c.h.parseRotation(legs[0].payload) == Some(legs[0].r)
    ensures WellFormed(c.h, root, legs[0].r) && legs[0].r.version > version
    ensures Chain(c, sign, legs[0].r.toTrustRoot, legs[0].r.version, legs[1..])
  {
    hide Honest, Enough, WellFormed;
  }

  // ---------------------------------------------------------------- one refresh

  /** The network offers this file; or it is out of reach, and both halves of it are mirrored. */
  ghost predicate Offers(c: Config, s: State, net: Net, f: SignedFile) {
    var manifest := c.h.cacheUrl("https://veil-guard.invalid/control/manifest");
    var sig := c.h.cacheUrl("https://veil-guard.invalid/control/sig");
    net.control == Some(f)
    || (net.control.None? && manifest in s.cache && sig in s.cache && f == SignedFile(s.cache[manifest], s.cache[sig]))
  }

  /** What came from the network is in the mirror, and nothing else about the cache has changed. */
  ghost predicate MirrorHolds(c: Config, before: map<string, Bytes>, net: Net, after: map<string, Bytes>) {
    var manifest := c.h.cacheUrl("https://veil-guard.invalid/control/manifest");
    var sig := c.h.cacheUrl("https://veil-guard.invalid/control/sig");
    && (net.control.None? ==> after == before)
    && (net.control.Some? ==>
          && (forall u :: u in after <==> u in before || u == manifest || u == sig)
          && (forall u :: u in before && u != manifest && u != sig ==> after[u] == before[u])
          && after[sig] == net.control.value.bundle
          && (manifest != sig ==> after[manifest] == net.control.value.payload))
  }

  /** The state after a refresh that judged this manifest under this root, with this much pinned: taken,
      pinned and mirrored unless the manifest is older than the pinned one. */
  ghost predicate Settled(c: Config, s: State, net: Net, m: Manifest, root: TrustRoot, version: nat,
                          rotationVersion: nat, s': State) {
    if m.version < version then
      s' == s.(pinStore := Some(Pin(JsRootId(c.h, root), version, rotationVersion, Some(root))),
               status := Known(Rollback), manifest := None)
    else
      && s'.status == Known(if net.now > m.notAfter then Expired else Valid)
      && s'.manifest == Some(m) && s'.root == Some(root)
      && s'.pinStore == Some(Pin(JsRootId(c.h, root), m.version, rotationVersion, Some(root)))
      && s'.pin.Some? && s'.pin.value.(trustRoot := Some(root)) == s'.pinStore.value
      && MirrorHolds(c, s.cache, net, s'.cache)
  }

  lemma OfferIsSource(c: Config, s: State, net: Net, f: SignedFile)
    requires Offers(c, s, net, f)
    ensures Source(c, s, net) == Some(f)
  {
  }

  lemma MirroredHolds(c: Config, cache: map<string, Bytes>, net: Net)
    ensures MirrorHolds(c, cache, net, Mirrored(c.h, cache, net))
  {
  }

  /** The verdict decides, whatever root and pin the rotation step left behind. */
  lemma RefreshUnder(c: Config, s: State, net: Net, f: SignedFile, m: Manifest, root: TrustRoot, pin: Option<Pin>)
    requires Source(c, s, net) == Some(f) && StartRoot(c, s).Some?
    requires RotatedPin(c, s, net) == pin && RootInUse(c, s, net) == root
    requires pin.Some? ==> pin.value.trustRootId == JsRootId(c.h, root) && pin.value.trustRoot == Some(root)
    requires c.h.parseManifest(f.payload) == Some(m) && m.trustRootId == JsRootId(c.h, root)
    requires Verdict(c, f, root, PinnedVersion(pin), net.now) ==
      if m.version < PinnedVersion(pin) then Rollback else if net.now > m.notAfter then Expired else Valid
    ensures
      var rotationVersion := if pin.Some? then pin.value.rotationVersion else 0;
      Settled(c, s, net, m, root, PinnedVersion(pin), rotationVersion, Refreshed(c, s, net))
  {
    MirroredHolds(c, s.cache, net);
    hide JsManifestVerdict, JsRootId, Source, StartRoot, RotatedPin, RootInUse, Mirrored, MirrorHolds;
  }

  /** The verifier refuses: the refresh does, for the same reason, and keeps what the rotation step pinned. */
  lemma RefreshRefused(c: Config, s: State, net: Net, f: SignedFile, root: TrustRoot, pin: Option<Pin>, state: ManifestState)
    requires Source(c, s, net) == Some(f) && StartRoot(c, s).Some?
    requires RotatedPin(c, s, net) == pin && RootInUse(c, s, net) == root
    requires Verdict(c, f, root, PinnedVersion(pin), net.now) == state && IsHardFailure(state)
    ensures Refreshed(c, s, net) == s.(pinStore := pin, status := Known(state), manifest := None)
  {
    hide JsManifestVerdict, JsRootId, Source, StartRoot, RotatedPin, RootInUse, Mirrored;
  }

  // ---------------------------------------------------------------- which root a refresh judges under

  /** The stored pin is this one, on this root. */
  ghost predicate Pinned(c: Config, s: State, p: Pin, a: TrustRoot) {
    s.pinStore == Some(p) && p.trustRoot == Some(a) && p.trustRootId == JsRootId(c.h, a)
  }

  /** The worker was built with another root than the pinned one. */
  ghost predicate Moved(c: Config, p: Pin) {
    c.baked.Some? && JsRootId(c.h, c.baked.value) != p.trustRootId
  }

  /** The server has a chain of signed statements from this root and rotation version. */
  ghost predicate Published(c: Config, sign: SignOp, net: Net, root: TrustRoot, version: nat, legs: seq<Leg>) {
    && Chain(c, sign, root, version, legs) && |legs| <= 8
    && Serves(c.h.prims, sign, net.statements, 0, legs) && NoRepeat(c.h, legs)
  }

  /** There is nothing after the chain, or nothing that is still looked at. */
  ghost predicate Complete(net: Net, legs: seq<Leg>) {
    |legs| == 8 || net.statements(|legs|).None?
  }

  /** What comes after the chain is no statement of the root it leads to. */
  ghost predicate Spoilt(c: Config, net: Net, root: TrustRoot, version: nat, legs: seq<Leg>) {
    && |legs| < 8 && net.statements(|legs|).Some?
    && var g := net.statements(|legs|).value;
       JsRotationVerdict(c.h, g.payload, g.bundle, EndRoot(root, legs), EndVersion(version, legs), c.supported) == Reject
  }

  lemma PublishedIsWalked(c: Config, sign: SignOp, net: Net, root: TrustRoot, pin: Pin, legs: seq<Leg>)
    requires JsHexAgrees(c.h) && Published(c, sign, net, root, pin.rotationVersion, legs)
    ensures Walk(c.h, c.supported, net.statements, 0, root, pin, []) ==
      Walk(c.h, c.supported, net.statements, |legs|, EndRoot(root, legs), EndPin(c.h, pin, legs), LegIds(c.h, legs))
    ensures EndPin(c.h, pin, legs).rotationVersion == EndVersion(pin.rotationVersion, legs)
  {
    assert Unapplied(c.h, legs, []);
    assert [] + LegIds(c.h, legs) == LegIds(c.h, legs);
    hide Walk, Chain, Serves, NoRepeat, JsHexAgrees, EndRoot, JsRootId, LegIds, Unapplied;
    WalkFollows(c, sign, net.statements, 0, root, pin, [], legs);
  }

  lemma WalkStops(h: Host, supported: set<SigAlg>, server: Statements, i: nat, root: TrustRoot, pin: Pin, applied: seq<string>)
    requires i <= 8
    ensures i == 8 || server(i).None? ==>
      Walk(h, supported, server, i, root, pin, applied).(fetches := 0) == Walked(ChainEnded, root, pin, applied, 0)
    ensures
      && i < 8 && server(i).Some?
      && JsRotationVerdict(h, server(i).value.payload, server(i).value.bundle, root, pin.rotationVersion, supported) == Reject
      ==> Walk(h, supported, server, i, root, pin, applied).end == RotationRejected
  {
    hide JsRotationVerdict, JsRootId;
  }

  /** A complete chain is followed to its end, and the pin with it. */
  lemma ChainMoves(c: Config, sign: SignOp, s: State, net: Net, p: Pin, a: TrustRoot, legs: seq<Leg>)
    requires JsHexAgrees(c.h) && Pinned(c, s, p, a) && Moved(c, p)
    requires legs != [] && Published(c, sign, net, a, p.rotationVersion, legs) && Complete(net, legs)
    ensures
      var b := EndRoot(a, legs);
      && StartRoot(c, s).Some? && RootInUse(c, s, net) == b
      && RotatedPin(c, s, net) == Some(Pin(JsRootId(c.h, b), p.version, EndVersion(p.rotationVersion, legs), Some(b)))
  {
    AtMostEight(c, sign, net, a, p.rotationVersion, legs);
    PublishedIsWalked(c, sign, net, a, p, legs);
    hide *;
    var b, ids := EndRoot(a, legs), LegIds(c.h, legs);
    WalkStops(c.h, c.supported, net.statements, |legs|, b, EndPin(c.h, p, legs), ids);
    EndPinIs(c.h, a, p, legs);
    WalkedMoves(c, s, net, p, a, b, EndPin(c.h, p, legs), ids);
  }

  lemma EndPinIs(h: Host, a: TrustRoot, p: Pin, legs: seq<Leg>)
    requires legs != []
    ensures EndPin(h, p, legs) ==
      p.(trustRootId := JsRootId(h, EndRoot(a, legs)), rotationVersion := EndVersion(p.rotationVersion, legs))
  {
    hide JsRootId;
  }

  lemma WalkedMoves(c: Config, s: State, net: Net, p: Pin, a: TrustRoot, b: TrustRoot, pin: Pin, ids: seq<string>)
    requires Pinned(c, s, p, a) && Moved(c, p) && ids != []
    requires Walk(c.h, c.supported, net.statements, 0, a, p, []).(fetches := 0) == Walked(ChainEnded, b, pin, ids, 0)
    ensures StartRoot(c, s).Some? && RootInUse(c, s, net) == b && RotatedPin(c, s, net) == Some(pin.(trustRoot := Some(b)))
  {
    hide Walk, JsRootId;
  }

  lemma AtMostEight(c: Config, sign: SignOp, net: Net, root: TrustRoot, version: nat, legs: seq<Leg>)
    requires Published(c, sign, net, root, version, legs)
    ensures |legs| <= 8 && (Complete(net, legs) <==> |legs| == 8 || net.statements(|legs|).None?)
  {
    hide Serves, NoRepeat, Chain;
  }

  /** Otherwise root and pin stay: nothing to follow, nothing published, or a chain that is spoilt. */
  lemma ChainStays(c: Config, sign: SignOp, s: State, net: Net, p: Pin, a: TrustRoot, legs: seq<Leg>)
    requires JsHexAgrees(c.h) && Pinned(c, s, p, a)
    requires
      || !Moved(c, p) || net.statements(0).None?
      || (Published(c, sign, net, a, p.rotationVersion, legs) && Spoilt(c, net, a, p.rotationVersion, legs))
    ensures StartRoot(c, s) == Some(a) && RootInUse(c, s, net) == a && RotatedPin(c, s, net) == s.pinStore
  {
    if Moved(c, p) {
      if net.statements(0).None? {
        WalkStops(c.h, c.supported, net.statements, 0, a, p, []);
      } else {
        PublishedIsWalked(c, sign, net, a, p, legs);
        WalkStops(c.h, c.supported, net.statements, |legs|, EndRoot(a, legs), EndPin(c.h, p, legs), LegIds(c.h, legs));
      }
    }
    hide Walk, Published, JsHexAgrees, JsRootId;
  }

  // ---------------------------------------------------------------- what the operator can count on

  lemma SaneNames(c: Config, payload: Bytes, root: TrustRoot, m: Manifest)
    requires JsHexAgrees(c.h) && ValidRoot(c.h.prims, root) && Sane(c, payload, root, m)
    ensures c.h.parseManifest(payload) == Some(m) && m.trustRootId == JsRootId(c.h, root)
  {
    JsSeesValidRoot(c.h, root);
    hide JsRootId, IdHex, ValidRoot, JsHexAgrees, StructurallyValid, PathsComparable;
  }

  lemma SpeakersRoot(c: Config, sign: SignOp, signers: seq<SignerKeys>, root: TrustRoot)
    requires Speak(c, sign, signers, root)
    ensures ValidRoot(c.h.prims, root)
  {
    hide ValidRoot, Enough;
  }

  /** A rotation announced is a rotation made. The pin is on root `a`, the worker was built with another root, and
      the server has one to eight statements, each signed by enough keys of the root it leaves and each of a
      higher version: then a manifest signed by enough keys of the root at the end is judged under that root,
      taken if its version is not below the pinned one, and pinned with that root and the last statement's
      version. With the mirror in place of the network it is all the same. */
  lemma RotatedRefresh(c: Config, sign: SignOp, s: State, net: Net, p: Pin, a: TrustRoot, legs: seq<Leg>,
                       signers: seq<SignerKeys>, payload: Bytes, m: Manifest)
    requires JsHexAgrees(c.h) && Pinned(c, s, p, a) && Moved(c, p)
    requires legs != [] && Published(c, sign, net, a, p.rotationVersion, legs) && Complete(net, legs)
    requires Speak(c, sign, signers, EndRoot(a, legs)) && Sane(c, payload, EndRoot(a, legs), m)
    requires Offers(c, s, net, ManifestBy(c, sign, signers, payload))
    ensures Settled(c, s, net, m, EndRoot(a, legs), p.version, EndVersion(p.rotationVersion, legs), Refreshed(c, s, net))
  {
    var b := EndRoot(a, legs);
    var pin := Pin(JsRootId(c.h, b), p.version, EndVersion(p.rotationVersion, legs), Some(b));
    var f := ManifestBy(c, sign, signers, payload);
    assert f.payload == payload && PinnedVersion(Some(pin)) == p.version;
    hide *;
    ChainMoves(c, sign, s, net, p, a, legs);
    SpeakersRoot(c, sign, signers, b);
    SaneNames(c, payload, b, m);
    SignThenVerifyJs(c, sign, signers, payload, b, m, p.version, net.now);
    OfferIsSource(c, s, net, f);
    RefreshUnder(c, s, net, f, m, b, Some(pin));
  }

  /** Trust on first use: with nothing pinned, a manifest signed by enough keys of the built-in root is taken
      unless it has expired, and pinned. The server's statements have no say. */
  lemma FirstRefresh(c: Config, sign: SignOp, s: State, net: Net, b: TrustRoot, signers: seq<SignerKeys>, payload: Bytes,
                     m: Manifest)
    requires JsHexAgrees(c.h) && s.pinStore.None? && c.baked == Some(b)
    requires Speak(c, sign, signers, b) && Sane(c, payload, b, m) && Offers(c, s, net, ManifestBy(c, sign, signers, payload))
    ensures Settled(c, s, net, m, b, 0, 0, Refreshed(c, s, net))
  {
    var f := ManifestBy(c, sign, signers, payload);
    assert f.payload == payload && PinnedVersion(None) == 0;
    assert RootInUse(c, s, net) == b && RotatedPin(c, s, net) == None && StartRoot(c, s) == Some(b);
    hide *;
    SpeakersRoot(c, sign, signers, b);
    SaneNames(c, payload, b, m);
    SignThenVerifyJs(c, sign, signers, payload, b, m, 0, net.now);
    OfferIsSource(c, s, net, f);
    RefreshUnder(c, s, net, f, m, b, None);
  }

  /** Under the pinned root, moved or not, as long as no complete chain leads away from it: a chain that is
      spoilt after some good statements moves nothing at all. */
  lemma PinnedRefresh(c: Config, sign: SignOp, s: State, net: Net, p: Pin, a: TrustRoot, legs: seq<Leg>,
                      signers: seq<SignerKeys>, payload: Bytes, m: Manifest)
    requires JsHexAgrees(c.h) && Pinned(c, s, p, a)
    requires
      || !Moved(c, p) || net.statements(0).None?
      || (Published(c, sign, net, a, p.rotationVersion, legs) && Spoilt(c, net, a, p.rotationVersion, legs))
    requires Speak(c, sign, signers, a) && Sane(c, payload, a, m) && Offers(c, s, net, ManifestBy(c, sign, signers, payload))
    ensures Settled(c, s, net, m, a, p.version, p.rotationVersion, Refreshed(c, s, net))
  {
    var f := ManifestBy(c, sign, signers, payload);
    assert f.payload == payload && PinnedVersion(Some(p)) == p.version;
    assert s.pinStore == Some(p) && p.trustRoot == Some(a) && p.trustRootId == JsRootId(c.h, a);
    hide *;
    ChainStays(c, sign, s, net, p, a, legs);
    SpeakersRoot(c, sign, signers, a);
    SaneNames(c, payload, a, m);
    SignThenVerifyJs(c, sign, signers, payload, a, m, p.version, net.now);
    OfferIsSource(c, s, net, f);
    RefreshUnder(c, s, net, f, m, a, Some(p));
  }

  /** A root nobody announced is not trusted: without a statement, a manifest signed by too few keys of the
      pinned root is refused, however many keys of the built-in root signed it, and nothing moves. */
  lemma UnannouncedRootRefused(c: Config, sign: SignOp, s: State, net: Net, p: Pin, a: TrustRoot, legs: seq<Leg>,
                               signers: seq<SignerKeys>, payload: Bytes)
    requires JsHexAgrees(c.h) && Pinned(c, s, p, a)
    requires
      || !Moved(c, p) || net.statements(0).None?
      || (Published(c, sign, net, a, p.rotationVersion, legs) && Spoilt(c, net, a, p.rotationVersion, legs))
    requires Honest(c.h.prims, sign, signers, a) && 1 <= |signers| <= 32 && Active(a.sigalgs, c.supported) != []
    requires RootSigners(c.h.prims, signers, a) < a.threshold && Offers(c, s, net, ManifestBy(c, sign, signers, payload))
    ensures Refreshed(c, s, net) == s.(status := Known(UntrustedRoot), manifest := None)
  {
    var f := ManifestBy(c, sign, signers, payload);
    assert s.(pinStore := s.pinStore) == s;
    hide *;
    ChainStays(c, sign, s, net, p, a, legs);
    TooFewAreNotTrusted(c, sign, signers, payload, a, PinnedVersion(s.pinStore), net.now);
    OfferIsSource(c, s, net, f);
    RefreshRefused(c, s, net, f, a, s.pinStore, UntrustedRoot);
  }

  /** A stored pin that does not belong to its root - storage that lost half of a write, say - lets no manifest in,
      not even one that the root's own keys signed. */
  lemma MismatchedPinRefused(c: Config, sign: SignOp, s: State, net: Net, p: Pin, a: TrustRoot, signers: seq<SignerKeys>,
                             payload: Bytes, m: Manifest)
    requires JsHexAgrees(c.h) && s.pinStore == Some(p) && p.trustRoot == Some(a) && p.trustRootId != JsRootId(c.h, a)
    requires !Moved(c, p) && p.version <= m.version
    requires Speak(c, sign, signers, a) && Sane(c, payload, a, m) && Offers(c, s, net, ManifestBy(c, sign, signers, payload))
    ensures Refreshed(c, s, net) == s.(status := Known(UntrustedRoot), manifest := None)
  {
    var f := ManifestBy(c, sign, signers, payload);
    assert f.payload == payload;
    hide *;
    SpeakersRoot(c, sign, signers, a);
    SaneNames(c, payload, a, m);
    SignThenVerifyJs(c, sign, signers, payload, a, m, p.version, net.now);
    OfferIsSource(c, s, net, f);
    ForeignPinRefuses(c, s, net, f, m, p, a);
  }

  lemma ForeignPinRefuses(c: Config, s: State, net: Net, f: SignedFile, m: Manifest, p: Pin, a: TrustRoot)
    requires Source(c, s, net) == Some(f) && s.pinStore == Some(p) && p.trustRoot == Some(a) && !Moved(c, p)
    requires c.h.parseManifest(f.payload) == Some(m) && m.trustRootId != p.trustRootId && p.version <= m.version
    requires Verdict(c, f, a, p.version, net.now) ==
      if m.version < p.version then Rollback else if net.now > m.notAfter then Expired else Valid
    ensures Refreshed(c, s, net) == s.(status := Known(UntrustedRoot), manifest := None)
  {
    assert RotatedPin(c, s, net) == Some(p) && RootInUse(c, s, net) == a && StartRoot(c, s) == Some(a);
    hide JsManifestVerdict, JsRootId, Source, Mirrored, RotatedPin, RootInUse, StartRoot, MustWalk;
  }

  /** With nothing to judge, or nothing to judge it by, only the state shown changes. */
  lemma NothingToGoBy(c: Config, s: State, net: Net)
    ensures (forall f :: !Offers(c, s, net, f)) ==>
      Refreshed(c, s, net) == s.(status := if s.manifest.Some? then s.status else NetworkFail)
    ensures (exists f :: Offers(c, s, net, f)) && s.pinStore.None? && c.baked.None? ==>
      Refreshed(c, s, net) == s.(status := Known(UntrustedRoot))
  {
    if Source(c, s, net).Some? { assert Offers(c, s, net, Source(c, s, net).value); }
    if f :| Offers(c, s, net, f) { OfferIsSource(c, s, net, f); }
    hide Offers, Source, RotatedPin, Passes;
  }

  // ---------------------------------------------------------------- from the first visit to an outage

  /** The request is for this entry of the manifest. */
  ghost predicate Wants(c: Config, request: Request, m: Manifest, e: AssetEntry) {
    InRemit(c, request)
    && exists key :: c.h.requestKey(request.url.value.pathname) == Some(key)
         && Scoped(key, m.scope) && StandsFor(m, key, Navigation(request), e)
  }

  lemma WantedIsChecked(c: Config, s: State, request: Request, m: Manifest, e: AssetEntry)
    requires Wants(c, request, m, e) && s.manifest == Some(m) && s.status in {Known(Valid), Known(Expired)}
    ensures CheckedAgainst(c, s, request, e)
  {
    var key :| c.h.requestKey(request.url.value.pathname) == Some(key)
      && Scoped(key, m.scope) && StandsFor(m, key, Navigation(request), e);
    hide Scoped, StandsFor, InRemit;
    assert LookedUp(c, s, request, key);
  }

  lemma EntryUrlIsPlain(c: Config, e: AssetEntry)
    requires UrlsPlain(c.h) && DigestShaped(e.sha256)
    ensures UrlOf(c, e) != c.h.cacheUrl("https://veil-guard.invalid/control/manifest")
    ensures UrlOf(c, e) != c.h.cacheUrl("https://veil-guard.invalid/control/sig")
    ensures c.h.cacheUrl("https://veil-guard.invalid/control/manifest") != c.h.cacheUrl("https://veil-guard.invalid/control/sig")
  {
    DigestKeyIsNoMirror(e.sha256);
    assert |CONTROL_MANIFEST| != |CONTROL_SIG|;
    hide DigestShaped;
  }

  /** An operator with honest signers, whose manifest of the built-in root the network carries. */
  ghost predicate Operates(c: Config, sign: SignOp, b: TrustRoot, signers: seq<SignerKeys>, payload: Bytes, m: Manifest) {
    && JsHexAgrees(c.h) && UrlsPlain(c.h) && c.baked == Some(b)
    && Speak(c, sign, signers, b) && Sane(c, payload, b, m)
  }

  /** The worker once installed and asked for the first time. */
  ghost function FirstAnswer(c: Config, net: Net, request: Request, r: Response, wasm: bool): Answer {
    AnswerOf(c, Ready(c, Installed(), net), request, Some(r), wasm)
  }

  /** What a manifest just taken does for a request. */
  lemma TakenThenAsked(c: Config, s: State, net: Net, m: Manifest, root: TrustRoot, version: nat, rotationVersion: nat,
                       s': State, request: Request, e: AssetEntry)
    requires Settled(c, s, net, m, root, version, rotationVersion, s') && version <= m.version && Wants(c, request, m, e)
    ensures CheckedAgainst(c, s', request, e) && MirrorHolds(c, s.cache, net, s'.cache)
    ensures s'.pinStore == Some(Pin(JsRootId(c.h, root), m.version, rotationVersion, Some(root)))
  {
    hide Wants, CheckedAgainst, MirrorHolds;
    WantedIsChecked(c, s', request, m, e);
  }

  lemma FirstReady(c: Config, sign: SignOp, b: TrustRoot, signers: seq<SignerKeys>, payload: Bytes, m: Manifest, net: Net,
                   request: Request, e: AssetEntry)
    requires Operates(c, sign, b, signers, payload, m) && net.control == Some(ManifestBy(c, sign, signers, payload))
    requires Wants(c, request, m, e)
    ensures
      var ready := Ready(c, Installed(), net);
      && CheckedAgainst(c, ready, request, e) && MirrorHolds(c, map[], net, ready.cache)
      && ready.pinStore == Some(Pin(JsRootId(c.h, b), m.version, 0, Some(b)))
  {
    assert Ready(c, Installed(), net) == Refreshed(c, Installed(), net);
    assert Installed().cache == map[] && Installed().pinStore.None?;
    assert Offers(c, Installed(), net, ManifestBy(c, sign, signers, payload));
    assert JsHexAgrees(c.h) && c.baked == Some(b) && Speak(c, sign, signers, b) && Sane(c, payload, b, m);
    hide *;
    FirstRefresh(c, sign, Installed(), net, b, signers, payload, m);
    TakenThenAsked(c, Installed(), net, m, b, 0, 0, Ready(c, Installed(), net), request, e);
  }

  /** The first visit: whoever installs the worker of an operator that does its part is served what the manifest
      lists, verified, on the first request - expired or not, whatever statements the server has. */
  lemma ServedOnFirstVisit(c: Config, sign: SignOp, b: TrustRoot, signers: seq<SignerKeys>, payload: Bytes, m: Manifest,
                           net: Net, request: Request, e: AssetEntry, r: Response, wasm: bool)
    requires Operates(c, sign, b, signers, payload, m) && net.control == Some(ManifestBy(c, sign, signers, payload))
    requires Wants(c, request, m, e) && DigestShaped(e.sha256) && Accepted(c, e, r, wasm)
    ensures FirstAnswer(c, net, request, r, wasm) == Verified(e, r)
  {
    assert UrlsPlain(c.h);
    hide *;
    var ready := Ready(c, Installed(), net);
    FirstReady(c, sign, b, signers, payload, m, net, request, e);
    NotMirrored(c, net, ready.cache, e);
    VerifiedFollows(c, ready, request, e, r, wasm);
    FirstAnswerIs(c, net, request, r, wasm);
  }

  lemma NotMirrored(c: Config, net: Net, cache: map<string, Bytes>, e: AssetEntry)
    requires UrlsPlain(c.h) && DigestShaped(e.sha256) && MirrorHolds(c, map[], net, cache)
    ensures UrlOf(c, e) !in cache
  {
    EntryUrlIsPlain(c, e);
    hide UrlOf, UrlsPlain, DigestShaped;
  }

  lemma VerifiedFollows(c: Config, s: State, request: Request, e: AssetEntry, r: Response, wasm: bool)
    requires CheckedAgainst(c, s, request, e) && UrlOf(c, e) !in s.cache && Accepted(c, e, r, wasm)
    ensures AnswerOf(c, s, request, Some(r), wasm) == Verified(e, r)
  {
    hide CheckedAgainst, UrlOf, AnswerOf, Accepted;
    AnswerExplained(c, s, request, Some(r), wasm, Verified(e, r));
  }

  lemma FirstAnswerIs(c: Config, net: Net, request: Request, r: Response, wasm: bool)
    ensures FirstAnswer(c, net, request, r, wasm) == AnswerOf(c, Ready(c, Installed(), net), request, Some(r), wasm)
  {
    hide AnswerOf, Ready, Installed;
  }

  /** And the outage: the browser stops the worker after that visit and starts it again with no network at all.
      It recovers the manifest from the mirror, under the pin, and serves the same body from the cache. */
  lemma ServedThroughOutage(c: Config, sign: SignOp, b: TrustRoot, signers: seq<SignerKeys>, payload: Bytes, m: Manifest,
                            net: Net, request: Request, e: AssetEntry, r: Response, wasm: bool, outage: Net, wasm': bool)
    requires Operates(c, sign, b, signers, payload, m) && net.control == Some(ManifestBy(c, sign, signers, payload))
    requires Wants(c, request, m, e) && DigestShaped(e.sha256) && Accepted(c, e, r, wasm) && outage.control.None?
    ensures
      var stopped := Run(c, Installed(), [RequestEvent(request, net, Some(r), wasm), RestartEvent]);
      AnswerOf(c, Ready(c, stopped, outage), request, None, wasm') == Hit(e, r.body)
  {
    assert UrlsPlain(c.h);
    hide *;
    var stopped := Run(c, Installed(), [RequestEvent(request, net, Some(r), wasm), RestartEvent]);
    var ready := Ready(c, Installed(), net);
    ServedOnFirstVisit(c, sign, b, signers, payload, m, net, request, e, r, wasm);
    FirstReady(c, sign, b, signers, payload, m, net, request, e);
    VisitThenStop(c, net, request, e, r, wasm);
    StoppedOffers(c, sign, signers, payload, net, ready, stopped, e, r, outage);
    RecoversFromMirror(c, sign, b, signers, payload, m, stopped, outage, request, e);
    HitFollows(c, Ready(c, stopped, outage), request, e, r.body, wasm');
  }

  lemma HitFollows(c: Config, s: State, request: Request, e: AssetEntry, body: Bytes, wasm: bool)
    requires CheckedAgainst(c, s, request, e) && UrlOf(c, e) in s.cache && s.cache[UrlOf(c, e)] == body
    ensures AnswerOf(c, s, request, None, wasm) == Hit(e, body)
  {
    hide CheckedAgainst, UrlOf, AnswerOf;
    AnswerExplained(c, s, request, None, wasm, Hit(e, body));
  }

  lemma VisitThenStop(c: Config, net: Net, request: Request, e: AssetEntry, r: Response, wasm: bool)
    requires FirstAnswer(c, net, request, r, wasm) == Verified(e, r)
    ensures
      var ready := Ready(c, Installed(), net);
      Run(c, Installed(), [RequestEvent(request, net, Some(r), wasm), RestartEvent])
      == State(ready.pinStore, ready.cache[UrlOf(c, e) := r.body], NetworkFail, None, None, None)
  {
    var events := [RequestEvent(request, net, Some(r), wasm), RestartEvent];
    assert events[1..] == [RestartEvent] && [RestartEvent][1..] == [];
    KeyIs(c, e);
    hide Ready, AnswerOf, CacheKey, UrlOf, Installed;
  }

  lemma StoppedOffers(c: Config, sign: SignOp, signers: seq<SignerKeys>, payload: Bytes, net: Net, ready: State, stopped: State,
                      e: AssetEntry, r: Response, outage: Net)
    requires UrlsPlain(c.h) && DigestShaped(e.sha256) && net.control == Some(ManifestBy(c, sign, signers, payload))
    requires MirrorHolds(c, map[], net, ready.cache) && outage.control.None?
    requires stopped.cache == ready.cache[UrlOf(c, e) := r.body]
    ensures Offers(c, stopped, outage, ManifestBy(c, sign, signers, payload))
  {
    EntryUrlIsPlain(c, e);
    hide UrlOf, UrlsPlain, DigestShaped, ManifestBy;
  }

  lemma RecoversFromMirror(c: Config, sign: SignOp, b: TrustRoot, signers: seq<SignerKeys>, payload: Bytes, m: Manifest,
                           stopped: State, outage: Net, request: Request, e: AssetEntry)
    requires Operates(c, sign, b, signers, payload, m) && Wants(c, request, m, e) && outage.control.None?
    requires stopped.manifest.None? && stopped.pinStore == Some(Pin(JsRootId(c.h, b), m.version, 0, Some(b)))
    requires Offers(c, stopped, outage, ManifestBy(c, sign, signers, payload))
    ensures CheckedAgainst(c, Ready(c, stopped, outage), request, e)
    ensures Ready(c, stopped, outage).cache == stopped.cache
  {
    var p := Pin(JsRootId(c.h, b), m.version, 0, Some(b));
    assert Ready(c, stopped, outage) == Refreshed(c, stopped, outage);
    assert JsHexAgrees(c.h) && c.baked == Some(b) && Speak(c, sign, signers, b) && Sane(c, payload, b, m);
    assert Pinned(c, stopped, p, b) && !Moved(c, p);
    hide Ready, Refreshed, Operates, Wants, Offers, Speak, Sane, JsHexAgrees, Pinned, Moved, CheckedAgainst, Settled, JsRootId,
         ManifestBy;
    PinnedRefresh(c, sign, stopped, outage, p, b, [], signers, payload, m);
    TakenThenAsked(c, stopped, outage, m, b, m.version, 0, Ready(c, stopped, outage), request, e);
  }
}
