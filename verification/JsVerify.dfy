/** The JavaScript verifier (runtime/veilguard-verify.mjs) and its agreement with the Rust one. */
module JsVerify {
  import opened Prelude
  import opened Bundle
  import opened TrustRoots
  import opened Threshold
  import opened Paths
  import opened Manifests
  import opened RevocationEffects

  /** On well-formed hex the lenient decoder does what the strict one does. */
  ghost predicate JsHexAgrees(h: Host) {
    forall s :: Unhex(s).Some? ==> h.jsUnhex(s) == Unhex(s).value
  }

  function JsRingKey(h: Host, k: TrustedKey): RingKey {
    RingKey(Some(h.jsUnhex(k.keyId)), Some(h.jsUnhex(k.ed25519)), Some(h.jsUnhex(k.p256)))
  }

  function JsRing(h: Host, root: TrustRoot): (r: seq<RingKey>)
    ensures |r| == |root.keys|
  {
    seq(|root.keys|, i requires 0 <= i < |root.keys| => JsRingKey(h, root.keys[i]))
  }

  predicate JsKeyBefore(h: Host, a: TrustedKey, b: TrustedKey) {
    Compare(h.jsUnhex(a.keyId), h.jsUnhex(b.keyId)) < 0
  }

  /** `trustRootValid`: counts and orders, but neither field lengths nor key identities. */
  predicate JsValidRoot(h: Host, root: TrustRoot) {
    && 1 <= |root.keys| <= MAX_TRUST_ROOT_KEYS
    && 1 <= root.threshold <= |root.keys|
    && CanonicalAlgs(root.sigalgs)
    && forall i :: 0 < i < |root.keys| ==> JsKeyBefore(h, root.keys[i - 1], root.keys[i])
  }

  function JsKeysBytes(h: Host, keys: seq<TrustedKey>): Bytes {
    if keys == [] then []
    else h.jsUnhex(keys[0].keyId) + h.jsUnhex(keys[0].ed25519) + h.jsUnhex(keys[0].p256) + JsKeysBytes(h, keys[1..])
  }

  function JsRootBytes(h: Host, root: TrustRoot): Bytes {
    [root.threshold % 256, |root.keys| % 256, Mask(root.sigalgs)] + JsKeysBytes(h, root.keys)
  }

  function JsRootId(h: Host, root: TrustRoot): string {
    Hex(h.prims.sha256(PREFIX_TRUSTROOT + JsRootBytes(h, root)))
  }

  ghost function JsQuorum(h: Host, msg: Bytes, bundle: Bytes, root: TrustRoot,
                          supported: set<SigAlg>): Option<ManifestState> {
    QuorumState(h.prims, msg, bundle, JsRing(h, root), Active(root.sigalgs, supported), root.threshold)
  }

  ghost predicate JsAssetOk(h: Host, assets: seq<AssetEntry>, i: nat)
    requires i < |assets|
  {
    && assets[i].size <= MAX_SAFE_INT
    && h.nfc(assets[i].path) == assets[i].path
    && h.requestKey(assets[i].path) == Some(assets[i].path)
    && (i > 0 ==> JsLess(assets[i - 1].path, assets[i].path))
  }

  /** The checks after the signatures, in the order of the JavaScript side: identifiers before
      structure, and no validation of the embedded root. */
  ghost function JsContent(h: Host, payload: Bytes, pinned: TrustRoot, pinnedVersion: nat, now: nat): ManifestState {
    match h.parseManifest(payload)
    case None => TamperedState
    case Some(m) =>
      if m.spec != SPEC_MANIFEST then TamperedState
      else if JsRootId(h, m.trustRoot) != m.trustRootId then TamperedState
      else if m.trustRootId != JsRootId(h, pinned) then UntrustedRoot
      else if m.sigalgs != m.trustRoot.sigalgs then TamperedState
      else if m.version > MAX_SAFE_INT || m.notAfter > MAX_SAFE_INT then TamperedState
      else if m.notAfter <= m.version then TamperedState
      else if exists i :: 0 <= i < |m.assets| && !JsAssetOk(h, m.assets, i) then TamperedState
      else Freshness(m, pinnedVersion, now)
  }

  ghost function JsSigned(h: Host, payload: Bytes, bundle: Bytes, pinned: TrustRoot,
                          pinnedVersion: nat, now: nat, supported: set<SigAlg>): ManifestState
  {
    match JsQuorum(h, PREFIX_MANIFEST + payload, bundle, pinned, supported)
    case Some(s) => s
    case None => JsContent(h, payload, pinned, pinnedVersion, now)
  }

  ghost function JsManifestVerdict(h: Host, payload: Bytes, bundle: Bytes, pinned: TrustRoot,
                                   pinnedVersion: nat, now: nat, supported: set<SigAlg>, revoked: seq<string>): ManifestState
  {
    if !JsValidRoot(h, pinned) then UntrustedRoot
    else if revoked == [] then JsSigned(h, payload, bundle, pinned, pinnedVersion, now, supported)
    else if |Filtered(pinned, revoked).keys| < pinned.threshold then UntrustedRoot
    else JsSigned(h, payload, bundle, Filtered(pinned, revoked), pinnedVersion, now, supported)
  }

  ghost function JsRotationVerdict(h: Host, payload: Bytes, bundle: Bytes, pinned: TrustRoot,
                                   pinnedRotationVersion: nat, supported: set<SigAlg>): Verdict
  {
    if !JsValidRoot(h, pinned) then Reject
    else if JsQuorum(h, PREFIX_ROTATION + payload, bundle, pinned, supported).Some? then Reject
    else
      match h.parseRotation(payload)
      case None => Reject
      case Some(r) =>
        if && r.spec == SPEC_ROTATION
           && r.fromTrustRootId == JsRootId(h, pinned)
           && r.version > pinnedRotationVersion
           && JsValidRoot(h, r.toTrustRoot)
        then Accept else Reject
  }

  // ---------------------------------------------------------------- the decision chains, executed

  /** Bundle and threshold, shared by the two entry points. */
  method CheckQuorum(h: Host, prefix: Bytes, payload: Bytes, bundle: Bytes, pinned: TrustRoot, supported: set<SigAlg>)
    returns (r: Option<ManifestState>)
    ensures r == JsQuorum(h, prefix + payload, bundle, pinned, supported)
  {
    var entries := ParseBundle(bundle);
    if entries.Failure? { return Some(TamperedState); }
    var t := CheckRing(h.prims, prefix + payload, entries.value, JsRing(h, pinned), Active(pinned.sigalgs, supported));
    match t {
      case Unsupported => return Some(UnsupportedState);
      case Tampered => return Some(TamperedState);
      case Qualifying(n) => return if n < pinned.threshold then Some(UntrustedRoot) else None;
    }
  }

  method VerifyManifestJs(h: Host, payload: Bytes, bundle: Bytes, root: TrustRoot,
                          pinnedVersion: nat, now: nat, supported: set<SigAlg>, revoked: seq<string>)
    returns (r: ManifestState)
    ensures r == JsManifestVerdict(h, payload, bundle, root, pinnedVersion, now, supported, revoked)
  {
    hide Unrevoked, JsRootId, JsValidRoot, Freshness, JsLess;
    if !JsValidRoot(h, root) { return UntrustedRoot; }
    var pinned := root;
    if revoked != [] {
      var validKeys := Unrevoked(root.keys, revoked);
      if |validKeys| < root.threshold { return UntrustedRoot; }
      pinned := root.(keys := validKeys);
    }
    var q := CheckQuorum(h, PREFIX_MANIFEST, payload, bundle, pinned, supported);
    if q.Some? { return q.value; }
    if h.parseManifest(payload).None? { return TamperedState; }
    var m := h.parseManifest(payload).value;
    if m.spec != SPEC_MANIFEST { return TamperedState; }
    if JsRootId(h, m.trustRoot) != m.trustRootId { return TamperedState; }
    if m.trustRootId != JsRootId(h, pinned) { return UntrustedRoot; }
    if m.sigalgs != m.trustRoot.sigalgs { return TamperedState; }
    if m.version > MAX_SAFE_INT || m.notAfter > MAX_SAFE_INT { return TamperedState; }
    if m.notAfter <= m.version { return TamperedState; }
    for i := 0 to |m.assets|
      invariant forall j :: 0 <= j < i ==> JsAssetOk(h, m.assets, j)
    {
      var a := m.assets[i];
      var bad :=
        || a.size > MAX_SAFE_INT
        || h.nfc(a.path) != a.path
        || h.requestKey(a.path) != Some(a.path)
        || (i > 0 && !JsLess(m.assets[i - 1].path, a.path));
      if bad {
        assert !JsAssetOk(h, m.assets, i);
        return TamperedState;
      }
    }
    return Freshness(m, pinnedVersion, now);
  }

  method VerifyRotationJs(h: Host, payload: Bytes, bundle: Bytes, pinned: TrustRoot,
                          pinnedRotationVersion: nat, supported: set<SigAlg>)
    returns (v: Verdict)
    ensures v == JsRotationVerdict(h, payload, bundle, pinned, pinnedRotationVersion, supported)
  {
    if !JsValidRoot(h, pinned) { return Reject; }
    var q := CheckQuorum(h, PREFIX_ROTATION, payload, bundle, pinned, supported);
    if q.Some? { return Reject; }
    if h.parseRotation(payload).None? { return Reject; }
    var r := h.parseRotation(payload).value;
    if r.spec != SPEC_ROTATION { return Reject; }
    if r.fromTrustRootId != JsRootId(h, pinned) { return Reject; }
    if !(r.version > pinnedRotationVersion) { return Reject; }
    if !JsValidRoot(h, r.toTrustRoot) { return Reject; }
    return Accept;
  }

  // ---------------------------------------------------------------- agreement

  predicate AllCanonical(root: TrustRoot) { forall k :: k in root.keys ==> CanonicalFields(k) }

  /** The encodings of two roots, if they have any, are told apart by the hash. */
  ghost predicate RootsSeparate(p: Primitives, a: TrustRoot, b: TrustRoot) {
    AllCanonical(a) && AllCanonical(b) ==>
      NoCollision(p, PREFIX_TRUSTROOT + RootMaterial(a), PREFIX_TRUSTROOT + RootMaterial(b))
  }

  /** No two neighbouring paths first differ in a supplementary character against U+E000..U+FFFF. */
  predicate PathsComparable(m: Manifest) {
    forall i :: 0 < i < |m.assets| ==> !FirstDifferenceStraddles(m.assets[i - 1].path, m.assets[i].path)
  }

  lemma {:induction false} JsKeysBytesAgree(h: Host, keys: seq<TrustedKey>)
    requires JsHexAgrees(h) && forall k :: k in keys ==> CanonicalFields(k)
    ensures JsKeysBytes(h, keys) == KeysMaterial(keys)
  {
    if keys != [] {
      var k := keys[0];
      assert CanonicalFields(k);
      assert h.jsUnhex(k.keyId) == Field(k.keyId, 8).value;
      assert h.jsUnhex(k.ed25519) == Field(k.ed25519, 32).value;
      assert h.jsUnhex(k.p256) == Field(k.p256, 65).value;
      JsKeysBytesAgree(h, keys[1..]);
    }
  }

  lemma JsIdAgrees(h: Host, root: TrustRoot)
    requires JsHexAgrees(h) && forall k :: k in root.keys ==> CanonicalFields(k)
    ensures JsRootBytes(h, root) == RootMaterial(root)
    ensures (forall k :: k in root.keys ==> Encodable(k)) ==> IdHex(h.prims, root) == Some(JsRootId(h, root))
  {
    JsKeysBytesAgree(h, root.keys);
  }

  lemma JsKeyAgrees(h: Host, k: TrustedKey)
    requires JsHexAgrees(h) && ValidKey(h.prims, k)
    ensures JsRingKey(h, k) == RingKeyOf(k)
  {
  }

  /** On a root the Rust side validates, both sides see the same ring and the same root. */
  lemma JsSeesValidRoot(h: Host, root: TrustRoot)
    requires JsHexAgrees(h) && ValidRoot(h.prims, root)
    ensures JsValidRoot(h, root)
    ensures JsRing(h, root) == RingOf(root)
    ensures forall k :: k in root.keys ==> CanonicalFields(k)
    ensures IdHex(h.prims, root) == Some(JsRootId(h, root))
  {
    forall i | 0 <= i < |root.keys| ensures JsRing(h, root)[i] == RingOf(root)[i] {
      JsKeyAgrees(h, root.keys[i]);
    }
    ValidIsEncodable(h.prims, root);
    JsIdAgrees(h, root);
    forall i | 0 < i < |root.keys| ensures JsKeyBefore(h, root.keys[i - 1], root.keys[i]) {
      assert KeyBefore(root.keys[i - 1], root.keys[i]);
    }
  }

  lemma AssetsAgree(h: Host, m: Manifest)
    requires PathsComparable(m)
    ensures forall i :: 0 <= i < |m.assets| ==> (AssetOk(h, m.assets, i) <==> JsAssetOk(h, m.assets, i))
  {
    forall i | 0 <= i < |m.assets| ensures AssetOk(h, m.assets, i) <==> JsAssetOk(h, m.assets, i) {
      if i > 0 {
        OrdersAgree(m.assets[i - 1].path, m.assets[i].path);
      }
    }
  }

  /** Where neighbouring paths straddle, the orders are opposite, and no manifest satisfies both. */
  lemma AssetsPart(h: Host, m: Manifest)
    requires !PathsComparable(m)
    ensures exists i :: 0 <= i < |m.assets| && !(AssetOk(h, m.assets, i) && JsAssetOk(h, m.assets, i))
  {
    var i :| 0 < i < |m.assets| && FirstDifferenceStraddles(m.assets[i - 1].path, m.assets[i].path);
    OrdersAgree(m.assets[i - 1].path, m.assets[i].path);
    assert !(AssetOk(h, m.assets, i) && JsAssetOk(h, m.assets, i));
  }

  /** An embedded root with the pinned identifier is the pinned root, up to role and algorithm order,
      if its fields are spelled as they should be. */
  lemma EmbeddedRootMatches(h: Host, m: Manifest, pinned: TrustRoot)
    requires JsHexAgrees(h) && ValidRoot(h.prims, pinned)
    requires AllCanonical(m.trustRoot) && RootsSeparate(h.prims, m.trustRoot, pinned)
    requires JsRootId(h, m.trustRoot) == JsRootId(h, pinned)
    ensures ValidRoot(h.prims, m.trustRoot) <==> CanonicalAlgs(m.trustRoot.sigalgs) && m.trustRoot.threshold < 256
    ensures forall k :: k in m.trustRoot.keys ==> Encodable(k)
  {
    JsSeesValidRoot(h, pinned);
    JsIdAgrees(h, m.trustRoot);
    JsIdAgrees(h, pinned);
    var a, b := PREFIX_TRUSTROOT + RootMaterial(m.trustRoot), PREFIX_TRUSTROOT + RootMaterial(pinned);
    HexInjective(h.prims.sha256(a), h.prims.sha256(b));
    assert a[|PREFIX_TRUSTROOT|..] == RootMaterial(m.trustRoot) && b[|PREFIX_TRUSTROOT|..] == RootMaterial(pinned);
    ValidityFollowsMaterial(h.prims, pinned, m.trustRoot);
    MaterialInjective(m.trustRoot, pinned);
    forall k | k in m.trustRoot.keys ensures Encodable(k) {
      var i :| 0 <= i < |m.trustRoot.keys| && m.trustRoot.keys[i] == k;
      assert SameKey(k, pinned.keys[i]) && ValidKey(h.prims, pinned.keys[i]);
    }
  }

  /** The hash does not take the embedded root for the pinned one. */
  ghost predicate Separate(h: Host, payload: Bytes, pinned: TrustRoot) {
    h.parseManifest(payload).Some? ==> RootsSeparate(h.prims, h.parseManifest(payload).value.trustRoot, pinned)
  }

  /** What the JavaScript side asks besides: paths that compare alike. */
  ghost predicate JsToo(h: Host, payload: Bytes) {
    h.parseManifest(payload).Some? && PathsComparable(h.parseManifest(payload).value)
  }

  /** What the Rust side asks besides: an embedded algorithm list in order, embedded keys in canonical
      hex, an embedded threshold that is a byte, paths that compare alike. */
  ghost predicate RustToo(h: Host, payload: Bytes) {
    h.parseManifest(payload).Some? &&
      var m := h.parseManifest(payload).value;
      CanonicalAlgs(m.trustRoot.sigalgs) && AllCanonical(m.trustRoot) && m.trustRoot.threshold < 256 && PathsComparable(m)
  }

  /** A valid embedded root, as the JavaScript side sees it. */
  lemma ValidRootAgreement(h: Host, m: Manifest, pinned: TrustRoot)
    requires JsHexAgrees(h) && ValidRoot(h.prims, pinned)
    ensures ValidRoot(h.prims, m.trustRoot) ==>
      CanonicalAlgs(m.trustRoot.sigalgs) && AllCanonical(m.trustRoot) && m.trustRoot.threshold < 256
      && IdHex(h.prims, m.trustRoot) == Some(JsRootId(h, m.trustRoot))
    ensures IdHex(h.prims, pinned) == Some(JsRootId(h, pinned))
  {
    JsSeesValidRoot(h, pinned);
    if ValidRoot(h.prims, m.trustRoot) { JsSeesValidRoot(h, m.trustRoot); }
  }

  /** The embedded root's part in the two verdicts. */
  lemma RootAgreement(h: Host, m: Manifest, pinned: TrustRoot)
    requires JsHexAgrees(h) && ValidRoot(h.prims, pinned) && RootsSeparate(h.prims, m.trustRoot, pinned)
    ensures ValidRoot(h.prims, m.trustRoot) ==>
      CanonicalAlgs(m.trustRoot.sigalgs) && AllCanonical(m.trustRoot) && m.trustRoot.threshold < 256
      && IdHex(h.prims, m.trustRoot) == Some(JsRootId(h, m.trustRoot))
    ensures
      && JsRootId(h, m.trustRoot) == JsRootId(h, pinned)
      && CanonicalAlgs(m.trustRoot.sigalgs) && AllCanonical(m.trustRoot) && m.trustRoot.threshold < 256
      ==> ValidRoot(h.prims, m.trustRoot)
    ensures IdHex(h.prims, pinned) == Some(JsRootId(h, pinned))
  {
    ValidRootAgreement(h, m, pinned);
    if !ValidRoot(h.prims, m.trustRoot) && JsRootId(h, m.trustRoot) == JsRootId(h, pinned) && AllCanonical(m.trustRoot) {
      hide *;
      EmbeddedRootMatches(h, m, pinned);
    }
  }

  lemma RustThenJs(h: Host, payload: Bytes, pinned: TrustRoot, pinnedVersion: nat, now: nat)
    requires JsHexAgrees(h) && ValidRoot(h.prims, pinned)
    requires Passed(ContentVerdict(h, payload, pinned, pinnedVersion, now))
    ensures JsContent(h, payload, pinned, pinnedVersion, now) ==
      if JsToo(h, payload) then ContentVerdict(h, payload, pinned, pinnedVersion, now) else TamperedState
  {
    var m := h.parseManifest(payload).value;
    ValidRootAgreement(h, m, pinned);
    if PathsComparable(m) { AssetsAgree(h, m); } else { AssetsPart(h, m); }
    hide ValidRoot, IdHex, JsRootId, AssetOk, JsAssetOk, RootsSeparate, JsHexAgrees, CanonicalAlgs, AllCanonical, PathsComparable,
         Freshness;
  }

  lemma JsThenRust(h: Host, payload: Bytes, pinned: TrustRoot, pinnedVersion: nat, now: nat)
    requires JsHexAgrees(h) && ValidRoot(h.prims, pinned) && Separate(h, payload, pinned)
    requires Passed(JsContent(h, payload, pinned, pinnedVersion, now))
    ensures ContentVerdict(h, payload, pinned, pinnedVersion, now) ==
      if RustToo(h, payload) then JsContent(h, payload, pinned, pinnedVersion, now) else TamperedState
  {
    var m := h.parseManifest(payload).value;
    RootAgreement(h, m, pinned);
    if PathsComparable(m) { AssetsAgree(h, m); } else { AssetsPart(h, m); }
    hide ValidRoot, IdHex, JsRootId, AssetOk, JsAssetOk, RootsSeparate, JsHexAgrees, CanonicalAlgs, AllCanonical, PathsComparable,
         Freshness;
  }

  lemma ContentAgreement(h: Host, payload: Bytes, pinned: TrustRoot, pinnedVersion: nat, now: nat)
    requires JsHexAgrees(h) && ValidRoot(h.prims, pinned) && Separate(h, payload, pinned)
    ensures
      var rs, js := ContentVerdict(h, payload, pinned, pinnedVersion, now), JsContent(h, payload, pinned, pinnedVersion, now);
      && (Passed(rs) ==> js == if JsToo(h, payload) then rs else TamperedState)
      && (Passed(js) ==> rs == if RustToo(h, payload) then js else TamperedState)
  {
    hide *;
    if Passed(ContentVerdict(h, payload, pinned, pinnedVersion, now)) { RustThenJs(h, payload, pinned, pinnedVersion, now); }
    if Passed(JsContent(h, payload, pinned, pinnedVersion, now)) { JsThenRust(h, payload, pinned, pinnedVersion, now); }
  }

  /** The two verifiers, for every payload, bundle, version and clock. What the Rust side lets through -
      valid, expired or rolled back - the JavaScript side names the same, exactly if the neighbouring
      paths compare alike; it says tampered otherwise. The other way round it takes, besides, the
      embedded algorithm list to be in canonical order - the identifier covers it only as a mask - the
      embedded keys to be spelled in canonical hex - the identifier covers them only as decoded - and
      the embedded threshold to be a byte - the identifier covers no more of it. In every other case
      both fail hard. */
  lemma VerifiersAgree(h: Host, payload: Bytes, bundle: Bytes, pinned: TrustRoot, pinnedVersion: nat, now: nat,
                       supported: set<SigAlg>)
    requires JsHexAgrees(h) && ValidRoot(h.prims, pinned) && Separate(h, payload, pinned)
    ensures
      var rs := ManifestVerdict(h, payload, bundle, pinned, pinnedVersion, now, supported);
      var js := JsManifestVerdict(h, payload, bundle, pinned, pinnedVersion, now, supported, []);
      && (Passed(rs) ==> js == if JsToo(h, payload) then rs else TamperedState)
      && (Passed(js) ==> rs == if RustToo(h, payload) then js else TamperedState)
      && (!Passed(rs) && !Passed(js) ==> IsHardFailure(rs) && IsHardFailure(js))
  {
    JsSeesValidRoot(h, pinned);
    ContentAgreement(h, payload, pinned, pinnedVersion, now);
    hide ValidRoot, JsValidRoot, ContentVerdict, JsContent, QuorumState, JsToo, RustToo, RingOf, JsRing, Active;
  }

  /** The same with revoked keys on both sides. */
  lemma VerifiersAgreeUnderRevocation(h: Host, payload: Bytes, bundle: Bytes, pinned: TrustRoot, pinnedVersion: nat,
                                      now: nat, supported: set<SigAlg>, revoked: seq<string>)
    requires JsHexAgrees(h) && ValidRoot(h.prims, pinned) && revoked != []
    requires Separate(h, payload, Filtered(pinned, revoked))
    ensures
      var rs := RevokedVerdict(h, payload, bundle, pinned, pinnedVersion, now, supported, revoked);
      var js := JsManifestVerdict(h, payload, bundle, pinned, pinnedVersion, now, supported, revoked);
      && (Passed(rs) ==> js == if JsToo(h, payload) then rs else TamperedState)
      && (Passed(js) ==> rs == if RustToo(h, payload) then js else TamperedState)
      && (!Passed(rs) && !Passed(js) ==> IsHardFailure(rs) && IsHardFailure(js))
  {
    JsSeesValidRoot(h, pinned);
    if |Filtered(pinned, revoked).keys| >= pinned.threshold {
      FilteredIsValid(h.prims, pinned, revoked);
      VerifiersAgree(h, payload, bundle, Filtered(pinned, revoked), pinnedVersion, now, supported);
      JsSeesValidRoot(h, Filtered(pinned, revoked));
    }
    hide ValidRoot, JsValidRoot, ManifestVerdict, JsSigned, JsToo, RustToo, Filtered, Separate;
  }

  /** Some root key has a signature under an active algorithm that does not verify. */
  ghost predicate Forged(p: Primitives, msg: Bytes, es: seq<SigEntry>, root: TrustRoot, active: seq<SigAlg>) {
    exists k, alg, e :: k in root.keys && alg in active && e in es && EntryOf(e, k, alg) && !GoodSignature(p, msg, e, k, alg)
  }

  lemma ForgedIs(p: Primitives, msg: Bytes, es: seq<SigEntry>, root: TrustRoot, active: seq<SigAlg>)
    ensures Forged(p, msg, es, root, active) <==> exists k :: k in root.keys && HasForgery(p, msg, es, k, active)
  {
    hide EntryOf, GoodSignature;
    if Forged(p, msg, es, root, active) {
      var k, alg, e :| k in root.keys && alg in active && e in es && EntryOf(e, k, alg) && !GoodSignature(p, msg, e, k, alg);
      assert HasForgery(p, msg, es, k, active);
    }
    if k :| k in root.keys && HasForgery(p, msg, es, k, active) {
      var alg, e :| alg in active && e in es && EntryOf(e, k, alg) && !GoodSignature(p, msg, e, k, alg);
    }
  }

  /** Which hard state signatures that are not good enough lead to, in both verifiers: a bundle that does not
      parse is tampered with, and so is one with a bad signature of a root key; with no algorithm to check,
      the state is unsupported; with too few keys that signed, the root is not trusted. */
  lemma HardBySignatures(h: Host, payload: Bytes, bundle: Bytes, pinned: TrustRoot, pinnedVersion: nat, now: nat,
                         supported: set<SigAlg>)
    requires JsHexAgrees(h) && ValidRoot(h.prims, pinned)
    ensures
      var msg, active := PREFIX_MANIFEST + payload, Active(pinned.sigalgs, supported);
      var rs := ManifestVerdict(h, payload, bundle, pinned, pinnedVersion, now, supported);
      var js := JsManifestVerdict(h, payload, bundle, pinned, pinnedVersion, now, supported, []);
      && (Parsed(bundle).Failure? ==> rs == js == TamperedState)
      && (Parsed(bundle).Success? && active == [] ==> rs == js == UnsupportedState)
      && (Parsed(bundle).Success? && Forged(h.prims, msg, Parsed(bundle).value, pinned, active) ==> rs == js == TamperedState)
      && (Parsed(bundle).Success? && active != [] && !Forged(h.prims, msg, Parsed(bundle).value, pinned, active) ==>
            |Backers(h.prims, msg, Parsed(bundle).value, pinned, active, [])| < pinned.threshold ==> rs == js == UntrustedRoot)
  {
    var msg, active := PREFIX_MANIFEST + payload, Active(pinned.sigalgs, supported);
    JsSeesValidRoot(h, pinned);
    if Parsed(bundle).Success? {
      var es := Parsed(bundle).value;
      ParseThenBuild(bundle);
      CanonicalRead(es);
      NoActiveNoQuorum(h.prims, msg, es, RingOf(pinned));
      if active != [] { CountedBackers(h.prims, msg, es, pinned, active); }
      ForgedIs(h.prims, msg, es, pinned, active);
      if active == [] { assert !Forged(h.prims, msg, es, pinned, active); }
    }
    hide Parsed, Forged, Backers, OutcomeOf, ValidRoot, JsValidRoot, JsRing, RingOf, Active, JsContent, ContentVerdict, HasForgery,
         Canonical, Built, DistinctPairs;
  }

  /** A signed manifest over the pinned root, listed or spelled otherwise in the copy it embeds. */
  ghost predicate EmbedsVariant(h: Host, payload: Bytes, bundle: Bytes, pinned: TrustRoot, m: Manifest, now: nat,
                                supported: set<SigAlg>)
  {
    && JsHexAgrees(h) && ValidRoot(h.prims, pinned)
    && Quorum(h.prims, PREFIX_MANIFEST + payload, bundle, pinned, supported)
    && h.parseManifest(payload) == Some(m)
    && m.sigalgs == m.trustRoot.sigalgs && m.spec == SPEC_MANIFEST && m.assets == []
    && m.version < m.notAfter <= MAX_SAFE_INT && now <= m.notAfter
    && IdHex(h.prims, pinned) == Some(m.trustRootId)
  }

  /** Inputs on which they part: the pinned root itself, its two algorithms listed the other way, a key
      of it spelled otherwise but decoded alike - in capitals, say - or 256 added to its threshold. */
  lemma VariantsDiverge(h: Host, payload: Bytes, bundle: Bytes, pinned: TrustRoot, m: Manifest, now: nat,
                        supported: set<SigAlg>)
    requires EmbedsVariant(h, payload, bundle, pinned, m, now, supported)
    requires JsRootBytes(h, m.trustRoot) == JsRootBytes(h, pinned)
    requires !CanonicalAlgs(m.trustRoot.sigalgs) || !AllCanonical(m.trustRoot) || m.trustRoot.threshold >= 256
    ensures JsManifestVerdict(h, payload, bundle, pinned, 0, now, supported, []) == Valid
    ensures ManifestVerdict(h, payload, bundle, pinned, 0, now, supported) == TamperedState
  {
    JsSeesValidRoot(h, pinned);
    VariantPasses(h, payload, bundle, pinned, m, now, supported);
    VariantIsInvalid(h, m.trustRoot);
    hide ValidRoot, JsValidRoot, QuorumState, JsRootId, IdHex, JsHexAgrees, JsRootBytes, CanonicalAlgs, AllCanonical, RingOf, JsRing,
         JsContent, Active;
  }

  lemma VariantIsInvalid(h: Host, root: TrustRoot)
    requires JsHexAgrees(h) && (!CanonicalAlgs(root.sigalgs) || !AllCanonical(root) || root.threshold >= 256)
    ensures !ValidRoot(h.prims, root)
  {
    if ValidRoot(h.prims, root) { JsSeesValidRoot(h, root); }
  }

  lemma VariantPasses(h: Host, payload: Bytes, bundle: Bytes, pinned: TrustRoot, m: Manifest, now: nat, supported: set<SigAlg>)
    requires EmbedsVariant(h, payload, bundle, pinned, m, now, supported)
    requires JsRootBytes(h, m.trustRoot) == JsRootBytes(h, pinned)
    ensures JsContent(h, payload, pinned, 0, now) == Valid
  {
    JsSeesValidRoot(h, pinned);
    assert JsRootId(h, m.trustRoot) == JsRootId(h, pinned);
    hide ValidRoot, JsValidRoot, QuorumState, JsRootId, IdHex, JsHexAgrees, JsRootBytes, RingOf, JsRing;
  }

  /** Such copies exist: swapping two listed algorithms, respelling a key, or adding 256 to the threshold
      leaves the bytes of the identifier. */
  lemma VariantsKeepTheirBytes(h: Host, pinned: TrustRoot, i: nat, id: string)
    requires JsHexAgrees(h) && ValidRoot(h.prims, pinned) && i < |pinned.keys|
    requires Unhex(id).None? && h.jsUnhex(id) == h.jsUnhex(pinned.keys[i].keyId)
    ensures pinned.sigalgs == [Ed25519, P256] ==>
      var swapped := pinned.(sigalgs := [P256, Ed25519]);
      JsRootBytes(h, swapped) == JsRootBytes(h, pinned) && !CanonicalAlgs(swapped.sigalgs)
    ensures
      var respelled := pinned.(keys := pinned.keys[i := pinned.keys[i].(keyId := id)]);
      JsRootBytes(h, respelled) == JsRootBytes(h, pinned) && !AllCanonical(respelled)
    ensures JsRootBytes(h, pinned.(threshold := pinned.threshold + 256)) == JsRootBytes(h, pinned)
  {
    hide *;
    var k := pinned.keys[i].(keyId := id);
    var respelled := pinned.(keys := pinned.keys[i := k]);
    SameRingKey(h, pinned.keys[i], id);
    Respelled(h, pinned.keys, i, k);
    NotCanonical(respelled, i);
    SameBytes(h, respelled, pinned);
    SameBytes(h, pinned.(threshold := pinned.threshold + 256), pinned);
    if pinned.sigalgs == [Ed25519, P256] {
      SwappedAlgorithms();
      SameBytes(h, pinned.(sigalgs := [P256, Ed25519]), pinned);
    }
  }

  lemma SameBytes(h: Host, a: TrustRoot, b: TrustRoot)
    requires a.threshold % 256 == b.threshold % 256 && |a.keys| == |b.keys|
    requires Mask(a.sigalgs) == Mask(b.sigalgs) && JsKeysBytes(h, a.keys) == JsKeysBytes(h, b.keys)
    ensures JsRootBytes(h, a) == JsRootBytes(h, b)
  {
    hide Mask, JsKeysBytes;
  }

  lemma SwappedAlgorithms()
    ensures !CanonicalAlgs([P256, Ed25519]) && Mask([P256, Ed25519]) == Mask([Ed25519, P256])
  {
    var swapped := [P256, Ed25519];
    assert Rank(swapped[0]) >= Rank(swapped[1]);
  }

  lemma SameRingKey(h: Host, k: TrustedKey, id: string)
    requires h.jsUnhex(id) == h.jsUnhex(k.keyId)
    ensures JsRingKey(h, k.(keyId := id)) == JsRingKey(h, k)
  {
  }

  lemma NotCanonical(root: TrustRoot, i: nat)
    requires i < |root.keys| && Unhex(root.keys[i].keyId).None?
    ensures !AllCanonical(root)
  {
    assert root.keys[i] in root.keys && !CanonicalFields(root.keys[i]);
    hide CanonicalFields;
  }

  lemma {:induction false} Respelled(h: Host, keys: seq<TrustedKey>, i: nat, k: TrustedKey)
    requires i < |keys| && JsRingKey(h, k) == JsRingKey(h, keys[i])
    ensures JsKeysBytes(h, keys[i := k]) == JsKeysBytes(h, keys)
  {
    if i > 0 {
      assert keys[i := k][1..] == keys[1..][i - 1 := k];
      Respelled(h, keys[1..], i - 1, k);
    } else {
      assert keys[i := k][1..] == keys[1..];
    }
  }

  /** A root that has only valid keys and that the JavaScript side takes is valid. */
  lemma JsValidWithKeys(h: Host, root: TrustRoot)
    requires JsHexAgrees(h)
    ensures ValidRoot(h.prims, root) <==> JsValidRoot(h, root) && forall i :: 0 <= i < |root.keys| ==> ValidKey(h.prims, root.keys[i])
  {
    if ValidRoot(h.prims, root) {
      JsSeesValidRoot(h, root);
    } else if JsValidRoot(h, root) && forall i :: 0 <= i < |root.keys| ==> ValidKey(h.prims, root.keys[i]) {
      forall i | 0 < i < |root.keys| ensures KeyBefore(root.keys[i - 1], root.keys[i]) {
        assert ValidKey(h.prims, root.keys[i - 1]) && ValidKey(h.prims, root.keys[i]);
        JsKeyAgrees(h, root.keys[i - 1]);
        JsKeyAgrees(h, root.keys[i]);
        assert JsKeyBefore(h, root.keys[i - 1], root.keys[i]);
      }
      assert ValidRoot(h.prims, root);
    }
  }

  /** Under a valid pinned root the Rust side accepts exactly the rotations that the JavaScript side
      accepts and that also have a version in the safe range and only well-formed keys with derived
      identities in the new root: those two checks the JavaScript side leaves out. */
  lemma RotationsAgree(h: Host, payload: Bytes, bundle: Bytes, pinned: TrustRoot, version: nat, supported: set<SigAlg>)
    requires JsHexAgrees(h) && ValidRoot(h.prims, pinned)
    ensures RotationVerdict(h, payload, bundle, pinned, version, supported) == Accept
      <==>
      && JsRotationVerdict(h, payload, bundle, pinned, version, supported) == Accept
      && h.parseRotation(payload).value.version <= MAX_SAFE_INT
      && forall i :: 0 <= i < |h.parseRotation(payload).value.toTrustRoot.keys| ==>
           ValidKey(h.prims, h.parseRotation(payload).value.toTrustRoot.keys[i])
  {
    JsSeesValidRoot(h, pinned);
    if h.parseRotation(payload).Some? { JsValidWithKeys(h, h.parseRotation(payload).value.toTrustRoot); }
    hide ValidRoot, JsValidRoot, QuorumState, JsRootId, IdHex, JsHexAgrees, ValidKey, JsRing, RingOf, Active;
  }
}
