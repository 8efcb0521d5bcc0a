/** What the two verifiers ask of a document, and which state a violation has (src/manifest.rs,
    runtime/veilguard-verify.mjs). */
module Judging {
  import opened Prelude
  import opened Bundle
  import opened TrustRoots
  import opened Paths
  import opened Manifests
  import opened JsVerify
  import opened Layouts

  // ---------------------------------------------------------------- the rules, spelled out

  /** Beyond 2^53 - 1 a number does not survive JSON in every reader. */
  predicate SafeInt(n: nat) { n <= 9_007_199_254_740_991 }

  /** An asset is listed under the normalized, decoded form of its path. */
  ghost predicate AssetRules(h: Host, a: AssetEntry) {
    SafeInt(a.size) && h.nfc(a.path) == a.path && h.requestKey(a.path) == Some(a.path)
  }

  /** The paths ascend by code points. */
  predicate PathsClimb(assets: seq<AssetEntry>) {
    forall i :: 0 < i < |assets| ==> LexBefore(Points(assets[i - 1].path), Points(assets[i].path))
  }

  /** What both sides ask of a manifest, the order of its paths and its root aside. */
  ghost predicate ManifestRules(h: Host, m: Manifest) {
    && m.spec == "veil-guard/1" && SafeInt(m.version) && SafeInt(m.notAfter) && m.version < m.notAfter
    && m.sigalgs == m.trustRoot.sigalgs
    && forall i :: 0 <= i < |m.assets| ==> AssetRules(h, m.assets[i])
  }

  lemma StructureIs(h: Host, m: Manifest)
    ensures StructurallyValid(h, m) <==> ManifestRules(h, m) && RootRules(h.prims, m.trustRoot) && PathsClimb(m.assets)
  {
    ValidRootIs(h.prims, m.trustRoot);
    forall i | 0 < i < |m.assets|
      ensures RustLess(m.assets[i - 1].path, m.assets[i].path)
        <==> LexBefore(Points(m.assets[i - 1].path), Points(m.assets[i].path))
    {
      RustOrderIs(m.assets[i - 1].path, m.assets[i].path);
    }
    hide ValidRoot, RootRules, RustLess, Points, LexBefore;
    if ManifestRules(h, m) && PathsClimb(m.assets) {
      forall i | 0 <= i < |m.assets| ensures AssetOk(h, m.assets, i) { assert AssetRules(h, m.assets[i]); }
    }
    if forall i :: 0 <= i < |m.assets| ==> AssetOk(h, m.assets, i) {
      forall i | 0 <= i < |m.assets| ensures AssetRules(h, m.assets[i]) { assert AssetOk(h, m.assets, i); }
      forall i | 0 < i < |m.assets| ensures RustLess(m.assets[i - 1].path, m.assets[i].path) { assert AssetOk(h, m.assets, i); }
    }
  }

  // ---------------------------------------------------------------- the Rust side

  /** The identifier a manifest states for its own root is that root's. */
  ghost predicate NamesItsRoot(h: Host, m: Manifest) { IdHex(h.prims, m.trustRoot) == Some(m.trustRootId) }

  /** Past the signatures: a manifest that breaks the rules or misnames its own root is tampered with; one that is
      sound but of another root is not trusted; and of the right root, version and clock decide, in this order. */
  lemma ContentIs(h: Host, payload: Bytes, pinned: TrustRoot, pinnedVersion: nat, now: nat)
    ensures
      var v := ContentVerdict(h, payload, pinned, pinnedVersion, now);
      match h.parseManifest(payload)
      case None => v == TamperedState
      case Some(m) =>
        var sound := ManifestRules(h, m) && RootRules(h.prims, m.trustRoot) && PathsClimb(m.assets) && NamesItsRoot(h, m);
        var ours := IdHex(h.prims, pinned) == Some(m.trustRootId);
        && (v == TamperedState <==> !sound)
        && (v == UntrustedRoot <==> sound && !ours)
        && (v == Rollback <==> sound && ours && m.version < pinnedVersion)
        && (v == Expired <==> sound && ours && m.version >= pinnedVersion && m.notAfter < now)
        && (v == Valid <==> sound && ours && m.version >= pinnedVersion && now <= m.notAfter)
  {
    if h.parseManifest(payload).Some? { StructureIs(h, h.parseManifest(payload).value); }
    hide StructurallyValid, ManifestRules, RootRules, PathsClimb, IdHex;
  }

  // ---------------------------------------------------------------- the JavaScript side

  /** What it asks of the order: by code units. */
  ghost predicate UnitsClimb(assets: seq<AssetEntry>) {
    forall i :: 0 < i < |assets| ==> LexBefore(Utf16(assets[i - 1].path), Utf16(assets[i].path))
  }

  lemma JsAssetsAre(h: Host, m: Manifest)
    ensures (forall i :: 0 <= i < |m.assets| ==> JsAssetOk(h, m.assets, i))
      <==> (forall i :: 0 <= i < |m.assets| ==> AssetRules(h, m.assets[i])) && UnitsClimb(m.assets)
  {
    forall i | 0 < i < |m.assets|
      ensures JsLess(m.assets[i - 1].path, m.assets[i].path) <==> LexBefore(Utf16(m.assets[i - 1].path), Utf16(m.assets[i].path))
    {
      CompareIs(Utf16(m.assets[i - 1].path), Utf16(m.assets[i].path));
    }
    hide JsLess, Utf16, LexBefore;
    if (forall i :: 0 <= i < |m.assets| ==> AssetRules(h, m.assets[i])) && UnitsClimb(m.assets) {
      forall i | 0 <= i < |m.assets| ensures JsAssetOk(h, m.assets, i) { assert AssetRules(h, m.assets[i]); }
    }
    if forall i :: 0 <= i < |m.assets| ==> JsAssetOk(h, m.assets, i) {
      forall i | 0 <= i < |m.assets| ensures AssetRules(h, m.assets[i]) { assert JsAssetOk(h, m.assets, i); }
      forall i | 0 < i < |m.assets| ensures JsLess(m.assets[i - 1].path, m.assets[i].path) { assert JsAssetOk(h, m.assets, i); }
    }
  }

  /** Past the signatures on the JavaScript side: it asks for less of the embedded root - its identifier and its
      algorithms, but not its validity - orders paths by code units, and looks at identifiers first, so that
      what breaks the rules under a foreign root is not trusted rather than tampered with. */
  lemma JsContentIs(h: Host, payload: Bytes, pinned: TrustRoot, pinnedVersion: nat, now: nat)
    ensures
      var v := JsContent(h, payload, pinned, pinnedVersion, now);
      match h.parseManifest(payload)
      case None => v == TamperedState
      case Some(m) =>
        var named := m.spec == "veil-guard/1" && JsRootId(h, m.trustRoot) == m.trustRootId;
        var ours := JsRootId(h, pinned) == m.trustRootId;
        var sound := ManifestRules(h, m) && UnitsClimb(m.assets);
        && (v == TamperedState <==> !named || (ours && !sound))
        && (v == UntrustedRoot <==> named && !ours)
        && (v == Rollback <==> named && ours && sound && m.version < pinnedVersion)
        && (v == Expired <==> named && ours && sound && m.version >= pinnedVersion && m.notAfter < now)
        && (v == Valid <==> named && ours && sound && m.version >= pinnedVersion && now <= m.notAfter)
  {
    if h.parseManifest(payload).Some? { JsAssetsAre(h, h.parseManifest(payload).value); }
    hide JsAssetOk, AssetRules, UnitsClimb, JsRootId;
  }

  // ---------------------------------------------------------------- a pinned root that is none

  /** Under a pinned root that breaks the rules nothing is accepted, and for that reason: manifests are not trusted
      on either side, whatever is wrong with them besides, and no statement is taken. */
  lemma InvalidRootIsUntrusted(h: Host, payload: Bytes, bundle: Bytes, pinned: TrustRoot, pinnedVersion: nat, now: nat,
                               supported: set<SigAlg>)
    ensures !RootRules(h.prims, pinned) ==>
      && ManifestVerdict(h, payload, bundle, pinned, pinnedVersion, now, supported) == UntrustedRoot
      && RotationVerdict(h, payload, bundle, pinned, pinnedVersion, supported) == Reject
      && RevocationVerdict(h, payload, bundle, pinned, pinnedVersion, now, supported) == Reject
    ensures !JsRootRules(h, pinned) ==>
      && JsManifestVerdict(h, payload, bundle, pinned, pinnedVersion, now, supported, []) == UntrustedRoot
      && JsRotationVerdict(h, payload, bundle, pinned, pinnedVersion, supported) == Reject
  {
    ValidRootIs(h.prims, pinned);
    JsRootIs(h, pinned);
    hide ValidRoot, RootRules, JsValidRoot, JsRootRules, ContentVerdict, JsContent, QuorumState;
  }

  /** The JavaScript side's rules for a root: the same ranges and orders, but no word on what the fields spell. */
  ghost predicate JsRootRules(h: Host, root: TrustRoot) {
    && 1 <= |root.keys| <= 16 && 1 <= root.threshold <= |root.keys|
    && (root.sigalgs == [Ed25519] || root.sigalgs == [P256] || root.sigalgs == [Ed25519, P256])
    && forall i :: 0 < i < |root.keys| ==> LexBefore(h.jsUnhex(root.keys[i - 1].keyId), h.jsUnhex(root.keys[i].keyId))
  }

  lemma JsRootIs(h: Host, root: TrustRoot)
    ensures JsValidRoot(h, root) <==> JsRootRules(h, root)
  {
    AlgorithmLists(root.sigalgs);
    forall i | 0 < i < |root.keys|
      ensures JsKeyBefore(h, root.keys[i - 1], root.keys[i])
        <==> LexBefore(h.jsUnhex(root.keys[i - 1].keyId), h.jsUnhex(root.keys[i].keyId))
    {
      CompareIs(h.jsUnhex(root.keys[i - 1].keyId), h.jsUnhex(root.keys[i].keyId));
    }
    hide CanonicalAlgs, JsKeyBefore, LexBefore;
  }
}
