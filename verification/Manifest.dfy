/** Manifests, rotations and revocations: the Rust verdict machine (src/manifest.rs). */
module Manifests {
  import opened Prelude
  import opened Bundle
  import opened TrustRoots
  import opened Threshold
  import opened Paths

  datatype AssetEntry = AssetEntry(path: string, sha256: string, sha384: string, size: nat, contentType: string)

  datatype Scope = Scope(included: seq<string>, excluded: seq<string>, htmlExtension: bool)

  datatype Manifest = Manifest(
    spec: string, version: nat, notAfter: nat, sigalgs: seq<SigAlg>,
    trustRootId: string, trustRoot: TrustRoot, scope: Scope, assets: seq<AssetEntry>)

  datatype Rotation = Rotation(spec: string, version: nat, fromTrustRootId: string, toTrustRoot: TrustRoot)

  datatype Revocation = Revocation(
    spec: string, version: nat, trustRootId: string, revokedKeys: seq<string>, notAfter: nat)

  /** Everything a verifier gets from its platform: primitives, JSON, Unicode and URL rules. */
  datatype Host = Host(
    prims: Primitives,
    parseManifest: Bytes -> Option<Manifest>,
    parseRotation: Bytes -> Option<Rotation>,
    parseRevocation: Bytes -> Option<Revocation>,
    nfc: string -> string,
    requestKey: string -> Option<string>,
    /** the lenient hex decoder of the JavaScript side */
    jsUnhex: string -> Bytes,
    /** URL serialization without the fragment, as Cache Storage compares keys */
    cacheUrl: string -> string,
    contentTypeMatches: (string, string) -> bool)

  datatype ManifestState = Valid | Expired | Rollback | TamperedState | UntrustedRoot | UnsupportedState

  predicate IsHardFailure(s: ManifestState) {
    s == TamperedState || s == Rollback || s == UntrustedRoot || s == UnsupportedState
  }

  datatype Verdict = Accept | Reject

  const SPEC_MANIFEST := "veil-guard/1"
  const SPEC_ROTATION := "veil-guard/rotation/1"
  const SPEC_REVOCATION := "veil-guard/revocation/1"

  // ---------------------------------------------------------------- quorum

  /** Bundle and threshold: None when the signatures are enough, otherwise the state to report. */
  ghost function QuorumState(p: Primitives, msg: Bytes, bundle: Bytes, ring: seq<RingKey>,
                             active: seq<SigAlg>, threshold: nat): Option<ManifestState>
  {
    match Parsed(bundle)
    case Failure(_) => Some(TamperedState)
    case Success(entries) =>
      match OutcomeOf(p, msg, entries, ring, active)
      case Unsupported => Some(UnsupportedState)
      case Tampered => Some(TamperedState)
      case Qualifying(n) => if n < threshold then Some(UntrustedRoot) else None
  }

  /** Enough keys signed under every active algorithm, and no present signature was bad. */
  ghost predicate Quorum(p: Primitives, msg: Bytes, bundle: Bytes, root: TrustRoot, supported: set<SigAlg>) {
    QuorumState(p, msg, bundle, RingOf(root), Active(root.sigalgs, supported), root.threshold).None?
  }

  // ---------------------------------------------------------------- manifest

  ghost predicate AssetOk(h: Host, assets: seq<AssetEntry>, i: nat)
    requires i < |assets|
  {
    && assets[i].size <= MAX_SAFE_INT
    && h.nfc(assets[i].path) == assets[i].path
    && h.requestKey(assets[i].path) == Some(assets[i].path)
    && (i > 0 ==> RustLess(assets[i - 1].path, assets[i].path))
  }

  ghost predicate StructurallyValid(h: Host, m: Manifest) {
    && m.spec == SPEC_MANIFEST
    && m.version <= MAX_SAFE_INT && m.notAfter <= MAX_SAFE_INT
    && m.version < m.notAfter
    && m.sigalgs == m.trustRoot.sigalgs
    && ValidRoot(h.prims, m.trustRoot)
    && forall i :: 0 <= i < |m.assets| ==> AssetOk(h, m.assets, i)
  }

  method CheckStructure(h: Host, m: Manifest) returns (ok: bool)
    ensures ok <==> StructurallyValid(h, m)
  {
    if m.spec != SPEC_MANIFEST { return false; }
    if m.version > MAX_SAFE_INT || m.notAfter > MAX_SAFE_INT { return false; }
    if m.notAfter <= m.version { return false; }
    if m.sigalgs != m.trustRoot.sigalgs { return false; }
    var invalid := Validate(h.prims, m.trustRoot);
    if invalid.Some? { return false; }
    for i := 0 to |m.assets|
      invariant forall j :: 0 <= j < i ==> AssetOk(h, m.assets, j)
    {
      var a := m.assets[i];
      var bad :=
        || a.size > MAX_SAFE_INT
        || h.nfc(a.path) != a.path
        || h.requestKey(a.path) != Some(a.path)
        || (i > 0 && !RustLess(m.assets[i - 1].path, a.path));
      if bad {
        assert !AssetOk(h, m.assets, i);
        return false;
      }
    }
    return true;
  }

  /** Version and clock, once everything else holds. */
  function Freshness(m: Manifest, pinnedVersion: nat, now: nat): ManifestState {
    if m.version < pinnedVersion then Rollback
    else if now > m.notAfter then Expired
    else Valid
  }

  /** The checks after the signatures, in the order of the Rust side. */
  ghost function ContentVerdict(h: Host, payload: Bytes, pinned: TrustRoot, pinnedVersion: nat,
                                now: nat): ManifestState {
    match h.parseManifest(payload)
    case None => TamperedState
    case Some(m) =>
      if !StructurallyValid(h, m) then TamperedState
      else if IdHex(h.prims, m.trustRoot) != Some(m.trustRootId) then TamperedState
      else if IdHex(h.prims, pinned) != Some(m.trustRootId) then UntrustedRoot
      else Freshness(m, pinnedVersion, now)
  }

  ghost function ManifestVerdict(h: Host, payload: Bytes, bundle: Bytes, pinned: TrustRoot,
                                 pinnedVersion: nat, now: nat, supported: set<SigAlg>): ManifestState
  {
    if !ValidRoot(h.prims, pinned) then UntrustedRoot
    else
      match QuorumState(h.prims, PREFIX_MANIFEST + payload, bundle, RingOf(pinned),
                        Active(pinned.sigalgs, supported), pinned.threshold)
      case Some(s) => s
      case None => ContentVerdict(h, payload, pinned, pinnedVersion, now)
  }

  method VerifyManifest(h: Host, payload: Bytes, bundle: Bytes, pinned: TrustRoot,
                        pinnedVersion: nat, now: nat, supported: set<SigAlg>)
    returns (r: ManifestState)
    ensures r == ManifestVerdict(h, payload, bundle, pinned, pinnedVersion, now, supported)
  {
    var invalid := Validate(h.prims, pinned);
    if invalid.Some? { return UntrustedRoot; }
    var entries := ParseBundle(bundle);
    if entries.Failure? { return TamperedState; }
    var outcome := CheckThreshold(h.prims, payload, entries.value, pinned, PREFIX_MANIFEST, supported);
    match outcome {
      case Unsupported => return UnsupportedState;
      case Tampered => return TamperedState;
      case Qualifying(n) => if n < pinned.threshold { return UntrustedRoot; }
    }
    var manifest := h.parseManifest(payload);
    if manifest.None? { return TamperedState; }
    var m := manifest.value;
    var ok := CheckStructure(h, m);
    if !ok { return TamperedState; }
    var stated := IdHex(h.prims, m.trustRoot);
    if stated.None? || stated.value != m.trustRootId { return TamperedState; }
    var pinnedId := IdHex(h.prims, pinned);
    if pinnedId.None? || m.trustRootId != pinnedId.value { return UntrustedRoot; }
    if m.version < pinnedVersion { return Rollback; }
    if now > m.notAfter { return Expired; }
    return Valid;
  }

  // ---------------------------------------------------------------- rotation

  ghost function RotationVerdict(h: Host, payload: Bytes, bundle: Bytes, pinned: TrustRoot,
                                 pinnedRotationVersion: nat, supported: set<SigAlg>): Verdict
  {
    if !ValidRoot(h.prims, pinned) then Reject
    else if !Quorum(h.prims, PREFIX_ROTATION + payload, bundle, pinned, supported) then Reject
    else
      match h.parseRotation(payload)
      case None => Reject
      case Some(r) =>
        if && r.spec == SPEC_ROTATION && r.version <= MAX_SAFE_INT
           && IdHex(h.prims, pinned) == Some(r.fromTrustRootId)
           && r.version > pinnedRotationVersion
           && ValidRoot(h.prims, r.toTrustRoot)
        then Accept else Reject
  }

  method VerifyRotation(h: Host, payload: Bytes, bundle: Bytes, pinned: TrustRoot,
                        pinnedRotationVersion: nat, supported: set<SigAlg>)
    returns (v: Verdict)
    ensures v == RotationVerdict(h, payload, bundle, pinned, pinnedRotationVersion, supported)
  {
    var invalid := Validate(h.prims, pinned);
    if invalid.Some? { return Reject; }
    var entries := ParseBundle(bundle);
    if entries.Failure? { return Reject; }
    var outcome := CheckThreshold(h.prims, payload, entries.value, pinned, PREFIX_ROTATION, supported);
    if !(outcome.Qualifying? && outcome.count >= pinned.threshold) { return Reject; }
    var rot := h.parseRotation(payload);
    if rot.None? { return Reject; }
    if rot.value.spec != SPEC_ROTATION || rot.value.version > MAX_SAFE_INT { return Reject; }
    var pinnedId := IdHex(h.prims, pinned);
    if pinnedId.None? || rot.value.fromTrustRootId != pinnedId.value { return Reject; }
    if rot.value.version <= pinnedRotationVersion { return Reject; }
    invalid := Validate(h.prims, rot.value.toTrustRoot);
    if invalid.Some? { return Reject; }
    return Accept;
  }

  // ---------------------------------------------------------------- revocation

  ghost predicate NamesRootKey(root: TrustRoot, id: string) {
    exists k :: k in root.keys && k.keyId == id
  }

  ghost function RevocationVerdict(h: Host, payload: Bytes, bundle: Bytes, pinned: TrustRoot,
                                   pinnedRevocationVersion: nat, now: nat, supported: set<SigAlg>): Verdict
  {
    if !ValidRoot(h.prims, pinned) then Reject
    else if !Quorum(h.prims, PREFIX_REVOCATION + payload, bundle, pinned, supported) then Reject
    else
      match h.parseRevocation(payload)
      case None => Reject
      case Some(r) =>
        if && r.spec == SPEC_REVOCATION && r.version <= MAX_SAFE_INT && r.notAfter <= MAX_SAFE_INT
           && r.version > pinnedRevocationVersion
           && now <= r.notAfter && r.version < r.notAfter
           && IdHex(h.prims, pinned) == Some(r.trustRootId)
           && |r.revokedKeys| <= |pinned.keys| - pinned.threshold
           && (forall i :: 0 <= i < |r.revokedKeys| ==> NamesRootKey(pinned, r.revokedKeys[i]))
        then Accept else Reject
  }

  method VerifyRevocation(h: Host, payload: Bytes, bundle: Bytes, pinned: TrustRoot,
                          pinnedRevocationVersion: nat, now: nat, supported: set<SigAlg>)
    returns (v: Verdict)
    ensures v == RevocationVerdict(h, payload, bundle, pinned, pinnedRevocationVersion, now, supported)
  {
    var invalid := Validate(h.prims, pinned);
    if invalid.Some? { return Reject; }
    var entries := ParseBundle(bundle);
    if entries.Failure? { return Reject; }
    var outcome := CheckThreshold(h.prims, payload, entries.value, pinned, PREFIX_REVOCATION, supported);
    if !(outcome.Qualifying? && outcome.count >= pinned.threshold) { return Reject; }
    var parsed := h.parseRevocation(payload);
    if parsed.None? { return Reject; }
    var rev := parsed.value;
    if rev.spec != SPEC_REVOCATION || rev.version > MAX_SAFE_INT || rev.notAfter > MAX_SAFE_INT { return Reject; }
    if rev.version <= pinnedRevocationVersion { return Reject; }
    if now > rev.notAfter || rev.notAfter <= rev.version { return Reject; }
    var pinnedId := IdHex(h.prims, pinned);
    if pinnedId.None? || rev.trustRootId != pinnedId.value { return Reject; }
    // saturating_sub
    var maxRevocable := if |pinned.keys| >= pinned.threshold then |pinned.keys| - pinned.threshold else 0;
    if |rev.revokedKeys| > maxRevocable { return Reject; }
    var named := NameOnlyRootKeys(pinned, rev.revokedKeys);
    if !named { return Reject; }
    return Accept;
  }

  method NameOnlyRootKeys(root: TrustRoot, ids: seq<string>) returns (ok: bool)
    ensures ok <==> forall i :: 0 <= i < |ids| ==> NamesRootKey(root, ids[i])
  {
    for i := 0 to |ids|
      invariant forall j :: 0 <= j < i ==> NamesRootKey(root, ids[j])
    {
      var found := false;
      for j := 0 to |root.keys|
        invariant found <==> exists l :: 0 <= l < j && root.keys[l].keyId == ids[i]
      {
        if root.keys[j].keyId == ids[i] { found := true; }
      }
      assert found <==> NamesRootKey(root, ids[i]);
      if !found { return false; }
    }
    return true;
  }

  /** The keys `retain` leaves. */
  function Unrevoked(keys: seq<TrustedKey>, revoked: seq<string>): (r: seq<TrustedKey>)
    ensures forall k :: k in r <==> k in keys && k.keyId !in revoked
    ensures |r| <= |keys|
  {
    if keys == [] then []
    else if keys[0].keyId in revoked then Unrevoked(keys[1..], revoked)
    else [keys[0]] + Unrevoked(keys[1..], revoked)
  }

  function Filtered(root: TrustRoot, revoked: seq<string>): TrustRoot {
    root.(keys := Unrevoked(root.keys, revoked))
  }

  ghost function RevokedVerdict(h: Host, payload: Bytes, bundle: Bytes, pinned: TrustRoot,
                                pinnedVersion: nat, now: nat, supported: set<SigAlg>, revoked: seq<string>): ManifestState
  {
    if revoked == [] then ManifestVerdict(h, payload, bundle, pinned, pinnedVersion, now, supported)
    else if |Filtered(pinned, revoked).keys| < pinned.threshold then UntrustedRoot
    else ManifestVerdict(h, payload, bundle, Filtered(pinned, revoked), pinnedVersion, now, supported)
  }

  lemma {:induction false} UnrevokedAppend(keys: seq<TrustedKey>, k: TrustedKey, revoked: seq<string>)
    ensures Unrevoked(keys + [k], revoked) == Unrevoked(keys, revoked) + if k.keyId in revoked then [] else [k]
  {
    if keys == [] {
      assert [k][1..] == [];
    } else {
      assert (keys + [k])[1..] == keys[1..] + [k];
      UnrevokedAppend(keys[1..], k, revoked);
    }
  }

  method VerifyManifestWithRevocation(h: Host, payload: Bytes, bundle: Bytes, pinned: TrustRoot,
                                      pinnedVersion: nat, now: nat, supported: set<SigAlg>, revoked: seq<string>)
    returns (r: ManifestState)
    ensures r == RevokedVerdict(h, payload, bundle, pinned, pinnedVersion, now, supported, revoked)
  {
    if revoked == [] {
      r := VerifyManifest(h, payload, bundle, pinned, pinnedVersion, now, supported);
      return r;
    }
    var kept: seq<TrustedKey> := [];
    for i := 0 to |pinned.keys|
      invariant kept == Unrevoked(pinned.keys[..i], revoked)
    {
      UnrevokedAppend(pinned.keys[..i], pinned.keys[i], revoked);
      assert pinned.keys[..i + 1] == pinned.keys[..i] + [pinned.keys[i]];
      if pinned.keys[i].keyId !in revoked { kept := kept + [pinned.keys[i]]; }
    }
    assert pinned.keys[..|pinned.keys|] == pinned.keys;
    if |kept| < pinned.threshold { return UntrustedRoot; }
    r := VerifyManifest(h, payload, bundle, pinned.(keys := kept), pinnedVersion, now, supported);
  }
}
