/** What an accepted revocation does to a trust root, and to the manifests under it. */
module RevocationEffects {
  import opened Prelude
  import opened Bundle
  import opened TrustRoots
  import opened Threshold
  import opened Manifests
  import opened Signing

  lemma KeyBeforeTransitive(a: TrustedKey, b: TrustedKey, c: TrustedKey)
    requires KeyBefore(a, b) && KeyBefore(b, c)
    ensures KeyBefore(a, c)
  {
    CompareTransitive(KeyIdBytes(a).value, KeyIdBytes(b).value, KeyIdBytes(c).value);
  }

  lemma {:induction false} AscendFar(keys: seq<TrustedKey>, i: nat, j: nat)
    requires KeysAscend(keys) && i < j < |keys|
    ensures KeyBefore(keys[i], keys[j])
    decreases j - i
  {
    if i + 1 < j {
      AscendFar(keys, i, j - 1);
      KeyBeforeTransitive(keys[i], keys[j - 1], keys[j]);
    } else {
      assert KeyBefore(keys[j - 1], keys[j]);
    }
  }

  lemma BeforeIsDifferent(a: TrustedKey, b: TrustedKey)
    requires KeyBefore(a, b)
    ensures a.keyId != b.keyId
  {
    CompareEqual(KeyIdBytes(a).value, KeyIdBytes(b).value);
  }

  lemma TailAscends(keys: seq<TrustedKey>)
    requires KeysAscend(keys) && keys != []
    ensures KeysAscend(keys[1..])
    ensures forall k :: k in keys[1..] ==> KeyBefore(keys[0], k)
  {
    forall i | 0 < i < |keys[1..]| ensures KeyBefore(keys[1..][i - 1], keys[1..][i]) {
      assert keys[1..][i - 1] == keys[i] && keys[1..][i] == keys[i + 1];
    }
    forall k | k in keys[1..] ensures KeyBefore(keys[0], k) {
      var j :| 0 <= j < |keys[1..]| && keys[1..][j] == k;
      AscendFar(keys, 0, j + 1);
    }
  }

  lemma {:induction false} UnrevokedAscends(keys: seq<TrustedKey>, revoked: seq<string>)
    requires KeysAscend(keys)
    ensures KeysAscend(Unrevoked(keys, revoked))
  {
    if keys != [] {
      TailAscends(keys);
      UnrevokedAscends(keys[1..], revoked);
      hide KeyBefore, KeysAscend;
      if keys[0].keyId !in revoked { ConsAscends(keys[0], Unrevoked(keys[1..], revoked)); }
    }
  }

  lemma ConsAscends(k: TrustedKey, rest: seq<TrustedKey>)
    requires KeysAscend(rest) && forall x :: x in rest ==> KeyBefore(k, x)
    ensures KeysAscend([k] + rest)
  {
    hide KeyBefore;
    var all := [k] + rest;
    forall i | 0 < i < |all| ensures KeyBefore(all[i - 1], all[i]) {
      if i == 1 { assert rest[0] in rest; } else { assert all[i - 1] == rest[i - 2] && all[i] == rest[i - 1]; }
    }
  }

  lemma {:induction false} UnrevokedSame(keys: seq<TrustedKey>, a: seq<string>, b: seq<string>)
    requires forall k :: k in keys ==> (k.keyId in a <==> k.keyId in b)
    ensures Unrevoked(keys, a) == Unrevoked(keys, b)
  {
    if keys != [] {
      UnrevokedSame(keys[1..], a, b);
    }
  }

  /** Every listed identifier removes at most one key. */
  lemma {:induction false} UnrevokedCount(keys: seq<TrustedKey>, revoked: seq<string>)
    requires KeysAscend(keys)
    ensures |Unrevoked(keys, revoked)| >= |keys| - |revoked|
    ensures (exists k :: k in keys && k.keyId in revoked) ==> |Unrevoked(keys, revoked)| < |keys|
  {
    if keys != [] {
      TailAscends(keys);
      if keys[0].keyId in revoked {
        var j :| 0 <= j < |revoked| && revoked[j] == keys[0].keyId;
        var fewer := revoked[..j] + revoked[j + 1..];
        forall k | k in keys[1..] ensures k.keyId in revoked <==> k.keyId in fewer {
          BeforeIsDifferent(keys[0], k);
          if k.keyId in revoked {
            var i :| 0 <= i < |revoked| && revoked[i] == k.keyId;
            assert fewer[if i < j then i else i - 1] == k.keyId;
          }
        }
        UnrevokedSame(keys[1..], revoked, fewer);
        UnrevokedCount(keys[1..], fewer);
      } else {
        UnrevokedCount(keys[1..], revoked);
      }
    }
  }

  /** A root that lost revoked keys but still has its threshold of them is a valid root. */
  lemma FilteredIsValid(p: Primitives, root: TrustRoot, revoked: seq<string>)
    requires ValidRoot(p, root) && |Filtered(root, revoked).keys| >= root.threshold
    ensures ValidRoot(p, Filtered(root, revoked))
  {
    UnrevokedAscends(root.keys, revoked);
  }

  /** An accepted revocation leaves at least the threshold, so the short-of-keys exit of the
      verifier cannot fire, and the filtered root is as valid as the full one. */
  lemma AcceptedLeavesThreshold(h: Host, payload: Bytes, bundle: Bytes, pinned: TrustRoot,
                                pinnedRevocationVersion: nat, now: nat, supported: set<SigAlg>)
    requires RevocationVerdict(h, payload, bundle, pinned, pinnedRevocationVersion, now, supported) == Accept
    ensures h.parseRevocation(payload).Some?
    ensures
      var revoked := h.parseRevocation(payload).value.revokedKeys;
      && |Filtered(pinned, revoked).keys| >= pinned.threshold
      && ValidRoot(h.prims, Filtered(pinned, revoked))
  {
    var revoked := h.parseRevocation(payload).value.revokedKeys;
    UnrevokedCount(pinned.keys, revoked);
    FilteredIsValid(h.prims, pinned, revoked);
  }

  // ---------------------------------------------------------------- who stands behind a verdict

  predicate Passed(s: ManifestState) {
    s == Valid || s == Expired || s == Rollback
  }

  /** The un-revoked root keys that signed under every active algorithm. */
  ghost function Backers(p: Primitives, msg: Bytes, entries: seq<SigEntry>, root: TrustRoot,
                         active: seq<SigAlg>, revoked: seq<string>): set<TrustedKey>
  {
    set k | k in root.keys && k.keyId !in revoked && SignedByAll(p, msg, entries, k, active)
  }

  ghost function Places(keys: seq<TrustedKey>, good: set<TrustedKey>): set<int> {
    set i: int | 0 <= i < |keys| && keys[i] in good
  }

  ghost function Hits(keys: seq<TrustedKey>, good: set<TrustedKey>): set<TrustedKey> {
    set k | k in keys && k in good
  }

  lemma PlacesStep(keys: seq<TrustedKey>, last: TrustedKey, good: set<TrustedKey>)
    ensures |keys| !in Places(keys, good)
    ensures Places(keys + [last], good) == Places(keys, good) + (if last in good then {|keys|} else {})
  {
  }

  lemma HitsStep(keys: seq<TrustedKey>, last: TrustedKey, good: set<TrustedKey>)
    ensures Hits(keys + [last], good) == Hits(keys, good) + (if last in good then {last} else {})
    ensures last !in keys ==> last !in Hits(keys, good)
  {
  }

  /** Counting positions is counting keys, when no key occurs twice. */
  lemma {:induction false} CountByKey(keys: seq<TrustedKey>, good: set<TrustedKey>)
    requires forall i, j :: 0 <= i < j < |keys| ==> keys[i] != keys[j]
    ensures |Places(keys, good)| == |Hits(keys, good)|
  {
    if keys != [] {
      var n := |keys| - 1;
      hide *;
      var init, last := keys[..n], keys[n];
      assert keys == init + [last];
      assert last !in init;
      CountByKey(init, good);
      PlacesStep(init, last, good);
      HitsStep(init, last, good);
    }
  }

  lemma DistinctKeys(p: Primitives, root: TrustRoot)
    requires ValidRoot(p, root)
    ensures forall i, j :: 0 <= i < j < |root.keys| ==> root.keys[i] != root.keys[j]
  {
    forall i, j | 0 <= i < j < |root.keys| ensures root.keys[i] != root.keys[j] {
      AscendFar(root.keys, i, j);
      BeforeIsDifferent(root.keys[i], root.keys[j]);
    }
  }

  /** The bundle is a canonical one, no signature in it by a root key is bad, and a threshold of root
      keys signed under every active algorithm, of which there is one. */
  ghost predicate Backed(p: Primitives, msg: Bytes, bundle: Bytes, root: TrustRoot, active: seq<SigAlg>) {
    exists entries ::
      && Canonical(entries) && Built(entries) == bundle
      && active != []
      && (forall k :: k in root.keys ==> !HasForgery(p, msg, entries, k, active))
      && |Backers(p, msg, entries, root, active, [])| >= root.threshold
  }

  /** The outcome of the quorum check in terms of the keys that signed. */
  lemma CountedBackers(p: Primitives, msg: Bytes, entries: seq<SigEntry>, root: TrustRoot, active: seq<SigAlg>)
    requires ValidRoot(p, root) && DistinctPairs(entries) && active != []
    ensures OutcomeOf(p, msg, entries, RingOf(root), active) ==
      if exists k :: k in root.keys && HasForgery(p, msg, entries, k, active) then Tampered
      else Qualifying(|Backers(p, msg, entries, root, active, [])|)
  {
    ThresholdMeaning(p, msg, entries, root, active);
    DistinctKeys(p, root);
    var good := Backers(p, msg, entries, root, active, []);
    hide SignedByAll, ValidRoot, HasForgery, OutcomeOf;
    CountByKey(root.keys, good);
    assert (set i: int | 0 <= i < |root.keys| && SignedByAll(p, msg, entries, root.keys[i], active)) == Places(root.keys, good);
    assert Hits(root.keys, good) == good;
  }

  lemma QuorumBackers(p: Primitives, msg: Bytes, bundle: Bytes, root: TrustRoot, supported: set<SigAlg>)
    requires ValidRoot(p, root) && Quorum(p, msg, bundle, root, supported)
    ensures Parsed(bundle).Success?
    ensures |Backers(p, msg, Parsed(bundle).value, root, Active(root.sigalgs, supported), [])| >= root.threshold
    ensures Backed(p, msg, bundle, root, Active(root.sigalgs, supported))
  {
    hide ValidRoot, Parsed, HasForgery, Backers, RingOf, Canonical, Built, Active, DistinctPairs, OutcomeOf;
    var entries, active := Parsed(bundle).value, Active(root.sigalgs, supported);
    ParseThenBuild(bundle);
    CanonicalRead(entries);
    NoActiveNoQuorum(p, msg, entries, RingOf(root));
    CountedBackers(p, msg, entries, root, active);
  }

  lemma NoActiveNoQuorum(p: Primitives, msg: Bytes, entries: seq<SigEntry>, ring: seq<RingKey>)
    ensures OutcomeOf(p, msg, entries, ring, []) == Unsupported
  {
  }

  /** The quorum check is passed exactly on backed bundles. */
  lemma QuorumIffBacked(p: Primitives, msg: Bytes, bundle: Bytes, root: TrustRoot, supported: set<SigAlg>)
    requires ValidRoot(p, root)
    ensures Quorum(p, msg, bundle, root, supported) <==> Backed(p, msg, bundle, root, Active(root.sigalgs, supported))
  {
    var active := Active(root.sigalgs, supported);
    if Quorum(p, msg, bundle, root, supported) {
      hide *;
      QuorumBackers(p, msg, bundle, root, supported);
    } else if Backed(p, msg, bundle, root, active) {
      var entries :|
        && Canonical(entries) && Built(entries) == bundle
        && active != []
        && (forall k :: k in root.keys ==> !HasForgery(p, msg, entries, k, active))
        && |Backers(p, msg, entries, root, active, [])| >= root.threshold;
      CanonicalRead(entries);
      CountedBackers(p, msg, entries, root, active);
      hide ValidRoot, Parsed, HasForgery, Backers, RingOf, Canonical, Built, Active, DistinctPairs;
      assert false;
    }
  }

  lemma CanonicalRead(es: seq<SigEntry>)
    requires Canonical(es)
    ensures DistinctPairs(es) && Parsed(Built(es)) == Success(es)
  {
    CanonicalBuilt(es);
    SortedIsDistinct(es);
    SortFixpoint(es);
    BuildThenParse(es);
  }

  /** A manifest passes the verifier - as valid, expired or rolled back - exactly when: the pinned
      root is valid; a threshold of its keys signed, with no bad signature by any of them; the
      payload is a structurally valid manifest; and the embedded root, the pinned root and the stated
      identifier all agree. Which of the three it is depends on version and clock alone, and a
      rollback is named before an expiry. */
  lemma PassedExactly(h: Host, payload: Bytes, bundle: Bytes, pinned: TrustRoot, pinnedVersion: nat, now: nat,
                      supported: set<SigAlg>)
    ensures
      var v := ManifestVerdict(h, payload, bundle, pinned, pinnedVersion, now, supported);
      && (Passed(v) <==>
            && ValidRoot(h.prims, pinned)
            && Backed(h.prims, PREFIX_MANIFEST + payload, bundle, pinned, Active(pinned.sigalgs, supported))
            && h.parseManifest(payload).Some?
            && StructurallyValid(h, h.parseManifest(payload).value)
            && IdHex(h.prims, h.parseManifest(payload).value.trustRoot) == Some(h.parseManifest(payload).value.trustRootId)
            && IdHex(h.prims, pinned) == Some(h.parseManifest(payload).value.trustRootId))
      && (v == Rollback ==> h.parseManifest(payload).Some? && h.parseManifest(payload).value.version < pinnedVersion)
      && (v in {Valid, Expired} ==>
            h.parseManifest(payload).Some? && h.parseManifest(payload).value.version >= pinnedVersion
            && (v == Expired <==> now > h.parseManifest(payload).value.notAfter))
  {
    if ValidRoot(h.prims, pinned) {
      QuorumIffBacked(h.prims, PREFIX_MANIFEST + payload, bundle, pinned, supported);
      QuorumNeverPasses(h.prims, PREFIX_MANIFEST + payload, bundle, RingOf(pinned), Active(pinned.sigalgs, supported), pinned.threshold);
    }
    hide Backed, ValidRoot, StructurallyValid, IdHex, QuorumState, RingOf, Active;
  }

  lemma QuorumNeverPasses(p: Primitives, msg: Bytes, bundle: Bytes, ring: seq<RingKey>, active: seq<SigAlg>,
                          threshold: nat)
    ensures QuorumState(p, msg, bundle, ring, active, threshold).Some? ==>
      !Passed(QuorumState(p, msg, bundle, ring, active, threshold).value)
  {
    hide Parsed, OutcomeOf;
  }

  /** Whatever verdict passes under a revocation is carried by a threshold of un-revoked keys. */
  lemma PassedRestsOnUnrevoked(h: Host, payload: Bytes, bundle: Bytes, pinned: TrustRoot, pinnedVersion: nat,
                               now: nat, supported: set<SigAlg>, revoked: seq<string>)
    requires Passed(RevokedVerdict(h, payload, bundle, pinned, pinnedVersion, now, supported, revoked))
    ensures Parsed(bundle).Success?
    ensures
      |Backers(h.prims, PREFIX_MANIFEST + payload, Parsed(bundle).value, pinned,
               Active(pinned.sigalgs, supported), revoked)| >= pinned.threshold
  {
    var msg, active := PREFIX_MANIFEST + payload, Active(pinned.sigalgs, supported);
    var root := if revoked == [] then pinned else Filtered(pinned, revoked);
    QuorumBackers(h.prims, msg, bundle, root, supported);
    hide SignedByAll, ValidRoot, Parsed;
    assert Backers(h.prims, msg, Parsed(bundle).value, root, active, [])
        == Backers(h.prims, msg, Parsed(bundle).value, pinned, active, revoked);
  }

  // ---------------------------------------------------------------- the identifier problem

  /** Dropping a key changes the encoding. */
  lemma FilteredMaterialDiffers(p: Primitives, root: TrustRoot, revoked: seq<string>)
    requires ValidRoot(p, root)
    requires exists k :: k in root.keys && k.keyId in revoked
    ensures RootBytes(root).Some? && RootBytes(Filtered(root, revoked)).Some?
    ensures RootBytes(root) != RootBytes(Filtered(root, revoked))
  {
    UnrevokedCount(root.keys, revoked);
    ValidIsEncodable(p, root);
    assert |RootMaterial(root)| == 3 + 105 * |root.keys|;
    assert |RootMaterial(Filtered(root, revoked))| == 3 + 105 * |Filtered(root, revoked).keys|;
  }

  lemma {:induction false} UnrevokedUntouched(keys: seq<TrustedKey>, revoked: seq<string>)
    requires forall k :: k in keys ==> k.keyId !in revoked
    ensures Unrevoked(keys, revoked) == keys
  {
    if keys != [] {
      UnrevokedUntouched(keys[1..], revoked);
    }
  }

  /** The hash separates the root from what revocation leaves of it. */
  ghost predicate IdsSeparate(p: Primitives, root: TrustRoot, revoked: seq<string>) {
    RootBytes(root).Some? && RootBytes(Filtered(root, revoked)).Some? ==>
      NoCollision(p, PREFIX_TRUSTROOT + RootBytes(root).value, PREFIX_TRUSTROOT + RootBytes(Filtered(root, revoked)).value)
  }

  lemma FilteredIdDiffers(p: Primitives, root: TrustRoot, revoked: seq<string>)
    requires ValidRoot(p, root) && IdsSeparate(p, root, revoked)
    requires exists k :: k in root.keys && k.keyId in revoked
    ensures IdHex(p, root).Some? && IdHex(p, Filtered(root, revoked)).Some?
    ensures IdHex(p, root) != IdHex(p, Filtered(root, revoked))
  {
    FilteredMaterialDiffers(p, root, revoked);
    var a, b := RootBytes(root).value, RootBytes(Filtered(root, revoked)).value;
    assert (PREFIX_TRUSTROOT + a)[|PREFIX_TRUSTROOT|..] == a;
    assert (PREFIX_TRUSTROOT + b)[|PREFIX_TRUSTROOT|..] == b;
    if IdHex(p, root) == IdHex(p, Filtered(root, revoked)) {
      HexInjective(p.sha256(PREFIX_TRUSTROOT + a), p.sha256(PREFIX_TRUSTROOT + b));
    }
  }

  /** Losing keys never makes a sound bundle look forged. */
  lemma FilteredNotTampered(p: Primitives, msg: Bytes, bundle: Bytes, root: TrustRoot, revoked: seq<string>,
                            active: seq<SigAlg>, t: nat)
    requires QuorumState(p, msg, bundle, RingOf(root), active, root.threshold).None?
    ensures
      var q := QuorumState(p, msg, bundle, RingOf(Filtered(root, revoked)), active, t);
      q.None? || q == Some(UntrustedRoot)
  {
    var entries := Parsed(bundle).value;
    var ring, rest := RingOf(root), RingOf(Filtered(root, revoked));
    forall i | 0 <= i < |rest| ensures !Fatal(p, msg, entries, rest[i], active) {
      var k := Filtered(root, revoked).keys[i];
      var j :| 0 <= j < |root.keys| && root.keys[j] == k;
      assert ring[j] == rest[i];
    }
  }

  /** What item 4 of section 9.2.3 of the protocol description promises to be VALID: enough un-revoked
      keys signed, and nothing is wrong with the manifest - whatever the revoked keys' own signatures
      are like. The verdict is that of version and clock exactly when no key of the root is revoked;
      otherwise it is UNTRUSTED_ROOT, because the identifier stated is that of the full root. */
  lemma HealthyUnderRevocation(h: Host, payload: Bytes, bundle: Bytes, pinned: TrustRoot, m: Manifest, pinnedVersion: nat,
                               now: nat, supported: set<SigAlg>, revoked: seq<string>)
    requires ValidRoot(h.prims, pinned) && |Filtered(pinned, revoked).keys| >= pinned.threshold
    requires Backed(h.prims, PREFIX_MANIFEST + payload, bundle, Filtered(pinned, revoked), Active(pinned.sigalgs, supported))
    requires h.parseManifest(payload) == Some(m) && StructurallyValid(h, m)
    requires IdHex(h.prims, m.trustRoot) == IdHex(h.prims, pinned) == Some(m.trustRootId)
    requires IdsSeparate(h.prims, pinned, revoked)
    ensures RevokedVerdict(h, payload, bundle, pinned, pinnedVersion, now, supported, revoked) ==
      if exists k :: k in pinned.keys && k.keyId in revoked then UntrustedRoot else Freshness(m, pinnedVersion, now)
  {
    FilteredIsValid(h.prims, pinned, revoked);
    RevokedIs(h, payload, bundle, pinned, pinnedVersion, now, supported, revoked);
    BackedVerdict(h, payload, bundle, Filtered(pinned, revoked), m, pinnedVersion, now, supported);
    if exists k :: k in pinned.keys && k.keyId in revoked {
      FilteredIdDiffers(h.prims, pinned, revoked);
    } else {
      UnrevokedUntouched(pinned.keys, revoked);
      assert Filtered(pinned, revoked) == pinned;
    }
    hide *;
  }

  /** Past the quorum and the structure, only the identifier of the root stands in the way. */
  lemma BackedVerdict(h: Host, payload: Bytes, bundle: Bytes, root: TrustRoot, m: Manifest, pinnedVersion: nat,
                      now: nat, supported: set<SigAlg>)
    requires ValidRoot(h.prims, root)
    requires Backed(h.prims, PREFIX_MANIFEST + payload, bundle, root, Active(root.sigalgs, supported))
    requires h.parseManifest(payload) == Some(m) && StructurallyValid(h, m)
    requires IdHex(h.prims, m.trustRoot) == Some(m.trustRootId)
    ensures ManifestVerdict(h, payload, bundle, root, pinnedVersion, now, supported) ==
      if IdHex(h.prims, root) != Some(m.trustRootId) then UntrustedRoot else Freshness(m, pinnedVersion, now)
  {
    QuorumIffBacked(h.prims, PREFIX_MANIFEST + payload, bundle, root, supported);
    hide QuorumState, StructurallyValid, IdHex, ValidRoot, Active, RingOf, Freshness, Backed;
  }

  /** With enough keys left, verifying under a revocation is verifying under what it leaves. */
  lemma RevokedIs(h: Host, payload: Bytes, bundle: Bytes, pinned: TrustRoot, pinnedVersion: nat, now: nat,
                  supported: set<SigAlg>, revoked: seq<string>)
    requires |Filtered(pinned, revoked).keys| >= pinned.threshold
    ensures RevokedVerdict(h, payload, bundle, pinned, pinnedVersion, now, supported, revoked)
         == ManifestVerdict(h, payload, bundle, Filtered(pinned, revoked), pinnedVersion, now, supported)
    ensures Filtered(pinned, revoked).sigalgs == pinned.sigalgs
  {
    hide ManifestVerdict;
    if revoked == [] {
      UnrevokedUntouched(pinned.keys, revoked);
      assert Filtered(pinned, revoked) == pinned;
    }
  }

  /** A manifest that passes against the full root keeps its verdict exactly when no key of the
      root is revoked; otherwise it becomes UNTRUSTED_ROOT, however many un-revoked keys signed it. */
  lemma PassingUnderRevocation(h: Host, payload: Bytes, bundle: Bytes, pinned: TrustRoot, pinnedVersion: nat,
                               now: nat, supported: set<SigAlg>, revoked: seq<string>)
    requires Passed(ManifestVerdict(h, payload, bundle, pinned, pinnedVersion, now, supported))
    requires IdsSeparate(h.prims, pinned, revoked)
    ensures RevokedVerdict(h, payload, bundle, pinned, pinnedVersion, now, supported, revoked) ==
      if exists k :: k in pinned.keys && k.keyId in revoked then UntrustedRoot
      else ManifestVerdict(h, payload, bundle, pinned, pinnedVersion, now, supported)
  {
    var msg, active := PREFIX_MANIFEST + payload, Active(pinned.sigalgs, supported);
    var rest := Filtered(pinned, revoked);
    if exists k :: k in pinned.keys && k.keyId in revoked {
      if |rest.keys| >= pinned.threshold {
        FilteredIsValid(h.prims, pinned, revoked);
        FilteredIdDiffers(h.prims, pinned, revoked);
        FilteredNotTampered(h.prims, msg, bundle, pinned, revoked, active, pinned.threshold);
      }
    } else {
      UnrevokedUntouched(pinned.keys, revoked);
      assert Filtered(pinned, revoked) == pinned;
    }
    hide QuorumState, StructurallyValid, IdHex, ValidRoot, Active, RingOf, Unrevoked, IdsSeparate, Freshness;
  }

  /** An instance of the gap against item 4 of section 9.2.3 of the protocol description: enough
      un-revoked keys signed, the manifest is VALID without the revocation, and still it is refused
      with it. */
  lemma HealthyManifestRefused(h: Host, sign: SignOp, signers: seq<SignerKeys>, payload: Bytes, root: TrustRoot,
                               m: Manifest, now: nat, supported: set<SigAlg>, revoked: seq<string>)
    requires SigningWorks(h.prims, sign, signers) && ValidRoot(h.prims, root)
    requires DistinctSigners(h.prims, signers) && NoImpostor(h.prims, signers, root) && 1 <= |signers| <= 32
    requires h.parseManifest(payload) == Some(m) && StructurallyValid(h, m)
    requires IdHex(h.prims, m.trustRoot) == IdHex(h.prims, root) == Some(m.trustRootId)
    requires now <= m.notAfter && Active(root.sigalgs, supported) != []
    requires RootSigners(h.prims, signers, root) >= root.threshold
    requires RootSigners(h.prims, signers, Filtered(root, revoked)) >= root.threshold
    requires IdsSeparate(h.prims, root, revoked)
    requires exists k :: k in root.keys && k.keyId in revoked
    ensures
      var bundle := Built(Collected(h.prims, sign, signers, PREFIX_MANIFEST, payload));
      && ManifestVerdict(h, payload, bundle, root, 0, now, supported) == Valid
      && RevokedVerdict(h, payload, bundle, root, 0, now, supported, revoked) == UntrustedRoot
  {
    FreshIsValid(m, now);
    hide *;
    var bundle := Built(Collected(h.prims, sign, signers, PREFIX_MANIFEST, payload));
    SignThenVerify(h, sign, signers, payload, root, m, 0, now, supported);
    PassingUnderRevocation(h, payload, bundle, root, 0, now, supported, revoked);
  }

  lemma FreshIsValid(m: Manifest, now: nat)
    requires now <= m.notAfter
    ensures Freshness(m, 0, now) == Valid && Passed(Valid)
  {
  }
}
