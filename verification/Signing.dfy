/** The signing side, and the promise that what enough signers sign verifies (src/crypto.rs). */
module Signing {
  import opened Prelude
  import opened Bundle
  import opened TrustRoots
  import opened Threshold
  import opened Manifests

  /** One Ed25519 pair and one P-256 pair; the secrets stay abstract behind `handle`. */
  datatype SignerKeys = SignerKeys(ed25519Public: Bytes, p256Public: Bytes, handle: nat)

  /** algorithm, signer, message */
  type SignOp = (SigAlg, SignerKeys, Bytes) -> Bytes

  function SignerPublic(s: SignerKeys, alg: SigAlg): Bytes {
    match alg
    case Ed25519 => s.ed25519Public
    case P256 => s.p256Public
  }

  function SignerId(p: Primitives, s: SignerKeys): KeyId {
    DeriveKeyId(p, s.ed25519Public, s.p256Public)
  }

  /** The law of the signature schemes, for these signers: 64 raw bytes that verify under the signer's
      own key. */
  ghost predicate SigningWorks(p: Primitives, sign: SignOp, signers: seq<SignerKeys>) {
    forall alg, s, msg :: s in signers ==>
      |sign(alg, s, msg)| == 64 && p.verifySig(alg, SignerPublic(s, alg), sign(alg, s, msg), msg)
  }

  function EntryFor(p: Primitives, sign: SignOp, s: SignerKeys, msg: Bytes, alg: SigAlg): SigEntry {
    SigEntry(SignerId(p, s), AlgId(alg), sign(alg, s, msg))
  }

  /** `SignerKeys::sign`: one entry per algorithm over the same domain-separated bytes. */
  function Sign(p: Primitives, sign: SignOp, s: SignerKeys, prefix: Bytes, payload: Bytes): seq<SigEntry> {
    [EntryFor(p, sign, s, prefix + payload, Ed25519), EntryFor(p, sign, s, prefix + payload, P256)]
  }

  /** The signatures of all signers, in the order they were collected. */
  function Collected(p: Primitives, sign: SignOp, signers: seq<SignerKeys>, prefix: Bytes,
                     payload: Bytes): (r: seq<SigEntry>)
    ensures |r| == 2 * |signers|
  {
    if signers == [] then []
    else Sign(p, sign, signers[0], prefix, payload) + Collected(p, sign, signers[1..], prefix, payload)
  }

  ghost predicate DistinctSigners(p: Primitives, signers: seq<SignerKeys>) {
    forall i, j :: 0 <= i < j < |signers| ==> SignerId(p, signers[i]) != SignerId(p, signers[j])
  }

  /** Nobody signs under a root key's identifier with other key material. */
  ghost predicate NoImpostor(p: Primitives, signers: seq<SignerKeys>, root: TrustRoot) {
    forall s, k :: s in signers && k in root.keys && KeyIdBytes(k) == Some(SignerId(p, s)) ==>
      Ed25519Bytes(k) == Some(s.ed25519Public) && P256Bytes(k) == Some(s.p256Public)
  }

  ghost predicate HasSigner(p: Primitives, signers: seq<SignerKeys>, k: TrustedKey) {
    exists s :: s in signers && KeyIdBytes(k) == Some(SignerId(p, s))
  }

  /** How many keys of the root have a signer among those who signed. */
  ghost function RootSigners(p: Primitives, signers: seq<SignerKeys>, root: TrustRoot): nat {
    |set i: int | 0 <= i < |root.keys| && HasSigner(p, signers, root.keys[i])|
  }

  lemma {:induction false} CollectedAt(p: Primitives, sign: SignOp, signers: seq<SignerKeys>, prefix: Bytes,
                                       payload: Bytes, i: nat)
    requires i < 2 * |signers|
    ensures Collected(p, sign, signers, prefix, payload)[i]
         == EntryFor(p, sign, signers[i / 2], prefix + payload, if i % 2 == 0 then Ed25519 else P256)
  {
    if i >= 2 {
      CollectedAt(p, sign, signers[1..], prefix, payload, i - 2);
      assert signers[1..][i / 2 - 1] == signers[i / 2];
    }
  }

  lemma CollectedIsEncodable(p: Primitives, sign: SignOp, signers: seq<SignerKeys>, prefix: Bytes, payload: Bytes)
    requires SigningWorks(p, sign, signers) && DistinctSigners(p, signers)
    ensures LegalEntries(Collected(p, sign, signers, prefix, payload))
    ensures DistinctPairs(Collected(p, sign, signers, prefix, payload))
  {
    var es := Collected(p, sign, signers, prefix, payload);
    forall i | 0 <= i < |es| ensures LegalEntry(es[i]) {
      CollectedAt(p, sign, signers, prefix, payload, i);
    }
    forall i, j | 0 <= i < j < |es| ensures !SamePair(es[i], es[j]) {
      CollectedAt(p, sign, signers, prefix, payload, i);
      CollectedAt(p, sign, signers, prefix, payload, j);
      assert i / 2 < j / 2 || (i / 2 == j / 2 && i % 2 == 0 && j % 2 == 1);
    }
  }

  /** Membership in the collection, reading off signer and algorithm. */
  lemma CollectedMember(p: Primitives, sign: SignOp, signers: seq<SignerKeys>, prefix: Bytes, payload: Bytes,
                        e: SigEntry)
    ensures e in Collected(p, sign, signers, prefix, payload)
       <==> exists s, alg :: s in signers && e == EntryFor(p, sign, s, prefix + payload, alg)
  {
    var es := Collected(p, sign, signers, prefix, payload);
    if e in es {
      var i :| 0 <= i < |es| && es[i] == e;
      CollectedAt(p, sign, signers, prefix, payload, i);
    }
    if s, alg :| s in signers && e == EntryFor(p, sign, s, prefix + payload, alg) {
      var j :| 0 <= j < |signers| && signers[j] == s;
      CollectedAt(p, sign, signers, prefix, payload, if alg == Ed25519 then 2 * j else 2 * j + 1);
    }
  }

  /** On any rearrangement of the collected signatures, a root key is signed for exactly when it
      has a signer, and no signature of a root key fails. */
  lemma KeySigned(p: Primitives, sign: SignOp, signers: seq<SignerKeys>, prefix: Bytes, payload: Bytes,
                  root: TrustRoot, k: TrustedKey, active: seq<SigAlg>, es: seq<SigEntry>)
    requires SigningWorks(p, sign, signers) && NoImpostor(p, signers, root) && k in root.keys && active != []
    requires KeyIdBytes(k).Some?
    requires forall e :: e in es <==> e in Collected(p, sign, signers, prefix, payload)
    ensures !HasForgery(p, prefix + payload, es, k, active)
    ensures SignedByAll(p, prefix + payload, es, k, active) <==> HasSigner(p, signers, k)
  {
    hide KeyIdBytes, Ed25519Bytes, P256Bytes, SignerId, Collected, LegalEntry;
    var msg := prefix + payload;
    forall e, alg | e in es && EntryOf(e, k, alg)
      ensures GoodSignature(p, msg, e, k, alg) && HasSigner(p, signers, k)
    {
      CollectedMember(p, sign, signers, prefix, payload, e);
      var s, a :| s in signers && e == EntryFor(p, sign, s, msg, a);
      assert a == alg;
    }
    if HasSigner(p, signers, k) {
      var s :| s in signers && KeyIdBytes(k) == Some(SignerId(p, s));
      forall alg | alg in active
        ensures exists e :: e in es && EntryOf(e, k, alg) && GoodSignature(p, msg, e, k, alg)
      {
        var e := EntryFor(p, sign, s, msg, alg);
        CollectedMember(p, sign, signers, prefix, payload, e);
        assert e in es && EntryOf(e, k, alg);
      }
    } else {
      assert active[0] in active;
    }
  }

  /** What the parser hands on: the same signatures, sorted - for one to 32 signers, with their two
      signatures each; any other number it refuses. */
  lemma BundleOfSigners(p: Primitives, sign: SignOp, signers: seq<SignerKeys>, prefix: Bytes, payload: Bytes)
    requires SigningWorks(p, sign, signers) && DistinctSigners(p, signers)
    ensures
      var es := Collected(p, sign, signers, prefix, payload);
      && (Parsed(Built(es)).Success? <==> 1 <= |signers| <= 32)
      && (Parsed(Built(es)).Success? ==>
            && Parsed(Built(es)) == Success(Sorted(es)) && DistinctPairs(Sorted(es))
            && forall e :: e in Sorted(es) <==> e in es)
  {
    var es := Collected(p, sign, signers, prefix, payload);
    CollectedIsEncodable(p, sign, signers, prefix, payload);
    BuildThenParse(es);
    PermutationKeepsDistinct(es, Sorted(es));
    SortedMembers(es);
    hide Parsed, Built, LegalEntries, DistinctPairs, Collected, Sorted;
  }

  /** The bundle of the signers reaches exactly the number of root keys they hold. */
  lemma SignedOutcome(p: Primitives, sign: SignOp, signers: seq<SignerKeys>, prefix: Bytes, payload: Bytes,
                      root: TrustRoot, active: seq<SigAlg>, es: seq<SigEntry>)
    requires SigningWorks(p, sign, signers) && ValidRoot(p, root)
    requires NoImpostor(p, signers, root) && active != [] && DistinctPairs(es)
    requires forall e :: e in es <==> e in Collected(p, sign, signers, prefix, payload)
    ensures OutcomeOf(p, prefix + payload, es, RingOf(root), active) == Qualifying(RootSigners(p, signers, root))
  {
    ThresholdMeaning(p, prefix + payload, es, root, active);
    forall i | 0 <= i < |root.keys|
      ensures !HasForgery(p, prefix + payload, es, root.keys[i], active)
      ensures SignedByAll(p, prefix + payload, es, root.keys[i], active) <==> HasSigner(p, signers, root.keys[i])
    {
      assert ValidKey(p, root.keys[i]);
      KeySigned(p, sign, signers, prefix, payload, root, root.keys[i], active, es);
    }
    hide HasForgery, SignedByAll, HasSigner, ValidRoot, OutcomeOf, Collected, DistinctPairs;
    assert (set i: int | 0 <= i < |root.keys| && SignedByAll(p, prefix + payload, es, root.keys[i], active))
        == (set i: int | 0 <= i < |root.keys| && HasSigner(p, signers, root.keys[i]));
  }

  lemma SignedQuorum(p: Primitives, sign: SignOp, signers: seq<SignerKeys>, prefix: Bytes, payload: Bytes,
                     root: TrustRoot, active: seq<SigAlg>)
    requires SigningWorks(p, sign, signers) && ValidRoot(p, root)
    requires DistinctSigners(p, signers) && NoImpostor(p, signers, root)
    ensures
      var bundle := Built(Collected(p, sign, signers, prefix, payload));
      QuorumState(p, prefix + payload, bundle, RingOf(root), active, root.threshold) ==
        if !(1 <= |signers| <= 32) then Some(TamperedState)
        else if active == [] then Some(UnsupportedState)
        else if RootSigners(p, signers, root) < root.threshold then Some(UntrustedRoot)
        else None
  {
    hide *;
    var es := Collected(p, sign, signers, prefix, payload);
    BundleOfSigners(p, sign, signers, prefix, payload);
    QuorumByOutcome(p, prefix + payload, Built(es), RingOf(root), active, root.threshold);
    if 1 <= |signers| <= 32 && active != [] {
      SignedOutcome(p, sign, signers, prefix, payload, root, active, Sorted(es));
    }
  }

  lemma QuorumByOutcome(p: Primitives, msg: Bytes, bundle: Bytes, ring: seq<RingKey>, active: seq<SigAlg>, threshold: nat)
    ensures
      var state := QuorumState(p, msg, bundle, ring, active, threshold);
      && (Parsed(bundle).Failure? ==> state == Some(TamperedState))
      && (Parsed(bundle).Success? ==>
            var outcome := OutcomeOf(p, msg, Parsed(bundle).value, ring, active);
            && (active == [] ==> state == Some(UnsupportedState))
            && (outcome.Qualifying? ==> state == if outcome.count < threshold then Some(UntrustedRoot) else None))
  {
    hide Parsed, Fatal, Qualified;
  }

  /** Sign, bundle, verify: the verdict is a matter of how many root keys signed, the version
      and the clock, and of nothing else - not the order of signing, not outsiders. */
  lemma SignThenVerify(h: Host, sign: SignOp, signers: seq<SignerKeys>, payload: Bytes, root: TrustRoot, m: Manifest,
                       pinnedVersion: nat, now: nat, supported: set<SigAlg>)
    requires SigningWorks(h.prims, sign, signers) && ValidRoot(h.prims, root)
    requires DistinctSigners(h.prims, signers) && NoImpostor(h.prims, signers, root)
    requires h.parseManifest(payload) == Some(m) && StructurallyValid(h, m)
    requires IdHex(h.prims, m.trustRoot) == IdHex(h.prims, root) == Some(m.trustRootId)
    ensures
      var bundle := Built(Collected(h.prims, sign, signers, PREFIX_MANIFEST, payload));
      ManifestVerdict(h, payload, bundle, root, pinnedVersion, now, supported) ==
        if !(1 <= |signers| <= 32) then TamperedState
        else if Active(root.sigalgs, supported) == [] then UnsupportedState
        else if RootSigners(h.prims, signers, root) < root.threshold then UntrustedRoot
        else Freshness(m, pinnedVersion, now)
  {
    SignedQuorum(h.prims, sign, signers, PREFIX_MANIFEST, payload, root, Active(root.sigalgs, supported));
    hide QuorumState, Built, StructurallyValid, Freshness, IdHex, ValidRoot, RootSigners, Collected;
  }
}
