/** What signing a revocation achieves (src/manifest.rs, verify_revocation). */
module SignedRevocations {
  import opened Prelude
  import opened Bundle
  import opened TrustRoots
  import opened Threshold
  import opened Manifests
  import opened Signing

  /** The verdict past the signatures. */
  lemma VerdictPastQuorum(h: Host, payload: Bytes, bundle: Bytes, root: TrustRoot, r: Revocation, pinned: nat, now: nat,
                          supported: set<SigAlg>)
    requires ValidRoot(h.prims, root) && h.parseRevocation(payload) == Some(r)
    ensures RevocationVerdict(h, payload, bundle, root, pinned, now, supported) == Accept
      <==>
      && Quorum(h.prims, PREFIX_REVOCATION + payload, bundle, root, supported)
      && r.spec == "veil-guard/revocation/1"
      && r.version <= 9007199254740991 && r.notAfter <= 9007199254740991
      && pinned < r.version < r.notAfter && now <= r.notAfter
      && IdHex(h.prims, root) == Some(r.trustRootId)
      && |r.revokedKeys| + root.threshold <= |root.keys|
      && (forall id :: id in r.revokedKeys ==> exists k :: k in root.keys && k.keyId == id)
  {
    hide ValidRoot, Quorum, IdHex;
    NamesAre(root, r.revokedKeys);
    hide NamesRootKey;
  }

  lemma NamesAre(root: TrustRoot, ids: seq<string>)
    ensures (forall i :: 0 <= i < |ids| ==> NamesRootKey(root, ids[i]))
      <==> forall id :: id in ids ==> exists k :: k in root.keys && k.keyId == id
  {
    if forall i :: 0 <= i < |ids| ==> NamesRootKey(root, ids[i]) {
      forall id | id in ids ensures exists k :: k in root.keys && k.keyId == id {
        var i :| 0 <= i < |ids| && ids[i] == id;
        assert NamesRootKey(root, ids[i]);
      }
    }
    if forall id :: id in ids ==> exists k :: k in root.keys && k.keyId == id {
      forall i | 0 <= i < |ids| ensures NamesRootKey(root, ids[i]) { assert ids[i] in ids; }
    }
  }

  /** Sign, bundle, revoke: a signed statement is accepted if and only if enough keys of the root signed it,
      it is a revocation of this root within the range of exact integers, newer than the last one and not
      out of date, and lists keys of the root only, no more of them than leave the threshold standing. */
  lemma SignedRevocation(h: Host, sign: SignOp, signers: seq<SignerKeys>, payload: Bytes, root: TrustRoot, r: Revocation,
                         pinned: nat, now: nat, supported: set<SigAlg>)
    requires ValidRoot(h.prims, root) && SigningWorks(h.prims, sign, signers)
    requires DistinctSigners(h.prims, signers) && NoImpostor(h.prims, signers, root)
    requires h.parseRevocation(payload) == Some(r)
    ensures
      RevocationVerdict(h, payload, Built(Collected(h.prims, sign, signers, PREFIX_REVOCATION, payload)), root, pinned, now, supported)
        == Accept
      <==>
      && 1 <= |signers| <= 32 && Active(root.sigalgs, supported) != []
      && RootSigners(h.prims, signers, root) >= root.threshold
      && r.spec == "veil-guard/revocation/1"
      && r.version <= 9007199254740991 && r.notAfter <= 9007199254740991
      && pinned < r.version < r.notAfter && now <= r.notAfter
      && IdHex(h.prims, root) == Some(r.trustRootId)
      && |r.revokedKeys| + root.threshold <= |root.keys|
      && (forall id :: id in r.revokedKeys ==> exists k :: k in root.keys && k.keyId == id)
  {
    var bundle := Built(Collected(h.prims, sign, signers, PREFIX_REVOCATION, payload));
    VerdictPastQuorum(h, payload, bundle, root, r, pinned, now, supported);
    SignedQuorum(h.prims, sign, signers, PREFIX_REVOCATION, payload, root, Active(root.sigalgs, supported));
    QuorumIs(h.prims, PREFIX_REVOCATION + payload, bundle, root, supported);
    hide *;
  }

  lemma QuorumIs(p: Primitives, msg: Bytes, bundle: Bytes, root: TrustRoot, supported: set<SigAlg>)
    ensures Quorum(p, msg, bundle, root, supported)
      <==> QuorumState(p, msg, bundle, RingOf(root), Active(root.sigalgs, supported), root.threshold).None?
  {
    hide QuorumState;
  }

  /** No replay: whoever signed it, a statement accepted once is refused as soon as its own version, or any
      later one, is the pinned one - and accepted from every earlier one, at any time up to its end. */
  lemma NoReplay(h: Host, payload: Bytes, bundle: Bytes, root: TrustRoot, pinned: nat, now: nat, supported: set<SigAlg>,
                 pinned': nat, now': nat)
    requires RevocationVerdict(h, payload, bundle, root, pinned, now, supported) == Accept
    ensures h.parseRevocation(payload).Some?
    ensures RevocationVerdict(h, payload, bundle, root, pinned', now', supported) == Accept
      <==> pinned' < h.parseRevocation(payload).value.version && now' <= h.parseRevocation(payload).value.notAfter
  {
    RevocationParsed(h, payload, bundle, root, pinned, now, supported);
    var r := h.parseRevocation(payload).value;
    VerdictPastQuorum(h, payload, bundle, root, r, pinned, now, supported);
    VerdictPastQuorum(h, payload, bundle, root, r, pinned', now', supported);
    hide *;
  }

  lemma RevocationParsed(h: Host, payload: Bytes, bundle: Bytes, root: TrustRoot, pinned: nat, now: nat, supported: set<SigAlg>)
    requires RevocationVerdict(h, payload, bundle, root, pinned, now, supported) == Accept
    ensures h.parseRevocation(payload).Some? && ValidRoot(h.prims, root)
  {
    hide ValidRoot, Quorum, IdHex;
  }
}
