/** The quorum rule: present-but-invalid is fatal, absent does not count (src/crypto.rs). */
module Threshold {
  import opened Prelude
  import opened Bundle
  import opened TrustRoots

  datatype Outcome = Qualifying(count: nat) | Tampered | Unsupported

  /** A root key after decoding its fields; a field that does not decode is None. */
  datatype RingKey = RingKey(kid: Option<Bytes>, ed25519: Option<Bytes>, p256: Option<Bytes>)

  function RingKeyOf(k: TrustedKey): RingKey {
    RingKey(KeyIdBytes(k), Ed25519Bytes(k), P256Bytes(k))
  }

  function RingOf(root: TrustRoot): (r: seq<RingKey>)
    ensures |r| == |root.keys|
  {
    seq(|root.keys|, i requires 0 <= i < |root.keys| => RingKeyOf(root.keys[i]))
  }

  function Active(algs: seq<SigAlg>, supported: set<SigAlg>): (r: seq<SigAlg>)
    ensures forall a :: a in r <==> a in algs && a in supported
  {
    if algs == [] then []
    else if algs[0] in supported then [algs[0]] + Active(algs[1..], supported)
    else Active(algs[1..], supported)
  }

  predicate Answers(e: SigEntry, kid: Bytes, alg: SigAlg) {
    e.keyId == kid && e.algId == AlgId(alg)
  }

  /** First entry for the pair, as the linear search finds it. */
  function Find(entries: seq<SigEntry>, kid: Bytes, alg: SigAlg): (r: Option<SigEntry>)
    ensures r.Some? ==> r.value in entries && Answers(r.value, kid, alg)
    ensures r.None? ==> forall e :: e in entries ==> !Answers(e, kid, alg)
  {
    if entries == [] then None
    else if Answers(entries[0], kid, alg) then Some(entries[0])
    else Find(entries[1..], kid, alg)
  }

  function PublicKey(k: RingKey, alg: SigAlg): Option<Bytes> {
    match alg
    case Ed25519 => k.ed25519
    case P256 => k.p256
  }

  predicate Verifies(p: Primitives, k: RingKey, alg: SigAlg, sig: Bytes, msg: Bytes) {
    PublicKey(k, alg).Some? && p.verifySig(alg, PublicKey(k, alg).value, sig, msg)
  }

  predicate Signs(p: Primitives, msg: Bytes, entries: seq<SigEntry>, k: RingKey, alg: SigAlg) {
    k.kid.Some? && var e := Find(entries, k.kid.value, alg); e.Some? && Verifies(p, k, alg, e.value.sig, msg)
  }

  predicate Fails(p: Primitives, msg: Bytes, entries: seq<SigEntry>, k: RingKey, alg: SigAlg) {
    k.kid.Some? && var e := Find(entries, k.kid.value, alg); e.Some? && !Verifies(p, k, alg, e.value.sig, msg)
  }

  ghost predicate Fatal(p: Primitives, msg: Bytes, entries: seq<SigEntry>, k: RingKey, active: seq<SigAlg>) {
    k.kid.None? || exists alg :: alg in active && Fails(p, msg, entries, k, alg)
  }

  ghost predicate Qualifies(p: Primitives, msg: Bytes, entries: seq<SigEntry>, k: RingKey, active: seq<SigAlg>) {
    forall alg :: alg in active ==> Signs(p, msg, entries, k, alg)
  }

  ghost function Qualified(p: Primitives, msg: Bytes, entries: seq<SigEntry>, ring: seq<RingKey>, active: seq<SigAlg>)
    : (r: set<int>)
  {
    set i: int | 0 <= i < |ring| && Qualifies(p, msg, entries, ring[i], active)
  }

  /** What the quorum check means, with no order of evaluation in it. */
  ghost function OutcomeOf(p: Primitives, msg: Bytes, entries: seq<SigEntry>, ring: seq<RingKey>, active: seq<SigAlg>)
    : Outcome
  {
    if active == [] then Unsupported
    else if exists i :: 0 <= i < |ring| && Fatal(p, msg, entries, ring[i], active) then Tampered
    else Qualifying(|Qualified(p, msg, entries, ring, active)|)
  }

  method CheckThreshold(p: Primitives, payload: Bytes, entries: seq<SigEntry>, pinned: TrustRoot,
                        prefix: Bytes, supported: set<SigAlg>)
    returns (r: Outcome)
    ensures r == OutcomeOf(p, prefix + payload, entries, RingOf(pinned), Active(pinned.sigalgs, supported))
  {
    r := CheckRing(p, prefix + payload, entries, RingOf(pinned), Active(pinned.sigalgs, supported));
  }

  /** The nested loops of the source, with their early exits and counters. */
  method CheckRing(p: Primitives, msg: Bytes, entries: seq<SigEntry>, ring: seq<RingKey>, active: seq<SigAlg>)
    returns (r: Outcome)
    ensures r == OutcomeOf(p, msg, entries, ring, active)
  {
    if active == [] { return Unsupported; }
    var qualifying := 0;
    for i := 0 to |ring|
      invariant forall j :: 0 <= j < i ==> !Fatal(p, msg, entries, ring[j], active)
      invariant qualifying == |Qualified(p, msg, entries, ring[..i], active)|
    {
      if ring[i].kid.None? { return Tampered; }
      var present := CheckKey(p, msg, entries, ring[i], active);
      if present.None? { return Tampered; }
      QualifiedStep(p, msg, entries, ring, active, i);
      if present.value == |active| { qualifying := qualifying + 1; }
    }
    assert ring[..|ring|] == ring;
    return Qualifying(qualifying);
  }

  /** The inner loop: None on a present entry that does not verify. */
  method CheckKey(p: Primitives, msg: Bytes, entries: seq<SigEntry>, k: RingKey, active: seq<SigAlg>)
    returns (present: Option<nat>)
    requires k.kid.Some?
    ensures present.None? <==> Fatal(p, msg, entries, k, active)
    ensures present.Some? ==> (present.value == |active| <==> Qualifies(p, msg, entries, k, active))
  {
    var count := 0;
    for i := 0 to |active|
      invariant count <= i
      invariant forall j :: 0 <= j < i ==> !Fails(p, msg, entries, k, active[j])
      invariant count == i <==> forall j :: 0 <= j < i ==> Signs(p, msg, entries, k, active[j])
    {
      var entry := Find(entries, k.kid.value, active[i]);
      if entry.None? { continue; }
      if !Verifies(p, k, active[i], entry.value.sig, msg) {
        assert Fails(p, msg, entries, k, active[i]) && active[i] in active;
        return None;
      }
      count := count + 1;
    }
    return Some(count);
  }

  lemma QualifiedStep(p: Primitives, msg: Bytes, entries: seq<SigEntry>, ring: seq<RingKey>,
                      active: seq<SigAlg>, i: nat)
    requires i < |ring|
    ensures |Qualified(p, msg, entries, ring[..i + 1], active)|
         == |Qualified(p, msg, entries, ring[..i], active)|
          + (if Qualifies(p, msg, entries, ring[i], active) then 1 else 0)
  {
    var a, b := Qualified(p, msg, entries, ring[..i], active), Qualified(p, msg, entries, ring[..i + 1], active);
    if Qualifies(p, msg, entries, ring[i], active) {
      assert b == a + {i as int};
    } else {
      assert b == a;
    }
  }

  // ---------------------------------------------------------------- what the rule guarantees

  /** On a list without duplicate pairs the search finds the entry, wherever it sits. */
  lemma FindIsMembership(entries: seq<SigEntry>, e: SigEntry, kid: Bytes, alg: SigAlg)
    requires DistinctPairs(entries)
    ensures Find(entries, kid, alg) == Some(e) <==> e in entries && Answers(e, kid, alg)
  {
    var f := Find(entries, kid, alg);
    if e in entries && Answers(e, kid, alg) {
      var i :| 0 <= i < |entries| && entries[i] == e;
      var j :| 0 <= j < |entries| && entries[j] == f.value;
      assert SamePair(entries[i], entries[j]) && SamePair(entries[j], entries[i]);
    }
  }

  /** `e` is this key's entry for `alg`, whether or not it verifies. */
  predicate EntryOf(e: SigEntry, k: TrustedKey, alg: SigAlg) {
    KeyIdBytes(k).Some? && Answers(e, KeyIdBytes(k).value, alg)
  }

  predicate GoodSignature(p: Primitives, msg: Bytes, e: SigEntry, k: TrustedKey, alg: SigAlg) {
    PublicBytes(k, alg).Some? && p.verifySig(alg, PublicBytes(k, alg).value, e.sig, msg)
  }

  /** The key has an entry under an active algorithm that does not verify. */
  ghost predicate HasForgery(p: Primitives, msg: Bytes, entries: seq<SigEntry>, k: TrustedKey, active: seq<SigAlg>) {
    exists alg, e :: alg in active && e in entries && EntryOf(e, k, alg) && !GoodSignature(p, msg, e, k, alg)
  }

  /** Every active algorithm has an entry of this key that verifies. */
  ghost predicate SignedByAll(p: Primitives, msg: Bytes, entries: seq<SigEntry>, k: TrustedKey, active: seq<SigAlg>) {
    forall alg :: alg in active ==> exists e :: e in entries && EntryOf(e, k, alg) && GoodSignature(p, msg, e, k, alg)
  }

  lemma SearchMeaning(p: Primitives, msg: Bytes, entries: seq<SigEntry>, k: TrustedKey, alg: SigAlg)
    requires DistinctPairs(entries) && KeyIdBytes(k).Some?
    ensures Fails(p, msg, entries, RingKeyOf(k), alg)
       <==> exists e :: e in entries && EntryOf(e, k, alg) && !GoodSignature(p, msg, e, k, alg)
    ensures Signs(p, msg, entries, RingKeyOf(k), alg)
       <==> exists e :: e in entries && EntryOf(e, k, alg) && GoodSignature(p, msg, e, k, alg)
  {
    forall e ensures Find(entries, KeyIdBytes(k).value, alg) == Some(e) <==> e in entries && EntryOf(e, k, alg) {
      FindIsMembership(entries, e, KeyIdBytes(k).value, alg);
    }
  }

  lemma KeyMeaning(p: Primitives, msg: Bytes, entries: seq<SigEntry>, k: TrustedKey, active: seq<SigAlg>)
    requires DistinctPairs(entries) && KeyIdBytes(k).Some?
    ensures Fatal(p, msg, entries, RingKeyOf(k), active) <==> HasForgery(p, msg, entries, k, active)
    ensures Qualifies(p, msg, entries, RingKeyOf(k), active) <==> SignedByAll(p, msg, entries, k, active)
  {
    hide Fails, Signs;
    forall alg
      ensures Fails(p, msg, entries, RingKeyOf(k), alg)
         <==> exists e :: e in entries && EntryOf(e, k, alg) && !GoodSignature(p, msg, e, k, alg)
      ensures Signs(p, msg, entries, RingKeyOf(k), alg)
         <==> exists e :: e in entries && EntryOf(e, k, alg) && GoodSignature(p, msg, e, k, alg)
    {
      SearchMeaning(p, msg, entries, k, alg);
    }
  }

  /** The declarative reading: tampered exactly when a root key has a failing entry under an
      active algorithm, and otherwise the number of keys that signed under all of them. */
  lemma ThresholdMeaning(p: Primitives, msg: Bytes, entries: seq<SigEntry>, root: TrustRoot, active: seq<SigAlg>)
    requires ValidRoot(p, root) && DistinctPairs(entries) && active != []
    ensures OutcomeOf(p, msg, entries, RingOf(root), active) ==
      if exists k :: k in root.keys && HasForgery(p, msg, entries, k, active) then Tampered
      else Qualifying(|set i: int | 0 <= i < |root.keys| && SignedByAll(p, msg, entries, root.keys[i], active)|)
  {
    var ring := RingOf(root);
    forall i | 0 <= i < |root.keys|
      ensures Fatal(p, msg, entries, ring[i], active) <==> HasForgery(p, msg, entries, root.keys[i], active)
      ensures Qualifies(p, msg, entries, ring[i], active) <==> SignedByAll(p, msg, entries, root.keys[i], active)
    {
      assert ValidKey(p, root.keys[i]);
      KeyMeaning(p, msg, entries, root.keys[i], active);
    }
    hide Fatal, Qualifies, HasForgery, SignedByAll, ValidRoot;
    assert Qualified(p, msg, entries, ring, active)
      == set i: int | 0 <= i < |root.keys| && SignedByAll(p, msg, entries, root.keys[i], active);
  }

  /** The search results for the ring's own pairs are all the outcome depends on. */
  lemma OutcomeDependsOnRing(p: Primitives, msg: Bytes, es: seq<SigEntry>, fs: seq<SigEntry>,
                             ring: seq<RingKey>, active: seq<SigAlg>)
    requires forall i, alg ::
      0 <= i < |ring| && alg in active && ring[i].kid.Some? ==>
        Find(es, ring[i].kid.value, alg) == Find(fs, ring[i].kid.value, alg)
    ensures OutcomeOf(p, msg, es, ring, active) == OutcomeOf(p, msg, fs, ring, active)
  {
    forall i | 0 <= i < |ring|
      ensures Fatal(p, msg, es, ring[i], active) <==> Fatal(p, msg, fs, ring[i], active)
      ensures Qualifies(p, msg, es, ring[i], active) <==> Qualifies(p, msg, fs, ring[i], active)
    {
      forall alg | alg in active
        ensures Fails(p, msg, es, ring[i], alg) <==> Fails(p, msg, fs, ring[i], alg)
        ensures Signs(p, msg, es, ring[i], alg) <==> Signs(p, msg, fs, ring[i], alg)
      {
        if ring[i].kid.Some? {
          assert Find(es, ring[i].kid.value, alg) == Find(fs, ring[i].kid.value, alg);
        }
      }
    }
    assert Qualified(p, msg, es, ring, active) == Qualified(p, msg, fs, ring, active);
  }

  lemma {:induction false} FindSkips(es: seq<SigEntry>, j: nat, kid: Bytes, alg: SigAlg)
    requires j < |es| && !Answers(es[j], kid, alg)
    ensures Find(es[..j] + es[j + 1..], kid, alg) == Find(es, kid, alg)
  {
    var without := es[..j] + es[j + 1..];
    if j == 0 {
      assert without == es[1..];
    } else {
      assert without[0] == es[0] && without[1..] == es[1..][..j - 1] + es[1..][j..];
      FindSkips(es[1..], j - 1, kid, alg);
    }
  }

  /** An entry of an outsider, or under an algorithm that is not active, changes nothing. */
  lemma ForeignIrrelevant(p: Primitives, msg: Bytes, es: seq<SigEntry>, j: nat, ring: seq<RingKey>, active: seq<SigAlg>)
    requires j < |es|
    requires (forall i :: 0 <= i < |ring| ==> ring[i].kid != Some(es[j].keyId))
          || (forall alg :: alg in active ==> es[j].algId != AlgId(alg))
    ensures OutcomeOf(p, msg, es[..j] + es[j + 1..], ring, active) == OutcomeOf(p, msg, es, ring, active)
  {
    forall i, alg | 0 <= i < |ring| && alg in active && ring[i].kid.Some?
      ensures Find(es[..j] + es[j + 1..], ring[i].kid.value, alg) == Find(es, ring[i].kid.value, alg)
    {
      FindSkips(es, j, ring[i].kid.value, alg);
    }
    OutcomeDependsOnRing(p, msg, es[..j] + es[j + 1..], es, ring, active);
  }

  /** Dropping signatures can neither turn a sound bundle into a forged one nor raise the count:
      stripping one algorithm of a signer only takes that signer away. */
  lemma DeletionNeverHelps(p: Primitives, msg: Bytes, es: seq<SigEntry>, fs: seq<SigEntry>, ring: seq<RingKey>,
                           active: seq<SigAlg>)
    requires DistinctPairs(es) && forall f :: f in fs ==> f in es
    requires OutcomeOf(p, msg, es, ring, active).Qualifying?
    ensures OutcomeOf(p, msg, fs, ring, active).Qualifying?
    ensures OutcomeOf(p, msg, fs, ring, active).count <= OutcomeOf(p, msg, es, ring, active).count
  {
    forall i, alg | 0 <= i < |ring| && alg in active
      ensures Fails(p, msg, fs, ring[i], alg) ==> Fails(p, msg, es, ring[i], alg)
      ensures Signs(p, msg, fs, ring[i], alg) ==> Signs(p, msg, es, ring[i], alg)
    {
      if ring[i].kid.Some? {
        var f := Find(fs, ring[i].kid.value, alg);
        if f.Some? { FindIsMembership(es, f.value, ring[i].kid.value, alg); }
      }
    }
    forall i | 0 <= i < |ring| ensures !Fatal(p, msg, fs, ring[i], active) {
      assert !Fatal(p, msg, es, ring[i], active);
    }
    LargerSet(Qualified(p, msg, fs, ring, active), Qualified(p, msg, es, ring, active));
  }

  lemma LargerSet<T>(a: set<T>, b: set<T>)
    requires a <= b
    ensures |a| <= |b|
  {
    assert b == a + (b - a);
  }

  lemma {:induction false} RangeCount(a: set<int>, n: nat)
    requires forall i :: i in a ==> 0 <= i < n
    ensures |a| <= n
  {
    if n > 0 {
      RangeCount(a - {n - 1}, n - 1);
      assert a <= (a - {n - 1}) + {n - 1};
      LargerSet(a, (a - {n - 1}) + {n - 1});
    } else {
      forall i ensures i !in a {}
    }
  }

  /** The entries under the identifiers of some ring keys. */
  ghost function EntriesOf(es: seq<SigEntry>, ring: seq<RingKey>): set<SigEntry> {
    set e | e in es && exists k :: k in ring && k.kid == Some(e.keyId)
  }

  ghost predicate DistinctIds(ring: seq<RingKey>) {
    forall i, j :: 0 <= i < j < |ring| ==> ring[i].kid.None? || ring[i].kid != ring[j].kid
  }

  ghost function AlgsOf(active: seq<SigAlg>): set<SigAlg> { set a | a in active }

  /** A key that qualifies has an entry of its own for every active algorithm. */
  lemma OwnEntries(p: Primitives, msg: Bytes, es: seq<SigEntry>, k: RingKey, active: seq<SigAlg>)
    requires Qualifies(p, msg, es, k, active)
    ensures |EntriesOf(es, [k])| >= |AlgsOf(active)|
  {
    var mine := EntriesOf(es, [k]);
    forall alg | alg in active ensures k.kid.Some? && exists e :: e in mine && e.algId == AlgId(alg) {
      assert Signs(p, msg, es, k, alg);
      var e := Find(es, k.kid.value, alg).value;
      assert k in [k] && e in mine && e.algId == AlgId(alg);
    }
    hide Qualifies, EntriesOf;
    if Ed25519 in active && P256 in active {
      var a :| a in mine && a.algId == AlgId(Ed25519);
      var b :| b in mine && b.algId == AlgId(P256);
      assert {a, b} <= mine && |{a, b}| == 2;
      LargerSet({a, b}, mine);
      assert AlgsOf(active) == {Ed25519, P256};
    } else if Ed25519 in active {
      var a :| a in mine && a.algId == AlgId(Ed25519);
      LargerSet({a}, mine);
      assert AlgsOf(active) == {Ed25519};
    } else if P256 in active {
      var b :| b in mine && b.algId == AlgId(P256);
      LargerSet({b}, mine);
      assert AlgsOf(active) == {P256};
    } else {
      assert AlgsOf(active) == {};
    }
  }

  lemma EntriesSplit(es: seq<SigEntry>, ring: seq<RingKey>, i: nat)
    requires DistinctIds(ring) && i < |ring|
    ensures EntriesOf(es, ring[..i + 1]) == EntriesOf(es, ring[..i]) + EntriesOf(es, [ring[i]])
    ensures EntriesOf(es, ring[..i]) !! EntriesOf(es, [ring[i]])
  {
    assert ring[..i + 1] == ring[..i] + [ring[i]];
    forall e | e in EntriesOf(es, ring[..i]) ensures e !in EntriesOf(es, [ring[i]]) {
      var k :| k in ring[..i] && k.kid == Some(e.keyId);
      var j :| 0 <= j < i && ring[j] == k;
    }
  }

  lemma {:induction false} EntriesNeeded(p: Primitives, msg: Bytes, es: seq<SigEntry>, ring: seq<RingKey>,
                                         active: seq<SigAlg>, n: nat)
    requires DistinctIds(ring) && n <= |ring|
    ensures |EntriesOf(es, ring[..n])| >= |Qualified(p, msg, es, ring[..n], active)| * |AlgsOf(active)|
  {
    hide *;
    if n == 0 {
      NoneQualified(p, msg, es, active);
      assert ring[..0] == [];
    } else {
      EntriesNeeded(p, msg, es, ring, active, n - 1);
      QualifiedStep(p, msg, es, ring, active, n - 1);
      EntriesSplit(es, ring, n - 1);
      if Qualifies(p, msg, es, ring[n - 1], active) { OwnEntries(p, msg, es, ring[n - 1], active); }
      OneMore(|Qualified(p, msg, es, ring[..n - 1], active)|, |AlgsOf(active)|);
    }
  }

  lemma NoneQualified(p: Primitives, msg: Bytes, es: seq<SigEntry>, active: seq<SigAlg>)
    ensures |Qualified(p, msg, es, [], active)| == 0
  {
    assert Qualified(p, msg, es, [], active) == {};
  }

  lemma OneMore(q: nat, n: nat)
    ensures (q + 1) * n == q * n + n
  {
  }

  lemma {:induction false} MembersCount(es: seq<SigEntry>, a: set<SigEntry>)
    requires forall e :: e in a ==> e in es
    ensures |a| <= |es|
  {
    if es == [] {
      assert a == {};
    } else {
      var n := |es| - 1;
      assert es == es[..n] + [es[n]];
      MembersCount(es[..n], a - {es[n]});
      assert a <= (a - {es[n]}) + {es[n]};
      LargerSet(a, (a - {es[n]}) + {es[n]});
    }
  }

  /** A key counts once, and only by entries of its own: the count is no more than the ring has keys,
      and reaching it takes that many entries for each active algorithm. */
  lemma CountIsBounded(p: Primitives, msg: Bytes, es: seq<SigEntry>, ring: seq<RingKey>, active: seq<SigAlg>)
    requires OutcomeOf(p, msg, es, ring, active).Qualifying?
    ensures OutcomeOf(p, msg, es, ring, active).count <= |ring|
    ensures DistinctIds(ring) ==> OutcomeOf(p, msg, es, ring, active).count * |AlgsOf(active)| <= |es|
  {
    RangeCount(Qualified(p, msg, es, ring, active), |ring|);
    if DistinctIds(ring) {
      assert ring[..|ring|] == ring;
      EntriesNeeded(p, msg, es, ring, active, |ring|);
      MembersCount(es, EntriesOf(es, ring));
    }
  }
}
