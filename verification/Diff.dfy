/** Comparing two snapshots of one deployment (src/auditor.rs, diff). */
module SnapshotDiff {
  import opened Prelude

  const MANIFEST_FILE: Bytes := [0x76, 0x65, 0x69, 0x6C, 0x2D, 0x67, 0x75, 0x61, 0x72, 0x64, 0x2D, 0x6D, 0x61, 0x6E, 0x69, 0x66,
                                 0x65, 0x73, 0x74, 0x2E, 0x6A, 0x73, 0x6F, 0x6E]
  const MANIFEST: Bytes := [0x6D, 0x61, 0x6E, 0x69, 0x66, 0x65, 0x73, 0x74]

  // ---------------------------------------------------------------- ordered maps

  /** Every key comes after `k`. */
  ghost predicate After<V>(m: seq<(Bytes, V)>, k: Bytes) {
    forall i :: 0 <= i < |m| ==> Compare(k, m[i].0) < 0
  }

  /** Keys strictly ascending in byte order. */
  ghost predicate Ordered<V>(m: seq<(Bytes, V)>) {
    m == [] || (After(m[1..], m[0].0) && Ordered(m[1..]))
  }

  /** A `BTreeMap` as the entries its iteration yields. */
  type BTreeMap<V> = m: seq<(Bytes, V)> | Ordered(m) ghost witness []

  function Get<V>(m: seq<(Bytes, V)>, k: Bytes): Option<V> {
    if m == [] then None else if m[0].0 == k then Some(m[0].1) else Get(m[1..], k)
  }

  function Put<V>(m: seq<(Bytes, V)>, k: Bytes, v: V): seq<(Bytes, V)> {
    if m == [] then [(k, v)]
    else if m[0].0 == k then [(k, v)] + m[1..]
    else if Compare(k, m[0].0) < 0 then [(k, v)] + m
    else [m[0]] + Put(m[1..], k, v)
  }

  lemma {:induction false} PutThenGet<V>(m: seq<(Bytes, V)>, k: Bytes, v: V, q: Bytes)
    ensures Get(Put(m, k, v), q) == if q == k then Some(v) else Get(m, q)
  {
    if m != [] {
      if m[0].0 == k {
        assert ([(k, v)] + m[1..])[1..] == m[1..];
      } else if Compare(k, m[0].0) < 0 {
        assert ([(k, v)] + m)[1..] == m;
      } else {
        PutThenGet(m[1..], k, v, q);
        assert ([m[0]] + Put(m[1..], k, v))[1..] == Put(m[1..], k, v);
      }
    }
  }

  lemma {:induction false} GetIsEntry<V>(m: seq<(Bytes, V)>, k: Bytes)
    ensures Get(m, k).Some? ==> exists i :: 0 <= i < |m| && m[i] == (k, Get(m, k).value)
    ensures Get(m, k).None? ==> forall i :: 0 <= i < |m| ==> m[i].0 != k
  {
    if m != [] && m[0].0 != k {
      GetIsEntry(m[1..], k);
      if Get(m, k).Some? {
        var i :| 0 <= i < |m[1..]| && m[1..][i] == (k, Get(m, k).value);
        assert m[i + 1] == (k, Get(m, k).value);
      }
      forall i | 0 <= i < |m| && Get(m, k).None? ensures m[i].0 != k {
        if i > 0 { assert m[i] == m[1..][i - 1]; }
      }
    }
  }

  /** In an ordered map every entry is found under its key. */
  lemma {:induction false} EntryIsGot<V>(m: seq<(Bytes, V)>, i: nat)
    requires Ordered(m) && i < |m|
    ensures Get(m, m[i].0) == Some(m[i].1)
  {
    if i > 0 {
      assert m[i] == m[1..][i - 1];
      CompareEqual(m[0].0, m[i].0);
      EntryIsGot(m[1..], i - 1);
    }
  }

  lemma {:induction false} PutAfter<V>(m: seq<(Bytes, V)>, k: Bytes, v: V, q: Bytes)
    requires After(m, q) && Compare(q, k) < 0
    ensures After(Put(m, k, v), q)
  {
    if m != [] {
      assert After(m[1..], q);
      PutAfter(m[1..], k, v, q);
    }
  }

  lemma AfterEarlier<V>(m: seq<(Bytes, V)>, k: Bytes, q: Bytes)
    requires After(m, k) && Compare(q, k) < 0
    ensures After(m, q)
  {
    forall i | 0 <= i < |m| ensures Compare(q, m[i].0) < 0 { CompareTransitive(q, k, m[i].0); }
  }

  lemma {:induction false} PutKeepsOrder<V>(m: seq<(Bytes, V)>, k: Bytes, v: V)
    requires Ordered(m)
    ensures Ordered(Put(m, k, v))
  {
    if m != [] {
      CompareEqual(k, m[0].0);
      CompareReverse(k, m[0].0);
      if m[0].0 == k {
        assert ([(k, v)] + m[1..])[1..] == m[1..];
      } else if Compare(k, m[0].0) < 0 {
        AfterEarlier(m[1..], m[0].0, k);
        assert ([(k, v)] + m)[1..] == m;
      } else {
        PutKeepsOrder(m[1..], k, v);
        PutAfter(m[1..], k, v, m[0].0);
        assert ([m[0]] + Put(m[1..], k, v))[1..] == Put(m[1..], k, v);
      }
    }
  }

  // ---------------------------------------------------------------- snapshots

  datatype Observed = Observed(httpStatus: nat, sha256: Option<Bytes>)

  datatype Finding = Finding(kind: Bytes, subject: Bytes, detail: Bytes)

  datatype Snapshot = Snapshot(
    manifestSha256: Option<Bytes>, manifestState: Bytes, findings: seq<Finding>, observed: BTreeMap<Observed>)

  datatype DivergenceKind =
    | ManifestDiffers | StateDiffers
    | FindingOnlyInLeft(kind: Bytes) | FindingOnlyInRight(kind: Bytes)
    | ContentDiffers | OnlyInLeft | OnlyInRight

  /** What one side shows. */
  datatype Side = Value(text: Bytes) | Absent | HttpStatus(code: nat) | NotObserved

  datatype Divergence = Divergence(kind: DivergenceKind, subject: Bytes, left: Side, right: Side)

  /** Kind and subject joined by a NUL. */
  function Joined(kind: Bytes, subject: Bytes): Bytes { kind + [0] + subject }

  function Key(f: Finding): Bytes { Joined(f.kind, f.subject) }

  /** The findings collected into a map: a later duplicate replaces an earlier one. */
  function ByKey(findings: seq<Finding>): seq<(Bytes, Finding)> {
    if findings == [] then []
    else
      var f := findings[|findings| - 1];
      Put(ByKey(findings[..|findings| - 1]), Key(f), f)
  }

  function ShownManifest(m: Option<Bytes>): Side { if m.Some? then Value(m.value) else Absent }

  function Shown(o: Observed): Side { if o.sha256.Some? then Value(o.sha256.value) else HttpStatus(o.httpStatus) }

  function ManifestPart(l: Snapshot, r: Snapshot): seq<Divergence> {
    (if l.manifestSha256 != r.manifestSha256
     then [Divergence(ManifestDiffers, MANIFEST_FILE, ShownManifest(l.manifestSha256), ShownManifest(r.manifestSha256))]
     else [])
    + (if l.manifestState != r.manifestState
       then [Divergence(StateDiffers, MANIFEST, Value(l.manifestState), Value(r.manifestState))]
       else [])
  }

  /** The findings of `mine` that `other` has not got. */
  function LeftOnly(mine: seq<(Bytes, Finding)>, other: seq<(Bytes, Finding)>): seq<Divergence> {
    if mine == [] then []
    else
      var n := |mine| - 1;
      var (k, f) := mine[n];
      LeftOnly(mine[..n], other)
      + (if Get(other, k).None? then [Divergence(FindingOnlyInLeft(f.kind), f.subject, Value(f.detail), NotObserved)] else [])
  }

  function RightOnly(mine: seq<(Bytes, Finding)>, other: seq<(Bytes, Finding)>): seq<Divergence> {
    if mine == [] then []
    else
      var n := |mine| - 1;
      var (k, f) := mine[n];
      RightOnly(mine[..n], other)
      + (if Get(other, k).None? then [Divergence(FindingOnlyInRight(f.kind), f.subject, NotObserved, Value(f.detail))] else [])
  }

  /** The `match` on what both sides observed at one path. */
  function ContentAt(path: Bytes, a: Option<Observed>, b: Option<Observed>): seq<Divergence> {
    match (a, b)
    case (Some(x), Some(y)) =>
      if x.sha256 != y.sha256 then [Divergence(ContentDiffers, path, Shown(x), Shown(y))] else []
    case (Some(x), None) => [Divergence(OnlyInLeft, path, Shown(x), NotObserved)]
    case (None, Some(y)) => [Divergence(OnlyInRight, path, NotObserved, Shown(y))]
    case (None, None) => []
  }

  function ContentPart(l: seq<(Bytes, Observed)>, r: seq<(Bytes, Observed)>, paths: seq<Bytes>): seq<Divergence> {
    if paths == [] then []
    else
      var path := paths[|paths| - 1];
      ContentPart(l, r, paths[..|paths| - 1]) + ContentAt(path, Get(l, path), Get(r, path))
  }

  function Keys<V>(m: seq<(Bytes, V)>): (r: seq<Bytes>)
    ensures |r| == |m|
  {
    seq(|m|, i requires 0 <= i < |m| => m[i].0)
  }

  // ---------------------------------------------------------------- sort and dedup

  function Place(k: Bytes, keys: seq<Bytes>): (r: seq<Bytes>)
    ensures forall x :: x in r <==> x == k || x in keys
  {
    if keys == [] || Compare(k, keys[0]) <= 0 then [k] + keys
    else
      assert keys == [keys[0]] + keys[1..];
      [keys[0]] + Place(k, keys[1..])
  }

  function Sort(keys: seq<Bytes>): (r: seq<Bytes>)
    ensures forall x :: x in r <==> x in keys
  {
    if keys == [] then []
    else
      assert keys == [keys[0]] + keys[1..];
      Place(keys[0], Sort(keys[1..]))
  }

  /** `dedup`: consecutive duplicates removed. */
  function Dedup(keys: seq<Bytes>): (r: seq<Bytes>)
    ensures forall x :: x in r <==> x in keys
    ensures keys != [] ==> r != [] && r[0] == keys[0]
  {
    if |keys| < 2 then keys
    else
      assert keys == [keys[0]] + keys[1..];
      if keys[0] == keys[1] then Dedup(keys[1..]) else [keys[0]] + Dedup(keys[1..])
  }

  /** No key before its predecessor; for `strict`, none equal to it either. */
  predicate Climbs(keys: seq<Bytes>, strict: bool) {
    |keys| < 2 || (Compare(keys[0], keys[1]) <= (if strict then -1 else 0) && Climbs(keys[1..], strict))
  }

  lemma {:induction false} PlaceClimbs(k: Bytes, keys: seq<Bytes>)
    requires Climbs(keys, false)
    ensures Climbs(Place(k, keys), false)
  {
    var r := Place(k, keys);
    if keys == [] || Compare(k, keys[0]) <= 0 {
      assert r[1..] == keys;
    } else {
      CompareReverse(k, keys[0]);
      PlaceClimbs(k, keys[1..]);
      assert r[1..] == Place(k, keys[1..]);
    }
  }

  lemma {:induction false} SortClimbs(keys: seq<Bytes>)
    ensures Climbs(Sort(keys), false)
  {
    if keys != [] {
      SortClimbs(keys[1..]);
      PlaceClimbs(keys[0], Sort(keys[1..]));
    }
  }

  lemma {:induction false} DedupClimbs(keys: seq<Bytes>)
    requires Climbs(keys, false)
    ensures Climbs(Dedup(keys), true)
  {
    if |keys| >= 2 {
      DedupClimbs(keys[1..]);
      CompareEqual(keys[0], keys[1]);
      var rest := Dedup(keys[1..]);
      assert ([keys[0]] + rest)[1..] == rest;
    }
  }

  lemma {:induction false} ClimbsApart(keys: seq<Bytes>, i: nat)
    requires Climbs(keys, true) && 0 < i < |keys|
    ensures Compare(keys[0], keys[i]) < 0
  {
    if i > 1 {
      ClimbsApart(keys[1..], i - 1);
      CompareTransitive(keys[0], keys[1], keys[i]);
    }
  }

  /** A strictly climbing list is determined by its members. */
  lemma {:induction false} ClimbsUnique(a: seq<Bytes>, b: seq<Bytes>)
    requires Climbs(a, true) && Climbs(b, true) && forall x :: x in a <==> x in b
    ensures a == b
  {
    if b != [] { assert b[0] in b; }
    if a != [] {
      assert a[0] in a && b != [];
      LeastIsLeast(a, b[0]);
      LeastIsLeast(b, a[0]);
      CompareReverse(a[0], b[0]);
      CompareEqual(a[0], b[0]);
      forall x ensures x in a[1..] <==> x in b[1..] {
        TailHas(a, x);
        TailHas(b, x);
      }
      ClimbsUnique(a[1..], b[1..]);
      assert a == [a[0]] + a[1..] && b == [b[0]] + b[1..];
    }
  }

  lemma LeastIsLeast(keys: seq<Bytes>, x: Bytes)
    requires Climbs(keys, true) && x in keys
    ensures Compare(keys[0], x) <= 0
  {
    var i :| 0 <= i < |keys| && keys[i] == x;
    if i > 0 { ClimbsApart(keys, i); } else { CompareEqual(x, x); }
  }

  lemma TailHas(keys: seq<Bytes>, x: Bytes)
    requires Climbs(keys, true) && keys != []
    ensures x in keys[1..] <==> x in keys && x != keys[0]
  {
    assert keys == [keys[0]] + keys[1..];
    if x in keys[1..] {
      var i :| 0 <= i < |keys[1..]| && keys[1..][i] == x;
      ClimbsApart(keys, i + 1);
      CompareEqual(keys[0], x);
    }
  }

  /** The paths either side observed, each once, in order. */
  function Paths(l: seq<(Bytes, Observed)>, r: seq<(Bytes, Observed)>): seq<Bytes> {
    Dedup(Sort(Keys(l) + Keys(r)))
  }

  function Divergences(l: Snapshot, r: Snapshot): seq<Divergence> {
    ManifestPart(l, r)
    + LeftOnly(ByKey(l.findings), ByKey(r.findings))
    + RightOnly(ByKey(r.findings), ByKey(l.findings))
    + ContentPart(l.observed, r.observed, Paths(l.observed, r.observed))
  }

  // ---------------------------------------------------------------- the comparison

  method Collect(findings: seq<Finding>) returns (m: seq<(Bytes, Finding)>)
    ensures m == ByKey(findings)
  {
    m := [];
    for i := 0 to |findings|
      invariant m == ByKey(findings[..i])
    {
      m := Put(m, Key(findings[i]), findings[i]);
      assert findings[..i + 1][..i] == findings[..i];
    }
    assert findings[..|findings|] == findings;
  }

  method Diff(left: Snapshot, right: Snapshot) returns (out: seq<Divergence>)
    ensures out == Divergences(left, right)
  {
    out := [];
    if left.manifestSha256 != right.manifestSha256 {
      out := out + [Divergence(ManifestDiffers, MANIFEST_FILE, ShownManifest(left.manifestSha256), ShownManifest(right.manifestSha256))];
    }
    if left.manifestState != right.manifestState {
      out := out + [Divergence(StateDiffers, MANIFEST, Value(left.manifestState), Value(right.manifestState))];
    }
    assert out == ManifestPart(left, right);
    out := DiffFindings(left, right, out);
    var keys := Dedup(Sort(Keys(left.observed) + Keys(right.observed)));
    assert keys == Paths(left.observed, right.observed);
    hide *;
    out := DiffContent(left, right, keys, out);
    DivergencesIs(left, right);
  }

  lemma DivergencesIs(l: Snapshot, r: Snapshot)
    ensures Divergences(l, r) ==
      ManifestPart(l, r)
      + LeftOnly(ByKey(l.findings), ByKey(r.findings))
      + RightOnly(ByKey(r.findings), ByKey(l.findings))
      + ContentPart(l.observed, r.observed, Paths(l.observed, r.observed))
  {
  }

  method DiffFindings(left: Snapshot, right: Snapshot, before: seq<Divergence>) returns (out: seq<Divergence>)
    ensures out == before
      + LeftOnly(ByKey(left.findings), ByKey(right.findings))
      + RightOnly(ByKey(right.findings), ByKey(left.findings))
  {
    hide ByKey, Get;
    var lefts := Collect(left.findings);
    var rights := Collect(right.findings);
    out := before;
    for i := 0 to |lefts|
      invariant out == before + LeftOnly(lefts[..i], rights)
    {
      var (k, f) := lefts[i];
      if Get(rights, k).None? {
        out := out + [Divergence(FindingOnlyInLeft(f.kind), f.subject, Value(f.detail), NotObserved)];
      }
      assert lefts[..i + 1][..i] == lefts[..i];
    }
    assert lefts[..|lefts|] == lefts;
    ghost var half := out;
    for i := 0 to |rights|
      invariant out == half + RightOnly(rights[..i], lefts)
    {
      var (k, f) := rights[i];
      if Get(lefts, k).None? {
        out := out + [Divergence(FindingOnlyInRight(f.kind), f.subject, NotObserved, Value(f.detail))];
      }
      assert rights[..i + 1][..i] == rights[..i];
    }
    assert rights[..|rights|] == rights;
  }

  method DiffContent(left: Snapshot, right: Snapshot, keys: seq<Bytes>,
                     before: seq<Divergence>) returns (out: seq<Divergence>)
    ensures out == before + ContentPart(left.observed, right.observed, keys)
  {
    hide Get;
    out := before;
    for i := 0 to |keys|
      invariant out == before + ContentPart(left.observed, right.observed, keys[..i])
    {
      var key := keys[i];
      ghost var was := out;
      match (Get(left.observed, key), Get(right.observed, key)) {
        case (Some(a), Some(b)) =>
          if a.sha256 != b.sha256 { out := out + [Divergence(ContentDiffers, key, Shown(a), Shown(b))]; }
        case (Some(a), None) => out := out + [Divergence(OnlyInLeft, key, Shown(a), NotObserved)];
        case (None, Some(b)) => out := out + [Divergence(OnlyInRight, key, NotObserved, Shown(b))];
        case (None, None) =>
      }
      assert out == was + ContentAt(key, Get(left.observed, key), Get(right.observed, key));
      assert keys[..i + 1][..i] == keys[..i];
    }
    assert keys[..|keys|] == keys;
  }

  // ---------------------------------------------------------------- what an empty comparison means

  predicate HasKey(findings: seq<Finding>, k: Bytes) { exists f :: f in findings && Key(f) == k }

  /** The last finding under a key. */
  function LastWith(findings: seq<Finding>, k: Bytes): (r: Option<Finding>)
    ensures r.Some? <==> HasKey(findings, k)
    ensures r.Some? ==> Key(r.value) == k
  {
    if findings == [] then None
    else
      var n := |findings| - 1;
      assert findings == findings[..n] + [findings[n]];
      if Key(findings[n]) == k then Some(findings[n]) else LastWith(findings[..n], k)
  }

  /** The map has exactly the keys of the findings, and under each of them the last such finding. */
  lemma {:induction false} ByKeyMeans(findings: seq<Finding>, k: Bytes)
    ensures Get(ByKey(findings), k) == LastWith(findings, k)
    ensures Ordered(ByKey(findings))
  {
    if findings != [] {
      var n := |findings| - 1;
      var f, m := findings[n], ByKey(findings[..n]);
      ByKeyMeans(findings[..n], k);
      hide Get, Put, Key, Ordered, HasKey;
      PutThenGet(m, Key(f), f, k);
      PutKeepsOrder(m, Key(f), f);
    }
  }

  lemma {:induction false} LeftOnlyEmpty(mine: seq<(Bytes, Finding)>, other: seq<(Bytes, Finding)>)
    ensures LeftOnly(mine, other) == [] <==> forall i :: 0 <= i < |mine| ==> Get(other, mine[i].0).Some?
  {
    hide Get;
    if mine != [] {
      LeftOnlyEmpty(mine[..|mine| - 1], other);
      assert forall i :: 0 <= i < |mine| - 1 ==> mine[..|mine| - 1][i] == mine[i];
    }
  }

  lemma {:induction false} RightOnlyEmpty(mine: seq<(Bytes, Finding)>, other: seq<(Bytes, Finding)>)
    ensures RightOnly(mine, other) == [] <==> forall i :: 0 <= i < |mine| ==> Get(other, mine[i].0).Some?
  {
    hide Get;
    if mine != [] {
      RightOnlyEmpty(mine[..|mine| - 1], other);
      assert forall i :: 0 <= i < |mine| - 1 ==> mine[..|mine| - 1][i] == mine[i];
    }
  }

  /** All keys of one map are in the other, entry by entry or key by key. */
  lemma KeysWithin(findings: seq<Finding>, other: seq<Finding>)
    ensures (forall i :: 0 <= i < |ByKey(findings)| ==> Get(ByKey(other), ByKey(findings)[i].0).Some?)
      <==> forall k :: HasKey(findings, k) ==> HasKey(other, k)
  {
    var m, o := ByKey(findings), ByKey(other);
    hide ByKey, HasKey, Ordered;
    if forall i :: 0 <= i < |m| ==> Get(o, m[i].0).Some? {
      forall k | HasKey(findings, k) ensures HasKey(other, k) {
        ByKeyMeans(findings, k);
        GetIsEntry(m, k);
        ByKeyMeans(other, k);
      }
    }
    if forall k :: HasKey(findings, k) ==> HasKey(other, k) {
      forall i | 0 <= i < |m| ensures Get(o, m[i].0).Some? {
        ByKeyMeans(findings, m[i].0);
        EntryIsGot(m, i);
        ByKeyMeans(other, m[i].0);
      }
    }
  }

  lemma {:induction false} ContentPartEmpty(l: seq<(Bytes, Observed)>, r: seq<(Bytes, Observed)>, paths: seq<Bytes>)
    ensures ContentPart(l, r, paths) == [] <==> forall p :: p in paths ==> ContentAt(p, Get(l, p), Get(r, p)) == []
  {
    hide Get, ContentAt;
    if paths != [] {
      var n := |paths| - 1;
      ContentPartEmpty(l, r, paths[..n]);
      assert paths == paths[..n] + [paths[n]];
      var last := ContentAt(paths[n], Get(l, paths[n]), Get(r, paths[n]));
      assert ContentPart(l, r, paths) == ContentPart(l, r, paths[..n]) + last;
      if ContentPart(l, r, paths) == [] {
        assert |ContentPart(l, r, paths[..n])| + |last| == 0;
      }
      if forall p :: p in paths ==> ContentAt(p, Get(l, p), Get(r, p)) == [] {
        assert paths[n] in paths && last == [];
      }
    }
  }

  /** The digest a side observed at a path, if it observed the path. */
  function DigestAt(m: seq<(Bytes, Observed)>, p: Bytes): Option<Option<Bytes>> {
    if Get(m, p).Some? then Some(Get(m, p).value.sha256) else None
  }

  lemma KeysAreMembers<V>(m: seq<(Bytes, V)>, k: Bytes)
    ensures k in Keys(m) <==> Get(m, k).Some?
  {
    GetIsEntry(m, k);
    if Get(m, k).Some? {
      var i :| 0 <= i < |m| && m[i] == (k, Get(m, k).value);
      assert Keys(m)[i] == k;
    }
  }

  lemma PathsAre(l: seq<(Bytes, Observed)>, r: seq<(Bytes, Observed)>)
    ensures forall p :: p in Paths(l, r) <==> Get(l, p).Some? || Get(r, p).Some?
  {
    hide Get;
    forall p ensures p in Paths(l, r) <==> Get(l, p).Some? || Get(r, p).Some? {
      KeysAreMembers(l, p);
      KeysAreMembers(r, p);
    }
  }

  /** Both snapshots show the same manifest, state, set of finding keys, and digest at every path. */
  ghost predicate Agree(l: Snapshot, r: Snapshot) {
    && l.manifestSha256 == r.manifestSha256
    && l.manifestState == r.manifestState
    && (forall k :: HasKey(l.findings, k) <==> HasKey(r.findings, k))
    && (forall p :: DigestAt(l.observed, p) == DigestAt(r.observed, p))
  }

  /** The comparison is silent exactly when the snapshots agree: on the manifest, its state, which
      findings there are, which paths were observed and with which digest - a difference in HTTP
      status alone, or in the detail of a finding, is no divergence. */
  lemma SilentIffAgree(l: Snapshot, r: Snapshot)
    ensures Divergences(l, r) == [] <==> Agree(l, r)
  {
    hide *;
    DivergencesIs(l, r);
    ManifestPartEmpty(l, r);
    LeftOnlyEmpty(ByKey(l.findings), ByKey(r.findings));
    RightOnlyEmpty(ByKey(r.findings), ByKey(l.findings));
    KeysWithin(l.findings, r.findings);
    KeysWithin(r.findings, l.findings);
    ContentAgrees(l.observed, r.observed);
    AgreeIs(l, r);
  }

  lemma ManifestPartEmpty(l: Snapshot, r: Snapshot)
    ensures ManifestPart(l, r) == [] <==> l.manifestSha256 == r.manifestSha256 && l.manifestState == r.manifestState
  {
  }

  lemma AgreeIs(l: Snapshot, r: Snapshot)
    ensures Agree(l, r) <==>
      && l.manifestSha256 == r.manifestSha256 && l.manifestState == r.manifestState
      && (forall k :: HasKey(l.findings, k) ==> HasKey(r.findings, k))
      && (forall k :: HasKey(r.findings, k) ==> HasKey(l.findings, k))
      && (forall p :: DigestAt(l.observed, p) == DigestAt(r.observed, p))
  {
    hide HasKey, DigestAt;
  }

  lemma ContentAgrees(l: seq<(Bytes, Observed)>, r: seq<(Bytes, Observed)>)
    ensures ContentPart(l, r, Paths(l, r)) == [] <==> forall p :: DigestAt(l, p) == DigestAt(r, p)
  {
    hide Get, Paths, ContentPart;
    ContentPartEmpty(l, r, Paths(l, r));
    PathsAre(l, r);
    assert forall p :: ContentAt(p, Get(l, p), Get(r, p)) == [] <==> DigestAt(l, p) == DigestAt(r, p);
  }

  // ---------------------------------------------------------------- findings as pairs

  predicate HasPair(findings: seq<Finding>, kind: Bytes, subject: Bytes) {
    exists f :: f in findings && f.kind == kind && f.subject == subject
  }

  ghost predicate KeysAgree(l: seq<Finding>, r: seq<Finding>) {
    forall k :: HasKey(l, k) <==> HasKey(r, k)
  }

  /** The same kinds of findings about the same subjects. */
  ghost predicate PairsAgree(l: seq<Finding>, r: seq<Finding>) {
    forall kind, subject :: HasPair(l, kind, subject) <==> HasPair(r, kind, subject)
  }

  /** One kind is the other with a NUL, and perhaps more, behind it. */
  predicate Extends(a: Bytes, b: Bytes) { a + [0] <= b }

  lemma ExtensionCollides(a: Bytes, b: Bytes, subject: Bytes)
    requires Extends(a, b)
    ensures Joined(a, b[|a| + 1..] + [0] + subject) == Joined(b, subject)
  {
    assert b == a + [0] + b[|a| + 1..];
  }

  lemma CollisionExtends(a: Bytes, b: Bytes, s: Bytes, t: Bytes)
    requires |a| <= |b| && Joined(a, s) == Joined(b, t)
    ensures a == b || Extends(a, b)
    ensures a == b ==> s == t
  {
    var j := Joined(a, s);
    assert a == j[..|a|] && b == j[..|b|] && s == j[|a| + 1..] && t == j[|b| + 1..];
    if |a| < |b| {
      assert a + [0] == j[..|a| + 1] == b[..|a| + 1];
    }
  }

  /** Two different kinds can be confused - there are subjects under which their keys are one - exactly
      if one extends the other by a NUL. */
  lemma KindsCollide(a: Bytes, b: Bytes)
    requires a != b
    ensures (exists s, t :: Joined(a, s) == Joined(b, t)) <==> Extends(a, b) || Extends(b, a)
  {
    if s, t :| Joined(a, s) == Joined(b, t) {
      if |a| <= |b| { CollisionExtends(a, b, s, t); } else { CollisionExtends(b, a, t, s); }
    }
    if Extends(a, b) {
      ExtensionCollides(a, b, []);
      assert Joined(a, b[|a| + 1..] + [0] + []) == Joined(b, []);
    }
    if Extends(b, a) {
      ExtensionCollides(b, a, []);
      assert Joined(a, []) == Joined(b, a[|b| + 1..] + [0] + []);
    }
  }

  ghost predicate KindsApart(kinds: set<Bytes>) {
    forall a, b :: a in kinds && b in kinds ==> !Extends(a, b)
  }

  ghost predicate KindsWithin(findings: seq<Finding>, kinds: set<Bytes>) {
    forall f :: f in findings ==> f.kind in kinds
  }

  /** With kinds apart, a key stands for one kind and one subject. */
  lemma KeyIsPair(findings: seq<Finding>, kinds: set<Bytes>, kind: Bytes, subject: Bytes)
    requires KindsApart(kinds) && KindsWithin(findings, kinds) && kind in kinds
    ensures HasKey(findings, Joined(kind, subject)) <==> HasPair(findings, kind, subject)
  {
    if HasKey(findings, Joined(kind, subject)) {
      var f :| f in findings && Key(f) == Joined(kind, subject);
      if |f.kind| <= |kind| {
        CollisionExtends(f.kind, kind, f.subject, subject);
      } else {
        CollisionExtends(kind, f.kind, subject, f.subject);
      }
      assert f.kind in kinds;
    }
    if f :| f in findings && f.kind == kind && f.subject == subject {
      assert Key(f) == Joined(kind, subject);
    }
  }

  lemma KeysThenPairs(l: seq<Finding>, r: seq<Finding>, kinds: set<Bytes>)
    requires KindsApart(kinds) && KindsWithin(l, kinds) && KindsWithin(r, kinds) && KeysAgree(l, r)
    ensures PairsAgree(l, r)
  {
    forall kind, subject ensures HasPair(l, kind, subject) <==> HasPair(r, kind, subject) {
      if kind in kinds {
        KeyIsPair(l, kinds, kind, subject);
        KeyIsPair(r, kinds, kind, subject);
      }
    }
  }

  lemma PairsThenKeys(l: seq<Finding>, r: seq<Finding>)
    requires PairsAgree(l, r)
    ensures KeysAgree(l, r)
  {
    forall k ensures HasKey(l, k) <==> HasKey(r, k) {
      if HasKey(l, k) { HasKeyByPair(l, r, k); }
      if HasKey(r, k) { HasKeyByPair(r, l, k); }
    }
  }

  lemma HasKeyByPair(l: seq<Finding>, r: seq<Finding>, k: Bytes)
    requires PairsAgree(l, r) && HasKey(l, k)
    ensures HasKey(r, k)
  {
    var f :| f in l && Key(f) == k;
    assert HasPair(l, f.kind, f.subject);
    var g :| g in r && g.kind == f.kind && g.subject == f.subject;
    assert Key(g) == k;
  }

  /** For findings of given kinds, keys tell what pairs tell - whatever the findings - exactly if no kind
      extends another by a NUL. */
  lemma KeysTellPairs(kinds: set<Bytes>)
    ensures (forall l, r :: KindsWithin(l, kinds) && KindsWithin(r, kinds) && KeysAgree(l, r) ==> PairsAgree(l, r))
      <==> KindsApart(kinds)
  {
    if KindsApart(kinds) {
      forall l, r | KindsWithin(l, kinds) && KindsWithin(r, kinds) && KeysAgree(l, r) ensures PairsAgree(l, r) {
        KeysThenPairs(l, r, kinds);
      }
    } else {
      var a, b :| a in kinds && b in kinds && Extends(a, b);
      var l, r := [Finding(a, b[|a| + 1..] + [0] + [], [])], [Finding(b, [], [])];
      ExtensionCollides(a, b, []);
      OneKey(l[0]);
      OneKey(r[0]);
      assert KindsWithin(l, kinds) && KindsWithin(r, kinds) && KeysAgree(l, r);
      assert !PairsAgree(l, r) by {
        assert l[0] in l && HasPair(l, a, l[0].subject);
        assert !HasPair(r, a, l[0].subject);
      }
    }
  }

  lemma OneKey(f: Finding)
    ensures forall k :: HasKey([f], k) <==> k == Joined(f.kind, f.subject)
  {
    assert f in [f];
  }

  /** Silence, in the terms a reader of the report thinks in. */
  ghost predicate SameReport(l: Snapshot, r: Snapshot) {
    && l.manifestSha256 == r.manifestSha256
    && l.manifestState == r.manifestState
    && PairsAgree(l.findings, r.findings)
    && (forall p :: DigestAt(l.observed, p) == DigestAt(r.observed, p))
  }

  /** Snapshots with the same report are always silent; and with kinds of which none extends another by
      a NUL, silence is the same report: manifest, state, kinds and subjects of the findings, and digests
      by path. */
  lemma SilentIffSameReport(l: Snapshot, r: Snapshot, kinds: set<Bytes>)
    requires KindsWithin(l.findings, kinds) && KindsWithin(r.findings, kinds)
    ensures SameReport(l, r) ==> Divergences(l, r) == []
    ensures KindsApart(kinds) ==> (Divergences(l, r) == [] <==> SameReport(l, r))
  {
    SilentIffAgree(l, r);
    hide HasKey, HasPair, DigestAt, Divergences, KindsApart, KindsWithin;
    if PairsAgree(l.findings, r.findings) { PairsThenKeys(l.findings, r.findings); }
    if KindsApart(kinds) && KeysAgree(l.findings, r.findings) { KeysThenPairs(l.findings, r.findings, kinds); }
  }

  /** And with kinds one of which does, there are snapshots with different reports and no divergence. */
  lemma NulConfuses(kinds: set<Bytes>) returns (l: Snapshot, r: Snapshot)
    requires !KindsApart(kinds)
    ensures KindsWithin(l.findings, kinds) && KindsWithin(r.findings, kinds)
    ensures Divergences(l, r) == [] && !SameReport(l, r)
  {
    KeysTellPairs(kinds);
    var ls, rs :| KindsWithin(ls, kinds) && KindsWithin(rs, kinds) && KeysAgree(ls, rs) && !PairsAgree(ls, rs);
    l, r := Snapshot(None, [], ls, []), Snapshot(None, [], rs, []);
    SilentIffAgree(l, r);
    hide HasKey, HasPair, DigestAt, Divergences, KindsApart, KindsWithin;
  }

  // ---------------------------------------------------------------- swapping the sides

  function MirroredKind(k: DivergenceKind): DivergenceKind {
    match k
    case FindingOnlyInLeft(kind) => FindingOnlyInRight(kind)
    case FindingOnlyInRight(kind) => FindingOnlyInLeft(kind)
    case OnlyInLeft => OnlyInRight
    case OnlyInRight => OnlyInLeft
    case _ => k
  }

  function Mirrored(d: Divergence): Divergence { Divergence(MirroredKind(d.kind), d.subject, d.right, d.left) }

  function AllMirrored(ds: seq<Divergence>): (r: seq<Divergence>)
    ensures |r| == |ds|
  {
    if ds == [] then [] else AllMirrored(ds[..|ds| - 1]) + [Mirrored(ds[|ds| - 1])]
  }

  lemma {:induction false} MirroredJoin(a: seq<Divergence>, b: seq<Divergence>)
    ensures AllMirrored(a + b) == AllMirrored(a) + AllMirrored(b)
  {
    hide Mirrored;
    if b == [] {
      assert a + b == a;
    } else {
      var n := |b| - 1;
      MirroredJoin(a, b[..n]);
      assert (a + b)[..|a + b| - 1] == a + b[..n];
    }
  }

  lemma {:induction false} FindingsMirror(mine: seq<(Bytes, Finding)>, other: seq<(Bytes, Finding)>)
    ensures RightOnly(mine, other) == AllMirrored(LeftOnly(mine, other))
    ensures LeftOnly(mine, other) == AllMirrored(RightOnly(mine, other))
  {
    if mine != [] {
      var n := |mine| - 1;
      FindingsMirror(mine[..n], other);
      if Get(other, mine[n].0).None? {
        var x, y := LeftOnly(mine, other), RightOnly(mine, other);
        assert x[..|x| - 1] == LeftOnly(mine[..n], other) && y[..|y| - 1] == RightOnly(mine[..n], other);
      } else {
        assert LeftOnly(mine, other) == LeftOnly(mine[..n], other) && RightOnly(mine, other) == RightOnly(mine[..n], other);
      }
    }
  }

  lemma {:induction false} ContentMirrors(l: seq<(Bytes, Observed)>, r: seq<(Bytes, Observed)>, paths: seq<Bytes>)
    ensures ContentPart(r, l, paths) == AllMirrored(ContentPart(l, r, paths))
  {
    if paths != [] {
      var n := |paths| - 1;
      var p := paths[n];
      ContentMirrors(l, r, paths[..n]);
      MirroredJoin(ContentPart(l, r, paths[..n]), ContentAt(p, Get(l, p), Get(r, p)));
      OneMirrors(p, Get(l, p), Get(r, p));
    }
  }

  lemma OneMirrors(p: Bytes, a: Option<Observed>, b: Option<Observed>)
    ensures ContentAt(p, b, a) == AllMirrored(ContentAt(p, a, b))
  {
    hide Shown;
    var d := ContentAt(p, a, b);
    if d != [] { assert d[..|d| - 1] == []; }
  }

  lemma ManifestMirrors(l: Snapshot, r: Snapshot)
    ensures ManifestPart(r, l) == AllMirrored(ManifestPart(l, r))
  {
    hide ShownManifest;
    var d := ManifestPart(l, r);
    if |d| > 0 { assert d[..|d| - 1] == if |d| == 1 then [] else [d[0]]; }
    if |d| > 1 { assert [d[0]][..0] == []; }
  }

  lemma PathsSwap(l: seq<(Bytes, Observed)>, r: seq<(Bytes, Observed)>)
    ensures Paths(l, r) == Paths(r, l)
  {
    SortClimbs(Keys(l) + Keys(r));
    SortClimbs(Keys(r) + Keys(l));
    DedupClimbs(Sort(Keys(l) + Keys(r)));
    DedupClimbs(Sort(Keys(r) + Keys(l)));
    hide Keys, Climbs;
    ClimbsUnique(Paths(l, r), Paths(r, l));
  }

  /** Exchanging the snapshots gives the same divergences, as a multiset, with left and right
      exchanged in each. */
  lemma SwapMirrors(l: Snapshot, r: Snapshot)
    ensures multiset(Divergences(r, l)) == multiset(AllMirrored(Divergences(l, r)))
  {
    hide *;
    DivergencesIs(l, r);
    DivergencesIs(r, l);
    var lf, rf := ByKey(l.findings), ByKey(r.findings);
    var m, a, b := ManifestPart(l, r), LeftOnly(lf, rf), RightOnly(rf, lf);
    var c := ContentPart(l.observed, r.observed, Paths(l.observed, r.observed));
    PathsSwap(l.observed, r.observed);
    ManifestMirrors(l, r);
    FindingsMirror(lf, rf);
    FindingsMirror(rf, lf);
    ContentMirrors(l.observed, r.observed, Paths(l.observed, r.observed));
    MirroredJoin(m + a + b, c);
    MirroredJoin(m + a, b);
    MirroredJoin(m, a);
    Shuffled(AllMirrored(m), AllMirrored(b), AllMirrored(a), AllMirrored(c));
  }

  lemma Shuffled(m: seq<Divergence>, a: seq<Divergence>, b: seq<Divergence>, c: seq<Divergence>)
    ensures multiset(m + a + b + c) == multiset(m + b + a + c)
  {
  }
}
