/** Which divergences a comparison reports, and in which order (src/auditor.rs, diff). */
module Diverging {
  import opened Prelude
  import opened SnapshotDiff

  // ---------------------------------------------------------------- what is to be reported, spelled out

  predicate SameKey(f: Finding, g: Finding) {
    f.kind + [0] + f.subject == g.kind + [0] + g.subject
  }

  /** Of the findings of its kind about its subject, the last. */
  predicate LastOf(findings: seq<Finding>, f: Finding) {
    exists i :: 0 <= i < |findings| && findings[i] == f && forall j :: i < j < |findings| ==> !SameKey(findings[j], f)
  }

  predicate HasLike(findings: seq<Finding>, f: Finding) {
    exists g :: g in findings && SameKey(g, f)
  }

  predicate ObservedAs(m: seq<(Bytes, Observed)>, path: Bytes, x: Observed) {
    exists i :: 0 <= i < |m| && m[i] == (path, x)
  }

  ghost predicate Unobserved(m: seq<(Bytes, Observed)>, path: Bytes) {
    forall x :: !ObservedAs(m, path, x)
  }

  /** A file is shown by its digest, or by the status it was answered with. */
  predicate ShowsFile(s: Side, x: Observed) {
    match x.sha256
    case Some(digest) => s == Value(digest)
    case None => s == HttpStatus(x.httpStatus)
  }

  predicate ShowsManifest(s: Side, m: Option<Bytes>) {
    match m
    case Some(digest) => s == Value(digest)
    case None => s == Absent
  }

  /** One of the two sides has something the other has not, or both have it differently. */
  ghost predicate Diverges(l: Snapshot, r: Snapshot, d: Divergence) {
    match d.kind
    case ManifestDiffers =>
      && l.manifestSha256 != r.manifestSha256 && d.subject == Text("veil-guard-manifest.json")
      && ShowsManifest(d.left, l.manifestSha256) && ShowsManifest(d.right, r.manifestSha256)
    case StateDiffers =>
      && l.manifestState != r.manifestState && d.subject == Text("manifest")
      && d.left == Value(l.manifestState) && d.right == Value(r.manifestState)
    case FindingOnlyInLeft(kind) =>
      exists f :: LastOf(l.findings, f) && !HasLike(r.findings, f)
        && kind == f.kind && d.subject == f.subject && d.left == Value(f.detail) && d.right == NotObserved
    case FindingOnlyInRight(kind) =>
      exists f :: LastOf(r.findings, f) && !HasLike(l.findings, f)
        && kind == f.kind && d.subject == f.subject && d.left == NotObserved && d.right == Value(f.detail)
    case ContentDiffers =>
      exists x, y :: ObservedAs(l.observed, d.subject, x) && ObservedAs(r.observed, d.subject, y)
        && x.sha256 != y.sha256 && ShowsFile(d.left, x) && ShowsFile(d.right, y)
    case OnlyInLeft =>
      exists x :: ObservedAs(l.observed, d.subject, x) && Unobserved(r.observed, d.subject)
        && ShowsFile(d.left, x) && d.right == NotObserved
    case OnlyInRight =>
      exists y :: ObservedAs(r.observed, d.subject, y) && Unobserved(l.observed, d.subject)
        && d.left == NotObserved && ShowsFile(d.right, y)
  }

  // ---------------------------------------------------------------- the functions say the same

  lemma {:induction false} LastIs(findings: seq<Finding>, f: Finding)
    ensures LastWith(findings, Key(f)) == Some(f) <==> LastOf(findings, f)
    ensures HasKey(findings, Key(f)) <==> HasLike(findings, f)
  {
    if findings != [] {
      var n := |findings| - 1;
      LastIs(findings[..n], f);
      hide HasKey, HasLike;
      assert forall j :: 0 <= j < n ==> findings[..n][j] == findings[j];
      if SameKey(findings[n], f) {
        if findings[n] == f { assert LastOf(findings, f); }
      } else {
        LastBefore(findings, f);
      }
    }
  }

  lemma LastBefore(findings: seq<Finding>, f: Finding)
    requires findings != [] && !SameKey(findings[|findings| - 1], f)
    ensures LastOf(findings, f) <==> LastOf(findings[..|findings| - 1], f)
  {
    var n := |findings| - 1;
    var init := findings[..n];
    assert forall j :: 0 <= j < n ==> init[j] == findings[j];
    IsLikeItself(f);
    hide SameKey;
    if LastOf(findings, f) {
      var i :| 0 <= i < |findings| && findings[i] == f && forall j :: i < j < |findings| ==> !SameKey(findings[j], f);
      assert init[i] == f;
    }
    if LastOf(init, f) {
      var i :| 0 <= i < n && init[i] == f && forall j :: i < j < n ==> !SameKey(init[j], f);
      forall j | i < j < |findings| ensures !SameKey(findings[j], f) { assert j < n ==> findings[j] == init[j]; }
      assert findings[i] == f;
    }
  }

  lemma IsLikeItself(f: Finding)
    ensures SameKey(f, f)
  {
  }

  lemma ObservedIs(m: seq<(Bytes, Observed)>, path: Bytes)
    requires Ordered(m)
    ensures forall x :: Get(m, path) == Some(x) <==> ObservedAs(m, path, x)
    ensures Get(m, path).None? <==> Unobserved(m, path)
  {
    GetIsEntry(m, path);
    hide Get, Ordered;
    forall x | ObservedAs(m, path, x) ensures Get(m, path) == Some(x) {
      var i :| 0 <= i < |m| && m[i] == (path, x);
      EntryIsGot(m, i);
    }
    if Get(m, path).Some? { assert ObservedAs(m, path, Get(m, path).value); }
  }

  /** An entry of one map whose key the other has not. */
  predicate Extra(mine: seq<(Bytes, Finding)>, other: seq<(Bytes, Finding)>, f: Finding) {
    exists i :: 0 <= i < |mine| && Get(other, mine[i].0).None? && mine[i].1 == f
  }

  lemma ExtraMore(mine: seq<(Bytes, Finding)>, other: seq<(Bytes, Finding)>, f: Finding)
    requires mine != []
    ensures
      var n := |mine| - 1;
      Extra(mine, other, f) <==> Extra(mine[..n], other, f) || (Get(other, mine[n].0).None? && mine[n].1 == f)
  {
    hide Get;
    assert forall i :: 0 <= i < |mine| - 1 ==> mine[..|mine| - 1][i] == mine[i];
  }

  lemma {:induction false} LeftOnlyHas(mine: seq<(Bytes, Finding)>, other: seq<(Bytes, Finding)>, d: Divergence)
    ensures d in LeftOnly(mine, other) <==>
      (exists f :: Extra(mine, other, f) && d == Divergence(FindingOnlyInLeft(f.kind), f.subject, Value(f.detail), NotObserved))
  {
    if mine != [] {
      LeftOnlyHas(mine[..|mine| - 1], other, d);
      forall f { ExtraMore(mine, other, f); }
      hide Get, Extra;
    }
  }

  lemma {:induction false} RightOnlyHas(mine: seq<(Bytes, Finding)>, other: seq<(Bytes, Finding)>, d: Divergence)
    ensures d in RightOnly(mine, other) <==>
      (exists f :: Extra(mine, other, f) && d == Divergence(FindingOnlyInRight(f.kind), f.subject, NotObserved, Value(f.detail)))
  {
    if mine != [] {
      RightOnlyHas(mine[..|mine| - 1], other, d);
      forall f { ExtraMore(mine, other, f); }
      hide Get, Extra;
    }
  }

  /** The entries of the collected map are the last findings of their kind and subject. */
  lemma EntriesAreLast(findings: seq<Finding>, other: seq<Finding>, f: Finding)
    ensures Extra(ByKey(findings), ByKey(other), f) <==> LastOf(findings, f) && !HasLike(other, f)
  {
    var m, o := ByKey(findings), ByKey(other);
    LastIs(findings, f);
    LastIs(other, f);
    ByKeyMeans(findings, Key(f));
    ByKeyMeans(other, Key(f));
    GetIsEntry(m, Key(f));
    hide ByKey, Get, LastOf, HasLike, HasKey, LastWith, Key, Ordered;
    if Extra(m, o, f) {
      var i :| 0 <= i < |m| && Get(o, m[i].0).None? && m[i].1 == f;
      ByKeyMeans(findings, m[i].0);
      EntryIsGot(m, i);
      assert m[i].0 == Key(f);
    }
  }

  lemma {:induction false} ContentHas(l: seq<(Bytes, Observed)>, r: seq<(Bytes, Observed)>, paths: seq<Bytes>, d: Divergence)
    ensures d in ContentPart(l, r, paths) <==> d.subject in paths && d in ContentAt(d.subject, Get(l, d.subject), Get(r, d.subject))
  {
    hide Get;
    if paths != [] {
      var n := |paths| - 1;
      ContentHas(l, r, paths[..n], d);
      assert paths == paths[..n] + [paths[n]];
      ContentSubject(paths[n], Get(l, paths[n]), Get(r, paths[n]), d);
      hide ContentAt;
    }
  }

  lemma ContentSubject(path: Bytes, a: Option<Observed>, b: Option<Observed>, d: Divergence)
    ensures d in ContentAt(path, a, b) ==> d.subject == path
    ensures d in ContentAt(path, a, b) ==> a.Some? || b.Some?
    ensures d in ContentAt(path, a, b) ==> d.kind in {ContentDiffers, OnlyInLeft, OnlyInRight}
  {
  }

  lemma ContentIs(l: Snapshot, r: Snapshot, d: Divergence)
    ensures d in ContentPart(l.observed, r.observed, Paths(l.observed, r.observed))
      <==> d.kind in {ContentDiffers, OnlyInLeft, OnlyInRight} && Diverges(l, r, d)
  {
    var p := d.subject;
    ContentHas(l.observed, r.observed, Paths(l.observed, r.observed), d);
    PathsAre(l.observed, r.observed);
    ContentSubject(p, Get(l.observed, p), Get(r.observed, p), d);
    AtIs(l, r, d);
    hide *;
  }

  /** At the path in question. */
  lemma AtIs(l: Snapshot, r: Snapshot, d: Divergence)
    ensures d in ContentAt(d.subject, Get(l.observed, d.subject), Get(r.observed, d.subject))
      <==> d.kind in {ContentDiffers, OnlyInLeft, OnlyInRight} && Diverges(l, r, d)
  {
    var a, b := Get(l.observed, d.subject), Get(r.observed, d.subject);
    ObservedIs(l.observed, d.subject);
    ObservedIs(r.observed, d.subject);
    hide Get, ObservedAs, Unobserved, Ordered;
    assert a.Some? ==> ObservedAs(l.observed, d.subject, a.value);
    assert b.Some? ==> ObservedAs(r.observed, d.subject, b.value);
  }

  lemma ManifestIs(l: Snapshot, r: Snapshot, d: Divergence)
    ensures d in ManifestPart(l, r) <==> (d.kind == ManifestDiffers || d.kind == StateDiffers) && Diverges(l, r, d)
  {
    assert Text("veil-guard-manifest.json") == MANIFEST_FILE && Text("manifest") == MANIFEST;
    hide Text;
  }

  lemma FindingsAre(l: Snapshot, r: Snapshot, d: Divergence)
    ensures d in LeftOnly(ByKey(l.findings), ByKey(r.findings)) <==> d.kind.FindingOnlyInLeft? && Diverges(l, r, d)
    ensures d in RightOnly(ByKey(r.findings), ByKey(l.findings)) <==> d.kind.FindingOnlyInRight? && Diverges(l, r, d)
  {
    var ls, rs := ByKey(l.findings), ByKey(r.findings);
    LeftOnlyHas(ls, rs, d);
    RightOnlyHas(rs, ls, d);
    forall f ensures Extra(ls, rs, f) <==> LastOf(l.findings, f) && !HasLike(r.findings, f) {
      EntriesAreLast(l.findings, r.findings, f);
    }
    forall f ensures Extra(rs, ls, f) <==> LastOf(r.findings, f) && !HasLike(l.findings, f) {
      EntriesAreLast(r.findings, l.findings, f);
    }
    hide ByKey, Extra, LeftOnly, RightOnly, LastOf, HasLike;
  }

  /** The comparison reports exactly what diverges: for every divergence, the side it names has what it shows,
      and the other side has not. */
  lemma ReportsExactly(l: Snapshot, r: Snapshot, d: Divergence)
    ensures d in Divergences(l, r) <==> Diverges(l, r, d)
  {
    hide *;
    DivergencesIs(l, r);
    ManifestIs(l, r, d);
    FindingsAre(l, r, d);
    ContentIs(l, r, d);
    KindsAre(d.kind);
  }

  lemma KindsAre(k: DivergenceKind)
    ensures k == ManifestDiffers || k == StateDiffers || k.FindingOnlyInLeft? || k.FindingOnlyInRight?
         || k in {ContentDiffers, OnlyInLeft, OnlyInRight}
  {
  }

  // ---------------------------------------------------------------- in which order

  function Group(k: DivergenceKind): nat {
    match k
    case ManifestDiffers => 0
    case StateDiffers => 1
    case FindingOnlyInLeft(_) => 2
    case FindingOnlyInRight(_) => 3
    case _ => 4
  }

  /** What a divergence is sorted by within its group: a finding by kind and subject, a file by its path. */
  function Place(d: Divergence): Bytes {
    match d.kind
    case FindingOnlyInLeft(kind) => kind + [0] + d.subject
    case FindingOnlyInRight(kind) => kind + [0] + d.subject
    case _ => d.subject
  }

  predicate Before(a: Divergence, b: Divergence) {
    Group(a.kind) < Group(b.kind) || (Group(a.kind) == Group(b.kind) && Compare(Place(a), Place(b)) < 0)
  }

  ghost predicate Rises(s: seq<Divergence>) {
    forall i, j :: 0 <= i < j < |s| ==> Before(s[i], s[j])
  }

  lemma RisesAppend(a: seq<Divergence>, b: seq<Divergence>)
    requires Rises(a) && Rises(b) && forall x, y :: x in a && y in b ==> Before(x, y)
    ensures Rises(a + b)
  {
    hide Before;
    var s := a + b;
    forall i, j | 0 <= i < j < |s| ensures Before(s[i], s[j]) {
      if j < |a| { assert s[i] == a[i] && s[j] == a[j]; }
      else if i >= |a| { assert s[i] == b[i - |a|] && s[j] == b[j - |a|]; }
    }
  }

  /** No key before an earlier one. */
  ghost predicate Sorted<V>(m: seq<(Bytes, V)>) {
    forall i, j :: 0 <= i < j < |m| ==> Compare(m[i].0, m[j].0) < 0
  }

  lemma {:induction false} OrderedIsSorted<V>(m: seq<(Bytes, V)>)
    requires Ordered(m)
    ensures Sorted(m)
  {
    if m != [] {
      OrderedIsSorted(m[1..]);
      forall i, j | 0 <= i < j < |m| ensures Compare(m[i].0, m[j].0) < 0 {
        assert m[j] == m[1..][j - 1];
        if i > 0 { assert m[i] == m[1..][i - 1]; }
      }
    }
  }

  /** Entries under the keys of their findings. */
  ghost predicate Keyed(m: seq<(Bytes, Finding)>) {
    forall i :: 0 <= i < |m| ==> m[i].0 == m[i].1.kind + [0] + m[i].1.subject
  }

  lemma CollectedIsKeyed(findings: seq<Finding>)
    ensures Keyed(ByKey(findings)) && Sorted(ByKey(findings))
  {
    var m := ByKey(findings);
    ByKeyMeans(findings, []);
    OrderedIsSorted(m);
    forall i | 0 <= i < |m| ensures m[i].0 == m[i].1.kind + [0] + m[i].1.subject {
      EntryIsGot(m, i);
      ByKeyMeans(findings, m[i].0);
    }
  }

  lemma {:induction false} LeftOnlyRises(mine: seq<(Bytes, Finding)>, other: seq<(Bytes, Finding)>)
    requires Sorted(mine) && Keyed(mine)
    ensures Rises(LeftOnly(mine, other))
    ensures forall d :: d in LeftOnly(mine, other) ==> Group(d.kind) == 2 && exists i :: 0 <= i < |mine| && Place(d) == mine[i].0
  {
    hide Get, Compare;
    if mine != [] {
      var n := |mine| - 1;
      var init, f := mine[..n], mine[n].1;
      assert forall i :: 0 <= i < n ==> init[i] == mine[i];
      LeftOnlyRises(init, other);
      var d := Divergence(FindingOnlyInLeft(f.kind), f.subject, Value(f.detail), NotObserved);
      assert Place(d) == mine[n].0;
      assert Rises([d]) && Rises([]);
      if Get(other, mine[n].0).None? { RisesAppend(LeftOnly(init, other), [d]); }
    }
  }

  lemma {:induction false} RightOnlyRises(mine: seq<(Bytes, Finding)>, other: seq<(Bytes, Finding)>)
    requires Sorted(mine) && Keyed(mine)
    ensures Rises(RightOnly(mine, other))
    ensures forall d :: d in RightOnly(mine, other) ==> Group(d.kind) == 3 && exists i :: 0 <= i < |mine| && Place(d) == mine[i].0
  {
    hide Get, Compare;
    if mine != [] {
      var n := |mine| - 1;
      var init, f := mine[..n], mine[n].1;
      assert forall i :: 0 <= i < n ==> init[i] == mine[i];
      RightOnlyRises(init, other);
      var d := Divergence(FindingOnlyInRight(f.kind), f.subject, NotObserved, Value(f.detail));
      assert Place(d) == mine[n].0;
      assert Rises([d]) && Rises([]);
      if Get(other, mine[n].0).None? { RisesAppend(RightOnly(init, other), [d]); }
    }
  }

  lemma {:induction false} ClimbingIsApart(keys: seq<Bytes>)
    requires Climbs(keys, true)
    ensures forall i, j :: 0 <= i < j < |keys| ==> Compare(keys[i], keys[j]) < 0
  {
    if keys != [] {
      if |keys| > 1 { ClimbingIsApart(keys[1..]); }
      forall i, j | 0 <= i < j < |keys| ensures Compare(keys[i], keys[j]) < 0 {
        if i == 0 { ClimbsApart(keys, j); } else { assert keys[i] == keys[1..][i - 1] && keys[j] == keys[1..][j - 1]; }
      }
    }
  }

  lemma ContentOfOne(path: Bytes, a: Option<Observed>, b: Option<Observed>)
    ensures |ContentAt(path, a, b)| <= 1 && Rises(ContentAt(path, a, b))
    ensures forall d :: d in ContentAt(path, a, b) ==> Group(d.kind) == 4 && Place(d) == path
  {
  }

  lemma {:induction false} ContentRises(l: seq<(Bytes, Observed)>, r: seq<(Bytes, Observed)>, paths: seq<Bytes>)
    requires forall i, j :: 0 <= i < j < |paths| ==> Compare(paths[i], paths[j]) < 0
    ensures Rises(ContentPart(l, r, paths))
    ensures forall d :: d in ContentPart(l, r, paths) ==> Group(d.kind) == 4 && Place(d) in paths
  {
    hide Get, Compare, ContentAt;
    if paths != [] {
      var n := |paths| - 1;
      ContentRises(l, r, paths[..n]);
      ContentOfOne(paths[n], Get(l, paths[n]), Get(r, paths[n]));
      assert paths == paths[..n] + [paths[n]];
      hide Rises, Place, Group;
      RisesAppend(ContentPart(l, r, paths[..n]), ContentAt(paths[n], Get(l, paths[n]), Get(r, paths[n])));
    }
  }

  lemma PathsClimb(l: seq<(Bytes, Observed)>, r: seq<(Bytes, Observed)>)
    ensures forall i, j :: 0 <= i < j < |Paths(l, r)| ==> Compare(Paths(l, r)[i], Paths(l, r)[j]) < 0
  {
    SortClimbs(Keys(l) + Keys(r));
    DedupClimbs(Sort(Keys(l) + Keys(r)));
    hide Sort, Dedup, Climbs;
    ClimbingIsApart(Paths(l, r));
  }

  lemma ManifestRises(l: Snapshot, r: Snapshot)
    ensures Rises(ManifestPart(l, r)) && forall d :: d in ManifestPart(l, r) ==> Group(d.kind) <= 1
  {
  }

  lemma GroupsApart(a: seq<Divergence>, b: seq<Divergence>, g: nat)
    requires Rises(a) && Rises(b)
    requires (forall d :: d in a ==> Group(d.kind) < g) && (forall d :: d in b ==> Group(d.kind) == g)
    ensures Rises(a + b) && forall d :: d in a + b ==> Group(d.kind) < g + 1
  {
    RisesAppend(a, b);
    hide Rises, Group;
  }

  /** The report is in order, and nothing is in it twice: manifest, state, findings only the left side has by
      kind and subject, those only the right side has, then files by path. */
  lemma ReportsInOrder(l: Snapshot, r: Snapshot)
    ensures Rises(Divergences(l, r))
  {
    var ls, rs := ByKey(l.findings), ByKey(r.findings);
    hide *;
    DivergencesIs(l, r);
    CollectedIsKeyed(l.findings);
    CollectedIsKeyed(r.findings);
    LeftOnlyRises(ls, rs);
    RightOnlyRises(rs, ls);
    PathsClimb(l.observed, r.observed);
    ContentRises(l.observed, r.observed, Paths(l.observed, r.observed));
    ManifestRises(l, r);
    GroupsApart(ManifestPart(l, r), LeftOnly(ls, rs), 2);
    GroupsApart(ManifestPart(l, r) + LeftOnly(ls, rs), RightOnly(rs, ls), 3);
    GroupsApart(ManifestPart(l, r) + LeftOnly(ls, rs) + RightOnly(rs, ls),
                ContentPart(l.observed, r.observed, Paths(l.observed, r.observed)), 4);
  }

  /** What is in order has nothing twice. */
  lemma BeforeIsOther(a: Divergence, b: Divergence)
    requires Before(a, b)
    ensures a != b
  {
    CompareEqual(Place(a), Place(b));
  }
}
