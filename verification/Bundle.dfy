/** The `VGSIG1` signature container: parser, printer and the two round trips (src/crypto.rs). */
module Bundle {
  import opened Prelude

  type KeyId = s: Bytes | |s| == 8 witness [0, 0, 0, 0, 0, 0, 0, 0]

  datatype SigAlg = Ed25519 | P256

  datatype SigEntry = SigEntry(keyId: KeyId, algId: byte, sig: Bytes)

  datatype BundleError =
    | ShortHeader | BadMagic | BadFormatVersion | ReservedSet | EntryCountOutOfRange
    | BadSigLen | Truncated | NotSorted | DuplicateEntry | TrailingBytes

  const MAGIC: Bytes := [0x56, 0x47, 0x53, 0x49, 0x47, 0x31] // "VGSIG1"
  const FORMAT_VERSION: byte := 1
  const MAX_BUNDLE_ENTRIES := 64
  const MAX_SIG_LEN := 128

  function AlgId(alg: SigAlg): byte {
    match alg
    case Ed25519 => 1
    case P256 => 2
  }

  predicate KnownAlg(id: byte) {
    id == 1 || id == 2
  }

  // ---------------------------------------------------------------- the order on entries

  /** `key_id` first, then `alg_id`. */
  function EntryCompare(a: SigEntry, b: SigEntry): int {
    var c := Compare(a.keyId, b.keyId);
    if c != 0 then c else a.algId - b.algId
  }

  predicate SamePair(a: SigEntry, b: SigEntry) {
    a.keyId == b.keyId && a.algId == b.algId
  }

  lemma EntryOrder(a: SigEntry, b: SigEntry)
    ensures EntryCompare(a, b) == 0 <==> SamePair(a, b)
    ensures EntryCompare(a, b) < 0 <==> EntryCompare(b, a) > 0
  {
    CompareEqual(a.keyId, b.keyId);
    CompareReverse(a.keyId, b.keyId);
  }

  lemma EntryTransitive(a: SigEntry, b: SigEntry, c: SigEntry)
    requires EntryCompare(a, b) <= 0 && EntryCompare(b, c) <= 0
    ensures EntryCompare(a, c) <= 0
    ensures EntryCompare(a, b) < 0 || EntryCompare(b, c) < 0 ==> EntryCompare(a, c) < 0
  {
    CompareEqual(a.keyId, b.keyId);
    CompareEqual(b.keyId, c.keyId);
    if Compare(a.keyId, b.keyId) < 0 {
      CompareTransitive(a.keyId, b.keyId, c.keyId);
    }
  }

  /** Strictly ascending by (key_id, alg_id), stated between neighbours as the parser checks it. */
  predicate StrictlySorted(es: seq<SigEntry>) {
    forall i :: 0 < i < |es| ==> EntryCompare(es[i - 1], es[i]) < 0
  }

  predicate DistinctPairs(es: seq<SigEntry>) {
    forall i, j :: 0 <= i < j < |es| ==> !SamePair(es[i], es[j])
  }

  predicate LegalEntry(e: SigEntry) {
    |e.sig| <= MAX_SIG_LEN && (KnownAlg(e.algId) ==> |e.sig| == 64)
  }

  predicate LegalEntries(es: seq<SigEntry>) {
    forall i :: 0 <= i < |es| ==> LegalEntry(es[i])
  }

  /** What a well-formed bundle decodes to. */
  predicate Canonical(es: seq<SigEntry>) {
    1 <= |es| <= MAX_BUNDLE_ENTRIES && LegalEntries(es) && StrictlySorted(es)
  }

  /** Neighbour order is order between any two positions. */
  lemma {:induction false} SortedFar(es: seq<SigEntry>, i: nat, j: nat)
    requires StrictlySorted(es) && i < j < |es|
    ensures EntryCompare(es[i], es[j]) < 0
    decreases j - i
  {
    if i + 1 < j {
      SortedFar(es, i, j - 1);
      EntryTransitive(es[i], es[j - 1], es[j]);
    } else {
      assert j - 1 == i;
    }
  }

  lemma SortedIsDistinct(es: seq<SigEntry>)
    requires StrictlySorted(es)
    ensures DistinctPairs(es)
  {
    forall i, j | 0 <= i < j < |es| ensures !SamePair(es[i], es[j]) {
      SortedFar(es, i, j);
      EntryOrder(es[i], es[j]);
    }
  }

  // ---------------------------------------------------------------- stable sort

  /** Insertion that keeps `e` before its equals: the head of a stable sort. */
  function Insert(e: SigEntry, es: seq<SigEntry>): (r: seq<SigEntry>)
    ensures |r| == |es| + 1
    ensures multiset(r) == multiset{e} + multiset(es)
  {
    if es == [] then [e]
    else if EntryCompare(e, es[0]) <= 0 then [e] + es
    else
      assert es == [es[0]] + es[1..];
      [es[0]] + Insert(e, es[1..])
  }

  /** The entries in the order the library's stable sort leaves them. */
  function Sorted(es: seq<SigEntry>): (r: seq<SigEntry>)
    ensures |r| == |es|
    ensures multiset(r) == multiset(es)
  {
    if es == [] then []
    else
      assert es == [es[0]] + es[1..];
      Insert(es[0], Sorted(es[1..]))
  }

  predicate WeaklySorted(es: seq<SigEntry>) {
    |es| <= 1 || (EntryCompare(es[0], es[1]) <= 0 && WeaklySorted(es[1..]))
  }

  lemma {:induction false} InsertSorts(e: SigEntry, es: seq<SigEntry>)
    requires WeaklySorted(es)
    ensures WeaklySorted(Insert(e, es))
    ensures Insert(e, es)[0] in [e] + es[..if es == [] then 0 else 1]
  {
    if es != [] && EntryCompare(e, es[0]) > 0 {
      InsertSorts(e, es[1..]);
      EntryOrder(es[0], e);
      assert Insert(e, es)[1..] == Insert(e, es[1..]);
    } else {
      assert ([e] + es)[1..] == es;
    }
  }

  lemma {:induction false} SortSorts(es: seq<SigEntry>)
    ensures WeaklySorted(Sorted(es))
  {
    if es != [] {
      SortSorts(es[1..]);
      InsertSorts(es[0], Sorted(es[1..]));
    }
  }

  /** Distinct pairs leave no room for ties. */
  lemma {:induction false} WeakAndDistinct(es: seq<SigEntry>)
    requires WeaklySorted(es) && DistinctPairs(es)
    ensures StrictlySorted(es)
  {
    if |es| > 1 {
      forall i, j | 0 <= i < j < |es[1..]| ensures !SamePair(es[1..][i], es[1..][j]) {
        assert es[1..][i] == es[i + 1] && es[1..][j] == es[j + 1];
      }
      WeakAndDistinct(es[1..]);
      EntryOrder(es[0], es[1]);
      forall i | 0 < i < |es| ensures EntryCompare(es[i - 1], es[i]) < 0 {
        if i > 1 {
          assert es[1..][i - 2] == es[i - 1] && es[1..][i - 1] == es[i];
        }
      }
    }
  }

  // ---------------------------------------------------------------- distinctness survives reordering

  ghost predicate DistinctBag(m: multiset<SigEntry>) {
    && (forall x :: x in m ==> m[x] == 1)
    && (forall x, y :: x in m && y in m && SamePair(x, y) ==> x == y)
  }

  lemma DistinctCons(x: SigEntry, es: seq<SigEntry>)
    ensures DistinctPairs([x] + es) <==> DistinctPairs(es) && forall y :: y in es ==> !SamePair(x, y)
  {
    var all := [x] + es;
    if DistinctPairs(all) {
      forall i, j | 0 <= i < j < |es| ensures !SamePair(es[i], es[j]) {
        assert all[i + 1] == es[i] && all[j + 1] == es[j];
      }
      forall y | y in es ensures !SamePair(x, y) {
        var j :| 0 <= j < |es| && es[j] == y;
        assert all[0] == x && all[j + 1] == y;
      }
    }
    if DistinctPairs(es) && forall y :: y in es ==> !SamePair(x, y) {
      forall i, j | 0 <= i < j < |all| ensures !SamePair(all[i], all[j]) {
        assert all[j] == es[j - 1];
        if i > 0 { assert all[i] == es[i - 1]; }
      }
    }
  }

  lemma BagCons(x: SigEntry, m: multiset<SigEntry>)
    ensures DistinctBag(multiset{x} + m) <==> DistinctBag(m) && forall y :: y in m ==> !SamePair(x, y)
  {
    var all := multiset{x} + m;
    assert x in all && forall y :: y in m ==> y in all;
    if DistinctBag(all) {
      assert all[x] == 1;
      forall y | y in m ensures m[y] == 1 && !SamePair(x, y) {
        assert all[y] == 1;
        assert y != x;
      }
    } else if DistinctBag(m) && forall y :: y in m ==> !SamePair(x, y) {
      assert SamePair(x, x) && x !in m;
      forall y | y in all ensures all[y] == 1 {
        assert y == x || m[y] == 1;
      }
      assert false;
    }
  }

  lemma {:induction false} DistinctIsBagProperty(es: seq<SigEntry>)
    ensures DistinctPairs(es) <==> DistinctBag(multiset(es))
  {
    if es != [] {
      assert es == [es[0]] + es[1..];
      DistinctCons(es[0], es[1..]);
      DistinctIsBagProperty(es[1..]);
      BagCons(es[0], multiset(es[1..]));
    }
  }

  lemma PermutationKeepsDistinct(es: seq<SigEntry>, fs: seq<SigEntry>)
    requires multiset(es) == multiset(fs)
    ensures DistinctPairs(es) <==> DistinctPairs(fs)
  {
    DistinctIsBagProperty(es);
    DistinctIsBagProperty(fs);
  }

  lemma SortStrict(es: seq<SigEntry>)
    ensures StrictlySorted(Sorted(es)) <==> DistinctPairs(es)
  {
    PermutationKeepsDistinct(es, Sorted(es));
    SortSorts(es);
    if DistinctPairs(es) {
      WeakAndDistinct(Sorted(es));
    }
    if StrictlySorted(Sorted(es)) {
      SortedIsDistinct(Sorted(es));
    }
  }

  /** A strictly sorted list is determined by the set of its members. */
  lemma {:induction false} StrictOrderUnique(es: seq<SigEntry>, fs: seq<SigEntry>)
    requires StrictlySorted(es) && StrictlySorted(fs)
    requires multiset(es) == multiset(fs)
    ensures es == fs
  {
    assert |multiset(es)| == |es| && |multiset(fs)| == |fs|;
    if es != [] {
      SameHead(es, fs);
      assert es == [es[0]] + es[1..] && fs == [fs[0]] + fs[1..];
      assert multiset(es[1..]) == multiset(es) - multiset{es[0]};
      assert multiset(fs[1..]) == multiset(es[1..]);
      TailSorted(es);
      TailSorted(fs);
      StrictOrderUnique(es[1..], fs[1..]);
    }
  }

  lemma SameHead(es: seq<SigEntry>, fs: seq<SigEntry>)
    requires StrictlySorted(es) && StrictlySorted(fs)
    requires multiset(es) == multiset(fs) && es != [] && fs != []
    ensures es[0] == fs[0]
  {
    assert es[0] in multiset(es) && fs[0] in multiset(fs);
    HeadIsLeast(es, fs[0]);
    HeadIsLeast(fs, es[0]);
    EntryOrder(es[0], fs[0]);
  }

  lemma TailSorted(es: seq<SigEntry>)
    requires StrictlySorted(es) && es != []
    ensures StrictlySorted(es[1..])
  {
    forall i | 0 < i < |es[1..]| ensures EntryCompare(es[1..][i - 1], es[1..][i]) < 0 {
      assert es[1..][i - 1] == es[i] && es[1..][i] == es[i + 1];
    }
  }

  lemma HeadIsLeast(es: seq<SigEntry>, x: SigEntry)
    requires StrictlySorted(es) && x in multiset(es)
    ensures es != [] && (es[0] == x || EntryCompare(es[0], x) < 0)
  {
    var j :| 0 <= j < |es| && es[j] == x;
    if j > 0 {
      SortedFar(es, 0, j);
    }
  }

  /** Sorting a strictly sorted list changes nothing. */
  lemma SortFixpoint(es: seq<SigEntry>)
    requires StrictlySorted(es)
    ensures Sorted(es) == es
  {
    SortedIsDistinct(es);
    SortStrict(es);
    StrictOrderUnique(Sorted(es), es);
  }

  // ---------------------------------------------------------------- printer

  function EncodeEntry(e: SigEntry): (r: Bytes)
    ensures |r| == 12 + |e.sig|
  {
    e.keyId + [e.algId, 0] + U16(|e.sig|) + e.sig
  }

  function EncodeEntries(es: seq<SigEntry>): Bytes {
    if es == [] then [] else EncodeEntry(es[0]) + EncodeEntries(es[1..])
  }

  function Header(count: nat): (r: Bytes)
    ensures |r| == 10
  {
    MAGIC + [FORMAT_VERSION, 0] + U16(count)
  }

  /** The bytes `build_bundle` emits for any list of entries. */
  function Built(es: seq<SigEntry>): Bytes {
    Header(|es|) + EncodeEntries(Sorted(es))
  }

  lemma {:induction false} EncodeAppend(es: seq<SigEntry>, e: SigEntry)
    ensures EncodeEntries(es + [e]) == EncodeEntries(es) + EncodeEntry(e)
  {
    if es == [] {
      assert [e][1..] == [];
    } else {
      assert (es + [e])[1..] == es[1..] + [e];
      EncodeAppend(es[1..], e);
    }
  }

  lemma EncodedInPieces(out: Bytes, e: SigEntry)
    ensures out + e.keyId + [e.algId, 0] + U16(|e.sig|) + e.sig == out + EncodeEntry(e)
  {
    hide U16;
    assert out + e.keyId + [e.algId, 0] + U16(|e.sig|) + e.sig == out + (e.keyId + [e.algId, 0] + U16(|e.sig|) + e.sig);
  }

  lemma NothingEncoded(count: nat)
    ensures MAGIC + [FORMAT_VERSION, 0] + U16(count) == Header(count) + EncodeEntries([])
  {
  }

  /** One entry appended in pieces. */
  lemma OneMoreEncoded(head: Bytes, es: seq<SigEntry>, e: SigEntry, out: Bytes)
    requires out == head + EncodeEntries(es)
    ensures out + e.keyId + [e.algId, 0] + U16(|e.sig|) + e.sig == head + EncodeEntries(es + [e])
  {
    hide *;
    EncodeAppend(es, e);
    EncodedInPieces(out, e);
    assert (head + EncodeEntries(es)) + EncodeEntry(e) == head + (EncodeEntries(es) + EncodeEntry(e));
  }

  /** The printer: a stable sort, then one appended buffer. */
  method BuildBundle(entries: seq<SigEntry>) returns (out: Bytes)
    ensures out == Built(entries)
  {
    hide *;
    var sorted := Sorted(entries);
    out := MAGIC + [FORMAT_VERSION, 0] + U16(|sorted|);
    NothingEncoded(|sorted|);
    var i := 0;
    while i < |sorted|
      invariant 0 <= i <= |sorted|
      invariant out == Header(|sorted|) + EncodeEntries(sorted[..i])
    {
      var e := sorted[i];
      OneMoreEncoded(Header(|sorted|), sorted[..i], e, out);
      assert sorted[..i + 1] == sorted[..i] + [e];
      out := out + e.keyId;
      out := out + [e.algId, 0];
      out := out + U16(|e.sig|);
      out := out + e.sig;
      i := i + 1;
    }
    assert sorted[..i] == sorted;
    CanonicalBuilt(entries);
  }

  // ---------------------------------------------------------------- parser

  /** One entry at `off`, in the order the parser makes its checks. */
  function ParseEntry(bytes: Bytes, off: nat): (r: Result<SigEntry, BundleError>)
    ensures r.Success? ==>
      && LegalEntry(r.value)
      && off + |EncodeEntry(r.value)| <= |bytes|
      && bytes[off..off + |EncodeEntry(r.value)|] == EncodeEntry(r.value)
  {
    if off + 12 > |bytes| then Failure(Truncated)
    else if bytes[off + 9] != 0 then Failure(ReservedSet)
    else
      var algId := bytes[off + 8];
      var sigLen := FromU16(bytes[off + 10], bytes[off + 11]);
      if KnownAlg(algId) && sigLen != 64 then Failure(BadSigLen)
      else if sigLen > MAX_SIG_LEN then Failure(BadSigLen)
      else if off + 12 + sigLen > |bytes| then Failure(Truncated)
      else
        var e := SigEntry(bytes[off..off + 8], algId, bytes[off + 12..off + 12 + sigLen]);
        assert bytes[off..off + 12 + sigLen] == EncodeEntry(e);
        Success(e)
  }

  /** `n` entries from `off`, with the offset just past the last one. */
  function ParseEntries(bytes: Bytes, off: nat, n: nat): Result<(seq<SigEntry>, nat), BundleError>
    decreases n
  {
    if n == 0 then Success(([], off))
    else
      match ParseEntry(bytes, off)
      case Failure(e) => Failure(e)
      case Success(e) =>
        match ParseEntries(bytes, off + 12 + |e.sig|, n - 1)
        case Failure(err) => Failure(err)
        case Success(rest) => Success(([e] + rest.0, rest.1))
  }

  /** The verdict of the neighbour scan from position `i`. */
  function OrderError(es: seq<SigEntry>, i: nat): Option<BundleError>
    requires 0 < i
    decreases |es| - i
  {
    if i >= |es| then None
    else if SamePair(es[i - 1], es[i]) then Some(DuplicateEntry)
    else if EntryCompare(es[i - 1], es[i]) > 0 then Some(NotSorted)
    else OrderError(es, i + 1)
  }

  function HeaderCount(bytes: Bytes): Result<nat, BundleError> {
    if |bytes| < 10 then Failure(ShortHeader)
    else if bytes[0..6] != MAGIC then Failure(BadMagic)
    else if bytes[6] != FORMAT_VERSION then Failure(BadFormatVersion)
    else if bytes[7] != 0 then Failure(ReservedSet)
    else
      var count := FromU16(bytes[8], bytes[9]);
      if 1 <= count <= MAX_BUNDLE_ENTRIES then Success(count) else Failure(EntryCountOutOfRange)
  }

  /** The verdict of the parser on any byte string, first violated rule first. */
  function Parsed(bytes: Bytes): Result<seq<SigEntry>, BundleError> {
    match HeaderCount(bytes)
    case Failure(e) => Failure(e)
    case Success(count) =>
      match ParseEntries(bytes, 10, count)
      case Failure(e) => Failure(e)
      case Success((es, off)) =>
        if off != |bytes| then Failure(TrailingBytes)
        else
          match OrderError(es, 1)
          case Some(e) => Failure(e)
          case None => Success(es)
  }

  lemma {:induction false} OrderErrorMeans(es: seq<SigEntry>, i: nat)
    requires 0 < i
    ensures OrderError(es, i).None? <==> forall j :: i <= j < |es| ==> EntryCompare(es[j - 1], es[j]) < 0
    decreases |es| - i
  {
    if i < |es| {
      EntryOrder(es[i - 1], es[i]);
      OrderErrorMeans(es, i + 1);
    }
  }

  /** What the entry loop still has to deliver, put behind what it has already pushed. */
  function Behind(done: seq<SigEntry>, r: Result<(seq<SigEntry>, nat), BundleError>)
    : Result<(seq<SigEntry>, nat), BundleError>
  {
    match r
    case Failure(e) => Failure(e)
    case Success((es, off)) => Success((done + es, off))
  }

  lemma BehindNothing(r: Result<(seq<SigEntry>, nat), BundleError>)
    ensures Behind([], r) == r
  {
    if r.Success? { assert [] + r.value.0 == r.value.0; }
  }

  lemma BehindAll(done: seq<SigEntry>, bytes: Bytes, off: nat)
    ensures Behind(done, ParseEntries(bytes, off, 0)) == Success((done, off))
  {
    assert done + [] == done;
  }

  /** The verdict behind a good header, or a bad one. */
  lemma ParsedOf(bytes: Bytes)
    ensures HeaderCount(bytes).Failure? ==> Parsed(bytes) == Failure(HeaderCount(bytes).error)
    ensures HeaderCount(bytes).Success? ==>
      var r := ParseEntries(bytes, 10, HeaderCount(bytes).value);
      Parsed(bytes) ==
        if r.Failure? then Failure(r.error)
        else if r.value.1 != |bytes| then Failure(TrailingBytes)
        else if OrderError(r.value.0, 1).Some? then Failure(OrderError(r.value.0, 1).value)
        else Success(r.value.0)
  {
    hide ParseEntries, OrderError, HeaderCount;
  }

  lemma BehindStep(done: seq<SigEntry>, bytes: Bytes, off: nat, n: nat)
    requires n > 0
    ensures
      match ParseEntry(bytes, off)
      case Failure(e) => Behind(done, ParseEntries(bytes, off, n)) == Failure(e)
      case Success(e) =>
        Behind(done, ParseEntries(bytes, off, n))
        == Behind(done + [e], ParseEntries(bytes, off + 12 + |e.sig|, n - 1))
  {
    hide ParseEntry;
    match ParseEntry(bytes, off)
    case Failure(_) =>
    case Success(e) =>
      match ParseEntries(bytes, off + 12 + |e.sig|, n - 1)
      case Failure(_) =>
      case Success((es, end)) => assert done + ([e] + es) == (done + [e]) + es;
  }

  lemma HeaderBy(bytes: Bytes)
    ensures |bytes| < 10 ==> HeaderCount(bytes) == Failure(ShortHeader)
    ensures |bytes| >= 10 ==>
      var count := FromU16(bytes[8], bytes[9]);
      HeaderCount(bytes) ==
        if bytes[0..6] != MAGIC then Failure(BadMagic)
        else if bytes[6] != FORMAT_VERSION then Failure(BadFormatVersion)
        else if bytes[7] != 0 then Failure(ReservedSet)
        else if 1 <= count <= MAX_BUNDLE_ENTRIES then Success(count)
        else Failure(EntryCountOutOfRange)
  {
    hide FromU16;
  }

  /** The parser as a loop over one cursor, with every early return of the source. */
  method ParseBundle(bytes: Bytes) returns (r: Result<seq<SigEntry>, BundleError>)
    ensures r == Parsed(bytes)
  {
    hide *;
    HeaderBy(bytes);
    ParsedOf(bytes);
    if |bytes| < 10 { return Failure(ShortHeader); }
    if bytes[0..6] != MAGIC { return Failure(BadMagic); }
    if bytes[6] != FORMAT_VERSION { return Failure(BadFormatVersion); }
    if bytes[7] != 0 { return Failure(ReservedSet); }
    var count := FromU16(bytes[8], bytes[9]);
    if !(1 <= count <= MAX_BUNDLE_ENTRIES) { return Failure(EntryCountOutOfRange); }

    var entries: seq<SigEntry> := [];
    var off: nat := 10;
    BehindNothing(ParseEntries(bytes, off, count));
    for i := 0 to count
      invariant ParseEntries(bytes, 10, count) == Behind(entries, ParseEntries(bytes, off, count - i))
    {
      BehindStep(entries, bytes, off, count - i);
      var entry := ReadEntry(bytes, off);
      if entry.Failure? { return Failure(entry.error); }
      entries := entries + [entry.value];
      off := off + 12 + |entry.value.sig|;
    }
    BehindAll(entries, bytes, off);
    if off != |bytes| { return Failure(TrailingBytes); }

    var wrong := CheckOrder(entries);
    if wrong.Some? { return Failure(wrong.value); }
    return Success(entries);
  }

  /** The body of the entry loop: the checks on one entry header. */
  method ReadEntry(bytes: Bytes, off: nat) returns (r: Result<SigEntry, BundleError>)
    ensures r == ParseEntry(bytes, off)
  {
    if off + 12 > |bytes| { return Failure(Truncated); }
    var keyId := bytes[off..off + 8];
    var algId := bytes[off + 8];
    if bytes[off + 9] != 0 { return Failure(ReservedSet); }
    var sigLen := FromU16(bytes[off + 10], bytes[off + 11]);
    if KnownAlg(algId) && sigLen != 64 { return Failure(BadSigLen); }
    if sigLen > MAX_SIG_LEN { return Failure(BadSigLen); }
    if off + 12 + sigLen > |bytes| { return Failure(Truncated); }
    return Success(SigEntry(keyId, algId, bytes[off + 12..off + 12 + sigLen]));
  }

  /** The closing scan over neighbouring entries. */
  method CheckOrder(entries: seq<SigEntry>) returns (r: Option<BundleError>)
    ensures r == OrderError(entries, 1)
  {
    var i := 1;
    while i < |entries|
      invariant 1 <= i
      invariant OrderError(entries, 1) == OrderError(entries, i)
    {
      var c := Compare(entries[i - 1].keyId, entries[i].keyId);
      CompareEqual(entries[i - 1].keyId, entries[i].keyId);
      if c == 0 && entries[i - 1].algId == entries[i].algId { return Some(DuplicateEntry); }
      if c > 0 || (c == 0 && entries[i - 1].algId > entries[i].algId) { return Some(NotSorted); }
      i := i + 1;
    }
    return None;
  }

  // ---------------------------------------------------------------- the two round trips

  lemma {:induction false} ParseEntriesInverts(bytes: Bytes, off: nat, n: nat)
    requires ParseEntries(bytes, off, n).Success?
    ensures
      var (es, end) := ParseEntries(bytes, off, n).value;
      |es| == n && LegalEntries(es) && (n > 0 ==> off <= end <= |bytes|) && (n == 0 ==> end == off)
    ensures
      var (es, end) := ParseEntries(bytes, off, n).value;
      off <= |bytes| ==> bytes[off..end] == EncodeEntries(es)
    decreases n
  {
    hide ParseEntry, EncodeEntry, LegalEntry;
    if n > 0 {
      var e := ParseEntry(bytes, off).value;
      var next := off + 12 + |e.sig|;
      ParseEntriesInverts(bytes, next, n - 1);
      var (es, end) := ParseEntries(bytes, next, n - 1).value;
      assert ([e] + es)[1..] == es;
      assert bytes[off..end] == bytes[off..next] + bytes[next..end];
    }
  }

  ghost predicate CodeAt(bytes: Bytes, off: nat, code: Bytes) {
    off + |code| <= |bytes| && bytes[off..off + |code|] == code
  }

  lemma CodeSplits(bytes: Bytes, off: nat, a: Bytes, b: Bytes)
    requires CodeAt(bytes, off, a + b)
    ensures CodeAt(bytes, off, a) && CodeAt(bytes, off + |a|, b)
  {
    assert bytes[off..off + |a|] == bytes[off..off + |a + b|][..|a|];
    assert bytes[off + |a|..off + |a| + |b|] == bytes[off..off + |a + b|][|a|..];
  }

  lemma {:induction false} ParseEntriesOfEncoding(bytes: Bytes, off: nat, es: seq<SigEntry>)
    requires LegalEntries(es) && CodeAt(bytes, off, EncodeEntries(es))
    ensures ParseEntries(bytes, off, |es|) == Success((es, off + |EncodeEntries(es)|))
    decreases |es|
  {
    hide ParseEntry, EncodeEntry;
    if es != [] {
      CodeSplits(bytes, off, EncodeEntry(es[0]), EncodeEntries(es[1..]));
      ParseEntryOfEncoding(bytes, off, es[0]);
      ParseEntriesOfEncoding(bytes, off + |EncodeEntry(es[0])|, es[1..]);
      assert es == [es[0]] + es[1..];
    }
  }

  lemma ParseEntryOfEncoding(bytes: Bytes, off: nat, e: SigEntry)
    requires LegalEntry(e) && CodeAt(bytes, off, EncodeEntry(e))
    ensures ParseEntry(bytes, off) == Success(e)
  {
    var code := EncodeEntry(e);
    var n := |e.sig|;
    forall k | 0 <= k < 12 + n ensures bytes[off + k] == code[k] {
      assert bytes[off..off + |code|][k] == code[k];
    }
    assert code[8] == e.algId && code[9] == 0 && code[10] == n % 256 && code[11] == n / 256 % 256;
    assert bytes[off..off + 8] == code[..8] == e.keyId;
    assert bytes[off + 12..off + 12 + n] == code[12..] == e.sig;
  }

  lemma HeaderRead(bytes: Bytes)
    requires HeaderCount(bytes).Success?
    ensures bytes[..10] == Header(HeaderCount(bytes).value)
  {
    assert bytes[..10] == bytes[0..6] + [bytes[6], bytes[7]] + [bytes[8], bytes[9]];
  }

  lemma HeaderWritten(count: nat, rest: Bytes)
    requires count < 65536
    ensures HeaderCount(Header(count) + rest)
         == if 1 <= count <= MAX_BUNDLE_ENTRIES then Success(count) else Failure(EntryCountOutOfRange)
  {
    var bytes := Header(count) + rest;
    assert bytes[0..6] == MAGIC;
    assert bytes[6] == FORMAT_VERSION && bytes[7] == 0;
    assert bytes[8] == U16(count)[0] && bytes[9] == U16(count)[1];
  }

  lemma ParsedMeans(bytes: Bytes, count: nat)
    requires HeaderCount(bytes) == Success(count)
    ensures Parsed(bytes).Success? <==>
            && ParseEntries(bytes, 10, count).Success?
            && ParseEntries(bytes, 10, count).value.1 == |bytes|
            && StrictlySorted(ParseEntries(bytes, 10, count).value.0)
    ensures Parsed(bytes).Success? ==> Parsed(bytes).value == ParseEntries(bytes, 10, count).value.0
  {
    if ParseEntries(bytes, 10, count).Success? {
      OrderErrorMeans(ParseEntries(bytes, 10, count).value.0, 1);
    }
  }

  /** Whatever the parser accepts is canonical, and printing it gives back the very same bytes. */
  lemma ParseThenBuild(bytes: Bytes)
    requires Parsed(bytes).Success?
    ensures Canonical(Parsed(bytes).value)
    ensures Built(Parsed(bytes).value) == bytes
  {
    hide *;
    HeaderFirst(bytes);
    var es := Parsed(bytes).value;
    var count := HeaderCount(bytes).value;
    ParsedMeans(bytes, count);
    ParseEntriesInverts(bytes, 10, count);
    SortFixpoint(es);
    HeaderRead(bytes);
    CanonicalBuilt(es);
    assert bytes == bytes[..10] + bytes[10..|bytes|];
  }

  lemma HeaderFirst(bytes: Bytes)
    requires Parsed(bytes).Success?
    ensures HeaderCount(bytes).Success? && 1 <= HeaderCount(bytes).value <= MAX_BUNDLE_ENTRIES && |bytes| >= 10
  {
    hide ParseEntries, OrderError;
  }

  lemma CanonicalBuilt(es: seq<SigEntry>)
    ensures Canonical(es) <==> 1 <= |es| <= MAX_BUNDLE_ENTRIES && LegalEntries(es) && StrictlySorted(es)
    ensures Built(es) == Header(|es|) + EncodeEntries(Sorted(es))
  {
    hide LegalEntries, StrictlySorted, EncodeEntries, Sorted, Header;
  }

  /** Whatever parses is short: at most 64 entries of at most 140 bytes. */
  lemma ParsedIsShort(bytes: Bytes)
    requires Parsed(bytes).Success?
    ensures |bytes| <= 10 + MAX_BUNDLE_ENTRIES * (12 + MAX_SIG_LEN)
  {
    hide *;
    var es := Parsed(bytes).value;
    ParseThenBuild(bytes);
    CanonicalBuilt(es);
    SortFixpoint(es);
    LegalIsShort(es);
  }

  lemma {:induction false} LegalIsShort(es: seq<SigEntry>)
    requires LegalEntries(es)
    ensures |EncodeEntries(es)| <= |es| * (12 + MAX_SIG_LEN)
  {
    if es != [] { LegalIsShort(es[1..]); }
  }

  /** An encoding is at least as long as its entries' headers, and as any of its signatures. */
  lemma {:induction false} EncodingIsLong(es: seq<SigEntry>)
    ensures |EncodeEntries(es)| >= 12 * |es|
    ensures forall i :: 0 <= i < |es| ==> |EncodeEntries(es)| >= |es[i].sig|
  {
    if es != [] {
      hide EncodeEntry;
      EncodingIsLong(es[1..]);
      assert forall i :: 0 < i < |es| ==> es[i] == es[1..][i - 1];
    }
  }

  /** No count or length is so large that its truncated field could pass for a small one. */
  lemma OversizedIsRejected(es: seq<SigEntry>)
    requires |es| >= 65536 || exists i :: 0 <= i < |es| && |es[i].sig| >= 65536
    ensures Parsed(Built(es)).Failure? && !(|es| <= MAX_BUNDLE_ENTRIES && LegalEntries(es))
  {
    EncodingIsLong(Sorted(es));
    if i :| 0 <= i < |es| && |es[i].sig| >= 65536 {
      assert !LegalEntry(es[i]);
      assert es[i] in multiset(Sorted(es));
      var j :| 0 <= j < |es| && Sorted(es)[j] == es[i];
    }
    CanonicalBuilt(es);
    hide *;
    if Parsed(Built(es)).Success? { ParsedIsShort(Built(es)); }
  }

  /** A list prints to something the parser accepts exactly when its count, its signature
      lengths and its pairs are legal; what comes back is the same entries, sorted. */
  lemma BuildThenParse(es: seq<SigEntry>)
    ensures Parsed(Built(es)).Success?
      <==> 1 <= |es| <= MAX_BUNDLE_ENTRIES && LegalEntries(es) && DistinctPairs(es)
    ensures Parsed(Built(es)).Success? ==> Parsed(Built(es)).value == Sorted(es)
  {
    hide *;
    if |es| >= 65536 || exists i :: 0 <= i < |es| && |es[i].sig| >= 65536 {
      OversizedIsRejected(es);
    } else {
      CanonicalBuilt(es);
      HeaderWritten(|es|, EncodeEntries(Sorted(es)));
      if 1 <= |es| <= MAX_BUNDLE_ENTRIES {
        ParsedMeans(Built(es), |es|);
        SortStrict(es);
        LegalIsBagProperty(es);
        assert Built(es)[10..] == EncodeEntries(Sorted(es));
        BodyParses(Built(es), Sorted(es));
      } else {
        ParsedOf(Built(es));
      }
    }
  }

  lemma BodyParses(bytes: Bytes, es: seq<SigEntry>)
    requires |bytes| >= 10 && bytes[10..] == EncodeEntries(es)
    requires forall i :: 0 <= i < |es| ==> |es[i].sig| < 65536
    ensures if LegalEntries(es) then ParseEntries(bytes, 10, |es|) == Success((es, |bytes|))
            else ParseEntries(bytes, 10, |es|).Failure?
  {
    hide ParseEntry, ParseEntries, EncodeEntry, EncodeEntries, LegalEntry, LegalEntries, U16;
    assert bytes[10..10 + |EncodeEntries(es)|] == bytes[10..];
    if LegalEntries(es) {
      ParseEntriesOfEncoding(bytes, 10, es);
    } else {
      IllegalIsRejected(bytes, 10, es);
    }
  }

  lemma LegalIsBagProperty(es: seq<SigEntry>)
    ensures LegalEntries(es) <==> LegalEntries(Sorted(es))
    ensures (forall i :: 0 <= i < |es| ==> |es[i].sig| < 65536)
       <==> (forall i :: 0 <= i < |es| ==> |Sorted(es)[i].sig| < 65536)
  {
    hide LegalEntry, Sorted;
    SortedMembers(es);
    var sorted := Sorted(es);
    assert forall i :: 0 <= i < |es| ==> es[i] in sorted && sorted[i] in es;
  }

  lemma SortedMembers(es: seq<SigEntry>)
    ensures forall e :: e in Sorted(es) <==> e in es
  {
    hide Sorted;
    forall e ensures e in Sorted(es) <==> e in es {
      assert e in multiset(Sorted(es)) <==> e in multiset(es);
    }
  }

  /** An over-long or mis-sized signature is caught by the parser, whatever surrounds it. */
  lemma {:induction false} IllegalIsRejected(bytes: Bytes, off: nat, es: seq<SigEntry>)
    requires CodeAt(bytes, off, EncodeEntries(es))
    requires !LegalEntries(es) && forall i :: 0 <= i < |es| ==> |es[i].sig| < 65536
    ensures ParseEntries(bytes, off, |es|).Failure?
    decreases |es|
  {
    hide ParseEntry, EncodeEntry, LegalEntry;
    CodeSplits(bytes, off, EncodeEntry(es[0]), EncodeEntries(es[1..]));
    if LegalEntry(es[0]) {
      ParseEntryOfEncoding(bytes, off, es[0]);
      assert !LegalEntries(es[1..]) by {
        var j :| 0 <= j < |es| && !LegalEntry(es[j]);
        assert es[1..][j - 1] == es[j];
      }
      hide LegalEntries;
      IllegalIsRejected(bytes, off + |EncodeEntry(es[0])|, es[1..]);
    } else {
      IllegalEntryIsRejected(bytes, off, es[0]);
    }
  }

  lemma IllegalEntryIsRejected(bytes: Bytes, off: nat, e: SigEntry)
    requires CodeAt(bytes, off, EncodeEntry(e)) && !LegalEntry(e) && |e.sig| < 65536
    ensures ParseEntry(bytes, off).Failure?
  {
    var code := EncodeEntry(e);
    assert bytes[off + 8] == bytes[off..off + |code|][8] == code[8] == e.algId;
    assert bytes[off + 10] == bytes[off..off + |code|][10] == code[10] == U16(|e.sig|)[0];
    assert bytes[off + 11] == bytes[off..off + |code|][11] == code[11] == U16(|e.sig|)[1];
  }

  /** The container has one spelling: the parser accepts exactly the printed canonical lists. */
  lemma AcceptedBytes(bytes: Bytes)
    ensures Parsed(bytes).Success? <==> exists es :: Canonical(es) && Built(es) == bytes
  {
    if Parsed(bytes).Success? {
      ParseThenBuild(bytes);
    } else if es :| Canonical(es) && Built(es) == bytes {
      SortedIsDistinct(es);
      BuildThenParse(es);
      assert false;
    }
  }

  /** The order in which signatures were collected leaves no trace in the bundle. */
  lemma OrderIrrelevant(es: seq<SigEntry>, fs: seq<SigEntry>)
    requires multiset(es) == multiset(fs) && DistinctPairs(es)
    ensures Built(es) == Built(fs)
  {
    PermutationKeepsDistinct(es, fs);
    SortStrict(es);
    SortStrict(fs);
    StrictOrderUnique(Sorted(es), Sorted(fs));
  }
}
