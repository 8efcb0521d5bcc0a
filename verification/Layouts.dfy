/** Signature bundles, trust roots and their validity, byte by byte (src/crypto.rs). */
module Layouts {
  import opened Prelude
  import opened Bundle
  import opened TrustRoots
  import opened Signing

  // ---------------------------------------------------------------- the signature bundle

  /** Where the `i`-th entry begins: after ten bytes, and twelve and a signature for each entry before it. */
  function EntryStart(es: seq<SigEntry>, i: nat): (r: nat)
    requires i <= |es|
    ensures r >= 10
  {
    if i == 0 then 10 else EntryStart(es, i - 1) + 12 + |es[i - 1].sig|
  }

  /** Eight bytes of key identifier, one of algorithm, a zero, the length of the signature with its low byte
      first, and the signature. */
  predicate EntryLies(bytes: Bytes, at: nat, e: SigEntry) {
    && at + 12 + |e.sig| <= |bytes|
    && bytes[at..at + 8] == e.keyId
    && bytes[at + 8] == e.algId && bytes[at + 9] == 0
    && bytes[at + 10] as nat + 256 * bytes[at + 11] as nat == |e.sig|
    && bytes[at + 12..at + 12 + |e.sig|] == e.sig
  }

  /** `VGSIG1`, version 1, a zero, the number of entries with its low byte first, and the entries end to end. */
  predicate BundleLies(bytes: Bytes, es: seq<SigEntry>) {
    && |bytes| == EntryStart(es, |es|)
    && bytes[0] == 'V' as int && bytes[1] == 'G' as int && bytes[2] == 'S' as int && bytes[3] == 'I' as int
    && bytes[4] == 'G' as int && bytes[5] == '1' as int && bytes[6] == 1 && bytes[7] == 0
    && bytes[8] as nat + 256 * bytes[9] as nat == |es|
    && forall i :: 0 <= i < |es| ==> EntryLies(bytes, EntryStart(es, i), es[i])
  }

  predicate Ascends(a: SigEntry, b: SigEntry) {
    LexBefore(a.keyId, b.keyId) || (a.keyId == b.keyId && a.algId < b.algId)
  }

  /** One to 64 entries, in ascending order, with signatures of at most 128 bytes, of 64 for the two algorithms
      that are known. */
  predicate BundleRules(es: seq<SigEntry>) {
    && 1 <= |es| <= 64
    && (forall i :: 0 <= i < |es| ==> |es[i].sig| <= 128 && (es[i].algId == 1 || es[i].algId == 2 ==> |es[i].sig| == 64))
    && (forall i :: 0 < i < |es| ==> Ascends(es[i - 1], es[i]))
  }

  lemma RulesAre(es: seq<SigEntry>)
    ensures Canonical(es) <==> BundleRules(es)
  {
    forall i | 0 < i < |es| ensures EntryCompare(es[i - 1], es[i]) < 0 <==> Ascends(es[i - 1], es[i]) {
      CompareIs(es[i - 1].keyId, es[i].keyId);
      CompareEqual(es[i - 1].keyId, es[i].keyId);
    }
    hide EntryCompare, Ascends;
  }

  lemma EntryLiesIs(bytes: Bytes, at: nat, e: SigEntry)
    requires |e.sig| < 65536
    ensures EntryLies(bytes, at, e) <==> at + 12 + |e.sig| <= |bytes| && bytes[at..at + 12 + |e.sig|] == EncodeEntry(e)
  {
    var code := EncodeEntry(e);
    assert code[..8] == e.keyId && code[8] == e.algId && code[9] == 0 && code[12..] == e.sig;
    assert code[10] == |e.sig| % 256 && code[11] == |e.sig| / 256;
    if at + 12 + |e.sig| <= |bytes| {
      var part := bytes[at..at + 12 + |e.sig|];
      assert part[..8] == bytes[at..at + 8] && part[8] == bytes[at + 8] && part[9] == bytes[at + 9];
      assert part[10] == bytes[at + 10] && part[11] == bytes[at + 11] && part[12..] == bytes[at + 12..at + 12 + |e.sig|];
      SameParts(part, code);
    }
  }

  lemma SameParts(a: Bytes, b: Bytes)
    requires |a| == |b| >= 12
    ensures a == b <==> a[..8] == b[..8] && a[8] == b[8] && a[9] == b[9] && a[10] == b[10] && a[11] == b[11] && a[12..] == b[12..]
  {
    if a[..8] == b[..8] && a[8] == b[8] && a[9] == b[9] && a[10] == b[10] && a[11] == b[11] && a[12..] == b[12..] {
      forall i | 0 <= i < |a| ensures a[i] == b[i] {
        if i < 8 { assert a[i] == a[..8][i] && b[i] == b[..8][i]; }
        if i >= 12 { assert a[i] == a[12..][i - 12] && b[i] == b[12..][i - 12]; }
      }
    }
  }

  lemma {:induction false} EncodedLength(es: seq<SigEntry>, i: nat)
    requires i <= |es|
    ensures 10 + |EncodeEntries(es[..i])| == EntryStart(es, i)
  {
    if i > 0 {
      EncodedLength(es, i - 1);
      assert es[..i] == es[..i - 1] + [es[i - 1]];
      EncodeAppend(es[..i - 1], es[i - 1]);
    }
  }

  lemma OneMoreLies(es: seq<SigEntry>, i: nat)
    requires i < |es|
    ensures Header(|es|) + EncodeEntries(es[..i + 1]) == Header(|es|) + EncodeEntries(es[..i]) + EncodeEntry(es[i])
  {
    assert es[..i + 1] == es[..i] + [es[i]];
    EncodeAppend(es[..i], es[i]);
    hide EncodeEntries, EncodeEntry, Header;
    var a, b, c := Header(|es|), EncodeEntries(es[..i]), EncodeEntry(es[i]);
    assert a + (b + c) == a + b + c;
  }

  /** What the entries up to `i` are printed to is what the bytes begin with. */
  lemma {:induction false} PrintedSoFar(bytes: Bytes, es: seq<SigEntry>, i: nat)
    requires i <= |es| && bytes == Header(|es|) + EncodeEntries(es)
    ensures EntryStart(es, i) <= |bytes| && bytes[..EntryStart(es, i)] == Header(|es|) + EncodeEntries(es[..i])
    decreases |es| - i
  {
    hide EncodeEntries, EncodeEntry, Header;
    EncodedLength(es, i);
    if i == |es| {
      assert es[..i] == es && bytes[..EntryStart(es, i)] == bytes;
    } else {
      PrintedSoFar(bytes, es, i + 1);
      OneMoreLies(es, i);
      assert bytes[..EntryStart(es, i)] == bytes[..EntryStart(es, i + 1)][..EntryStart(es, i)];
    }
  }

  lemma PrintedLies(bytes: Bytes, es: seq<SigEntry>, i: nat)
    requires i < |es| && bytes == Header(|es|) + EncodeEntries(es) && |es[i].sig| < 65536
    ensures EntryLies(bytes, EntryStart(es, i), es[i])
  {
    hide *;
    var at := EntryStart(es, i);
    PrintedSoFar(bytes, es, i + 1);
    StartsAt(es, i);
    OneMoreLies(es, i);
    EncodedLength(es, i);
    EntryLiesIs(bytes, at, es[i]);
    var end := at + 12 + |es[i].sig|;
    assert bytes[at..end] == bytes[..end][at..];
  }

  lemma HeaderLies(bytes: Bytes, n: nat)
    requires n < 65536 && |bytes| >= 10
    ensures bytes[..10] == Header(n) <==>
      && bytes[0] == 'V' as int && bytes[1] == 'G' as int && bytes[2] == 'S' as int && bytes[3] == 'I' as int
      && bytes[4] == 'G' as int && bytes[5] == '1' as int && bytes[6] == 1 && bytes[7] == 0
      && bytes[8] as nat + 256 * bytes[9] as nat == n
  {
    var code := Header(n);
    assert code == [0x56, 0x47, 0x53, 0x49, 0x47, 0x31, 1, 0, n % 256, n / 256];
    var head := bytes[..10];
    assert head == [bytes[0], bytes[1], bytes[2], bytes[3], bytes[4], bytes[5], bytes[6], bytes[7], bytes[8], bytes[9]];
  }

  lemma {:induction false} LyingIsPrinted(bytes: Bytes, es: seq<SigEntry>, i: nat)
    requires i <= |es| && BundleLies(bytes, es) && (forall j :: 0 <= j < |es| ==> |es[j].sig| < 65536) && |es| < 65536
    ensures EntryStart(es, i) <= |bytes| && bytes[..EntryStart(es, i)] == Header(|es|) + EncodeEntries(es[..i])
  {
    hide *;
    if i == 0 {
      LyingHeader(bytes, es);
      StartsAt(es, 0);
    } else {
      var at := EntryStart(es, i - 1);
      LyingIsPrinted(bytes, es, i - 1);
      LyingEntry(bytes, es, i - 1);
      OneMoreLies(es, i - 1);
      StartsAt(es, i - 1);
      var end := EntryStart(es, i);
      assert bytes[..end] == bytes[..at] + bytes[at..end];
    }
  }

  lemma StartsAt(es: seq<SigEntry>, i: nat)
    requires i <= |es|
    ensures i == 0 ==> EntryStart(es, i) == 10
    ensures i < |es| ==> EntryStart(es, i + 1) == EntryStart(es, i) + 12 + |es[i].sig|
  {
  }

  lemma LyingHeader(bytes: Bytes, es: seq<SigEntry>)
    requires BundleLies(bytes, es) && |es| < 65536
    ensures 10 <= |bytes| && bytes[..10] == Header(|es|) + EncodeEntries(es[..0])
  {
    HeaderLies(bytes, |es|);
    assert es[..0] == [] && Header(|es|) + [] == Header(|es|);
    hide Header, EntryLies;
  }

  lemma LyingEntry(bytes: Bytes, es: seq<SigEntry>, i: nat)
    requires i < |es| && BundleLies(bytes, es) && |es[i].sig| < 65536
    ensures EntryStart(es, i + 1) <= |bytes| && bytes[EntryStart(es, i)..EntryStart(es, i + 1)] == EncodeEntry(es[i])
  {
    EntryLiesIs(bytes, EntryStart(es, i), es[i]);
    hide EntryLies, EncodeEntry;
  }

  lemma LiesIffPrinted(bytes: Bytes, es: seq<SigEntry>)
    requires |es| < 65536 && forall j :: 0 <= j < |es| ==> |es[j].sig| < 65536
    ensures BundleLies(bytes, es) <==> bytes == Header(|es|) + EncodeEntries(es)
  {
    assert es[..|es|] == es && bytes[..|bytes|] == bytes;
    if bytes == Header(|es|) + EncodeEntries(es) {
      EncodedLength(es, |es|);
      assert bytes[..10] == Header(|es|);
      HeaderLies(bytes, |es|);
      forall i | 0 <= i < |es| ensures EntryLies(bytes, EntryStart(es, i), es[i]) { PrintedLies(bytes, es, i); }
      hide Header, EncodeEntries, EntryLies;
    } else if BundleLies(bytes, es) {
      LyingIsPrinted(bytes, es, |es|);
      hide Header, EncodeEntries, EntryLies;
    }
  }

  /** The container, byte by byte: a byte string parses to these entries exactly if they keep the rules and lie
      in it as the format says. */
  lemma BundleLaidOut(bytes: Bytes, es: seq<SigEntry>)
    ensures Parsed(bytes) == Success(es) <==> BundleRules(es) && BundleLies(bytes, es)
  {
    RulesAre(es);
    if Canonical(es) {
      LiesIffPrinted(bytes, es);
      SortedIsDistinct(es);
      SortFixpoint(es);
      BuildThenParse(es);
    }
    if Parsed(bytes) == Success(es) { ParseThenBuild(bytes); }
    CanonicalCounts(es);
    hide Parsed, LegalEntries, StrictlySorted, DistinctPairs, Sorted, BundleLies, BundleRules, Header, EncodeEntries;
  }

  lemma CanonicalCounts(es: seq<SigEntry>)
    ensures Canonical(es) ==> 1 <= |es| <= MAX_BUNDLE_ENTRIES && LegalEntries(es)
  {
    hide LegalEntries, StrictlySorted;
  }

  // ---------------------------------------------------------------- trust roots

  /** The fields of a key spell these: an identifier, an Ed25519 key and an uncompressed P-256 point. */
  ghost predicate KeySpells(k: TrustedKey, id: Bytes, ed: Bytes, point: Bytes) {
    && |id| == 8 && Spells(k.keyId, id)
    && |ed| == 32 && Spells(k.ed25519, ed)
    && |point| == 65 && Spells(k.p256, point) && point[0] == 4
  }

  lemma FieldIs(s: string, n: nat, b: Bytes)
    ensures Field(s, n) == Some(b) <==> |b| == n && Spells(s, b)
  {
    HexIsSpelling(s, b);
    hide Unhex, Spells;
  }

  lemma KeyIs(k: TrustedKey, id: Bytes, ed: Bytes, point: Bytes)
    ensures KeySpells(k, id, ed, point)
      <==> KeyIdBytes(k) == Some(id) && Ed25519Bytes(k) == Some(ed) && P256Bytes(k) == Some(point)
    ensures KeySpells(k, id, ed, point) ==> Encodable(k) && KeyMaterial(k) == id + ed + point
  {
    FieldIs(k.keyId, 8, id);
    FieldIs(k.ed25519, 32, ed);
    FieldIs(k.p256, 65, point);
    hide Field, Spells;
  }

  /** The identity a key is to have: eight bytes of a hash over both public keys. */
  ghost predicate OwnId(p: Primitives, k: TrustedKey, id: Bytes) {
    exists ed, point :: KeySpells(k, id, ed, point) && id == p.sha256(Text("veil-guard/keyid/v1\0") + ed + point)[..8]
  }

  /** One to 16 keys, a threshold they can reach, the algorithms in order; every key has its own identity, and
      they ascend by it. */
  ghost predicate RootRules(p: Primitives, root: TrustRoot) {
    && 1 <= |root.keys| <= 16 && 1 <= root.threshold <= |root.keys|
    && (root.sigalgs == [Ed25519] || root.sigalgs == [P256] || root.sigalgs == [Ed25519, P256])
    && exists ids: seq<Bytes> ::
         && |ids| == |root.keys|
         && (forall i :: 0 <= i < |ids| ==> OwnId(p, root.keys[i], ids[i]))
         && (forall i :: 0 < i < |ids| ==> LexBefore(ids[i - 1], ids[i]))
  }

  lemma ValidKeyIs(p: Primitives, k: TrustedKey)
    ensures ValidKey(p, k) ==> OwnId(p, k, KeyIdBytes(k).value)
    ensures forall id :: OwnId(p, k, id) ==> ValidKey(p, k) && KeyIdBytes(k) == Some(id)
  {
    hide Field, Text, KeyIdBytes, Ed25519Bytes, P256Bytes, KeySpells;
    if ValidKey(p, k) { KeyIs(k, KeyIdBytes(k).value, Ed25519Bytes(k).value, P256Bytes(k).value); }
    forall id | OwnId(p, k, id) ensures ValidKey(p, k) && KeyIdBytes(k) == Some(id) {
      var ed, point :| KeySpells(k, id, ed, point) && id == p.sha256(Text("veil-guard/keyid/v1\0") + ed + point)[..8];
      KeyIs(k, id, ed, point);
    }
  }

  lemma AlgorithmLists(algs: seq<SigAlg>)
    ensures CanonicalAlgs(algs) <==> algs == [Ed25519] || algs == [P256] || algs == [Ed25519, P256]
  {
    if CanonicalAlgs(algs) { CanonicalAlgsShape(algs); }
  }

  /** What validation asks of a root, in terms of the bytes its fields spell. */
  lemma ValidRootIs(p: Primitives, root: TrustRoot)
    ensures ValidRoot(p, root) <==> RootRules(p, root)
  {
    AlgorithmLists(root.sigalgs);
    hide CanonicalAlgs, ValidKey, OwnId, KeyIdBytes, LexBefore, Compare;
    if ValidRoot(p, root) {
      ValidGivesIds(p, root);
    } else if RootRules(p, root) {
      var ids: seq<Bytes> :|
        && |ids| == |root.keys|
        && (forall i :: 0 <= i < |ids| ==> OwnId(p, root.keys[i], ids[i]))
        && (forall i :: 0 < i < |ids| ==> LexBefore(ids[i - 1], ids[i]));
      IdsGiveValid(p, root.keys, ids);
    }
  }

  lemma ValidGivesIds(p: Primitives, root: TrustRoot)
    requires ValidRoot(p, root)
    ensures exists ids: seq<Bytes> ::
      && |ids| == |root.keys|
      && (forall i :: 0 <= i < |ids| ==> OwnId(p, root.keys[i], ids[i]))
      && (forall i :: 0 < i < |ids| ==> LexBefore(ids[i - 1], ids[i]))
  {
    hide OwnId, KeyIdBytes, LexBefore, CanonicalAlgs;
    assert forall i :: 0 <= i < |root.keys| ==> KeyIdBytes(root.keys[i]).Some? by {
      assert forall i :: 0 <= i < |root.keys| ==> ValidKey(p, root.keys[i]);
    }
    var ids := seq(|root.keys|, i requires 0 <= i < |root.keys| => KeyIdBytes(root.keys[i]).value);
    forall i | 0 <= i < |ids| ensures OwnId(p, root.keys[i], ids[i]) {
      assert ValidKey(p, root.keys[i]);
      hide ValidKey;
      ValidKeyIs(p, root.keys[i]);
    }
    forall i | 0 < i < |ids| ensures LexBefore(ids[i - 1], ids[i]) {
      assert KeyBefore(root.keys[i - 1], root.keys[i]);
      CompareIs(ids[i - 1], ids[i]);
    }
  }

  lemma IdsGiveValid(p: Primitives, keys: seq<TrustedKey>, ids: seq<Bytes>)
    requires |ids| == |keys| && (forall i :: 0 <= i < |ids| ==> OwnId(p, keys[i], ids[i]))
    requires forall i :: 0 < i < |ids| ==> LexBefore(ids[i - 1], ids[i])
    ensures (forall i :: 0 <= i < |keys| ==> ValidKey(p, keys[i])) && KeysAscend(keys)
  {
    hide OwnId, KeyIdBytes, LexBefore, ValidKey;
    forall i | 0 <= i < |keys| ensures ValidKey(p, keys[i]) && KeyIdBytes(keys[i]) == Some(ids[i]) {
      ValidKeyIs(p, keys[i]);
    }
    forall i | 0 < i < |keys| ensures KeyBefore(keys[i - 1], keys[i]) {
      CompareIs(ids[i - 1], ids[i]);
    }
  }

  /** A key lies in 105 bytes: identifier, Ed25519 key, point. */
  ghost predicate KeyLies(bytes: Bytes, at: nat, k: TrustedKey) {
    at + 105 <= |bytes| && KeySpells(k, bytes[at..at + 8], bytes[at + 8..at + 40], bytes[at + 40..at + 105])
  }

  /** Three bytes - threshold, number of keys, a bit for each algorithm - and room for the keys. */
  predicate HeadLies(bytes: Bytes, root: TrustRoot) {
    && |bytes| == 3 + 105 * |root.keys|
    && bytes[0] == root.threshold % 256 && bytes[1] == |root.keys| % 256
    && bytes[2] < 4 && (Ed25519 in root.sigalgs <==> bytes[2] % 2 == 1) && (P256 in root.sigalgs <==> bytes[2] / 2 == 1)
  }

  /** The head, and the keys end to end. */
  ghost predicate RootLies(bytes: Bytes, root: TrustRoot) {
    HeadLies(bytes, root) && forall i: nat :: i < |root.keys| ==> KeyLies(bytes, 3 + 105 * i, root.keys[i])
  }

  lemma MaterialLies(k: TrustedKey, bytes: Bytes, at: nat)
    requires Encodable(k) && at + 105 <= |bytes|
    ensures KeyLies(bytes, at, k) <==> bytes[at..at + 105] == KeyMaterial(k)
  {
    var id, ed, point := bytes[at..at + 8], bytes[at + 8..at + 40], bytes[at + 40..at + 105];
    assert bytes[at..at + 105] == id + ed + point;
    KeyIs(k, id, ed, point);
    KeyIs(k, KeyIdBytes(k).value, Ed25519Bytes(k).value, P256Bytes(k).value);
    hide Field, KeySpells;
    var part := bytes[at..at + 105];
    assert part[..8] == id && part[8..40] == ed && part[40..] == point;
    if part == KeyMaterial(k) { ThreeParts(KeyIdBytes(k).value, Ed25519Bytes(k).value, P256Bytes(k).value, part); }
  }

  lemma ThreeParts(a: Bytes, b: Bytes, c: Bytes, whole: Bytes)
    requires |a| == 8 && |b| == 32 && |c| == 65 && whole == a + b + c
    ensures a == whole[..8] && b == whole[8..40] && c == whole[40..]
  {
  }

  lemma {:induction false} KeyIn(keys: seq<TrustedKey>, i: nat)
    requires i < |keys| && forall k :: k in keys ==> CanonicalFields(k)
    ensures |KeysMaterial(keys)| >= 105 * i + 105 && KeysMaterial(keys)[105 * i..105 * i + 105] == KeyMaterial(keys[i])
  {
    hide CanonicalFields, KeyMaterial;
    var m := KeysMaterial(keys);
    assert m == KeyMaterial(keys[0]) + KeysMaterial(keys[1..]);
    if i > 0 {
      KeyIn(keys[1..], i - 1);
      assert keys[i] == keys[1..][i - 1];
      assert m[105 * i..105 * i + 105] == m[105..][105 * (i - 1)..105 * (i - 1) + 105];
    }
  }

  /** The bytes of the identity, one by one: they exist exactly if every key's fields spell what they should, and
      then they are these. */
  lemma RootLaidOut(root: TrustRoot, bytes: Bytes)
    ensures RootBytes(root) == Some(bytes) <==> RootLies(bytes, root)
  {
    if RootLies(bytes, root) {
      forall k | k in root.keys ensures Encodable(k) {
        var i :| 0 <= i < |root.keys| && root.keys[i] == k;
        assert KeyLies(bytes, 3 + 105 * i, k);
        hide KeySpells;
        var at := 3 + 105 * i;
        KeyIs(k, bytes[at..at + 8], bytes[at + 8..at + 40], bytes[at + 40..at + 105]);
      }
    }
    if forall k :: k in root.keys ==> Encodable(k) { MaterialIs(root, bytes); }
    hide RootMaterial, Encodable, RootLies;
  }

  lemma MaterialIs(root: TrustRoot, bytes: Bytes)
    requires forall k :: k in root.keys ==> Encodable(k)
    ensures RootBytes(root) == Some(bytes) <==> RootLies(bytes, root)
  {
    var m := RootBytes(root).value;
    hide KeyLies, RootBytes, Encodable, HeadLies, SamePiece;
    MaterialHead(root, m);
    HeadsAgree(bytes, m, root);
    forall i: nat | i < |root.keys| && |bytes| == |m|
      ensures KeyLies(bytes, 3 + 105 * i, root.keys[i]) <==> SamePiece(bytes, m, i)
    {
      MaterialPiece(root, m, bytes, i);
    }
    if RootLies(bytes, root) { SamePieces(bytes, m, |root.keys|); }
    if bytes == m { SamePieceItself(m, |root.keys|); }
  }

  lemma HeadsAgree(a: Bytes, b: Bytes, root: TrustRoot)
    requires HeadLies(b, root)
    ensures |b| == 3 + 105 * |root.keys|
    ensures HeadLies(a, root) ==> |a| == |b| && a[0] == b[0] && a[1] == b[1] && a[2] == b[2]
  {
  }

  /** The same 105 bytes for the `i`-th key. */
  predicate SamePiece(a: Bytes, b: Bytes, i: nat) {
    108 + 105 * i <= |a| == |b| && a[3 + 105 * i..108 + 105 * i] == b[3 + 105 * i..108 + 105 * i]
  }

  lemma SamePieceItself(a: Bytes, n: nat)
    requires |a| == 3 + 105 * n
    ensures forall i: nat :: i < n ==> SamePiece(a, a, i)
  {
  }

  lemma MaterialPiece(root: TrustRoot, m: Bytes, bytes: Bytes, i: nat)
    requires i < |root.keys| && RootBytes(root) == Some(m) && |bytes| == |m| == 3 + 105 * |root.keys|
    ensures KeyLies(bytes, 3 + 105 * i, root.keys[i]) <==> SamePiece(bytes, m, i)
  {
    hide *;
    KeysPart(root, m);
    var at, to := 3 + 105 * i, 108 + 105 * i;
    KeyIn(root.keys, i);
    assert m[at..to] == m[3..][at - 3..to - 3];
    MaterialLies(root.keys[i], bytes, at);
    PieceIs(bytes, m, i);
  }

  lemma KeysPart(root: TrustRoot, m: Bytes)
    requires RootBytes(root) == Some(m)
    ensures forall k :: k in root.keys ==> Encodable(k) && CanonicalFields(k)
    ensures |m| >= 3 && m[3..] == KeysMaterial(root.keys)
  {
    hide KeysMaterial, Mask, P256Bytes, CanonicalFields;
  }

  lemma PieceIs(a: Bytes, b: Bytes, i: nat)
    requires 108 + 105 * i <= |a| == |b|
    ensures SamePiece(a, b, i) <==> a[3 + 105 * i..108 + 105 * i] == b[3 + 105 * i..108 + 105 * i]
  {
  }

  lemma MaterialHead(root: TrustRoot, m: Bytes)
    requires RootBytes(root) == Some(m)
    ensures HeadLies(m, root)
  {
    hide KeysMaterial, Encodable;
  }

  lemma SamePieces(a: Bytes, b: Bytes, n: nat)
    requires |a| == |b| == 3 + 105 * n && a[0] == b[0] && a[1] == b[1] && a[2] == b[2]
    requires forall i: nat :: i < n ==> SamePiece(a, b, i)
    ensures a == b
  {
    forall k | 3 <= k < |a| ensures a[k] == b[k] {
      var i := (k - 3) / 105;
      assert SamePiece(a, b, i);
      assert a[k] == a[3 + 105 * i..108 + 105 * i][k - 3 - 105 * i] && b[k] == b[3 + 105 * i..108 + 105 * i][k - 3 - 105 * i];
    }
  }

  /** The identifier: the hash, in lower-case hex, of the domain and those bytes. */
  lemma IdentifierIs(p: Primitives, root: TrustRoot, id: string)
    ensures IdHex(p, root) == Some(id)
      <==> exists bytes :: RootLies(bytes, root) && Spells(id, p.sha256(Text("veil-guard/trustroot/v1\0") + bytes))
  {
    hide RootLies, RootBytes, Spells, Hex, Text;
    forall bytes ensures RootBytes(root) == Some(bytes) <==> RootLies(bytes, root) { RootLaidOut(root, bytes); }
    if RootBytes(root).Some? {
      var bytes := RootBytes(root).value;
      HexIsSpelling(id, p.sha256(PREFIX_TRUSTROOT + bytes));
    }
  }

  // ---------------------------------------------------------------- what is signed

  /** What one signer contributes: under algorithm 1 and 2, over the domain of the document and its bytes, with
      the identifier that its two public keys give. */
  lemma SignedUnderItsDomain(p: Primitives, sign: SignOp, s: SignerKeys, payload: Bytes)
    ensures
      var id := p.sha256(Text("veil-guard/keyid/v1\0") + s.ed25519Public + s.p256Public)[..8];
      && Sign(p, sign, s, PREFIX_MANIFEST, payload) ==
           [SigEntry(id, 1, sign(Ed25519, s, Text("veil-guard/manifest/v1\0") + payload)),
            SigEntry(id, 2, sign(P256, s, Text("veil-guard/manifest/v1\0") + payload))]
      && Sign(p, sign, s, PREFIX_ROTATION, payload) ==
           [SigEntry(id, 1, sign(Ed25519, s, Text("veil-guard/rotation/v1\0") + payload)),
            SigEntry(id, 2, sign(P256, s, Text("veil-guard/rotation/v1\0") + payload))]
      && Sign(p, sign, s, PREFIX_REVOCATION, payload) ==
           [SigEntry(id, 1, sign(Ed25519, s, Text("veil-guard/revocation/v1\0") + payload)),
            SigEntry(id, 2, sign(P256, s, Text("veil-guard/revocation/v1\0") + payload))]
  {
    hide Text;
  }
}
