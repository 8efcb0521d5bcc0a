/** Scanning a document again after attributes were spliced into its tags. */
module Rescan {
  import opened Prelude
  import opened Html

  /** `g` reads like `h` between `lo` and `hi`, moved by `d`. */
  ghost predicate Same(h: Bytes, g: Bytes, d: nat, lo: nat, hi: nat) {
    hi <= |h| && hi + d <= |g| && forall k :: lo <= k < hi ==> g[k + d] == h[k]
  }

  lemma SameAt(h: Bytes, g: Bytes, d: nat, lo: nat, hi: nat, k: nat)
    requires Same(h, g, d, lo, hi) && lo <= k < hi
    ensures k < |h| && k + d < |g| && g[k + d] == h[k]
  {
  }

  lemma SamePart(h: Bytes, g: Bytes, d: nat, lo: nat, hi: nat, lo': nat, hi': nat)
    requires Same(h, g, d, lo, hi) && lo <= lo' && hi' <= hi
    ensures Same(h, g, d, lo', hi')
  {
  }

  // ---------------------------------------------------------------- runs and searches see the same

  lemma {:induction false} SkipSame(h: Bytes, g: Bytes, d: nat, i: nat, c: Class)
    requires i <= |h| && Same(h, g, d, i, Skip(h, i, c))
    requires Skip(h, i, c) + d < |g| && !In(c, g[Skip(h, i, c) + d])
    ensures i + d <= |g| && Skip(g, i + d, c) == Skip(h, i, c) + d
    decreases |h| - i
  {
    hide In;
    if i < Skip(h, i, c) {
      assert g[i + d] == h[i];
      SkipSame(h, g, d, i + 1, c);
    }
  }

  lemma {:induction false} IndexSame(h: Bytes, g: Bytes, d: nat, i: nat, b: byte)
    requires IndexOf(h, i, b).Some? && Same(h, g, d, i, IndexOf(h, i, b).value + 1)
    ensures IndexOf(g, i + d, b) == Some(IndexOf(h, i, b).value + d)
    decreases |h| - i
  {
    assert g[i + d] == h[i];
    if i < IndexOf(h, i, b).value {
      IndexSame(h, g, d, i + 1, b);
    }
  }

  lemma CommentSame(h: Bytes, g: Bytes, d: nat, i: nat)
    requires IndexOfCommentEnd(h, i).Some? && Same(h, g, d, i, IndexOfCommentEnd(h, i).value + 3)
    ensures IndexOfCommentEnd(g, i + d) == Some(IndexOfCommentEnd(h, i).value + d)
    decreases |h| - i
  {
    var e := IndexOfCommentEnd(h, i).value;
    assert g[i + d] == h[i] && g[i + 1 + d] == h[i + 1] && g[i + 2 + d] == h[i + 2];
    if i < e {
      CommentSame(h, g, d, i + 1);
    }
  }

  lemma ClosesSame(h: Bytes, g: Bytes, d: nat, k: nat, name: Bytes)
    requires Same(h, g, d, k, k + 3 + |name|)
    ensures ClosesAt(g, k + d, name) <==> ClosesAt(h, k, name)
  {
    var n := |name|;
    assert g[k + d] == h[k] && g[k + 1 + d] == h[k + 1] && g[k + 2 + n + d] == h[k + 2 + n];
    SliceSame(h, g, d, k + 2, k + 2 + n);
  }

  /** The closing tag is found in the same place, given sight of one byte past its name. */
  lemma {:induction false} FindCloseSame(h: Bytes, g: Bytes, d: nat, i: nat, name: Bytes)
    requires FindClose(h, i, name).Some? && Same(h, g, d, i, FindClose(h, i, name).value + 3 + |name|)
    ensures FindClose(g, i + d, name) == Some(FindClose(h, i, name).value + d)
    decreases |h| - i
  {
    hide ClosesAt;
    ClosesSame(h, g, d, i, name);
    if i < FindClose(h, i, name).value {
      FindCloseSame(h, g, d, i + 1, name);
    }
  }

  // ---------------------------------------------------------------- attribute lists see the same

  lemma ValueSame(h: Bytes, g: Bytes, d: nat, i: nat, start: nat, start': nat)
    requires i <= |h| && ValueAt(h, i, start).Success? && Same(h, g, d, i, ValueAt(h, i, start).value.1 + 1)
    ensures i + d <= |g|
    ensures ValueAt(g, i + d, start') == Success((ValueAt(h, i, start).value.0, ValueAt(h, i, start).value.1 + d))
  {
    hide Decode, In, Skip, IndexOf;
    var k := ValueAt(h, i, start).value.1;
    assert g[i + d] == h[i];
    if h[i] == EQUALS {
      var j := Skip(h, i + 1, Space);
      assert g[j + d] == h[j];
      SkipSame(h, g, d, i + 1, Space);
      if h[j] == QUOTE || h[j] == APOSTROPHE {
        IndexSame(h, g, d, j + 1, h[j]);
        var end := IndexOf(h, j + 1, h[j]).value;
        assert g[j + d + 1..end + d] == h[j + 1..end] by { SliceSame(h, g, d, j + 1, end); }
      } else {
        assert g[k + d] == h[k];
        SkipSame(h, g, d, j, Unquoted);
        SliceSame(h, g, d, j, k);
      }
    }
  }

  lemma SliceSame(h: Bytes, g: Bytes, d: nat, lo: nat, hi: nat)
    requires lo <= hi && Same(h, g, d, lo, hi)
    ensures g[lo + d..hi + d] == h[lo..hi]
  {
    forall j | 0 <= j < hi - lo ensures g[lo + d..hi + d][j] == h[lo..hi][j] {
      assert g[(lo + j) + d] == h[lo + j];
    }
  }

  lemma OneAttributeSame(h: Bytes, g: Bytes, d: nat, j: nat, start: nat, start': nat)
    requires j <= |h| && OneAttribute(h, j, start).Success? && Same(h, g, d, j, OneAttribute(h, j, start).value.1 + 1)
    ensures j + d <= |g|
    ensures OneAttribute(g, j + d, start')
         == Success((OneAttribute(h, j, start).value.0, OneAttribute(h, j, start).value.1 + d))
  {
    hide Decode, In, ValueAt, LowerAll, Skip;
    var n := Skip(h, j, AttrName);
    var s := Skip(h, n, Space);
    assert g[n + d] == h[n] && g[s + d] == h[s];
    SkipSame(h, g, d, j, AttrName);
    SkipSame(h, g, d, n, Space);
    ValueSame(h, g, d, s, start, start');
    SliceSame(h, g, d, j, n);
  }

  /** The outcome of an attribute list moved by `d`. */
  function MovedList(list: AttrList, d: nat): AttrList { list.(gt := list.gt + d) }

  lemma GatheredMoves(attrs: seq<Attr>, selfClosing: bool, r: Result<AttrList, HtmlError>, d: nat)
    requires r.Success?
    ensures Gathered(attrs, selfClosing, Success(MovedList(r.value, d)))
         == Success(MovedList(Gathered(attrs, selfClosing, r).value, d))
  {
  }

  lemma {:induction false} AttributesSame(h: Bytes, g: Bytes, d: nat, i: nat, start: nat, start': nat)
    requires i <= |h| && Attributes(h, i, start).Success? && Same(h, g, d, i, Attributes(h, i, start).value.gt + 1)
    ensures i + d <= |g|
    ensures Attributes(g, i + d, start') == Success(MovedList(Attributes(h, i, start).value, d))
    decreases |h| - i
  {
    hide In, OneAttribute, Gathered, MovedList, Skip;
    var j := Skip(h, i, Space);
    GatheredKeepsGt(h, i, start);
    assert g[j + d] == h[j];
    SkipSame(h, g, d, i, Space);
    if h[j] == GT {
      assert MovedList(AttrList([], j, false), d) == AttrList([], j + d, false) by { MovedEmpty(j, d); }
    } else if h[j] == SLASH {
      AttributesSame(h, g, d, j + 1, start, start');
      GatheredMoves([], true, Attributes(h, j + 1, start), d);
    } else {
      OneAttributeSame(h, g, d, j, start, start');
      var (attr, k) := OneAttribute(h, j, start).value;
      AttributesSame(h, g, d, k, start, start');
      GatheredMoves([attr], false, Attributes(h, k, start), d);
    }
  }

  lemma MovedEmpty(j: nat, d: nat)
    ensures MovedList(AttrList([], j, false), d) == AttrList([], j + d, false)
  {
  }

  /** The position of the closing `>` is that of the rest of the list. */
  lemma GatheredKeepsGt(h: Bytes, i: nat, start: nat)
    requires i <= |h| && Attributes(h, i, start).Success?
    ensures var j := Skip(h, i, Space);
      && j < |h| && j <= Attributes(h, i, start).value.gt
      && (h[j] == SLASH ==>
            Attributes(h, j + 1, start).Success? && Attributes(h, j + 1, start).value.gt == Attributes(h, i, start).value.gt)
      && (h[j] != SLASH && h[j] != GT ==>
            && OneAttribute(h, j, start).Success?
            && var k := OneAttribute(h, j, start).value.1;
               Attributes(h, k, start).Success? && Attributes(h, k, start).value.gt == Attributes(h, i, start).value.gt)
  {
  }

  // ---------------------------------------------------------------- the inserted attribute

  const INTEGRITY: Bytes := [0x69, 0x6E, 0x74, 0x65, 0x67, 0x72, 0x69, 0x74, 0x79]

  /** ` integrity="value"` */
  function AttrText(v: Bytes): (r: Bytes)
    ensures |r| == 13 + |v|
  {
    [SPACE] + Unspaced(v)
  }

  /** `integrity="value"`, as it reads when it lands in an attribute value. */
  function Unspaced(v: Bytes): (r: Bytes)
    ensures |r| == 12 + |v|
  {
    INTEGRITY + [EQUALS, QUOTE] + v + [QUOTE]
  }

  predicate SafeValue(v: Bytes) {
    forall b :: b in v ==> b != QUOTE && b != AMP && b != GT && !IsSpace(b)
  }

  /** At `p` of `g` stands the inserted text, and the closing `>` behind it. */
  ghost predicate InsertedAt(g: Bytes, p: nat, v: Bytes) {
    p + |AttrText(v)| < |g| && g[p..p + |AttrText(v)|] == AttrText(v) && g[p + |AttrText(v)|] == GT
  }

  lemma InsertedBytes(g: Bytes, p: nat, v: Bytes)
    requires InsertedAt(g, p, v)
    ensures g[p] == SPACE && g[p + 1..p + 10] == INTEGRITY && g[p + 10] == EQUALS && g[p + 11] == QUOTE
    ensures g[p + 12..p + 12 + |v|] == v && g[p + 12 + |v|] == QUOTE && g[p + 13 + |v|] == GT
    ensures g[p + 1..p + 13 + |v|] == Unspaced(v)
  {
    var t := g[p..p + |AttrText(v)|];
    assert t[0] == g[p] && t[10] == g[p + 10] && t[11] == g[p + 11] && t[12 + |v|] == g[p + 12 + |v|];
    SubSlice(g, p, |t|, 1, 10);
    SubSlice(g, p, |t|, 12, 12 + |v|);
    SubSlice(g, p, |t|, 1, |t|);
    TextParts(v);
  }

  lemma TextParts(v: Bytes)
    ensures var t := AttrText(v);
      && t[0] == SPACE && t[1..10] == INTEGRITY && t[10] == EQUALS && t[11] == QUOTE
      && t[12..12 + |v|] == v && t[12 + |v|] == QUOTE && t[1..|t|] == Unspaced(v)
  {
  }

  lemma SubSlice(g: Bytes, p: nat, n: nat, a: nat, b: nat)
    requires a <= b <= n && p + n <= |g|
    ensures g[p..p + n][a..b] == g[p + a..p + b]
  {
    var t, x, y := g[p..p + n], g[p..p + n][a..b], g[p + a..p + b];
    forall k | 0 <= k < b - a ensures x[k] == y[k] {
      assert x[k] == t[a + k];
    }
  }

  lemma {:induction false} SkipExact(h: Bytes, i: nat, j: nat, c: Class)
    requires i <= j <= |h| && (j < |h| ==> !In(c, h[j])) && forall k :: i <= k < j ==> In(c, h[k])
    ensures Skip(h, i, c) == j
    decreases j - i
  {
    hide In;
    if i < j { SkipExact(h, i + 1, j, c); }
  }

  lemma {:induction false} IndexExact(h: Bytes, i: nat, e: nat, b: byte)
    requires i <= e < |h| && h[e] == b && forall k :: i <= k < e ==> h[k] != b
    ensures IndexOf(h, i, b) == Some(e)
    decreases e - i
  {
    if i < e { IndexExact(h, i + 1, e, b); }
  }

  /** The name of the inserted attribute is read as one name. */
  lemma IntegrityName(g: Bytes, p: nat, v: Bytes)
    requires InsertedAt(g, p, v)
    ensures Skip(g, p + 1, AttrName) == p + 10 && Skip(g, p + 10, Space) == p + 10
    ensures Skip(g, p, Space) == p + 1 && Skip(g, p + 1, Space) == p + 1
    ensures LowerAll(g[p + 1..p + 10]) == INTEGRITY
  {
    InsertedBytes(g, p, v);
    forall k | p + 1 <= k < p + 10 ensures In(AttrName, g[k]) && !IsSpace(g[k]) {
      assert g[k] == g[p + 1..p + 10][k - p - 1] == INTEGRITY[k - p - 1];
    }
    SkipExact(g, p + 1, p + 10, AttrName);
    SkipExact(g, p + 10, p + 10, Space);
    SkipExact(g, p, p + 1, Space);
    SkipExact(g, p + 1, p + 1, Space);
    assert LowerAll(INTEGRITY) == INTEGRITY;
  }

  lemma IntegrityValue(g: Bytes, p: nat, v: Bytes, start: nat)
    requires InsertedAt(g, p, v) && SafeValue(v)
    ensures ValueAt(g, p + 10, start) == Success((v, p + 13 + |v|))
  {
    InsertedBytes(g, p, v);
    SkipExact(g, p + 11, p + 11, Space);
    forall k | p + 12 <= k < p + 12 + |v| ensures g[k] != QUOTE {
      assert g[k] == g[p + 12..p + 12 + |v|][k - p - 12] && g[k] in v;
    }
    IndexExact(g, p + 12, p + 12 + |v|, QUOTE);
    assert AMP !in v;
    hide In;
  }

  /** From the inserted blank, or from just behind it, the list is the one inserted attribute. */
  lemma IntegrityTail(g: Bytes, p: nat, q: nat, v: Bytes, start: nat)
    requires InsertedAt(g, p, v) && SafeValue(v) && (q == p || q == p + 1)
    ensures Attributes(g, q, start) == Success(AttrList([Attr(INTEGRITY, v)], p + |AttrText(v)|, false))
  {
    InsertedBytes(g, p, v);
    IntegrityName(g, p, v);
    IntegrityValue(g, p, v, start);
    var e := p + |AttrText(v)|;
    SkipExact(g, e, e, Space);
    assert g[p + 1] == g[p + 1..p + 10][0] == 0x69;
    hide Skip, ValueAt, In, LowerAll, Decode, InsertedAt, AttrText, Unspaced, SafeValue;
    assert OneAttribute(g, p + 1, start) == Success((Attr(INTEGRITY, v), e));
    assert Attributes(g, e, start) == Success(AttrList([], e, false));
    assert [Attr(INTEGRITY, v)] + [] == [Attr(INTEGRITY, v)];
  }

  // ---------------------------------------------------------------- a list that ends in a bare `=`

  /** The attribute at `j` is a name, `=`, and then nothing before the closing `>`. */
  predicate BareAt(h: Bytes, j: nat)
    requires j <= |h|
  {
    var s := Skip(h, Skip(h, j, AttrName), Space);
    s < |h| && h[s] == EQUALS && var t := Skip(h, s + 1, Space); t < |h| && h[t] == GT
  }

  /** The attribute list from `i` ends in such an attribute. */
  predicate BareEnd(h: Bytes, i: nat)
    requires i <= |h|
    decreases |h| - i
  {
    var j := Skip(h, i, Space);
    if j >= |h| || h[j] == GT then false
    else if h[j] == SLASH then BareEnd(h, j + 1)
    else
      match OneAttribute(h, j, 0)
      case Failure(_) => false
      case Success((_, k)) => BareAt(h, j) || BareEnd(h, k)
  }

  /** What an attribute list becomes: it gains the attribute - or, ending in a bare `=`, takes the
      inserted text for the value of its last one. */
  function WithIntegrity(attrs: seq<Attr>, v: Bytes, bare: bool): seq<Attr> {
    if bare && attrs != [] then attrs[..|attrs| - 1] + [Attr(attrs[|attrs| - 1].name, Unspaced(v))]
    else attrs + [Attr(INTEGRITY, v)]
  }

  /** Errors aside, where an attribute starts counting for its error offset does not matter. */
  lemma StartIrrelevant(h: Bytes, j: nat, start: nat, start': nat)
    requires j <= |h|
    ensures OneAttribute(h, j, start).Success? ==> OneAttribute(h, j, start') == OneAttribute(h, j, start)
    ensures OneAttribute(h, j, start).Success? <==> OneAttribute(h, j, start').Success?
  {
    hide Decode, In, LowerAll;
  }

  /** The name part of an attribute reads the same. */
  lemma NameInsert(h: Bytes, g: Bytes, d: nat, j: nat, gt: nat)
    requires j <= gt < |h| && Skip(h, j, AttrName) <= gt
    requires Same(h, g, d, j, gt) && gt + d < |g| && g[gt + d] == SPACE
    ensures Skip(g, j + d, AttrName) == Skip(h, j, AttrName) + d
    ensures g[j + d..Skip(h, j, AttrName) + d] == h[j..Skip(h, j, AttrName)]
  {
    var n := Skip(h, j, AttrName);
    assert !In(AttrName, SPACE);
    hide In, Skip, Same;
    if n < gt { SameAt(h, g, d, j, gt, n); }
    SamePart(h, g, d, j, gt, j, n);
    SkipSame(h, g, d, j, AttrName);
    SliceSame(h, g, d, j, n);
  }

  /** An attribute that does not end bare reads the same, except that an attribute without a value
      just before the `>` also swallows the inserted blank. */
  lemma OneAttributeInsert(h: Bytes, g: Bytes, d: nat, j: nat, gt: nat, v: Bytes, start: nat, start': nat)
    requires j <= gt < |h| && h[gt] == GT && OneAttribute(h, j, start).Success?
    requires OneAttribute(h, j, start).value.1 <= gt && !BareAt(h, j)
    requires Same(h, g, d, j, gt) && InsertedAt(g, gt + d, v)
    ensures var (attr, k) := OneAttribute(h, j, start).value;
      || OneAttribute(g, j + d, start') == Success((attr, k + d))
      || (k == gt && OneAttribute(g, j + d, start') == Success((attr, gt + d + 1)))
  {
    hide LowerAll, InsertedAt, In, Skip, ValueAt, OneAttribute, Same, BareAt, NotGt;
    BlankThenLetter(g, gt + d, v);
    AttributeParts(h, j, start);
    var n := Skip(h, j, AttrName);
    var s := Skip(h, n, Space);
    NameInsert(h, g, d, j, gt);
    if s < gt {
      ValuedInsert(h, g, d, j, gt, n, s, start, start');
      AttributeFrom(g, j + d, start', n + d, s + d);
    } else {
      SamePart(h, g, d, j, gt, n, gt);
      SkipThrough(h, g, d, n, gt);
      NoValue(h, s, start);
      NoValue(g, gt + d + 1, start');
      AttributeFrom(g, j + d, start', n + d, gt + d + 1);
    }
  }

  /** The part of an attribute behind its name, when it does not reach the `>`. */
  lemma ValuedInsert(h: Bytes, g: Bytes, d: nat, j: nat, gt: nat, n: nat, s: nat, start: nat, start': nat)
    requires j <= n <= s < gt < |h| && h[gt] == GT && Skip(h, j, AttrName) == n && Skip(h, n, Space) == s && !BareAt(h, j)
    requires ValueAt(h, s, start).Success? && ValueAt(h, s, start).value.1 <= gt
    requires Same(h, g, d, j, gt) && gt + d < |g| && g[gt + d] == SPACE
    ensures Skip(g, n + d, Space) == s + d
    ensures ValueAt(g, s + d, start') == Success((ValueAt(h, s, start).value.0, ValueAt(h, s, start).value.1 + d))
  {
    NotBare(h, j, gt);
    hide In, Skip, ValueAt, Same, BareAt, NotGt;
    SameAt(h, g, d, j, gt, s);
    SamePart(h, g, d, j, gt, n, s);
    SkipSame(h, g, d, n, Space);
    SamePart(h, g, d, j, gt, s, gt);
    ValueInsert(h, g, d, s, gt, start, start');
  }

  lemma BlankThenLetter(g: Bytes, p: nat, v: Bytes)
    requires InsertedAt(g, p, v)
    ensures p + 1 < |g| && g[p] == SPACE && g[p + 1] == 0x69 && !In(Space, g[p + 1])
  {
    InsertedBytes(g, p, v);
    assert g[p + 1] == g[p + 1..p + 10][0] == 0x69;
  }

  lemma AttributeParts(h: Bytes, j: nat, start: nat)
    requires j <= |h| && OneAttribute(h, j, start).Success?
    ensures var n := Skip(h, j, AttrName); var s := Skip(h, n, Space);
      && n > j && ValueAt(h, s, start).Success?
      && OneAttribute(h, j, start).value == (Attr(LowerAll(h[j..n]), ValueAt(h, s, start).value.0), ValueAt(h, s, start).value.1)
  {
  }

  lemma AttributeFrom(g: Bytes, j: nat, start: nat, n: nat, s: nat)
    requires j < n <= |g| && Skip(g, j, AttrName) == n && Skip(g, n, Space) == s && ValueAt(g, s, start).Success?
    ensures OneAttribute(g, j, start)
         == Success((Attr(LowerAll(g[j..n]), ValueAt(g, s, start).value.0), ValueAt(g, s, start).value.1))
  {
  }

  lemma NoValue(h: Bytes, s: nat, start: nat)
    requires s < |h| && h[s] != EQUALS
    ensures ValueAt(h, s, start) == Success(([], s))
  {
  }

  predicate NotGt(h: Bytes, t: nat) { t < |h| ==> h[t] != GT }

  lemma NotBare(h: Bytes, j: nat, gt: nat)
    requires j <= gt < |h| && h[gt] == GT && !BareAt(h, j)
    ensures var s := Skip(h, Skip(h, j, AttrName), Space);
      s < |h| && h[s] == EQUALS ==> NotGt(h, Skip(h, s + 1, Space))
  {
  }

  lemma QuotedValue(h: Bytes, s: nat, start: nat, t: nat, e: nat)
    requires s < |h| && h[s] == EQUALS && Skip(h, s + 1, Space) == t < |h| && (h[t] == QUOTE || h[t] == APOSTROPHE)
    requires IndexOf(h, t + 1, h[t]) == Some(e)
    ensures t + 1 <= e && ValueAt(h, s, start) == Success((Decode(h[t + 1..e]), e + 1))
  {
  }

  lemma UnquotedValue(h: Bytes, s: nat, start: nat, t: nat, k: nat)
    requires s < |h| && h[s] == EQUALS && Skip(h, s + 1, Space) == t < |h| && h[t] != QUOTE && h[t] != APOSTROPHE
    requires Skip(h, t, Unquoted) == k
    ensures t <= k && ValueAt(h, s, start) == Success((Decode(h[t..k]), k))
  {
  }

  /** A value begins no later than where it ends. */
  lemma ValueStarts(h: Bytes, s: nat, start: nat)
    requires s < |h| && h[s] == EQUALS && ValueAt(h, s, start).Success?
    ensures var t := Skip(h, s + 1, Space);
      && t < |h| && t <= ValueAt(h, s, start).value.1
      && (h[t] == QUOTE || h[t] == APOSTROPHE ==> IndexOf(h, t + 1, h[t]).Some?)
  {
  }

  /** A run of blanks up to the `>` continues over the inserted blank. */
  lemma {:induction false} SkipThrough(h: Bytes, g: Bytes, d: nat, i: nat, gt: nat)
    requires i <= gt < |h| && Skip(h, i, Space) == gt && Same(h, g, d, i, gt)
    requires gt + d + 1 < |g| && g[gt + d] == SPACE && !In(Space, g[gt + d + 1])
    ensures Skip(g, i + d, Space) == gt + d + 1
    decreases gt - i
  {
    if i < gt {
      assert g[i + d] == h[i];
      SkipThrough(h, g, d, i + 1, gt);
    } else {
      SkipExact(g, gt + d, gt + d + 1, Space);
    }
  }

  lemma QuotedInsert(h: Bytes, g: Bytes, d: nat, s: nat, t: nat, e: nat, start: nat, start': nat)
    requires s < t < |h| && h[s] == EQUALS && Skip(h, s + 1, Space) == t && (h[t] == QUOTE || h[t] == APOSTROPHE)
    requires IndexOf(h, t + 1, h[t]) == Some(e) && Same(h, g, d, s, e + 1)
    requires Skip(g, s + 1 + d, Space) == t + d
    ensures ValueAt(h, s, start) == Success((Decode(h[t + 1..e]), e + 1))
    ensures ValueAt(g, s + d, start') == Success((Decode(h[t + 1..e]), e + 1 + d))
  {
    hide ValueAt, Decode, Skip, IndexOf, Same;
    QuotedValue(h, s, start, t, e);
    SameAt(h, g, d, s, e + 1, s);
    SameAt(h, g, d, s, e + 1, t);
    SamePart(h, g, d, s, e + 1, t + 1, e + 1);
    IndexSame(h, g, d, t + 1, h[t]);
    SamePart(h, g, d, s, e + 1, t + 1, e);
    SliceSame(h, g, d, t + 1, e);
    QuotedValue(g, s + d, start', t + d, e + d);
    assert g[t + d + 1..e + d] == h[t + 1..e];
  }

  lemma UnquotedInsert(h: Bytes, g: Bytes, d: nat, s: nat, t: nat, k: nat, start: nat, start': nat)
    requires s < t < |h| && h[s] == EQUALS && Skip(h, s + 1, Space) == t && h[t] != QUOTE && h[t] != APOSTROPHE
    requires Skip(h, t, Unquoted) == k && Same(h, g, d, s, k) && t < k
    requires Skip(g, s + 1 + d, Space) == t + d && Skip(g, t + d, Unquoted) == k + d
    ensures ValueAt(h, s, start) == Success((Decode(h[t..k]), k))
    ensures ValueAt(g, s + d, start') == Success((Decode(h[t..k]), k + d))
  {
    hide ValueAt, Decode, Skip, Same;
    SameAt(h, g, d, s, k, s);
    SameAt(h, g, d, s, k, t);
    UnquotedValue(h, s, start, t, k);
    SamePart(h, g, d, s, k, t, k);
    SliceSame(h, g, d, t, k);
    UnquotedValue(g, s + d, start', t + d, k + d);
  }

  lemma ValueInsert(h: Bytes, g: Bytes, d: nat, s: nat, gt: nat, start: nat, start': nat)
    requires s < gt < |h| && h[gt] == GT && ValueAt(h, s, start).Success? && ValueAt(h, s, start).value.1 <= gt
    requires h[s] == EQUALS ==> NotGt(h, Skip(h, s + 1, Space))
    requires Same(h, g, d, s, gt) && gt + d < |g| && g[gt + d] == SPACE
    ensures ValueAt(g, s + d, start') == Success((ValueAt(h, s, start).value.0, ValueAt(h, s, start).value.1 + d))
  {
    hide Decode, In, Skip, IndexOf, ValueAt, Same;
    SameAt(h, g, d, s, gt, s);
    if h[s] == EQUALS {
      var t := Skip(h, s + 1, Space);
      ValueStarts(h, s, start);
      SameAt(h, g, d, s, gt, t);
      SamePart(h, g, d, s, gt, s + 1, t);
      SkipSame(h, g, d, s + 1, Space);
      if h[t] == QUOTE || h[t] == APOSTROPHE {
        var e := IndexOf(h, t + 1, h[t]).value;
        QuotedValue(h, s, start, t, e);
        SamePart(h, g, d, s, gt, s, e + 1);
        QuotedInsert(h, g, d, s, t, e, start, start');
      } else {
        UnquotedRun(h, g, d, s, t, gt, start);
        var k := Skip(h, t, Unquoted);
        SamePart(h, g, d, s, gt, s, k);
        UnquotedInsert(h, g, d, s, t, k, start, start');
      }
    } else {
      NoValue(h, s, start);
      NoValue(g, s + d, start');
    }
  }

  /** An unquoted value that ends by the `>` now ends by the inserted blank. */
  lemma UnquotedRun(h: Bytes, g: Bytes, d: nat, s: nat, t: nat, gt: nat, start: nat)
    requires s < t < gt < |h| && h[s] == EQUALS && Skip(h, s + 1, Space) == t && h[t] != QUOTE && h[t] != APOSTROPHE
    requires h[t] != GT && ValueAt(h, s, start).Success? && ValueAt(h, s, start).value.1 <= gt
    requires Same(h, g, d, s, gt) && gt + d < |g| && g[gt + d] == SPACE
    ensures var k := Skip(h, t, Unquoted);
      t < k <= gt && Skip(g, t + d, Unquoted) == k + d && ValueAt(h, s, start) == Success((Decode(h[t..k]), k))
  {
    assert !In(Unquoted, SPACE) && !In(Space, h[t]);
    assert !In(Space, h[t]) && h[t] != GT ==> In(Unquoted, h[t]);
    hide Decode, In, ValueAt, Same;
    var k := Skip(h, t, Unquoted);
    UnquotedValue(h, s, start, t, k);
    if k < gt { SameAt(h, g, d, s, gt, k); }
    SamePart(h, g, d, s, gt, t, k);
    SkipSame(h, g, d, t, Unquoted);
  }

  /** The value that is the inserted text itself. */
  lemma BareValue(g: Bytes, p: nat, v: Bytes)
    requires InsertedAt(g, p, v) && SafeValue(v)
    ensures Skip(g, p + 1, Unquoted) == p + |AttrText(v)|
    ensures Decode(g[p + 1..p + |AttrText(v)|]) == Unspaced(v)
    ensures g[p + 1] != QUOTE && g[p + 1] != APOSTROPHE && !In(Space, g[p + 1]) && g[p] == SPACE
  {
    InsertedBytes(g, p, v);
    var e, text := p + |AttrText(v)|, Unspaced(v);
    assert g[p + 1..e] == text;
    forall k | 0 <= k < |text| ensures In(Unquoted, text[k]) && text[k] != AMP {
      if 11 <= k < 11 + |v| { assert text[k] == v[k - 11] && text[k] in v; }
    }
    assert forall k :: p + 1 <= k < e ==> g[k] == text[k - p - 1];
    SkipExact(g, p + 1, e, Unquoted);
    assert AMP !in text;
    assert g[p + 1] == text[0] == 0x69;
  }

  /** A bare attribute swallows the inserted text whole. */
  lemma OneAttributeBare(h: Bytes, g: Bytes, d: nat, j: nat, gt: nat, v: Bytes, start: nat, start': nat)
    requires j <= gt < |h| && OneAttribute(h, j, start).Success? && BareAt(h, j)
    requires Skip(h, Skip(h, Skip(h, j, AttrName), Space) + 1, Space) == gt
    requires Same(h, g, d, j, gt) && InsertedAt(g, gt + d, v) && SafeValue(v)
    ensures OneAttribute(h, j, start).value.1 == gt
    ensures OneAttribute(g, j + d, start')
         == Success((Attr(OneAttribute(h, j, start).value.0.name, Unspaced(v)), gt + d + |AttrText(v)|))
  {
    hide LowerAll, InsertedAt, AttrText, Unspaced, SafeValue, In, Decode, Skip, ValueAt, OneAttribute, BareAt, Same;
    var n := Skip(h, j, AttrName);
    var s := Skip(h, n, Space);
    BareParts(h, j);
    AttributeParts(h, j, start);
    BareRun(h, g, d, j, gt, n, s, v);
    BareRead(h, s, gt, start);
    BareSwallows(g, s + d, gt + d, v, start');
    AttributeFrom(g, j + d, start', n + d, s + d);
  }

  lemma BareParts(h: Bytes, j: nat)
    requires j <= |h| && BareAt(h, j)
    ensures var s := Skip(h, Skip(h, j, AttrName), Space);
      && s < |h| && h[s] == EQUALS && Skip(h, s + 1, Space) < |h| && h[Skip(h, s + 1, Space)] == GT
  {
  }

  /** The name, the `=` and the blanks of a bare attribute. */
  lemma BareRun(h: Bytes, g: Bytes, d: nat, j: nat, gt: nat, n: nat, s: nat, v: Bytes)
    requires j <= n <= s < gt < |h| && Skip(h, j, AttrName) == n && Skip(h, n, Space) == s && Skip(h, s + 1, Space) == gt
    requires Same(h, g, d, j, gt) && InsertedAt(g, gt + d, v)
    ensures Skip(g, j + d, AttrName) == n + d && g[j + d..n + d] == h[j..n]
    ensures Skip(g, n + d, Space) == s + d && g[s + d] == h[s]
    ensures Skip(g, s + d + 1, Space) == gt + d + 1
  {
    BlankThenLetter(g, gt + d, v);
    hide InsertedAt, In, Skip, Same;
    NameInsert(h, g, d, j, gt);
    SameAt(h, g, d, j, gt, s);
    SamePart(h, g, d, j, gt, n, s);
    SkipSame(h, g, d, n, Space);
    SamePart(h, g, d, j, gt, s + 1, gt);
    SkipThrough(h, g, d, s + 1, gt);
    assert s + 1 + d == s + d + 1;
  }

  lemma BareRead(h: Bytes, s: nat, gt: nat, start: nat)
    requires s < gt < |h| && h[s] == EQUALS && Skip(h, s + 1, Space) == gt && h[gt] == GT
    ensures ValueAt(h, s, start) == Success(([], gt))
  {
    SkipExact(h, gt, gt, Unquoted);
    UnquotedValue(h, s, start, gt, gt);
  }

  lemma BareSwallows(g: Bytes, s: nat, p: nat, v: Bytes, start: nat)
    requires s < p && InsertedAt(g, p, v) && SafeValue(v) && g[s] == EQUALS && Skip(g, s + 1, Space) == p + 1
    ensures ValueAt(g, s, start) == Success((Unspaced(v), p + |AttrText(v)|))
  {
    hide LowerAll, AttrText, Unspaced, SafeValue, In, Decode, Skip, ValueAt;
    BareValue(g, p, v);
    UnquotedValue(g, s, start, p + 1, p + |AttrText(v)|);
  }

  // ---------------------------------------------------------------- the attribute list of a spliced tag

  /** The list of a spliced tag. */
  function Spliced(list: AttrList, d: nat, v: Bytes, bare: bool): AttrList {
    AttrList(WithIntegrity(list.attrs, v, bare), list.gt + d + |AttrText(v)|, list.selfClosing)
  }

  lemma SplicedGathers(attrs: seq<Attr>, selfClosing: bool, r: Result<AttrList, HtmlError>, d: nat, v: Bytes,
                       bare: bool)
    requires r.Success? && (bare ==> r.value.attrs != [])
    ensures Gathered(attrs, selfClosing, Success(Spliced(r.value, d, v, bare)))
         == Success(Spliced(Gathered(attrs, selfClosing, r).value, d, v, bare))
  {
    var all := attrs + r.value.attrs;
    if bare {
      assert all[..|all| - 1] == attrs + r.value.attrs[..|r.value.attrs| - 1];
      assert attrs + WithIntegrity(r.value.attrs, v, bare) == WithIntegrity(all, v, bare);
    } else {
      assert attrs + (r.value.attrs + [Attr(INTEGRITY, v)]) == all + [Attr(INTEGRITY, v)];
    }
  }

  /** Blanks in front of a list do not change it. */
  lemma ListAfterBlanks(g: Bytes, a: nat, b: nat, start: nat)
    requires a <= b <= |g| && Skip(g, a, Space) == b
    ensures Attributes(g, a, start) == Attributes(g, b, start)
  {
    hide In;
    SkipExact(g, b, b, Space);
  }

  /** A list that is over at once. */
  lemma EmptyList(h: Bytes, gt: nat, start: nat)
    requires gt < |h| && h[gt] == GT
    ensures Attributes(h, gt, start) == Success(AttrList([], gt, false)) && !BareEnd(h, gt)
  {
    SkipExact(h, gt, gt, Space);
  }

  /** How an attribute list that starts with an attribute unfolds. */
  lemma ListUnfolds(h: Bytes, i: nat, j: nat, start: nat)
    requires i <= |h| && Skip(h, i, Space) == j < |h| && h[j] != GT && h[j] != SLASH && OneAttribute(h, j, start).Success?
    ensures var (attr, k) := OneAttribute(h, j, start).value;
      && Attributes(h, i, start) == Gathered([attr], false, Attributes(h, k, start))
      && (BareEnd(h, i) <==> BareAt(h, j) || BareEnd(h, k))
  {
    StartIrrelevant(h, j, start, 0);
    hide OneAttribute, Skip, BareAt, Gathered;
  }

  lemma ListAfterSlash(h: Bytes, i: nat, j: nat, start: nat)
    requires i <= |h| && Skip(h, i, Space) == j < |h| && h[j] == SLASH
    ensures Attributes(h, i, start) == Gathered([], true, Attributes(h, j + 1, start))
    ensures BareEnd(h, i) <==> BareEnd(h, j + 1)
  {
    hide OneAttribute, Skip, BareAt, Gathered;
  }

  /** A bare list has a last attribute. */
  lemma {:induction false} BareHasAttribute(h: Bytes, i: nat, start: nat)
    requires i <= |h| && Attributes(h, i, start).Success? && BareEnd(h, i)
    ensures Attributes(h, i, start).value.attrs != []
    decreases |h| - i
  {
    var j := Skip(h, i, Space);
    if h[j] == SLASH {
      GatheredKeepsGt(h, i, start);
      BareHasAttribute(h, j + 1, start);
    } else {
      GatheredKeepsGt(h, i, start);
    }
    hide OneAttribute, BareAt, Skip;
  }

  /** Splicing at the `>`: the list reads as before with the attribute added, or with the bare last
      value replaced. */
  lemma {:induction false} AttributesInsert(h: Bytes, g: Bytes, d: nat, i: nat, v: Bytes, start: nat, start': nat)
    requires i <= |h| && Attributes(h, i, start).Success? && SafeValue(v)
    requires Same(h, g, d, i, Attributes(h, i, start).value.gt) && InsertedAt(g, Attributes(h, i, start).value.gt + d, v)
    ensures i + d <= |g|
    ensures Attributes(g, i + d, start') == Success(Spliced(Attributes(h, i, start).value, d, v, BareEnd(h, i)))
    decreases |h| - i, 1
  {
    hide *;
    var gt := Attributes(h, i, start).value.gt;
    var j := Skip(h, i, Space);
    GatheredKeepsGt(h, i, start);
    InsertedEnds(g, gt + d, v);
    BlankThenLetter(g, gt + d, v);
    if h[j] == GT {
      EmptyList(h, j, start);
      ListAfterBlanks(h, i, j, start);
      BareAfterBlanks(h, i);
      SkipThrough(h, g, d, i, gt);
      IntegrityTail(g, gt + d, gt + d + 1, v, start');
      SplicedEmpty(gt, d, v);
      ListAfterBlanks(g, i + d, gt + d + 1, start');
    } else {
      SameAt(h, g, d, i, gt, j);
      SamePart(h, g, d, i, gt, i, j);
      SkipSame(h, g, d, i, Space);
      if h[j] == SLASH {
        SlashThenRest(h, g, d, i, j, v, start, start');
      } else {
        SamePart(h, g, d, i, gt, j, gt);
        AttributeThenRest(h, g, d, i, j, v, start, start');
      }
    }
  }

  lemma BareAfterBlanks(h: Bytes, i: nat)
    requires i <= |h| && Skip(h, i, Space) < |h| && h[Skip(h, i, Space)] == GT
    ensures !BareEnd(h, i)
  {
  }

  lemma SplicedEmpty(gt: nat, d: nat, v: Bytes)
    ensures Spliced(AttrList([], gt, false), d, v, false) == AttrList([Attr(INTEGRITY, v)], gt + d + |AttrText(v)|, false)
  {
  }

  lemma {:induction false} SlashThenRest(h: Bytes, g: Bytes, d: nat, i: nat, j: nat, v: Bytes, start: nat, start': nat)
    requires i <= |h| && Skip(h, i, Space) == j < |h| && h[j] == SLASH && Attributes(h, i, start).Success? && SafeValue(v)
    requires Same(h, g, d, i, Attributes(h, i, start).value.gt) && InsertedAt(g, Attributes(h, i, start).value.gt + d, v)
    requires i + d <= |g| && Skip(g, i + d, Space) == j + d < |g| && g[j + d] == SLASH
    ensures Attributes(g, i + d, start') == Success(Spliced(Attributes(h, i, start).value, d, v, BareEnd(h, i)))
    decreases |h| - i, 0
  {
    hide *;
    GatheredKeepsGt(h, i, start);
    var rest := Attributes(h, j + 1, start);
    ListAfterSlash(h, i, j, start);
    SamePart(h, g, d, i, rest.value.gt, j + 1, rest.value.gt);
    AttributesInsert(h, g, d, j + 1, v, start, start');
    if BareEnd(h, j + 1) { BareHasAttribute(h, j + 1, start); }
    SplicedGathers([], true, rest, d, v, BareEnd(h, j + 1));
    ListAfterSlash(g, i + d, j + d, start');
    assert j + 1 + d == j + d + 1;
  }

  lemma {:induction false} AttributeThenRest(h: Bytes, g: Bytes, d: nat, i: nat, j: nat, v: Bytes, start: nat,
                                             start': nat)
    requires i <= |h| && Skip(h, i, Space) == j < |h| && h[j] != GT && h[j] != SLASH && Attributes(h, i, start).Success? && SafeValue(v)
    requires Same(h, g, d, j, Attributes(h, i, start).value.gt) && InsertedAt(g, Attributes(h, i, start).value.gt + d, v)
    requires i + d <= |g| && Skip(g, i + d, Space) == j + d < |g| && g[j + d] == h[j]
    ensures Attributes(g, i + d, start') == Success(Spliced(Attributes(h, i, start).value, d, v, BareEnd(h, i)))
    decreases |h| - i, 0
  {
    hide *;
    GatheredKeepsGt(h, i, start);
    var (attr, k) := OneAttribute(h, j, start).value;
    var gt := Attributes(h, i, start).value.gt;
    var rest := Attributes(h, k, start);
    ListUnfolds(h, i, j, start);
    if BareAt(h, j) {
      BareIsLast(h, j, start);
      OneAttributeBare(h, g, d, j, gt, v, start, start');
      ListUnfolds(g, i + d, j + d, start');
      InsertedEnds(g, gt + d, v);
      EmptyList(g, gt + d + |AttrText(v)|, start');
      SplicedBare(attr, gt, d, v);
    } else {
      OneAttributeInsert(h, g, d, j, gt, v, start, start');
      ListUnfolds(g, i + d, j + d, start');
      if OneAttribute(g, j + d, start').value.1 == k + d {
        SamePart(h, g, d, j, gt, k, gt);
        AttributesInsert(h, g, d, k, v, start, start');
        if BareEnd(h, k) { BareHasAttribute(h, k, start); }
      } else {
        EmptyList(h, gt, start);
        IntegrityTail(g, gt + d, gt + d + 1, v, start');
        SplicedEmpty(gt, d, v);
      }
      SplicedGathers([attr], false, rest, d, v, BareEnd(h, k));
    }
  }

  lemma InsertedEnds(g: Bytes, p: nat, v: Bytes)
    requires InsertedAt(g, p, v)
    ensures p + |AttrText(v)| < |g| && g[p + |AttrText(v)|] == GT
  {
  }

  /** A bare attribute is followed by the end of its list. */
  lemma BareIsLast(h: Bytes, j: nat, start: nat)
    requires j <= |h| && BareAt(h, j) && OneAttribute(h, j, start).Success?
    ensures var (attr, k) := OneAttribute(h, j, start).value;
      && attr.value == [] && k == Skip(h, Skip(h, Skip(h, j, AttrName), Space) + 1, Space)
      && Attributes(h, k, start) == Success(AttrList([], k, false)) && !BareEnd(h, k)
  {
    BareParts(h, j);
    AttributeParts(h, j, start);
    hide OneAttribute, BareAt;
    var s := Skip(h, Skip(h, j, AttrName), Space);
    BareRead(h, s, Skip(h, s + 1, Space), start);
    EmptyList(h, Skip(h, s + 1, Space), start);
  }

  lemma SplicedBare(attr: Attr, gt: nat, d: nat, v: Bytes)
    ensures
      var h := Gathered([attr], false, Success(AttrList([], gt, false)));
      var g := Gathered([Attr(attr.name, Unspaced(v))], false, Success(AttrList([], gt + d + |AttrText(v)|, false)));
      g == Success(Spliced(h.value, d, v, true))
  {
    assert [attr] + [] == [attr] && [attr][..0] == [];
    assert [Attr(attr.name, Unspaced(v))] + [] == [] + [Attr(attr.name, Unspaced(v))];
  }
}
