/** Markup, printed and scanned again: what the locator makes of every well-formed page (src/html.rs). */
module Printing {
  import opened Prelude
  import opened Html
  import opened Rescan
  import opened Reinjection
  import B = Bundle

  predicate White(b: byte) { b in {9, 10, 12, 13, 32} }

  predicate AllWhite(s: Bytes) { forall i :: 0 <= i < |s| ==> White(s[i]) }

  /** White space, with slashes in between or not: what may stand between attributes. */
  predicate Blank(s: Bytes) { forall i :: 0 <= i < |s| ==> White(s[i]) || s[i] == '/' as int }

  /** The same but for the case of letters; `w` is in lower case. */
  predicate Alike(s: Bytes, w: Bytes) {
    |s| == |w| && forall i :: 0 <= i < |s| ==> s[i] == w[i] || (65 <= s[i] <= 90 && s[i] + 32 == w[i])
  }

  // ---------------------------------------------------------------- attributes, as written

  /** Nothing; a value in quotes of either kind; or a bare one. Around the equals sign there may be white space. */
  datatype Form =
    | NoValue
    | InQuotes(before: Bytes, after: Bytes, quote: byte, raw: Bytes)
    | AsItIs(before: Bytes, after: Bytes, raw: Bytes)

  /** What stands before the name, the name, and the value. */
  datatype Written = Written(gap: Bytes, name: Bytes, form: Form)

  function PrintForm(f: Form): Bytes {
    match f
    case NoValue => []
    case InQuotes(before, after, quote, raw) => before + Text("=") + after + [quote] + raw + [quote]
    case AsItIs(before, after, raw) => before + Text("=") + after + raw
  }

  /** The attributes and the end of the start tag. */
  function PrintList(ws: seq<Written>, gap: Bytes): Bytes {
    if ws == [] then gap + Text(">")
    else ws[0].gap + (ws[0].name + PrintForm(ws[0].form) + PrintList(ws[1..], gap))
  }

  predicate NameOk(s: Bytes) {
    s != [] && forall i :: 0 <= i < |s| ==> !White(s[i]) && s[i] != '=' as int && s[i] != '>' as int && s[i] != '/' as int
  }

  /** A value that needs no quotes. */
  predicate RawOk(raw: Bytes) {
    && raw != [] && raw[0] != '"' as int && raw[0] != '\'' as int
    && forall i :: 0 <= i < |raw| ==> !White(raw[i]) && raw[i] != '>' as int
  }

  predicate FormOk(f: Form) {
    match f
    case NoValue => true
    case InQuotes(before, after, quote, raw) =>
      AllWhite(before) && AllWhite(after) && (quote == '"' as int || quote == '\'' as int) && quote !in raw
    case AsItIs(before, after, raw) =>
      AllWhite(before) && AllWhite(after) && RawOk(raw)
  }

  /** What may stand between this and the next name, or the end: nothing only where a quote or the end keeps
      them apart, and after a bare value white space first. */
  predicate GapOk(f: Form, gap: Bytes, last: bool) {
    && Blank(gap)
    && match f
       case NoValue => gap != [] || last
       case InQuotes(_, _, _, _) => true
       case AsItIs(_, _, _) => if gap == [] then last else White(gap[0])
  }

  /** The attributes can be told apart again. */
  predicate ListOk(ws: seq<Written>, gap: Bytes) {
    ws != [] ==>
      && NameOk(ws[0].name) && FormOk(ws[0].form)
      && GapOk(ws[0].form, if |ws| > 1 then ws[1].gap else gap, |ws| == 1)
      && ListOk(ws[1..], gap)
  }

  function ValueOf(f: Form): Bytes { if f.NoValue? then [] else Decode(f.raw) }

  function ReadAttr(w: Written): Attr { Attr(LowerAll(w.name), ValueOf(w.form)) }

  function ReadList(ws: seq<Written>): seq<Attr> {
    if ws == [] then [] else [ReadAttr(ws[0])] + ReadList(ws[1..])
  }

  predicate HasSlash(s: Bytes) { '/' as int in s }

  /** A slash in some gap. */
  predicate ClosesItself(ws: seq<Written>, gap: Bytes) {
    if ws == [] then HasSlash(gap) else HasSlash(ws[0].gap) || ClosesItself(ws[1..], gap)
  }

  // ---------------------------------------------------------------- reading them back

  lemma At(h: Bytes, i: nat, code: Bytes, k: nat)
    requires B.CodeAt(h, i, code) && k < |code|
    ensures i + k < |h| && h[i + k] == code[k]
  {
    assert h[i..i + |code|][k] == code[k];
  }

  lemma Bytewise(h: Bytes, i: nat, code: Bytes)
    requires B.CodeAt(h, i, code)
    ensures i + |code| <= |h| && forall k :: i <= k < i + |code| ==> h[k] == code[k - i]
  {
    forall k | i <= k < i + |code| ensures h[k] == code[k - i] { At(h, i, code, k - i); }
  }

  lemma SpaceIsWhite(b: byte)
    ensures IsSpace(b) <==> White(b)
  {
  }

  /** The list does not depend on how much of the white space in front of it has been read. */
  lemma WhiteSkipped(h: Bytes, i: nat, start: nat)
    requires i < |h| && White(h[i])
    ensures Attributes(h, i, start) == Attributes(h, i + 1, start)
  {
    hide OneAttribute, Gathered;
  }

  lemma {:induction false} WhiteRunSkipped(h: Bytes, i: nat, j: nat, start: nat)
    requires i <= j <= |h| && forall k :: i <= k < j ==> White(h[k])
    ensures Attributes(h, i, start) == Attributes(h, j, start)
    decreases j - i
  {
    hide Attributes, White;
    if i < j {
      WhiteSkipped(h, i, start);
      WhiteRunSkipped(h, i + 1, j, start);
    }
  }

  lemma GatheredTwice(a: bool, b: bool, r: Result<AttrList, HtmlError>)
    ensures Gathered([], a, Gathered([], b, r)) == Gathered([], a || b, r)
  {
    if r.Success? { assert [] + r.value.attrs == r.value.attrs; }
  }

  lemma GatheredPlain(r: Result<AttrList, HtmlError>)
    ensures Gathered([], false, r) == r
  {
    GatheredNothing(r);
  }

  lemma SlashFirst(h: Bytes, i: nat, start: nat)
    requires i < |h| && h[i] == SLASH
    ensures Attributes(h, i, start) == Gathered([], true, Attributes(h, i + 1, start))
  {
    SkipExact(h, i, i, Space);
    hide Attributes, Gathered;
    ListAfterSlash(h, i, i, start);
  }

  /** A gap is passed over; a slash in it is noted. */
  lemma {:induction false} GapSkipped(h: Bytes, i: nat, gap: Bytes, start: nat)
    requires B.CodeAt(h, i, gap) && Blank(gap)
    ensures Attributes(h, i, start) == Gathered([], HasSlash(gap), Attributes(h, i + |gap|, start))
    decreases |gap|
  {
    hide Attributes, Gathered;
    if gap == [] {
      GatheredPlain(Attributes(h, i, start));
    } else {
      var rest := gap[1..];
      assert gap == [gap[0]] + rest;
      At(h, i, gap, 0);
      B.CodeSplits(h, i, [gap[0]], rest);
      GapSkipped(h, i + 1, rest, start);
      GatheredTwice(true, HasSlash(rest), Attributes(h, i + |gap|, start));
      if White(gap[0]) {
        WhiteSkipped(h, i, start);
        assert HasSlash(gap) <==> HasSlash(rest);
      } else {
        SlashFirst(h, i, start);
      }
    }
  }

  /** What comes behind a value, or behind a name without one, ends it. */
  predicate Ended(h: Bytes, p: nat, f: Form) {
    && p < |h|
    && match f
       case NoValue =>
         && (White(h[p]) || h[p] == '/' as int || h[p] == '>' as int)
         && Skip(h, p, Space) < |h| && h[Skip(h, p, Space)] != '=' as int
       case InQuotes(_, _, _, _) => true
       case AsItIs(_, _, _) => White(h[p]) || h[p] == '>' as int
  }

  lemma NameRead(h: Bytes, j: nat, name: Bytes)
    requires B.CodeAt(h, j, name) && NameOk(name) && j + |name| < |h|
    requires White(h[j + |name|]) || h[j + |name|] in {'=' as int, '>' as int, '/' as int}
    ensures Skip(h, j, AttrName) == j + |name| && h[j..j + |name|] == name
  {
    Bytewise(h, j, name);
    SkipExact(h, j, j + |name|, AttrName);
  }

  lemma WhiteRead(h: Bytes, i: nat, s: Bytes)
    requires B.CodeAt(h, i, s) && AllWhite(s) && i + |s| < |h| && !White(h[i + |s|])
    ensures Skip(h, i, Space) == i + |s|
  {
    Bytewise(h, i, s);
    SkipExact(h, i, i + |s|, Space);
  }

  lemma QuotedSplits(h: Bytes, n: nat, a: Bytes, b: Bytes, c: Bytes, q: Bytes, raw: Bytes)
    requires B.CodeAt(h, n, a + b + c + q + raw + q) && |b| == 1 && |q| == 1
    ensures
      var s := n + |a|;
      var t := s + 1 + |c|;
      && B.CodeAt(h, n, a) && s < |h| && h[s] == b[0] && B.CodeAt(h, s + 1, c)
      && t + 1 + |raw| < |h| && h[t] == q[0] && B.CodeAt(h, t + 1, raw) && h[t + 1 + |raw|] == q[0]
  {
    hide *;
    B.CodeSplits(h, n, a + b + c + q + raw, q);
    B.CodeSplits(h, n, a + b + c + q, raw);
    B.CodeSplits(h, n, a + b + c, q);
    B.CodeSplits(h, n, a + b, c);
    B.CodeSplits(h, n, a, b);
    At(h, n + |a|, b, 0);
    At(h, n + |a + b + c|, q, 0);
    At(h, n + |a + b + c + q + raw|, q, 0);
  }

  lemma BareSplits(h: Bytes, n: nat, a: Bytes, b: Bytes, c: Bytes, raw: Bytes)
    requires B.CodeAt(h, n, a + b + c + raw) && |b| == 1
    ensures
      var s := n + |a|;
      var t := s + 1 + |c|;
      B.CodeAt(h, n, a) && s < |h| && h[s] == b[0] && B.CodeAt(h, s + 1, c) && B.CodeAt(h, t, raw)
  {
    hide *;
    B.CodeSplits(h, n, a + b + c, raw);
    B.CodeSplits(h, n, a + b, c);
    B.CodeSplits(h, n, a, b);
    At(h, n + |a|, b, 0);
  }

  /** The value of a form that has one begins behind white space, an equals sign and white space. */
  lemma EqualsRead(h: Bytes, n: nat, before: Bytes, after: Bytes)
    requires
      var s := n + |before|;
      var t := s + 1 + |after|;
      && B.CodeAt(h, n, before) && AllWhite(before) && t < |h| && h[s] == EQUALS
      && B.CodeAt(h, s + 1, after) && AllWhite(after) && !White(h[t])
    ensures Skip(h, n, Space) == n + |before| && Skip(h, n + |before| + 1, Space) == n + |before| + 1 + |after|
  {
    assert !White(EQUALS);
    hide B.CodeAt, AllWhite, White, Skip;
    WhiteRead(h, n, before);
    WhiteRead(h, n + |before| + 1, after);
  }

  lemma EqualsSign()
    ensures Text("=") == [EQUALS]
  {
  }

  lemma UpToQuote(h: Bytes, t: nat, raw: Bytes, quote: byte)
    requires B.CodeAt(h, t, raw) && quote !in raw && t + |raw| < |h| && h[t + |raw|] == quote
    ensures IndexOf(h, t, quote) == Some(t + |raw|) && h[t..t + |raw|] == raw
  {
    Bytewise(h, t, raw);
    forall k | t <= k < t + |raw| ensures h[k] != quote { assert raw[k - t] in raw; }
    hide IndexOf;
    IndexExact(h, t, t + |raw|, quote);
  }

  lemma UpToSpace(h: Bytes, t: nat, raw: Bytes)
    requires RawOk(raw) && B.CodeAt(h, t, raw) && t + |raw| < |h| && (White(h[t + |raw|]) || h[t + |raw|] == '>' as int)
    ensures Skip(h, t, Unquoted) == t + |raw| && h[t..t + |raw|] == raw
    ensures t < |h| && !White(h[t]) && h[t] != QUOTE && h[t] != APOSTROPHE
  {
    Bytewise(h, t, raw);
    SkipExact(h, t, t + |raw|, Unquoted);
  }

  lemma QuotedRead(h: Bytes, n: nat, f: Form, start: nat)
    requires f.InQuotes? && FormOk(f) && B.CodeAt(h, n, PrintForm(f))
    ensures Skip(h, n, Space) <= |h| && ValueAt(h, Skip(h, n, Space), start) == Success((ValueOf(f), n + |PrintForm(f)|))
  {
    hide *;
    QuoteIsBlack(f);
    QuotedIs(f);
    QuotedPartsRead(h, n, PrintForm(f), f.before, f.after, f.quote, f.raw, start);
  }

  lemma QuotedIs(f: Form)
    requires f.InQuotes?
    ensures ValueOf(f) == Decode(f.raw) && PrintForm(f) == f.before + [EQUALS] + f.after + [f.quote] + f.raw + [f.quote]
  {
    EqualsSign();
    hide Text, Decode;
  }

  lemma BareIs(h: Bytes, p: nat, f: Form)
    requires f.AsItIs? && FormOk(f) && Ended(h, p, f)
    ensures ValueOf(f) == Decode(f.raw) && PrintForm(f) == f.before + [EQUALS] + f.after + f.raw
    ensures AllWhite(f.before) && AllWhite(f.after) && RawOk(f.raw) && p < |h| && (White(h[p]) || h[p] == '>' as int)
  {
    EqualsSign();
    hide Text, Decode, RawOk, AllWhite, White, Skip;
  }

  lemma QuotedPartsRead(h: Bytes, n: nat, code: Bytes, a: Bytes, c: Bytes, quote: byte, raw: Bytes, start: nat)
    requires B.CodeAt(h, n, code) && code == a + [EQUALS] + c + [quote] + raw + [quote]
    requires AllWhite(a) && AllWhite(c) && !White(quote) && (quote == QUOTE || quote == APOSTROPHE) && quote !in raw
    ensures Skip(h, n, Space) <= |h|
    ensures ValueAt(h, Skip(h, n, Space), start) == Success((Decode(raw), n + |code|))
  {
    var s := n + |a|;
    var t := s + 1 + |c|;
    hide *;
    QuotedSplits(h, n, a, [EQUALS], c, [quote], raw);
    EqualsRead(h, n, a, c);
    UpToQuote(h, t + 1, raw, quote);
    QuotedValue(h, s, start, t, t + 1 + |raw|);
  }

  lemma QuoteIsBlack(f: Form)
    requires f.InQuotes? && FormOk(f)
    ensures !White(f.quote) && (f.quote == QUOTE || f.quote == APOSTROPHE) && AllWhite(f.before) && AllWhite(f.after)
    ensures f.quote !in f.raw
  {
  }

  lemma BareRead(h: Bytes, n: nat, f: Form, start: nat)
    requires f.AsItIs? && FormOk(f) && B.CodeAt(h, n, PrintForm(f)) && Ended(h, n + |PrintForm(f)|, f)
    ensures Skip(h, n, Space) <= |h| && ValueAt(h, Skip(h, n, Space), start) == Success((ValueOf(f), n + |PrintForm(f)|))
  {
    hide *;
    BareIs(h, n + |PrintForm(f)|, f);
    BarePartsRead(h, n, PrintForm(f), f.before, f.after, f.raw, start);
  }

  lemma BarePartsRead(h: Bytes, n: nat, code: Bytes, a: Bytes, c: Bytes, raw: Bytes, start: nat)
    requires B.CodeAt(h, n, code) && code == a + [EQUALS] + c + raw && AllWhite(a) && AllWhite(c) && RawOk(raw)
    requires var p := n + |code|; p < |h| && (White(h[p]) || h[p] == '>' as int)
    ensures Skip(h, n, Space) <= |h|
    ensures ValueAt(h, Skip(h, n, Space), start) == Success((Decode(raw), n + |code|))
  {
    var s := n + |a|;
    var t := s + 1 + |c|;
    hide *;
    BareSplits(h, n, a, [EQUALS], c, raw);
    UpToSpace(h, t, raw);
    EqualsRead(h, n, a, c);
    UnquotedValue(h, s, start, t, t + |raw|);
  }

  lemma AbsentRead(h: Bytes, n: nat, start: nat)
    requires Ended(h, n, NoValue)
    ensures ValueAt(h, Skip(h, n, Space), start) == Success(([], Skip(h, n, Space)))
  {
    hide Skip;
  }

  lemma {:induction false} SkippedWhite(h: Bytes, i: nat)
    requires i <= |h|
    ensures forall k :: i <= k < Skip(h, i, Space) ==> White(h[k])
    decreases |h| - i
  {
    if i < |h| && In(Space, h[i]) { SkippedWhite(h, i + 1); }
  }

  /** A value is read as written; what is read beyond it is white space. */
  lemma ValueRead(h: Bytes, n: nat, f: Form, start: nat)
    requires B.CodeAt(h, n, PrintForm(f)) && FormOk(f) && Ended(h, n + |PrintForm(f)|, f)
    ensures
      var p, s := n + |PrintForm(f)|, Skip(h, n, Space);
      && s <= |h| && ValueAt(h, s, start).Success? && ValueAt(h, s, start).value.0 == ValueOf(f)
      && p <= ValueAt(h, s, start).value.1 <= |h| && forall k :: p <= k < ValueAt(h, s, start).value.1 ==> White(h[k])
  {
    if f.NoValue? {
      NothingPrinted();
      assert n < |h|;
      hide *;
      SkippedWhite(h, n);
      AbsentRead(h, n, start);
    } else if f.InQuotes? {
      hide *;
      QuotedRead(h, n, f, start);
    } else {
      hide *;
      BareRead(h, n, f, start);
    }
  }

  lemma NothingPrinted()
    ensures PrintForm(NoValue) == [] && ValueOf(NoValue) == []
  {
  }

  /** One attribute is read as written. */
  lemma AttributeRead(h: Bytes, j: nat, w: Written, start: nat)
    requires B.CodeAt(h, j, w.name + PrintForm(w.form)) && NameOk(w.name) && FormOk(w.form)
    requires Ended(h, j + |w.name| + |PrintForm(w.form)|, w.form)
    ensures
      var p := j + |w.name| + |PrintForm(w.form)|;
      && OneAttribute(h, j, start).Success? && OneAttribute(h, j, start).value.0 == ReadAttr(w)
      && p <= OneAttribute(h, j, start).value.1 <= |h|
      && forall k :: p <= k < OneAttribute(h, j, start).value.1 ==> White(h[k])
  {
    var n := j + |w.name|;
    NameIsSome(w.name);
    AttrIs(w);
    hide *;
    B.CodeSplits(h, j, w.name, PrintForm(w.form));
    NameFollowed(h, n, w.form);
    NameRead(h, j, w.name);
    ValueRead(h, n, w.form, start);
    NamedValue(h, j, n, start);
  }

  lemma NamedValue(h: Bytes, j: nat, n: nat, start: nat)
    requires j < n <= |h| && Skip(h, j, AttrName) == n && Skip(h, n, Space) <= |h|
    requires ValueAt(h, Skip(h, n, Space), start).Success?
    ensures
      var v := ValueAt(h, Skip(h, n, Space), start).value;
      OneAttribute(h, j, start) == Success((Attr(LowerAll(h[j..n]), v.0), v.1))
  {
    hide *;
    AttributeBy(h, j, start);
  }

  lemma NameIsSome(name: Bytes)
    requires NameOk(name)
    ensures name != []
  {
  }

  lemma AttrIs(w: Written)
    ensures ReadAttr(w) == Attr(LowerAll(w.name), ValueOf(w.form))
  {
    hide LowerAll, ValueOf;
  }

  /** Whatever comes behind a name ends it. */
  lemma NameFollowed(h: Bytes, n: nat, f: Form)
    requires B.CodeAt(h, n, PrintForm(f)) && FormOk(f) && Ended(h, n + |PrintForm(f)|, f)
    ensures n < |h| && (White(h[n]) || h[n] in {'=' as int, '>' as int, '/' as int})
  {
    if !f.NoValue? {
      var before := f.before;
      var code := PrintForm(f);
      assert code[0] == if before == [] then Text("=")[0] else before[0];
      assert Text("=")[0] == '=' as int;
      At(h, n, code, 0);
    }
    hide Skip;
  }

  // ---------------------------------------------------------------- the list

  /** What stands at `p` after a gap: a byte that is neither white space nor an equals sign. */
  lemma {:induction false} GapThen(h: Bytes, p: nat, gap: Bytes, c: byte)
    requires B.CodeAt(h, p, gap + [c]) && Blank(gap) && !White(c) && c != '=' as int
    ensures p < |h| && Skip(h, p, Space) < |h| && h[Skip(h, p, Space)] != '=' as int
    ensures h[p] == if gap == [] then c else gap[0]
    decreases |gap|
  {
    At(h, p, gap + [c], 0);
    if gap != [] && White(gap[0]) {
      assert gap + [c] == [gap[0]] + (gap[1..] + [c]);
      B.CodeSplits(h, p, [gap[0]], gap[1..] + [c]);
      GapThen(h, p + 1, gap[1..], c);
    }
  }

  /** The gap that follows a form, and what comes after it, end the form. */
  lemma FollowedWell(h: Bytes, p: nat, f: Form, gap: Bytes, c: byte, last: bool)
    requires GapOk(f, gap, last) && B.CodeAt(h, p, gap + [c]) && !White(c) && c != '=' as int
    requires last ==> c == '>' as int
    ensures Ended(h, p, f)
  {
    GapThen(h, p, gap, c);
    hide Skip;
  }

  /** The list after its first attribute is the next gap and something that is not white space. */
  lemma NextBegins(h: Bytes, p: nat, ws: seq<Written>, gap: Bytes, f: Form)
    requires B.CodeAt(h, p, PrintList(ws, gap)) && ListOk(ws, gap)
    requires GapOk(f, if ws == [] then gap else ws[0].gap, ws == [])
    ensures Ended(h, p, f)
  {
    hide *;
    if ws == [] {
      EmptyPrinted(ws, gap);
      FollowedWell(h, p, f, gap, '>' as int, true);
    } else {
      var rest := BeginsWith(ws, gap);
      B.CodeSplits(h, p, ws[0].gap + [ws[0].name[0]], rest);
      FollowedWell(h, p, f, ws[0].gap, ws[0].name[0], false);
    }
  }

  lemma EmptyPrinted(ws: seq<Written>, gap: Bytes)
    requires ws == []
    ensures PrintList(ws, gap) == gap + ['>' as int] && !White('>' as int)
  {
    assert Text(">") == ['>' as int];
  }

  lemma BeginsWith(ws: seq<Written>, gap: Bytes) returns (rest: Bytes)
    requires ws != [] && ListOk(ws, gap)
    ensures ws[0].name != [] && !White(ws[0].name[0]) && ws[0].name[0] != '=' as int
    ensures PrintList(ws, gap) == (ws[0].gap + [ws[0].name[0]]) + rest
  {
    GapThatFollows(ws, gap);
    NameBegins(ws[0].name);
    rest := FirstOf(ws[0].gap, ws[0].name, PrintForm(ws[0].form), PrintList(ws[1..], gap));
    hide NameOk, FormOk, GapOk, PrintForm, ListOk, White;
  }

  lemma NameBegins(name: Bytes)
    requires NameOk(name)
    ensures name != [] && !White(name[0]) && name[0] != '=' as int
  {
  }

  lemma FirstOf(a: Bytes, name: Bytes, b: Bytes, c: Bytes) returns (rest: Bytes)
    requires name != []
    ensures a + (name + b + c) == (a + [name[0]]) + rest
  {
    rest := name[1..] + b + c;
  }

  /** A printed list, with the gap in front of it, is read back. */
  lemma {:induction false} ListRead(h: Bytes, i: nat, ws: seq<Written>, gap: Bytes, start: nat)
    requires B.CodeAt(h, i, PrintList(ws, gap)) && ListOk(ws, gap) && Blank(if ws == [] then gap else ws[0].gap)
    ensures Attributes(h, i, start) == Success(AttrList(ReadList(ws), i + |PrintList(ws, gap)| - 1, ClosesItself(ws, gap)))
    decreases |ws|
  {
    hide *;
    if ws == [] {
      EndRead(h, i, gap, start);
    } else {
      var w, rest := ws[0], PrintList(ws[1..], gap);
      var body := w.name + PrintForm(w.form);
      var j := i + |w.gap|;
      ListSplits(h, i, ws, gap);
      GapThatFollows(ws, gap);
      ListRead(h, j + |body|, ws[1..], gap, start);
      NextBegins(h, j + |body|, ws[1..], gap, w.form);
      GapSkipped(h, i, w.gap, start);
      AttributeRead(h, j, w, start);
      OneMoreRead(h, j, w, j + |body|, start);
      ListCombines(h, i, j, ws, gap, start, j + |body|);
    }
  }

  lemma GapThatFollows(ws: seq<Written>, gap: Bytes)
    requires ListOk(ws, gap) && ws != []
    ensures NameOk(ws[0].name) && ws[0].name != [] && FormOk(ws[0].form) && ListOk(ws[1..], gap)
    ensures var next := if ws[1..] == [] then gap else ws[1..][0].gap; GapOk(ws[0].form, next, ws[1..] == []) && Blank(next)
  {
  }

  lemma EndRead(h: Bytes, i: nat, gap: Bytes, start: nat)
    requires B.CodeAt(h, i, PrintList([], gap)) && Blank(gap)
    ensures Attributes(h, i, start) == Success(AttrList(ReadList([]), i + |PrintList([], gap)| - 1, ClosesItself([], gap)))
  {
    var none: seq<Written> := [];
    EmptyPrinted(none, gap);
    EmptyReads(none, gap);
    hide *;
    B.CodeSplits(h, i, gap, ['>' as int]);
    At(h, i + |gap|, ['>' as int], 0);
    GapSkipped(h, i, gap, start);
    EmptyList(h, i + |gap|, start);
    GatheredEnd(HasSlash(gap), i + |gap|);
  }

  lemma EmptyReads(ws: seq<Written>, gap: Bytes)
    requires ws == []
    ensures ReadList(ws) == [] && (ClosesItself(ws, gap) <==> HasSlash(gap))
  {
  }

  lemma GatheredEnd(slash: bool, gt: nat)
    ensures Gathered([], slash, Success(AttrList([], gt, false))) == Success(AttrList([], gt, slash))
  {
    var none: seq<Attr> := [];
    assert none + none == none;
  }

  lemma ListIs(ws: seq<Written>, gap: Bytes)
    requires ws != []
    ensures PrintList(ws, gap) == ws[0].gap + (ws[0].name + PrintForm(ws[0].form) + PrintList(ws[1..], gap))
  {
    hide PrintForm;
  }

  lemma ListSplits(h: Bytes, i: nat, ws: seq<Written>, gap: Bytes)
    requires ws != [] && B.CodeAt(h, i, PrintList(ws, gap))
    ensures
      var w, j := ws[0], i + |ws[0].gap|;
      var body := w.name + PrintForm(w.form);
      && B.CodeAt(h, i, w.gap) && B.CodeAt(h, j, body) && B.CodeAt(h, j + |body|, PrintList(ws[1..], gap))
      && |PrintList(ws, gap)| == |w.gap| + |body| + |PrintList(ws[1..], gap)|
      && (w.name != [] ==> j < |h| && h[j] == w.name[0])
  {
    hide *;
    var w, rest := ws[0], PrintList(ws[1..], gap);
    var body := w.name + PrintForm(w.form);
    ListIs(ws, gap);
    B.CodeSplits(h, i, w.gap, body + rest);
    B.CodeSplits(h, i + |w.gap|, body, rest);
    if w.name != [] { At(h, i + |w.gap|, body, 0); }
  }

  /** The list from an attribute on: the attribute, then the list behind it. */
  lemma OneMoreRead(h: Bytes, j: nat, w: Written, p: nat, start: nat)
    requires j < |h| && w.name != [] && NameOk(w.name) && h[j] == w.name[0]
    requires OneAttribute(h, j, start).Success? && OneAttribute(h, j, start).value.0 == ReadAttr(w)
    requires p <= OneAttribute(h, j, start).value.1 <= |h|
    requires forall k :: p <= k < OneAttribute(h, j, start).value.1 ==> White(h[k])
    ensures Attributes(h, j, start) == Gathered([ReadAttr(w)], false, Attributes(h, p, start))
  {
    SkipExact(h, j, j, Space);
    hide Attributes, OneAttribute, Gathered, Skip, White, ReadAttr;
    ListUnfolds(h, j, j, start);
    WhiteRunSkipped(h, p, OneAttribute(h, j, start).value.1, start);
  }

  lemma ListCombines(h: Bytes, i: nat, j: nat, ws: seq<Written>, gap: Bytes, start: nat, p: nat)
    requires ws != [] && i <= |h| && j <= |h| && p <= |h|
    requires Attributes(h, i, start) == Gathered([], HasSlash(ws[0].gap), Attributes(h, j, start))
    requires Attributes(h, j, start) == Gathered([ReadAttr(ws[0])], false, Attributes(h, p, start))
    requires p + |PrintList(ws[1..], gap)| == i + |PrintList(ws, gap)| >= 1
    requires
      var rest := ws[1..];
      Attributes(h, p, start) == Success(AttrList(ReadList(rest), p + |PrintList(rest, gap)| - 1, ClosesItself(rest, gap)))
    ensures Attributes(h, i, start) == Success(AttrList(ReadList(ws), i + |PrintList(ws, gap)| - 1, ClosesItself(ws, gap)))
  {
    hide Attributes, PrintList, HasSlash, ReadAttr;
    var one := [ReadAttr(ws[0])];
    assert [] + (one + ReadList(ws[1..])) == one + ReadList(ws[1..]);
  }

  // ---------------------------------------------------------------- a page, as written

  /** Text; a `<` that opens nothing; comments and other markup; start tags; and scripts and styles with their
      text, up to and including their closing tags. */
  datatype Piece =
    | Prose(text: Bytes)
    | Lone(next: byte)
    | Comment(text: Bytes)
    | Mark(mark: char, text: Bytes)
    | Start(name: Bytes, ws: seq<Written>, gap: Bytes)
    | RawText(name: Bytes, ws: seq<Written>, gap: Bytes, text: Bytes, close: Bytes)

  function PrintStart(name: Bytes, ws: seq<Written>, gap: Bytes): Bytes {
    Text("<") + (name + PrintList(ws, gap))
  }

  function Print(p: Piece): Bytes {
    match p
    case Prose(text) => text
    case Lone(next) => Text("<") + [next]
    case Comment(text) => Text("<!--") + (text + Text("-->"))
    case Mark(mark, text) => Text("<" + [mark]) + (text + Text(">"))
    case Start(name, ws, gap) => PrintStart(name, ws, gap)
    case RawText(name, ws, gap, text, close) => PrintStart(name, ws, gap) + (text + (Text("</") + (close + Text(">"))))
  }

  function PrintAll(ps: seq<Piece>): Bytes {
    if ps == [] then [] else Print(ps[0]) + PrintAll(ps[1..])
  }

  predicate Letter(b: byte) { 'A' as int <= b <= 'Z' as int || 'a' as int <= b <= 'z' as int }

  predicate NameLike(b: byte) { Letter(b) || '0' as int <= b <= '9' as int || b == '-' as int }

  /** An element name, and after it something that cannot belong to it. */
  predicate StartOk(name: Bytes, ws: seq<Written>, gap: Bytes) {
    && name != [] && Letter(name[0]) && (forall i :: 0 <= i < |name| ==> NameLike(name[i]))
    && ListOk(ws, gap) && Blank(if ws == [] then gap else ws[0].gap)
    && (ws != [] && ws[0].gap == [] ==> !NameLike(ws[0].name[0]))
  }

  predicate IsCalled(name: Bytes, w: string) { Alike(name, Text(w)) }

  /** A closing tag of this name begins at `k`. */
  predicate ClosesWord(s: Bytes, k: nat, w: Bytes) {
    && k + 2 + |w| < |s| && s[k] == '<' as int && s[k + 1] == '/' as int && Alike(s[k + 2..k + 2 + |w|], w)
    && (White(s[k + 2 + |w|]) || s[k + 2 + |w|] == '/' as int || s[k + 2 + |w|] == '>' as int)
  }

  predicate EndsComment(s: Bytes, k: nat) { k + 3 <= |s| && s[k..k + 3] == Text("-->") }

  predicate PieceOk(p: Piece) {
    match p
    case Prose(text) => '<' as int !in text
    case Lone(next) => !Letter(next) && next !in {'!' as int, '?' as int, '/' as int, '<' as int}
    case Comment(text) => forall k :: 0 <= k < |text| ==> !EndsComment(text + Text("-->"), k)
    case Mark(mark, text) =>
      mark in {'!', '?', '/'} && '>' as int !in text && (mark == '!' ==> !(Text("--") <= text))
    case Start(name, ws, gap) =>
      StartOk(name, ws, gap) && (IsCalled(name, "script") || IsCalled(name, "style") ==> ClosesItself(ws, gap))
    case RawText(name, ws, gap, text, close) =>
      && StartOk(name, ws, gap) && !ClosesItself(ws, gap) && (IsCalled(name, "script") || IsCalled(name, "style"))
      && '>' as int !in close
      && ClosesWord(Text("</") + (close + Text(">")), 0, LowerAll(name))
      && forall k :: 0 <= k < |text| ==> !ClosesWord(text + (Text("</") + (close + Text(">"))), k, LowerAll(name))
  }

  /** The tag a piece at `i` is to be reported as, if it is a script or a link. */
  function TagsOfPiece(p: Piece, i: nat): seq<Tag> {
    match p
    case Start(name, ws, gap) =>
      if IsCalled(name, "script") || IsCalled(name, "link") then
        var gt := i + |name| + |PrintList(ws, gap)|;
        [Tag(LowerAll(name), i, gt + 1, gt, ReadList(ws), None)]
      else []
    case RawText(name, ws, gap, text, close) =>
      if IsCalled(name, "script") then
        var gt := i + |name| + |PrintList(ws, gap)|;
        [Tag(LowerAll(name), i, gt + 1, gt, ReadList(ws), Some((gt + 1, gt + 1 + |text|)))]
      else []
    case _ => []
  }

  function TagsOfPage(ps: seq<Piece>, i: nat): seq<Tag> {
    if ps == [] then [] else TagsOfPiece(ps[0], i) + TagsOfPage(ps[1..], i + |Print(ps[0])|)
  }

  // ---------------------------------------------------------------- scanning it

  /** The scan from `i` on finds these and goes on at `j`. */
  ghost predicate GoesOn(h: Bytes, i: nat, tags: seq<Tag>, j: nat) {
    i <= |h| && j <= |h| && Tags(h, i) == Found(tags, Tags(h, j))
  }

  lemma GoesOnTwice(h: Bytes, i: nat, a: seq<Tag>, j: nat, b: seq<Tag>, k: nat)
    requires GoesOn(h, i, a, j) && GoesOn(h, j, b, k)
    ensures GoesOn(h, i, a + b, k)
  {
    hide Tags;
    if Tags(h, k).Success? { assert a + (b + Tags(h, k).value) == a + b + Tags(h, k).value; }
  }

  lemma GoesOnSilently(h: Bytes, i: nat, j: nat, k: nat)
    requires GoesOn(h, i, [], j) && GoesOn(h, j, [], k)
    ensures GoesOn(h, i, [], k)
  {
    var none: seq<Tag> := [];
    assert none + none == none;
    hide GoesOn;
    GoesOnTwice(h, i, none, j, none, k);
  }

  lemma LookGoesOn(h: Bytes, i: nat, look: Look)
    requires i < |h| && LookAt(h, i) == Success(look)
    ensures GoesOn(h, i, OneTag(look), look.next)
  {
    var none: seq<Tag> := [];
    assert look.tag.Some? ==> none + [look.tag.value] == [look.tag.value];
    hide Tags, LookAt, Found;
    FoundStep(h, i, none);
    FoundNothing(Tags(h, i));
  }

  lemma StaysPut(h: Bytes, i: nat)
    requires i <= |h|
    ensures GoesOn(h, i, [], i)
  {
    hide Tags, Found;
    FoundNothing(Tags(h, i));
  }

  lemma PassedOver(h: Bytes, i: nat)
    requires i < |h| && h[i] != LT
    ensures GoesOn(h, i, [], i + 1)
  {
    LookBranches(h, i);
    hide LookAt;
    LookGoesOn(h, i, Look(i + 1, None));
  }

  lemma {:induction false} ProseScanned(h: Bytes, i: nat, text: Bytes)
    requires B.CodeAt(h, i, text) && LT !in text
    ensures GoesOn(h, i, [], i + |text|)
    decreases |text|
  {
    hide GoesOn;
    if text == [] {
      StaysPut(h, i);
    } else {
      assert text == [text[0]] + text[1..];
      At(h, i, text, 0);
      B.CodeSplits(h, i, [text[0]], text[1..]);
      PassedOver(h, i);
      ProseScanned(h, i + 1, text[1..]);
      GoesOnSilently(h, i, i + 1, i + |text|);
    }
  }

  lemma LoneScanned(h: Bytes, i: nat, next: byte)
    requires B.CodeAt(h, i, Text("<") + [next]) && PieceOk(Lone(next))
    ensures GoesOn(h, i, [], i + 2)
  {
    At(h, i, Text("<") + [next], 0);
    At(h, i, Text("<") + [next], 1);
    assert h[i] == LT && h[i + 1] == next && !IsAlpha(next);
    ElementLook(h, i);
    hide LookAt, GoesOn, Skip;
    assert NameEnd(h, i + 1).None?;
    LookGoesOn(h, i, Look(i + 1, None));
    PassedOver(h, i + 1);
    GoesOnSilently(h, i, i + 1, i + 2);
  }

  lemma {:induction false} CommentEndExact(h: Bytes, i: nat, e: nat)
    requires i <= e && CommentEnd(h, e) && forall k :: i <= k < e ==> !CommentEnd(h, k)
    ensures IndexOfCommentEnd(h, i) == Some(e)
    decreases e - i
  {
    hide CommentEnd;
    assert e < |h| by { CommentEndWithin(h, e); }
    if i < e { CommentEndExact(h, i + 1, e); }
  }

  lemma CommentEndWithin(h: Bytes, e: nat)
    requires CommentEnd(h, e)
    ensures e + 3 <= |h|
  {
  }

  lemma CommentEndSpelled(h: Bytes, e: nat)
    ensures CommentEnd(h, e) <==> e + 3 <= |h| && h[e..e + 3] == Text("-->")
  {
    assert Text("-->") == [DASH, DASH, GT];
    if e + 3 <= |h| { assert h[e..e + 3] == [h[e], h[e + 1], h[e + 2]]; }
  }

  lemma EndsThere(h: Bytes, at: nat, body: Bytes, k: nat)
    requires B.CodeAt(h, at, body) && k + 3 <= |body|
    ensures CommentEnd(h, at + k) <==> EndsComment(body, k)
  {
    CommentEndSpelled(h, at + k);
    Bytewise(h, at, body);
    hide CommentEnd, B.CodeAt, Text;
    assert h[at + k..at + k + 3] == body[k..k + 3];
  }

  lemma CommentScanned(h: Bytes, i: nat, text: Bytes)
    requires B.CodeAt(h, i, Print(Comment(text))) && PieceOk(Comment(text))
    ensures GoesOn(h, i, [], i + |Print(Comment(text))|)
  {
    hide *;
    var e := i + 4 + |text|;
    CommentBytes(h, i, text);
    CommentEndExact(h, i + 4, e);
    CommentLook(h, i, e);
    OneTagIs(Look(e + 3, None));
    LookGoesOn(h, i, Look(e + 3, None));
  }

  lemma CommentLook(h: Bytes, i: nat, e: nat)
    requires i < |h| && h[i] == LT && Starts(h, i, [LT, BANG, DASH, DASH]) && IndexOfCommentEnd(h, i + 4) == Some(e)
    ensures LookAt(h, i) == Success(Look(e + 3, None))
  {
    hide Starts, IndexOfCommentEnd;
  }

  lemma CommentBytes(h: Bytes, i: nat, text: Bytes)
    requires B.CodeAt(h, i, Print(Comment(text))) && PieceOk(Comment(text))
    ensures
      var e := i + 4 + |text|;
      && e + 3 == i + |Print(Comment(text))| <= |h| && h[i] == LT && Starts(h, i, [LT, BANG, DASH, DASH])
      && CommentEnd(h, e) && forall k :: i + 4 <= k < e ==> !CommentEnd(h, k)
  {
    var body := text + Text("-->");
    var e := i + 4 + |text|;
    B.CodeSplits(h, i, Text("<!--"), body);
    At(h, i, Text("<!--"), 0);
    assert h[i..i + 4] == Text("<!--") == [LT, BANG, DASH, DASH];
    assert body[|text|..|text| + 3] == Text("-->");
    forall k | i + 4 <= k <= e ensures CommentEnd(h, k) <==> k == e {
      EndsThere(h, i + 4, body, k - i - 4);
    }
  }

  lemma MarkupScanned(h: Bytes, i: nat, mark: char, text: Bytes)
    requires B.CodeAt(h, i, Print(Mark(mark, text))) && PieceOk(Mark(mark, text))
    ensures GoesOn(h, i, [], i + |Print(Mark(mark, text))|)
  {
    var e := i + 2 + |text|;
    MarkupBytes(h, i, mark, text);
    IndexExact(h, i, e, GT);
    LookBranches(h, i);
    StartsByByte(h, i);
    hide LookAt, IndexOf, Starts, GoesOn;
    LookGoesOn(h, i, Look(e + 1, None));
  }

  lemma MarkupBytes(h: Bytes, i: nat, mark: char, text: Bytes)
    requires B.CodeAt(h, i, Print(Mark(mark, text))) && PieceOk(Mark(mark, text))
    ensures
      var e := i + 2 + |text|;
      && e < |h| && e + 1 == i + |Print(Mark(mark, text))| && h[e] == GT && (forall k :: i <= k < e ==> h[k] != GT)
      && h[i] == LT && h[i + 1] == mark as int && (mark == '!' || mark == '?' || mark == '/')
      && !(h[i + 1] == BANG && h[i + 2] == DASH && i + 3 < |h| && h[i + 3] == DASH)
  {
    var head := Text("<" + [mark]);
    assert head == [LT, mark as int];
    B.CodeSplits(h, i, head, text + Text(">"));
    B.CodeSplits(h, i + 2, text, Text(">"));
    Bytewise(h, i, head);
    Bytewise(h, i + 2, text);
    At(h, i + 2 + |text|, Text(">"), 0);
    forall k | i + 2 <= k < i + 2 + |text| ensures h[k] != GT { assert text[k - i - 2] in text; }
    if |text| >= 2 { assert Text("--") == [DASH, DASH]; assert text[..2] == [text[0], text[1]]; }
  }

  // ---------------------------------------------------------------- start tags

  lemma LowerIsAlike(s: Bytes, w: Bytes)
    requires LowerAll(w) == w
    ensures LowerAll(s) == w <==> Alike(s, w)
  {
    if LowerAll(s) == w {
      forall i | 0 <= i < |s| ensures s[i] == w[i] || (65 <= s[i] <= 90 && s[i] + 32 == w[i]) { assert LowerAll(s)[i] == w[i]; }
    }
    if Alike(s, w) {
      forall i | 0 <= i < |s| ensures LowerAll(s)[i] == w[i] { assert LowerAll(w)[i] == w[i]; }
    }
  }

  lemma Called(name: Bytes)
    ensures IsCalled(name, "script") <==> LowerAll(name) == SCRIPT
    ensures IsCalled(name, "style") <==> LowerAll(name) == STYLE
    ensures IsCalled(name, "link") <==> LowerAll(name) == LINK
  {
    assert Text("script") == SCRIPT && Text("style") == STYLE && Text("link") == LINK;
    assert LowerAll(SCRIPT) == SCRIPT && LowerAll(STYLE) == STYLE && LowerAll(LINK) == LINK;
    hide Text, LowerAll, Alike;
    LowerIsAlike(name, SCRIPT);
    LowerIsAlike(name, STYLE);
    LowerIsAlike(name, LINK);
  }

  /** What comes behind an element name does not belong to it. */
  lemma NameStops(h: Bytes, p: nat, name: Bytes, ws: seq<Written>, gap: Bytes)
    requires B.CodeAt(h, p, PrintList(ws, gap)) && StartOk(name, ws, gap)
    ensures p < |h| && !NameLike(h[p])
  {
    if ws == [] {
      EmptyPrinted(ws, gap);
      At(h, p, gap + ['>' as int], 0);
    } else {
      var rest := BeginsWith(ws, gap);
      At(h, p, (ws[0].gap + [ws[0].name[0]]) + rest, 0);
    }
  }

  lemma StartRead(h: Bytes, i: nat, name: Bytes, ws: seq<Written>, gap: Bytes)
    requires B.CodeAt(h, i, PrintStart(name, ws, gap)) && StartOk(name, ws, gap)
    ensures
      var end, gt := i + 1 + |name|, i + |name| + |PrintList(ws, gap)|;
      && end <= gt < |h| && h[i] == LT && !Markup(h, i) && NameEnd(h, i + 1) == Some(end) && h[i + 1..end] == name
      && Attributes(h, end, end) == Success(AttrList(ReadList(ws), gt, ClosesItself(ws, gap)))
  {
    hide *;
    var end := i + 1 + |name|;
    StartSplits(h, i, name, ws, gap);
    NameStops(h, end, name, ws, gap);
    NameIsRead(h, i + 1, name, ws, gap);
    ListAhead(name, ws, gap);
    ListRead(h, end, ws, gap, end);
  }

  lemma ListAhead(name: Bytes, ws: seq<Written>, gap: Bytes)
    requires StartOk(name, ws, gap)
    ensures ListOk(ws, gap) && Blank(if ws == [] then gap else ws[0].gap)
  {
    hide ListOk, Blank;
  }

  lemma StartSplits(h: Bytes, i: nat, name: Bytes, ws: seq<Written>, gap: Bytes)
    requires B.CodeAt(h, i, PrintStart(name, ws, gap))
    ensures i < |h| && h[i] == LT && B.CodeAt(h, i + 1, name) && B.CodeAt(h, i + 1 + |name|, PrintList(ws, gap))
    ensures |PrintStart(name, ws, gap)| == 1 + |name| + |PrintList(ws, gap)|
  {
    assert Text("<") == [LT];
    hide PrintList, Text, B.CodeAt;
    B.CodeSplits(h, i, [LT], name + PrintList(ws, gap));
    B.CodeSplits(h, i + 1, name, PrintList(ws, gap));
    At(h, i, [LT], 0);
  }

  lemma NameIsRead(h: Bytes, at: nat, name: Bytes, ws: seq<Written>, gap: Bytes)
    requires B.CodeAt(h, at, name) && StartOk(name, ws, gap) && at + |name| < |h| && !NameLike(h[at + |name|])
    requires at > 0 && h[at - 1] == LT
    ensures NameEnd(h, at) == Some(at + |name|) && h[at..at + |name|] == name && !Markup(h, at - 1)
  {
    Bytewise(h, at, name);
    SkipExact(h, at, at + |name|, NameByte);
    hide ListOk, Blank;
  }

  lemma StartScanned(h: Bytes, i: nat, name: Bytes, ws: seq<Written>, gap: Bytes)
    requires B.CodeAt(h, i, PrintStart(name, ws, gap)) && PieceOk(Start(name, ws, gap))
    ensures GoesOn(h, i, TagsOfPiece(Start(name, ws, gap), i), i + |PrintStart(name, ws, gap)|)
  {
    hide *;
    var gt := i + |name| + |PrintList(ws, gap)|;
    StartTags(name, ws, gap, i);
    StartRead(h, i, name, ws, gap);
    StartSplits(h, i, name, ws, gap);
    ElementLook(h, i);
    NotRaw(h, i, i + 1 + |name|, AttrList(ReadList(ws), gt, ClosesItself(ws, gap)));
    var tag := Tag(LowerAll(name), i, gt + 1, gt, ReadList(ws), None);
    var look := Look(gt + 1, if IsReported(LowerAll(name)) then Some(tag) else None);
    OneTagIs(look);
    LookGoesOn(h, i, look);
  }

  lemma OneTagIs(look: Look)
    ensures OneTag(look) == if look.tag.Some? then [look.tag.value] else []
  {
  }

  lemma StartTags(name: Bytes, ws: seq<Written>, gap: Bytes, i: nat)
    ensures
      var gt := i + |name| + |PrintList(ws, gap)|;
      TagsOfPiece(Start(name, ws, gap), i) ==
        if IsReported(LowerAll(name)) then [Tag(LowerAll(name), i, gt + 1, gt, ReadList(ws), None)] else []
    ensures PieceOk(Start(name, ws, gap)) ==> StartOk(name, ws, gap) && (IsRawText(LowerAll(name)) ==> ClosesItself(ws, gap))
  {
    Called(name);
    hide LowerAll, PrintList, ReadList, IsCalled, ClosesItself, StartOk;
  }

  lemma NotRaw(h: Bytes, i: nat, end: nat, list: AttrList)
    requires i < end <= |h| && Attributes(h, end, end) == Success(list)
    requires IsRawText(LowerAll(h[i + 1..end])) ==> list.selfClosing
    ensures
      var name := LowerAll(h[i + 1..end]);
      Element(h, i, end) ==
        Success(Look(list.gt + 1, if IsReported(name) then Some(Tag(name, i, list.gt + 1, list.gt, list.attrs, None)) else None))
  {
    hide Attributes, LowerAll, FindClose;
  }

  // ---------------------------------------------------------------- raw text

  /** What follows the start tag of a raw text. */
  function RawTail(text: Bytes, close: Bytes): Bytes { text + (Text("</") + (close + Text(">"))) }

  lemma CloseIs(h: Bytes, p: nat, w: Bytes)
    requires LowerAll(w) == w && p + 2 + |w| < |h|
    ensures ClosesAt(h, p, w) <==> ClosesWord(h, p, w)
  {
    LowerIsAlike(h[p + 2..p + 2 + |w|], w);
    hide LowerAll, Alike;
  }

  /** A closing tag within a stretch of the page is one of the page. */
  lemma CloseShifts(h: Bytes, at: nat, s: Bytes, k: nat, w: Bytes)
    requires B.CodeAt(h, at, s) && k + 2 + |w| < |s|
    ensures at + k + 2 + |w| < |h| && (ClosesWord(h, at + k, w) <==> ClosesWord(s, k, w))
  {
    Bytewise(h, at, s);
    assert h[at + k + 2..at + k + 2 + |w|] == s[k + 2..k + 2 + |w|];
    hide Alike, White;
  }

  lemma {:induction false} FindCloseExact(h: Bytes, i: nat, e: nat, name: Bytes)
    requires i <= e && ClosesAt(h, e, name) && forall k :: i <= k < e ==> !ClosesAt(h, k, name)
    ensures FindClose(h, i, name) == Some(e)
    decreases e - i
  {
    CloseWithin(h, e, name);
    hide ClosesAt;
    if i < e { FindCloseExact(h, i + 1, e, name); }
  }

  lemma CloseWithin(h: Bytes, e: nat, name: Bytes)
    requires ClosesAt(h, e, name)
    ensures e + 2 + |name| <= |h|
  {
    hide LowerAll;
  }

  lemma CloseBehindText(text: Bytes, close: Bytes, w: Bytes)
    requires ClosesWord(Text("</") + (close + Text(">")), 0, w)
    ensures |text| + 2 + |w| < |RawTail(text, close)| && ClosesWord(RawTail(text, close), |text|, w)
  {
    var tail := Text("</") + (close + Text(">"));
    assert B.CodeAt(RawTail(text, close), |text|, tail);
    hide Alike, White, Text;
    CloseShifts(RawTail(text, close), |text|, tail, 0, w);
  }

  lemma {:induction false} LowerTwice(s: Bytes)
    ensures LowerAll(LowerAll(s)) == LowerAll(s)
  {
  }

  lemma TextEnds(h: Bytes, at: nat, text: Bytes, close: Bytes, w: Bytes)
    requires B.CodeAt(h, at, RawTail(text, close)) && LowerAll(w) == w
    requires ClosesWord(Text("</") + (close + Text(">")), 0, w)
    requires forall k :: 0 <= k < |text| ==> !ClosesWord(RawTail(text, close), k, w)
    ensures FindClose(h, at, w) == Some(at + |text|)
  {
    var s := RawTail(text, close);
    CloseBehindText(text, close, w);
    hide ClosesWord, ClosesAt, RawTail, LowerAll, Text, B.CodeAt;
    forall k: nat | k <= |text| ensures ClosesAt(h, at + k, w) <==> ClosesWord(s, k, w) {
      CloseShifts(h, at, s, k, w);
      CloseIs(h, at + k, w);
    }
    forall k | at <= k < at + |text| ensures !ClosesAt(h, k, w) {
      assert ClosesAt(h, at + (k - at), w) <==> ClosesWord(s, k - at, w);
    }
    FindCloseExact(h, at, at + |text|, w);
  }

  lemma RawElement(h: Bytes, i: nat, end: nat, list: AttrList, close: nat)
    requires i < end <= |h| && Attributes(h, end, end) == Success(list) && !list.selfClosing
    requires IsRawText(LowerAll(h[i + 1..end])) && FindClose(h, list.gt + 1, LowerAll(h[i + 1..end])) == Some(close)
    ensures
      var name := LowerAll(h[i + 1..end]);
      var tag := Tag(name, i, list.gt + 1, list.gt, list.attrs, Some((list.gt + 1, close)));
      Element(h, i, end) == Success(Look(close, if name == SCRIPT then Some(tag) else None))
  {
    hide Attributes, LowerAll, FindClose;
  }

  lemma RawOkIs(name: Bytes, ws: seq<Written>, gap: Bytes, text: Bytes, close: Bytes)
    requires PieceOk(RawText(name, ws, gap, text, close))
    ensures StartOk(name, ws, gap) && !ClosesItself(ws, gap) && IsRawText(LowerAll(name))
    ensures ClosesWord(Text("</") + (close + Text(">")), 0, LowerAll(name))
    ensures forall k :: 0 <= k < |text| ==> !ClosesWord(RawTail(text, close), k, LowerAll(name))
    ensures PieceOk(Mark('/', close))
  {
    Called(name);
    hide StartOk, ClosesItself, LowerAll, ClosesWord, IsCalled, Text;
  }

  lemma RawTags(name: Bytes, ws: seq<Written>, gap: Bytes, text: Bytes, close: Bytes, i: nat)
    ensures
      var gt := i + |name| + |PrintList(ws, gap)|;
      TagsOfPiece(RawText(name, ws, gap, text, close), i) ==
        if LowerAll(name) == SCRIPT
        then [Tag(LowerAll(name), i, gt + 1, gt, ReadList(ws), Some((gt + 1, gt + 1 + |text|)))] else []
    ensures Print(RawText(name, ws, gap, text, close)) == PrintStart(name, ws, gap) + RawTail(text, close)
  {
    Called(name);
    hide LowerAll, PrintList, PrintStart, ReadList, IsCalled, Text;
  }

  /** Where the parts of a raw text lie. */
  lemma RawSplits(h: Bytes, i: nat, name: Bytes, ws: seq<Written>, gap: Bytes, text: Bytes, close: Bytes)
    requires B.CodeAt(h, i, PrintStart(name, ws, gap) + RawTail(text, close))
    ensures
      var at := i + 1 + |name| + |PrintList(ws, gap)|;
      && B.CodeAt(h, i, PrintStart(name, ws, gap)) && B.CodeAt(h, at, RawTail(text, close))
      && B.CodeAt(h, at + |text|, Print(Mark('/', close)))
      && at + |text| + |Print(Mark('/', close))| == i + |PrintStart(name, ws, gap) + RawTail(text, close)|
  {
    hide *;
    TailIs(text, close);
    B.CodeSplits(h, i, PrintStart(name, ws, gap), RawTail(text, close));
    StartSplits(h, i, name, ws, gap);
    B.CodeSplits(h, i + |PrintStart(name, ws, gap)|, text, Print(Mark('/', close)));
  }

  lemma TailIs(text: Bytes, close: Bytes)
    ensures RawTail(text, close) == text + Print(Mark('/', close))
  {
    assert Text("<" + ['/']) == Text("</");
    hide Text;
  }

  lemma RawScanned(h: Bytes, i: nat, name: Bytes, ws: seq<Written>, gap: Bytes, text: Bytes, close: Bytes)
    requires B.CodeAt(h, i, Print(RawText(name, ws, gap, text, close))) && PieceOk(RawText(name, ws, gap, text, close))
    ensures GoesOn(h, i, TagsOfPiece(RawText(name, ws, gap, text, close), i), i + |Print(RawText(name, ws, gap, text, close))|)
  {
    hide *;
    var end, gt := i + 1 + |name|, i + |name| + |PrintList(ws, gap)|;
    RawTags(name, ws, gap, text, close, i);
    RawOkIs(name, ws, gap, text, close);
    RawSplits(h, i, name, ws, gap, text, close);
    StartRead(h, i, name, ws, gap);
    LowerTwice(name);
    TextEnds(h, gt + 1, text, close, LowerAll(name));
    ElementLook(h, i);
    RawElement(h, i, end, AttrList(ReadList(ws), gt, ClosesItself(ws, gap)), gt + 1 + |text|);
    var tag := Tag(LowerAll(name), i, gt + 1, gt, ReadList(ws), Some((gt + 1, gt + 1 + |text|)));
    var look := Look(gt + 1 + |text|, if LowerAll(name) == SCRIPT then Some(tag) else None);
    OneTagIs(look);
    LookGoesOn(h, i, look);
    MarkupScanned(h, gt + 1 + |text|, '/', close);
    var tags := OneTag(look);
    assert tags + [] == tags;
    GoesOnTwice(h, i, tags, gt + 1 + |text|, [], i + |Print(RawText(name, ws, gap, text, close))|);
  }

  // ---------------------------------------------------------------- the page

  lemma PieceScanned(h: Bytes, i: nat, p: Piece)
    requires B.CodeAt(h, i, Print(p)) && PieceOk(p)
    ensures GoesOn(h, i, TagsOfPiece(p, i), i + |Print(p)|)
  {
    hide B.CodeAt, GoesOn, PrintStart, StartOk, ClosesItself, IsCalled, ClosesWord, Text, EndsComment;
    match p
    case Prose(text) => ProseScanned(h, i, text);
    case Lone(next) => LoneScanned(h, i, next);
    case Comment(text) => CommentScanned(h, i, text);
    case Mark(mark, text) => MarkupScanned(h, i, mark, text);
    case Start(name, ws, gap) => StartScanned(h, i, name, ws, gap);
    case RawText(name, ws, gap, text, close) => RawScanned(h, i, name, ws, gap, text, close);
  }

  lemma {:induction false} PageGoesOn(h: Bytes, i: nat, ps: seq<Piece>)
    requires B.CodeAt(h, i, PrintAll(ps)) && forall p :: p in ps ==> PieceOk(p)
    ensures GoesOn(h, i, TagsOfPage(ps, i), i + |PrintAll(ps)|)
    decreases |ps|
  {
    hide GoesOn, PieceOk, TagsOfPiece, Print, B.CodeAt;
    if ps == [] {
      CodeWithin(h, i, PrintAll(ps));
      StaysPut(h, i);
    } else {
      var p, rest := ps[0], ps[1..];
      B.CodeSplits(h, i, Print(p), PrintAll(rest));
      PieceScanned(h, i, p);
      PageGoesOn(h, i + |Print(p)|, rest);
      GoesOnTwice(h, i, TagsOfPiece(p, i), i + |Print(p)|, TagsOfPage(rest, i + |Print(p)|), i + |PrintAll(ps)|);
    }
  }

  lemma CodeWithin(h: Bytes, i: nat, code: Bytes)
    requires B.CodeAt(h, i, code)
    ensures i + |code| <= |h|
  {
  }

  /** Print, then scan: every page made of such pieces - text, comments, declarations, closing tags, start tags
      with attributes in any of the three forms and any spacing, scripts and styles with their text - is scanned
      without error, and what the scan reports is exactly the scripts and links that were written, where they
      were written, with the attributes that were written. */
  lemma PrintedPageScans(ps: seq<Piece>)
    requires forall p :: p in ps ==> PieceOk(p)
    ensures Tags(PrintAll(ps), 0) == Success(TagsOfPage(ps, 0))
  {
    hide *;
    WholeIsThere(PrintAll(ps));
    PageGoesOn(PrintAll(ps), 0, ps);
    GoesToTheEnd(PrintAll(ps), TagsOfPage(ps, 0));
  }

  lemma WholeIsThere(h: Bytes)
    ensures B.CodeAt(h, 0, h)
  {
  }

  lemma GoesToTheEnd(h: Bytes, tags: seq<Tag>)
    requires GoesOn(h, 0, tags, |h|)
    ensures Tags(h, 0) == Success(tags)
  {
    hide Tags, Found;
    FoundAll(h, tags);
  }

  // ---------------------------------------------------------------- pages that break off

  /** Behind such pieces, the first thing wrong is the error the scan reports. */
  lemma FirstErrorIsReported(h: Bytes, ps: seq<Piece>, e: HtmlError)
    requires PrintAll(ps) <= h && forall p :: p in ps ==> PieceOk(p)
    requires Tags(h, |PrintAll(ps)|) == Failure(e)
    ensures Tags(h, 0) == Failure(e)
  {
    hide *;
    PrefixIsThere(h, PrintAll(ps));
    PageGoesOn(h, 0, ps);
    GoesToError(h, 0, TagsOfPage(ps, 0), |PrintAll(ps)|, e);
  }

  lemma PrefixIsThere(h: Bytes, code: Bytes)
    requires code <= h
    ensures B.CodeAt(h, 0, code)
  {
  }

  lemma GoesToError(h: Bytes, i: nat, tags: seq<Tag>, j: nat, e: HtmlError)
    requires GoesOn(h, i, tags, j) && Tags(h, j) == Failure(e)
    ensures Tags(h, i) == Failure(e)
  {
    hide Tags;
  }

  lemma LookFails(h: Bytes, i: nat, e: HtmlError)
    requires i < |h| && LookAt(h, i) == Failure(e)
    ensures Tags(h, i) == Failure(e)
  {
    hide LookAt;
  }

  lemma {:induction false} NoCommentEnd(h: Bytes, i: nat)
    requires forall k :: i <= k ==> !CommentEnd(h, k)
    ensures IndexOfCommentEnd(h, i).None?
    decreases |h| - i
  {
    hide CommentEnd;
    if i < |h| { NoCommentEnd(h, i + 1); }
  }

  lemma {:induction false} NoIndex(h: Bytes, i: nat, b: byte)
    requires forall k :: i <= k < |h| ==> h[k] != b
    ensures IndexOf(h, i, b).None?
    decreases |h| - i
  {
    if i < |h| { NoIndex(h, i + 1, b); }
  }

  lemma {:induction false} NoClose(h: Bytes, i: nat, name: Bytes)
    requires forall k :: i <= k ==> !ClosesAt(h, k, name)
    ensures FindClose(h, i, name).None?
    decreases |h| - i
  {
    hide ClosesAt;
    if i + 2 + |name| <= |h| { NoClose(h, i + 1, name); }
  }

  /** A comment that is not closed. */
  lemma UnclosedComment(h: Bytes, i: nat)
    requires B.CodeAt(h, i, Text("<!--")) && forall k :: i + 4 <= k ==> !EndsComment(h, k)
    ensures Tags(h, i) == Failure(UnterminatedComment(i))
  {
    assert h[i..i + 4] == Text("<!--") == [LT, BANG, DASH, DASH];
    At(h, i, Text("<!--"), 0);
    forall k | i + 4 <= k ensures !CommentEnd(h, k) {
      CommentEndSpelled(h, k);
      assert !EndsComment(h, k);
    }
    hide CommentEnd, EndsComment, LookAt, Tags, Text;
    NoCommentEnd(h, i + 4);
    LookBranches(h, i);
    LookFails(h, i, UnterminatedComment(i));
  }

  /** A declaration, an instruction or a closing tag that is not. */
  lemma UnclosedMark(h: Bytes, i: nat)
    requires i + 1 < |h| && h[i] == '<' as int && h[i + 1] in {'!' as int, '?' as int, '/' as int}
    requires h[i + 1] == '!' as int ==> !B.CodeAt(h, i, Text("<!--"))
    requires forall k :: i <= k < |h| ==> h[k] != '>' as int
    ensures Tags(h, i) == Failure(UnterminatedTag(i))
  {
    assert Text("<!--") == [LT, BANG, DASH, DASH];
    StartsByByte(h, i);
    if i + 4 <= |h| { assert h[i..i + 4] == [h[i], h[i + 1], h[i + 2], h[i + 3]]; }
    hide LookAt, Tags, Starts, Text;
    NoIndex(h, i, GT);
    LookBranches(h, i);
    LookFails(h, i, UnterminatedTag(i));
  }

  /** A script or style without its closing tag, even at the very end. */
  lemma UnclosedText(h: Bytes, i: nat, name: Bytes, ws: seq<Written>, gap: Bytes)
    requires B.CodeAt(h, i, PrintStart(name, ws, gap)) && StartOk(name, ws, gap) && !ClosesItself(ws, gap)
    requires IsCalled(name, "script") || IsCalled(name, "style")
    requires forall k :: i <= k ==> !ClosesAt(h, k, LowerAll(name))
    ensures Tags(h, i) == Failure(UnterminatedRawText(i))
  {
    hide *;
    var end, gt := i + 1 + |name|, i + |name| + |PrintList(ws, gap)|;
    RawByName(name);
    StartRead(h, i, name, ws, gap);
    NoClose(h, gt + 1, LowerAll(name));
    ElementLook(h, i);
    EndlessElement(h, i, end, AttrList(ReadList(ws), gt, ClosesItself(ws, gap)));
    LookFails(h, i, UnterminatedRawText(i));
  }

  lemma RawByName(name: Bytes)
    ensures IsCalled(name, "script") || IsCalled(name, "style") <==> IsRawText(LowerAll(name))
  {
    Called(name);
    hide IsCalled, LowerAll;
  }

  lemma EndlessElement(h: Bytes, i: nat, end: nat, list: AttrList)
    requires i < end <= |h| && Attributes(h, end, end) == Success(list) && !list.selfClosing
    requires IsRawText(LowerAll(h[i + 1..end])) && FindClose(h, list.gt + 1, LowerAll(h[i + 1..end])).None?
    ensures Element(h, i, end) == Failure(UnterminatedRawText(i))
  {
    hide Attributes, LowerAll, FindClose;
  }

  /** A start tag whose list of attributes breaks off. */
  lemma UnclosedStart(h: Bytes, i: nat, end: nat, e: HtmlError)
    requires i < |h| && h[i] == LT && !Markup(h, i) && NameEnd(h, i + 1) == Some(end) && Attributes(h, end, end) == Failure(e)
    ensures Tags(h, i) == Failure(e)
  {
    hide *;
    ElementLook(h, i);
    BrokenElement(h, i, end, e);
    LookFails(h, i, e);
  }

  lemma BrokenElement(h: Bytes, i: nat, end: nat, e: HtmlError)
    requires i < end <= |h| && Attributes(h, end, end) == Failure(e)
    ensures Element(h, i, end) == Failure(e)
  {
    hide Attributes;
  }

  /** In a gap, at the end of the page or before an equals sign without a name. */
  lemma ListBreaksOff(h: Bytes, i: nat, gap: Bytes, start: nat)
    requires B.CodeAt(h, i, gap) && Blank(gap)
    ensures i + |gap| == |h| ==> Attributes(h, i, start) == Failure(UnterminatedTag(start))
    ensures i + |gap| < |h| && h[i + |gap|] == '=' as int ==> Attributes(h, i, start) == Failure(MalformedAttribute(i + |gap|))
  {
    var p := i + |gap|;
    assert p <= |h|;
    GapSkipped(h, i, gap, start);
    if p < |h| && h[p] == '=' as int {
      SkipExact(h, p, p, Space);
      SkipExact(h, p, p, AttrName);
    }
    hide B.CodeAt;
  }

  /** Or in a value whose quote is not closed. */
  lemma QuoteUnclosed(h: Bytes, j: nat, name: Bytes, before: Bytes, after: Bytes, start: nat)
    requires B.CodeAt(h, j, name) && NameOk(name)
    requires
      var s := j + |name| + |before|;
      var t := s + 1 + |after|;
      && B.CodeAt(h, j + |name|, before) && AllWhite(before) && B.CodeAt(h, s + 1, after) && AllWhite(after)
      && t < |h| && h[s] == '=' as int && (h[t] == '"' as int || h[t] == '\'' as int)
      && forall k :: t < k < |h| ==> h[k] != h[t]
    ensures Attributes(h, j, start) == Failure(UnterminatedTag(start))
  {
    var n := j + |name|;
    var s := n + |before|;
    var t := s + 1 + |after|;
    hide *;
    QuoteIsNoSpace(h[t]);
    NameEndsAtSpace(h, n, before);
    NoIndex(h, t + 1, h[t]);
    NameIsSome(name);
    NoBlankName(h, j, name);
    NameRead(h, j, name);
    EqualsRead(h, n, before, after);
    ValueFails(h, s, t, start);
    AttributeBy(h, j, start);
    AttributeFails(h, j, start, UnterminatedTag(start));
  }

  lemma QuoteIsNoSpace(b: byte)
    ensures b == '"' as int || b == '\'' as int ==> !White(b) && (b == QUOTE || b == APOSTROPHE)
    ensures EQUALS == '=' as int
  {
  }

  lemma ValueFails(h: Bytes, s: nat, t: nat, start: nat)
    requires s < t < |h| && h[s] == EQUALS && Skip(h, s + 1, Space) == t && (h[t] == QUOTE || h[t] == APOSTROPHE)
    requires IndexOf(h, t + 1, h[t]).None?
    ensures ValueAt(h, s, start) == Failure(UnterminatedTag(start))
  {
    hide Skip, IndexOf;
  }

  lemma NameEndsAtSpace(h: Bytes, n: nat, before: Bytes)
    requires B.CodeAt(h, n, before) && AllWhite(before) && n + |before| < |h| && h[n + |before|] == '=' as int
    ensures n < |h| && (White(h[n]) || h[n] == '=' as int)
  {
    if before != [] { At(h, n, before, 0); }
  }

  lemma NoBlankName(h: Bytes, j: nat, name: Bytes)
    requires B.CodeAt(h, j, name) && NameOk(name)
    ensures j < |h| && Skip(h, j, Space) == j && h[j] != GT && h[j] != SLASH
  {
    At(h, j, name, 0);
    SkipExact(h, j, j, Space);
  }

  lemma AttributeFails(h: Bytes, j: nat, start: nat, e: HtmlError)
    requires j < |h| && Skip(h, j, Space) == j && h[j] != GT && h[j] != SLASH && OneAttribute(h, j, start) == Failure(e)
    ensures Attributes(h, j, start) == Failure(e)
  {
    hide OneAttribute, Skip;
  }
}
