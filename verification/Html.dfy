/** The fail-closed locator of script and link tags (src/html.rs). */
module Html {
  import opened Prelude

  const LT: byte := 0x3C      // <
  const GT: byte := 0x3E      // >
  const SLASH: byte := 0x2F
  const BANG: byte := 0x21
  const QUERY: byte := 0x3F   // ?
  const DASH: byte := 0x2D
  const EQUALS: byte := 0x3D
  const QUOTE: byte := 0x22   // "
  const APOSTROPHE: byte := 0x27
  const AMP: byte := 0x26
  const SPACE: byte := 0x20

  const SCRIPT: Bytes := [0x73, 0x63, 0x72, 0x69, 0x70, 0x74]
  const STYLE: Bytes := [0x73, 0x74, 0x79, 0x6C, 0x65]
  const LINK: Bytes := [0x6C, 0x69, 0x6E, 0x6B]

  // ---------------------------------------------------------------- bytes and runs of bytes

  predicate IsSpace(b: byte) { b == 0x20 || b == 0x09 || b == 0x0A || b == 0x0C || b == 0x0D }

  predicate IsAlpha(b: byte) { 0x41 <= b <= 0x5A || 0x61 <= b <= 0x7A }

  predicate IsAlnum(b: byte) { IsAlpha(b) || 0x30 <= b <= 0x39 }

  function Lower(b: byte): byte { if 0x41 <= b <= 0x5A then b + 32 else b }

  function LowerAll(s: Bytes): (r: Bytes)
    ensures |r| == |s|
  {
    seq(|s|, i requires 0 <= i < |s| => Lower(s[i]))
  }

  /** The four kinds of run the scanner skips over. */
  datatype Class = Space | NameByte | AttrName | Unquoted

  predicate In(c: Class, b: byte) {
    match c
    case Space => IsSpace(b)
    case NameByte => IsAlnum(b) || b == DASH
    case AttrName => !IsSpace(b) && b != EQUALS && b != GT && b != SLASH
    case Unquoted => !IsSpace(b) && b != GT
  }

  /** End of the run of `c` that starts at `i`. */
  function Skip(h: Bytes, i: nat, c: Class): (j: nat)
    requires i <= |h|
    ensures i <= j <= |h| && (j < |h| ==> !In(c, h[j]))
    decreases |h| - i
  {
    if i < |h| && In(c, h[i]) then Skip(h, i + 1, c) else i
  }

  method SkipRun(h: Bytes, i: nat, c: Class) returns (j: nat)
    requires i <= |h|
    ensures j == Skip(h, i, c)
  {
    j := i;
    while j < |h| && In(c, h[j])
      invariant i <= j <= |h| && Skip(h, i, c) == Skip(h, j, c)
    {
      j := j + 1;
    }
  }

  /** `memchr`: the first position of `b` at or after `i`. */
  function IndexOf(h: Bytes, i: nat, b: byte): (r: Option<nat>)
    ensures r.Some? ==> i <= r.value < |h| && h[r.value] == b
    decreases |h| - i
  {
    if i >= |h| then None else if h[i] == b then Some(i) else IndexOf(h, i + 1, b)
  }

  predicate CommentEnd(h: Bytes, i: nat) {
    i + 3 <= |h| && h[i] == DASH && h[i + 1] == DASH && h[i + 2] == GT
  }

  /** `find(html, i, "-->")` */
  function IndexOfCommentEnd(h: Bytes, i: nat): (r: Option<nat>)
    ensures r.Some? ==> i <= r.value && CommentEnd(h, r.value)
    decreases |h| - i
  {
    if i >= |h| then None else if CommentEnd(h, i) then Some(i) else IndexOfCommentEnd(h, i + 1)
  }

  // ---------------------------------------------------------------- character references

  /** `str::replace`: non-overlapping occurrences, left to right. */
  function Replace(s: Bytes, pattern: Bytes, with: Bytes): Bytes
    requires pattern != []
    decreases |s|
  {
    if s == [] then []
    else if pattern <= s then with + Replace(s[|pattern|..], pattern, with)
    else [s[0]] + Replace(s[1..], pattern, with)
  }

  /** The references resolved in attribute values, the ampersand last. */
  function Decode(s: Bytes): Bytes {
    if AMP !in s then s
    else
      var s1 := Replace(s, [0x26, 0x6C, 0x74, 0x3B], [LT]);                               // &lt;
      var s2 := Replace(s1, [0x26, 0x67, 0x74, 0x3B], [GT]);                              // &gt;
      var s3 := Replace(s2, [0x26, 0x71, 0x75, 0x6F, 0x74, 0x3B], [QUOTE]);               // &quot;
      var s4 := Replace(s3, [0x26, 0x23, 0x33, 0x39, 0x3B], [APOSTROPHE]);                // &#39;
      var s5 := Replace(s4, [0x26, 0x61, 0x70, 0x6F, 0x73, 0x3B], [APOSTROPHE]);          // &apos;
      Replace(s5, [0x26, 0x61, 0x6D, 0x70, 0x3B], [AMP])                                  // &amp;
  }

  // ---------------------------------------------------------------- attributes

  /** Name in lower case, value with references resolved. */
  datatype Attr = Attr(name: Bytes, value: Bytes)

  datatype HtmlError =
    | UnterminatedTag(at: nat) | UnterminatedComment(at: nat) | UnterminatedRawText(at: nat) | MalformedAttribute(at: nat)

  datatype AttrList = AttrList(attrs: seq<Attr>, gt: nat, selfClosing: bool)

  /** The value that follows an attribute name, and the position after it. */
  function ValueAt(h: Bytes, i: nat, start: nat): (r: Result<(Bytes, nat), HtmlError>)
    requires i <= |h|
    ensures r.Success? ==> i <= r.value.1 <= |h|
  {
    if i < |h| && h[i] == EQUALS then
      var j := Skip(h, i + 1, Space);
      if j >= |h| then Failure(UnterminatedTag(start))
      else if h[j] == QUOTE || h[j] == APOSTROPHE then
        match IndexOf(h, j + 1, h[j])
        case None => Failure(UnterminatedTag(start))
        case Some(end) => Success((Decode(h[j + 1..end]), end + 1))
      else
        var k := Skip(h, j, Unquoted);
        Success((Decode(h[j..k]), k))
    else Success(([], i))
  }

  /** The attribute whose name starts at `j`, and the position after it. */
  function OneAttribute(h: Bytes, j: nat, start: nat): (r: Result<(Attr, nat), HtmlError>)
    requires j <= |h|
    ensures r.Success? ==> j < r.value.1 <= |h|
  {
    var n := Skip(h, j, AttrName);
    if n == j then Failure(MalformedAttribute(j))
    else
      match ValueAt(h, Skip(h, n, Space), start)
      case Failure(e) => Failure(e)
      case Success((value, k)) => Success((Attr(LowerAll(h[j..n]), value), k))
  }

  /** What the attribute loop has gathered so far, in front of what is still to come. */
  function Gathered(attrs: seq<Attr>, selfClosing: bool, r: Result<AttrList, HtmlError>): Result<AttrList, HtmlError> {
    match r
    case Failure(e) => Failure(e)
    case Success(rest) => Success(AttrList(attrs + rest.attrs, rest.gt, selfClosing || rest.selfClosing))
  }

  lemma GatheredNothing(r: Result<AttrList, HtmlError>)
    ensures Gathered([], false, r) == r
  {
    if r.Success? { assert [] + r.value.attrs == r.value.attrs; }
  }

  /** The attribute list from `i` to the `>` that closes the start tag. */
  function Attributes(h: Bytes, i: nat, start: nat): (r: Result<AttrList, HtmlError>)
    requires i <= |h|
    ensures r.Success? ==> i <= r.value.gt < |h| && h[r.value.gt] == GT
    decreases |h| - i
  {
    var j := Skip(h, i, Space);
    if j >= |h| then Failure(UnterminatedTag(start))
    else if h[j] == GT then Success(AttrList([], j, false))
    else if h[j] == SLASH then Gathered([], true, Attributes(h, j + 1, start))
    else
      match OneAttribute(h, j, start)
      case Failure(e) => Failure(e)
      case Success((attr, k)) => Gathered([attr], false, Attributes(h, k, start))
  }

  /** `html[i..]` as an attribute value, in a method of its own. */
  method ParseValue(h: Bytes, at: nat, start: nat) returns (r: Result<(Bytes, nat), HtmlError>)
    requires at <= |h|
    ensures r == ValueAt(h, at, start)
  {
    if !(at < |h| && h[at] == EQUALS) { return Success(([], at)); }
    var i := SkipRun(h, at + 1, Space);
    if i >= |h| { return Failure(UnterminatedTag(start)); }
    if h[i] == QUOTE || h[i] == APOSTROPHE {
      var end := IndexOf(h, i + 1, h[i]);
      if end.None? { return Failure(UnterminatedTag(start)); }
      return Success((Decode(h[i + 1..end.value]), end.value + 1));
    }
    var k := SkipRun(h, i, Unquoted);
    return Success((Decode(h[i..k]), k));
  }

  /** One turn of the attribute loop, behind what earlier turns gathered. */
  lemma GatherStep(h: Bytes, i: nat, start: nat, attrs: seq<Attr>, selfClosing: bool)
    requires i <= |h|
    ensures var j := Skip(h, i, Space);
      var all := Gathered(attrs, selfClosing, Attributes(h, i, start));
      && (j >= |h| ==> all == Failure(UnterminatedTag(start)))
      && (j < |h| && h[j] == GT ==> all == Success(AttrList(attrs, j, selfClosing)))
      && (j < |h| && h[j] == SLASH ==> all == Gathered(attrs, true, Attributes(h, j + 1, start)))
      && (j < |h| && h[j] != GT && h[j] != SLASH ==>
            match OneAttribute(h, j, start)
            case Failure(e) => all == Failure(e)
            case Success((attr, k)) => all == Gathered(attrs + [attr], selfClosing, Attributes(h, k, start)))
  {
    hide Skip, OneAttribute;
    assert attrs + [] == attrs;
    var j := Skip(h, i, Space);
    if j < |h| && h[j] == SLASH {
      if Attributes(h, j + 1, start).Success? {
        var rest := Attributes(h, j + 1, start).value;
        assert [] + rest.attrs == rest.attrs;
      }
    } else if j < |h| && h[j] != GT && OneAttribute(h, j, start).Success? {
      var (attr, k) := OneAttribute(h, j, start).value;
      if Attributes(h, k, start).Success? {
        var rest := Attributes(h, k, start).value;
        assert attrs + ([attr] + rest.attrs) == (attrs + [attr]) + rest.attrs;
      }
    }
  }

  /** One attribute, in the terms of the loop body. */
  lemma AttributeBy(h: Bytes, j: nat, start: nat)
    requires j <= |h|
    ensures var n := Skip(h, j, AttrName); var v := ValueAt(h, Skip(h, n, Space), start);
      OneAttribute(h, j, start) ==
        if n == j then Failure(MalformedAttribute(j))
        else if v.Failure? then Failure(v.error)
        else Success((Attr(LowerAll(h[j..n]), v.value.0), v.value.1))
  {
    hide Skip, ValueAt, LowerAll;
  }

  method ParseAttributes(h: Bytes, start: nat) returns (r: Result<AttrList, HtmlError>)
    requires start <= |h|
    ensures r == Attributes(h, start, start)
  {
    hide *;
    var i := start;
    var attrs: seq<Attr> := [];
    var selfClosing := false;
    GatheredNothing(Attributes(h, start, start));
    while true
      invariant start <= i <= |h|
      invariant Attributes(h, start, start) == Gathered(attrs, selfClosing, Attributes(h, i, start))
      decreases |h| - i
    {
      GatherStep(h, i, start, attrs, selfClosing);
      i := SkipRun(h, i, Space);
      if i >= |h| { return Failure(UnterminatedTag(start)); }
      if h[i] == GT { return Success(AttrList(attrs, i, selfClosing)); }
      if h[i] == SLASH {
        selfClosing := true;
        i := i + 1;
        continue;
      }
      AttributeBy(h, i, start);
      var nameStart := i;
      i := SkipRun(h, i, AttrName);
      if i == nameStart { return Failure(MalformedAttribute(i)); }
      var name := LowerAll(h[nameStart..i]);
      i := SkipRun(h, i, Space);
      var value := ParseValue(h, i, start);
      if value.Failure? { return Failure(value.error); }
      attrs := attrs + [Attr(name, value.value.0)];
      i := value.value.1;
    }
  }

  // ---------------------------------------------------------------- elements

  /** End of the element name that starts at `at`, if one does. */
  function NameEnd(h: Bytes, at: nat): (r: Option<nat>)
    requires at <= |h|
    ensures r.Some? ==> at < r.value <= |h| && IsAlpha(h[at])
  {
    var end := Skip(h, at, NameByte);
    if end == at || !IsAlpha(h[at]) then None else Some(end)
  }

  /** `</name` in any case, not run on into a longer name. */
  predicate ClosesAt(h: Bytes, i: nat, name: Bytes) {
    && i + 2 + |name| <= |h|
    && h[i] == LT && h[i + 1] == SLASH && LowerAll(h[i + 2..i + 2 + |name|]) == name
    && (i + 2 + |name| == |h|
        || h[i + 2 + |name|] == GT || h[i + 2 + |name|] == SLASH || IsSpace(h[i + 2 + |name|]))
  }

  /** The first closing tag of a raw-text element at or after `i`. */
  function FindClose(h: Bytes, i: nat, name: Bytes): (r: Option<nat>)
    ensures r.Some? ==> i <= r.value < |h| && ClosesAt(h, r.value, name)
    decreases |h| - i
  {
    if i + 2 + |name| > |h| then None
    else if ClosesAt(h, i, name) then Some(i)
    else FindClose(h, i + 1, name)
  }

  lemma {:induction false} FindCloseIsFirst(h: Bytes, i: nat, name: Bytes)
    ensures var r := FindClose(h, i, name);
      forall k :: i <= k < (if r.Some? then r.value else |h|) ==> !ClosesAt(h, k, name)
    decreases |h| - i
  {
    if i + 2 + |name| <= |h| && !ClosesAt(h, i, name) { FindCloseIsFirst(h, i + 1, name); }
  }

  method FindCloseTag(h: Bytes, start: nat, name: Bytes) returns (r: Option<nat>)
    ensures r == FindClose(h, start, name)
  {
    var i := start;
    while i + 2 + |name| <= |h|
      invariant FindClose(h, start, name) == FindClose(h, i, name)
      decreases |h| - i
    {
      if h[i] == LT && h[i + 1] == SLASH && LowerAll(h[i + 2..i + 2 + |name|]) == name {
        var after := i + 2 + |name|;
        if after == |h| || h[after] == GT || h[after] == SLASH || IsSpace(h[after]) { return Some(i); }
      }
      i := i + 1;
    }
    return None;
  }

  /** Offsets of one start tag; `content` is the raw text of an inline script. */
  datatype Tag = Tag(name: Bytes, start: nat, end: nat, gt: nat, attrs: seq<Attr>, content: Option<(nat, nat)>)

  function AttrOf(attrs: seq<Attr>, name: Bytes): (r: Option<Bytes>)
    ensures r.Some? <==> exists a :: a in attrs && a.name == name
  {
    if attrs == [] then None
    else if attrs[0].name == name then Some(attrs[0].value)
    else AttrOf(attrs[1..], name)
  }

  /** The outcome of looking at one position: where to look next, and a tag when there is one. */
  datatype Look = Look(next: nat, tag: Option<Tag>)

  predicate Starts(h: Bytes, i: nat, prefix: Bytes) {
    i + |prefix| <= |h| && h[i..i + |prefix|] == prefix
  }

  predicate IsRawText(name: Bytes) { name == SCRIPT || name == STYLE }

  predicate IsReported(name: Bytes) { name == SCRIPT || name == LINK }

  /** An element whose name ends at `end`. */
  function Element(h: Bytes, i: nat, end: nat): (r: Result<Look, HtmlError>)
    requires i < end <= |h|
    ensures r.Success? ==> i < r.value.next <= |h|
  {
    match Attributes(h, end, end)
    case Failure(e) => Failure(e)
    case Success(list) =>
      var name := LowerAll(h[i + 1..end]);
      var tag := Tag(name, i, list.gt + 1, list.gt, list.attrs, None);
      if IsRawText(name) && !list.selfClosing then
        match FindClose(h, list.gt + 1, name)
        case None => Failure(UnterminatedRawText(i))
        case Some(close) =>
          if name == SCRIPT then Success(Look(close, Some(tag.(content := Some((list.gt + 1, close))))))
          else Success(Look(close, None))
      else if IsReported(name) then Success(Look(list.gt + 1, Some(tag)))
      else Success(Look(list.gt + 1, None))
  }

  /** The scanner's reading of position `i`. */
  function LookAt(h: Bytes, i: nat): (r: Result<Look, HtmlError>)
    requires i < |h|
    ensures r.Success? ==> i < r.value.next <= |h|
  {
    if h[i] != LT then Success(Look(i + 1, None))
    else if Starts(h, i, [LT, BANG, DASH, DASH]) then
      match IndexOfCommentEnd(h, i + 4)
      case None => Failure(UnterminatedComment(i))
      case Some(end) => Success(Look(end + 3, None))
    else if Starts(h, i, [LT, BANG]) || Starts(h, i, [LT, QUERY]) || Starts(h, i, [LT, SLASH]) then
      match IndexOf(h, i, GT)
      case None => Failure(UnterminatedTag(i))
      case Some(end) => Success(Look(end + 1, None))
    else
      match NameEnd(h, i + 1)
      case None => Success(Look(i + 1, None))
      case Some(end) => Element(h, i, end)
  }

  /** The branches of the scanner's loop body. */
  lemma LookBranches(h: Bytes, i: nat)
    requires i < |h|
    ensures LookAt(h, i) ==
      if h[i] != LT then Success(Look(i + 1, None))
      else if Starts(h, i, [LT, BANG, DASH, DASH]) then
        (match IndexOfCommentEnd(h, i + 4) case None => Failure(UnterminatedComment(i)) case Some(end) => Success(Look(end + 3, None)))
      else if Starts(h, i, [LT, BANG]) || Starts(h, i, [LT, QUERY]) || Starts(h, i, [LT, SLASH]) then
        (match IndexOf(h, i, GT) case None => Failure(UnterminatedTag(i)) case Some(end) => Success(Look(end + 1, None)))
      else if NameEnd(h, i + 1).None? then Success(Look(i + 1, None))
      else Element(h, i, NameEnd(h, i + 1).value)
  {
    hide Starts, Element, NameEnd;
  }

  /** Every script and link start tag from `i` on, or the first error. */
  function Tags(h: Bytes, i: nat): Result<seq<Tag>, HtmlError>
    decreases |h| - i
  {
    if i >= |h| then Success([])
    else
      match LookAt(h, i)
      case Failure(e) => Failure(e)
      case Success(look) =>
        match Tags(h, look.next)
        case Failure(e) => Failure(e)
        case Success(rest) => Success((if look.tag.Some? then [look.tag.value] else []) + rest)
  }

  function Found(done: seq<Tag>, r: Result<seq<Tag>, HtmlError>): Result<seq<Tag>, HtmlError> {
    match r
    case Failure(e) => Failure(e)
    case Success(rest) => Success(done + rest)
  }

  lemma FoundNothing(r: Result<seq<Tag>, HtmlError>)
    ensures Found([], r) == r
  {
    if r.Success? { assert [] + r.value == r.value; }
  }

  lemma FoundAll(h: Bytes, done: seq<Tag>)
    ensures Found(done, Tags(h, |h|)) == Success(done)
  {
    assert done + [] == done;
  }

  lemma FoundStep(h: Bytes, i: nat, done: seq<Tag>)
    requires i < |h|
    ensures
      match LookAt(h, i)
      case Failure(e) => Found(done, Tags(h, i)) == Failure(e)
      case Success(look) =>
        Found(done, Tags(h, i)) == Found(if look.tag.Some? then done + [look.tag.value] else done, Tags(h, look.next))
  {
    hide LookAt;
    match LookAt(h, i)
    case Failure(_) =>
    case Success(look) =>
      if Tags(h, look.next).Success? {
        var rest := Tags(h, look.next).value;
        if look.tag.Some? {
          assert done + ([look.tag.value] + rest) == (done + [look.tag.value]) + rest;
        } else {
          assert [] + rest == rest;
        }
      }
  }

  /** The element branch of the loop body. */
  method ScanElement(h: Bytes, i: nat, end: nat) returns (r: Result<Look, HtmlError>)
    requires i < end <= |h|
    ensures r == Element(h, i, end)
  {
    var name := LowerAll(h[i + 1..end]);
    var list := ParseAttributes(h, end);
    if list.Failure? { return Failure(list.error); }
    var gt := list.value.gt;
    var tag := Tag(name, i, gt + 1, gt, list.value.attrs, None);
    var next := gt + 1;
    if IsRawText(name) && !list.value.selfClosing {
      var close := FindCloseTag(h, gt + 1, name);
      if close.None? { return Failure(UnterminatedRawText(i)); }
      if name == SCRIPT { tag := tag.(content := Some((gt + 1, close.value))); }
      next := close.value;
    }
    return Success(Look(next, if IsReported(name) then Some(tag) else None));
  }

  /** The scanner. */
  method Scan(h: Bytes) returns (r: Result<seq<Tag>, HtmlError>)
    ensures r == Tags(h, 0)
  {
    var tags: seq<Tag> := [];
    var i := 0;
    hide *;
    FoundNothing(Tags(h, 0));
    while i < |h|
      invariant 0 <= i <= |h|
      invariant Tags(h, 0) == Found(tags, Tags(h, i))
      decreases |h| - i
    {
      FoundStep(h, i, tags);
      LookBranches(h, i);
      if h[i] != LT { i := i + 1; continue; }
      if Starts(h, i, [LT, BANG, DASH, DASH]) {
        var end := IndexOfCommentEnd(h, i + 4);
        if end.None? { return Failure(UnterminatedComment(i)); }
        i := end.value + 3;
        continue;
      }
      if Starts(h, i, [LT, BANG]) || Starts(h, i, [LT, QUERY]) {
        var end := IndexOf(h, i, GT);
        if end.None? { return Failure(UnterminatedTag(i)); }
        i := end.value + 1;
        continue;
      }
      if Starts(h, i, [LT, SLASH]) {
        var end := IndexOf(h, i, GT);
        if end.None? { return Failure(UnterminatedTag(i)); }
        i := end.value + 1;
        continue;
      }
      var name := ElementName(h, i + 1);
      if name.None? { i := i + 1; continue; }
      var look := ScanElement(h, i, name.value);
      if look.Failure? { return Failure(look.error); }
      if look.value.tag.Some? { tags := tags + [look.value.tag.value]; }
      i := look.value.next;
    }
    FoundAll(h, tags);
    return Success(tags);
  }

  method ElementName(h: Bytes, at: nat) returns (r: Option<nat>)
    requires at <= |h|
    ensures r == NameEnd(h, at)
  {
    var end := SkipRun(h, at, NameByte);
    if end == at || !IsAlpha(h[at]) { return None; }
    return Some(end);
  }

  // ---------------------------------------------------------------- what a successful scan promises

  /** The offsets of one tag are what they claim to be. */
  ghost predicate TagSound(h: Bytes, t: Tag) {
    && t.start < t.gt < |h| && t.end == t.gt + 1
    && h[t.start] == LT && h[t.gt] == GT
    && IsReported(t.name)
    && t.start + 1 + |t.name| <= t.gt && LowerAll(h[t.start + 1..t.start + 1 + |t.name|]) == t.name
    && (t.content.Some? ==>
          && t.name == SCRIPT && t.content.value.0 == t.end <= t.content.value.1
          && ClosesAt(h, t.content.value.1, SCRIPT)
          && forall k :: t.end <= k < t.content.value.1 ==> !ClosesAt(h, k, SCRIPT))
  }

  /** Where the tag, with its script text if it has any, is over. */
  function TagOver(t: Tag): nat { if t.content.Some? then t.content.value.1 else t.end }

  /** In order, from `i` on, none starting before the one before it is over. */
  ghost predicate InOrder(tags: seq<Tag>, i: nat) {
    tags == [] || (i <= tags[0].start && InOrder(tags[1..], TagOver(tags[0])))
  }

  lemma InOrderEarlier(tags: seq<Tag>, i: nat, j: nat)
    requires InOrder(tags, j) && i <= j
    ensures InOrder(tags, i)
  {
  }

  lemma LookSound(h: Bytes, i: nat)
    requires i < |h| && LookAt(h, i).Success? && LookAt(h, i).value.tag.Some?
    ensures var look := LookAt(h, i).value;
      TagSound(h, look.tag.value) && look.tag.value.start == i && TagOver(look.tag.value) == look.next
  {
    hide Attributes, Decode, LowerAll, Starts, FindClose, ClosesAt, IndexOf, IndexOfCommentEnd, IsAlpha;
    var end := NameEnd(h, i + 1).value;
    var list := Attributes(h, end, end).value;
    var name := LowerAll(h[i + 1..end]);
    assert i + 1 + |name| == end;
    FindCloseIsFirst(h, list.gt + 1, name);
  }

  /** For every byte string the scan ends, and on success its tags are in bounds, strictly ordered and
      disjoint, each script's text runs to its first matching close tag, and no later tag starts
      before that. */
  lemma {:induction false} TagsSound(h: Bytes, i: nat)
    requires Tags(h, i).Success?
    ensures forall t :: t in Tags(h, i).value ==> TagSound(h, t)
    ensures InOrder(Tags(h, i).value, i)
    decreases |h| - i
  {
    if i < |h| {
      var look := LookAt(h, i).value;
      TagsSound(h, look.next);
      if look.tag.Some? { LookSound(h, i); }
      hide LookAt, TagSound;
      var rest := Tags(h, look.next).value;
      var tags := Tags(h, i).value;
      if look.tag.Some? {
        assert tags == [look.tag.value] + rest && tags[1..] == rest;
      } else {
        assert tags == rest;
        InOrderEarlier(tags, i, look.next);
      }
    }
  }

  /** A script or link start tag begins at `p`. */
  predicate OpensAt(h: Bytes, p: nat) {
    p < |h| && h[p] == LT && NameEnd(h, p + 1).Some? && IsReported(LowerAll(h[p + 1..NameEnd(h, p + 1).value]))
  }

  /** Position `p` lies inside the comment, markup, start tag or raw text that begins at `q`. */
  predicate Inside(h: Bytes, q: nat, p: nat) {
    q < p < |h| && h[q] == LT && LookAt(h, q).Success? && p < LookAt(h, q).value.next
  }

  lemma OpeningIsReported(h: Bytes, p: nat)
    requires OpensAt(h, p) && LookAt(h, p).Success?
    ensures LookAt(h, p).value.tag.Some? && LookAt(h, p).value.tag.value.start == p
  {
    LookBranches(h, p);
    if p + 2 <= |h| { assert h[p..p + 2][1] == h[p + 1]; }
    if p + 4 <= |h| { assert h[p..p + 4][1] == h[p + 1]; }
    hide LookAt, Attributes, NameEnd, LowerAll, FindClose;
  }

  /** Looked at from `i` on, the scan stops at `q`: it reads there what begins there. */
  predicate StopsAt(h: Bytes, i: nat, q: nat)
    decreases |h| - i
  {
    i < |h| && (q == i || (i < q && LookAt(h, i).Success? && StopsAt(h, LookAt(h, i).value.next, q)))
  }

  lemma {:induction false} StartsFrom(h: Bytes, i: nat, t: Tag)
    requires Tags(h, i).Success? && t in Tags(h, i).value
    ensures t.start >= i
    decreases |h| - i
  {
    var look := LookAt(h, i).value;
    if look.tag == Some(t) {
      LookSound(h, i);
    } else {
      hide LookAt;
      StartsFrom(h, look.next, t);
    }
  }

  /** Nothing is missed: after a successful scan a script or link start tag is reported exactly if it
      does not lie inside something that begins at an earlier stop of the scan. */
  lemma {:induction false} NothingMissed(h: Bytes, i: nat, p: nat)
    requires Tags(h, i).Success? && i <= p && OpensAt(h, p)
    ensures (exists t :: t in Tags(h, i).value && t.start == p) <==> !exists q :: StopsAt(h, i, q) && Inside(h, q, p)
    decreases |h| - i
  {
    var look := LookAt(h, i).value;
    var all, rest := Tags(h, i).value, Tags(h, look.next).value;
    if look.tag.Some? { LookSound(h, i); }
    if i == p { OpeningIsReported(h, p); }
    hide OpensAt, TagSound, LookAt;
    assert forall t :: t in all <==> look.tag == Some(t) || t in rest;
    forall q: nat | StopsAt(h, i, q) ensures q >= i && (q == i || StopsAt(h, look.next, q)) {}
    forall t | t in rest ensures t.start >= look.next { StartsFrom(h, look.next, t); }
    if i == p {
      assert look.tag.value in all;
    } else if p < look.next {
      assert StopsAt(h, i, i) && Inside(h, i, p);
    } else {
      NothingMissed(h, look.next, p);
      forall q: nat | StopsAt(h, look.next, q) ensures q >= look.next && StopsAt(h, i, q) { StopsLater(h, look.next, q); }
      if q :| StopsAt(h, i, q) && Inside(h, q, p) { assert q != i; }
    }
  }

  lemma StopsLater(h: Bytes, i: nat, q: nat)
    requires StopsAt(h, i, q)
    ensures q >= i
  {
  }

  /** The start tag ends in `/>`, or has a slash among its attributes. */
  predicate SelfCloses(h: Bytes, t: Tag) {
    var end := t.start + 1 + |t.name|;
    end <= |h| && Attributes(h, end, end).Success? && Attributes(h, end, end).value.selfClosing
  }

  /** A located script has a text span exactly if its start tag does not close itself - with or without a
      `src` attribute. */
  lemma {:induction false} ScriptsHaveText(h: Bytes, i: nat, t: Tag)
    requires Tags(h, i).Success? && t in Tags(h, i).value && t.name == SCRIPT
    ensures t.content.Some? <==> !SelfCloses(h, t)
    decreases |h| - i
  {
    var look := LookAt(h, i).value;
    if look.tag == Some(t) {
      hide Attributes, LowerAll, FindClose, Starts;
      var end := NameEnd(h, i + 1).value;
      assert |LowerAll(h[i + 1..end])| == end - i - 1;
    } else {
      hide LookAt, SelfCloses;
      ScriptsHaveText(h, look.next, t);
    }
  }
}
