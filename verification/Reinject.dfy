/** Splicing attributes into located tags and locating them again: the two agree. */
module Reinjection {
  import opened Prelude
  import opened Html
  import opened Splicing
  import opened Rescan

  /** Which tags are to gain an integrity attribute, and with what value; decided on name and attributes. */
  type Plan = (Bytes, seq<Attr>) -> Option<Bytes>

  ghost predicate SafePlan(plan: Plan) {
    forall name, attrs :: plan(name, attrs).Some? ==> SafeValue(plan(name, attrs).value)
  }

  function Wanted(plan: Plan, t: Tag): Option<Bytes> { plan(t.name, t.attrs) }

  function Planned(plan: Plan, tags: seq<Tag>): seq<Insertion> {
    if tags == [] then []
    else
      (if Wanted(plan, tags[0]).Some? then [Insertion(tags[0].gt, AttrText(Wanted(plan, tags[0]).value))] else [])
      + Planned(plan, tags[1..])
  }

  /** The tag's attribute list ends in a bare `=`. */
  predicate BareTag(h: Bytes, t: Tag) {
    t.start + 1 + |t.name| <= |h| && BareEnd(h, t.start + 1 + |t.name|)
  }

  /** How many bytes the plan adds to a tag. */
  function Added(plan: Plan, t: Tag): nat {
    if Wanted(plan, t).Some? then |AttrText(Wanted(plan, t).value)| else 0
  }

  /** The tag as a second scan should see it, `d` bytes having gone in before it. */
  function Seen(h: Bytes, plan: Plan, t: Tag, d: nat): Tag {
    var e := d + Added(plan, t);
    Tag(t.name, t.start + d, t.end + e, t.gt + e,
        if Wanted(plan, t).Some? then WithIntegrity(t.attrs, Wanted(plan, t).value, BareTag(h, t)) else t.attrs,
        if t.content.Some? then Some((t.content.value.0 + e, t.content.value.1 + e)) else None)
  }

  function AllSeen(h: Bytes, plan: Plan, tags: seq<Tag>, d: nat): seq<Tag> {
    if tags == [] then [] else [Seen(h, plan, tags[0], d)] + AllSeen(h, plan, tags[1..], d + Added(plan, tags[0]))
  }

  // ---------------------------------------------------------------- where insertions fall

  /** Planned offsets ascend, and lie strictly behind where the scan stood. */
  lemma {:induction false} PlannedAscends(h: Bytes, plan: Plan, tags: seq<Tag>, i: nat)
    requires (forall t :: t in tags ==> TagSound(h, t)) && InOrder(tags, i) && i <= |h|
    ensures Ascending(Planned(plan, tags), i, |h|)
    ensures i < |h| ==> Ascending(Planned(plan, tags), i + 1, |h|)
  {
    if tags != [] {
      var t := tags[0];
      assert TagSound(h, t);
      OverWithin(h, t);
      PlannedAscends(h, plan, tags[1..], TagOver(t));
      var rest := Planned(plan, tags[1..]);
      hide TagSound;
      if Wanted(plan, t).Some? {
        var x := Insertion(t.gt, AttrText(Wanted(plan, t).value));
        assert ([x] + rest)[1..] == rest;
        AscendingFrom(rest, t.gt, TagOver(t), |h|);
      } else {
        assert [] + rest == rest;
        AscendingFrom(rest, i, TagOver(t), |h|);
        if i < |h| { AscendingFrom(rest, i + 1, TagOver(t), |h|); }
      }
    }
  }

  lemma OverWithin(h: Bytes, t: Tag)
    requires TagSound(h, t)
    ensures t.start < t.gt < TagOver(t) <= |h|
  {
  }

  lemma AscendingFrom(ins: seq<Insertion>, i: nat, j: nat, n: nat)
    requires Ascending(ins, j, n) && i <= j
    ensures Ascending(ins, i, n)
  {
  }

  /** `<!`, `<?` or `</`. */
  predicate Markup(h: Bytes, i: nat) {
    i + 1 < |h| && h[i] == LT && (h[i + 1] == BANG || h[i + 1] == QUERY || h[i + 1] == SLASH)
  }

  lemma StartsByByte(h: Bytes, i: nat)
    requires i < |h|
    ensures Starts(h, i, [LT, BANG]) || Starts(h, i, [LT, QUERY]) || Starts(h, i, [LT, SLASH]) <==> Markup(h, i)
    ensures Starts(h, i, [LT, BANG, DASH, DASH]) <==>
      i + 4 <= |h| && h[i] == LT && h[i + 1] == BANG && h[i + 2] == DASH && h[i + 3] == DASH
  {
    if i + 1 < |h| { assert h[i..i + 2] == [h[i], h[i + 1]]; }
    if i + 3 < |h| { assert h[i..i + 4] == [h[i], h[i + 1], h[i + 2], h[i + 3]]; }
  }

  /** The scanner's reading of a `<` that opens neither markup nor a comment. */
  lemma ElementLook(h: Bytes, i: nat)
    requires i < |h| && h[i] == LT && !Markup(h, i)
    ensures LookAt(h, i) == if NameEnd(h, i + 1).None? then Success(Look(i + 1, None)) else Element(h, i, NameEnd(h, i + 1).value)
  {
    StartsByByte(h, i);
  }

  /** How an element is read, in terms of its attribute list and its closing tag. */
  lemma ElementParts(h: Bytes, i: nat, end: nat)
    requires i < end <= |h| && Element(h, i, end).Success?
    ensures Attributes(h, end, end).Success?
    ensures var list := Attributes(h, end, end).value; var name := LowerAll(h[i + 1..end]); var look := Element(h, i, end).value;
      if IsRawText(name) && !list.selfClosing then
        && FindClose(h, list.gt + 1, name) == Some(look.next) && ClosesAt(h, look.next, name)
      else look.next == list.gt + 1
  {
  }

  /** How far the scanner's reading of position `i` looks. */
  ghost function Sight(h: Bytes, i: nat): nat
    requires i < |h| && LookAt(h, i).Success?
  {
    var next := LookAt(h, i).value.next;
    if h[i] != LT || Markup(h, i) then next
    else
      match NameEnd(h, i + 1)
      case None => if i + 1 < |h| then i + 2 else i + 1
      case Some(end) => if RawElement(h, i, end) then next + 3 + |h[i + 1..end]| else next
  }

  /** A script or style element with text to skip. */
  ghost predicate RawElement(h: Bytes, i: nat, end: nat)
    requires i < end <= |h|
  {
    IsRawText(LowerAll(h[i + 1..end])) && Attributes(h, end, end).Success? && !Attributes(h, end, end).value.selfClosing
  }

  /** A closing tag that the scanner gets past lies in front of its own `>`. */
  lemma ClosingTagSeen(h: Bytes, i: nat, name: Bytes)
    requires i < |h| && ClosesAt(h, i, name) && IsRawText(name) && LookAt(h, i).Success?
    ensures LookAt(h, i).value.tag.None? && i + 3 + |name| <= LookAt(h, i).value.next <= |h|
  {
    assert h[i..i + 2] == [LT, SLASH];
    var m := IndexOf(h, i, GT).value;
    forall k | i <= k < i + 2 + |name| ensures h[k] != GT {
      if k >= i + 2 {
        assert LowerAll(h[i + 2..i + 2 + |name|])[k - i - 2] == Lower(h[k]) == name[k - i - 2];
      }
    }
  }

  /** Sight reaches past the next position by a byte at most, or - for raw text - into the closing
      tag there, which the scan gets past. */
  lemma SightEnds(h: Bytes, i: nat)
    requires i < |h| && LookAt(h, i).Success? && Tags(h, LookAt(h, i).value.next).Success?
    ensures var next := LookAt(h, i).value.next;
      || Sight(h, i) <= next
      || (Sight(h, i) == next + 1 <= |h|)
      || (next < |h| && LookAt(h, next).Success? && LookAt(h, next).value.tag.None?
          && Sight(h, i) <= LookAt(h, next).value.next <= |h|)
  {
    var next := LookAt(h, i).value.next;
    if h[i] == LT && !Markup(h, i) {
      ElementLook(h, i);
      if NameEnd(h, i + 1).Some? && RawElement(h, i, NameEnd(h, i + 1).value) {
        var end := NameEnd(h, i + 1).value;
        hide Attributes, NameEnd, ClosesAt, LookAt, Element, FindClose;
        ElementParts(h, i, end);
        ClosingTagSeen(h, next, LowerAll(h[i + 1..end]));
      }
    }
  }

  /** No insertion falls within sight. */
  lemma PlannedBeyondSight(h: Bytes, plan: Plan, i: nat)
    requires i < |h| && LookAt(h, i).Success? && Tags(h, LookAt(h, i).value.next).Success?
    ensures var next := LookAt(h, i).value.next;
      && next <= |h| && Sight(h, i) <= |h|
      && Ascending(Planned(plan, Tags(h, next).value), next, |h|)
      && Ascending(Planned(plan, Tags(h, next).value), Sight(h, i), |h|)
  {
    hide LookAt, Sight, TagSound, Planned, Ascending;
    var next := LookAt(h, i).value.next;
    TagsSound(h, next);
    PlannedAscends(h, plan, Tags(h, next).value, next);
    SightEnds(h, i);
    if Sight(h, i) <= next {
      AscendingFrom(Planned(plan, Tags(h, next).value), Sight(h, i), next, |h|);
    } else if Sight(h, i) != next + 1 {
      var beyond := LookAt(h, next).value.next;
      assert Tags(h, next).value == [] + Tags(h, beyond).value == Tags(h, beyond).value;
      TagsSound(h, beyond);
      PlannedAscends(h, plan, Tags(h, beyond).value, beyond);
      AscendingFrom(Planned(plan, Tags(h, next).value), Sight(h, i), beyond, |h|);
    }
  }

  // ---------------------------------------------------------------- one position read again

  /** A tag moved as a whole. */
  function Shifted(t: Tag, d: nat): Tag {
    Tag(t.name, t.start + d, t.end + d, t.gt + d, t.attrs,
        if t.content.Some? then Some((t.content.value.0 + d, t.content.value.1 + d)) else None)
  }

  function ShiftedLook(look: Look, d: nat): Look {
    Look(look.next + d, if look.tag.Some? then Some(Shifted(look.tag.value, d)) else None)
  }

  lemma MarkupLookSame(h: Bytes, g: Bytes, d: nat, i: nat)
    requires i < |h| && Markup(h, i) && LookAt(h, i).Success? && Same(h, g, d, i, LookAt(h, i).value.next)
    ensures i + d < |g| && LookAt(g, i + d) == Success(ShiftedLook(LookAt(h, i).value, d))
  {
    StartsByByte(h, i);
    StartsByByte(g, i + d);
    var next := LookAt(h, i).value.next;
    assert next >= i + 3 && g[i + d] == h[i] && g[i + 1 + d] == h[i + 1] && g[i + 2 + d] == h[i + 2];
    if Starts(h, i, [LT, BANG, DASH, DASH]) {
      assert g[i + 3 + d] == h[i + 3];
      hide Starts;
      CommentSame(h, g, d, i + 4);
    } else {
      assert h[i + 2] == DASH ==> next > i + 3 && g[i + 3 + d] == h[i + 3];
      hide Starts;
      IndexSame(h, g, d, i, GT);
    }
  }

  /** The name of an element reads the same, given the byte that ends it. */
  lemma NameSame(h: Bytes, g: Bytes, d: nat, i: nat, end: nat)
    requires i < |h| && NameEnd(h, i + 1) == Some(end) && Same(h, g, d, i, end)
    requires end + d < |g| && !In(NameByte, g[end + d])
    ensures NameEnd(g, i + 1 + d) == Some(end + d)
    ensures g[i + d] == h[i] && g[i + 1 + d..end + d] == h[i + 1..end]
    ensures !Markup(h, i) && !Markup(g, i + d)
  {
    hide In;
    SameAt(h, g, d, i, end, i);
    SameAt(h, g, d, i, end, i + 1);
    SamePart(h, g, d, i, end, i + 1, end);
    SkipSame(h, g, d, i + 1, NameByte);
    SliceSame(h, g, d, i + 1, end);
  }

  /** A bare `<` in text. */
  lemma BareLookSame(h: Bytes, g: Bytes, d: nat, i: nat)
    requires i < |h| && h[i] == LT && !Markup(h, i) && NameEnd(h, i + 1).None?
    requires if i + 1 < |h| then Same(h, g, d, i, i + 2) else |g| == i + 1 + d && g[i + d] == LT
    ensures i + d < |g| && LookAt(g, i + d) == Success(Look(i + 1 + d, None))
  {
    if i + 1 < |h| {
      assert g[i + d] == h[i] && g[i + 1 + d] == h[i + 1];
      NoNameByByte(h, i + 1);
      NoNameByByte(g, i + 1 + d);
    }
    hide NameEnd, LookAt;
    ElementLook(g, i + d);
  }

  /** Whether a name starts here is a matter of one byte. */
  lemma NoNameByByte(h: Bytes, at: nat)
    requires at < |h|
    ensures NameEnd(h, at).None? <==> !IsAlpha(h[at])
  {
    if IsAlpha(h[at]) { assert In(NameByte, h[at]); }
  }

  /** An element whose attribute list and closing tag are found displaced by `e`, its start by `d`. */
  lemma ElementMoves(h: Bytes, g: Bytes, d: nat, e: nat, i: nat, end: nat, attrs: seq<Attr>)
    requires i < end <= |h| && end + d <= |g| && Element(h, i, end).Success? && d <= e
    requires g[i + 1 + d..end + d] == h[i + 1..end] && Attributes(h, end, end).Success?
    requires var list := Attributes(h, end, end).value;
      Attributes(g, end + d, end + d) == Success(AttrList(attrs, list.gt + e, list.selfClosing))
    requires RawElement(h, i, end) ==>
      FindClose(g, Attributes(h, end, end).value.gt + e + 1, LowerAll(h[i + 1..end])) == Some(Element(h, i, end).value.next + e)
    ensures
      var look := Element(h, i, end).value;
      Element(g, i + d, end + d) == Success(Look(look.next + e,
        if look.tag.None? then None
        else
          var t := look.tag.value;
          Some(Tag(t.name, t.start + d, t.end + e, t.gt + e, attrs,
                   if t.content.Some? then Some((t.content.value.0 + e, t.content.value.1 + e)) else None))))
  {
    hide Attributes, LowerAll, FindClose;
    assert g[i + d + 1..end + d] == h[i + 1..end];
    var list := Attributes(h, end, end).value;
    assert list.gt + 1 + e == list.gt + e + 1;
  }

  /** An element no text went into. */
  lemma ElementLookSame(h: Bytes, g: Bytes, d: nat, i: nat, end: nat)
    requires i < |h| && h[i] == LT && !Markup(h, i) && NameEnd(h, i + 1) == Some(end)
    requires LookAt(h, i).Success? && Same(h, g, d, i, Sight(h, i))
    ensures i + d < |g| && LookAt(g, i + d) == Success(ShiftedLook(LookAt(h, i).value, d))
  {
    hide *;
    ElementLook(h, i);
    ElementParts(h, i, end);
    ElementTag(h, i, end);
    SightOfElement(h, i, end);
    var list := Attributes(h, end, end).value;
    var name := LowerAll(h[i + 1..end]);
    var sight := Sight(h, i);
    SameAt(h, g, d, i, sight, i);
    SameAt(h, g, d, i, sight, end);
    SamePart(h, g, d, i, sight, i, end);
    NameStops(h, i + 1);
    NameSame(h, g, d, i, end);
    SamePart(h, g, d, i, sight, end, list.gt + 1);
    AttributesSame(h, g, d, end, end, end + d);
    MovedListIs(list, d);
    if RawElement(h, i, end) {
      SamePart(h, g, d, i, sight, list.gt + 1, sight);
      FindCloseSame(h, g, d, list.gt + 1, name);
    }
    ElementMoves(h, g, d, d, i, end, list.attrs);
    ElementLook(g, i + d);
    ShiftIs(LookAt(h, i).value, d);
  }

  lemma MovedListIs(list: AttrList, d: nat)
    ensures MovedList(list, d) == AttrList(list.attrs, list.gt + d, list.selfClosing)
  {
  }

  lemma ShiftIs(look: Look, d: nat)
    ensures ShiftedLook(look, d) == Look(look.next + d,
      if look.tag.None? then None
      else
        var t := look.tag.value;
        Some(Tag(t.name, t.start + d, t.end + d, t.gt + d, t.attrs,
                 if t.content.Some? then Some((t.content.value.0 + d, t.content.value.1 + d)) else None)))
  {
  }

  /** Sight takes in the closing `>`, and for raw text the closing tag and a byte more. */
  lemma SightOfElement(h: Bytes, i: nat, end: nat)
    requires i < |h| && h[i] == LT && !Markup(h, i) && NameEnd(h, i + 1) == Some(end) && LookAt(h, i).Success?
    ensures i < end <= |h| && Element(h, i, end).Success? && Attributes(h, end, end).Success?
    ensures var list := Attributes(h, end, end).value; var name := LowerAll(h[i + 1..end]);
      && end <= list.gt < Sight(h, i)
      && (RawElement(h, i, end) ==>
            && FindClose(h, list.gt + 1, name) == Some(LookAt(h, i).value.next)
            && Sight(h, i) == LookAt(h, i).value.next + 3 + |name|)
  {
    ElementLook(h, i);
    hide LookAt, Attributes, Element, FindClose, NameEnd, ClosesAt;
    ElementParts(h, i, end);
  }

  lemma NameStops(h: Bytes, at: nat)
    requires at <= |h| && NameEnd(h, at).Some? && NameEnd(h, at).value < |h|
    ensures !In(NameByte, h[NameEnd(h, at).value])
  {
  }

  lemma ElementTag(h: Bytes, i: nat, end: nat)
    requires i < end <= |h| && Element(h, i, end).Success? && Attributes(h, end, end).Success?
    ensures var look := Element(h, i, end).value;
      look.tag.Some? ==>
        var t := look.tag.value;
        && t.attrs == Attributes(h, end, end).value.attrs && t.gt == Attributes(h, end, end).value.gt
        && t.start == i && t.name == LowerAll(h[i + 1..end]) && |t.name| == end - i - 1 && t.end == t.gt + 1
  {
  }

  /** An element with the attribute spliced in at its `>`. */
  lemma ElementLookInsert(h: Bytes, g: Bytes, d: nat, i: nat, end: nat, plan: Plan)
    requires i < |h| && h[i] == LT && !Markup(h, i) && NameEnd(h, i + 1) == Some(end)
    requires LookAt(h, i).Success? && LookAt(h, i).value.tag.Some?
    requires var t := LookAt(h, i).value.tag.value;
      && Wanted(plan, t).Some? && SafeValue(Wanted(plan, t).value)
      && i < t.gt && Same(h, g, d, i, t.gt) && InsertedAt(g, t.gt + d, Wanted(plan, t).value)
      && Same(h, g, d + Added(plan, t), t.gt, Sight(h, i))
    ensures var look := LookAt(h, i).value;
      && i + d < |g|
      && LookAt(g, i + d) == Success(Look(look.next + d + Added(plan, look.tag.value), Some(Seen(h, plan, look.tag.value, d))))
  {
    hide *;
    ElementLook(h, i);
    SightOfElement(h, i, end);
    ElementTag(h, i, end);
    var t := LookAt(h, i).value.tag.value;
    AddedIs(plan, t);
    var v, n, sight := Wanted(plan, t).value, Added(plan, t), Sight(h, i);
    var list := Attributes(h, end, end).value;
    BlankThenLetter(g, t.gt + d, v);
    NameBeforeGt(h, g, d, i, end, t.gt);
    SamePart(h, g, d, i, t.gt, end, t.gt);
    AttributesInsert(h, g, d, end, v, end, end + d);
    SplicedIs(list, d, v, BareEnd(h, end));
    if RawElement(h, i, end) {
      SamePart(h, g, d + n, t.gt, sight, t.gt + 1, sight);
      FindCloseSame(h, g, d + n, t.gt + 1, t.name);
    }
    ElementMoves(h, g, d, d + n, i, end, WithIntegrity(list.attrs, v, BareEnd(h, end)));
    ElementLook(g, i + d);
    SeenIs(h, plan, t, d, end);
  }

  lemma AddedIs(plan: Plan, t: Tag)
    requires Wanted(plan, t).Some?
    ensures Added(plan, t) == |AttrText(Wanted(plan, t).value)|
  {
  }

  lemma SplicedIs(list: AttrList, d: nat, v: Bytes, bare: bool)
    ensures Spliced(list, d, v, bare) == AttrList(WithIntegrity(list.attrs, v, bare), list.gt + d + |AttrText(v)|, list.selfClosing)
  {
  }

  lemma SeenIs(h: Bytes, plan: Plan, t: Tag, d: nat, end: nat)
    requires t.start + 1 + |t.name| == end <= |h| && Wanted(plan, t).Some?
    ensures var e := d + Added(plan, t);
      Seen(h, plan, t, d) == Tag(t.name, t.start + d, t.end + e, t.gt + e,
        WithIntegrity(t.attrs, Wanted(plan, t).value, BareEnd(h, end)),
        if t.content.Some? then Some((t.content.value.0 + e, t.content.value.1 + e)) else None)
  {
  }

  lemma NameBeforeGt(h: Bytes, g: Bytes, d: nat, i: nat, end: nat, gt: nat)
    requires i < end <= gt < |h| && NameEnd(h, i + 1) == Some(end) && Same(h, g, d, i, gt)
    requires gt + d < |g| && g[gt + d] == SPACE
    ensures NameEnd(g, i + 1 + d) == Some(end + d)
    ensures g[i + d] == h[i] && g[i + 1 + d..end + d] == h[i + 1..end]
    ensures !Markup(g, i + d)
  {
    assert !In(NameByte, SPACE);
    hide In, Same, NameEnd;
    NameStops(h, i + 1);
    if end < gt { SameAt(h, g, d, i, gt, end); }
    SamePart(h, g, d, i, gt, i, end);
    NameSame(h, g, d, i, end);
  }

  // ---------------------------------------------------------------- the spliced document from a point on

  /** From `i + d` on, `g` is the document from `i` on with these texts put in. */
  ghost predicate Reads(h: Bytes, g: Bytes, d: nat, i: nat, ins: seq<Insertion>) {
    i + d <= |g| && Ascending(ins, i, |h|) && g[i + d..] == Woven(h, ins, i)
  }

  lemma ReadsOn(h: Bytes, g: Bytes, d: nat, i: nat, ins: seq<Insertion>, j: nat)
    requires Reads(h, g, d, i, ins) && i <= j && Ascending(ins, j, |h|)
    ensures Same(h, g, d, i, j) && Reads(h, g, d, j, ins)
  {
    WovenFrom(h, ins, i, j);
    var tail := g[i + d..];
    assert tail == h[i..j] + Woven(h, ins, j);
    hide Woven;
    assert g[j + d..] == tail[j - i..] == Woven(h, ins, j);
    forall k | i <= k < j ensures g[k + d] == h[k] {
      assert g[k + d] == tail[k - i] == h[i..j][k - i];
    }
  }

  lemma ReadsInserted(h: Bytes, g: Bytes, d: nat, i: nat, x: Insertion, ins: seq<Insertion>)
    requires Reads(h, g, d, i, [x] + ins)
    ensures i <= x.at && Same(h, g, d, i, x.at)
    ensures x.at + d + |x.text| <= |g| && g[x.at + d..x.at + d + |x.text|] == x.text
    ensures Reads(h, g, d + |x.text|, x.at, ins)
  {
    var all := [x] + ins;
    assert all[1..] == ins;
    AscendingWithin(all, i, |h|);
    var tail, rest := g[i + d..], Woven(h, ins, x.at);
    assert tail == h[i..x.at] + x.text + rest;
    hide Woven;
    var m := x.at - i;
    assert tail[m..m + |x.text|] == x.text && tail[m + |x.text|..] == rest;
    assert g[x.at + d..x.at + d + |x.text|] == tail[m..m + |x.text|];
    assert g[x.at + (d + |x.text|)..] == tail[m + |x.text|..];
    forall k | i <= k < x.at ensures g[k + d] == h[k] {
      assert g[k + d] == tail[k - i] == h[i..x.at][k - i];
    }
  }

  // ---------------------------------------------------------------- the whole document read again

  /** How many bytes go in where position `i` is read. */
  function AddedHere(plan: Plan, look: Look): nat {
    if look.tag.Some? then Added(plan, look.tag.value) else 0
  }

  function SeenLook(h: Bytes, plan: Plan, look: Look, d: nat): Look {
    Look(look.next + d + AddedHere(plan, look), if look.tag.Some? then Some(Seen(h, plan, look.tag.value, d)) else None)
  }

  /** A position no text goes in at. */
  lemma UntouchedLook(h: Bytes, g: Bytes, d: nat, i: nat)
    requires i < |h| && LookAt(h, i).Success? && Sight(h, i) <= |h| && Same(h, g, d, i, Sight(h, i))
    requires i + 1 == |h| ==> |g| == |h| + d
    ensures i + d < |g| && LookAt(g, i + d) == Success(ShiftedLook(LookAt(h, i).value, d))
  {
    SightCovers(h, i);
    SameAt(h, g, d, i, Sight(h, i), i);
    if h[i] == LT {
      if Markup(h, i) {
        hide LookAt, Same;
        MarkupLookSame(h, g, d, i);
      } else {
        ElementLook(h, i);
        if NameEnd(h, i + 1).None? {
          BareLookSame(h, g, d, i);
        } else {
          hide LookAt, Same;
          ElementLookSame(h, g, d, i, NameEnd(h, i + 1).value);
        }
      }
    }
  }

  lemma SightCovers(h: Bytes, i: nat)
    requires i < |h| && LookAt(h, i).Success?
    ensures i < Sight(h, i)
    ensures Markup(h, i) ==> Sight(h, i) == LookAt(h, i).value.next
  {
  }

  lemma UnwantedIsShifted(h: Bytes, plan: Plan, look: Look, d: nat)
    requires look.tag.Some? ==> Wanted(plan, look.tag.value).None?
    ensures SeenLook(h, plan, look, d) == ShiftedLook(look, d) && AddedHere(plan, look) == 0
  {
  }

  lemma WantedIsElement(h: Bytes, i: nat)
    requires i < |h| && LookAt(h, i).Success? && LookAt(h, i).value.tag.Some?
    ensures h[i] == LT && !Markup(h, i) && NameEnd(h, i + 1).Some? && LookAt(h, i).value.tag.value.start == i
    ensures var t := LookAt(h, i).value.tag.value; i < t.gt < Sight(h, i) && t.gt < |h| && h[t.gt] == GT
    ensures LookAt(h, i).value.tag.value.gt <= LookAt(h, i).value.next
  {
    StartsByByte(h, i);
    LookSound(h, i);
    ElementLook(h, i);
    hide LookAt, Element, Attributes, TagSound;
    SightOfElement(h, i, NameEnd(h, i + 1).value);
    ElementTag(h, i, NameEnd(h, i + 1).value);
    ElementParts(h, i, NameEnd(h, i + 1).value);
  }

  /** One step of the second scan, against one step of the first. */
  lemma StepSeen(h: Bytes, g: Bytes, d: nat, i: nat, plan: Plan)
    requires i < |h| && LookAt(h, i).Success? && Tags(h, LookAt(h, i).value.next).Success? && SafePlan(plan)
    requires Reads(h, g, d, i, Planned(plan, Tags(h, i).value))
    ensures var look := LookAt(h, i).value;
      && i + d < |g| && look.next <= |h|
      && LookAt(g, i + d) == Success(SeenLook(h, plan, look, d))
      && Reads(h, g, d + AddedHere(plan, look), look.next, Planned(plan, Tags(h, look.next).value))
      && (look.tag.Some? ==> Same(h, g, d + AddedHere(plan, look), look.tag.value.gt, look.next))
  {
    hide *;
    var look := LookAt(h, i).value;
    var sight, next := Sight(h, i), look.next;
    var rest := Planned(plan, Tags(h, next).value);
    PlannedBeyondSight(h, plan, i);
    PlannedHere(h, plan, i);
    SightCovers(h, i);
    if look.tag.Some? && Wanted(plan, look.tag.value).Some? {
      var t := look.tag.value;
      var v := Wanted(plan, t).value;
      WantedIsElement(h, i);
      WantedIsSafe(plan, t);
      AddedIs(plan, t);
      AddedHereIs(plan, look);
      ReadsInserted(h, g, d, i, Insertion(t.gt, AttrText(v)), rest);
      ReadsOn(h, g, d + Added(plan, t), t.gt, rest, sight);
      SameAt(h, g, d + Added(plan, t), t.gt, sight, t.gt);
      InsertionStands(g, t.gt + d, v);
      ElementLookInsert(h, g, d, i, NameEnd(h, i + 1).value, plan);
      SeenLookIs(h, plan, look, d);
      ReadsOn(h, g, d + Added(plan, t), t.gt, rest, next);
    } else {
      UnwantedIsShifted(h, plan, look, d);
      ReadsOn(h, g, d, i, rest, sight);
      ReadsOn(h, g, d, i, rest, next);
      if i + 1 == |h| { EndsTogether(h, g, d, plan, next); }
      UntouchedLook(h, g, d, i);
      if look.tag.Some? {
        WantedIsElement(h, i);
        SamePart(h, g, d, i, next, look.tag.value.gt, next);
      }
    }
  }

  lemma PlannedHere(h: Bytes, plan: Plan, i: nat)
    requires i < |h| && LookAt(h, i).Success? && Tags(h, LookAt(h, i).value.next).Success?
    ensures Tags(h, i).Success?
    ensures var look := LookAt(h, i).value; var rest := Planned(plan, Tags(h, look.next).value);
      Planned(plan, Tags(h, i).value) ==
        if look.tag.Some? && Wanted(plan, look.tag.value).Some?
        then [Insertion(look.tag.value.gt, AttrText(Wanted(plan, look.tag.value).value))] + rest
        else rest
  {
    hide LookAt, AttrText;
    var look := LookAt(h, i).value;
    var rest := Tags(h, look.next).value;
    if look.tag.Some? {
      assert ([look.tag.value] + rest)[1..] == rest;
      assert [] + Planned(plan, rest) == Planned(plan, rest);
    } else {
      assert [] + rest == rest;
    }
  }

  lemma WantedIsSafe(plan: Plan, t: Tag)
    requires SafePlan(plan) && Wanted(plan, t).Some?
    ensures SafeValue(Wanted(plan, t).value)
  {
  }

  lemma AddedHereIs(plan: Plan, look: Look)
    requires look.tag.Some?
    ensures AddedHere(plan, look) == Added(plan, look.tag.value)
  {
  }

  lemma SeenLookIs(h: Bytes, plan: Plan, look: Look, d: nat)
    requires look.tag.Some?
    ensures SeenLook(h, plan, look, d) == Look(look.next + d + Added(plan, look.tag.value), Some(Seen(h, plan, look.tag.value, d)))
  {
  }

  lemma InsertionStands(g: Bytes, p: nat, v: Bytes)
    requires p + |AttrText(v)| < |g| && g[p..p + |AttrText(v)|] == AttrText(v) && g[p + |AttrText(v)|] == GT
    ensures InsertedAt(g, p, v)
  {
  }

  /** When the original is over, so is the spliced document. */
  lemma EndsTogether(h: Bytes, g: Bytes, d: nat, plan: Plan, next: nat)
    requires next == |h| && Tags(h, next).Success? && Reads(h, g, d, next, Planned(plan, Tags(h, next).value))
    ensures |g| == |h| + d
  {
    assert h[next..] == [];
    assert |g[next + d..]| == 0;
  }

  /** The second scan sees the first scan's tags, in order, each where the insertions put it, each
      with its attributes and the one added - or, where the list ended in a bare `=`, with the last
      value overwritten. */
  lemma {:induction false} ScanAgain(h: Bytes, g: Bytes, d: nat, i: nat, plan: Plan)
    requires i <= |h| && Tags(h, i).Success? && SafePlan(plan)
    requires Reads(h, g, d, i, Planned(plan, Tags(h, i).value))
    ensures i + d <= |g|
    ensures Tags(g, i + d) == Success(AllSeen(h, plan, Tags(h, i).value, d))
    decreases |h| - i
  {
    hide *;
    TagsOf(h, i);
    if i == |h| {
      EndsTogether(h, g, d, plan, i);
      TagsOf(g, i + d);
      AllSeenCons(h, plan, Look(i, None), [], d);
    } else {
      StepSeen(h, g, d, i, plan);
      var look := LookAt(h, i).value;
      ScanAgain(h, g, d + AddedHere(plan, look), look.next, plan);
      AllSeenCons(h, plan, look, Tags(h, look.next).value, d);
      SeenLookParts(h, plan, look, d);
      TagsOf(g, i + d);
    }
  }

  /** The tags from a position on: what is seen there, then what comes after. */
  lemma TagsOf(h: Bytes, i: nat)
    requires i <= |h|
    ensures i == |h| ==> Tags(h, i) == Success([])
    ensures i < |h| && Tags(h, i).Success? ==> LookAt(h, i).Success? && Tags(h, LookAt(h, i).value.next).Success?
    ensures i < |h| && LookAt(h, i).Success? && Tags(h, LookAt(h, i).value.next).Success? ==>
      Tags(h, i) == Success(OneTag(LookAt(h, i).value) + Tags(h, LookAt(h, i).value.next).value)
  {
    hide LookAt;
    if i < |h| && LookAt(h, i).Success? && Tags(h, LookAt(h, i).value.next).Success? {
      var rest := Tags(h, LookAt(h, i).value.next).value;
      assert [] + rest == rest;
    }
  }

  function OneTag(look: Look): seq<Tag> { if look.tag.Some? then [look.tag.value] else [] }

  lemma AllSeenCons(h: Bytes, plan: Plan, look: Look, rest: seq<Tag>, d: nat)
    ensures AllSeen(h, plan, OneTag(look) + rest, d) ==
      OneTag(SeenLook(h, plan, look, d)) + AllSeen(h, plan, rest, d + AddedHere(plan, look))
    ensures rest == [] && look.tag.None? ==> AllSeen(h, plan, rest, d) == []
  {
    hide Seen, Added;
    if look.tag.Some? {
      assert ([look.tag.value] + rest)[1..] == rest;
    } else {
      assert [] + rest == rest;
      var seen := AllSeen(h, plan, rest, d);
      assert [] + seen == seen;
    }
  }

  lemma SeenLookParts(h: Bytes, plan: Plan, look: Look, d: nat)
    ensures SeenLook(h, plan, look, d).next == look.next + (d + AddedHere(plan, look))
    ensures look.tag.Some? <==> SeenLook(h, plan, look, d).tag.Some?
    ensures look.tag.Some? ==> SeenLook(h, plan, look, d).tag.value == Seen(h, plan, look.tag.value, d)
  {
  }

  /** Both tags have script text, byte for byte the same, or neither has. */
  ghost predicate SameText(h: Bytes, g: Bytes, t: Tag, u: Tag) {
    if t.content.None? then u.content.None?
    else
      && u.content.Some?
      && t.content.value.0 <= t.content.value.1 <= |h| && u.content.value.0 <= u.content.value.1 <= |g|
      && g[u.content.value.0..u.content.value.1] == h[t.content.value.0..t.content.value.1]
  }

  ghost predicate AllSameText(h: Bytes, g: Bytes, tags: seq<Tag>, seen: seq<Tag>) {
    |tags| == |seen| && (tags != [] ==> SameText(h, g, tags[0], seen[0]) && AllSameText(h, g, tags[1..], seen[1..]))
  }

  /** The second scan finds every inline script's text unchanged. */
  lemma {:induction false} TextAgain(h: Bytes, g: Bytes, d: nat, i: nat, plan: Plan)
    requires i <= |h| && Tags(h, i).Success? && SafePlan(plan)
    requires Reads(h, g, d, i, Planned(plan, Tags(h, i).value))
    ensures AllSameText(h, g, Tags(h, i).value, AllSeen(h, plan, Tags(h, i).value, d))
    decreases |h| - i
  {
    hide *;
    TagsOf(h, i);
    if i == |h| {
      AllSeenCons(h, plan, Look(i, None), [], d);
      SameTextCons(h, g, Look(i, None), [], Look(i, None), []);
    } else {
      StepSeen(h, g, d, i, plan);
      var look := LookAt(h, i).value;
      var d' := d + AddedHere(plan, look);
      TextAgain(h, g, d', look.next, plan);
      var rest := Tags(h, look.next).value;
      AllSeenCons(h, plan, look, rest, d);
      if look.tag.Some? { StepText(h, g, d, i, plan); }
      SeenLookParts(h, plan, look, d);
      SameTextCons(h, g, look, rest, SeenLook(h, plan, look, d), AllSeen(h, plan, rest, d'));
    }
  }

  lemma StepText(h: Bytes, g: Bytes, d: nat, i: nat, plan: Plan)
    requires i < |h| && LookAt(h, i).Success? && LookAt(h, i).value.tag.Some?
    requires var look := LookAt(h, i).value; Same(h, g, d + AddedHere(plan, look), look.tag.value.gt, look.next)
    ensures SameText(h, g, LookAt(h, i).value.tag.value, Seen(h, plan, LookAt(h, i).value.tag.value, d))
  {
    hide *;
    LookSound(h, i);
    var t := LookAt(h, i).value.tag.value;
    if t.content.Some? { ContentBounds(h, t); }
    SeenContent(h, plan, t, d);
    AddedHereIs(plan, LookAt(h, i).value);
    if t.content.Some? {
      SamePart(h, g, d + Added(plan, t), t.gt, LookAt(h, i).value.next, t.content.value.0, t.content.value.1);
      SliceSame(h, g, d + Added(plan, t), t.content.value.0, t.content.value.1);
    }
    SameTextIs(h, g, t, Seen(h, plan, t, d));
  }

  lemma ContentBounds(h: Bytes, t: Tag)
    requires TagSound(h, t) && t.content.Some?
    ensures t.gt < t.content.value.0 <= t.content.value.1 == TagOver(t) <= |h|
  {
  }

  lemma SeenContent(h: Bytes, plan: Plan, t: Tag, d: nat)
    ensures Seen(h, plan, t, d).content ==
      if t.content.Some? then Some((t.content.value.0 + (d + Added(plan, t)), t.content.value.1 + (d + Added(plan, t)))) else None
  {
  }

  lemma SameTextIs(h: Bytes, g: Bytes, t: Tag, u: Tag)
    ensures SameText(h, g, t, u) <==>
      if t.content.None? then u.content.None?
      else
        && u.content.Some?
        && t.content.value.0 <= t.content.value.1 <= |h| && u.content.value.0 <= u.content.value.1 <= |g|
        && g[u.content.value.0..u.content.value.1] == h[t.content.value.0..t.content.value.1]
  {
  }

  lemma SameTextCons(h: Bytes, g: Bytes, look: Look, rest: seq<Tag>, look': Look, rest': seq<Tag>)
    requires AllSameText(h, g, rest, rest') || (rest == [] && rest' == [])
    requires look.tag.Some? <==> look'.tag.Some?
    requires look.tag.Some? ==> SameText(h, g, look.tag.value, look'.tag.value)
    ensures AllSameText(h, g, OneTag(look) + rest, OneTag(look') + rest')
    ensures look.tag.None? && rest == [] && rest' == [] ==> AllSameText(h, g, rest, rest')
  {
    hide SameText;
    if look.tag.Some? {
      assert ([look.tag.value] + rest)[1..] == rest && ([look'.tag.value] + rest')[1..] == rest';
    } else {
      assert [] + rest == rest && [] + rest' == rest';
    }
  }

  // ---------------------------------------------------------------- injection

  /** The document with the planned attributes in it. */
  function Injected(h: Bytes, plan: Plan): Result<Bytes, HtmlError> {
    match Tags(h, 0)
    case Failure(e) => Failure(e)
    case Success(tags) =>
      TagsSound(h, 0);
      PlannedAscends(h, plan, tags, 0);
      Success(Woven(h, Planned(plan, tags), 0))
  }

  /** Injection succeeds whenever the scan does, and scanning its output succeeds with the expected tags. */
  lemma InjectedScans(h: Bytes, plan: Plan)
    requires Tags(h, 0).Success? && SafePlan(plan)
    ensures Injected(h, plan).Success?
    ensures Tags(Injected(h, plan).value, 0) == Success(AllSeen(h, plan, Tags(h, 0).value, 0))
  {
    TagsSound(h, 0);
    PlannedAscends(h, plan, Tags(h, 0).value, 0);
    hide Woven, AllSeen, SafePlan;
    var g := Injected(h, plan).value;
    assert g[0..] == g;
    ScanAgain(h, g, 0, 0, plan);
  }

  /** A plan leaves alone what already carries the attribute. */
  ghost predicate RespectsIntegrity(plan: Plan) {
    forall name, attrs :: AttrOf(attrs, INTEGRITY).Some? ==> plan(name, attrs).None?
  }

  /** A tag the plan wants and whose list ends in a bare `=`. */
  ghost predicate BareWanted(h: Bytes, plan: Plan) {
    Tags(h, 0).Success? && exists t :: t in Tags(h, 0).value && Wanted(plan, t).Some? && BareTag(h, t)
  }

  lemma {:induction false} AttrOfAppended(attrs: seq<Attr>, v: Bytes)
    requires AttrOf(attrs, INTEGRITY).None?
    ensures AttrOf(attrs + [Attr(INTEGRITY, v)], INTEGRITY) == Some(v)
  {
    if attrs != [] {
      assert attrs[0] in attrs;
      assert (attrs + [Attr(INTEGRITY, v)])[1..] == attrs[1..] + [Attr(INTEGRITY, v)];
      assert forall a :: a in attrs[1..] ==> a in attrs;
      AttrOfAppended(attrs[1..], v);
    }
  }

  lemma AllSeenStep(h: Bytes, plan: Plan, tags: seq<Tag>, d: nat)
    requires tags != []
    ensures AllSeen(h, plan, tags, d) == [Seen(h, plan, tags[0], d)] + AllSeen(h, plan, tags[1..], d + Added(plan, tags[0]))
    ensures AllSeen(h, plan, tags, d)[1..] == AllSeen(h, plan, tags[1..], d + Added(plan, tags[0]))
  {
    hide Seen, Added;
  }

  /** A wanted tag that ended bare and that the plan wants again, its last value overwritten. */
  ghost predicate WantedAgain(h: Bytes, plan: Plan, t: Tag) {
    Wanted(plan, t).Some? && BareTag(h, t) && plan(t.name, WithIntegrity(t.attrs, Wanted(plan, t).value, true)).Some?
  }

  /** Only such a tag has anything more to gain when it is seen again. */
  lemma SeenAgain(h: Bytes, plan: Plan, t: Tag, d: nat)
    requires RespectsIntegrity(plan)
    ensures Wanted(plan, Seen(h, plan, t, d)).Some? <==> WantedAgain(h, plan, t)
  {
    hide BareTag, AttrText, AttrOf;
    if Wanted(plan, t).Some? && !BareTag(h, t) {
      WantedHadNone(plan, t);
      AttrOfAppended(t.attrs, Wanted(plan, t).value);
    }
  }

  lemma PlannedCons(plan: Plan, t: Tag, rest: seq<Tag>)
    ensures Wanted(plan, t).None? ==> Planned(plan, [t] + rest) == Planned(plan, rest)
    ensures Wanted(plan, t).Some? ==> |Planned(plan, [t] + rest)| > 0
  {
    assert ([t] + rest)[1..] == rest && [] + Planned(plan, rest) == Planned(plan, rest);
  }

  /** The tags of the output have nothing left to plan, exactly if none is wanted again. */
  lemma {:induction false} NothingLeft(h: Bytes, plan: Plan, tags: seq<Tag>, d: nat)
    requires RespectsIntegrity(plan)
    ensures Planned(plan, AllSeen(h, plan, tags, d)) == [] <==> forall t :: t in tags ==> !WantedAgain(h, plan, t)
  {
    hide *;
    if tags == [] {
      NothingPlanned(h, plan, d);
    } else {
      var t, rest := tags[0], tags[1..];
      assert tags == [t] + rest;
      NothingLeft(h, plan, rest, d + Added(plan, t));
      AllSeenStep(h, plan, tags, d);
      SeenAgain(h, plan, t, d);
      PlannedCons(plan, Seen(h, plan, t, d), AllSeen(h, plan, rest, d + Added(plan, t)));
    }
  }

  lemma NothingPlanned(h: Bytes, plan: Plan, d: nat)
    ensures Planned(plan, AllSeen(h, plan, [], d)) == []
  {
  }

  /** Whatever goes in makes the document longer. */
  lemma {:induction false} PlannedHasText(plan: Plan, tags: seq<Tag>)
    ensures Planned(plan, tags) != [] ==> TotalText(Planned(plan, tags)) > 0
  {
    if tags != [] {
      PlannedHasText(plan, tags[1..]);
      assert [] + Planned(plan, tags[1..]) == Planned(plan, tags[1..]);
    }
  }

  /** Injecting twice is injecting once - a second pass changes no byte - if and only if no tag that
      is wanted and ends in a bare `=` is wanted again once the attribute has been swallowed. */
  lemma InjectTwice(h: Bytes, plan: Plan)
    requires Tags(h, 0).Success? && SafePlan(plan) && RespectsIntegrity(plan)
    ensures Injected(h, plan).Success?
    ensures Injected(Injected(h, plan).value, plan) == Injected(h, plan)
      <==> forall t :: t in Tags(h, 0).value ==> !WantedAgain(h, plan, t)
  {
    InjectedScans(h, plan);
    NothingLeft(h, plan, Tags(h, 0).value, 0);
    hide WantedAgain, RespectsIntegrity, SafePlan;
    var g := Injected(h, plan).value;
    InjectedGrows(g, plan);
  }

  /** A pass changes a document exactly if it plans anything for it. */
  lemma InjectedGrows(g: Bytes, plan: Plan)
    requires Tags(g, 0).Success?
    ensures Injected(g, plan) == Success(g) <==> Planned(plan, Tags(g, 0).value) == []
  {
    var ins := Planned(plan, Tags(g, 0).value);
    TagsSound(g, 0);
    PlannedAscends(g, plan, Tags(g, 0).value, 0);
    WovenLength(g, ins, 0);
    PlannedHasText(plan, Tags(g, 0).value);
    assert g[0..] == g;
  }

  /** A wanted tag gains the attribute with the right value if and only if its list does not end in a
      bare `=`: otherwise it comes out without any integrity attribute. */
  lemma ProtectedUnlessBare(h: Bytes, plan: Plan, t: Tag, d: nat)
    requires RespectsIntegrity(plan) && Wanted(plan, t).Some? && (BareTag(h, t) ==> t.attrs != [])
    ensures AttrOf(Seen(h, plan, t, d).attrs, INTEGRITY) == Some(Wanted(plan, t).value) <==> !BareTag(h, t)
    ensures BareTag(h, t) ==> AttrOf(Seen(h, plan, t, d).attrs, INTEGRITY).None?
  {
    if BareTag(h, t) {
      var out := Seen(h, plan, t, d).attrs;
      forall a | a in out ensures a.name != INTEGRITY {
        var k :| 0 <= k < |out| && out[k] == a;
        assert t.attrs[k] in t.attrs && t.attrs[k].name == a.name;
      }
    } else {
      AttrOfAppended(t.attrs, Wanted(plan, t).value);
    }
  }

  /** A located tag with a bare last attribute has an attribute. */
  lemma {:induction false} BareTagsHaveAttributes(h: Bytes, i: nat, t: Tag)
    requires Tags(h, i).Success? && t in Tags(h, i).value && BareTag(h, t)
    ensures t.attrs != []
    decreases |h| - i
  {
    var look := LookAt(h, i).value;
    TagsOf(h, i);
    if look.tag == Some(t) {
      WantedIsElement(h, i);
      BareElementHasAttribute(h, i, NameEnd(h, i + 1).value, t);
    } else {
      hide LookAt, BareTag;
      BareTagsHaveAttributes(h, look.next, t);
    }
  }

  lemma BareElementHasAttribute(h: Bytes, i: nat, end: nat, t: Tag)
    requires i < |h| && h[i] == LT && !Markup(h, i) && NameEnd(h, i + 1) == Some(end)
    requires LookAt(h, i).Success? && LookAt(h, i).value.tag == Some(t) && BareTag(h, t)
    ensures t.attrs != []
  {
    ElementLook(h, i);
    hide LookAt, NameEnd, Element, BareEnd, Attributes;
    ElementParts(h, i, end);
    ElementTag(h, i, end);
    BareHasAttribute(h, end, end);
  }

  /** What the output's tag number `k` is, against the input's. */
  ghost predicate Carried(h: Bytes, g: Bytes, plan: Plan, t: Tag, u: Tag) {
    && u.name == t.name && SameText(h, g, t, u)
    && (Wanted(plan, t).None? ==> u.attrs == t.attrs)
    && (Wanted(plan, t).Some? && !BareTag(h, t) ==>
          u.attrs == t.attrs + [Attr(INTEGRITY, Wanted(plan, t).value)] && AttrOf(u.attrs, INTEGRITY) == Wanted(plan, t))
    && (Wanted(plan, t).Some? && BareTag(h, t) ==> |u.attrs| == |t.attrs| && AttrOf(u.attrs, INTEGRITY).None?)
  }

  lemma OneCarried(h: Bytes, g: Bytes, plan: Plan, t: Tag, d: nat)
    requires RespectsIntegrity(plan) && (BareTag(h, t) ==> t.attrs != []) && SameText(h, g, t, Seen(h, plan, t, d))
    ensures Carried(h, g, plan, t, Seen(h, plan, t, d))
  {
    if Wanted(plan, t).Some? { ProtectedUnlessBare(h, plan, t, d); }
    hide RespectsIntegrity, AttrOf, SameText, BareTag, AttrText;
  }

  lemma AllSameTextStep(h: Bytes, g: Bytes, tags: seq<Tag>, seen: seq<Tag>)
    requires AllSameText(h, g, tags, seen) && tags != []
    ensures |seen| == |tags| && SameText(h, g, tags[0], seen[0]) && AllSameText(h, g, tags[1..], seen[1..])
  {
  }

  lemma {:induction false} AllCarried(h: Bytes, g: Bytes, plan: Plan, tags: seq<Tag>, d: nat, k: nat)
    requires RespectsIntegrity(plan) && k < |tags|
    requires forall t :: t in tags && BareTag(h, t) ==> t.attrs != []
    requires AllSameText(h, g, tags, AllSeen(h, plan, tags, d))
    ensures |AllSeen(h, plan, tags, d)| == |tags| && Carried(h, g, plan, tags[k], AllSeen(h, plan, tags, d)[k])
  {
    hide *;
    var t := tags[0];
    AllSeenStep(h, plan, tags, d);
    AllSameTextStep(h, g, tags, AllSeen(h, plan, tags, d));
    if k > 0 {
      assert forall x :: x in tags[1..] ==> x in tags;
      AllCarried(h, g, plan, tags[1..], d + Added(plan, t), k - 1);
    } else {
      OneCarried(h, g, plan, t, d);
    }
  }

  lemma WantedHadNone(plan: Plan, t: Tag)
    requires RespectsIntegrity(plan) && Wanted(plan, t).Some?
    ensures AttrOf(t.attrs, INTEGRITY).None?
  {
  }

  /** Scanning the output of injection succeeds with the same tags in the same order, each with its
      script text untouched; exactly the wanted tags gain one attribute with the planned value, and
      a wanted tag fails to be protected if and only if its list ended in a bare `=`. */
  lemma InjectionCarries(h: Bytes, plan: Plan, k: nat)
    requires Tags(h, 0).Success? && SafePlan(plan) && RespectsIntegrity(plan) && k < |Tags(h, 0).value|
    ensures Injected(h, plan).Success?
    ensures var g := Injected(h, plan).value;
      && Tags(g, 0).Success? && |Tags(g, 0).value| == |Tags(h, 0).value|
      && Carried(h, g, plan, Tags(h, 0).value[k], Tags(g, 0).value[k])
  {
    var tags := Tags(h, 0).value;
    InjectedScans(h, plan);
    InjectedReads(h, plan);
    hide *;
    var g := Injected(h, plan).value;
    TextAgain(h, g, 0, 0, plan);
    forall t | t in tags && BareTag(h, t) ensures t.attrs != [] { BareTagsHaveAttributes(h, 0, t); }
    AllCarried(h, g, plan, tags, 0, k);
  }

  lemma InjectedReads(h: Bytes, plan: Plan)
    requires Tags(h, 0).Success?
    ensures Injected(h, plan).Success? && Reads(h, Injected(h, plan).value, 0, 0, Planned(plan, Tags(h, 0).value))
  {
    TagsSound(h, 0);
    PlannedAscends(h, plan, Tags(h, 0).value, 0);
    var g := Injected(h, plan).value;
    assert g[0..] == g;
  }
}
