/** Pure insertion into a byte buffer (src/html.rs, splice). */
module Splicing {
  import opened Prelude

  datatype Insertion = Insertion(at: nat, text: Bytes)

  /** Stable sort by offset, one element at a time. */
  function Place(x: Insertion, ins: seq<Insertion>): (r: seq<Insertion>)
    ensures |r| == |ins| + 1 && multiset(r) == multiset{x} + multiset(ins)
  {
    if ins == [] then [x]
    else if x.at <= ins[0].at then [x] + ins
    else
      assert ins == [ins[0]] + ins[1..];
      [ins[0]] + Place(x, ins[1..])
  }

  function ByOffset(ins: seq<Insertion>): (r: seq<Insertion>)
    ensures |r| == |ins| && multiset(r) == multiset(ins)
  {
    if ins == [] then []
    else
      assert ins == [ins[0]] + ins[1..];
      Place(ins[0], ByOffset(ins[1..]))
  }

  /** Ascending offsets, none before `i` and none past `n`. */
  predicate Ascending(ins: seq<Insertion>, i: nat, n: nat) {
    i <= n && (ins == [] || (i <= ins[0].at && Ascending(ins[1..], ins[0].at, n)))
  }

  lemma {:induction false} PlaceAscends(x: Insertion, ins: seq<Insertion>, i: nat, n: nat)
    requires Ascending(ins, i, n) && i <= x.at <= n
    ensures Ascending(Place(x, ins), i, n)
  {
    if ins == [] || x.at <= ins[0].at {
      assert ([x] + ins)[1..] == ins;
    } else {
      PlaceAscends(x, ins[1..], ins[0].at, n);
      assert Place(x, ins)[1..] == Place(x, ins[1..]);
    }
  }

  lemma {:induction false} SortAscends(ins: seq<Insertion>, n: nat)
    requires forall k :: k in ins ==> k.at <= n
    ensures Ascending(ByOffset(ins), 0, n)
  {
    if ins != [] {
      SortAscends(ins[1..], n);
      PlaceAscends(ins[0], ByOffset(ins[1..]), 0, n);
    }
  }

  /** Sorting what is in order changes nothing. */
  lemma {:induction false} SortInOrder(ins: seq<Insertion>, i: nat, n: nat)
    requires Ascending(ins, i, n)
    ensures ByOffset(ins) == ins
  {
    if ins != [] {
      SortInOrder(ins[1..], ins[0].at, n);
      assert ins == [ins[0]] + ins[1..];
    }
  }

  /** The original from `cursor` on, with every text put in at its offset. */
  function Woven(h: Bytes, ins: seq<Insertion>, cursor: nat): Bytes
    requires Ascending(ins, cursor, |h|)
  {
    if ins == [] then h[cursor..]
    else
      AscendingWithin(ins, cursor, |h|);
      h[cursor..ins[0].at] + ins[0].text + Woven(h, ins[1..], ins[0].at)
  }

  lemma AscendingWithin(ins: seq<Insertion>, i: nat, n: nat)
    requires Ascending(ins, i, n) && ins != []
    ensures i <= ins[0].at <= n
  {
  }

  /** The splice loop: copy up to the offset, put the text in, move the cursor. */
  method Splice(original: Bytes, insertions: seq<Insertion>) returns (out: Bytes)
    requires forall k :: k in insertions ==> k.at <= |original|
    ensures Ascending(ByOffset(insertions), 0, |original|)
    ensures out == Woven(original, ByOffset(insertions), 0)
  {
    SortAscends(insertions, |original|);
    var sorted := ByOffset(insertions);
    out := [];
    var cursor := 0;
    var i := 0;
    assert sorted[0..] == sorted;
    assert [] + Woven(original, sorted, 0) == Woven(original, sorted, 0);
    while i < |sorted|
      invariant 0 <= i <= |sorted| && cursor <= |original|
      invariant Ascending(sorted[i..], cursor, |original|)
      invariant Woven(original, sorted, 0) == out + Woven(original, sorted[i..], cursor)
    {
      var at, text := sorted[i].at, sorted[i].text;
      assert sorted[i..][0] == sorted[i] && sorted[i..][1..] == sorted[i + 1..];
      AscendingWithin(sorted[i..], cursor, |original|);
      var rest := Woven(original, sorted[i + 1..], at);
      assert out + (original[cursor..at] + text + rest) == (out + original[cursor..at] + text) + rest;
      out := out + original[cursor..at];
      out := out + text;
      cursor := at;
      i := i + 1;
    }
    assert sorted[|sorted|..] == [];
    out := out + original[cursor..];
  }

  // ---------------------------------------------------------------- nothing but insertion

  /** How much text goes in at or before position `p`. */
  function Shift(ins: seq<Insertion>, p: nat): nat {
    if ins == [] || ins[0].at > p then 0 else |ins[0].text| + Shift(ins[1..], p)
  }

  function TotalText(ins: seq<Insertion>): nat {
    if ins == [] then 0 else |ins[0].text| + TotalText(ins[1..])
  }

  /** Every byte of the original is in the output, in its order, displaced by exactly the text
      inserted up to it; and nothing else was added. */
  lemma {:induction false} OriginalKept(h: Bytes, ins: seq<Insertion>, cursor: nat, p: nat)
    requires Ascending(ins, cursor, |h|) && cursor <= p < |h|
    ensures |Woven(h, ins, cursor)| == |h| - cursor + TotalText(ins)
    ensures p - cursor + Shift(ins, p) < |Woven(h, ins, cursor)|
    ensures Woven(h, ins, cursor)[p - cursor + Shift(ins, p)] == h[p]
  {
    if ins != [] {
      var at, text := ins[0].at, ins[0].text;
      AscendingWithin(ins, cursor, |h|);
      WovenLength(h, ins[1..], at);
      if at <= p {
        OriginalKept(h, ins[1..], at, p);
        var k := p - at + Shift(ins[1..], p);
        assert Woven(h, ins, cursor)[at - cursor + |text| + k] == Woven(h, ins[1..], at)[k];
      } else {
        assert Woven(h, ins, cursor)[p - cursor] == h[cursor..at][p - cursor];
      }
    }
  }

  lemma {:induction false} WovenLength(h: Bytes, ins: seq<Insertion>, cursor: nat)
    requires Ascending(ins, cursor, |h|)
    ensures |Woven(h, ins, cursor)| == |h| - cursor + TotalText(ins)
  {
    if ins != [] {
      AscendingWithin(ins, cursor, |h|);
      WovenLength(h, ins[1..], ins[0].at);
    }
  }

  /** Up to a point before the first insertion the output is the original. */
  lemma WovenFrom(h: Bytes, ins: seq<Insertion>, cursor: nat, p: nat)
    requires cursor <= p && Ascending(ins, p, |h|)
    ensures Ascending(ins, cursor, |h|)
    ensures Woven(h, ins, cursor) == h[cursor..p] + Woven(h, ins, p)
  {
    if ins == [] {
      assert h[cursor..] == h[cursor..p] + h[p..];
    } else {
      AscendingWithin(ins, p, |h|);
      var at := ins[0].at;
      assert h[cursor..at] == h[cursor..p] + h[p..at];
      Regroup(h[cursor..p], h[p..at], ins[0].text, Woven(h, ins[1..], at));
    }
  }

  lemma Regroup(a: Bytes, b: Bytes, c: Bytes, d: Bytes)
    ensures (a + b) + c + d == a + (b + c + d)
  {
  }
}
