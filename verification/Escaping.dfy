/** Character references in attribute values: what an escaper writes is what the scanner reads (src/html.rs). */
module Escaping {
  import opened Prelude
  import opened Html
  import opened Rescan

  /** What an escaper writes for one byte; for the apostrophe, the number or the name of it. */
  function Escaped(b: byte, numeric: bool): Bytes {
    if b == '<' as int then Text("&lt;")
    else if b == '>' as int then Text("&gt;")
    else if b == '"' as int then Text("&quot;")
    else if b == '\'' as int then (if numeric then Text("&#39;") else Text("&apos;"))
    else if b == '&' as int then Text("&amp;")
    else [b]
  }

  function Escape(s: Bytes, numeric: bool): Bytes {
    if s == [] then [] else Escaped(s[0], numeric) + Escape(s[1..], numeric)
  }

  // ---------------------------------------------------------------- one replacement after the other

  /** The references in the order in which they are resolved, the ampersand last. */
  function Pattern(k: nat): (r: Bytes)
    requires k < 6
    ensures r != []
  {
    match k
    case 0 => Text("&lt;")
    case 1 => Text("&gt;")
    case 2 => Text("&quot;")
    case 3 => Text("&#39;")
    case 4 => Text("&apos;")
    case 5 => Text("&amp;")
  }

  function Meant(k: nat): byte
    requires k < 6
  {
    match k
    case 0 => LT
    case 1 => GT
    case 2 => QUOTE
    case 3 => APOSTROPHE
    case 4 => APOSTROPHE
    case 5 => AMP
  }

  /** Which reference stands for a byte, if one does. */
  function Which(b: byte, numeric: bool): (r: Option<nat>)
    ensures r.Some? ==> r.value < 6
  {
    if b == LT then Some(0)
    else if b == GT then Some(1)
    else if b == QUOTE then Some(2)
    else if b == APOSTROPHE then Some(if numeric then 3 else 4)
    else if b == AMP then Some(5)
    else None
  }

  lemma EscapedBy(b: byte, numeric: bool)
    ensures Escaped(b, numeric) == if Which(b, numeric).Some? then Pattern(Which(b, numeric).value) else [b]
    ensures Which(b, numeric).Some? ==> Meant(Which(b, numeric).value) == b
  {
    hide Text;
  }

  /** One byte after the first `k` replacements. */
  function Half(b: byte, numeric: bool, k: nat): Bytes {
    if Which(b, numeric).Some? && Which(b, numeric).value < k then [b] else Escaped(b, numeric)
  }

  function Halves(s: Bytes, numeric: bool, k: nat): Bytes {
    if s == [] then [] else Half(s[0], numeric, k) + Halves(s[1..], numeric, k)
  }

  lemma References()
    ensures Text("&lt;") == [0x26, 0x6C, 0x74, 0x3B] && Text("&gt;") == [0x26, 0x67, 0x74, 0x3B]
    ensures Text("&quot;") == [0x26, 0x71, 0x75, 0x6F, 0x74, 0x3B] && Text("&#39;") == [0x26, 0x23, 0x33, 0x39, 0x3B]
    ensures Text("&apos;") == [0x26, 0x61, 0x70, 0x6F, 0x73, 0x3B] && Text("&amp;") == [0x26, 0x61, 0x6D, 0x70, 0x3B]
  {
  }

  /** A reference other than the one looked for, or a plain byte: passed over as a whole. */
  ghost predicate PassedOver(block: Bytes, pattern: Bytes) {
    && block != [] && pattern != [] && pattern[0] == AMP
    && (forall i :: 0 < i < |block| ==> block[i] != AMP)
    && exists i :: 0 <= i < |block| && i < |pattern| && block[i] != pattern[i]
  }

  lemma {:induction false} NoMatchInside(block: Bytes, rest: Bytes, pattern: Bytes, with: Bytes)
    requires pattern != [] && pattern[0] == AMP && forall i :: 0 <= i < |block| ==> block[i] != AMP
    ensures Replace(block + rest, pattern, with) == block + Replace(rest, pattern, with)
  {
    if block == [] {
      assert block + rest == rest;
    } else {
      var s := block + rest;
      assert s[0] != pattern[0] && s[1..] == block[1..] + rest;
      NoMatchInside(block[1..], rest, pattern, with);
      assert block == [block[0]] + block[1..];
    }
  }

  lemma SkipBlock(block: Bytes, rest: Bytes, pattern: Bytes, with: Bytes)
    requires PassedOver(block, pattern)
    ensures Replace(block + rest, pattern, with) == block + Replace(rest, pattern, with)
  {
    var s := block + rest;
    var i :| 0 <= i < |block| && i < |pattern| && block[i] != pattern[i];
    assert s[i] != pattern[i];
    ReplaceFirst(s, pattern, with);
    assert forall k :: 0 <= k < |block[1..]| ==> block[1..][k] != AMP;
    hide *;
    assert s[1..] == block[1..] + rest && s[0] == block[0];
    NoMatchInside(block[1..], rest, pattern, with);
    assert block == [block[0]] + block[1..];
  }

  lemma ReplaceFirst(s: Bytes, pattern: Bytes, with: Bytes)
    requires s != [] && pattern != [] && !(pattern <= s)
    ensures Replace(s, pattern, with) == [s[0]] + Replace(s[1..], pattern, with)
  {
  }

  lemma TakeBlock(rest: Bytes, pattern: Bytes, with: Bytes)
    requires pattern != []
    ensures Replace(pattern + rest, pattern, with) == with + Replace(rest, pattern, with)
  {
    assert (pattern + rest)[|pattern|..] == rest;
  }

  /** No reference is the beginning of another. */
  lemma ReferencesApart(i: nat, j: nat)
    requires i < 6 && j < 6 && i != j
    ensures PassedOver(Pattern(i), Pattern(j))
  {
    References();
    hide Text;
    var a, b := Pattern(i), Pattern(j);
    assert a[1] != b[1] || a[2] != b[2];
  }

  lemma PlainPasses(b: byte, k: nat)
    requires k < 6 && b != AMP
    ensures PassedOver([b], Pattern(k))
  {
    References();
    hide Text;
    assert [b][0] != Pattern(k)[0];
  }

  /** One byte, one replacement. */
  lemma HalfStep(b: byte, numeric: bool, k: nat)
    requires k < 6
    ensures if Which(b, numeric) == Some(k) then Half(b, numeric, k) == Pattern(k) && Half(b, numeric, k + 1) == [Meant(k)]
            else Half(b, numeric, k + 1) == Half(b, numeric, k) && PassedOver(Half(b, numeric, k), Pattern(k))
  {
    var w := Which(b, numeric);
    EscapedBy(b, numeric);
    if w.Some? && w.value != k { ReferencesApart(w.value, k); }
    if b != AMP { PlainPasses(b, k); }
    hide Escaped, Pattern, PassedOver;
  }

  /** One replacement resolves one kind of reference, and touches nothing else. */
  lemma {:induction false} ReplaceStep(s: Bytes, numeric: bool, k: nat)
    requires k < 6
    ensures Replace(Halves(s, numeric, k), Pattern(k), [Meant(k)]) == Halves(s, numeric, k + 1)
  {
    if s != [] {
      var b, rest := s[0], Halves(s[1..], numeric, k);
      HalfStep(b, numeric, k);
      ReplaceStep(s[1..], numeric, k);
      hide Half, Pattern, Meant, Replace, PassedOver, Which;
      if Which(b, numeric) == Some(k) {
        TakeBlock(rest, Pattern(k), [Meant(k)]);
      } else {
        SkipBlock(Half(b, numeric, k), rest, Pattern(k), [Meant(k)]);
      }
    }
  }

  lemma {:induction false} HalvesEnds(s: Bytes, numeric: bool)
    ensures Halves(s, numeric, 0) == Escape(s, numeric)
    ensures Halves(s, numeric, 6) == s
  {
    if s != [] {
      HalvesEnds(s[1..], numeric);
      EscapedBy(s[0], numeric);
      hide Escaped, Pattern;
      assert s == [s[0]] + s[1..];
    }
  }

  lemma {:induction false} NothingEscaped(s: Bytes, numeric: bool)
    requires AMP !in Escape(s, numeric)
    ensures Escape(s, numeric) == s
  {
    if s != [] {
      var b := s[0];
      PlainOrReference(b, numeric);
      hide Escaped;
      assert forall x :: x in Escaped(b, numeric) ==> x in Escape(s, numeric);
      assert forall x :: x in Escape(s[1..], numeric) ==> x in Escape(s, numeric);
      NothingEscaped(s[1..], numeric);
      assert s == [s[0]] + s[1..];
    }
  }

  lemma PlainOrReference(b: byte, numeric: bool)
    ensures Escaped(b, numeric) == [b] || AMP in Escaped(b, numeric)
  {
    References();
    hide Text;
    if Which(b, numeric).Some? {
      EscapedBy(b, numeric);
      assert Escaped(b, numeric)[0] == AMP;
    }
  }

  /** The six replacements, by number. */
  lemma DecodeBySteps(s: Bytes)
    requires AMP in s
    ensures
      var s1 := Replace(s, Pattern(0), [Meant(0)]);
      var s2 := Replace(s1, Pattern(1), [Meant(1)]);
      var s3 := Replace(s2, Pattern(2), [Meant(2)]);
      var s4 := Replace(s3, Pattern(3), [Meant(3)]);
      var s5 := Replace(s4, Pattern(4), [Meant(4)]);
      Decode(s) == Replace(s5, Pattern(5), [Meant(5)])
  {
    References();
    hide Text, Replace;
  }

  /** Whatever bytes an attribute value has, escaped they are read back as they were - references to
      references included, because the ampersand comes last. */
  lemma DecodeEscape(s: Bytes, numeric: bool)
    ensures Decode(Escape(s, numeric)) == s
  {
    hide *;
    if AMP in Escape(s, numeric) {
      DecodeBySteps(Escape(s, numeric));
      HalvesEnds(s, numeric);
      ReplaceStep(s, numeric, 0);
      ReplaceStep(s, numeric, 1);
      ReplaceStep(s, numeric, 2);
      ReplaceStep(s, numeric, 3);
      ReplaceStep(s, numeric, 4);
      ReplaceStep(s, numeric, 5);
    } else {
      NothingEscaped(s, numeric);
      DecodePlain(s);
    }
  }

  lemma DecodePlain(s: Bytes)
    requires AMP !in s
    ensures Decode(s) == s
  {
    hide Replace;
  }

  lemma {:induction false} NoQuoteEscaped(s: Bytes, numeric: bool)
    ensures QUOTE !in Escape(s, numeric) && APOSTROPHE !in Escape(s, numeric)
  {
    if s != [] {
      NoQuoteEscaped(s[1..], numeric);
      References();
      hide Text;
    }
  }

  /** In its place: an attribute written with its value escaped and in quotes, of either kind, is read back with
      that value, and the scan goes on behind the closing quote. */
  lemma EscapedValueIsRead(h: Bytes, at: nat, v: Bytes, numeric: bool, quote: byte, start: nat)
    requires quote == QUOTE || quote == APOSTROPHE
    requires var end := at + 2 + |Escape(v, numeric)|;
      end < |h| && h[at] == EQUALS && h[at + 1] == quote && h[at + 2..end] == Escape(v, numeric) && h[end] == quote
    ensures ValueAt(h, at, start) == Success((v, at + 3 + |Escape(v, numeric)|))
  {
    var end := at + 2 + |Escape(v, numeric)|;
    NoQuoteEscaped(v, numeric);
    DecodeEscape(v, numeric);
    hide Escape, Decode;
    forall k | at + 2 <= k < end ensures h[k] != quote { assert h[k] == Escape(v, numeric)[k - at - 2]; }
    IndexExact(h, at + 2, end, quote);
    SkipExact(h, at + 1, at + 1, Space);
    QuotedValue(h, at, start, at + 1, end);
  }
}
