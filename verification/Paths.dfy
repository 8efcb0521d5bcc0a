/** The two path orders: UTF-8 bytes (Rust) and UTF-16 code units (JavaScript). */
module Paths {
  import opened Prelude

  function Utf8Char(c: int): (r: seq<int>)
    requires 0 <= c < 0x110000
    ensures r != []
  {
    if c < 0x80 then [c]
    else if c < 0x800 then [0xC0 + c / 64, 0x80 + c % 64]
    else if c < 0x10000 then [0xE0 + c / 4096, 0x80 + c / 64 % 64, 0x80 + c % 64]
    else [0xF0 + c / 262144, 0x80 + c / 4096 % 64, 0x80 + c / 64 % 64, 0x80 + c % 64]
  }

  function Utf16Char(c: int): (r: seq<int>)
    requires 0 <= c < 0x110000
    ensures r != []
  {
    if c < 0x10000 then [c]
    else [0xD800 + (c - 0x10000) / 1024, 0xDC00 + (c - 0x10000) % 1024]
  }

  function Utf8(s: string): seq<int> {
    if s == [] then [] else Utf8Char(s[0] as int) + Utf8(s[1..])
  }

  function Utf16(s: string): seq<int> {
    if s == [] then [] else Utf16Char(s[0] as int) + Utf16(s[1..])
  }

  predicate RustLess(a: string, b: string) { Compare(Utf8(a), Utf8(b)) < 0 }

  predicate JsLess(a: string, b: string) { Compare(Utf16(a), Utf16(b)) < 0 }

  /** One side beyond the basic plane, the other in U+E000..U+FFFF, above the surrogates. */
  predicate Straddle(c: int, d: int) {
    (c >= 0x10000 && 0xE000 <= d < 0x10000) || (d >= 0x10000 && 0xE000 <= c < 0x10000)
  }

  /** The first position where the paths differ holds such a pair. */
  predicate FirstDifferenceStraddles(a: string, b: string) {
    if a == [] || b == [] then false
    else if a[0] == b[0] then FirstDifferenceStraddles(a[1..], b[1..])
    else Straddle(a[0] as int, b[0] as int)
  }

  lemma {:induction false} CompareCommonPrefix(x: seq<int>, a: seq<int>, b: seq<int>)
    ensures Compare(x + a, x + b) == Compare(a, b)
  {
    if x == [] {
      assert x + a == a && x + b == b;
    } else {
      assert (x + a)[1..] == x[1..] + a && (x + b)[1..] == x[1..] + b;
      CompareCommonPrefix(x[1..], a, b);
    }
  }

  /** The first differing position decides. */
  lemma {:induction false} FirstDifference(x: seq<int>, y: seq<int>, k: nat)
    requires k < |x| && k < |y| && x[..k] == y[..k] && x[k] < y[k]
    ensures Compare(x, y) < 0
  {
    if k > 0 {
      assert x[0] == x[..k][0] && y[0] == y[..k][0];
      assert x[1..][..k - 1] == x[..k][1..] && y[1..][..k - 1] == y[..k][1..];
      FirstDifference(x[1..], y[1..], k - 1);
    }
  }

  lemma Base64Digits(c: int, d: int)
    requires 0 <= c < d
    ensures c / 64 < d / 64 || (c / 64 == d / 64 && c % 64 < d % 64)
  {
  }

  lemma NestedDivision(c: int)
    requires 0 <= c
    ensures c / 64 / 64 == c / 4096 && c / 4096 / 64 == c / 262144
  {
  }

  /** Where two lists of digits first differ, and how. */
  ghost predicate DiffersAt(x: seq<int>, y: seq<int>, k: nat) {
    k < |x| && k < |y| && x[..k] == y[..k] && x[k] < y[k]
  }

  lemma Differs2(c: int, d: int) returns (k: nat)
    requires 0x80 <= c < d < 0x800
    ensures DiffersAt(Utf8Char(c), Utf8Char(d), k)
  {
    Base64Digits(c, d);
    k := if c / 64 < d / 64 then 0 else 1;
  }

  lemma Differs3(c: int, d: int) returns (k: nat)
    requires 0x800 <= c < d < 0x10000
    ensures DiffersAt(Utf8Char(c), Utf8Char(d), k)
  {
    Base64Digits(c, d);
    if c / 64 < d / 64 { Base64Digits3(c, d); }
    k := if c / 4096 < d / 4096 then 0 else if c / 64 < d / 64 then 1 else 2;
  }

  lemma Base64Digits3(c: int, d: int)
    requires 0 <= c && 0 <= d && c / 64 < d / 64
    ensures c / 4096 < d / 4096 || (c / 4096 == d / 4096 && c / 64 % 64 < d / 64 % 64)
  {
    NestedDivision(c);
    NestedDivision(d);
    Base64Digits(c / 64, d / 64);
  }

  lemma Base64Digits4(c: int, d: int)
    requires 0 <= c && 0 <= d && c / 4096 < d / 4096
    ensures c / 262144 < d / 262144 || (c / 262144 == d / 262144 && c / 4096 % 64 < d / 4096 % 64)
  {
    NestedDivision(c);
    NestedDivision(d);
    Base64Digits(c / 4096, d / 4096);
  }

  lemma Differs4(c: int, d: int) returns (k: nat)
    requires 0x10000 <= c < d < 0x110000
    ensures DiffersAt(Utf8Char(c), Utf8Char(d), k)
  {
    Base64Digits(c, d);
    if c / 64 < d / 64 { Base64Digits3(c, d); }
    if c / 4096 < d / 4096 { Base64Digits4(c, d); }
    k := if c / 262144 < d / 262144 then 0 else if c / 4096 < d / 4096 then 1 else if c / 64 < d / 64 then 2 else 3;
  }

  /** The code of a smaller character decides the comparison, whatever follows. */
  lemma Utf8CharOrder(c: int, d: int, a: seq<int>, b: seq<int>)
    requires 0 <= c < d < 0x110000
    ensures Compare(Utf8Char(c) + a, Utf8Char(d) + b) < 0
  {
    var x, y := Utf8Char(c), Utf8Char(d);
    if |x| != |y| {
      assert x[0] < y[0];
      FirstDifference(x + a, y + b, 0);
    } else {
      var k: nat := 0;
      if c >= 0x10000 { k := Differs4(c, d); }
      else if c >= 0x800 { k := Differs3(c, d); }
      else if c >= 0x80 { k := Differs2(c, d); }
      assert (x + a)[..k] == x[..k] && (y + b)[..k] == y[..k];
      FirstDifference(x + a, y + b, k);
    }
  }

  lemma Utf16CharOrder(c: int, d: int, a: seq<int>, b: seq<int>)
    requires 0 <= c < d < 0x110000 && !(0xD800 <= c < 0xE000) && !(0xD800 <= d < 0xE000)
    ensures Compare(Utf16Char(c) + a, Utf16Char(d) + b) < 0 <==> !Straddle(c, d)
    ensures Compare(Utf16Char(c) + a, Utf16Char(d) + b) != 0
  {
    var x, y := Utf16Char(c) + a, Utf16Char(d) + b;
    if x[0] == y[0] {
      var x1, y1 := x[1..], y[1..];
      assert x1[0] == Utf16Char(c)[1] && y1[0] == Utf16Char(d)[1];
    }
  }

  /** The two orders agree on a pair of paths exactly when their first difference does not set a
      supplementary-plane character against one of U+E000..U+FFFF. */
  lemma {:induction false} OrdersAgree(a: string, b: string)
    ensures (RustLess(a, b) == JsLess(a, b)) <==> !FirstDifferenceStraddles(a, b)
  {
    if a == [] || b == [] {
    } else if a[0] == b[0] {
      OrdersAgree(a[1..], b[1..]);
      CompareCommonPrefix(Utf8Char(a[0] as int), Utf8(a[1..]), Utf8(b[1..]));
      CompareCommonPrefix(Utf16Char(a[0] as int), Utf16(a[1..]), Utf16(b[1..]));
    } else {
      var c, d := a[0] as int, b[0] as int;
      if c < d {
        Utf8CharOrder(c, d, Utf8(a[1..]), Utf8(b[1..]));
        Utf16CharOrder(c, d, Utf16(a[1..]), Utf16(b[1..]));
      } else {
        Utf8CharOrder(d, c, Utf8(b[1..]), Utf8(a[1..]));
        Utf16CharOrder(d, c, Utf16(b[1..]), Utf16(a[1..]));
        CompareReverse(Utf8(b), Utf8(a));
        CompareReverse(Utf16(b), Utf16(a));
      }
    }
  }

  /** The code points of a path. */
  function Points(s: string): (r: seq<int>)
    ensures |r| == |s|
  {
    if s == [] then [] else [s[0] as int] + Points(s[1..])
  }

  /** The order of the Rust side is the dictionary order of code points. */
  lemma {:induction false} Utf8KeepsOrder(a: string, b: string)
    ensures Compare(Utf8(a), Utf8(b)) == Compare(Points(a), Points(b))
  {
    if a == [] || b == [] {
    } else if a[0] == b[0] {
      Utf8KeepsOrder(a[1..], b[1..]);
      CompareCommonPrefix(Utf8Char(a[0] as int), Utf8(a[1..]), Utf8(b[1..]));
      CompareCommonPrefix([a[0] as int], Points(a[1..]), Points(b[1..]));
    } else {
      var c, d := a[0] as int, b[0] as int;
      assert Points(a)[0] == c && Points(b)[0] == d;
      if c < d {
        Utf8CharOrder(c, d, Utf8(a[1..]), Utf8(b[1..]));
      } else {
        Utf8CharOrder(d, c, Utf8(b[1..]), Utf8(a[1..]));
        CompareReverse(Utf8(b), Utf8(a));
      }
    }
  }

  lemma RustOrderIs(a: string, b: string)
    ensures RustLess(a, b) <==> LexBefore(Points(a), Points(b))
  {
    Utf8KeepsOrder(a, b);
    CompareIs(Points(a), Points(b));
  }

  predicate BasicPlane(s: string) {
    forall i :: 0 <= i < |s| ==> s[i] as int < 0x10000
  }

  lemma {:induction false} BasicPlaneAgrees(a: string, b: string)
    requires BasicPlane(a) && BasicPlane(b)
    ensures RustLess(a, b) == JsLess(a, b)
  {
    NoStraddle(a, b);
    OrdersAgree(a, b);
  }

  lemma {:induction false} NoStraddle(a: string, b: string)
    requires BasicPlane(a) && BasicPlane(b)
    ensures !FirstDifferenceStraddles(a, b)
  {
    if a != [] && b != [] {
      NoStraddle(a[1..], b[1..]);
    }
  }

  /** Two paths that the two sides order differently: U+E000 comes before U+10000 in UTF-8, and after it in
      UTF-16, where U+10000 is a pair of surrogates. */
  lemma OrdersPart()
    ensures RustLess("\U{E000}", "\U{10000}") && !JsLess("\U{E000}", "\U{10000}")
  {
    var c, d := '\U{E000}' as int, '\U{10000}' as int;
    assert c == 0xE000 && d == 0x10000;
    assert "\U{E000}"[1..] == "" && "\U{10000}"[1..] == "";
    assert Utf8("\U{E000}")[0] < Utf8("\U{10000}")[0];
    assert Utf16("\U{E000}")[0] > Utf16("\U{10000}")[0];
  }
}
