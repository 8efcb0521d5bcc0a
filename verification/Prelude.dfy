/** Shared vocabulary: bytes, the two outcome datatypes and the byte-string order. */
module Prelude {

  type byte = b: int | 0 <= b < 256
  type Bytes = seq<byte>
  type Digest = d: Bytes | |d| == 32 witness seq(32, _ => 0)

  datatype Option<+T> = None | Some(value: T)
  datatype Result<+T, +E> = Success(value: T) | Failure(error: E)

  const MAX_SAFE_INT: nat := 9_007_199_254_740_991

  /** The bytes of an ASCII string. */
  function Text(s: string): (r: Bytes)
    ensures |r| == |s|
  {
    seq(|s|, i requires 0 <= i < |s| => s[i] as int % 256)
  }

  /** Little-endian u16 of `n`, with the truncating cast of the source. */
  function U16(n: nat): Bytes {
    [n % 256, n / 256 % 256]
  }

  function FromU16(lo: byte, hi: byte): (r: nat)
    ensures r < 65536 && U16(r) == [lo, hi]
  {
    lo + 256 * hi
  }

  /** Lexicographic three-way comparison: negative, zero or positive. */
  function Compare(a: seq<int>, b: seq<int>): (r: int)
    ensures r == -1 || r == 0 || r == 1
  {
    if a == [] then (if b == [] then 0 else -1)
    else if b == [] then 1
    else if a[0] < b[0] then -1
    else if a[0] > b[0] then 1
    else Compare(a[1..], b[1..])
  }

  lemma {:induction false} CompareEqual(a: seq<int>, b: seq<int>)
    ensures Compare(a, b) == 0 <==> a == b
  {
    if a != [] && b != [] {
      CompareEqual(a[1..], b[1..]);
      assert a == [a[0]] + a[1..] && b == [b[0]] + b[1..];
    }
  }

  lemma {:induction false} CompareReverse(a: seq<int>, b: seq<int>)
    ensures Compare(b, a) == -Compare(a, b)
  {
    if a != [] && b != [] {
      CompareReverse(a[1..], b[1..]);
    }
  }

  lemma {:induction false} CompareTransitive(a: seq<int>, b: seq<int>, c: seq<int>)
    requires Compare(a, b) < 0 && Compare(b, c) <= 0
    ensures Compare(a, c) < 0
  {
    if a != [] && a[0] == b[0] == c[0] {
      CompareTransitive(a[1..], b[1..], c[1..]);
    }
  }

  /** Dictionary order: the first difference decides, and a string comes before its extensions. */
  predicate LexBefore(a: seq<int>, b: seq<int>) {
    exists i :: 0 <= i <= |a| && i < |b| && a[..i] == b[..i] && (i == |a| || a[i] < b[i])
  }

  lemma {:induction false} CompareIs(a: seq<int>, b: seq<int>)
    ensures Compare(a, b) < 0 <==> LexBefore(a, b)
  {
    if a != [] && b != [] {
      CompareIs(a[1..], b[1..]);
      if a[0] == b[0] { LexTail(a, b); }
      if a[0] < b[0] { assert a[..0] == b[..0]; }
    } else if b != [] {
      assert a[..0] == b[..0];
    }
  }

  lemma LexTail(a: seq<int>, b: seq<int>)
    requires a != [] && b != [] && a[0] == b[0]
    ensures LexBefore(a, b) <==> LexBefore(a[1..], b[1..])
  {
    if LexBefore(a, b) {
      var i :| 0 <= i <= |a| && i < |b| && a[..i] == b[..i] && (i == |a| || a[i] < b[i]);
      assert i > 0 && a[1..][..i - 1] == a[..i][1..] && b[1..][..i - 1] == b[..i][1..];
    }
    if LexBefore(a[1..], b[1..]) {
      var i :| 0 <= i <= |a[1..]| && i < |b[1..]| && a[1..][..i] == b[1..][..i] && (i == |a[1..]| || a[1..][i] < b[1..][i]);
      assert a[..i + 1] == [a[0]] + a[1..][..i] && b[..i + 1] == [b[0]] + b[1..][..i];
    }
  }
}
