/** The base64 encoder behind SRI values and CSP hashes (src/generators.rs), against RFC 4648 section 4. */
module Base64 {
  import opened Prelude

  /** The alphabet, as the character of each six-bit group. */
  function Symbol(n: nat): byte
    requires n < 64
  {
    if n < 26 then 0x41 + n            // A-Z
    else if n < 52 then 0x61 + n - 26  // a-z
    else if n < 62 then 0x30 + n - 52  // 0-9
    else if n == 62 then 0x2B          // +
    else 0x2F                          // /
  }

  function GroupOf(c: byte): Option<nat> {
    if 0x41 <= c <= 0x5A then Some(c - 0x41)
    else if 0x61 <= c <= 0x7A then Some(c - 0x61 + 26)
    else if 0x30 <= c <= 0x39 then Some(c - 0x30 + 52)
    else if c == 0x2B then Some(62)
    else if c == 0x2F then Some(63)
    else None
  }

  const PAD: byte := 0x3D

  lemma SymbolRoundTrip(n: nat)
    requires n < 64
    ensures GroupOf(Symbol(n)) == Some(n) && Symbol(n) != PAD
  {
  }

  /** The 24 bits of up to three bytes, missing ones zero. */
  function Bits(chunk: Bytes): nat
    requires 1 <= |chunk| <= 3
  {
    var x: nat := chunk[0];
    var y: nat := if |chunk| > 1 then chunk[1] else 0;
    var z: nat := if |chunk| > 2 then chunk[2] else 0;
    x * 65536 + y * 256 + z
  }

  /** Four symbols for one chunk, padded when it is short. */
  function Quantum(chunk: Bytes): (r: Bytes)
    requires 1 <= |chunk| <= 3
    ensures |r| == 4
  {
    var n := Bits(chunk);
    [Symbol(n / 262144 % 64), Symbol(n / 4096 % 64),
     if |chunk| > 1 then Symbol(n / 64 % 64) else PAD,
     if |chunk| > 2 then Symbol(n % 64) else PAD]
  }

  /** How much of the data the next chunk takes. */
  function ChunkLength(data: Bytes): (k: nat)
    requires data != []
    ensures 1 <= k <= 3 && k <= |data|
  {
    if |data| > 3 then 3 else |data|
  }

  function Encoded(data: Bytes): Bytes
    decreases |data|
  {
    if data == [] then []
    else Quantum(data[..ChunkLength(data)]) + Encoded(data[ChunkLength(data)..])
  }

  lemma EncodedFrom(data: Bytes, i: nat, end: nat)
    requires i < |data| && end == if i + 3 < |data| then i + 3 else |data|
    ensures Encoded(data[i..]) == Quantum(data[i..end]) + Encoded(data[end..])
  {
    hide Quantum;
    assert data[i..][..end - i] == data[i..end] && data[i..][end - i..] == data[end..];
  }

  /** The encoder: one pass over chunks of three, appending to a string. */
  method Encode(data: Bytes) returns (out: Bytes)
    ensures out == Encoded(data)
  {
    out := [];
    var i := 0;
    assert data[0..] == data && [] + Encoded(data) == Encoded(data);
    while i < |data|
      invariant 0 <= i <= |data|
      invariant Encoded(data) == out + Encoded(data[i..])
    {
      hide *;
      var end := if i + 3 < |data| then i + 3 else |data|;
      var symbols := EncodeChunk(data[i..end]);
      EncodedFrom(data, i, end);
      assert out + (symbols + Encoded(data[end..])) == (out + symbols) + Encoded(data[end..]);
      out := out + symbols;
      i := end;
    }
    assert data[|data|..] == [] && out + [] == out;
  }

  method EncodeChunk(chunk: Bytes) returns (out: Bytes)
    requires 1 <= |chunk| <= 3
    ensures out == Quantum(chunk)
  {
    hide Symbol;
    var b0: nat := chunk[0];
    var b1: nat := if |chunk| > 1 then chunk[1] else 0;
    var b2: nat := if |chunk| > 2 then chunk[2] else 0;
    var n := b0 * 65536 + b1 * 256 + b2;
    out := [Symbol(n / 262144 % 64)];
    out := out + [Symbol(n / 4096 % 64)];
    out := out + [if |chunk| > 1 then Symbol(n / 64 % 64) else PAD];
    out := out + [if |chunk| > 2 then Symbol(n % 64) else PAD];
  }

  // ---------------------------------------------------------------- an independent decoder

  /** One quantum read back; padding only where RFC 4648 allows it, and with zero spare bits. */
  function DecodeQuantum(q: Bytes): Option<Bytes>
    requires |q| == 4
  {
    var a, b, c, d := GroupOf(q[0]), GroupOf(q[1]), GroupOf(q[2]), GroupOf(q[3]);
    if a.None? || b.None? then None
    else if q[2] == PAD && q[3] == PAD then
      if b.value % 16 == 0 then Some([a.value * 4 + b.value / 16]) else None
    else if c.None? then None
    else if q[3] == PAD then
      if c.value % 4 == 0 then Some([a.value * 4 + b.value / 16, b.value % 16 * 16 + c.value / 4]) else None
    else if d.None? then None
    else Some([a.value * 4 + b.value / 16, b.value % 16 * 16 + c.value / 4, c.value % 4 * 64 + d.value])
  }

  /** RFC 4648 section 4: whole quanta, a short one only at the end. */
  function Decoded(s: Bytes): Option<Bytes> {
    if s == [] then Some([])
    else if |s| < 4 then None
    else
      match DecodeQuantum(s[..4])
      case None => None
      case Some(first) =>
        if |first| < 3 then (if |s| == 4 then Some(first) else None)
        else
          match Decoded(s[4..])
          case None => None
          case Some(rest) => Some(first + rest)
  }

  /** The four six-bit groups of three bytes. */
  lemma GroupsOfThree(x: nat, y: nat, z: nat)
    requires x < 256 && y < 256 && z < 256
    ensures var n := x * 65536 + y * 256 + z;
      && n / 262144 % 64 == x / 4 && n / 4096 % 64 == x % 4 * 16 + y / 16
      && n / 64 % 64 == y % 16 * 4 + z / 64 && n % 64 == z % 64
  {
    var n := x * 65536 + y * 256 + z;
    Quotient(n, 262144, x / 4, x % 4 * 65536 + y * 256 + z);
    Quotient(n, 4096, x * 16 + y / 16, y % 16 * 256 + z);
    Quotient(x * 16 + y / 16, 64, x / 4, x % 4 * 16 + y / 16);
    Quotient(n, 64, x * 1024 + y * 4 + z / 64, z % 64);
    Quotient(x * 1024 + y * 4 + z / 64, 64, x * 16 + y / 16, y % 16 * 4 + z / 64);
  }

  lemma Quotient(n: nat, d: nat, q: nat, r: nat)
    requires d in {64, 4096, 262144} && n == q * d + r && r < d
    ensures n / d == q && n % d == r
  {
  }

  /** Putting the groups of three bytes back together. */
  lemma GroupsRejoin(x: nat, y: nat, z: nat)
    requires x < 256 && y < 256 && z < 256
    ensures x / 4 * 4 + (x % 4 * 16 + y / 16) / 16 == x
    ensures (x % 4 * 16 + y / 16) % 16 * 16 + (y % 16 * 4 + z / 64) / 4 == y
    ensures (y % 16 * 4 + z / 64) % 4 * 64 + z % 64 == z
    ensures y == 0 ==> (x % 4 * 16 + y / 16) % 16 == 0
    ensures z == 0 ==> (y % 16 * 4 + z / 64) % 4 == 0
  {
  }

  /** What the decoder makes of symbols and padding. */
  lemma DecodeSymbols(a: nat, b: nat, c: nat, d: nat)
    requires a < 64 && b < 64 && c < 64 && d < 64
    ensures DecodeQuantum([Symbol(a), Symbol(b), Symbol(c), Symbol(d)])
         == Some([a * 4 + b / 16, b % 16 * 16 + c / 4, c % 4 * 64 + d])
    ensures c % 4 == 0 ==>
      DecodeQuantum([Symbol(a), Symbol(b), Symbol(c), PAD]) == Some([a * 4 + b / 16, b % 16 * 16 + c / 4])
    ensures b % 16 == 0 ==> DecodeQuantum([Symbol(a), Symbol(b), PAD, PAD]) == Some([a * 4 + b / 16])
  {
    SymbolRoundTrip(a);
    SymbolRoundTrip(b);
    SymbolRoundTrip(c);
    SymbolRoundTrip(d);
    assert GroupOf(PAD) == None;
    hide Symbol, GroupOf;
  }

  lemma QuantumRoundTrip(chunk: Bytes)
    requires 1 <= |chunk| <= 3
    ensures DecodeQuantum(Quantum(chunk)) == Some(chunk)
  {
    hide Symbol, DecodeQuantum;
    var x: nat := chunk[0];
    var y: nat := if |chunk| > 1 then chunk[1] else 0;
    var z: nat := if |chunk| > 2 then chunk[2] else 0;
    GroupsOfThree(x, y, z);
    GroupsRejoin(x, y, z);
    DecodeSymbols(x / 4, x % 4 * 16 + y / 16, y % 16 * 4 + z / 64, z % 64);
    assert chunk == if |chunk| == 1 then [x] else if |chunk| == 2 then [x, y] else [x, y, z];
  }

  /** One decoding step in front of a decodable rest. */
  lemma DecodedStep(q: Bytes, first: Bytes, s: Bytes, rest: Bytes)
    requires |q| == 4 && DecodeQuantum(q) == Some(first) && Decoded(s) == Some(rest)
    requires |first| == 3 || s == []
    ensures Decoded(q + s) == Some(first + rest)
  {
    hide DecodeQuantum;
    assert (q + s)[..4] == q && (q + s)[4..] == s;
    assert s == [] ==> first + rest == first;
  }

  /** The decoder inverts the encoder on every byte string. */
  lemma {:induction false} RoundTrip(data: Bytes)
    ensures Decoded(Encoded(data)) == Some(data)
    decreases |data|
  {
    if data != [] {
      hide Quantum, DecodeQuantum;
      var k := ChunkLength(data);
      QuantumRoundTrip(data[..k]);
      RoundTrip(data[k..]);
      assert data == data[..k] + data[k..];
      DecodedStep(Quantum(data[..k]), data[..k], Encoded(data[k..]), data[k..]);
    }
  }

  /** How many of the last places are padding. */
  function Padding(n: nat): nat { (3 - n % 3) % 3 }

  lemma ShapeStep(n: nat)
    requires n > 3
    ensures (n + 2) / 3 * 4 == (n - 3 + 2) / 3 * 4 + 4 && Padding(n) == Padding(n - 3)
  {
  }

  /** Four symbols for every three bytes begun; padding only in the last two places, one symbol of it
      for two left-over bytes, two for one; everything else from the alphabet. */
  lemma {:induction false} EncodedShape(data: Bytes)
    ensures |Encoded(data)| == (|data| + 2) / 3 * 4
    ensures forall i :: 0 <= i < |Encoded(data)| ==>
      if i >= |Encoded(data)| - Padding(|data|) then Encoded(data)[i] == PAD else GroupOf(Encoded(data)[i]).Some?
    decreases |data|
  {
    if data != [] {
      hide Quantum, GroupOf;
      var k := ChunkLength(data);
      EncodedShape(data[k..]);
      QuantumSymbols(data[..k]);
      var q, s, rest := Quantum(data[..k]), Encoded(data), Encoded(data[k..]);
      assert s == q + rest;
      if |data| > 3 {
        ShapeStep(|data|);
        hide Encoded, Padding;
      } else {
        assert Padding(|data|) == 3 - |data| && rest == [];
        hide Encoded, Padding;
      }
    }
  }

  lemma QuantumSymbols(chunk: Bytes)
    requires 1 <= |chunk| <= 3
    ensures forall i :: 0 <= i < 4 ==> if i > |chunk| then Quantum(chunk)[i] == PAD else GroupOf(Quantum(chunk)[i]).Some?
  {
    var n := Bits(chunk);
    SymbolRoundTrip(n / 262144 % 64);
    SymbolRoundTrip(n / 4096 % 64);
    SymbolRoundTrip(n / 64 % 64);
    SymbolRoundTrip(n % 64);
  }

  // ---------------------------------------------------------------- symbol by symbol

  /** This symbol stands for these six bits. */
  predicate StandsFor(c: byte, n: nat) {
    || (n < 26 && c == 'A' as int + n) || (26 <= n < 52 && c == 'a' as int + (n - 26))
    || (52 <= n < 62 && c == '0' as int + (n - 52)) || (n == 62 && c == '+' as int) || (n == 63 && c == '/' as int)
  }

  lemma SymbolStands(n: nat)
    requires n < 64
    ensures StandsFor(Symbol(n), n)
  {
  }

  /** The byte at `k`, or zero bits past the end. */
  function ByteAt(data: Bytes, k: nat): nat { if k < |data| then data[k] else 0 }

  /** The symbols of the group of bytes that begins at `k`: six bits each, highest first, with `=` for those that
      would be of missing bytes alone. */
  predicate GroupIs(code: Bytes, at: nat, data: Bytes, k: nat) {
    && at + 4 <= |code|
    && StandsFor(code[at], ByteAt(data, k) / 4)
    && StandsFor(code[at + 1], ByteAt(data, k) % 4 * 16 + ByteAt(data, k + 1) / 16)
    && (if k + 1 < |data| then StandsFor(code[at + 2], ByteAt(data, k + 1) % 16 * 4 + ByteAt(data, k + 2) / 64)
        else code[at + 2] == '=' as int)
    && (if k + 2 < |data| then StandsFor(code[at + 3], ByteAt(data, k + 2) % 64) else code[at + 3] == '=' as int)
  }

  lemma QuantumIs(data: Bytes, rest: Bytes)
    requires data != []
    ensures GroupIs(Quantum(data[..ChunkLength(data)]) + rest, 0, data, 0)
  {
    var x, y, z := ByteAt(data, 0), ByteAt(data, 1), ByteAt(data, 2);
    var chunk := data[..ChunkLength(data)];
    assert Bits(chunk) == x * 65536 + y * 256 + z;
    GroupsOfThree(x, y, z);
    hide Symbol, Bits, StandsFor;
    SymbolStands(x / 4);
    SymbolStands(x % 4 * 16 + y / 16);
    SymbolStands(y % 16 * 4 + z / 64);
    SymbolStands(z % 64);
  }

  /** Group by group, the encoding of any data is the one of RFC 4648 section 4. */
  lemma {:induction false} EncodedGroup(data: Bytes, i: nat)
    requires 3 * i < |data|
    ensures GroupIs(Encoded(data), 4 * i, data, 3 * i)
    decreases |data|
  {
    var n := ChunkLength(data);
    if i == 0 {
      QuantumIs(data, Encoded(data[n..]));
      hide Quantum;
    } else {
      EncodedGroup(data[3..], i - 1);
      hide Quantum, GroupIs, ByteAt;
      GroupShifts(Quantum(data[..n]), Encoded(data[n..]), 4 * (i - 1), data, 3 * (i - 1));
    }
  }

  lemma GroupShifts(head: Bytes, code: Bytes, at: nat, data: Bytes, k: nat)
    requires |head| == 4 && |data| >= 3 && GroupIs(code, at, data[3..], k)
    ensures GroupIs(head + code, at + 4, data, k + 3)
  {
    assert ByteAt(data, k + 3) == ByteAt(data[3..], k) && ByteAt(data, k + 4) == ByteAt(data[3..], k + 1);
    assert ByteAt(data, k + 5) == ByteAt(data[3..], k + 2);
    hide ByteAt, StandsFor;
  }
}
