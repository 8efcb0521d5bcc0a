/** Hex fields, key identity and the trust root with its binary identity (src/crypto.rs). */
module TrustRoots {
  import opened Prelude
  import opened Bundle

  /** The library primitives, uninterpreted: any functions of these shapes. */
  datatype Primitives = Primitives(
    sha256: Bytes -> Digest,
    /** algorithm, raw public key, signature, message */
    verifySig: (SigAlg, Bytes, Bytes, Bytes) -> bool)

  /** The hash tells these two byte strings apart. */
  ghost predicate NoCollision(p: Primitives, a: Bytes, b: Bytes) {
    p.sha256(a) == p.sha256(b) ==> a == b
  }

  // ---------------------------------------------------------------- domain separation

  const PREFIX_MANIFEST: Bytes := Text("veil-guard/manifest/v1\0")
  const PREFIX_ROTATION: Bytes := Text("veil-guard/rotation/v1\0")
  const PREFIX_REVOCATION: Bytes := Text("veil-guard/revocation/v1\0")
  const PREFIX_KEYID: Bytes := Text("veil-guard/keyid/v1\0")
  const PREFIX_TRUSTROOT: Bytes := Text("veil-guard/trustroot/v1\0")

  /** No byte string is a signed message under two of the three signing prefixes. */
  lemma DomainsAreDisjoint(a: Bytes, b: Bytes)
    ensures PREFIX_MANIFEST + a != PREFIX_ROTATION + b
    ensures PREFIX_MANIFEST + a != PREFIX_REVOCATION + b
    ensures PREFIX_ROTATION + a != PREFIX_REVOCATION + b
  {
    assert (PREFIX_MANIFEST + a)[11] == 'm' as int;
    assert (PREFIX_ROTATION + a)[13] == 't' as int && (PREFIX_ROTATION + b)[11] == 'r' as int;
    assert (PREFIX_REVOCATION + b)[11] == 'r' as int && (PREFIX_REVOCATION + b)[13] == 'v' as int;
  }

  // ---------------------------------------------------------------- hex

  function HexValue(c: char): Option<nat> {
    if '0' <= c <= '9' then Some(c as int - '0' as int)
    else if 'a' <= c <= 'f' then Some(c as int - 'a' as int + 10)
    else None
  }

  function HexDigit(n: nat): (c: char)
    requires n < 16
    ensures HexValue(c) == Some(n)
  {
    if n < 10 then ('0' as int + n) as char else ('a' as int + n - 10) as char
  }

  /** Lowercase hex only; anything else is an error, never normalized. */
  function Unhex(s: string): (r: Option<Bytes>)
    ensures r.Some? ==> |s| == 2 * |r.value|
  {
    if s == [] then Some([])
    else if |s| == 1 then None
    else
      match (HexValue(s[0]), HexValue(s[1]), Unhex(s[2..]))
      case (Some(hi), Some(lo), Some(rest)) =>
        assert hi < 16 && lo < 16;
        Some([16 * hi + lo] + rest)
      case _ => None
  }

  function Hex(b: Bytes): (s: string)
    ensures |s| == 2 * |b|
  {
    if b == [] then [] else [HexDigit(b[0] / 16), HexDigit(b[0] % 16)] + Hex(b[1..])
  }

  lemma {:induction false} UnhexHex(b: Bytes)
    ensures Unhex(Hex(b)) == Some(b)
  {
    if b != [] {
      var s := Hex(b);
      assert s[2..] == Hex(b[1..]);
      assert s[0] == HexDigit(b[0] / 16) && s[1] == HexDigit(b[0] % 16);
      UnhexHex(b[1..]);
      assert b == [b[0]] + b[1..];
    }
  }

  lemma {:induction false} HexUnhex(s: string)
    requires Unhex(s).Some?
    ensures Hex(Unhex(s).value) == s
  {
    if s != [] {
      HexUnhex(s[2..]);
      HexOfValue(s[0]);
      HexOfValue(s[1]);
      assert s == [s[0], s[1]] + s[2..];
    }
  }

  lemma HexOfValue(c: char)
    requires HexValue(c).Some?
    ensures HexValue(c).value < 16 && HexDigit(HexValue(c).value) == c
  {
  }

  const HEX_DIGITS := "0123456789abcdef"

  /** This string spells these bytes, two digits each, the higher one first, in lower case. */
  ghost predicate Spells(s: string, b: Bytes) {
    |s| == 2 * |b| && forall i :: 0 <= i < |b| ==> s[2 * i] == HEX_DIGITS[b[i] / 16] && s[2 * i + 1] == HEX_DIGITS[b[i] % 16]
  }

  lemma {:induction false} HexSpells(b: Bytes)
    ensures Spells(Hex(b), b)
  {
    if b != [] {
      HexSpells(b[1..]);
      var s := Hex(b);
      assert s == [HexDigit(b[0] / 16), HexDigit(b[0] % 16)] + Hex(b[1..]);
      forall i | 0 <= i < |b| ensures s[2 * i] == HEX_DIGITS[b[i] / 16] && s[2 * i + 1] == HEX_DIGITS[b[i] % 16] {
        if i > 0 {
          assert b[i] == b[1..][i - 1] && s[2 * i] == Hex(b[1..])[2 * (i - 1)] && s[2 * i + 1] == Hex(b[1..])[2 * (i - 1) + 1];
        } else {
          DigitIs(b[0] / 16);
          DigitIs(b[0] % 16);
        }
      }
    }
  }

  lemma DigitIs(n: nat)
    requires n < 16
    ensures HexDigit(n) == HEX_DIGITS[n]
  {
  }

  /** Encoding gives the spelling, and decoding takes nothing else. */
  lemma HexIsSpelling(s: string, b: Bytes)
    ensures Hex(b) == s <==> Spells(s, b)
    ensures Unhex(s) == Some(b) <==> Spells(s, b)
  {
    hide *;
    HexSpells(b);
    UnhexHex(b);
    if Unhex(s).Some? { HexUnhex(s); }
    if Spells(s, b) { OneSpelling(s, Hex(b), b); }
  }

  lemma OneSpelling(s: string, s': string, b: Bytes)
    requires Spells(s, b) && Spells(s', b)
    ensures s == s'
  {
    forall k | 0 <= k < |s| ensures s[k] == s'[k] {
      var i := k / 2;
      assert s[2 * i] == s'[2 * i] && s[2 * i + 1] == s'[2 * i + 1];
    }
  }

  lemma HexInjective(a: Bytes, b: Bytes)
    requires Hex(a) == Hex(b)
    ensures a == b
  {
    UnhexHex(a);
    UnhexHex(b);
  }

  /** One spelling for every byte string. */
  lemma UnhexInjective(s: string, t: string)
    requires Unhex(s).Some? && Unhex(s) == Unhex(t)
    ensures s == t
  {
    HexUnhex(s);
    HexUnhex(t);
  }

  // ---------------------------------------------------------------- keys

  datatype TrustedKey = TrustedKey(keyId: string, role: string, ed25519: string, p256: string)

  /** `threshold` as JSON may state it; the Rust parser takes a byte and refuses anything larger, where
      validation would refuse it too. */
  datatype TrustRoot = TrustRoot(threshold: nat, sigalgs: seq<SigAlg>, keys: seq<TrustedKey>)

  const MAX_TRUST_ROOT_KEYS := 16

  /** `unhex_array::<n>` */
  function Field(s: string, n: nat): (r: Option<Bytes>)
    ensures r.Some? ==> |r.value| == n
  {
    match Unhex(s)
    case Some(b) => if |b| == n then Some(b) else None
    case None => None
  }

  function KeyIdBytes(k: TrustedKey): Option<Bytes> { Field(k.keyId, 8) }

  function Ed25519Bytes(k: TrustedKey): Option<Bytes> { Field(k.ed25519, 32) }

  function P256Bytes(k: TrustedKey): Option<Bytes> {
    match Field(k.p256, 65)
    case Some(b) => if b[0] == 4 then Some(b) else None
    case None => None
  }

  function PublicBytes(k: TrustedKey, alg: SigAlg): Option<Bytes> {
    match alg
    case Ed25519 => Ed25519Bytes(k)
    case P256 => P256Bytes(k)
  }

  /** Eight bytes of a hash over both public keys. */
  function DeriveKeyId(p: Primitives, ed: Bytes, p256: Bytes): KeyId {
    p.sha256(PREFIX_KEYID + ed + p256)[..8]
  }

  ghost predicate ValidKey(p: Primitives, k: TrustedKey) {
    && KeyIdBytes(k).Some? && Ed25519Bytes(k).Some? && P256Bytes(k).Some?
    && KeyIdBytes(k).value == DeriveKeyId(p, Ed25519Bytes(k).value, P256Bytes(k).value)
  }

  function Rank(a: SigAlg): nat { if a == Ed25519 then 0 else 1 }

  /** ed25519 before p256, no duplicates, not empty. */
  predicate CanonicalAlgs(algs: seq<SigAlg>) {
    algs != [] && forall i :: 0 < i < |algs| ==> Rank(algs[i - 1]) < Rank(algs[i])
  }

  predicate KeyBefore(a: TrustedKey, b: TrustedKey) {
    && KeyIdBytes(a).Some? && KeyIdBytes(b).Some?
    && Compare(KeyIdBytes(a).value, KeyIdBytes(b).value) < 0
  }

  predicate KeysAscend(keys: seq<TrustedKey>) {
    forall i :: 0 < i < |keys| ==> KeyBefore(keys[i - 1], keys[i])
  }

  /** What a trust root must meet to be used at all. */
  ghost predicate ValidRoot(p: Primitives, root: TrustRoot) {
    && 1 <= |root.keys| <= MAX_TRUST_ROOT_KEYS
    && 1 <= root.threshold <= |root.keys|
    && CanonicalAlgs(root.sigalgs)
    && (forall i :: 0 <= i < |root.keys| ==> ValidKey(p, root.keys[i]))
    && KeysAscend(root.keys)
  }

  datatype RootError =
    | KeyCount | ThresholdRange | NoAlgs | AlgsNotCanonical
    | BadEd25519 | BadP256 | BadKeyId | KeyIdMismatch | KeysNotSorted

  /** The validator: range checks, then one pass over the keys with a running `prev`. */
  method Validate(p: Primitives, root: TrustRoot) returns (r: Option<RootError>)
    ensures r.None? <==> ValidRoot(p, root)
    ensures r == Some(KeyCount) <==> !(1 <= |root.keys| <= MAX_TRUST_ROOT_KEYS)
    ensures r == Some(ThresholdRange) <==>
      1 <= |root.keys| <= MAX_TRUST_ROOT_KEYS && !(1 <= root.threshold <= |root.keys|)
  {
    if root.keys == [] || |root.keys| > MAX_TRUST_ROOT_KEYS { return Some(KeyCount); }
    if root.threshold < 1 || root.threshold > |root.keys| { return Some(ThresholdRange); }
    if root.sigalgs == [] { return Some(NoAlgs); }
    if exists i :: 0 < i < |root.sigalgs| && Rank(root.sigalgs[i - 1]) >= Rank(root.sigalgs[i]) {
      return Some(AlgsNotCanonical);
    }
    r := CheckKeys(p, root.keys);
  }

  /** The pass over the keys: each well-formed, each identity re-derived, each above `prev`. */
  method CheckKeys(p: Primitives, keys: seq<TrustedKey>) returns (r: Option<RootError>)
    ensures r.None? <==> (forall i :: 0 <= i < |keys| ==> ValidKey(p, keys[i])) && KeysAscend(keys)
    ensures r.Some? ==> r.value in {BadEd25519, BadP256, BadKeyId, KeyIdMismatch, KeysNotSorted}
  {
    hide ValidKey, KeyIdBytes;
    var prev: Option<Bytes> := None;
    for i := 0 to |keys|
      invariant prev == if i == 0 then None else KeyIdBytes(keys[i - 1])
      invariant forall j :: 0 <= j < i ==> ValidKey(p, keys[j]) && KeyIdBytes(keys[j]).Some?
      invariant forall j :: 0 < j < i ==> KeyBefore(keys[j - 1], keys[j])
    {
      r := CheckKey(p, keys[i], prev);
      if r.Some? {
        if KeysAscend(keys) && i > 0 { assert KeyBefore(keys[i - 1], keys[i]); }
        return r;
      }
      prev := KeyIdBytes(keys[i]);
    }
    return None;
  }

  method CheckKey(p: Primitives, k: TrustedKey, prev: Option<Bytes>) returns (r: Option<RootError>)
    ensures ValidKey(p, k) ==> KeyIdBytes(k).Some?
    ensures r.None? <==> ValidKey(p, k) && KeyIdBytes(k).Some? && (prev.Some? ==> Compare(prev.value, KeyIdBytes(k).value) < 0)
    ensures r.Some? ==> r.value in {BadEd25519, BadP256, BadKeyId, KeyIdMismatch, KeysNotSorted}
  {
    var ed := Ed25519Bytes(k);
    if ed.None? { return Some(BadEd25519); }
    var p256 := P256Bytes(k);
    if p256.None? { return Some(BadP256); }
    var stated := KeyIdBytes(k);
    if stated.None? { return Some(BadKeyId); }
    if stated.value != DeriveKeyId(p, ed.value, p256.value) { return Some(KeyIdMismatch); }
    if prev.Some? {
      CompareReverse(stated.value, prev.value);
      if Compare(stated.value, prev.value) <= 0 { return Some(KeysNotSorted); }
    }
    return None;
  }

  // ---------------------------------------------------------------- binary identity

  /** Every field is hex of its fixed length. */
  predicate CanonicalFields(k: TrustedKey) {
    Field(k.keyId, 8).Some? && Field(k.ed25519, 32).Some? && Field(k.p256, 65).Some?
  }

  function KeyMaterial(k: TrustedKey): (r: Bytes)
    requires CanonicalFields(k)
    ensures |r| == 105
  {
    Field(k.keyId, 8).value + Field(k.ed25519, 32).value + Field(k.p256, 65).value
  }

  function KeysMaterial(keys: seq<TrustedKey>): (r: Bytes)
    requires forall k :: k in keys ==> CanonicalFields(k)
    ensures |r| == 105 * |keys|
  {
    if keys == [] then [] else KeyMaterial(keys[0]) + KeysMaterial(keys[1..])
  }

  function Mask(algs: seq<SigAlg>): byte {
    (if Ed25519 in algs then 1 else 0) + (if P256 in algs then 2 else 0)
  }

  function RootMaterial(root: TrustRoot): Bytes
    requires forall k :: k in root.keys ==> CanonicalFields(k)
  {
    [root.threshold % 256, |root.keys| % 256, Mask(root.sigalgs)] + KeysMaterial(root.keys)
  }

  /** A key whose encoding the Rust side accepts: canonical, and an uncompressed point. */
  predicate Encodable(k: TrustedKey) {
    CanonicalFields(k) && P256Bytes(k).Some?
  }

  function RootBytes(root: TrustRoot): Option<Bytes> {
    if forall k :: k in root.keys ==> Encodable(k) then Some(RootMaterial(root)) else None
  }

  lemma {:induction false} MaterialAppend(keys: seq<TrustedKey>, k: TrustedKey)
    requires CanonicalFields(k) && forall x :: x in keys ==> CanonicalFields(x)
    ensures KeysMaterial(keys + [k]) == KeysMaterial(keys) + KeyMaterial(k)
  {
    if keys == [] {
      assert [k][1..] == [];
    } else {
      assert (keys + [k])[1..] == keys[1..] + [k];
      MaterialAppend(keys[1..], k);
    }
  }

  method FoldMask(algs: seq<SigAlg>) returns (mask: byte)
    ensures mask == Mask(algs)
  {
    mask := 0;
    for i := 0 to |algs|
      invariant mask == Mask(algs[..i])
    {
      assert algs[..i + 1] == algs[..i] + [algs[i]];
      // mask | bit
      if algs[i] == Ed25519 {
        mask := if mask % 2 == 0 then mask + 1 else mask;
      } else {
        mask := if mask / 2 == 0 then mask + 2 else mask;
      }
    }
    assert algs[..|algs|] == algs;
  }

  lemma NothingMaterial()
    ensures KeysMaterial([]) == []
  {
  }

  lemma EncodableBy(k: TrustedKey)
    ensures Encodable(k) <==> KeyIdBytes(k).Some? && Ed25519Bytes(k).Some? && P256Bytes(k).Some?
    ensures Encodable(k) ==>
      CanonicalFields(k) && KeyMaterial(k) == KeyIdBytes(k).value + Ed25519Bytes(k).value + P256Bytes(k).value
  {
    hide Unhex;
  }

  /** `tr_bytes`: a mask fold and one appended buffer, failing on the first bad field. */
  method TrBytes(root: TrustRoot) returns (r: Option<Bytes>)
    ensures r == RootBytes(root)
  {
    hide Mask, KeyIdBytes, Ed25519Bytes, P256Bytes, Field, KeyMaterial, KeysMaterial;
    var mask := FoldMask(root.sigalgs);
    NothingMaterial();
    var head: Bytes := [root.threshold % 256, |root.keys| % 256, mask];
    var out: Bytes := head;
    for i := 0 to |root.keys|
      invariant forall k :: k in root.keys[..i] ==> Encodable(k)
      invariant out == head + KeysMaterial(root.keys[..i])
    {
      var k := root.keys[i];
      assert k in root.keys;
      EncodableBy(k);
      var kid, ed, p256 := KeyIdBytes(k), Ed25519Bytes(k), P256Bytes(k);
      if kid.None? || ed.None? || p256.None? { return None; }
      MaterialAppend(root.keys[..i], k);
      assert root.keys[..i + 1] == root.keys[..i] + [k];
      out := out + (kid.value + ed.value + p256.value);
    }
    assert root.keys[..|root.keys|] == root.keys;
    return Some(out);
  }

  function RootId(p: Primitives, root: TrustRoot): Option<Digest> {
    match RootBytes(root)
    case Some(b) => Some(p.sha256(PREFIX_TRUSTROOT + b))
    case None => None
  }

  function IdHex(p: Primitives, root: TrustRoot): Option<string> {
    match RootId(p, root)
    case Some(d) => Some(Hex(d))
    case None => None
  }

  /** Equal in everything but the advisory role. */
  predicate SameKey(a: TrustedKey, b: TrustedKey) {
    a.keyId == b.keyId && a.ed25519 == b.ed25519 && a.p256 == b.p256
  }

  predicate SameKeys(a: seq<TrustedKey>, b: seq<TrustedKey>) {
    |a| == |b| && forall i :: 0 <= i < |a| ==> SameKey(a[i], b[i])
  }

  lemma KeyMaterialInjective(a: TrustedKey, b: TrustedKey)
    requires CanonicalFields(a) && CanonicalFields(b) && KeyMaterial(a) == KeyMaterial(b)
    ensures SameKey(a, b)
  {
    var m, n := KeyMaterial(a), KeyMaterial(b);
    assert m[..8] == Field(a.keyId, 8).value && n[..8] == Field(b.keyId, 8).value;
    assert m[8..40] == Field(a.ed25519, 32).value && n[8..40] == Field(b.ed25519, 32).value;
    assert m[40..] == Field(a.p256, 65).value && n[40..] == Field(b.p256, 65).value;
    UnhexInjective(a.keyId, b.keyId);
    UnhexInjective(a.ed25519, b.ed25519);
    UnhexInjective(a.p256, b.p256);
  }

  lemma {:induction false} KeysMaterialInjective(a: seq<TrustedKey>, b: seq<TrustedKey>)
    requires (forall k :: k in a ==> CanonicalFields(k)) && (forall k :: k in b ==> CanonicalFields(k))
    requires KeysMaterial(a) == KeysMaterial(b)
    ensures SameKeys(a, b)
  {
    assert |a| == |b|;
    if a != [] {
      var m, n := KeysMaterial(a), KeysMaterial(b);
      assert m[..105] == KeyMaterial(a[0]) && n[..105] == KeyMaterial(b[0]);
      assert m[105..] == KeysMaterial(a[1..]) && n[105..] == KeysMaterial(b[1..]);
      KeyMaterialInjective(a[0], b[0]);
      KeysMaterialInjective(a[1..], b[1..]);
      forall i | 0 <= i < |a| ensures SameKey(a[i], b[i]) {
        if i > 0 { assert a[i] == a[1..][i - 1] && b[i] == b[1..][i - 1]; }
      }
    }
  }

  /** The encoding fixes threshold, key sequence and the set of algorithms, even of roots
      that were never validated and even though the key count is truncated to a byte; a threshold
      that is not a byte to begin with is fixed as truncated. */
  lemma MaterialInjective(a: TrustRoot, b: TrustRoot)
    requires (forall k :: k in a.keys ==> CanonicalFields(k)) && (forall k :: k in b.keys ==> CanonicalFields(k))
    requires RootMaterial(a) == RootMaterial(b)
    ensures a.threshold % 256 == b.threshold % 256 && SameKeys(a.keys, b.keys)
    ensures a.threshold < 256 && b.threshold < 256 ==> a.threshold == b.threshold
    ensures forall alg :: alg in a.sigalgs <==> alg in b.sigalgs
  {
    var m, n := RootMaterial(a), RootMaterial(b);
    assert m[0] == a.threshold % 256 && n[0] == b.threshold % 256;
    assert m[2] == Mask(a.sigalgs) && n[2] == Mask(b.sigalgs);
    assert m[3..] == KeysMaterial(a.keys) && n[3..] == KeysMaterial(b.keys);
    KeysMaterialInjective(a.keys, b.keys);
    forall alg ensures alg in a.sigalgs <==> alg in b.sigalgs {
      match alg case Ed25519 => case P256 =>
    }
  }

  /** A canonical algorithm list is determined by its members. */
  lemma CanonicalAlgsUnique(a: seq<SigAlg>, b: seq<SigAlg>)
    requires CanonicalAlgs(a) && CanonicalAlgs(b)
    requires forall alg :: alg in a <==> alg in b
    ensures a == b
  {
    CanonicalAlgsShape(a);
    CanonicalAlgsShape(b);
    assert Ed25519 in a <==> Ed25519 in b;
    assert P256 in a <==> P256 in b;
  }

  lemma {:induction false} RankGrows(a: seq<SigAlg>, i: nat)
    requires CanonicalAlgs(a) && i < |a|
    ensures Rank(a[i]) >= i
  {
    if i > 0 { RankGrows(a, i - 1); }
  }

  lemma CanonicalAlgsShape(a: seq<SigAlg>)
    requires CanonicalAlgs(a)
    ensures a == [Ed25519] || a == [P256] || a == [Ed25519, P256]
  {
    RankGrows(a, |a| - 1);
    if |a| == 2 {
      assert Rank(a[0]) < Rank(a[1]);
      assert a == [a[0], a[1]];
    } else {
      assert a == [a[0]] && (a[0] == Ed25519 || a[0] == P256);
    }
  }

  lemma ValidIsEncodable(p: Primitives, root: TrustRoot)
    requires ValidRoot(p, root)
    ensures forall k :: k in root.keys ==> Encodable(k)
  {
  }

  /** Equal bytes of two validated roots force equal roots, up to the role field. */
  lemma RootBytesInjective(p: Primitives, a: TrustRoot, b: TrustRoot)
    requires ValidRoot(p, a) && ValidRoot(p, b)
    requires RootBytes(a) == RootBytes(b)
    ensures a.threshold == b.threshold && a.sigalgs == b.sigalgs && SameKeys(a.keys, b.keys)
  {
    ValidIsEncodable(p, a);
    ValidIsEncodable(p, b);
    MaterialInjective(a, b);
    CanonicalAlgsUnique(a.sigalgs, b.sigalgs);
  }

  lemma KeyValidityFollows(p: Primitives, a: seq<TrustedKey>, b: seq<TrustedKey>)
    requires SameKeys(a, b)
    ensures (forall i :: 0 <= i < |a| ==> ValidKey(p, a[i])) ==> (forall i :: 0 <= i < |b| ==> ValidKey(p, b[i]))
    ensures KeysAscend(a) ==> KeysAscend(b)
  {
    if forall i :: 0 <= i < |a| ==> ValidKey(p, a[i]) {
      forall i | 0 <= i < |b| ensures ValidKey(p, b[i]) {
        assert SameKey(a[i], b[i]) && ValidKey(p, a[i]);
      }
    }
    if KeysAscend(a) {
      forall i | 0 < i < |b| ensures KeyBefore(b[i - 1], b[i]) {
        assert SameKey(a[i - 1], b[i - 1]) && SameKey(a[i], b[i]) && KeyBefore(a[i - 1], a[i]);
      }
    }
  }

  /** Validity looks at nothing the encoding leaves out, except the order of the algorithms and a
      threshold beyond a byte. */
  lemma ValidityFollowsMaterial(p: Primitives, a: TrustRoot, b: TrustRoot)
    requires ValidRoot(p, a)
    requires (forall k :: k in b.keys ==> CanonicalFields(k)) && (forall k :: k in a.keys ==> CanonicalFields(k))
    requires RootMaterial(a) == RootMaterial(b)
    ensures ValidRoot(p, b) <==> CanonicalAlgs(b.sigalgs) && b.threshold < 256
  {
    MaterialInjective(a, b);
    KeyValidityFollows(p, a.keys, b.keys);
  }
}
