/**
 * The key codec: a table key is a `u64` stored as its 8-byte big-endian
 * representation (`key_bytes`), read back with `u64::from_be_bytes` on the
 * first 8 bytes of a store key. The store orders keys as Rust orders byte
 * slices (`LexLess`); big-endian encoding makes that order the numeric one.
 */
module KeyCodec {

  /** An unsigned byte, Rust's `u8`. */
  newtype u8 = x: int | 0 <= x < 256

  type Bytes = seq<u8>

  const U64_LIMIT: int := 0x1_0000_0000_0000_0000

  /** Rust's `u64`. */
  type u64 = x: int | 0 <= x < U64_LIMIT

  /** Width in bytes of an encoded key. */
  const KEY_WIDTH: nat := 8

  function Pow256(n: nat): (p: nat)
    ensures p > 0
  {
    if n == 0 then 1 else 256 * Pow256(n - 1)
  }

  lemma Pow256KeyWidth()
    ensures Pow256(KEY_WIDTH) == U64_LIMIT
  {
  }

  /** Unsigned value of a byte string read most significant byte first. */
  function BeValue(b: Bytes): (v: nat)
    ensures v < Pow256(|b|)
  {
    if b == [] then 0 else BeValue(b[..|b| - 1]) * 256 + b[|b| - 1] as nat
  }

  /** The `n`-byte big-endian representation of `x`. */
  function BeBytes(x: nat, n: nat): (b: Bytes)
    requires x < Pow256(n)
    ensures |b| == n
  {
    if n == 0 then [] else BeBytes(x / 256, n - 1) + [(x % 256) as u8]
  }

  /** `key_bytes`: `key.to_be_bytes()`. */
  function KeyBytes(key: u64): (b: Bytes)
    ensures |b| == KEY_WIDTH
  {
    Pow256KeyWidth();
    BeBytes(key, KEY_WIDTH)
  }

  /** `u64::from_be_bytes` on exactly 8 bytes. */
  function FromBeBytes(b: Bytes): (key: u64)
    requires |b| == KEY_WIDTH
    ensures KeyBytes(key) == b
  {
    Pow256KeyWidth();
    BeBytesOfBeValue(b);
    BeValue(b)
  }

  /** `u64::from_be_bytes(array_ref!(k, 0, 8))`: the key held in the first 8 bytes of a store key. */
  function DecodeKey(k: Bytes): (key: u64)
    requires |k| >= KEY_WIDTH
    ensures KeyBytes(key) == k[..KEY_WIDTH]
  {
    FromBeBytes(k[..KEY_WIDTH])
  }

  lemma {:induction false} BeValueOfBeBytes(x: nat, n: nat)
    requires x < Pow256(n)
    ensures BeValue(BeBytes(x, n)) == x
  {
    if n > 0 {
      BeValueOfBeBytes(x / 256, n - 1);
      var b := BeBytes(x, n);
      assert b[..n - 1] == BeBytes(x / 256, n - 1);
    }
  }

  lemma {:induction false} BeBytesOfBeValue(b: Bytes)
    ensures BeBytes(BeValue(b), |b|) == b
  {
    if b != [] {
      var n := |b|;
      BeBytesOfBeValue(b[..n - 1]);
      assert BeValue(b) / 256 == BeValue(b[..n - 1]);
      assert BeValue(b) % 256 == b[n - 1] as nat;
      assert b == b[..n - 1] + [b[n - 1]];
    }
  }

  lemma BeValueInjective(a: Bytes, b: Bytes)
    requires |a| == |b| && BeValue(a) == BeValue(b)
    ensures a == b
  {
    BeBytesOfBeValue(a);
    BeBytesOfBeValue(b);
  }

  /** Decoding an encoded key gives the key back. */
  lemma KeyRoundTrip(key: u64)
    ensures FromBeBytes(KeyBytes(key)) == key
  {
    Pow256KeyWidth();
    BeValueOfBeBytes(key, KEY_WIDTH);
  }

  /** Distinct keys have distinct encodings. */
  lemma KeyBytesInjective(k1: u64, k2: u64)
    requires KeyBytes(k1) == KeyBytes(k2)
    ensures k1 == k2
  {
    KeyRoundTrip(k1);
    KeyRoundTrip(k2);
  }

  /**
   * Rust's `Ord` on byte slices: the first differing byte decides, and a
   * proper prefix comes first.
   */
  predicate LexLess(a: Bytes, b: Bytes)
  {
    if a == [] then b != []
    else b != [] && (a[0] < b[0] || (a[0] == b[0] && LexLess(a[1..], b[1..])))
  }

  lemma {:induction false} LexIrreflexive(a: Bytes)
    ensures !LexLess(a, a)
  {
    if a != [] {
      LexIrreflexive(a[1..]);
    }
  }

  lemma {:induction false} LexTransitive(a: Bytes, b: Bytes, c: Bytes)
    requires LexLess(a, b) && LexLess(b, c)
    ensures LexLess(a, c)
  {
    if a != [] && a[0] == b[0] && b[0] == c[0] {
      LexTransitive(a[1..], b[1..], c[1..]);
    }
  }

  lemma {:induction false} LexTotal(a: Bytes, b: Bytes)
    requires a != b
    ensures LexLess(a, b) || LexLess(b, a)
  {
    if a != [] && b != [] && a[0] == b[0] {
      assert a == [a[0]] + a[1..] && b == [b[0]] + b[1..];
      LexTotal(a[1..], b[1..]);
    }
  }

  lemma {:induction false} LexAsymmetric(a: Bytes, b: Bytes)
    requires LexLess(a, b)
    ensures !LexLess(b, a)
  {
    if a != [] && a[0] == b[0] {
      LexAsymmetric(a[1..], b[1..]);
    }
  }

  /** For strings of one length, the order read from the last byte backwards. */
  lemma {:induction false} LexLessSnoc(a: Bytes, b: Bytes)
    requires |a| == |b| > 0
    ensures var n := |a|;
      LexLess(a, b) <==>
        LexLess(a[..n - 1], b[..n - 1]) || (a[..n - 1] == b[..n - 1] && a[n - 1] < b[n - 1])
  {
    var n := |a|;
    if n == 1 {
      assert a[1..] == [] && b[1..] == [];
      assert a[..0] == [] && b[..0] == [];
    } else {
      var a', b' := a[1..], b[1..];
      LexLessSnoc(a', b');
      assert a[..n - 1][1..] == a'[..n - 2];
      assert b[..n - 1][1..] == b'[..n - 2];
      assert a[..n - 1] == [a[0]] + a'[..n - 2];
      assert b[..n - 1] == [b[0]] + b'[..n - 2];
      assert a'[n - 2] == a[n - 1] && b'[n - 2] == b[n - 1];
    }
  }

  /** Byte order and numeric order agree on strings of one length. */
  lemma {:induction false} LexLessIsValueLess(a: Bytes, b: Bytes)
    requires |a| == |b|
    ensures LexLess(a, b) <==> BeValue(a) < BeValue(b)
  {
    if |a| > 0 {
      var n := |a|;
      LexLessSnoc(a, b);
      LexLessIsValueLess(a[..n - 1], b[..n - 1]);
      if BeValue(a[..n - 1]) == BeValue(b[..n - 1]) {
        BeValueInjective(a[..n - 1], b[..n - 1]);
      }
    }
  }

  /** Numeric key order is the store's byte order on encoded keys. */
  lemma KeyOrder(k1: u64, k2: u64)
    ensures k1 < k2 <==> LexLess(KeyBytes(k1), KeyBytes(k2))
  {
    KeyRoundTrip(k1);
    KeyRoundTrip(k2);
    LexLessIsValueLess(KeyBytes(k1), KeyBytes(k2));
  }

  /** The same, seen from the decoding side. */
  lemma DecodedKeyOrder(a: Bytes, b: Bytes)
    requires |a| == KEY_WIDTH && |b| == KEY_WIDTH
    ensures LexLess(a, b) <==> DecodeKey(a) < DecodeKey(b)
  {
    assert a[..KEY_WIDTH] == a && b[..KEY_WIDTH] == b;
    LexLessIsValueLess(a, b);
  }
}
