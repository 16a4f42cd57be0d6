/**
 Machine words, bit operations on them, and byte strings read as big-endian
 numbers.  Every other module of the model builds on these definitions.
 */
module Words {

  import opened Arithmetic

  const U32_MOD: nat := 0x1_0000_0000
  const U64_MOD: nat := 0x1_0000_0000_0000_0000
  const U128_MOD: nat := 0x1_0000_0000_0000_0000_0000_0000_0000_0000
  const U64_MAX: nat := U64_MOD - 1
  const U128_MAX: nat := U128_MOD - 1

  type Byte = b: nat | b < 256
  type u32 = n: nat | n < U32_MOD
  type u64 = n: nat | n < U64_MOD
  type u128 = n: nat | n < U128_MOD

  function Min(a: nat, b: nat): (m: nat)
    ensures m <= a && m <= b && (m == a || m == b)
  {
    if a <= b then a else b
  }

  function Max(a: nat, b: nat): (m: nat)
    ensures a <= m && b <= m && (m == a || m == b)
  {
    if a <= b then b else a
  }

  /** `u128::saturating_add`. */
  function SatAdd128(a: u128, b: u128): u128 {
    if a + b < U128_MOD then a + b else U128_MAX
  }

  /** `u64::saturating_mul`. */
  function SatMul64(a: u64, b: nat): u64 {
    if a * b < U64_MOD then a * b else U64_MAX
  }

  /** Adding one to a u64, wrapping; also `fetch_add(1)` on an AtomicU64. */
  function Increment(n: u64): u64 {
    if n == U64_MAX then 0 else n + 1
  }

  // ---------------------------------------------------------------- powers of two

  function Pow2(k: nat): (p: nat)
    ensures p > 0
  {
    if k == 0 then 1 else 2 * Pow2(k - 1)
  }

  lemma {:induction false} Pow2Add(a: nat, b: nat)
    ensures Pow2(a + b) == Pow2(a) * Pow2(b)
  {
    if a == 0 {
    } else {
      Pow2Add(a - 1, b);
      assert Pow2(a + b) == 2 * Pow2(a - 1 + b);
      assert 2 * (Pow2(a - 1) * Pow2(b)) == (2 * Pow2(a - 1)) * Pow2(b);
    }
  }

  lemma {:induction false} Pow2Mono(a: nat, b: nat)
    requires a <= b
    ensures Pow2(a) <= Pow2(b)
    decreases b
  {
    if a < b {
      Pow2Mono(a, b - 1);
    }
  }

  lemma Pow2Strict(a: nat, b: nat)
    requires a < b
    ensures Pow2(a) < Pow2(b)
  {
    Pow2Mono(a, b - 1);
  }

  lemma Pow2Double(k: nat, v: nat)
    requires Pow2(k) == v
    ensures Pow2(k + k) == v * v
  {
    Pow2Add(k, k);
  }

  lemma Pow2Byte()
    ensures Pow2(8) == 256
  {
  }

  lemma Pow2HalfWord()
    ensures Pow2(32) == U32_MOD
  {
    Pow2Double(8, 256);
    Pow2Double(16, 0x1_0000);
  }

  lemma Pow2Word()
    ensures Pow2(64) == U64_MOD
  {
    Pow2HalfWord();
    Pow2Double(32, U32_MOD);
  }

  lemma Pow2Limb()
    ensures Pow2(128) == U128_MOD
  {
    Pow2Word();
    Pow2Double(64, U64_MOD);
  }

  lemma Pow2Hash()
    ensures Pow2(512) == U128_MOD * U128_MOD * U128_MOD * U128_MOD
  {
    Pow2Limb();
    Pow2Double(128, U128_MOD);
    Pow2Double(256, U128_MOD * U128_MOD);
  }

  /** `u64::ilog2`, and the model of `(d as f64).log2() as u32`. */
  function FloorLog2(n: nat): (k: nat)
    requires n > 0
    ensures Pow2(k) <= n < Pow2(k + 1)
  {
    if n == 1 then 0 else FloorLog2(n / 2) + 1
  }

  lemma FloorLog2Unique(n: nat, k: nat)
    requires n > 0 && Pow2(k) <= n < Pow2(k + 1)
    ensures FloorLog2(n) == k
  {
    var j := FloorLog2(n);
    if j < k { Pow2Mono(j + 1, k); }
    if k < j { Pow2Mono(k + 1, j); }
  }

  lemma FloorLog2Mono(a: nat, b: nat)
    requires 0 < a <= b
    ensures FloorLog2(a) <= FloorLog2(b)
  {
    if FloorLog2(b) < FloorLog2(a) {
      Pow2Mono(FloorLog2(b) + 1, FloorLog2(a));
    }
  }

  lemma FloorLog2OfU64(d: nat)
    requires 0 < d < U64_MOD
    ensures FloorLog2(d) <= 63
  {
    Pow2Word();
    if FloorLog2(d) >= 64 { Pow2Mono(64, FloorLog2(d)); }
  }

  // ---------------------------------------------------------------- bit operations

  /** `x << k` on a 128-bit word: the bits shifted out are lost. */
  function Shl128(x: u128, k: nat): u128 {
    (x * Pow2(k)) % U128_MOD
  }

  /** `x >> k`. */
  function Shr(x: nat, k: nat): nat {
    var p := Pow2(k); DivMod(x, p); x / p
  }

  function BitOr(x: nat, y: nat): nat
    decreases x + y
  {
    if x == 0 then y
    else if y == 0 then x
    else 2 * BitOr(x / 2, y / 2) + (if x % 2 == 1 || y % 2 == 1 then 1 else 0)
  }

  function BitAnd(x: nat, y: nat): nat
    decreases x + y
  {
    if x == 0 || y == 0 then 0
    else 2 * BitAnd(x / 2, y / 2) + (if x % 2 == 1 && y % 2 == 1 then 1 else 0)
  }

  /** Or-ing into an even number only adds the last bit. */
  lemma OrEven(q: nat, y: nat)
    ensures BitOr(2 * q, y) == 2 * BitOr(q, y / 2) + y % 2
  {
    var x := 2 * q;
    assert x / 2 == q && x % 2 == 0;
    if q == 0 {
      assert BitOr(0, y / 2) == y / 2;
    } else if y == 0 {
      assert BitOr(q, 0) == q;
    }
  }

  /** Or-ing a low half into a word whose low half is clear is addition. */
  lemma {:induction false} OrDisjoint(hi: nat, lo: nat, k: nat)
    requires lo < Pow2(k)
    ensures BitOr(hi * Pow2(k), lo) == hi * Pow2(k) + lo
    decreases k
  {
    if k > 0 {
      var p := Pow2(k - 1);
      Associate(2, p, hi);
      OrDisjoint(hi, lo / 2, k - 1);
      OrEven(hi * p, lo);
    }
  }

  /** And-ing with an all-ones low mask keeps the low bits. */
  lemma {:induction false} AndLowMask(x: nat, k: nat)
    ensures BitAnd(x, Pow2(k) - 1) == x % Pow2(k)
    decreases k
  {
    if k > 0 {
      AndLowMask(x / 2, k - 1);
      LowBits(x, Pow2(k - 1));
      AndOdd(x, Pow2(k - 1));
    }
  }

  lemma AndOdd(x: nat, p: nat)
    requires p > 0
    ensures BitAnd(x, 2 * p - 1) == 2 * BitAnd(x / 2, p - 1) + x % 2
  {
    assert (2 * p - 1) / 2 == p - 1 && (2 * p - 1) % 2 == 1;
  }

  lemma LowBits(x: nat, p: nat)
    requires p > 0
    ensures x % (2 * p) == 2 * (x / 2 % p) + x % 2
  {
    var q := x / 2 / p;
    DivMod(x / 2, p);
    Associate(q, 2, p);
    assert x == q * (2 * p) + (2 * (x / 2 % p) + x % 2);
    DivUnique(x, 2 * p, q, 2 * (x / 2 % p) + x % 2);
  }

  // ---------------------------------------------------------------- byte strings

  /** The number a byte string denotes, most significant byte first. */
  ghost function BE(s: seq<Byte>): nat {
    if s == [] then 0 else s[0] * Pow2(8 * (|s| - 1)) + BE(s[1..])
  }

  lemma {:induction false} BEBound(s: seq<Byte>)
    ensures BE(s) < Pow2(8 * |s|)
  {
    if s != [] {
      BEBound(s[1..]);
      var n := 8 * (|s| - 1);
      Pow2Add(8, n);
      Pow2Byte();
      MulMono(s[0], 255, Pow2(n));
    }
  }

  lemma {:induction false} BEConcat(a: seq<Byte>, b: seq<Byte>)
    ensures BE(a + b) == BE(a) * Pow2(8 * |b|) + BE(b)
  {
    if a == [] {
      assert a + b == b;
    } else {
      assert (a + b)[1..] == a[1..] + b;
      BEConcat(a[1..], b);
      var m, n := 8 * (|a| - 1), 8 * |b|;
      assert 8 * (|a + b| - 1) == m + n;
      Pow2Add(m, n);
      Associate(a[0], Pow2(m), Pow2(n));
      Distribute(a[0] * Pow2(m), BE(a[1..]), Pow2(n));
    }
  }

  /** `&[u8] <= &[u8]`: lexicographic, a proper prefix being smaller. */
  predicate SliceLe(a: seq<Byte>, b: seq<Byte>) {
    if a == [] then true
    else if b == [] then false
    else a[0] < b[0] || (a[0] == b[0] && SliceLe(a[1..], b[1..]))
  }

  /** The first difference decides; without one the shorter string is the smaller. */
  lemma {:induction false} SliceLeIff(a: seq<Byte>, b: seq<Byte>)
    ensures SliceLe(a, b) <==>
      a <= b || exists i :: 0 <= i < |a| && i < |b| && a[..i] == b[..i] && a[i] < b[i]
  {
    if a != [] && b != [] {
      if a[0] == b[0] {
        SliceLeIff(a[1..], b[1..]);
        SameHead(a, b);
      } else if a[0] < b[0] {
        assert a[..0] == b[..0];
      }
    }
  }

  /** Below a common first byte nothing changes. */
  lemma SameHead(a: seq<Byte>, b: seq<Byte>)
    requires a != [] && b != [] && a[0] == b[0]
    ensures a <= b <==> a[1..] <= b[1..]
    ensures (exists i :: 0 <= i < |a| && i < |b| && a[..i] == b[..i] && a[i] < b[i]) <==>
      exists i :: 0 <= i < |a| - 1 && i < |b| - 1 && a[1..][..i] == b[1..][..i] && a[1..][i] < b[1..][i]
  {
    assert a == [a[0]] + a[1..] && b == [b[0]] + b[1..];
    if i :| 0 <= i < |a| && i < |b| && a[..i] == b[..i] && a[i] < b[i] {
      assert i > 0 && a[1..][..i - 1] == a[..i][1..] && b[1..][..i - 1] == b[..i][1..];
      assert a[1..][i - 1] < b[1..][i - 1];
    }
    if i :| 0 <= i < |a| - 1 && i < |b| - 1 && a[1..][..i] == b[1..][..i] && a[1..][i] < b[1..][i] {
      assert a[..i + 1] == [a[0]] + a[1..][..i] && b[..i + 1] == [b[0]] + b[1..][..i];
      assert a[i + 1] < b[i + 1];
    }
  }

  /** On byte strings of one length, lexicographic order is numeric order. */
  lemma {:induction false} LexIsNumeric(a: seq<Byte>, b: seq<Byte>)
    requires |a| == |b|
    ensures SliceLe(a, b) <==> BE(a) <= BE(b)
  {
    if a != [] {
      LexIsNumeric(a[1..], b[1..]);
      BEBound(a[1..]);
      BEBound(b[1..]);
      LeadingDigitDecides(a[0], b[0], Pow2(8 * (|a| - 1)), BE(a[1..]), BE(b[1..]));
    }
  }

  /** Two-digit numbers compare by the leading digit first. */
  lemma LeadingDigitDecides(a: nat, b: nat, p: nat, x: nat, y: nat)
    requires x < p && y < p
    ensures a * p + x <= b * p + y <==> a < b || (a == b && x <= y)
  {
    if a < b {
      MulMono(a + 1, b, p);
      Distribute(a, 1, p);
    } else if b < a {
      MulMono(b + 1, a, p);
      Distribute(b, 1, p);
    }
  }

  /** `n` bytes all equal to `b`, the shape of `vec![b; n]`. */
  function Repeat(b: Byte, n: nat): (s: seq<Byte>)
    ensures |s| == n && forall i :: 0 <= i < n ==> s[i] == b
  {
    seq(n, _ => b)
  }

  lemma {:induction false} BEOfZeros(n: nat)
    ensures BE(Repeat(0, n)) == 0
  {
    if n > 0 {
      assert Repeat(0, n)[1..] == Repeat(0, n - 1);
      BEOfZeros(n - 1);
    }
  }

  lemma {:induction false} BEOfOnes(n: nat)
    ensures BE(Repeat(255, n)) == Pow2(8 * n) - 1
  {
    if n > 0 {
      assert Repeat(255, n)[1..] == Repeat(255, n - 1);
      BEOfOnes(n - 1);
      Pow2Add(8, 8 * (n - 1));
      Pow2Byte();
    }
  }
}
