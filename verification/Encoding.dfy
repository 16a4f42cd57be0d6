/** Little-endian encodings (`to_le_bytes`, `from_le_bytes`). */
module Encoding {

  import opened Arithmetic
  import opened Words

  /** The n little-endian bytes of x; higher bytes are cut off. */
  function LE(x: nat, n: nat): (s: seq<Byte>)
    ensures |s| == n
  {
    if n == 0 then [] else [x % 256] + LE(x / 256, n - 1)
  }

  function FromLE(s: seq<Byte>): nat {
    if s == [] then 0 else s[0] + 256 * FromLE(s[1..])
  }

  lemma {:induction false} FromLEBound(s: seq<Byte>)
    ensures FromLE(s) < Pow2(8 * |s|)
  {
    if s != [] {
      FromLEBound(s[1..]);
      Pow2Add(8, 8 * (|s| - 1));
      Pow2Byte();
    }
  }

  /** Decoding an encoding gives the number back when it fits. */
  lemma {:induction false} LERoundTrip(x: nat, n: nat)
    requires x < Pow2(8 * n)
    ensures FromLE(LE(x, n)) == x
  {
    if n > 0 {
      Pow2Add(8, 8 * (n - 1));
      Pow2Byte();
      LERoundTrip(x / 256, n - 1);
      assert LE(x, n)[1..] == LE(x / 256, n - 1);
    }
  }

  /** Encoding a decoded byte string gives the bytes back. */
  lemma {:induction false} FromLERoundTrip(s: seq<Byte>)
    ensures LE(FromLE(s), |s|) == s
  {
    if s != [] {
      FromLERoundTrip(s[1..]);
      DivUnique(FromLE(s), 256, FromLE(s[1..]), s[0]);
    }
  }

  /** Byte i of an encoding is digit i of the number to the base 256, the lowest first. */
  lemma {:induction false} LEByteAt(x: nat, n: nat, i: nat)
    requires i < n
    ensures LE(x, n)[i] == x / Pow2(8 * i) % 256
    decreases n
  {
    if i > 0 {
      LEByteAt(x / 256, n - 1, i - 1);
      Pow2Add(8, 8 * (i - 1));
      Pow2Byte();
      DivDiv(x, 256, Pow2(8 * (i - 1)));
    }
  }

  lemma DivDiv(x: nat, a: nat, b: nat)
    requires a > 0 && b > 0
    ensures a * b > 0 && x / a / b == x / (a * b)
  {
    DivMod(x, a);
    DivMod(x / a, b);
    var q, r := x / a / b, x / a % b;
    Distribute(q * b, r, a);
    Associate(q, b, a);
    MulMono(r + 1, b, a);
    Distribute(r, 1, a);
    MulMono(1, a, b);
    assert b * a == a * b;
    DivUnique(x, a * b, q, r * a + x % a);
  }
}
