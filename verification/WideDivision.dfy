/**
 The miner's `U512`: four 128-bit limbs, ordered limb by limb, built from a
 64-byte hash and divided by a 128-bit number with half-limb long division.
 */
module WideDivision {

  import opened Arithmetic
  import opened Words
  import opened Targets

  const M: nat := U128_MOD

  /** part0 is the most significant limb. */
  datatype U512 = U512(part0: u128, part1: u128, part2: u128, part3: u128)

  const MAX: U512 := U512(U128_MAX, U128_MAX, U128_MAX, U128_MAX)

  function Value(x: U512): nat {
    ((x.part0 * M + x.part1) * M + x.part2) * M + x.part3
  }

  lemma ValueInjective(x: U512, y: U512)
    requires Value(x) == Value(y)
    ensures x == y
  {
    DigitUnique((x.part0 * M + x.part1) * M + x.part2, x.part3, (y.part0 * M + y.part1) * M + y.part2, y.part3);
    DigitUnique(x.part0 * M + x.part1, x.part2, y.part0 * M + y.part1, y.part2);
    DigitUnique(x.part0, x.part1, y.part0, y.part1);
  }

  lemma DigitUnique(a: nat, b: u128, c: nat, d: u128)
    requires a * M + b == c * M + d
    ensures a == c && b == d
  {
  }

  /** The derived `Ord`: limbs compared in order. */
  predicate Le(x: U512, y: U512) {
    if x.part0 != y.part0 then x.part0 < y.part0
    else if x.part1 != y.part1 then x.part1 < y.part1
    else if x.part2 != y.part2 then x.part2 < y.part2
    else x.part3 <= y.part3
  }

  lemma LimbOrderIsNumeric(x: U512, y: U512)
    ensures Le(x, y) <==> Value(x) <= Value(y)
  {
  }

  // ---------------------------------------------------------------- from bytes

  /** `u128::from_be_bytes` */
  function Limb(b: seq<Byte>): u128
    requires |b| == 16
  {
    BEBound(b);
    Pow2Limb();
    BEWord(b);
    BEValue(b)
  }

  /** A compiled form of BE. */
  function BEValue(s: seq<Byte>): nat {
    if s == [] then 0 else BEValue(s[..|s| - 1]) * 256 + s[|s| - 1]
  }

  lemma {:induction false} BEWord(s: seq<Byte>)
    ensures BEValue(s) == BE(s)
  {
    if s != [] {
      var init, last := s[..|s| - 1], s[|s| - 1..];
      BEWord(init);
      assert s == init + last;
      BEConcat(init, last);
      Pow2Byte();
      assert last[1..] == [];
    }
  }

  /** `U512::from_bytes` */
  function FromBytes(h: Digest): U512 {
    U512(Limb(h[0..16]), Limb(h[16..32]), Limb(h[32..48]), Limb(h[48..64]))
  }

  /** The four limbs of a hash denote the same number as its 64 bytes. */
  lemma FromBytesValue(h: Digest)
    ensures Value(FromBytes(h)) == BE(h)
  {
    var a, b, c, d := h[0..16], h[16..32], h[32..48], h[48..64];
    assert h == a + b + c + d;
    BEWord(a);
    AppendLimb(a, b);
    AppendLimb(a + b, c);
    AppendLimb(a + b + c, d);
  }

  lemma AppendLimb(s: seq<Byte>, b: seq<Byte>)
    requires |b| == 16
    ensures BE(s + b) == BE(s) * M + Limb(b)
  {
    BEConcat(s, b);
    BEWord(b);
    Pow2Limb();
  }

  // ---------------------------------------------------------------- long division

  lemma {:induction false} OrBound(x: nat, y: nat, k: nat)
    requires x < Pow2(k) && y < Pow2(k)
    ensures BitOr(x, y) < Pow2(k)
    decreases k
  {
    if k > 0 {
      OrBound(x / 2, y / 2, k - 1);
    }
  }

  /** `(hi << 64) | lo` on 128-bit words. */
  function Join(hi: u128, lo: u128): u128 {
    Pow2Limb();
    OrBound(Shl128(hi, 64), lo, 128);
    BitOr(Shl128(hi, 64), lo)
  }

  /** The upper half of `hi` is shifted out. */
  lemma JoinCuts(hi: u128, q: nat, r: nat, lo: u128)
    requires hi == q * U64_MOD + r && r < U64_MOD && lo < U64_MOD
    ensures Join(hi, lo) == r * U64_MOD + lo
  {
    Pow2Word();
    DivUnique(hi * U64_MOD, U128_MOD, q, r * U64_MOD);
    OrDisjoint(r, lo, 64);
  }

  lemma JoinIsSum(hi: u128, lo: u128)
    requires hi < U64_MOD && lo < U64_MOD
    ensures Join(hi, lo) == hi * U64_MOD + lo
  {
    JoinCuts(hi, 0, hi, lo);
  }

  /** `part >> 64` */
  function HighHalf(part: u128): (h: u128)
    ensures h < U64_MOD && h * U64_MOD + LowHalf(part) == part
  {
    Pow2Word();
    AndLowMask(part, 64);
    Shr(part, 64)
  }

  /** `part & 0xFFFFFFFFFFFFFFFF` */
  function LowHalf(part: u128): (l: u128)
    ensures l == part % U64_MOD
  {
    Pow2Word();
    AndLowMask(part, 64);
    BitAnd(part, U64_MAX)
  }

  function Div(n: u128, divisor: u128): (q: u128)
    requires divisor > 0
  {
    DivAntitone(n, 1, divisor);
    n / divisor
  }

  function Mod(n: u128, divisor: u128): (r: u128)
    requires divisor > 0
    ensures r < divisor
  {
    n % divisor
  }

  /** One pass of the division loop: the next quotient limb and the new remainder. */
  function LimbStep(remainder: u128, part: u128, divisor: u128): (u128, u128)
    requires divisor > 0
  {
    var combined := Join(remainder, HighHalf(part));
    var combinedLow := Join(Mod(combined, divisor), LowHalf(part));
    (Join(Div(combined, divisor), Div(combinedLow, divisor)), Mod(combinedLow, divisor))
  }

  /** While both remainders it shifts fit 64 bits, a pass divides exactly. */
  lemma LimbStepExact(remainder: u128, part: u128, divisor: u128)
    requires remainder < divisor && remainder < U64_MOD
    requires (remainder * U64_MOD + HighHalf(part)) % divisor < U64_MOD
    ensures var (q, r) := LimbStep(remainder, part, divisor);
            r < divisor && remainder * M + part == q * divisor + r
  {
    var h, l := HighHalf(part), LowHalf(part);
    var a, m := HalfStepExact(remainder, h, divisor);
    var b, r := HalfStepExact(m, l, divisor);
    JoinIsSum(a, b);
    HalvesCombine(remainder, h, l, divisor, a, m, b, r);
  }

  lemma HalvesCombine(remainder: nat, h: nat, l: nat, d: nat, a: nat, m: nat, b: nat, r: nat)
    requires remainder * U64_MOD + h == a * d + m
    requires m * U64_MOD + l == b * d + r
    ensures remainder * M + (h * U64_MOD + l) == (a * U64_MOD + b) * d + r
  {
    Distribute(a * U64_MOD, b, d);
  }

  lemma HalfStepExact(remainder: u128, half: u128, divisor: u128) returns (q: u128, r: u128)
    requires remainder < divisor && remainder < U64_MOD && half < U64_MOD
    ensures q == Div(Join(remainder, half), divisor) && r == Mod(Join(remainder, half), divisor)
    ensures q < U64_MOD && r < divisor && r == (remainder * U64_MOD + half) % divisor
    ensures remainder * U64_MOD + half == q * divisor + r
  {
    JoinIsSum(remainder, half);
    var n := remainder * U64_MOD + half;
    DivMod(n, divisor);
    DigitBound(remainder, half, divisor);
    q, r := n / divisor, n % divisor;
  }

  /** The quotient digit of a remainder below the divisor fits 64 bits. */
  lemma DigitBound(remainder: nat, half: nat, divisor: nat)
    requires remainder < divisor && half < U64_MOD
    ensures (remainder * U64_MOD + half) / divisor < U64_MOD
  {
    var n := remainder * U64_MOD + half;
    MulMono(remainder + 1, divisor, U64_MOD);
    Distribute(remainder, 1, U64_MOD);
    DivGreatest(n, divisor, U64_MOD);
  }

  /** The slot the loop writes the next quotient limb to. */
  function Place(result: U512, quotient: u128): U512 {
    if result.part0 == 0 && result.part1 == 0 && result.part2 == 0 then result.(part0 := quotient)
    else if result.part1 == 0 && result.part2 == 0 then result.(part1 := quotient)
    else if result.part2 == 0 then result.(part2 := quotient)
    else result.(part3 := quotient)
  }

  function Part(x: U512, i: nat): u128
    requires i < 4
  {
    if i == 0 then x.part0 else if i == 1 then x.part1 else if i == 2 then x.part2 else x.part3
  }

  /** Result and remainder after the first n limbs. */
  function AfterLimbs(x: U512, divisor: u128, n: nat): (U512, u128)
    requires divisor > 0 && n <= 4
  {
    if n == 0 then (U512(0, 0, 0, 0), 0)
    else
      var (result, remainder) := AfterLimbs(x, divisor, n - 1);
      var (q, r) := LimbStep(remainder, Part(x, n - 1), divisor);
      (Place(result, q), r)
  }

  function Quotient(x: U512, divisor: u128): U512 {
    if divisor == 0 then MAX else AfterLimbs(x, divisor, 4).0
  }

  /** `U512::div_u128` */
  method DivU128(x: U512, divisor: u128) returns (result: U512)
    ensures result == Quotient(x, divisor)
    ensures divisor == 0 ==> result == MAX
    ensures 0 < divisor && (divisor <= U64_MOD || NoBitLost(x, divisor)) ==>
      forall t: U512 :: Value(t) == Value(x) / divisor ==> result == Squeeze(t)
    ensures 0 < divisor ==>
      forall t: U512 :: Value(t) == Value(x) / divisor && NoZeroLimb(t) ==> (result == t <==> NoBitLost(x, divisor))
    ensures 0 < divisor && x == MAX ==>
      (Value(result) == (Pow2(HASH_BITS) - 1) / divisor <==> OnesKeepBits(divisor))
    ensures 0 < divisor <= U64_MOD && x == MAX ==> Value(result) == (Pow2(HASH_BITS) - 1) / divisor
  {
    if divisor == 0 {
      return MAX;
    }
    result := U512(0, 0, 0, 0);
    var remainder: u128 := 0;
    for i := 0 to 4
      invariant (result, remainder) == AfterLimbs(x, divisor, i)
    {
      var part := Part(x, i);
      var combined := Join(remainder, HighHalf(part));
      var qHigh := Div(combined, divisor);
      remainder := Mod(combined, divisor);

      var combinedLow := Join(remainder, LowHalf(part));
      var qLow := Div(combinedLow, divisor);
      remainder := Mod(combinedLow, divisor);

      var quotient := Join(qHigh, qLow);
      if result.part0 == 0 && result.part1 == 0 && result.part2 == 0 {
        result := result.(part0 := quotient);
      } else if result.part1 == 0 && result.part2 == 0 {
        result := result.(part1 := quotient);
      } else if result.part2 == 0 {
        result := result.(part2 := quotient);
      } else {
        result := result.(part3 := quotient);
      }
    }
    QuotientMeaning(x, divisor);
  }

  lemma QuotientMeaning(x: U512, d: u128)
    requires d > 0
    ensures d <= U64_MOD || NoBitLost(x, d) ==>
      forall t: U512 :: Value(t) == Value(x) / d ==> Quotient(x, d) == Squeeze(t)
    ensures forall t: U512 :: Value(t) == Value(x) / d && NoZeroLimb(t) ==> (Quotient(x, d) == t <==> NoBitLost(x, d))
    ensures x == MAX ==>
      (Value(Quotient(x, d)) == (Pow2(HASH_BITS) - 1) / d <==> OnesKeepBits(d))
    ensures d <= U64_MOD && x == MAX ==> Value(Quotient(x, d)) == (Pow2(HASH_BITS) - 1) / d
    ensures d <= U64_MOD ==> NoBitLost(x, d)
  {
    if d <= U64_MOD {
      SmallDivisorLosesNothing(x, d);
    }
    if NoBitLost(x, d) {
      forall t: U512 | Value(t) == Value(x) / d
        ensures Quotient(x, d) == Squeeze(t)
      {
        QuotientIsSqueezed(x, d, t);
      }
    }
    forall t: U512 | Value(t) == Value(x) / d && NoZeroLimb(t)
      ensures Quotient(x, d) == t <==> NoBitLost(x, d)
    {
      FullQuotientExactIff(x, d, t);
      if Value(Quotient(x, d)) == Value(t) {
        ValueInjective(Quotient(x, d), t);
      }
    }
    MaxQuotientExactIff(d);
  }

  // ---------------------------------------------------------------- what the division computes

  function NonZero(s: seq<u128>): seq<u128> {
    if s == [] then [] else NonZero(s[..|s| - 1]) + (if s[|s| - 1] == 0 then [] else [s[|s| - 1]])
  }

  function Pack(s: seq<u128>): U512 {
    U512(if |s| > 0 then s[0] else 0, if |s| > 1 then s[1] else 0,
         if |s| > 2 then s[2] else 0, if |s| > 3 then s[3] else 0)
  }

  /** The non-zero limbs in order, zero limbs after them. */
  function Squeeze(t: U512): U512 {
    Pack(NonZero([t.part0, t.part1, t.part2, t.part3]))
  }

  /** No zero limb stands before a non-zero one. */
  predicate Gapless(t: U512) {
    && (t.part1 != 0 ==> t.part0 != 0)
    && (t.part2 != 0 ==> t.part1 != 0)
    && (t.part3 != 0 ==> t.part2 != 0)
  }

  predicate NoZeroLimb(t: U512) {
    t.part0 != 0 && t.part1 != 0 && t.part2 != 0 && t.part3 != 0
  }

  lemma {:induction false} NonZeroFacts(s: seq<u128>)
    ensures |NonZero(s)| <= |s|
    ensures forall i :: 0 <= i < |NonZero(s)| ==> NonZero(s)[i] != 0
  {
    if s != [] {
      NonZeroFacts(s[..|s| - 1]);
    }
  }

  /** Placing the next limb keeps the non-zero limbs packed at the front. */
  lemma PlaceAppends(s: seq<u128>, q: u128)
    requires |s| <= 3
    ensures Place(Pack(NonZero(s)), q) == Pack(NonZero(s + [q]))
  {
    NonZeroFacts(s);
    NonZeroSnoc(s, q);
    PlaceAtEnd(NonZero(s), q);
  }

  lemma PlaceAtEnd(ns: seq<u128>, q: u128)
    requires |ns| <= 3 && forall i :: 0 <= i < |ns| ==> ns[i] != 0
    ensures Place(Pack(ns), q) == Pack(ns + if q == 0 then [] else [q])
  {
    if |ns| == 0 {
      assert Pack(ns) == U512(0, 0, 0, 0);
    } else if |ns| == 1 {
      assert Pack(ns) == U512(ns[0], 0, 0, 0);
    } else if |ns| == 2 {
      assert Pack(ns) == U512(ns[0], ns[1], 0, 0);
    } else {
      assert Pack(ns) == U512(ns[0], ns[1], ns[2], 0);
    }
  }

  lemma NonZeroSnoc(s: seq<u128>, q: u128)
    ensures NonZero(s + [q]) == NonZero(s) + if q == 0 then [] else [q]
  {
    assert (s + [q])[..|s|] == s;
  }

  lemma SqueezeFixes(t: U512)
    ensures Squeeze(t) == t <==> Gapless(t)
  {
    NonZeroSnoc([], t.part0);
    NonZeroSnoc([t.part0], t.part1);
    NonZeroSnoc([t.part0, t.part1], t.part2);
    NonZeroSnoc([t.part0, t.part1, t.part2], t.part3);
    assert [] + [t.part0] == [t.part0];
    assert [t.part0] + [t.part1] == [t.part0, t.part1];
    assert [t.part0, t.part1] + [t.part2] == [t.part0, t.part1, t.part2];
    assert [t.part0, t.part1, t.part2] + [t.part3] == [t.part0, t.part1, t.part2, t.part3];
  }

  function Rem(n: nat, d: nat): (r: nat)
    requires d > 0
    ensures r < d
  {
    DivMod(n, d);
    n % d
  }

  lemma RemainderIs(n: nat, d: nat, q: nat, r: nat)
    requires n == q * d + r && r < d
    ensures Rem(n, d) == r
  {
    DivUnique(n, d, q, r);
  }

  /** Appending a digit to a number changes its remainder as if it were appended to the remainder. */
  lemma AppendDigit(p: nat, c: nat, digit: nat, d: nat, q: nat, r: nat)
    requires p == q * d + r && r < d
    ensures Rem(p * c + digit, d) == Rem(r * c + digit, d)
  {
    var n := r * c + digit;
    DivMod(n, d);
    Distribute(q * d, r, c);
    Rearrange(q, d, c);
    Distribute(q * c, n / d, d);
    DivUnique(p * c + digit, d, q * c + n / d, n % d);
  }

  lemma Rearrange(a: nat, b: nat, c: nat)
    ensures a * b * c == a * c * b
  {
  }

  function PrefixValue(x: U512, n: nat): nat
    requires n <= 4
  {
    if n == 0 then 0 else PrefixValue(x, n - 1) * M + Part(x, n - 1)
  }

  /** The number the first k half-limbs of a dividend denote. */
  function HalfPrefix(x: U512, k: nat): nat
    requires k < 8
  {
    if k % 2 == 0 then PrefixValue(x, k / 2) else PrefixValue(x, k / 2) * U64_MOD + HighHalf(Part(x, k / 2))
  }

  /** The true remainder after k half-limbs, which the loop shifts to the left by 64 bits. */
  function Shifted(x: U512, d: u128, k: nat): nat
    requires d > 0 && k < 8
  {
    Rem(HalfPrefix(x, k), d)
  }

  lemma ShiftedInPass(x: U512, d: u128, i: nat, q: nat, remainder: nat)
    requires d > 0 && i < 4 && PrefixValue(x, i) == q * d + remainder && remainder < d
    ensures Shifted(x, d, 2 * i) == remainder
    ensures Shifted(x, d, 2 * i + 1) == Rem(remainder * U64_MOD + HighHalf(Part(x, i)), d)
  {
    HalfPrefixes(x, i);
    RemainderIs(HalfPrefix(x, 2 * i), d, q, remainder);
    AppendDigit(PrefixValue(x, i), U64_MOD, HighHalf(Part(x, i)), d, q, remainder);
  }

  lemma HalfPrefixes(x: U512, i: nat)
    requires i < 4
    ensures HalfPrefix(x, 2 * i) == PrefixValue(x, i)
    ensures HalfPrefix(x, 2 * i + 1) == PrefixValue(x, i) * U64_MOD + HighHalf(Part(x, i))
  {
    assert (2 * i) / 2 == i && (2 * i + 1) / 2 == i;
  }

  /** Every remainder the division shifts to the left fits the 64 bits it is given. */
  ghost predicate NoBitLost(x: U512, d: u128)
    requires d > 0
  {
    forall k :: 1 <= k <= 7 ==> Shifted(x, d, k) < U64_MOD
  }

  lemma SmallDivisorLosesNothing(x: U512, d: u128)
    requires 0 < d <= U64_MOD
    ensures NoBitLost(x, d)
  {
  }

  function LimbsValue(s: seq<u128>): nat {
    if s == [] then 0 else LimbsValue(s[..|s| - 1]) * M + s[|s| - 1]
  }

  lemma PrefixDivides(p: nat, t: nat, d: nat, rem: nat, part: nat, q: nat, r: nat)
    requires p == t * d + rem && rem * M + part == q * d + r
    ensures p * M + part == (t * M + q) * d + r
  {
    Distribute(t * M, q, d);
  }

  /** Long division limb by limb: the quotient limbs, and the remainder before each pass and after the last. */
  ghost predicate LongDivision(x: U512, d: nat, ts: seq<u128>, rs: seq<nat>) {
    && |ts| <= 4 && |rs| == |ts| + 1 && rs[0] == 0
    && (forall i :: 0 <= i <= |ts| ==> rs[i] < d)
    && forall i :: 0 <= i < |ts| ==> Divides(rs[i], Part(x, i), d, ts[i], rs[i + 1])
  }

  ghost predicate Divides(remainder: nat, part: nat, d: nat, q: nat, next: nat) {
    remainder * M + part == q * d + next
  }

  lemma NextDigits(remainder: nat, part: nat, d: nat) returns (q: nat, next: nat)
    requires remainder < d && part < M
    ensures Divides(remainder, part, d, q, next) && q < M && next < d
  {
    var n := remainder * M + part;
    DivMod(n, d);
    q, next := n / d, n % d;
    MulMono(remainder + 1, d, M);
    Distribute(remainder, 1, M);
    DivGreatest(n, d, M);
  }

  lemma {:induction false} LongDivide(x: U512, d: nat, n: nat) returns (ts: seq<u128>, rs: seq<nat>)
    requires d > 0 && n <= 4
    ensures |ts| == n && LongDivision(x, d, ts, rs)
    decreases n
  {
    if n == 0 {
      ts, rs := [], [0];
    } else {
      ts, rs := LongDivide(x, d, n - 1);
      var q, r := NextDigits(rs[n - 1], Part(x, n - 1), d);
      ts, rs := ts + [q], rs + [r];
    }
  }

  lemma {:induction false} LongDivisionValue(x: U512, d: nat, ts: seq<u128>, rs: seq<nat>, n: nat)
    requires LongDivision(x, d, ts, rs) && n <= |ts|
    ensures PrefixValue(x, n) == LimbsValue(ts[..n]) * d + rs[n]
  {
    if n > 0 {
      LongDivisionValue(x, d, ts, rs, n - 1);
      assert Divides(rs[n - 1], Part(x, n - 1), d, ts[n - 1], rs[n]);
      assert ts[..n] == ts[..n - 1] + [ts[n - 1]];
      LimbsValueSnoc(ts[..n - 1], ts[n - 1]);
      PrefixDivides(PrefixValue(x, n - 1), LimbsValue(ts[..n - 1]), d, rs[n - 1], Part(x, n - 1), ts[n - 1], rs[n]);
    }
  }

  /** The limb the loop computes in pass i, before it is placed. */
  function LoopLimb(x: U512, d: u128, i: nat): u128
    requires d > 0 && i < 4
  {
    LimbStep(AfterLimbs(x, d, i).1, Part(x, i), d).0
  }

  function LoopLimbs(x: U512, d: u128, n: nat): (ts: seq<u128>)
    requires d > 0 && n <= 4
    ensures |ts| == n && forall i :: 0 <= i < n ==> ts[i] == LoopLimb(x, d, i)
  {
    if n == 0 then [] else LoopLimbs(x, d, n - 1) + [LoopLimb(x, d, n - 1)]
  }

  lemma {:induction false} LoopPacks(x: U512, d: u128, n: nat)
    requires d > 0 && n <= 4
    ensures AfterLimbs(x, d, n).0 == Pack(NonZero(LoopLimbs(x, d, n)))
  {
    if n > 0 {
      LoopPacks(x, d, n - 1);
      PlaceAppends(LoopLimbs(x, d, n - 1), LoopLimb(x, d, n - 1));
    }
  }

  /** No bit is lost in pass i. */
  ghost predicate PassKeepsBits(x: U512, d: nat, rs: seq<nat>, i: nat)
    requires d > 0 && i < 4 && i < |rs|
  {
    rs[i] < U64_MOD && Rem(rs[i] * U64_MOD + HighHalf(Part(x, i)), d) < U64_MOD
  }

  /** The remainders of long division are the ones `NoBitLost` speaks of. */
  lemma PassesKeepBits(x: U512, d: u128, ts: seq<u128>, rs: seq<nat>)
    requires d > 0 && LongDivision(x, d, ts, rs) && |ts| == 4
    ensures NoBitLost(x, d) <==> forall i :: 0 <= i < 4 ==> PassKeepsBits(x, d, rs, i)
  {
    if NoBitLost(x, d) {
      forall i | 0 <= i < 4
        ensures PassKeepsBits(x, d, rs, i)
      {
        PassOf(x, d, ts, rs, i);
      }
    }
    if forall i :: 0 <= i < 4 ==> PassKeepsBits(x, d, rs, i) {
      forall k | 1 <= k <= 7
        ensures Shifted(x, d, k) < U64_MOD
      {
        assert PassKeepsBits(x, d, rs, k / 2);
        PassOf(x, d, ts, rs, k / 2);
        assert k == 2 * (k / 2) || k == 2 * (k / 2) + 1;
      }
    }
  }

  lemma PassOf(x: U512, d: u128, ts: seq<u128>, rs: seq<nat>, i: nat)
    requires d > 0 && LongDivision(x, d, ts, rs) && |ts| == 4 && i < 4
    ensures PassKeepsBits(x, d, rs, i) <==> Shifted(x, d, 2 * i) < U64_MOD && Shifted(x, d, 2 * i + 1) < U64_MOD
    ensures Shifted(x, d, 0) < U64_MOD
  {
    LongDivisionValue(x, d, ts, rs, i);
    ShiftedInPass(x, d, i, LimbsValue(ts[..i]), rs[i]);
    RemainderIs(0, d, 0, 0);
  }

  lemma SameDivision(x: nat, d: nat, q: nat, r: nat, q': nat, r': nat)
    requires r < d && r' < d && x == q * d + r && x == q' * d + r'
    ensures q == q' && r == r'
  {
    DivUnique(x, d, q, r);
    DivUnique(x, d, q', r');
  }

  lemma PassFollows(remainder: u128, part: u128, d: u128, q: nat, next: nat)
    requires remainder < d && Divides(remainder, part, d, q, next) && next < d
    requires remainder < U64_MOD && Rem(remainder * U64_MOD + HighHalf(part), d) < U64_MOD
    ensures LimbStep(remainder, part, d) == (q, next)
  {
    LimbStepExact(remainder, part, d);
    var (q', r') := LimbStep(remainder, part, d);
    SameDivision(remainder * M + part, d, q, next, q', r');
  }

  /** A loop that loses no bit computes the limbs of long division. */
  lemma {:induction false} LoopFollows(x: U512, d: u128, ts: seq<u128>, rs: seq<nat>, n: nat)
    returns (result: U512, remainder: u128)
    requires d > 0 && LongDivision(x, d, ts, rs) && n <= |ts|
    requires forall i :: 0 <= i < n ==> PassKeepsBits(x, d, rs, i)
    ensures AfterLimbs(x, d, n) == (result, remainder) && remainder == rs[n]
    ensures forall i :: 0 <= i < n ==> LoopLimb(x, d, i) == ts[i]
    decreases n
  {
    if n == 0 {
      result, remainder := U512(0, 0, 0, 0), 0;
    } else {
      var res, rem := LoopFollows(x, d, ts, rs, n - 1);
      var part := Part(x, n - 1);
      assert PassKeepsBits(x, d, rs, n - 1) && Divides(rs[n - 1], part, d, ts[n - 1], rs[n]);
      PassFollows(rem, part, d, ts[n - 1], rs[n]);
      result, remainder := Place(res, ts[n - 1]), rs[n];
    }
  }

  /** The true quotient has four limbs, and the loop returns it with its zero limbs squeezed to the end. */
  lemma TrueQuotient(x: U512, d: u128) returns (t: U512)
    requires d > 0 && NoBitLost(x, d)
    ensures Value(t) == Value(x) / d && Quotient(x, d) == Squeeze(t)
  {
    var ts, rs := LongDivide(x, d, 4);
    PassesKeepBits(x, d, ts, rs);
    var _, _ := LoopFollows(x, d, ts, rs, 4);
    LoopPacks(x, d, 4);
    assert LoopLimbs(x, d, 4) == ts;
    t := LimbsOf(x, d, ts, rs);
  }

  lemma LimbsOf(x: U512, d: u128, ts: seq<u128>, rs: seq<nat>) returns (t: U512)
    requires d > 0 && LongDivision(x, d, ts, rs) && |ts| == 4
    ensures ts == [t.part0, t.part1, t.part2, t.part3] && Value(t) == Value(x) / d
  {
    t := U512(ts[0], ts[1], ts[2], ts[3]);
    assert ts[..4] == ts == [t.part0, t.part1, t.part2, t.part3];
    LimbsValueOf(t);
    LongDivisionValue(x, d, ts, rs, 4);
    PrefixValueOf(x);
    DivUnique(Value(x), d, Value(t), rs[4]);
  }

  lemma LimbsValueOf(t: U512)
    ensures LimbsValue([t.part0, t.part1, t.part2, t.part3]) == Value(t)
  {
    LimbsValueSnoc([], t.part0);
    LimbsValueSnoc([t.part0], t.part1);
    LimbsValueSnoc([t.part0, t.part1], t.part2);
    LimbsValueSnoc([t.part0, t.part1, t.part2], t.part3);
    assert [] + [t.part0] == [t.part0];
    assert [t.part0] + [t.part1] == [t.part0, t.part1];
    assert [t.part0, t.part1] + [t.part2] == [t.part0, t.part1, t.part2];
    assert [t.part0, t.part1, t.part2] + [t.part3] == [t.part0, t.part1, t.part2, t.part3];
  }

  lemma LimbsValueSnoc(s: seq<u128>, q: u128)
    ensures LimbsValue(s + [q]) == LimbsValue(s) * M + q
  {
    assert (s + [q])[..|s|] == s;
  }

  lemma PrefixValueOf(x: U512)
    ensures PrefixValue(x, 4) == Value(x)
  {
    assert PrefixValue(x, 1) == x.part0;
    assert PrefixValue(x, 2) == x.part0 * M + x.part1;
    assert PrefixValue(x, 3) == (x.part0 * M + x.part1) * M + x.part2;
  }

  /** Any dividend by any divisor that loses no bit of it: the true quotient, zero limbs squeezed to the end. */
  lemma QuotientIsSqueezed(x: U512, d: u128, t: U512)
    requires d > 0 && NoBitLost(x, d) && Value(t) == Value(x) / d
    ensures Quotient(x, d) == Squeeze(t)
  {
    var t' := TrueQuotient(x, d);
    ValueInjective(t, t');
  }

  /** The division is then exact precisely when no zero limb of the true quotient precedes a non-zero one. */
  lemma QuotientExactIff(x: U512, d: u128, t: U512)
    requires d > 0 && NoBitLost(x, d) && Value(t) == Value(x) / d
    ensures Value(Quotient(x, d)) == Value(x) / d <==> Gapless(t)
  {
    QuotientIsSqueezed(x, d, t);
    SqueezeFixes(t);
    if Value(Squeeze(t)) == Value(t) {
      ValueInjective(Squeeze(t), t);
    }
  }

  lemma SmallDivisorExactIff(x: U512, d: u128) returns (t: U512)
    requires 0 < d <= U64_MOD
    ensures Value(t) == Value(x) / d
    ensures Value(Quotient(x, d)) == Value(x) / d <==> Gapless(t)
  {
    SmallDivisorLosesNothing(x, d);
    t := TrueQuotient(x, d);
    QuotientExactIff(x, d, t);
  }

  /** A dividend whose top limb is below the divisor, but which is not itself below it, is divided wrongly. */
  lemma SmallTopLimbIsInexact(x: U512, d: u128)
    requires x.part0 < d <= U64_MOD && d <= Value(x)
    ensures Value(Quotient(x, d)) != Value(x) / d
  {
    var t := SmallDivisorExactIff(x, d);
    DivGreatest(Value(x), d, 1);
    DivGreatest(Value(x), d, M * M * M);
    TopLimbBelow(x, d);
    TopLimbMissing(t);
  }

  lemma TopLimbBelow(x: U512, d: nat)
    requires x.part0 < d
    ensures Value(x) < M * M * M * d
  {
  }

  lemma TopLimbMissing(t: U512)
    requires 1 <= Value(t) < M * M * M
    ensures !Gapless(t)
  {
  }

  // ---------------------------------------------------------------- the miner's dividend, by any divisor

  /** A shifted remainder that loses a bit makes the next digit too small. */
  lemma LostBitLowersDigit(remainder: u128, half: u128, d: u128, q: nat, next: nat) returns (digit: u128, r: u128)
    requires U64_MOD < d && remainder < d && half < U64_MOD
    requires remainder * U64_MOD + half == q * d + next && next < d
    ensures digit == Div(Join(remainder, half), d) && r == Mod(Join(remainder, half), d)
    ensures digit < U64_MOD
    ensures remainder < U64_MOD ==> digit == q && r == next
    ensures remainder >= U64_MOD ==> digit < q
  {
    DivMod(remainder, U64_MOD);
    var lost, kept := remainder / U64_MOD, remainder % U64_MOD;
    JoinCuts(remainder, lost, kept, half);
    digit, r := Div(Join(remainder, half), d), Mod(Join(remainder, half), d);
    DivMod(kept * U64_MOD + half, d);
    DigitBound(kept, half, d);
    LostBitShows(remainder, lost, kept, half, d, digit, r, q, next);
  }

  lemma LostBitShows(remainder: nat, lost: nat, kept: nat, half: nat, d: nat, digit: nat, r: nat, q: nat, next: nat)
    requires remainder == lost * U64_MOD + kept && d < M
    requires kept * U64_MOD + half == digit * d + r && r < d
    requires remainder * U64_MOD + half == q * d + next && next < d
    ensures if lost == 0 then digit == q && r == next else digit < q
  {
    if lost == 0 {
      SameDivision(remainder * U64_MOD + half, d, q, next, digit, r);
    } else {
      MulMono(1, lost, M);
      if q <= digit {
        MulMono(q, digit, d);
        assert false;
      }
    }
  }

  lemma HalfDigits(remainder: nat, half: nat, d: nat) returns (q: nat, next: nat)
    requires remainder < d && half < U64_MOD
    ensures remainder * U64_MOD + half == q * d + next && q < U64_MOD && next < d
    ensures next == (remainder * U64_MOD + half) % d
  {
    DivMod(remainder * U64_MOD + half, d);
    DigitBound(remainder, half, d);
    q, next := (remainder * U64_MOD + half) / d, (remainder * U64_MOD + half) % d;
  }

  /** A pass that computes its true limb has lost no bit. */
  lemma TrueLimbLosesNothing(remainder: u128, part: u128, d: u128, q: nat, next: nat)
    requires U64_MOD < d && remainder < d && Divides(remainder, part, d, q, next) && next < d
    requires LimbStep(remainder, part, d).0 == q
    ensures remainder < U64_MOD && Rem(remainder * U64_MOD + HighHalf(part), d) < U64_MOD
    ensures LimbStep(remainder, part, d).1 == next
  {
    var h, l := HighHalf(part), LowHalf(part);
    var a', m' := HalfDigits(remainder, h, d);
    var b', r' := HalfDigits(m', l, d);
    HalvesCombine(remainder, h, l, d, a', m', b', r');
    SameDivision(remainder * M + part, d, q, next, a' * U64_MOD + b', r');
    var a, m := LostBitLowersDigit(remainder, h, d, a', m');
    var c, n := HalfDigits(m, l, d);
    var b, r := LostBitLowersDigit(m, l, d, c, n);
    JoinIsSum(a, b);
    DigitsAgree(a, b, a', b');
    SameDivision(m' * U64_MOD + l, d, c, n, b', r');
  }

  lemma DigitsAgree(a: nat, b: nat, c: nat, e: nat)
    requires b < U64_MOD && e < U64_MOD && a * U64_MOD + b == c * U64_MOD + e
    ensures a == c && b == e
  {
  }

  /** If the loop computes the true limbs, every remainder it shifted fitted its 64 bits. */
  lemma {:induction false} TrueLimbsLoseNothing(x: U512, d: u128, ts: seq<u128>, rs: seq<nat>, n: nat)
    returns (result: U512, remainder: u128)
    requires U64_MOD < d && LongDivision(x, d, ts, rs) && n <= |ts|
    requires forall i :: 0 <= i < n ==> LoopLimb(x, d, i) == ts[i]
    ensures AfterLimbs(x, d, n) == (result, remainder) && remainder == rs[n]
    ensures forall i :: 0 <= i < n ==> PassKeepsBits(x, d, rs, i)
    decreases n
  {
    if n == 0 {
      result, remainder := U512(0, 0, 0, 0), 0;
    } else {
      var res, rem := TrueLimbsLoseNothing(x, d, ts, rs, n - 1);
      var part := Part(x, n - 1);
      assert LoopLimb(x, d, n - 1) == ts[n - 1];
      assert Divides(rs[n - 1], part, d, ts[n - 1], rs[n]);
      TrueLimbLosesNothing(rem, part, d, ts[n - 1], rs[n]);
      var (q, r) := LimbStep(rem, part, d);
      result, remainder := Place(res, q), r;
    }
  }

  lemma FullLimbNonZero(remainder: nat, d: nat, q: nat, next: nat)
    requires Divides(remainder, U128_MAX, d, q, next) && next < d < M
    ensures q != 0
  {
  }

  lemma MaxTrueLimbs(d: u128) returns (ts: seq<u128>, rs: seq<nat>, t: U512)
    requires d > 0
    ensures LongDivision(MAX, d, ts, rs) && |ts| == 4 && 0 !in ts
    ensures ts == [t.part0, t.part1, t.part2, t.part3]
    ensures Value(t) == (Pow2(HASH_BITS) - 1) / d && Value(MAX) == Pow2(HASH_BITS) - 1
  {
    Pow2Hash();
    ts, rs := LongDivide(MAX, d, 4);
    t := LimbsOf(MAX, d, ts, rs);
    forall i | 0 <= i < 4
      ensures ts[i] != 0
    {
      assert Divides(rs[i], U128_MAX, d, ts[i], rs[i + 1]);
      FullLimbNonZero(rs[i], d, ts[i], rs[i + 1]);
    }
  }

  /** Packing can only return four non-zero limbs when it was given them. */
  lemma PackOfFour(ts: seq<u128>, t: U512)
    requires |ts| == 4 && Pack(NonZero(ts)) == t && NoZeroLimb(t)
    ensures ts == [t.part0, t.part1, t.part2, t.part3]
  {
    AllKept(ts);
    var ns := NonZero(ts);
    assert t.part3 in [t.part0, t.part1, t.part2, t.part3];
    assert ns == [t.part0, t.part1, t.part2, t.part3];
  }

  lemma {:induction false} AllKept(ts: seq<u128>)
    ensures |NonZero(ts)| <= |ts|
    ensures |NonZero(ts)| == |ts| ==> NonZero(ts) == ts
  {
    if ts != [] {
      AllKept(ts[..|ts| - 1]);
    }
  }

  /** What `NoBitLost` says of 2^512 - 1. */
  lemma {:induction false} AllOnesPrefix(k: nat)
    requires k < 8
    ensures HalfPrefix(MAX, k) == Pow2(64 * k) - 1
  {
    if k == 1 {
      Pow2Word();
      HighOfOnes();
    } else if k >= 2 {
      AllOnesPrefix(k - 2);
      HalfPrefixOfMax(k - 2);
      Pow2Limb();
      Pow2Add(64 * (k - 2), 128);
      assert 64 * (k - 2) + 128 == 64 * k;
    }
  }

  lemma HighOfOnes()
    ensures HighHalf(U128_MAX) == U64_MAX
  {
  }

  lemma HalfPrefixOfMax(k: nat)
    requires k < 6
    ensures HalfPrefix(MAX, k + 2) == HalfPrefix(MAX, k) * M + U128_MAX
  {
    HighOfOnes();
    assert (k + 2) / 2 == k / 2 + 1 && (k + 2) % 2 == k % 2;
  }

  /** The remainder of 2^(64k) - 1, the number k half-limbs of ones denote. */
  function OnesRemainder(k: nat, d: u128): nat
    requires d > 0
  {
    Rem(Pow2(64 * k) - 1, d)
  }

  /** The remainders of 2^64 - 1, 2^128 - 1, ..., 2^448 - 1 by d all fit 64 bits. */
  ghost predicate OnesKeepBits(d: u128)
    requires d > 0
  {
    forall k :: 1 <= k <= 7 ==> OnesRemainder(k, d) < U64_MOD
  }

  /**
   The one dividend the miner uses, 2^512 - 1, by any divisor: the result is
   exact if and only if every remainder of 2^(64k) - 1, for k from 1 to 7, fits
   64 bits.  Its true quotient has no zero limb, so squeezing can repair nothing.
   */
  lemma MaxQuotientExactIff(d: u128)
    requires d > 0
    ensures Value(Quotient(MAX, d)) == (Pow2(HASH_BITS) - 1) / d <==> OnesKeepBits(d)
    ensures NoBitLost(MAX, d) <==> OnesKeepBits(d)
  {
    forall k | 1 <= k <= 7
      ensures Shifted(MAX, d, k) == OnesRemainder(k, d)
    {
      AllOnesPrefix(k);
    }
    MaxExactIffNoBitLost(d);
  }

  /**
   A dividend whose true quotient has no zero limb is divided exactly if and only
   if no bit is lost: the first lost bit lowers a digit, and squeezing moves nothing.
   */
  lemma FullQuotientExactIff(x: U512, d: u128, t: U512)
    requires d > 0 && Value(t) == Value(x) / d && NoZeroLimb(t)
    ensures Value(Quotient(x, d)) == Value(x) / d <==> NoBitLost(x, d)
  {
    var ts, rs := LongDivide(x, d, 4);
    var t' := LimbsOf(x, d, ts, rs);
    ValueInjective(t, t');
    if NoBitLost(x, d) {
      assert t.part0 in ts && t.part1 in ts && t.part2 in ts;
      QuotientExactIff(x, d, t);
    } else if Value(Quotient(x, d)) == Value(t) {
      WideExactLosesNothing(x, d, ts, rs, t);
      assert false;
    }
  }

  lemma MaxExactIffNoBitLost(d: u128)
    requires d > 0
    ensures Value(Quotient(MAX, d)) == (Pow2(HASH_BITS) - 1) / d <==> NoBitLost(MAX, d)
  {
    var ts, rs, t := MaxTrueLimbs(d);
    FullQuotientExactIff(MAX, d, t);
  }

  lemma WideExactLosesNothing(x: U512, d: u128, ts: seq<u128>, rs: seq<nat>, t: U512)
    requires d > 0 && LongDivision(x, d, ts, rs) && 0 !in ts && ts == [t.part0, t.part1, t.part2, t.part3]
    requires Value(Quotient(x, d)) == Value(t)
    ensures NoBitLost(x, d)
  {
    if d <= U64_MOD {
      SmallDivisorLosesNothing(x, d);
    } else {
      ValueInjective(Quotient(x, d), t);
      LoopPacks(x, d, 4);
      PackOfFour(LoopLimbs(x, d, 4), t);
      var _, _ := TrueLimbsLoseNothing(x, d, ts, rs, 4);
      PassesKeepBits(x, d, ts, rs);
    }
  }

  /** It is divided exactly by every divisor up to 2^64. */
  lemma MaxQuotientExact(d: u128)
    requires 0 < d <= U64_MOD
    ensures Value(Quotient(MAX, d)) == (Pow2(HASH_BITS) - 1) / d
  {
    SmallDivisorLosesNothing(MAX, d);
    MaxExactIffNoBitLost(d);
  }

  const WIDE: u128 := 2 * U64_MOD

  /** The remainder of 2^128 - 1 by 2^65 needs 65 bits. */
  lemma WideRemainder()
    ensures Shifted(MAX, WIDE, 2) == WIDE - 1
  {
    assert PrefixValue(MAX, 1) == U128_MAX;
    ShiftedInPass(MAX, WIDE, 1, U64_MOD / 2 - 1, WIDE - 1);
  }

  /** Not by 2^65. */
  lemma WideDivisorIsInexact()
    ensures Value(Quotient(MAX, WIDE)) != (Pow2(HASH_BITS) - 1) / WIDE
  {
    WideRemainder();
    MaxExactIffNoBitLost(WIDE);
  }

  /** But again by 2^128 - 1, whose remainders are all 0 or 2^64 - 1. */
  lemma WidestDivisorIsExact()
    ensures Value(Quotient(MAX, U128_MAX)) == (Pow2(HASH_BITS) - 1) / U128_MAX
  {
    forall k | 1 <= k <= 7
      ensures Shifted(MAX, U128_MAX, k) < U64_MOD
    {
      WidestRemainder(k);
    }
    MaxExactIffNoBitLost(U128_MAX);
  }

  lemma {:induction false} WidestRemainder(k: nat)
    requires k < 8
    ensures Shifted(MAX, U128_MAX, k) == if k % 2 == 0 then 0 else U64_MAX
  {
    if k == 0 {
      DivUnique(0, U128_MAX, 0, 0);
    } else if k == 1 {
      HighOfOnes();
      DivUnique(U64_MAX, U128_MAX, 0, U64_MAX);
    } else {
      WidestRemainder(k - 2);
      HalfPrefixOfMax(k - 2);
      WidestStep(HalfPrefix(MAX, k - 2));
    }
  }

  /** Appending a limb of ones does not change the remainder by 2^128 - 1. */
  lemma WidestStep(p: nat)
    ensures Rem(p * M + U128_MAX, U128_MAX) == Rem(p, U128_MAX)
  {
    DivMod(p, U128_MAX);
    var q, r := p / U128_MAX, p % U128_MAX;
    DivUnique(p * M + U128_MAX, U128_MAX, q * M + r + 1, r);
  }
}
