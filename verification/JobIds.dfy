/**
 Job identifiers of shares.  The CPU miner writes its nonce in hexadecimal
 (src/bin/cpu_miner_real.rs:326); the pool reads the text before the first
 underscore as a decimal block height (src/stratum_pool.rs:1310-1316).
 */
module JobIds {

  import opened Words
  import opened Outcomes
  import opened Hex
  import opened OutpointKeys

  /** `{:x}` */
  function LowerHex(n: nat): (s: string)
    ensures |s| > 0
  {
    if n < 16 then [HexDigit(n)] else LowerHex(n / 16) + [HexDigit(n % 16)]
  }

  /** `split('_').next()` */
  function Prefix(s: string): string {
    if s == [] || s[0] == '_' then [] else [s[0]] + Prefix(s[1..])
  }

  /** The value of a text of decimal digits. */
  function Digits(s: string): Option<nat> {
    if s == [] then Some(0)
    else
      var last := s[|s| - 1];
      match Digits(s[..|s| - 1])
      case Some(n) => if '0' <= last <= '9' then Some(10 * n + (last as nat - '0' as nat)) else None
      case None => None
  }

  /** `parse::<u64>().ok()`: a plus sign is skipped, and nothing but digits that fit may follow. */
  function ParseU64(s: string): Option<u64> {
    var digits := if s != [] && s[0] == '+' then s[1..] else s;
    if digits == [] then None
    else
      match Digits(digits)
      case Some(n) => if n < U64_MOD then Some(n) else None
      case None => None
  }

  /** The block height the pool takes a job identifier to be for; 0 when it finds none. */
  function HeightOf(jobId: string): u64 {
    match ParseU64(Prefix(jobId)) case Some(h) => h case None => 0
  }

  /** The identifier the miner makes up for a share. */
  function JobIdOf(nonce: u64, hashHex: string): string
    requires |hashHex| >= 16
  {
    LowerHex(nonce) + "_" + hashHex[..16]
  }

  /** A number whose hexadecimal digits are all below ten, read as if they were decimal. */
  function ReadAsDecimal(n: nat): (r: Option<nat>)
    ensures r.Some? ==> r.value <= n
  {
    if n % 16 >= 10 then None
    else if n < 16 then Some(n)
    else
      match ReadAsDecimal(n / 16)
      case Some(m) => Some(10 * m + n % 16)
      case None => None
  }

  lemma DigitText(d: nat)
    requires d < 16
    ensures HexDigit(d) != '_' && HexDigit(d) != '+'
    ensures '0' <= HexDigit(d) <= '9' <==> d < 10
    ensures d < 10 ==> HexDigit(d) as nat - '0' as nat == d
  {
  }

  lemma {:induction false} HexText(n: nat)
    ensures '_' !in LowerHex(n) && LowerHex(n)[0] != '+'
    ensures Digits(LowerHex(n)) == ReadAsDecimal(n)
  {
    DigitText(n % 16);
    if n < 16 {
      assert LowerHex(n)[..0] == [];
    } else {
      HexText(n / 16);
      assert LowerHex(n)[..|LowerHex(n)| - 1] == LowerHex(n / 16);
    }
  }

  lemma {:induction false} PrefixStops(a: string, b: string)
    requires '_' !in a
    ensures Prefix(a + "_" + b) == a
  {
    var s := a + "_" + b;
    if a != [] {
      PrefixStops(a[1..], b);
      assert s[0] == a[0] && s[1..] == a[1..] + "_" + b;
    }
  }

  /** What the pool reads from a miner's job: the nonce's hexadecimal digits as decimal ones, if they can be. */
  lemma HeightOfMinerJob(nonce: u64, hashHex: string)
    requires |hashHex| >= 16
    ensures HeightOf(JobIdOf(nonce, hashHex)) == match ReadAsDecimal(nonce) case Some(h) => h case None => 0
  {
    HexText(nonce);
    PrefixStops(LowerHex(nonce), hashHex[..16]);
  }

  lemma {:induction false} DecimalText(n: nat)
    ensures '_' !in Decimal(n) && Decimal(n)[0] != '+'
    ensures Digits(Decimal(n)) == Some(n)
  {
    if n < 10 {
      assert Decimal(n)[..0] == [];
    } else {
      DecimalText(n / 10);
      assert Decimal(n)[..|Decimal(n)| - 1] == Decimal(n / 10);
    }
  }

  /** A job identifier that begins with a decimal height and an underscore is taken for that height, if it fits u64. */
  lemma HeightOfPoolJob(height: nat, rest: string)
    ensures HeightOf(Decimal(height) + "_" + rest) == if height < 0x1_0000_0000_0000_0000 then height else 0
  {
    DecimalText(height);
    PrefixStops(Decimal(height), rest);
  }

  /** Text that is no number, a leading plus sign aside, is taken for no height. */
  lemma HeightOfOther(prefix: string, rest: string)
    requires '_' !in prefix
    requires exists i :: 0 <= i < |prefix| && !('0' <= prefix[i] <= '9') && (i > 0 || prefix[0] != '+')
    ensures HeightOf(prefix + "_" + rest) == 0
  {
    PrefixStops(prefix, rest);
    var i :| 0 <= i < |prefix| && !('0' <= prefix[i] <= '9') && (i > 0 || prefix[0] != '+');
    if prefix[0] == '+' {
      OtherDigits(prefix[1..], i - 1);
    } else {
      OtherDigits(prefix, i);
    }
  }

  lemma {:induction false} OtherDigits(s: string, i: nat)
    requires i < |s| && !('0' <= s[i] <= '9')
    ensures Digits(s) == None
    decreases |s|
  {
    if i < |s| - 1 {
      OtherDigits(s[..|s| - 1], i);
    }
  }
}
