/** The string key `"{tx_hash}:{output_index}"` under which an unspent output is filed. */
module OutpointKeys {

  import opened Words

  function Digit(d: nat): char
    requires d < 10
  {
    ('0' as int + d) as char
  }

  /** Decimal formatting of an unsigned number. */
  function Decimal(n: nat): (s: string)
    ensures |s| > 0
  {
    if n < 10 then [Digit(n)] else Decimal(n / 10) + [Digit(n % 10)]
  }

  function Key(txHash: string, outputIndex: u32): string {
    txHash + ":" + Decimal(outputIndex)
  }

  lemma {:induction false} DecimalHasNoColon(n: nat)
    ensures ':' !in Decimal(n)
  {
    if n >= 10 {
      DecimalHasNoColon(n / 10);
    }
  }

  lemma {:induction false} DecimalInjective(m: nat, n: nat)
    requires Decimal(m) == Decimal(n)
    ensures m == n
  {
    var s := Decimal(m);
    assert m % 10 == s[|s| - 1] as int - '0' as int == n % 10;
    if m >= 10 && n >= 10 {
      assert Decimal(m / 10) == s[..|s| - 1] == Decimal(n / 10);
      DecimalInjective(m / 10, n / 10);
    }
  }

  /** What follows the last colon, and what precedes it, are determined by the whole string. */
  lemma LastColonSplits(a: string, x: string, b: string, y: string)
    requires a + ":" + x == b + ":" + y && ':' !in x && ':' !in y
    ensures a == b && x == y
  {
    var s, t := a + ":" + x, b + ":" + y;
    assert s[|a|] == ':' && t[|b|] == ':';
    assert a == s[..|a|] && b == t[..|b|];
    assert x == s[|a| + 1..] && y == t[|b| + 1..];
  }

  /** Two outpoints share a key only when they are the same outpoint, whatever the hash strings hold. */
  lemma KeyInjective(h: string, i: u32, h': string, i': u32)
    requires Key(h, i) == Key(h', i')
    ensures h == h' && i == i'
  {
    DecimalHasNoColon(i);
    DecimalHasNoColon(i');
    LastColonSplits(h, Decimal(i), h', Decimal(i'));
    DecimalInjective(i, i');
  }
}
