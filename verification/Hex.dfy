/** Hexadecimal text (`hex::encode`, `hex::decode`, `{:x}`). */
module Hex {

  import opened Words
  import opened Outcomes

  /** The value of a digit in either case. */
  function Nibble(c: char): (n: Option<nat>)
    ensures n.Some? ==> n.value < 16
  {
    if '0' <= c <= '9' then Some(c as nat - '0' as nat)
    else if 'a' <= c <= 'f' then Some(c as nat - 'a' as nat + 10)
    else if 'A' <= c <= 'F' then Some(c as nat - 'A' as nat + 10)
    else None
  }

  function HexDigit(n: nat): char
    requires n < 16
  {
    if n < 10 then ('0' as int + n) as char else ('a' as int + n - 10) as char
  }

  function Decode(s: string): Option<seq<Byte>> {
    if s == [] then Some([])
    else if |s| == 1 then None
    else
      match (Nibble(s[0]), Nibble(s[1]), Decode(s[2..]))
      case (Some(hi), Some(lo), Some(rest)) => Some([16 * hi + lo] + rest)
      case _ => None
  }

  function Encode(b: seq<Byte>): string {
    if b == [] then [] else [HexDigit(b[0] / 16), HexDigit(b[0] % 16)] + Encode(b[1..])
  }

  lemma NibbleOfDigit(n: nat)
    requires n < 16
    ensures Nibble(HexDigit(n)) == Some(n)
  {
  }

  /** Capital letters are worth what small ones are. */
  lemma CapitalDigit(n: nat)
    requires 10 <= n < 16
    ensures Nibble(('A' as int + n - 10) as char) == Some(n) == Nibble(('a' as int + n - 10) as char)
  {
  }

  lemma {:induction false} EncodeRoundTrip(b: seq<Byte>)
    ensures Decode(Encode(b)) == Some(b)
  {
    if b != [] {
      EncodeRoundTrip(b[1..]);
      NibbleOfDigit(b[0] / 16);
      NibbleOfDigit(b[0] % 16);
      var s := Encode(b);
      assert s[0] == HexDigit(b[0] / 16) && s[1] == HexDigit(b[0] % 16) && s[2..] == Encode(b[1..]);
      assert [b[0]] + b[1..] == b;
    }
  }

  lemma {:induction false} EncodeLength(b: seq<Byte>)
    ensures |Encode(b)| == 2 * |b|
  {
    if b != [] {
      EncodeLength(b[1..]);
    }
  }

  predicate IsHexDigit(c: char) {
    '0' <= c <= '9' || 'a' <= c <= 'f' || 'A' <= c <= 'F'
  }

  /** A text decodes exactly when it is made of pairs of hexadecimal digits, one byte a pair. */
  lemma {:induction false} DecodeIff(s: string)
    ensures Decode(s).Some? <==> |s| % 2 == 0 && forall i :: 0 <= i < |s| ==> IsHexDigit(s[i])
    ensures Decode(s).Some? ==> 2 * |Decode(s).value| == |s|
  {
    if |s| > 1 {
      DecodeIff(s[2..]);
      assert s == [s[0], s[1]] + s[2..];
    }
  }

  /** `hex::decode(s).is_ok()` */
  predicate IsHex(s: string) {
    Decode(s).Some?
  }
}
