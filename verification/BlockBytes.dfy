/** Block serialisation (src/block_builder.rs).  An address is the sequence of its UTF-8 bytes. */
module BlockBytes {

  import opened Words
  import opened Outcomes
  import opened Encoding

  type Hash32 = h: seq<Byte> | |h| == 32 witness Repeat(0, 32)

  datatype BlockHeader = BlockHeader(
    version: u32,
    prevBlockHash: Hash32,
    merkleRoot: Hash32,
    timestamp: u32,
    bits: u32,
    nonce: u32)

  datatype CoinbaseTransaction = CoinbaseTransaction(
    blockHeight: u64,
    minerAddress: seq<Byte>,
    rewardAmount: u128,
    transactionFees: u128)

  datatype Block = Block(header: BlockHeader, coinbase: CoinbaseTransaction, height: u64, timestamp: u64)

  datatype HeaderError = BadHeaderSize

  // ---------------------------------------------------------------- layouts

  function HeaderBytes(h: BlockHeader): (b: seq<Byte>)
    ensures |b| == 80
  {
    LE(h.version, 4) + h.prevBlockHash + h.merkleRoot + LE(h.timestamp, 4) + LE(h.bits, 4) + LE(h.nonce, 4)
  }

  /** `u32::from_le_bytes` */
  function U32At(b: seq<Byte>, i: nat): u32
    requires i + 4 <= |b|
  {
    FromLEBound(b[i..i + 4]);
    Pow2HalfWord();
    FromLE(b[i..i + 4])
  }

  function ParseHeader(b: seq<Byte>): Result<BlockHeader, HeaderError> {
    if |b| != 80 then Err(BadHeaderSize)
    else Ok(BlockHeader(U32At(b, 0), b[4..36], b[36..68], U32At(b, 68), U32At(b, 72), U32At(b, 76)))
  }

  function CoinbaseBytes(c: CoinbaseTransaction): (b: seq<Byte>)
    ensures |b| == 41 + |c.minerAddress|
  {
    LE(c.blockHeight, 8) + c.minerAddress + [0] + LE(c.rewardAmount, 16) + LE(c.transactionFees, 16)
  }

  function BlockLayout(b: Block): seq<Byte> {
    HeaderBytes(b.header) + CoinbaseBytes(b.coinbase) + LE(b.height, 8) + LE(b.timestamp, 8)
  }

  // ---------------------------------------------------------------- the serialisers

  method HeaderToBytes(h: BlockHeader) returns (bytes: seq<Byte>)
    ensures bytes == HeaderBytes(h) && ParseHeader(bytes) == Ok(h)
  {
    bytes := [];
    bytes := bytes + LE(h.version, 4);
    bytes := bytes + h.prevBlockHash;
    bytes := bytes + h.merkleRoot;
    bytes := bytes + LE(h.timestamp, 4);
    bytes := bytes + LE(h.bits, 4);
    bytes := bytes + LE(h.nonce, 4);
    assert bytes == HeaderBytes(h);
    HeaderRoundTrip(h);
  }

  method CoinbaseToBytes(c: CoinbaseTransaction) returns (bytes: seq<Byte>)
    ensures bytes == CoinbaseBytes(c)
    ensures forall d :: CoinbaseBytes(d) == bytes ==> d == c
  {
    bytes := [];
    bytes := bytes + LE(c.blockHeight, 8);
    bytes := bytes + c.minerAddress;
    bytes := bytes + [0];
    bytes := bytes + LE(c.rewardAmount, 16);
    bytes := bytes + LE(c.transactionFees, 16);
    assert bytes == CoinbaseBytes(c);
    forall d | CoinbaseBytes(d) == bytes
      ensures d == c
    {
      CoinbaseInjective(c, d);
    }
  }

  method BlockToBytes(b: Block) returns (bytes: seq<Byte>)
    ensures bytes == BlockLayout(b)
    ensures forall d :: BlockLayout(d) == bytes ==> d == b
  {
    bytes := [];
    var header := HeaderToBytes(b.header);
    bytes := bytes + header;
    var coinbase := CoinbaseToBytes(b.coinbase);
    bytes := bytes + coinbase;
    bytes := bytes + LE(b.height, 8);
    bytes := bytes + LE(b.timestamp, 8);
    assert bytes == BlockLayout(b);
    forall d | BlockLayout(d) == bytes
      ensures d == b
    {
      BlockBytesInjective(d, b);
    }
  }

  // ---------------------------------------------------------------- round trips

  lemma WordRoundTrip(x: u32)
    ensures FromLE(LE(x, 4)) == x
  {
    Pow2HalfWord();
    LERoundTrip(x, 4);
  }

  /** The 80 bytes of a header, field by field. */
  lemma HeaderFields(h: BlockHeader)
    ensures var b := HeaderBytes(h);
            && b[0..4] == LE(h.version, 4) && b[4..36] == h.prevBlockHash && b[36..68] == h.merkleRoot
            && b[68..72] == LE(h.timestamp, 4) && b[72..76] == LE(h.bits, 4) && b[76..80] == LE(h.nonce, 4)
  {
  }

  /** The bytes of a coinbase: a zero byte ends the address, and amounts and height are little-endian words. */
  lemma CoinbaseFields(c: CoinbaseTransaction)
    ensures var b, n := CoinbaseBytes(c), |c.minerAddress|;
            && b[0..8] == LE(c.blockHeight, 8) && b[8..8 + n] == c.minerAddress && b[8 + n] == 0
            && b[9 + n..25 + n] == LE(c.rewardAmount, 16) && b[25 + n..41 + n] == LE(c.transactionFees, 16)
  {
  }

  /** The bytes of a block: header, coinbase, height and time. */
  lemma BlockFields(b: Block)
    ensures var s, n := BlockLayout(b), 121 + |b.coinbase.minerAddress|;
            && |s| == n + 16
            && s[0..80] == HeaderBytes(b.header) && s[80..n] == CoinbaseBytes(b.coinbase)
            && s[n..n + 8] == LE(b.height, 8) && s[n + 8..] == LE(b.timestamp, 8)
  {
  }

  /** Reading back a written header gives the header. */
  lemma HeaderRoundTrip(h: BlockHeader)
    ensures ParseHeader(HeaderBytes(h)) == Ok(h)
  {
    var b := HeaderBytes(h);
    assert b[0..4] == LE(h.version, 4) && b[68..72] == LE(h.timestamp, 4);
    assert b[4..36] == h.prevBlockHash && b[36..68] == h.merkleRoot;
    assert b[72..76] == LE(h.bits, 4) && b[76..80] == LE(h.nonce, 4);
    WordRoundTrip(h.version);
    WordRoundTrip(h.timestamp);
    WordRoundTrip(h.bits);
    WordRoundTrip(h.nonce);
  }

  /** Every 80-byte string is the writing of the header it parses to. */
  lemma ParseRoundTrip(b: seq<Byte>)
    requires |b| == 80
    ensures ParseHeader(b).Ok? && HeaderBytes(ParseHeader(b).value) == b
  {
    FromLERoundTrip(b[0..4]);
    FromLERoundTrip(b[68..72]);
    FromLERoundTrip(b[72..76]);
    FromLERoundTrip(b[76..80]);
  }

  /** Anything but 80 bytes is refused. */
  lemma OtherSizesRefused(b: seq<Byte>)
    ensures |b| != 80 <==> ParseHeader(b) == Err(BadHeaderSize)
  {
  }

  lemma Pow2OfBytes()
    ensures Pow2(8 * 8) == U64_MOD && Pow2(8 * 16) == U128_MOD
  {
    Pow2Word();
    Pow2Limb();
  }

  lemma LEInjective(x: nat, y: nat, n: nat)
    requires x < Pow2(8 * n) && y < Pow2(8 * n) && LE(x, n) == LE(y, n)
    ensures x == y
  {
    LERoundTrip(x, n);
    LERoundTrip(y, n);
  }

  /** One coinbase writing determines the coinbase: the address length follows from the total length. */
  lemma CoinbaseInjective(c: CoinbaseTransaction, d: CoinbaseTransaction)
    requires CoinbaseBytes(c) == CoinbaseBytes(d)
    ensures c == d
  {
    var b, n := CoinbaseBytes(c), |c.minerAddress|;
    assert |d.minerAddress| == n;
    assert b[..8] == LE(c.blockHeight, 8) == LE(d.blockHeight, 8);
    assert b[8..8 + n] == c.minerAddress == d.minerAddress;
    assert b[9 + n..25 + n] == LE(c.rewardAmount, 16) == LE(d.rewardAmount, 16);
    assert b[25 + n..] == LE(c.transactionFees, 16) == LE(d.transactionFees, 16);
    Pow2OfBytes();
    LEInjective(c.blockHeight, d.blockHeight, 8);
    LEInjective(c.rewardAmount, d.rewardAmount, 16);
    LEInjective(c.transactionFees, d.transactionFees, 16);
  }

  /** Different blocks are written differently, although the address carries no length. */
  lemma BlockBytesInjective(a: Block, b: Block)
    requires BlockLayout(a) == BlockLayout(b)
    ensures a == b
  {
    var s, n := BlockLayout(a), |BlockLayout(a)|;
    assert |CoinbaseBytes(a.coinbase)| == n - 96 == |CoinbaseBytes(b.coinbase)|;
    assert s[..80] == HeaderBytes(a.header) == HeaderBytes(b.header);
    assert s[80..n - 16] == CoinbaseBytes(a.coinbase) == CoinbaseBytes(b.coinbase);
    assert s[n - 16..n - 8] == LE(a.height, 8) == LE(b.height, 8);
    assert s[n - 8..] == LE(a.timestamp, 8) == LE(b.timestamp, 8);
    HeaderRoundTrip(a.header);
    HeaderRoundTrip(b.header);
    CoinbaseInjective(a.coinbase, b.coinbase);
    Pow2OfBytes();
    LEInjective(a.height, b.height, 8);
    LEInjective(a.timestamp, b.timestamp, 8);
  }
}
