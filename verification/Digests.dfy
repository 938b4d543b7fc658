/**
  The block layer that SHA-1, MD5 and MD4 share: messages folded block by
  block, the 64-bit length kept as two 32-bit words, and padding. The
  compression functions are kept abstract.
*/
module Digests {
  import opened Streams

  const BLOCK := 64
  const TWO32 := 0x1_0000_0000
  const TWO64 := 0x1_0000_0000_0000_0000

  type u32 = w: int | 0 <= w < TWO32
  type Words = seq<u32>

  /** What one 64-byte block does to the chaining state. */
  type Compress = (Words, seq<byte>) -> Words

  /** The state after all blocks of a message that is a whole number of blocks. */
  function Fold(f: Compress, iv: Words, msg: seq<byte>): Words
    requires |msg| % BLOCK == 0
  {
    if msg == [] then iv else f(Fold(f, iv, msg[..|msg| - BLOCK]), msg[|msg| - BLOCK..])
  }

  /** The whole blocks of a message, and what is left. */
  function Full(msg: seq<byte>): (r: seq<byte>)
    ensures |r| % BLOCK == 0
  {
    msg[..|msg| - |msg| % BLOCK]
  }

  function Tail(msg: seq<byte>): (r: seq<byte>)
    ensures |r| == |msg| % BLOCK
  {
    msg[|msg| - |msg| % BLOCK..]
  }

  /** A context that has taken in `msg`: the state, and a buffer that begins with the unfinished block. */
  predicate Absorbed(f: Compress, iv: Words, msg: seq<byte>, state: Words, buffer: seq<byte>) {
    state == Fold(f, iv, Full(msg)) && Tail(msg) <= buffer
  }

  lemma BlockIndex(m: nat, x: nat)
    requires m % BLOCK + x < BLOCK
    ensures (m + x) % BLOCK == m % BLOCK + x
  {
  }

  /** More input that does not complete the block. */
  lemma AbsorbPart(f: Compress, iv: Words, msg: seq<byte>, x: seq<byte>)
    requires |msg| % BLOCK + |x| < BLOCK
    ensures Full(msg + x) == Full(msg) && Tail(msg + x) == Tail(msg) + x
  {
    BlockIndex(|msg|, |x|);
  }

  lemma WholeBlocks(m: nat, x: nat)
    requires m % BLOCK + x == BLOCK
    ensures (m + x) % BLOCK == 0 && m + x - BLOCK == m - m % BLOCK
  {
  }

  lemma FullIsAll(msg: seq<byte>)
    requires |msg| % BLOCK == 0
    ensures Full(msg) == msg
  {
  }

  lemma FoldLast(f: Compress, iv: Words, msg: seq<byte>)
    requires |msg| % BLOCK == 0 && |msg| >= BLOCK
    ensures Fold(f, iv, msg) == f(Fold(f, iv, msg[..|msg| - BLOCK]), msg[|msg| - BLOCK..])
  {
  }

  /** Input that completes the block. */
  lemma AbsorbBlock(f: Compress, iv: Words, msg: seq<byte>, x: seq<byte>)
    requires |msg| % BLOCK + |x| == BLOCK
    ensures |msg + x| % BLOCK == 0 && |Tail(msg) + x| == BLOCK
    ensures Fold(f, iv, Full(msg + x)) == f(Fold(f, iv, Full(msg)), Tail(msg) + x)
    ensures Tail(msg + x) == []
  {
    hide Fold;
    var whole := msg + x;
    WholeBlocks(|msg|, |x|);
    assert Full(whole) == whole;
    assert whole[..|whole| - BLOCK] == Full(msg);
    assert whole[|whole| - BLOCK..] == Tail(msg) + x;
    FoldLast(f, iv, whole);
  }

  // ----- The length in bits, as two words

  function Shl3(n: nat): u32 {
    n * 8 % TWO32
  }

  function Shr29(n: nat): (r: nat) {
    n / 0x2000_0000
  }

  /** The words hold 8 times the length, modulo 2^64. */
  predicate Counts(lo: u32, hi: u32, length: nat) {
    lo + hi * TWO32 == length * 8 % TWO64
  }

  /** The two-word addition, with the carry found by comparing; right for any number of bytes below 2^32. */
  lemma CountMore(lo: u32, hi: u32, length: nat, n: nat)
    requires Counts(lo, hi, length) && n < TWO32
    ensures var lo' := (lo + Shl3(n)) % TWO32;
      var carry := if lo' < lo then 1 else 0;
      && (lo' < lo <==> lo' < Shl3(n))
      && Counts(lo', (hi + carry + Shr29(n)) % TWO32, length + n)
  {
    var lo' := (lo + Shl3(n)) % TWO32;
    var carry := if lo' < lo then 1 else 0;
    assert n * 8 == Shr29(n) * TWO32 + Shl3(n);
    assert lo + Shl3(n) == lo' + carry * TWO32;
    var sum := hi + carry + Shr29(n);
    var hi' := sum % TWO32;
    assert lo + hi * TWO32 + n * 8 == lo' + sum * TWO32;
    assert sum == hi' + sum / TWO32 * TWO32;
    var q := length * 8 / TWO64;
    assert length * 8 == q * TWO64 + lo + hi * TWO32;
    assert (length + n) * 8 == (q + sum / TWO32) * TWO64 + (lo' + hi' * TWO32);
    ModUnique((length + n) * 8, q + sum / TWO32, lo' + hi' * TWO32);
  }

  lemma CarryThenAdd(hi: nat, carry: nat, more: nat)
    ensures ((hi + carry) % TWO32 + more) % TWO32 == (hi + carry + more) % TWO32
  {
    var q := (hi + carry) / TWO32;
    assert hi + carry == q * TWO32 + (hi + carry) % TWO32;
  }

  lemma ModUnique(x: nat, q: int, r: int)
    requires x == q * TWO64 + r && 0 <= r < TWO64
    ensures x % TWO64 == r
  {
  }

  /** The low word tells how full the block is. */
  lemma CountIndex(lo: u32, hi: u32, length: nat)
    requires Counts(lo, hi, length)
    ensures lo / 8 % BLOCK == length % BLOCK
  {
    var q := length * 8 / TWO64;
    assert length * 8 == q * TWO64 + lo + hi * TWO32;
    var e := length - q * (TWO64 / 8) - hi * (TWO32 / 8);
    assert lo == 8 * e;
    SameBlock(length, e, q * (TWO64 / 512) + hi * (TWO32 / 512));
  }

  lemma SameBlock(length: nat, e: nat, blocks: nat)
    requires length == e + BLOCK * blocks
    ensures e % BLOCK == length % BLOCK
  {
  }

  // ----- Bytes and words

  function BigEndian(w: u32): (r: seq<byte>)
    ensures |r| == 4
  {
    [w / 0x100_0000, w / 0x1_0000 % 256, w / 0x100 % 256, w % 256]
  }

  function LittleEndian(w: u32): (r: seq<byte>)
    ensures |r| == 4
  {
    [w % 256, w / 0x100 % 256, w / 0x1_0000 % 256, w / 0x100_0000]
  }

  /** The word that four bytes stand for, most significant first. */
  function FromBigEndian(b: seq<byte>): (w: u32)
    requires |b| == 4
  {
    (b[0] as int) * 0x100_0000 + (b[1] as int) * 0x1_0000 + (b[2] as int) * 0x100 + (b[3] as int)
  }

  lemma BigEndianRoundTrip(w: u32)
    ensures FromBigEndian(BigEndian(w)) == w
  {
    var a, b, c := w / 0x100, w / 0x1_0000, w / 0x100_0000;
    assert w == a * 256 + w % 256 && a == b * 256 + a % 256 && b == c * 256 + b % 256;
  }

  /** The word that four bytes stand for, least significant first. */
  function FromLittleEndian(b: seq<byte>): (w: u32)
    requires |b| == 4
  {
    FromBigEndian([b[3], b[2], b[1], b[0]])
  }

  lemma LittleEndianRoundTrip(w: u32)
    ensures FromLittleEndian(LittleEndian(w)) == w
  {
    BigEndianRoundTrip(w);
  }

  lemma LittleEndianIs(a: byte, b: byte, c: byte, d: byte)
    ensures LittleEndian(FromLittleEndian([a, b, c, d])) == [a, b, c, d]
  {
    var w := FromLittleEndian([a, b, c, d]);
    assert w / 0x100 == (d * 256 + c) * 256 + b;
    assert w / 0x1_0000 == d * 256 + c;
  }

  function Pow256(i: nat): nat {
    if i == 0 then 1 else 256 * Pow256(i - 1)
  }

  lemma Pow256Positive(i: nat)
    ensures Pow256(i) > 0
  {
  }

  /** Byte `i` of a number, from the least significant one. */
  function ByteAt(v: nat, i: nat): byte {
    Pow256Positive(i);
    v / Pow256(i) % 256
  }

  /** The powers up to the length of a 64-bit number. */
  lemma Powers()
    ensures Pow256(0) == 1 && Pow256(1) == 0x100 && Pow256(2) == 0x1_0000 && Pow256(3) == 0x100_0000
    ensures Pow256(4) == TWO32 && Pow256(5) == 0x100 * TWO32 && Pow256(6) == 0x1_0000 * TWO32
    ensures Pow256(7) == 0x100_0000 * TWO32
  {
    assert Pow256(2) == 256 * Pow256(1);
    assert Pow256(3) == 256 * Pow256(2);
    assert Pow256(4) == 256 * Pow256(3);
    assert Pow256(5) == 256 * Pow256(4);
    assert Pow256(6) == 256 * Pow256(5);
    assert Pow256(7) == 256 * Pow256(6);
  }

  lemma LowByte(v: nat, hi: nat, lo: nat)
    requires v == hi * TWO32 + lo && lo < TWO32
    ensures v % 256 == lo % 256 && v / 0x100 % 256 == lo / 0x100 % 256
    ensures v / 0x1_0000 % 256 == lo / 0x1_0000 % 256 && v / 0x100_0000 % 256 == lo / 0x100_0000
  {
    DropHigh(v, hi * 0x100_0000, lo, 1);
    DropHigh(v, hi * 0x1_0000, lo, 0x100);
    DropHigh(v, hi * 0x100, lo, 0x1_0000);
    DropHigh(v, hi, lo, 0x100_0000);
    assert lo / 0x100_0000 % 256 == lo / 0x100_0000;
  }

  /** What is a multiple of the next byte's weight does not show in this byte. */
  lemma DropHigh(v: nat, q: nat, lo: nat, weight: nat)
    requires weight > 0 && v == q * (256 * weight) + lo
    ensures v / weight % 256 == lo / weight % 256
  {
    var x := lo / weight;
    assert lo == x * weight + lo % weight;
    assert v == (q * 256 + x) * weight + lo % weight;
    QuotientIs(v, weight, q * 256 + x, lo % weight);
  }

  lemma QuotientIs(v: nat, d: nat, q: nat, r: nat)
    requires r < d && v == q * d + r
    ensures v / d == q
  {
    var p := v / d;
    assert p < q ==> (p + 1) * d <= q * d;
    assert q < p ==> (q + 1) * d <= p * d;
  }

  lemma HighByte(v: nat, hi: nat, lo: nat)
    requires v == hi * TWO32 + lo && lo < TWO32 && hi < TWO32
    ensures v / TWO32 % 256 == hi % 256 && v / (0x100 * TWO32) % 256 == hi / 0x100 % 256
    ensures v / (0x1_0000 * TWO32) % 256 == hi / 0x1_0000 % 256
    ensures v / (0x100_0000 * TWO32) % 256 == hi / 0x100_0000
  {
    assert v / TWO32 == hi;
    assert v / (0x100 * TWO32) == hi / 0x100;
    assert v / (0x1_0000 * TWO32) == hi / 0x1_0000;
    assert v / (0x100_0000 * TWO32) == hi / 0x100_0000;
  }

  // ----- Padding

  /** Zero bytes after the 0x80 byte: the fewest that leave room for the length at the end of a block. */
  function ZeroCount(length: nat): (k: nat)
    ensures (length + 1 + k) % BLOCK == 56 && k < BLOCK
  {
    var r := length % BLOCK;
    if r < 56 then 55 - r else 119 - r
  }

  lemma ZeroCountLeast(length: nat, k: nat)
    requires (length + 1 + k) % BLOCK == 56
    ensures ZeroCount(length) <= k
  {
    var z := ZeroCount(length);
    assert (length + 1 + k) % BLOCK == (length + 1 + z) % BLOCK;
  }

  function Zeros(n: nat): (r: seq<byte>)
    ensures |r| == n
  {
    seq(n, i => 0)
  }

  /** The padded message; `lengthBytes` is the encoding of the length in bits. */
  function Padded(msg: seq<byte>, lengthBytes: seq<byte>): (r: seq<byte>)
    requires |lengthBytes| == 8
    ensures |r| % BLOCK == 0
  {
    msg + ([0x80] + Zeros(ZeroCount(|msg|))) + lengthBytes
  }

  /** The length in bits, low word and high word. */
  function LowBits(length: nat): u32 {
    length * 8 % TWO64 % TWO32
  }

  function HighBits(length: nat): u32 {
    length * 8 % TWO64 / TWO32
  }

  /** The two words, in the order and bytes that a digest writes them. */
  lemma BytesOfWords(length: nat, i: nat)
    requires i < 8
    ensures (LittleEndian(LowBits(length)) + LittleEndian(HighBits(length)))[i] == ByteAt(length * 8 % TWO64, i)
    ensures (BigEndian(HighBits(length)) + BigEndian(LowBits(length)))[7 - i] == ByteAt(length * 8 % TWO64, i)
  {
    var v, hi, lo := length * 8 % TWO64, HighBits(length), LowBits(length);
    hide Pow256;
    Powers();
    LowByte(v, hi, lo);
    HighByte(v, hi, lo);
  }

  lemma CountsAre(lo: u32, hi: u32, length: nat)
    requires Counts(lo, hi, length)
    ensures lo == LowBits(length) && hi == HighBits(length)
  {
  }
}
