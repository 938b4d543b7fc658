/** apr_sha1_init, apr_sha1_update_binary and apr_sha1_final (crypto/apr_sha1.c). */
module Sha1 {
  import opened Streams
  import opened Digests

  /** sha_transform on the sixteen words of a block. */
  type Transform = (Words, Words) -> Words

  /** The words of a block, as maybe_byte_reverse leaves them. */
  function WordsOf(block: seq<byte>): (r: Words)
    requires |block| == BLOCK
    ensures |r| == 16
  {
    seq(16, i requires 0 <= i < 16 => FromBigEndian(block[4 * i..4 * i + 4]))
  }

  /** The transform as a function of the block's bytes. */
  function Rounds(t: Transform): Compress {
    (state: Words, block: seq<byte>) => if |block| == BLOCK then t(state, WordsOf(block)) else state
  }

  const IV: Words := [0x67452301, 0xefcdab89, 0x98badcfe, 0x10325476, 0xc3d2e1f0]

  /** The first state, as section 6.1 of RFC 3174 writes it: the digits count up and down. */
  lemma FirstState()
    ensures LittleEndian(IV[0]) + LittleEndian(IV[1]) == [0x01, 0x23, 0x45, 0x67, 0x89, 0xab, 0xcd, 0xef]
    ensures LittleEndian(IV[2]) + LittleEndian(IV[3]) == [0xfe, 0xdc, 0xba, 0x98, 0x76, 0x54, 0x32, 0x10]
    ensures LittleEndian(IV[4]) == [0xf0, 0xe1, 0xd2, 0xc3] && |IV| == 5
  {
    hide LittleEndian;
    LittleEndianIs(0x01, 0x23, 0x45, 0x67);
    LittleEndianIs(0x89, 0xab, 0xcd, 0xef);
    LittleEndianIs(0xfe, 0xdc, 0xba, 0x98);
    LittleEndianIs(0x76, 0x54, 0x32, 0x10);
    LittleEndianIs(0xf0, 0xe1, 0xd2, 0xc3);
  }

  /** The length of the message in bits, most significant byte first. */
  function LengthBytes(length: nat): (r: seq<byte>)
    ensures |r| == 8
  {
    BigEndian(HighBits(length)) + BigEndian(LowBits(length))
  }

  /** The last byte is the low-order one of the length in bits, modulo 2^64. */
  lemma LengthByte(length: nat, i: nat)
    requires i < 8
    ensures LengthBytes(length)[7 - i] == ByteAt(length * 8 % TWO64, i)
  {
    BytesOfWords(length, i);
  }

  /** The digest's words, most significant byte first. */
  function Output(state: Words): seq<byte> {
    if state == [] then [] else BigEndian(state[0]) + Output(state[1..])
  }

  /** Each four bytes read back as their word. */
  lemma {:induction false} OutputWord(state: Words, i: nat)
    requires i < |state|
    ensures |Output(state)| == 4 * |state| && FromBigEndian(Output(state)[4 * i..4 * i + 4]) == state[i]
  {
    hide BigEndian, FromBigEndian;
    BigEndianRoundTrip(state[0]);
    OutputLength(state[1..]);
    if i == 0 {
      assert Output(state)[0..4] == BigEndian(state[0]);
    } else {
      OutputWord(state[1..], i - 1);
      assert Output(state)[4 * i..4 * i + 4] == Output(state[1..])[4 * (i - 1)..4 * (i - 1) + 4];
    }
  }

  lemma {:induction false} OutputLength(state: Words)
    ensures |Output(state)| == 4 * |state|
  {
    if state != [] {
      OutputLength(state[1..]);
    }
  }

  /** SHA-1 of section 4 of RFC 3174, over the abstract transform. */
  function Hash(t: Transform, msg: seq<byte>): seq<byte> {
    Output(Fold(Rounds(t), IV, Padded(msg, LengthBytes(|msg|))))
  }

  class Context {
    const transform: Transform
    const data: array<byte>
    var digest: Words
    var countLo: u32
    var countHi: u32
    var local: nat
    ghost var msg: seq<byte>     // everything taken in so far

    ghost predicate Valid()
      reads this, data
    {
      && data.Length == BLOCK && local == |msg| % BLOCK
      && Counts(countLo, countHi, |msg|)
      && Absorbed(Rounds(transform), IV, msg, digest, data[..])
    }

    /** apr_sha1_init. */
    constructor (transform: Transform)
      ensures Valid() && msg == [] && this.transform == transform && fresh(data)
    {
      this.transform := transform;
      data := new byte[BLOCK];
      digest, countLo, countHi, local, msg := IV, 0, 0, 0, [];
    }

    /** memcpy into the block. */
    method Fill(at: nat, x: seq<byte>)
      requires at + |x| <= data.Length
      modifies data
      ensures data[..] == old(data[..at]) + x + old(data[at + |x|..])
    {
      forall i | 0 <= i < |x| {
        data[at + i] := x[i];
      }
    }

    /** The state between the steps of an update: no count and no `local` yet. */
    ghost predicate Taken(m: seq<byte>)
      reads `digest, data
    {
      data.Length == BLOCK && Absorbed(Rounds(transform), IV, m, digest, data[..])
    }

    lemma TakenSize(m: seq<byte>)
      requires Taken(m)
      ensures data.Length == BLOCK
    {
    }

    /** Complete the block with `x` and transform it. */
    method Complete(x: seq<byte>, ghost m: seq<byte>)
      requires Taken(m) && |m| % BLOCK + |x| == BLOCK
      modifies data, `digest
      ensures Taken(m + x) && |m + x| % BLOCK == 0
    {
      hide Fold, Full, Tail, WordsOf;
      AbsorbBlock(Rounds(transform), IV, m, x);
      ghost var tail := Tail(m);
      Fill(BLOCK - |x|, x);
      assert data[..] == tail + x;
      digest := transform(digest, WordsOf(data[..]));
    }

    /** Put `x`, which does not complete the block, into the buffer. */
    method Keep(at: nat, x: seq<byte>, ghost m: seq<byte>)
      requires Taken(m) && at == |m| % BLOCK && at + |x| < BLOCK
      modifies data
      ensures Taken(m + x)
    {
      hide Fold, Full, Tail;
      AbsorbPart(Rounds(transform), IV, m, x);
      ghost var tail := Tail(m);
      Fill(at, x);
      assert data[..|tail| + |x|] == tail + x;
    }

    /** The count words after `n` more bytes. */
    method Count(n: nat, ghost length: nat)
      requires n < TWO32 && Counts(countLo, countHi, length)
      modifies `countLo, `countHi
      ensures Counts(countLo, countHi, length + n)
    {
      hide Counts, Shl3, Shr29;
      CountMore(countLo, countHi, length, n);
      ghost var carry := if (countLo + Shl3(n)) % TWO32 < countLo then 1 else 0;
      CarryThenAdd(countHi, carry, Shr29(n));
      if (countLo + Shl3(n)) % TWO32 < countLo {
        countHi := (countHi + 1) % TWO32;
      }
      countLo := (countLo + Shl3(n)) % TWO32;
      countHi := (countHi + Shr29(n)) % TWO32;
    }

    /** apr_sha1_update_binary; its count is a 32-bit number. */
    method Update(buffer: seq<byte>)
      requires Valid() && |buffer| < TWO32
      modifies this, data
      ensures Valid() && msg == old(msg) + buffer
    {
      hide Fold, Absorbed, Counts;
      Count(|buffer|, |msg|);
      Absorb(buffer);
      msg := msg + buffer;
    }

    method Absorb(buffer: seq<byte>)
      requires Taken(msg) && local == |msg| % BLOCK
      modifies data, `digest, `local
      ensures Taken(msg + buffer) && local == |msg + buffer| % BLOCK
    {
      hide Taken;
      TakenSize(msg);
      var left := buffer;
      ghost var m := msg;
      if local != 0 {
        var i := BLOCK - local;
        if i > |left| {
          i := |left|;
        }
        var x := left[..i];
        left := left[i..];
        if local + i == BLOCK {
          Complete(x, m);
        } else {
          Keep(local, x, m);
          assert x == buffer;
          BlockIndex(|msg|, |x|);
          local := local + i;
          return;
        }
        m := m + x;
        assert m + left == msg + buffer;
      }
      while |left| >= BLOCK
        invariant Taken(m) && |m| % BLOCK == 0 && m + left == msg + buffer
        decreases |left|
      {
        var x := left[..BLOCK];
        left := left[BLOCK..];
        Complete(x, m);
        assert m + x + left == m + (x + left);
        m := m + x;
      }
      Keep(0, left, m);
      BlockIndex(|m|, |left|);
      local := |left|;
    }

    /** apr_sha1_final: the digest of everything taken in. */
    method Final() returns (out: seq<byte>)
      requires Valid()
      modifies this, data
      ensures out == Hash(transform, old(msg))
    {
      hide Fold, Absorbed, Counts, Output;
      CountIndex(countLo, countHi, |msg|);
      CountsAre(countLo, countHi, |msg|);
      var lo, hi := countLo, countHi;
      var count := lo / 8 % BLOCK;
      ghost var m := msg;
      if count + 1 > BLOCK - 8 {
        var x := [0x80] + Zeros(BLOCK - count - 1);
        Complete(x, m);
        m := m + x;
        Last(Zeros(BLOCK - 8), hi, lo, m);
        assert m + (Zeros(BLOCK - 8) + (BigEndian(hi) + BigEndian(lo))) == Padded(msg, LengthBytes(|msg|)) by {
          assert ZeroCount(|msg|) == BLOCK - count - 1 + (BLOCK - 8);
          assert Zeros(BLOCK - count - 1) + Zeros(BLOCK - 8) == Zeros(ZeroCount(|msg|));
        }
      } else {
        var x := [0x80] + Zeros(BLOCK - 8 - count - 1);
        Last(x, hi, lo, m);
        assert m + (x + (BigEndian(hi) + BigEndian(lo))) == Padded(msg, LengthBytes(|msg|)) by {
          assert ZeroCount(|msg|) == BLOCK - 8 - count - 1;
        }
      }
      out := Emit(digest);
    }

    /** The last block: `x` up to the length words, which are stored as words. */
    method Last(x: seq<byte>, hi: u32, lo: u32, ghost m: seq<byte>)
      requires Taken(m) && |m| % BLOCK + |x| == BLOCK - 8
      modifies data, `digest
      ensures var whole := m + (x + (BigEndian(hi) + BigEndian(lo)));
        |whole| % BLOCK == 0 && digest == Fold(Rounds(transform), IV, whole)
    {
      hide Fold, BigEndian, WordsOf, Tail, Full;
      ghost var end, tail := BigEndian(hi) + BigEndian(lo), Tail(m);
      AbsorbBlock(Rounds(transform), IV, m, x + end);
      FullIsAll(m + (x + end));
      Fill(BLOCK - 8 - |x|, x);
      assert data[..BLOCK - 8] == tail + x;
      WordsPatched(data[..], hi, lo);
      assert data[..][..BLOCK - 8] + end == tail + (x + end);
      var words := WordsOf(data[..]);
      digest := transform(digest, words[14 := hi][15 := lo]);
    }
  }

  /** Storing two words over the end of a block is storing their bytes. */
  lemma WordsPatched(block: seq<byte>, hi: u32, lo: u32)
    requires |block| == BLOCK
    ensures WordsOf(block)[14 := hi][15 := lo] == WordsOf(block[..56] + (BigEndian(hi) + BigEndian(lo)))
  {
    BigEndianRoundTrip(hi);
    BigEndianRoundTrip(lo);
    hide BigEndian, FromBigEndian;
    var patched := block[..56] + (BigEndian(hi) + BigEndian(lo));
    forall i | 0 <= i < 16 ensures WordsOf(block)[14 := hi][15 := lo][i] == WordsOf(patched)[i] {
      if i < 14 {
        assert patched[4 * i..4 * i + 4] == block[4 * i..4 * i + 4];
      } else if i == 14 {
        assert patched[56..60] == BigEndian(hi);
      } else {
        assert patched[60..64] == BigEndian(lo);
      }
    }
  }

  /** The loop that writes the digest's bytes. */
  method Emit(state: Words) returns (out: seq<byte>)
    ensures out == Output(state)
  {
    out := [];
    for i := 0 to |state|
      invariant out + Output(state[i..]) == Output(state)
    {
      assert state[i..][0] == state[i] && state[i..][1..] == state[i + 1..];
      out := out + BigEndian(state[i]);
    }
  }
}
