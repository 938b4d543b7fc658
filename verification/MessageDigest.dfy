/**
  The streaming layer that MD5 and MD4 have in common: md5_update_buffer and
  apr_md5_final (crypto/apr_md5.c), apr_md4_update and apr_md4_final
  (crypto/apr_md4.c). The two differ only in the transform.
*/
module MessageDigest {
  import opened Streams
  import opened Digests

  const IV: Words := [0x67452301, 0xefcdab89, 0x98badcfe, 0x10325476]

  /** The length of the message in bits, low-order word and byte first. */
  function LengthBytes(length: nat): (r: seq<byte>)
    ensures |r| == 8
  {
    LittleEndian(LowBits(length)) + LittleEndian(HighBits(length))
  }

  /** Byte i is bits 8i to 8i + 7 of the length in bits, modulo 2^64: low-order byte first. */
  lemma LengthByte(length: nat, i: nat)
    requires i < 8
    ensures LengthBytes(length)[i] == ByteAt(length * 8 % TWO64, i)
  {
    BytesOfWords(length, i);
  }

  /** Encode: words to bytes, low-order byte first. */
  function Encode(words: Words): seq<byte> {
    if words == [] then [] else LittleEndian(words[0]) + Encode(words[1..])
  }

  /** Each four bytes read back as their word. */
  lemma {:induction false} EncodeWord(words: Words, i: nat)
    requires i < |words|
    ensures |Encode(words)| == 4 * |words| && FromLittleEndian(Encode(words)[4 * i..4 * i + 4]) == words[i]
  {
    hide LittleEndian, FromLittleEndian;
    LittleEndianRoundTrip(words[0]);
    EncodeLength(words[1..]);
    if i == 0 {
      assert Encode(words)[0..4] == LittleEndian(words[0]);
    } else {
      EncodeWord(words[1..], i - 1);
      assert Encode(words)[4 * i..4 * i + 4] == Encode(words[1..])[4 * (i - 1)..4 * (i - 1) + 4];
    }
  }

  lemma {:induction false} EncodeLength(words: Words)
    ensures |Encode(words)| == 4 * |words|
  {
    if words != [] {
      EncodeLength(words[1..]);
    }
  }

  /** The first state, as section 3.3 of RFC 1321 writes it: low-order bytes first, the digits count up and down. */
  lemma FirstState()
    ensures LittleEndian(IV[0]) + LittleEndian(IV[1]) == [0x01, 0x23, 0x45, 0x67, 0x89, 0xab, 0xcd, 0xef]
    ensures LittleEndian(IV[2]) + LittleEndian(IV[3]) == [0xfe, 0xdc, 0xba, 0x98, 0x76, 0x54, 0x32, 0x10]
  {
    hide LittleEndian;
    LittleEndianIs(0x01, 0x23, 0x45, 0x67);
    LittleEndianIs(0x89, 0xab, 0xcd, 0xef);
    LittleEndianIs(0xfe, 0xdc, 0xba, 0x98);
    LittleEndianIs(0x76, 0x54, 0x32, 0x10);
  }

  /** MD5 of sections 3.1 to 3.5 of RFC 1321, MD4 of those of RFC 1320, over the abstract transform. */
  function Hash(f: Compress, msg: seq<byte>): seq<byte> {
    Encode(Fold(f, IV, Padded(msg, LengthBytes(|msg|))))
  }

  const PADDING: seq<byte> := [0x80] + Zeros(63)

  /** The loop counter of an update is a 32-bit number. */
  function Next63(i: nat): nat {
    (i + 63) % TWO32
  }

  /** Where the counter stands when less than a block is left: everything before it was whole blocks. */
  function LastIndex(idx: nat, n: nat): int {
    n - (idx + n) % BLOCK
  }

  /**
    The guard stops the loop there exactly if the counter does not overflow,
    and from 2^32 bytes on it stops the loop nowhere.
  */
  lemma StopsExactly(idx: nat, n: nat)
    requires idx < BLOCK && BLOCK - idx <= n
    ensures !(Next63(LastIndex(idx, n)) < n) <==> n < TWO32 && LastIndex(idx, n) + 63 < TWO32
    ensures n >= TWO32 ==> forall i: nat :: Next63(i) < n
  {
    var i := LastIndex(idx, n);
    assert n - i < BLOCK && i + 63 >= n;
    assert n < TWO32 && i + 63 >= TWO32 ==> Next63(i) == i + 63 - TWO32 < 63 && n > TWO32 - 64;
  }

  /** Until then the guard asks for a whole block of input. */
  lemma GuardIsBlock(idx: nat, i: nat, n: nat)
    requires idx < BLOCK && i <= n < TWO32 && (idx + i) % BLOCK == 0 && LastIndex(idx, n) + 63 < TWO32
    ensures Next63(i) < n <==> i + BLOCK <= n
  {
    if i + BLOCK > n {
      assert (idx + n) % BLOCK == n - i;
    }
  }

  /** An input size at which the loop reads past its input. */
  lemma GuardOverruns()
    ensures var n := TWO32 - 1; var i := LastIndex(63, n);
      0 < i <= n && n - i < BLOCK && Next63(i) < n
  {
  }

  class Context {
    const transform: Compress
    const buffer: array<byte>
    var state: Words
    var count0: u32
    var count1: u32
    ghost var msg: seq<byte>     // everything taken in so far

    ghost predicate Valid()
      reads this, buffer
    {
      Counts(count0, count1, |msg|) && Taken(msg)
    }

    ghost predicate Taken(m: seq<byte>)
      reads this, buffer
    {
      buffer.Length == BLOCK && Absorbed(transform, IV, m, state, buffer[..])
    }

    /** apr_md5_init, apr_md4_init. */
    constructor (transform: Compress)
      ensures Valid() && msg == [] && this.transform == transform && fresh(buffer)
    {
      this.transform := transform;
      buffer := new byte[BLOCK];
      state, count0, count1, msg := IV, 0, 0, [];
    }

    method Fill(at: nat, x: seq<byte>)
      requires at + |x| <= buffer.Length
      modifies buffer
      ensures buffer[..] == old(buffer[..at]) + x + old(buffer[at + |x|..])
    {
      forall i | 0 <= i < |x| {
        buffer[at + i] := x[i];
      }
    }

    /** Complete the buffered block with `x` and transform it. */
    method Complete(x: seq<byte>, ghost m: seq<byte>)
      requires Taken(m) && |m| % BLOCK + |x| == BLOCK
      modifies buffer, `state
      ensures Taken(m + x) && |m + x| % BLOCK == 0
    {
      hide Fold, Full, Tail;
      AbsorbBlock(transform, IV, m, x);
      ghost var tail := Tail(m);
      Fill(BLOCK - |x|, x);
      assert buffer[..] == tail + x;
      state := transform(state, buffer[..]);
    }

    /** Transform a block straight from the input. */
    method Direct(x: seq<byte>, ghost m: seq<byte>)
      requires Taken(m) && |m| % BLOCK == 0 && |x| == BLOCK
      modifies `state
      ensures Taken(m + x) && |m + x| % BLOCK == 0
    {
      hide Fold, Full, Tail;
      AbsorbBlock(transform, IV, m, x);
      assert Tail(m) + x == x;
      state := transform(state, x);
    }

    /** Buffer `x`, which does not complete the block. */
    method Keep(at: nat, x: seq<byte>, ghost m: seq<byte>)
      requires Taken(m) && at == |m| % BLOCK && at + |x| < BLOCK
      modifies buffer
      ensures Taken(m + x)
    {
      hide Fold, Full, Tail;
      AbsorbPart(transform, IV, m, x);
      ghost var tail := Tail(m);
      Fill(at, x);
      assert buffer[..|tail| + |x|] == tail + x;
    }

    method Count(n: nat, ghost length: nat)
      requires n < TWO32 && Counts(count0, count1, length)
      modifies `count0, `count1
      ensures Counts(count0, count1, length + n)
    {
      hide Counts, Shl3, Shr29;
      CountMore(count0, count1, length, n);
      ghost var carry := if (count0 + Shl3(n)) % TWO32 < count0 then 1 else 0;
      CarryThenAdd(count1, carry, Shr29(n));
      count0 := (count0 + Shl3(n)) % TWO32;
      if count0 < Shl3(n) {
        count1 := (count1 + 1) % TWO32;
      }
      count1 := (count1 + Shr29(n)) % TWO32;
    }

    /** md5_update_buffer, apr_md4_update, for inputs on which the loop counter does not overflow. */
    method Update(input: seq<byte>)
      requires Valid() && |input| < TWO32 && LastIndex(|msg| % BLOCK, |input|) + 63 < TWO32
      modifies this, buffer
      ensures Valid() && msg == old(msg) + input
    {
      hide Fold, Absorbed, Counts;
      CountIndex(count0, count1, |msg|);
      var idx := count0 / 8 % BLOCK;
      Count(|input|, |msg|);
      Absorb(idx, input);
      msg := msg + input;
    }

    method Absorb(index: nat, input: seq<byte>)
      requires Taken(msg) && index == |msg| % BLOCK
      requires |input| < TWO32 && LastIndex(|msg| % BLOCK, |input|) + 63 < TWO32
      modifies buffer, `state
      ensures Taken(msg + input)
    {
      hide Absorbed, LastIndex, Next63;
      var idx, i := index, 0;
      var partLen := BLOCK - idx;
      ghost var m := msg;
      if |input| >= partLen {
        Complete(input[..partLen], m);
        m := m + input[..partLen];
        i := partLen;
        GuardIsBlock(index, i, |input|);
        while Next63(i) < |input|
          invariant partLen <= i <= |input| && (index + i) % BLOCK == 0
          invariant m == msg + input[..i] && Taken(m) && |m| % BLOCK == 0
          invariant Next63(i) < |input| <==> i + BLOCK <= |input|
          decreases |input| - i
        {
          Direct(input[i..i + BLOCK], m);
          m := m + input[i..i + BLOCK];
          i := i + BLOCK;
          GuardIsBlock(index, i, |input|);
        }
        idx := 0;
      }
      Keep(idx, input[i..], m);
      assert m + input[i..] == msg + input;
    }

    /** apr_md5_final, apr_md4_final: the digest of everything taken in. */
    method Final() returns (digest: seq<byte>)
      requires Valid()
      modifies this, buffer
      ensures digest == Hash(transform, old(msg))
    {
      hide Fold, Absorbed, Counts, Encode;
      CountIndex(count0, count1, |msg|);
      CountsAre(count0, count1, |msg|);
      var bits := LittleEndian(count0) + LittleEndian(count1);
      var idx := count0 / 8 % BLOCK;
      var padLen := if idx < 56 then 56 - idx else 120 - idx;
      Update(PADDING[..padLen]);
      Update(bits);
      assert PADDING[..padLen] == [0x80] + Zeros(ZeroCount(|old(msg)|));
      assert msg == Padded(old(msg), LengthBytes(|old(msg)|));
      StateOfFull(transform, msg, state, buffer[..]);
      digest := EncodeWords(state);
    }
  }

  lemma StateOfFull(f: Compress, msg: seq<byte>, state: Words, buffer: seq<byte>)
    requires Absorbed(f, IV, msg, state, buffer) && |msg| % BLOCK == 0
    ensures state == Fold(f, IV, msg)
  {
    assert Full(msg) == msg;
  }

  /** The loop of Encode. */
  method EncodeWords(words: Words) returns (out: seq<byte>)
    ensures out == Encode(words)
  {
    out := [];
    for i := 0 to |words|
      invariant out + Encode(words[i..]) == Encode(words)
    {
      assert words[i..][0] == words[i] && words[i..][1..] == words[i + 1..];
      out := out + LittleEndian(words[i]);
    }
  }
}
