/**
  The fast-key-erasure generator of crypto/apr_crypto_prng.c: one key, a cache
  of upcoming bytes, and a stream cipher that is kept abstract.

  The cipher's provider encrypts the cache buffer itself, which the generator
  keeps zero exactly so that the keystream comes out unchanged.
*/
module Prng {
  type u8 = bv8

  const KEY_SIZE := 32
  const BUF_SIZE_MIN := KEY_SIZE * (8 - 1)
  const BUF_SIZE_DEF := KEY_SIZE * (24 - 1)

  /** The keystream of a key, byte by byte. */
  type Cipher = (seq<u8>, nat) -> u8

  /** Keystream bytes [from, from + n). */
  function Keystream(c: Cipher, key: seq<u8>, from: nat, n: nat): (r: seq<u8>)
    ensures |r| == n
  {
    seq(n, i requires 0 <= i < n => c(key, from + i))
  }

  /** The key that replaces `key` once it has been used. */
  function NextKey(c: Cipher, key: seq<u8>): seq<u8> {
    Keystream(c, key, 0, KEY_SIZE)
  }

  /** What `key` yields besides the next key. */
  function Block(c: Cipher, key: seq<u8>, n: nat): seq<u8> {
    Keystream(c, key, KEY_SIZE, n)
  }

  // ----- The reference: one endless stream of blocks

  /** A place in the stream: bytes of the current block not yet taken, and the key for what follows. */
  datatype Place = Place(key: seq<u8>, rest: seq<u8>)

  /** The next `n` bytes of the stream cut into blocks of `len`, and the place after them. */
  function Take(c: Cipher, len: nat, p: Place, n: nat): (r: (seq<u8>, Place))
    requires len > 0
    ensures |r.0| == n
    decreases n, |p.rest| == 0
  {
    if n == 0 then ([], p)
    else if p.rest == [] then Take(c, len, Place(NextKey(c, p.key), Block(c, p.key, len)), n)
    else
      var (bytes, p') := Take(c, len, p.(rest := p.rest[1..]), n - 1);
      ([p.rest[0]] + bytes, p')
  }

  /** Asking for `a` and then for `b` bytes is asking for `a + b`. */
  lemma {:induction false} TakeSplit(c: Cipher, len: nat, p: Place, a: nat, b: nat)
    requires len > 0
    ensures var (x, p1) := Take(c, len, p, a);
      var (y, p2) := Take(c, len, p1, b);
      Take(c, len, p, a + b) == (x + y, p2)
    decreases a, |p.rest| == 0
  {
    if a == 0 {
      assert [] + Take(c, len, p, b).0 == Take(c, len, p, b).0;
    } else if p.rest == [] {
      TakeSplit(c, len, Place(NextKey(c, p.key), Block(c, p.key, len)), a, b);
    } else {
      TakeSplit(c, len, p.(rest := p.rest[1..]), a - 1, b);
      var (x, p1) := Take(c, len, p.(rest := p.rest[1..]), a - 1);
      var (y, p2) := Take(c, len, p1, b);
      assert [p.rest[0]] + (x + y) == ([p.rest[0]] + x) + y;
    }
  }

  /** Bytes that are at hand come straight from the current block. */
  lemma {:induction false} TakeRest(c: Cipher, len: nat, p: Place, n: nat)
    requires len > 0 && n <= |p.rest|
    ensures Take(c, len, p, n) == (p.rest[..n], p.(rest := p.rest[n..]))
    decreases n
  {
    if n > 0 {
      TakeRest(c, len, p.(rest := p.rest[1..]), n - 1);
      assert p.rest[1..][n - 1..] == p.rest[n..];
      assert [p.rest[0]] + p.rest[1..][..n - 1] == p.rest[..n];
    }
  }

  /** With nothing at hand, a whole block is the keystream of the key, and again nothing is left. */
  lemma TakeBlock(c: Cipher, len: nat, key: seq<u8>)
    requires len > 0
    ensures Take(c, len, Place(key, []), len) == (Block(c, key, len), Place(NextKey(c, key), []))
  {
    var p := Place(NextKey(c, key), Block(c, key, len));
    TakeRest(c, len, p, len);
    assert p.rest[..len] == p.rest && p.rest[len..] == [];
  }

  datatype Status = Success | Failed

  predicate Zero(s: seq<u8>) {
    forall i :: 0 <= i < |s| ==> s[i] == 0
  }

  function Xor(a: u8, b: u8): u8 {
    a ^ b
  }

  /** Byte by byte exclusive or: a keystream on a buffer, a seed on a key. */
  function Mixed(s: seq<u8>, z: seq<u8>): (r: seq<u8>)
    requires |s| <= |z|
    ensures |r| == |s|
  {
    seq(|s|, i requires 0 <= i < |s| => Xor(s[i], z[i]))
  }

  /** Encrypting zeros yields the keystream. */
  lemma MixedZero(s: seq<u8>, z: seq<u8>)
    requires |s| <= |z| && Zero(z)
    ensures Mixed(s, z) == s
  {
    hide Xor;
    forall i | 0 <= i < |s| ensures Mixed(s, z)[i] == s[i] {
      XorZero(s[i], z[i]);
    }
  }

  /** Nothing but zeros does: the buffer has to be clear for the pure keystream; every other seed changes the key. */
  lemma MixedKeeps(s: seq<u8>, z: seq<u8>)
    requires |s| <= |z|
    ensures Mixed(s, z) == s <==> Zero(z[..|s|])
  {
    hide Xor;
    if Mixed(s, z) == s {
      forall i | 0 <= i < |s| ensures z[..|s|][i] == 0 {
        assert Mixed(s, z)[i] == s[i];
        XorZero(s[i], z[i]);
      }
    }
    if Zero(z[..|s|]) {
      forall i | 0 <= i < |s| ensures Mixed(s, z)[i] == s[i] {
        assert z[..|s|][i] == z[i];
        XorZero(s[i], z[i]);
      }
    }
  }

  lemma XorZero(a: u8, b: u8)
    ensures Xor(a, b) == a <==> b == 0
  {
    assert b == (a ^ b) ^ a;
  }

  /** The same seed, or the same keystream, undoes itself. */
  lemma MixedTwice(s: seq<u8>, z: seq<u8>)
    requires |s| <= |z|
    ensures Mixed(Mixed(s, z), z) == s
  {
    hide Xor;
    forall i | 0 <= i < |s| ensures Mixed(Mixed(s, z), z)[i] == s[i] {
      XorTwice(s[i], z[i]);
    }
  }

  lemma XorTwice(a: u8, b: u8)
    ensures Xor(Xor(a, b), b) == a
  {
  }

  /** Every seed makes another key. */
  lemma SeedEnters(key: seq<u8>, seed: seq<u8>, seed': seq<u8>)
    requires |key| == |seed| == |seed'|
    ensures Mixed(key, seed) == Mixed(key, seed') <==> seed == seed'
  {
    hide Xor;
    if Mixed(key, seed) == Mixed(key, seed') {
      forall i | 0 <= i < |key| ensures seed[i] == seed'[i] {
        assert Mixed(key, seed)[i] == Mixed(key, seed')[i];
        SameSeed(key[i], seed[i], seed'[i]);
      }
    }
  }

  lemma SameSeed(a: u8, b: u8, b': u8)
    requires Xor(a, b) == Xor(a, b')
    ensures b == b'
  {
    assert b == (a ^ b) ^ a && b' == (a ^ b') ^ a;
  }

  /** The next key and what is handed out are consecutive parts of one keystream: they share no byte of it. */
  lemma OneKeystream(c: Cipher, key: seq<u8>, n: nat)
    ensures NextKey(c, key) + Block(c, key, n) == Keystream(c, key, 0, KEY_SIZE + n)
    ensures forall i :: 0 <= i < n ==> Block(c, key, n)[i] == c(key, KEY_SIZE + i)
  {
  }

  /** The buffer size apr_crypto_prng_create settles on. */
  function BufSize(bufsize: nat): (len: nat)
    ensures len % KEY_SIZE == 0 && BUF_SIZE_MIN <= len
    ensures bufsize <= len && (bufsize > BUF_SIZE_MIN ==> len < bufsize + KEY_SIZE)
    ensures bufsize <= BUF_SIZE_MIN ==> len == if bufsize == 0 then BUF_SIZE_DEF else BUF_SIZE_MIN
  {
    if bufsize == 0 then BUF_SIZE_DEF
    else if bufsize < BUF_SIZE_MIN then BUF_SIZE_MIN
    else if bufsize % KEY_SIZE != 0 then bufsize + KEY_SIZE - (bufsize + KEY_SIZE) % KEY_SIZE
    else bufsize
  }

  class Cprng {
    const cipher: Cipher
    var key: seq<u8>
    const buf: array<u8>
    const len: nat
    var pos: nat

    /** What was handed out is zero; so is the whole buffer when all of it was. */
    ghost predicate Valid()
      reads this, buf
    {
      && |key| == KEY_SIZE <= len == buf.Length
      && pos <= len && Zero(buf[..pos])
    }

    /** Where in the stream the generator stands. */
    ghost function Where(): Place
      requires Valid()
      reads this, buf
    {
      Place(key, buf[pos..])
    }

    /** apr_crypto_prng_create, up to its call of reseed. */
    constructor (cipher: Cipher, bufsize: nat, key: seq<u8>)
      requires |key| == KEY_SIZE
      ensures Valid() && fresh(buf) && this.cipher == cipher && len == BufSize(bufsize)
      ensures this.key == key && pos == len
    {
      this.cipher, this.key := cipher, key;
      len := BufSize(bufsize);
      pos := BufSize(bufsize);
      buf := new u8[BufSize(bufsize)](i => 0);
    }

    /**
      cprng_stream_bytes and the provider behind it: the buffer is encrypted,
      first into a new key, then into `bytes`. The provider may fail.
    */
    method StreamBytes(n: nat) returns (status: Status, bytes: seq<u8>)
      requires Valid() && pos == len && n <= len
      modifies `key
      ensures Valid() && |bytes| == n && (status == Success || status == Failed)
      ensures status == Success ==> key == NextKey(cipher, old(key)) && bytes == Block(cipher, old(key), n)
      ensures status == Failed ==> key == old(key) && Zero(bytes)
    {
      var failed: bool := *;
      if failed {
        return Failed, seq(n, i => 0);
      }
      assert buf[..pos] == buf[..];
      MixedZero(Keystream(cipher, key, 0, KEY_SIZE), buf[..]);
      MixedZero(Keystream(cipher, key, KEY_SIZE, n), buf[..]);
      bytes := Mixed(Keystream(cipher, key, KEY_SIZE, n), buf[..]);
      key := Mixed(Keystream(cipher, key, 0, KEY_SIZE), buf[..]);
      status := Success;
    }

    /** apr_memzero_explicit on buf[from..from + n]. */
    method Wipe(from: nat, n: nat)
      requires from + n <= buf.Length
      modifies buf
      ensures buf[..from] == old(buf[..from]) && Zero(buf[from..from + n]) && buf[from + n..] == old(buf[from + n..])
    {
      forall i | from <= i < from + n {
        buf[i] := 0;
      }
    }

    /** The state after `done` bytes were written to `out`. */
    ghost predicate Reached(start: Place, out: array<u8>, done: nat)
      reads this, buf, out
    {
      && Valid() && done <= out.Length
      && Take(cipher, len, start, done) == (out[..done], Where())
    }

    /** One block straight to the caller, with nothing left in the buffer. */
    method DirectBlock(out: array<u8>, done: nat, ghost start: Place) returns (status: Status)
      requires out != buf && Reached(start, out, done) && pos == len && done + len <= out.Length
      modifies `key, out
      ensures Valid() && (status == Success || status == Failed) && out[done + len..] == old(out[done + len..])
      ensures status == Success ==> Reached(start, out, done + len)
      ensures status == Failed ==> Reached(start, out, done)
    {
      hide Take, NextKey, Block, Zero;
      ghost var at := Where();
      var bytes;
      status, bytes := StreamBytes(len);
      Store(out, done, bytes);
      if status == Success {
        assert at == Place(at.key, []);
        TakeBlock(cipher, len, at.key);
        TakeSplit(cipher, len, start, done, len);
        assert Where() == Place(key, []);
      }
    }

    /** memcpy to the caller's buffer. */
    method Store(out: array<u8>, at: nat, bytes: seq<u8>)
      requires out != buf && at + |bytes| <= out.Length
      modifies out
      ensures out[..at + |bytes|] == old(out[..at]) + bytes && out[at + |bytes|..] == old(out[at + |bytes|..])
      ensures out[..at] == old(out[..at])
    {
      forall i | 0 <= i < |bytes| {
        out[at + i] := bytes[i];
      }
    }

    /** As Reached, but the next block may have been fetched before any of it was asked for. */
    ghost predicate Near(start: Place, out: array<u8>, done: nat)
      reads this, buf, out
    {
      && Valid() && done <= out.Length
      && Take(cipher, len, start, done).0 == out[..done]
      && var p := Take(cipher, len, start, done).1;
         Where() == p || (p.rest == [] && Where() == Place(NextKey(cipher, p.key), Block(cipher, p.key, len)))
    }

    /** Refill the buffer from the stream. */
    method Refill(out: array<u8>, done: nat, ghost start: Place) returns (status: Status)
      requires out != buf && Reached(start, out, done) && pos == len
      modifies `key, `pos, buf
      ensures Valid() && (status == Success || status == Failed)
      ensures status == Success ==> pos == 0 && Near(start, out, done)
      ensures status == Failed ==> Reached(start, out, done)
    {
      hide Take, NextKey, Block;
      var bytes;
      status, bytes := StreamBytes(len);
      forall i | 0 <= i < len {
        buf[i] := bytes[i];
      }
      if status == Success {
        pos := 0;
        assert buf[pos..] == bytes;
      } else {
        assert buf[..] == bytes;
        assert buf[..pos] == bytes && buf[pos..] == [];
      }
    }

    /** Hand out `n` bytes of the buffer and clear them. */
    method Serve(out: array<u8>, done: nat, n: nat, ghost start: Place)
      requires out != buf && Near(start, out, done) && 0 < n <= len - pos && done + n <= out.Length
      modifies `pos, buf, out
      ensures Reached(start, out, done + n) && out[done + n..] == old(out[done + n..])
    {
      ghost var at, p := Where(), Take(cipher, len, start, done).1;
      TakeSplit(cipher, len, start, done, n);
      TakeRest(cipher, len, at, n);
      assert Take(cipher, len, p, n) == Take(cipher, len, at, n);
      hide Take, NextKey, Block;
      Store(out, done, buf[pos..pos + n]);
      Wipe(pos, n);
      assert buf[..pos + n] == buf[..pos] + buf[pos..pos + n];
      assert at.rest[..n] == old(buf[pos..pos + n]) && at.rest[n..] == old(buf[pos + n..]);
      pos := pos + n;
    }

    /** Whole blocks straight to the caller, while that many bytes are wanted. */
    method DirectBlocks(out: array<u8>, n: nat, wanted: nat, ghost start: Place) returns (status: Status, left: nat)
      requires out != buf && n <= out.Length && len <= wanted <= n && pos == len && Reached(start, out, n - wanted)
      modifies `key, out
      ensures Valid() && left <= wanted && Reached(start, out, n - left) && out[n..] == old(out[n..])
      ensures status == Failed || (status == Success && left < len)
    {
      hide Take, NextKey, Block, Zero;
      left := wanted;
      while true
        invariant len <= left <= wanted && pos == len
        invariant Reached(start, out, n - left) && out[n..] == old(out[n..])
        decreases left
      {
        status := DirectBlock(out, n - left, start);
        assert out[n..] == out[n - left + len..][left - len..];
        if status != Success {
          return;
        }
        left := left - len;
        if left < len {
          return;
        }
      }
    }

    /**
      cprng_bytes: the next `n` bytes of the stream. `done` is how many were
      delivered before a failure.
    */
    method Bytes(out: array<u8>, n: nat) returns (status: Status, ghost done: nat)
      requires Valid() && out != buf && n <= out.Length
      modifies `key, `pos, buf, out
      ensures Valid() && (status == Success || status == Failed) && done <= n
      ensures status == Success ==> done == n
      ensures Take(cipher, len, old(Where()), done) == (out[..done], Where())
      ensures out[n..] == old(out[n..])
    {
      hide Take, NextKey, Block, Zero, Near;
      ghost var start := Where();
      TakeNone(cipher, len, start);
      assert out[..0] == [];
      var left := n;
      while left > 0
        invariant 0 <= left <= n && Reached(start, out, n - left) && out[n..] == old(out[n..])
      {
        var m := len - pos;
        if m == 0 {
          m := len;
          if left >= m {
            status, left := DirectBlocks(out, n, left, start);
            if status != Success {
              return status, n - left;
            }
            if left == 0 {
              break;
            }
          }
          status := Refill(out, n - left, start);
          if status != Success {
            return status, n - left;
          }
        } else {
          IsNear(out, n - left, start);
        }
        if m > left {
          m := left;
        }
        Serve(out, n - left, m, start);
        assert out[n..] == out[n - left + m..][left - m..];
        left := left - m;
      }
      return Success, n;
    }

    lemma IsNear(out: array<u8>, done: nat, start: Place)
      requires Reached(start, out, done)
      ensures Near(start, out, done)
    {
    }

    /** The steps shared by reseed and rekey: forget the buffer and move on to the next key. */
    method Rekey() returns (status: Status)
      requires Valid()
      modifies `key, `pos, buf
      ensures Valid() && pos == len && Zero(buf[..])
      ensures status == Success ==> Where() == Place(NextKey(cipher, old(key)), [])
      ensures status == Failed ==> key == old(key)
      ensures status == Success || status == Failed
    {
      pos := len;
      Wipe(0, len);
      assert buf[0..0 + len] == buf[..] == buf[..pos] && buf[pos..] == [];
      var bytes;
      status, bytes := StreamBytes(0);
    }

    /** apr_crypto_prng_reseed with a seed of the caller's. */
    method Reseed(seed: seq<u8>) returns (status: Status)
      requires Valid() && |seed| == KEY_SIZE
      modifies `key, `pos, buf
      ensures Valid() && pos == len && Zero(buf[..])
      ensures status == Success ==> Where() == Place(NextKey(cipher, Mixed(old(key), seed)), [])
      ensures status == Failed ==> key == Mixed(old(key), seed)
      ensures status == Success || status == Failed
    {
      pos := len;
      Wipe(0, len);
      assert buf[0..0 + len] == buf[..] == buf[..pos] && buf[pos..] == [];
      key := Mixed(key, seed);
      var bytes;
      status, bytes := StreamBytes(0);
    }

    /** apr_crypto_prng_after_fork: the parent's next key comes from the stream after the child's. */
    method AfterFork(inChild: bool) returns (status: Status)
      requires Valid()
      modifies `key, `pos, buf
      ensures Valid() && pos == len && Zero(buf[..])
      ensures status == Success ==>
        Where() == Place(NextKey(cipher, if inChild then old(key) else Block(cipher, old(key), KEY_SIZE)), [])
      ensures status == Success || status == Failed
    {
      pos := len;
      Wipe(0, len);
      assert buf[0..0 + len] == buf[..] == buf[..pos] && buf[pos..] == [];
      var bytes;
      if !inChild {
        status, bytes := StreamBytes(KEY_SIZE);
        key := bytes;
        if status != Success {
          return;
        }
      }
      status, bytes := StreamBytes(0);
    }
  }

  /** Key, position and buffer are all determined by the place in the stream. */
  lemma PlaceDetermines(g: Cprng, h: Cprng)
    requires g.Valid() && h.Valid() && g.len == h.len && g.Where() == h.Where()
    ensures g.key == h.key && g.pos == h.pos && g.buf[..] == h.buf[..]
  {
    assert |g.buf[g.pos..]| == |h.buf[h.pos..]|;
    assert g.buf[..] == g.buf[..g.pos] + g.buf[g.pos..] && h.buf[..] == h.buf[..h.pos] + h.buf[h.pos..];
    assert g.buf[..g.pos] == h.buf[..h.pos];
  }

  /**
    Asking for `a` and then for `b` bytes is asking for `a + b` bytes: two
    generators that agree give the same output and agree again afterwards.
  */
  method AskTwice(g: Cprng, h: Cprng, a: nat, b: nat, x: array<u8>, y: array<u8>, z: array<u8>)
    returns (status: Status)
    requires g != h && g.Valid() && h.Valid() && g.cipher == h.cipher && g.len == h.len
    requires g.key == h.key && g.pos == h.pos && g.buf[..] == h.buf[..]
    requires x.Length == a && y.Length == b && z.Length == a + b
    requires g.buf != h.buf && x != y && x != z && y != z
    requires x !in {g.buf, h.buf} && y !in {g.buf, h.buf} && z !in {g.buf, h.buf}
    modifies g, h, g.buf, h.buf, x, y, z
    ensures status == Success ==> z[..] == x[..] + y[..]
    ensures status == Success ==> g.Valid() && h.Valid() && g.key == h.key && g.pos == h.pos && g.buf[..] == h.buf[..]
  {
    hide Take, NextKey, Block, Zero;
    ghost var start := g.Where();
    assert h.Where() == start;
    ghost var done;
    status, done := g.Bytes(x, a);
    if status != Success {
      return;
    }
    assert x[..a] == x[..];
    ghost var first := x[..];
    status, done := g.Bytes(y, b);
    if status != Success {
      return;
    }
    assert y[..b] == y[..] && x[..] == first;
    status, done := h.Bytes(z, a + b);
    if status != Success {
      return;
    }
    assert z[..a + b] == z[..];
    TakeSplit(g.cipher, g.len, start, a, b);
    PlaceDetermines(g, h);
  }

  lemma TakeNone(c: Cipher, len: nat, p: Place)
    requires len > 0
    ensures Take(c, len, p, 0) == ([], p)
  {
  }
}
