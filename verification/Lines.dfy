/** apr_brigade_split_line (buckets/apr_brigade.c). */
module Lines {
  import opened Streams
  import opened Buckets
  import opened BucketInvariants
  import opened Flows
  import opened Arenas
  import opened Brigades
  import opened Edges
  import opened Search
  import opened Writes

  const LF: byte := 10

  predicate NoLF(s: seq<Item>) {
    forall i :: 0 <= i < |s| ==> s[i] != Byte(LF)
  }

  /** What a call may leave behind after moving the first `k` items of `s`. */
  predicate Outcome(status: Status, s: seq<Item>, k: int, maxbytes: int, empty: bool) {
    && 0 <= k <= |s|
    && match status
       case Success =>
         || (k > 0 && s[k - 1] == Byte(LF) && NoLF(s[..k - 1]))
         || (NoLF(s[..k]) && (empty || |BytesOf(s[..k])| >= maxbytes))
       case ReadError => NoLF(s[..k])
       case _ => false
  }

  /** The state between two rounds of the loop. */
  predicate Between(st: Store, out: seq<Ptr>, ring: seq<Ptr>, before: seq<Item>, s: seq<Item>, k: int, readbytes: int) {
    Moved(st, out, ring, before, s, k) && NoLF(s[..k]) && readbytes == |BytesOf(s[..k])|
  }

  /** The first bucket of the ring, in memory. */
  lemma First(st: Store, out: seq<Ptr>, ring: seq<Ptr>, before: seq<Item>, s: seq<Item>, k: nat, str: seq<byte>)
    requires Moved(st, out, ring, before, s, k) && ring != [] && Loaded(st, ring[0], str)
    ensures var n := |View(st, ring[0])|;
      && (if IsMeta(st, ring[0]) then n == 1 && str == [] else n == |str|)
      && k + n <= |s| && s[k..k + n] == View(st, ring[0]) && Flow(ring[1..], st) == s[k + n..]
  {
    hide Pair;
    var n := |View(st, ring[0])|;
    FirstLength(st, ring[0], str);
    FirstPiece(s, k, View(st, ring[0]), Flow(ring[1..], st));
  }

  lemma FirstLength(st: Store, e: Ptr, str: seq<byte>)
    requires Loaded(st, e, str)
    ensures if IsMeta(st, e) then |View(st, e)| == 1 && str == [] else View(st, e) == Wrap(str)
  {
  }

  lemma FirstPiece(s: seq<Item>, k: nat, u: seq<Item>, v: seq<Item>)
    requires k <= |s| && s[k..] == u + v
    ensures k + |u| <= |s| && s[k..k + |u|] == u && s[k + |u|..] == v
  {
    assert s[k..k + |u|] == s[k..][..|u|];
    assert s[k + |u|..] == s[k..][|u|..];
  }

  /** One more piece without LF has moved. */
  lemma NextPiece(s: seq<Item>, k: nat, n: nat, piece: seq<Item>, str: seq<byte>)
    requires k + n <= |s| && s[k..k + n] == piece && NoLF(s[..k])
    requires LF !in str && BytesOf(piece) == str && (piece == Wrap(str) || (str == [] && n == 1 && piece[0].Meta?))
    ensures NoLF(s[..k + n]) && |BytesOf(s[..k + n])| == |BytesOf(s[..k])| + |str|
  {
    assert s[..k + n] == s[..k] + piece;
    BytesOfConcat(s[..k], piece);
    assert NoLF(piece);
  }

  lemma PairSwap(st: Store, x: seq<Ptr>, y: seq<Ptr>)
    requires Pair(st, x, y)
    ensures Pair(st, y, x)
  {
    hide Good;
  }

  lemma PairTail(st: Store, x: seq<Ptr>, y: seq<Ptr>)
    requires Pair(st, x, y) && y != []
    ensures Pair(st, x, y[1..]) && y[0] in st.buckets && y[0] !in x && y[0] !in y[1..]
  {
    hide Inv;
    assert y[0] in y;
    assert forall e :: e in y[1..] ==> e in y;
  }

  /** Destroying a bucket that is on neither ring. */
  lemma DestroyLoose(st: Store, x: seq<Ptr>, y: seq<Ptr>, e: Ptr)
    requires Pair(st, x, y) && e in st.buckets && e !in x && e !in y
    ensures var st' := Destroy(st, e);
      && Pair(st', x, y) && Flow(x, st') == Flow(x, st) && Flow(y, st') == Flow(y, st)
      && Lens(st', y) == Lens(st, y) && e !in st'.buckets
  {
    hide View, Inv, Destroy, Flow;
    PairInv(st, x, y);
    DestroyKeeps(st, e);
    LensSame(y, st, Destroy(st, e));
    FlowSame(x, st, Destroy(st, e));
    FlowSame(y, st, Destroy(st, e));
  }

  /** Writing to one brigade leaves the pieces of another as they are. */
  lemma WriteLens(st: Store, x: seq<Ptr>, st': Store, x': seq<Ptr>, y: seq<Ptr>, str: seq<byte>)
    requires Pair(st, y, x) && Appended(st, x, st', x', str)
    ensures Lens(st', y) == Lens(st, y)
  {
    hide View, Flow, Inv;
    LensSame(y, st, st');
  }

  /** A small bucket is copied to the end of bbOut and destroyed. */
  method CopyOver(a: Arena, bbOut: Brigade, bbIn: Brigade, str: seq<byte>)
    requires bbOut != bbIn && Pair(a.st, bbOut.ring, bbIn.ring) && bbIn.ring != []
    modifies a, bbOut, bbIn
    ensures Pair(a.st, bbOut.ring, bbIn.ring) && bbIn.ring == old(bbIn.ring)[1..]
    ensures Flow(bbOut.ring, a.st) == Flow(old(bbOut.ring), old(a.st)) + Wrap(str)
    ensures Flow(bbIn.ring, a.st) == Flow(bbIn.ring, old(a.st))
    ensures Lens(a.st, bbIn.ring) == Lens(old(a.st), bbIn.ring) && old(bbIn.ring)[0] !in a.st.buckets
  {
    hide View, Flow, Framed, Good, Apart, Buckets.Destroy, Lens;
    ghost var st0, out0, ring0 := a.st, bbOut.ring, bbIn.ring;
    var e := bbIn.ring[0];
    PairTail(st0, out0, ring0);
    PairSwap(st0, out0, ring0);
    PairSwap(st0, out0, ring0[1..]);
    bbIn.ring := bbIn.ring[1..];
    if |str| > 0 {
      Write(a, bbOut, str);
      PairAfter(st0, ring0, out0, a.st, bbOut.ring);
      PairAfter(st0, ring0[1..], out0, a.st, bbOut.ring);
      PairSwap(a.st, ring0, bbOut.ring);
      PairSwap(a.st, ring0[1..], bbOut.ring);
      PairTail(a.st, bbOut.ring, ring0);
      WriteLens(st0, out0, a.st, bbOut.ring, ring0[1..], str);
    }
    DestroyLoose(a.st, bbOut.ring, bbIn.ring, e);
    PairInv(a.st, bbOut.ring, bbIn.ring);
    a.Destroy(e);
  }

  lemma PairInv(st: Store, x: seq<Ptr>, y: seq<Ptr>)
    requires Pair(st, x, y)
    ensures Inv(st)
  {
    hide Inv;
  }

  /** The loop's answer to a bucket without LF: move it, or copy it if it is small. */
  method PassOn(a: Arena, bbOut: Brigade, bbIn: Brigade, str: seq<byte>,
                ghost before: seq<Item>, ghost s: seq<Item>, ghost k: nat) returns (ghost k': nat)
    requires bbOut != bbIn && Moved(a.st, bbOut.ring, bbIn.ring, before, s, k)
    requires bbIn.ring != [] && Loaded(a.st, bbIn.ring[0], str) && LF !in str && NoLF(s[..k])
    modifies a, bbOut, bbIn
    ensures Between(a.st, bbOut.ring, bbIn.ring, before, s, k', |BytesOf(s[..k])| + |str|)
    ensures bbIn.ring == old(bbIn.ring)[1..] && k' >= k + |str|
    ensures Widest(Lens(a.st, bbIn.ring)) <= Widest(Lens(old(a.st), old(bbIn.ring)))
    ensures |str| <= Widest(Lens(old(a.st), old(bbIn.ring))) && old(bbIn.ring)[0] in old(a.st).buckets
    ensures var e := old(bbIn.ring)[0];
      if old(a.st).buckets[e].kind.Metadata? || |str| > BUFF_SIZE / 4 then
        a.st == old(a.st) && bbOut.ring == old(bbOut.ring) + [e]
      else e !in a.st.buckets
  {
    hide View, Flow, Pair, BytesOf, NoLF, Loaded, Moved, Between, Lens, Widest;
    LensTail(a.st, bbIn.ring);
    WidestFirst(Lens(a.st, bbIn.ring));
    ghost var e, piece := bbIn.ring[0], View(a.st, bbIn.ring[0]);
    k' := k + |piece|;
    MovedParts(a.st, bbOut.ring, bbIn.ring, before, s, k);
    First(a.st, bbOut.ring, bbIn.ring, before, s, k, str);
    FirstLength(a.st, e, str);
    PieceBytes(a.st, e, str);
    NextPiece(s, k, |piece|, piece, str);
    PairHead(a.st, bbOut.ring, bbIn.ring);
    if a.st.buckets[bbIn.ring[0]].kind.Metadata? || |str| > BUFF_SIZE / 4 {
      MoveFirst(a, bbOut, bbIn);
    } else {
      CopyOver(a, bbOut, bbIn, str);
    }
    BetweenNext(a.st, bbOut.ring, bbIn.ring, before, s, k, piece);
  }

  lemma MovedParts(st: Store, out: seq<Ptr>, ring: seq<Ptr>, before: seq<Item>, s: seq<Item>, k: nat)
    requires Moved(st, out, ring, before, s, k)
    ensures Pair(st, out, ring) && k <= |s| && Flow(out, st) == before + s[..k] && Flow(ring, st) == s[k..]
  {
    hide Pair, Flow;
  }

  /** A piece of the input has gone from one ring to the other. */
  lemma BetweenNext(st: Store, out: seq<Ptr>, ring: seq<Ptr>, before: seq<Item>, s: seq<Item>, k: nat, piece: seq<Item>)
    requires k + |piece| <= |s| && s[k..k + |piece|] == piece && NoLF(s[..k + |piece|])
    requires Pair(st, out, ring) && Flow(out, st) == before + s[..k] + piece && Flow(ring, st) == s[k + |piece|..]
    ensures Between(st, out, ring, before, s, k + |piece|, |BytesOf(s[..k + |piece|])|)
  {
    hide Pair, Flow, BytesOf, NoLF;
    assert s[..k] + piece == s[..k + |piece|];
    assert before + s[..k] + piece == before + s[..k + |piece|];
  }

  lemma PairHead(st: Store, x: seq<Ptr>, y: seq<Ptr>)
    requires Pair(st, x, y) && y != []
    ensures y[0] in st.buckets
  {
    hide Inv;
  }

  lemma PieceBytes(st: Store, e: Ptr, str: seq<byte>)
    requires Loaded(st, e, str)
    ensures BytesOf(View(st, e)) == str
    ensures IsMeta(st, e) ==> |View(st, e)| == 1 && View(st, e)[0].Meta?
  {
    LoadedBytes(st, e, str);
  }

  /** The first LF of the input is at `pos` of the first bucket: split after it and move the line's end. */
  method TakeLine(a: Arena, bbOut: Brigade, bbIn: Brigade, str: seq<byte>, pos: nat,
                  ghost before: seq<Item>, ghost s: seq<Item>, ghost k: nat)
    requires bbOut != bbIn && Moved(a.st, bbOut.ring, bbIn.ring, before, s, k) && NoLF(s[..k])
    requires bbIn.ring != [] && Loaded(a.st, bbIn.ring[0], str)
    requires pos < |str| && str[pos] == LF && LF !in str[..pos]
    modifies a, bbOut, bbIn
    ensures Moved(a.st, bbOut.ring, bbIn.ring, before, s, k + pos + 1)
    ensures k + pos < |s| && s[k + pos] == Byte(LF) && NoLF(s[..k + pos])
  {
    hide View, Flow, Good, Apart, BytesOf, NoLF, Loaded, Framed, IsMeta, InMemory, Unmoved, InsertAfter;
    var line := str[..pos + 1];
    NotMeta(a.st, bbIn.ring[0], str);
    First(a.st, bbOut.ring, bbIn.ring, before, s, k, str);
    LineEnd(a.st, bbIn.ring[0], s, k, str, pos);
    if pos + 1 < |str| {
      ghost var st0, ring0 := a.st, bbIn.ring;
      SplitAt(a, bbIn, 0, pos + 1, str);
      MovedRecut(st0, bbOut.ring, ring0, a.st, bbIn.ring, before, s, k);
    } else {
      assert str[..pos + 1] == str;
    }
    First(a.st, bbOut.ring, bbIn.ring, before, s, k, line);
    MoveFirst(a, bbOut, bbIn);
    assert s[..k] + s[k..k + pos + 1] == s[..k + pos + 1];
    assert before + s[..k] + s[k..k + pos + 1] == before + s[..k + pos + 1];
  }

  lemma NotMeta(st: Store, e: Ptr, str: seq<byte>)
    requires Loaded(st, e, str) && str != []
    ensures !IsMeta(st, e)
  {
  }

  lemma LineEnd(st: Store, e: Ptr, s: seq<Item>, k: nat, str: seq<byte>, pos: nat)
    requires Loaded(st, e, str) && !IsMeta(st, e) && k + |str| <= |s| && NoLF(s[..k])
    requires s[k..k + |str|] == View(st, e) && pos < |str| && str[pos] == LF && LF !in str[..pos]
    ensures s[k + pos] == Byte(LF) && NoLF(s[..k + pos])
  {
    hide View;
    assert s[k + pos] == s[k..k + |str|][pos];
    assert s[..k + pos] == s[..k] + Wrap(str[..pos]) by {
      assert s[k..k + pos] == s[k..k + |str|][..pos] == Wrap(str[..pos]);
    }
    assert NoLF(Wrap(str[..pos]));
  }

  /** `last` bytes had moved when the last bucket was read: the limit was not reached, or it was the first bucket. */
  predicate Paced(last: int, bytes: int, maxbytes: int, wide: nat) {
    0 <= last <= bytes <= last + wide && (last == 0 || last < maxbytes)
  }

  method SplitLine(a: Arena, bbOut: Brigade, bbIn: Brigade, maxbytes: int)
    returns (status: Status, ghost k: nat, ghost last: int)
    requires bbOut != bbIn && Pair(a.st, bbOut.ring, bbIn.ring)
    modifies a, bbOut, bbIn
    ensures Moved(a.st, bbOut.ring, bbIn.ring, Flow(old(bbOut.ring), old(a.st)), Flow(old(bbIn.ring), old(a.st)), k)
    ensures Outcome(status, Flow(old(bbIn.ring), old(a.st)), k, maxbytes, bbIn.ring == [])
    ensures k <= |Flow(old(bbIn.ring), old(a.st))|
    ensures Paced(last, |BytesOf(Flow(old(bbIn.ring), old(a.st))[..k])|, maxbytes,
                  Widest(Lens(old(a.st), old(bbIn.ring))))
  {
    hide View, Flow, Good, Apart, BytesOf, Loaded, Framed, IsMeta, InMemory, Unmoved, InsertAfter, LengthOf, Recut,
         Lens, Widest;
    ghost var wide := Widest(Lens(a.st, bbIn.ring));
    ghost var before, s := Flow(bbOut.ring, a.st), Flow(bbIn.ring, a.st);
    var readbytes := 0;
    k, last := 0, 0;
    NoBytes();
    assert before + s[..0] == before && s[0..] == s && s[..0] == [];
    while bbIn.ring != []
      invariant Between(a.st, bbOut.ring, bbIn.ring, before, s, k, readbytes)
      invariant Widest(Lens(a.st, bbIn.ring)) <= wide && Paced(last, readbytes, maxbytes, wide)
      invariant readbytes == 0 || readbytes < maxbytes
      decreases |s| - k, |bbIn.ring|
    {
      ghost var st0, ring0 := a.st, bbIn.ring;
      last := readbytes;
      var str;
      status, str := ReadAt(a, bbIn, 0);
      MovedRecut(st0, bbOut.ring, ring0, a.st, bbIn.ring, before, s, k);
      if status != Success {
        return status, k, last;
      }
      if |str| > 0 {
        var pos := Memchr(str, LF, 0, |str|);
        if pos != -1 {
          assert str[0..pos] == str[..pos];
          LineBytes(a.st, bbOut.ring, bbIn.ring, before, s, k, str, pos);
          TakeLine(a, bbOut, bbIn, str, pos, before, s, k);
          return Success, k + pos + 1, last;
        }
        assert str[0..|str|] == str;
      }
      k := PassOn(a, bbOut, bbIn, str, before, s, k);
      readbytes := readbytes + |str|;
      if readbytes >= maxbytes {
        break;
      }
    }
    return Success, k, last;
  }

  /** The line's end is no longer than its bucket. */
  lemma LineBytes(st: Store, out: seq<Ptr>, ring: seq<Ptr>, before: seq<Item>, s: seq<Item>, k: nat, str: seq<byte>,
                  pos: nat)
    requires Moved(st, out, ring, before, s, k) && ring != [] && Loaded(st, ring[0], str) && pos < |str|
    ensures k + pos + 1 <= |s| && |str| <= Widest(Lens(st, ring))
    ensures |BytesOf(s[..k + pos + 1])| == |BytesOf(s[..k])| + pos + 1
  {
    hide View, Flow, Pair, BytesOf, Loaded, IsMeta, Lens, Widest;
    First(st, out, ring, before, s, k, str);
    FirstLength(st, ring[0], str);
    LensTail(st, ring);
    WidestFirst(Lens(st, ring));
    NotMeta(st, ring[0], str);
    var line := s[k..k + pos + 1];
    assert line == s[k..k + |str|][..pos + 1] == Wrap(str[..pos + 1]);
    BytesOfWrap(str[..pos + 1]);
    assert s[..k + pos + 1] == s[..k] + line;
    BytesOfConcat(s[..k], line);
  }

  lemma NoBytes()
    ensures BytesOf([]) == []
  {
  }

  /**
    With a limit above the input size, the line that is moved does not depend
    on how the input was cut into buckets: it ends with the first LF, or takes
    in everything.
  */
  lemma CutIndependent(s: seq<Item>, maxbytes: int, k: int, empty: bool, k': int, empty': bool)
    requires Outcome(Success, s, k, maxbytes, empty) && (empty ==> k == |s|)
    requires Outcome(Success, s, k', maxbytes, empty') && (empty' ==> k' == |s|)
    requires maxbytes > |BytesOf(s)|
    ensures k == k'
    ensures NoLF(s) ==> k == |s|
    ensures !NoLF(s) ==> k > 0 && s[k - 1] == Byte(LF) && NoLF(s[..k - 1])
  {
    Whole(s, maxbytes, k, empty);
    Whole(s, maxbytes, k', empty');
  }

  lemma Whole(s: seq<Item>, maxbytes: int, k: int, empty: bool)
    requires Outcome(Success, s, k, maxbytes, empty) && (empty ==> k == |s|) && maxbytes > |BytesOf(s)|
    ensures NoLF(s) ==> k == |s|
    ensures !NoLF(s) ==> k > 0 && s[k - 1] == Byte(LF) && NoLF(s[..k - 1])
    ensures forall i :: 0 <= i < k - 1 ==> s[i] != Byte(LF)
  {
    assert s == s[..k] + s[k..];
    BytesOfConcat(s[..k], s[k..]);
    forall i | 0 <= i < k - 1 ensures s[i] != Byte(LF) {
      assert s[..k][i] == s[i] && s[..k - 1][i] == s[i];
    }
  }
}
