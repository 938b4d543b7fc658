/**
  apr_brigade_split_boundary (buckets/apr_brigade.c).

  `s` is the stream of bbIn and `before` that of bbOut when the call is made;
  `k` items of `s` have been passed on so far.
*/
module Boundary {
  import opened Streams
  import opened Buckets
  import opened BucketInvariants
  import opened Flows
  import opened Arenas
  import opened Brigades
  import opened Search
  import opened Matches
  import opened Edges

  /** The first `k` items, all of them bytes, have moved from bbIn to bbOut and nothing else has happened. */
  predicate Passed(st: Store, out: seq<Ptr>, ring: seq<Ptr>, before: seq<Item>, s: seq<Item>, k: int) {
    Moved(st, out, ring, before, s, k) && Plain(s[..k])
  }

  /** The first bucket of bbIn is a data bucket in memory, reading as `str`. */
  predicate Facing(st: Store, ring: seq<Ptr>, str: seq<byte>) {
    ring != [] && Loaded(st, ring[0], str) && !IsMeta(st, ring[0])
  }

  lemma PassedParts(st: Store, out: seq<Ptr>, ring: seq<Ptr>, before: seq<Item>, s: seq<Item>, k: int)
    requires Passed(st, out, ring, before, s, k)
    ensures Pair(st, out, ring) && Good(st, out) && Good(st, ring) && 0 <= k <= |s|
    ensures Flow(out, st) == before + s[..k] && Flow(ring, st) == s[k..]
  {
    hide Good, Flow, Plain, Apart;
  }

  lemma FlowHead(st: Store, ring: seq<Ptr>, str: seq<byte>)
    requires Facing(st, ring, str)
    ensures Flow(ring, st) == Wrap(str) + Flow(ring[1..], st)
  {
  }

  lemma FacingHere(st: Store, out: seq<Ptr>, ring: seq<Ptr>, before: seq<Item>, s: seq<Item>, k: nat, str: seq<byte>)
    requires Passed(st, out, ring, before, s, k) && Facing(st, ring, str)
    ensures Here(s, k, str)
  {
    FlowHead(st, ring, str);
    hide View, Flow, Pair, Loaded;
    assert s[k..k + |str|] == s[k..][..|str|];
  }

  lemma PlainMore(s: seq<Item>, k: nat, str: seq<byte>)
    requires Here(s, k, str) && Plain(s[..k])
    ensures Plain(s[..k + |str|])
  {
    assert s[..k + |str|] == s[..k] + Wrap(str);
  }

  /** The first bucket is moved to bbOut whole. */
  method PassBucket(a: Arena, bbOut: Brigade, bbIn: Brigade, ghost before: seq<Item>, ghost s: seq<Item>, ghost k: nat,
                    ghost str: seq<byte>)
    requires bbOut != bbIn && Passed(a.st, bbOut.ring, bbIn.ring, before, s, k) && Facing(a.st, bbIn.ring, str)
    modifies bbOut, bbIn
    ensures bbIn.ring == old(bbIn.ring)[1..]
    ensures Passed(a.st, bbOut.ring, bbIn.ring, before, s, k + |str|)
    ensures InMemory(a.st, old(bbIn.ring)) ==> InMemory(a.st, bbIn.ring)
    ensures old(bbIn.ring) != [] && |str| == Lens(a.st, old(bbIn.ring))[0]
    ensures Lens(a.st, bbIn.ring) == Lens(a.st, old(bbIn.ring))[1..]
  {
    hide View, Flow, Pair, Loaded, Plain, Facing, Lens;
    FacingLens(a.st, bbIn.ring, str);
    LensTail(a.st, bbIn.ring);
    FacingHere(a.st, bbOut.ring, bbIn.ring, before, s, k, str);
    PlainMore(s, k, str);
    FacingView(a.st, bbIn.ring, str);
    MoveFirst(a, bbOut, bbIn);
    assert s[k..] == Wrap(str) + s[k + |str|..];
    assert before + s[..k] + Wrap(str) == before + s[..k + |str|];
  }

  lemma FacingLens(st: Store, ring: seq<Ptr>, str: seq<byte>)
    requires Facing(st, ring, str)
    ensures ring != [] && Lens(st, ring)[0] == |str|
  {
    hide View;
  }

  lemma FacingView(st: Store, ring: seq<Ptr>, str: seq<byte>)
    requires Facing(st, ring, str)
    ensures ring != [] && View(st, ring[0]) == Wrap(str)
  {
  }

  /** The first `off` bytes of the first bucket are split off and moved to bbOut. */
  method PassHead(a: Arena, bbOut: Brigade, bbIn: Brigade, ghost before: seq<Item>, ghost s: seq<Item>, ghost k: nat,
                  ghost str: seq<byte>, off: nat)
    requires bbOut != bbIn && Passed(a.st, bbOut.ring, bbIn.ring, before, s, k)
    requires Facing(a.st, bbIn.ring, str) && off <= |str|
    modifies a, bbOut, bbIn
    ensures Passed(a.st, bbOut.ring, bbIn.ring, before, s, k + off)
    ensures Facing(a.st, bbIn.ring, str[off..])
    ensures InMemory(old(a.st), old(bbIn.ring)) ==> InMemory(a.st, bbIn.ring)
    ensures old(bbIn.ring) != [] && |str| == Lens(old(a.st), old(bbIn.ring))[0]
    ensures Lens(a.st, bbIn.ring) == [|str| - off] + Lens(old(a.st), old(bbIn.ring))[1..]
  {
    hide View, Flow, Loaded, Plain, IsMeta, Framed, InMemory, Lens;
    ghost var st0, ring0 := a.st, bbIn.ring;
    SplitAt(a, bbIn, 0, off, str);
    PairAfter(st0, bbOut.ring, ring0, a.st, bbIn.ring);
    PassBucket(a, bbOut, bbIn, before, s, k, str[..off]);
  }

  /** "Cut out the boundary": the first `n` bytes of the first bucket are split off and deleted. */
  method CutHead(a: Arena, bbOut: Brigade, bbIn: Brigade, ghost before: seq<Item>, ghost s: seq<Item>, ghost k: nat,
                 ghost str: seq<byte>, n: nat)
    requires bbOut != bbIn && Passed(a.st, bbOut.ring, bbIn.ring, before, s, k)
    requires Facing(a.st, bbIn.ring, str) && n <= |str|
    modifies a, bbIn
    ensures Pair(a.st, bbOut.ring, bbIn.ring)
    ensures k + n <= |s| && Flow(bbIn.ring, a.st) == s[k + n..]
    ensures Flow(bbOut.ring, a.st) == before + s[..k]
  {
    hide View, Flow, Loaded, Plain, IsMeta, Framed;
    FacingHere(a.st, bbOut.ring, bbIn.ring, before, s, k, str);
    ghost var st0, ring0 := a.st, bbIn.ring;
    SplitAt(a, bbIn, 0, n, str);
    PairAfter(st0, bbOut.ring, ring0, a.st, bbIn.ring);
    ghost var st1, ring1 := a.st, bbIn.ring;
    FlowHead(st1, ring1, str[..n]);
    DeleteFirst(a, bbIn);
    PairAfter(st1, bbOut.ring, ring1, a.st, bbIn.ring);
    assert s[k..][n..] == s[k + n..];
  }

  // ----- The part reached by `goto skip`

  /** The bytes of the first `j` buckets are the first `n` of the boundary. */
  predicate Trail(st: Store, ring: seq<Ptr>, j: int, boundary: seq<byte>, n: int) {
    0 <= j <= |ring| && 0 <= n <= |boundary| && BytesOf(Flow(ring[..j], st)) == boundary[..n]
  }

  lemma TrailFlow(st: Store, ring: seq<Ptr>, j: nat)
    requires j < |ring|
    ensures Flow(ring[..j + 1], st) == Flow(ring[..j], st) + View(st, ring[j])
    ensures Flow(ring, st) == Flow(ring[..j + 1], st) + Flow(ring[j + 1..], st)
  {
    hide View;
    assert ring[..j + 1] == ring[..j] + [ring[j]];
    FlowConcat(ring[..j], [ring[j]], st);
    assert ring == ring[..j + 1] + ring[j + 1..];
    FlowConcat(ring[..j + 1], ring[j + 1..], st);
  }

  lemma TrailStep(st: Store, ring: seq<Ptr>, j: nat, boundary: seq<byte>, n: nat, str: seq<byte>)
    requires Trail(st, ring, j, boundary, n) && j < |ring| && Loaded(st, ring[j], str)
    requires n + |str| <= |boundary| && str == boundary[n..n + |str|]
    ensures Trail(st, ring, j + 1, boundary, n + |str|)
  {
    LoadedBytes(st, ring[j], str);
    TrailFlow(st, ring, j);
    hide View, Flow, Loaded;
    BytesOfConcat(Flow(ring[..j], st), View(st, ring[j]));
    assert boundary[..n] + boundary[n..n + |str|] == boundary[..n + |str|];
  }

  /** The bytes after a trail differ from the boundary within one bucket. */
  lemma TrailMiss(st: Store, ring: seq<Ptr>, j: nat, boundary: seq<byte>, n: nat, str: seq<byte>, len: nat)
    requires Trail(st, ring, j, boundary, n) && j < |ring| && Loaded(st, ring[j], str)
    requires len <= |str| && n + len <= |boundary| && str[..len] != boundary[n..n + len]
    ensures !(boundary <= BytesOf(Flow(ring, st)))
  {
    hide View, Flow, Loaded, BytesOf;
    LoadedBytes(st, ring[j], str);
    TrailFlow(st, ring, j);
    BytesOfConcat(Flow(ring[..j], st), View(st, ring[j]));
    BytesOfConcat(Flow(ring[..j + 1], st), Flow(ring[j + 1..], st));
    var t := BytesOf(Flow(ring, st));
    assert t == boundary[..n] + str + BytesOf(Flow(ring[j + 1..], st));
    assert t[n..n + len] == str[..len];
  }

  /** The stream ends inside the boundary. */
  lemma TrailEnds(st: Store, ring: seq<Ptr>, boundary: seq<byte>, n: nat)
    requires Trail(st, ring, |ring|, boundary, n) && n < |boundary|
    ensures !(boundary <= BytesOf(Flow(ring, st)))
  {
    assert ring[..|ring|] == ring;
  }

  /** The match is s[k..q], and `w` is what follows it. */
  predicate SpanThen(s: seq<Item>, boundary: seq<byte>, k: int, q: int, w: seq<Item>) {
    Span(s, boundary, k, q) && w == s[q..]
  }

  /** The boundary ends with the bucket at `j`: what bbIn and the match look like. */
  lemma TrailMatches(st: Store, out: seq<Ptr>, ring: seq<Ptr>, before: seq<Item>, s: seq<Item>, k: nat,
                     first: seq<byte>, j: nat, boundary: seq<byte>, n: nat, str: seq<byte>)
    requires Passed(st, out, ring, before, s, k) && Facing(st, ring, first) && first != []
    requires 0 < j < |ring| && Trail(st, ring, j, boundary, n)
    requires Loaded(st, ring[j], str) && !IsMeta(st, ring[j]) && str != [] && str == boundary[n..]
    ensures SpanThen(s, boundary, k, k + |Flow(ring[..j + 1], st)|, Flow(ring[j + 1..], st))
  {
    hide View, Flow, Loaded, Pair, BytesOf, Facing, Here;
    TrailStep(st, ring, j, boundary, n, str);
    TrailFlow(st, ring, j);
    TrailLast(st, ring[j], str);
    FacingHere(st, out, ring, before, s, k, first);
    HereAt(s, k, first, 0);
    assert boundary[..|boundary|] == boundary;
    SpanOfPieces(s, k, Flow(ring[..j], st), View(st, ring[j]), Flow(ring[j + 1..], st), boundary);
  }

  lemma SpanOfPieces(s: seq<Item>, k: nat, u: seq<Item>, v: seq<Item>, w: seq<Item>, boundary: seq<byte>)
    requires k < |s| && s[k..] == u + v + w && v != [] && s[k].Byte? && v[|v| - 1].Byte? && BytesOf(u + v) == boundary
    ensures SpanThen(s, boundary, k, k + |u + v|, w)
  {
    hide BytesOf;
    var q := k + |u + v|;
    assert s[k..q] == s[k..][..q - k] == u + v;
    assert s[q - 1] == s[k..q][q - 1 - k];
    assert s[q..] == s[k..][q - k..];
  }

  lemma TrailLast(st: Store, e: Ptr, str: seq<byte>)
    requires Loaded(st, e, str) && !IsMeta(st, e) && str != []
    ensures |View(st, e)| == |str| && View(st, e)[|str| - 1].Byte?
  {
  }

  /** "Remove the boundary": the first `n` buckets are deleted. */
  method DeleteBuckets(a: Arena, bbOut: Brigade, bbIn: Brigade, n: nat)
    requires bbOut != bbIn && Pair(a.st, bbOut.ring, bbIn.ring) && n <= |bbIn.ring|
    modifies a, bbIn
    ensures Pair(a.st, bbOut.ring, bbIn.ring) && bbIn.ring == old(bbIn.ring)[n..]
    ensures Flow(bbIn.ring, a.st) == Flow(bbIn.ring, old(a.st))
    ensures Flow(bbOut.ring, a.st) == Flow(bbOut.ring, old(a.st))
  {
    hide View, Flow, Framed, Holds, Inv, Apart;
    ghost var st0, ring0 := a.st, bbIn.ring;
    var keep := |bbIn.ring| - n;
    while |bbIn.ring| > keep
      invariant Pair(a.st, bbOut.ring, bbIn.ring)
      invariant keep <= |bbIn.ring| <= |ring0| && bbIn.ring == ring0[|ring0| - |bbIn.ring|..]
      invariant Flow(ring0[n..], a.st) == Flow(ring0[n..], st0)
      invariant Flow(bbOut.ring, a.st) == Flow(bbOut.ring, st0)
    {
      ghost var st1, ring1 := a.st, bbIn.ring;
      DeleteFirst(a, bbIn);
      PairAfter(st1, bbOut.ring, ring1, a.st, bbIn.ring);
      DeletedTail(st1, a.st, ring1, |ring1| - keep);
      assert ring1[|ring1| - keep..] == ring0[n..];
    }
  }

  lemma DeletedTail(st: Store, st': Store, ring: seq<Ptr>, m: nat)
    requires 0 < m <= |ring| && Good(st, ring) && Same(st, st', st.buckets.Keys - {ring[0]})
    ensures Flow(ring[m..], st') == Flow(ring[m..], st)
  {
    hide View, Flow, Inv;
    FlowSame(ring[m..], st, st');
  }

  /**
    The loop after `skip`. The first bucket reads as the beginning of the
    boundary; read further buckets and either find the rest of the boundary
    and remove it, or leave everything in place.
  */
  method Skip(a: Arena, bbOut: Brigade, bbIn: Brigade, boundary: seq<byte>, first: seq<byte>,
              ghost before: seq<Item>, ghost s: seq<Item>, ghost k: nat)
    returns (status: Status, found: bool, ghost q: nat)
    requires bbOut != bbIn && Passed(a.st, bbOut.ring, bbIn.ring, before, s, k)
    requires Facing(a.st, bbIn.ring, first) && first != [] && first < boundary
    modifies a, bbIn
    ensures Pair(a.st, bbOut.ring, bbIn.ring)
    ensures found ==> status == Success && Span(s, boundary, k, q) && Flow(bbIn.ring, a.st) == s[q..]
    ensures found ==> Flow(bbOut.ring, a.st) == before + s[..k]
    ensures !found ==> Passed(a.st, bbOut.ring, bbIn.ring, before, s, k) && Facing(a.st, bbIn.ring, first)
    ensures status == Success || (status == ReadError && !found)
    ensures status == Success && !found ==> !MatchAt(s, boundary, k)
    ensures InMemory(old(a.st), old(bbIn.ring)) && !found ==> status == Success && InMemory(a.st, bbIn.ring)
    ensures InMemory(old(a.st), old(bbIn.ring)) && !found ==>
      Lens(a.st, bbIn.ring) == Lens(old(a.st), old(bbIn.ring))
    ensures !found ==> Widest(Lens(a.st, bbIn.ring)) <= Widest(Lens(old(a.st), old(bbIn.ring)))
  {
    hide View, Flow, Loaded, Plain, Framed, Good, Apart, BytesOf, Unmoved, IsMeta, Recut, MatchAt, Span, Trail,
         InMemory, LengthOf, Lens, Widest;
    q, status := k, Success;
    var j, inbytes := 1, |first|;
    TrailStart(a.st, bbIn.ring, boundary, first);
    while j < |bbIn.ring|
      invariant Passed(a.st, bbOut.ring, bbIn.ring, before, s, k) && Facing(a.st, bbIn.ring, first)
      invariant 0 < j <= |bbIn.ring| && |first| <= inbytes < |boundary|
      invariant Trail(a.st, bbIn.ring, j, boundary, inbytes)
      invariant InMemory(old(a.st), old(bbIn.ring)) ==> InMemory(a.st, bbIn.ring)
      invariant InMemory(old(a.st), old(bbIn.ring)) ==> Lens(a.st, bbIn.ring) == Lens(old(a.st), old(bbIn.ring))
      invariant Widest(Lens(a.st, bbIn.ring)) <= Widest(Lens(old(a.st), old(bbIn.ring)))
      decreases |boundary| - inbytes, |bbIn.ring| - j
    {
      ghost var st0, ring0 := a.st, bbIn.ring;
      var str;
      status, str := ReadAt(a, bbIn, j);
      AfterRecut(st0, bbOut.ring, ring0, a.st, bbIn.ring, before, s, k);
      if status != Success {
        return status, false, q;
      }
      FacingStays(st0, ring0, a.st, bbIn.ring, first);
      TrailStays(st0, ring0, a.st, bbIn.ring, j, boundary, inbytes);
      var off := |boundary| - inbytes;
      if |str| > off {
        if str[..off] != boundary[inbytes..] {
          TrailMiss(a.st, bbIn.ring, j, boundary, inbytes, str, off);
          NotHere(a.st, bbOut.ring, bbIn.ring, before, s, k, boundary);
          return Success, false, q;
        }
        st0, ring0 := a.st, bbIn.ring;
        TrailData(a.st, bbIn.ring[j], str);
        SplitAt(a, bbIn, j, off, str);
        AfterRecut(st0, bbOut.ring, ring0, a.st, bbIn.ring, before, s, k);
        FacingStays(st0, ring0, a.st, bbIn.ring, first);
        TrailStays(st0, ring0, a.st, bbIn.ring, j, boundary, inbytes);
        TrailMatches(a.st, bbOut.ring, bbIn.ring, before, s, k, first, j, boundary, inbytes, str[..off]);
        q := k + |Flow(bbIn.ring[..j + 1], a.st)|;
        DeleteBuckets(a, bbOut, bbIn, j + 1);
        return Success, true, q;
      }
      if |str| == off {
        if str != boundary[inbytes..] {
          assert str[..off] == str && boundary[inbytes..inbytes + off] == boundary[inbytes..];
          TrailMiss(a.st, bbIn.ring, j, boundary, inbytes, str, off);
          NotHere(a.st, bbOut.ring, bbIn.ring, before, s, k, boundary);
          return Success, false, q;
        }
        TrailData(a.st, bbIn.ring[j], str);
        TrailMatches(a.st, bbOut.ring, bbIn.ring, before, s, k, first, j, boundary, inbytes, str);
        q := k + |Flow(bbIn.ring[..j + 1], a.st)|;
        DeleteBuckets(a, bbOut, bbIn, j + 1);
        return Success, true, q;
      } else if |str| > 0 {
        if str != boundary[inbytes..inbytes + |str|] {
          assert str[..|str|] == str;
          TrailMiss(a.st, bbIn.ring, j, boundary, inbytes, str, |str|);
          NotHere(a.st, bbOut.ring, bbIn.ring, before, s, k, boundary);
          return Success, false, q;
        }
      }
      TrailStep(a.st, bbIn.ring, j, boundary, inbytes, str);
      inbytes := inbytes + |str|;
      j := j + 1;
    }
    TrailEnds(a.st, bbIn.ring, boundary, inbytes);
    NotHere(a.st, bbOut.ring, bbIn.ring, before, s, k, boundary);
    return Success, false, q;
  }

  lemma TrailStart(st: Store, ring: seq<Ptr>, boundary: seq<byte>, first: seq<byte>)
    requires Facing(st, ring, first) && first <= boundary
    ensures Trail(st, ring, 1, boundary, |first|)
  {
    assert boundary[..|first|] == first && boundary[0..|first|] == first;
    assert ring[..0] == [];
    TrailStep(st, ring, 0, boundary, 0, first);
  }

  lemma TrailData(st: Store, e: Ptr, str: seq<byte>)
    requires Loaded(st, e, str) && str != []
    ensures !IsMeta(st, e)
  {
  }

  lemma AfterRecut(st: Store, out: seq<Ptr>, ring: seq<Ptr>, st': Store, ring': seq<Ptr>,
                   before: seq<Item>, s: seq<Item>, k: nat)
    requires Passed(st, out, ring, before, s, k) && Recut(st, ring, st', ring')
    ensures Passed(st', out, ring', before, s, k)
  {
    hide View, Flow, Plain, Moved, Recut;
    MovedRecut(st, out, ring, st', ring', before, s, k);
  }

  lemma FacingStays(st: Store, ring: seq<Ptr>, st': Store, ring': seq<Ptr>, first: seq<byte>)
    requires Facing(st, ring, first) && ring' != [] && ring'[0] == ring[0] && Unmoved(st, st', ring[0])
    ensures Facing(st', ring', first)
  {
    hide View;
  }

  lemma TrailStays(st: Store, ring: seq<Ptr>, st': Store, ring': seq<Ptr>, j: nat, boundary: seq<byte>, n: nat)
    requires Trail(st, ring, j, boundary, n) && j <= |ring'| && Flow(ring'[..j], st') == Flow(ring[..j], st)
    ensures Trail(st', ring', j, boundary, n)
  {
    hide View, Flow;
  }

  lemma NotHere(st: Store, out: seq<Ptr>, ring: seq<Ptr>, before: seq<Item>, s: seq<Item>, k: nat, boundary: seq<byte>)
    requires Passed(st, out, ring, before, s, k) && !(boundary <= BytesOf(Flow(ring, st)))
    ensures !MatchAt(s, boundary, k)
  {
    hide View, Flow, Pair, BytesOf, Plain;
  }

  // ----- The whole operation

  /**
    What a call may leave behind: bbOut gained the first `k` items, `rest` is
    what bbIn stands for.
  */
  ghost predicate Outcome(status: Status, before: seq<Item>, s: seq<Item>, boundary: seq<byte>, maxbytes: int,
                    k: int, out: seq<Item>, rest: seq<Item>) {
    && 0 <= k <= |s| && Plain(s[..k])
    && out == before + s[..k]
    && NoMatchBefore(s, boundary, k)
    && match status
       case Success => exists q :: Span(s, boundary, k, q) && rest == s[q..]
       case Incomplete => rest == s[k..] && (k == |s| || k >= maxbytes || s[k].Meta?)
       case ReadError => rest == s[k..]
       case _ => false
  }

  lemma PassedStart(st: Store, out: seq<Ptr>, ring: seq<Ptr>, boundary: seq<byte>)
    requires Pair(st, out, ring)
    ensures Passed(st, out, ring, Flow(out, st), Flow(ring, st), 0)
    ensures NoMatchBefore(Flow(ring, st), boundary, 0)
  {
    hide View, Flow, Good;
  }

  /** The call returns without a match. */
  lemma GaveUp(status: Status, st: Store, out: seq<Ptr>, ring: seq<Ptr>, before: seq<Item>, s: seq<Item>, k: nat,
               boundary: seq<byte>, maxbytes: int, ignore: nat)
    requires Passed(st, out, ring, before, s, k) && NoMatchBefore(s, boundary, k + ignore)
    requires status == ReadError || (status == Incomplete && (k == |s| || k >= maxbytes || s[k].Meta?))
    ensures Outcome(status, before, s, boundary, maxbytes, k, Flow(out, st), Flow(ring, st))
  {
    hide View, Flow, Good, Plain, MatchAt, Span;
  }

  lemma Found(before: seq<Item>, s: seq<Item>, k: nat, q: nat, boundary: seq<byte>, maxbytes: int,
              out: seq<Item>, rest: seq<Item>)
    requires k <= |s| && Plain(s[..k]) && NoMatchBefore(s, boundary, k) && Span(s, boundary, k, q)
    requires out == before + s[..k] && rest == s[q..]
    ensures Outcome(Success, before, s, boundary, maxbytes, k, out, rest)
  {
    hide Plain, MatchAt;
  }

  lemma FacingMeta(st: Store, out: seq<Ptr>, ring: seq<Ptr>, before: seq<Item>, s: seq<Item>, k: nat)
    requires Passed(st, out, ring, before, s, k) && ring != [] && IsMeta(st, ring[0])
    ensures k < |s| && s[k].Meta?
  {
    hide Good, Plain;
    assert Flow(ring, st)[0].Meta?;
  }

  lemma FlowNone(st: Store)
    ensures Flow([], st) == []
  {
  }

  /** memmem found the boundary inside one bucket. */
  lemma FoundWithin(s: seq<Item>, k: nat, str: seq<byte>, boundary: seq<byte>, ignore: nat, pos: nat)
    requires boundary != [] && Here(s, k, str) && ignore <= |str| && NoMatchBefore(s, boundary, k + ignore)
    requires FirstAt(str[ignore..], boundary, pos)
    ensures NoMatchBefore(s, boundary, k + ignore + pos)
    ensures Span(s, boundary, k + ignore + pos, k + ignore + pos + |boundary|)
  {
    hide Here, Span, MatchAt, BytesOf;
    Shifted(str, boundary, ignore, pos);
    SpanWithin(s, k, str, boundary, ignore + pos);
    forall p | k + ignore <= p < k + ignore + pos ensures !MatchAt(s, boundary, p) {
      Shifted(str, boundary, ignore, p - k - ignore);
      MatchWithin(s, k, str, boundary, p - k);
    }
  }

  lemma Shifted(str: seq<byte>, boundary: seq<byte>, ignore: nat, p: nat)
    requires ignore <= |str|
    ensures At(str[ignore..], boundary, p) <==> At(str, boundary, ignore + p)
  {
    if ignore + p + |boundary| <= |str| {
      assert str[ignore..][p..p + |boundary|] == str[ignore + p..ignore + p + |boundary|];
    }
  }

  /** memmem found nothing, and no partial match at the end starts before `off`. */
  lemma FastScanned(s: seq<Item>, k: nat, str: seq<byte>, boundary: seq<byte>, ignore: nat, off: nat)
    requires boundary != [] && Here(s, k, str) && ignore <= |str| && NoMatchBefore(s, boundary, k + ignore)
    requires !Occurs(str[ignore..], boundary) && off <= |str|
    requires forall p :: |str| - (|boundary| - 1) <= p < off ==> !Partial(str, boundary, p)
    requires |boundary| <= |str| - ignore
    ensures NoMatchBefore(s, boundary, k + off)
  {
    hide Here, MatchAt, NoMatchBefore;
    forall p | ignore <= p && p + |boundary| <= |str| ensures !At(str, boundary, p) {
      Shifted(str, boundary, ignore, p - ignore);
    }
    Scanned(s, k, str, boundary, ignore, |str| - (|boundary| - 1), off);
  }

  lemma SlowScanned(s: seq<Item>, k: nat, str: seq<byte>, boundary: seq<byte>, ignore: nat, off: nat)
    requires boundary != [] && Here(s, k, str) && NoMatchBefore(s, boundary, k + ignore)
    requires ignore <= off <= |str| && |str| - ignore < |boundary|
    requires forall p :: ignore <= p < off ==> !Partial(str, boundary, p)
    ensures NoMatchBefore(s, boundary, k + off)
  {
    hide Here, MatchAt, NoMatchBefore;
    Scanned(s, k, str, boundary, ignore, ignore, off);
  }

  lemma FacingNow(st: Store, ring: seq<Ptr>, str: seq<byte>)
    requires ring != [] && Loaded(st, ring[0], str) && !IsMeta(st, ring[0])
    ensures Facing(st, ring, str)
  {
  }

  lemma Bumped(st: Store, ring: seq<Ptr>, s: seq<Item>, k: nat, boundary: seq<byte>, first: seq<byte>)
    requires Facing(st, ring, first) && first != [] && NoMatchBefore(s, boundary, k) && !MatchAt(s, boundary, k)
    ensures NoMatchBefore(s, boundary, k + 1) && ring != [] && LengthOf(st, ring[0]) > 0
  {
    hide MatchAt, View;
  }

  method IsMetadata(a: Arena, bb: Brigade) returns (meta: bool)
    requires Good(a.st, bb.ring) && bb.ring != []
    ensures meta == IsMeta(a.st, bb.ring[0])
  {
    meta := a.st.buckets[bb.ring[0]].kind.Metadata?;
  }

  /**
    The search of one bucket. Fast path, when a boundary fits: memmem, then
    partial matches at the end. Slow path: partial matches only.
  */
  method Scan(str: seq<byte>, boundary: seq<byte>, ignore: nat, ghost s: seq<Item>, ghost k: nat)
    returns (found: bool, off: nat)
    requires boundary != [] && ignore <= |str| && Here(s, k, str) && NoMatchBefore(s, boundary, k + ignore)
    ensures ignore <= off <= |str| && NoMatchBefore(s, boundary, k + off)
    ensures found ==> off + |boundary| <= |str| && Span(s, boundary, k + off, k + off + |boundary|)
    ensures !found && off < |str| ==> str[off..] < boundary
    ensures forall p :: ignore <= p < off ==> !Partial(str, boundary, p)
  {
    hide Here, NoMatchBefore, Span, NoneBefore;
    if |str| - ignore >= |boundary| {
      var pos := Memmem(str[ignore..], boundary);
      if pos != -1 {
        FoundWithin(s, k, str, boundary, ignore, pos);
        return true, pos + ignore;
      }
      off := FirstPartial(str, boundary, |str| - (|boundary| - 1));
      FastScanned(s, k, str, boundary, ignore, off);
    } else {
      off := FirstPartial(str, boundary, ignore);
      SlowScanned(s, k, str, boundary, ignore, off);
    }
    found := false;
  }

  // ----- The limit

  /** `last` is what had been moved when the limit was last looked at and not yet reached. */
  predicate Paced(last: int, k: int, maxbytes: int, wide: nat, busy: bool) {
    0 <= last <= k <= last + wide && (k > 0 || busy ==> last < maxbytes)
  }

  /** Where the loop stands among the pieces of an input in memory. */
  ghost predicate Tracked(lens0: seq<nat>, s: seq<Item>, boundary: seq<byte>, maxbytes: int, i: nat, k: nat,
                          ignore: nat, lens: seq<nat>) {
    && Left(lens0, i, k, lens) && Within(lens0, s, boundary, maxbytes, k)
    && (k == Start(lens0, i) || (ignore == 1 && Begins(lens0, s, boundary, k)))
  }

  /**
    Of an input in memory, cut into pieces `lens`: every place before `k` at
    which the limit is looked at was below it. A match that begins a piece was
    found below it, and giving up for the limit is at such a place.
  */
  ghost predicate Limited(status: Status, lens: seq<nat>, s: seq<Item>, boundary: seq<byte>, maxbytes: int, k: int) {
    && Within(lens, s, boundary, maxbytes, k)
    && (status == Success && Edge(lens, k) ==> k < maxbytes)
    && (status == Incomplete && 0 <= k < |s| && !s[k].Meta? ==>
          k >= maxbytes && (Edge(lens, k) || (Begins(lens, s, boundary, k) && !MatchAt(s, boundary, k))))
  }

  lemma TrackStart(lens: seq<nat>, s: seq<Item>, boundary: seq<byte>, maxbytes: int)
    ensures Tracked(lens, s, boundary, maxbytes, 0, 0, 0, lens)
  {
    hide Within, Begins, Left;
    LeftStart(lens);
    WithinStart(lens, s, boundary, maxbytes);
  }

  /** A bucket without a match, and without a partial match at its end, is passed. */
  lemma TrackPass(lens0: seq<nat>, s: seq<Item>, boundary: seq<byte>, maxbytes: int, i: nat, k: nat, ignore: nat,
                  lens: seq<nat>, str: seq<byte>)
    requires Tracked(lens0, s, boundary, maxbytes, i, k, ignore, lens) && k < maxbytes && ignore <= 1
    requires lens != [] && lens[0] == |str| && Here(s, k, str)
    requires forall p :: ignore <= p < |str| ==> !Partial(str, boundary, p)
    ensures Tracked(lens0, s, boundary, maxbytes, i + 1, k + |str|, 0, lens[1..])
  {
    hide Within, Begins, Here, Partial, Start;
    LeftPass(lens0, i, k, lens);
    LeftBegins(lens0, i, k, lens);
    WithinMore(lens0, s, boundary, maxbytes, i, k, str, |str|);
  }

  lemma LeftBegins(lens0: seq<nat>, i: nat, k: nat, lens: seq<nat>)
    requires Left(lens0, i, k, lens)
    ensures i <= |lens0| && Start(lens0, i) <= k
  {
  }

  /** A bucket is passed up to `off`, inside it, where a match or a partial match begins. */
  lemma TrackHead(lens0: seq<nat>, s: seq<Item>, boundary: seq<byte>, maxbytes: int, i: nat, k: nat, ignore: nat,
                  lens: seq<nat>, str: seq<byte>, off: nat)
    requires Tracked(lens0, s, boundary, maxbytes, i, k, ignore, lens) && k < maxbytes && ignore <= 1
    requires lens != [] && lens[0] == |str| && Here(s, k, str) && off < |str|
    requires forall p :: ignore <= p < off ==> !Partial(str, boundary, p)
    ensures Within(lens0, s, boundary, maxbytes, k + off)
    ensures Edge(lens0, k + off) ==> k + off < maxbytes
    ensures ignore <= off && Partial(str, boundary, off) ==>
      Tracked(lens0, s, boundary, maxbytes, i, k + off, 1, [|str| - off] + lens[1..])
  {
    hide Within, Begins, Here, Partial, Start, Edge;
    LeftHead(lens0, i, k, lens, off);
    LeftBegins(lens0, i, k, lens);
    WithinMore(lens0, s, boundary, maxbytes, i, k, str, off);
    if off > 0 {
      NoEdgeInside(lens0, i, k + off);
      if Partial(str, boundary, off) {
        PartialBegins(lens0, s, boundary, i, k, str, off);
      }
    } else {
      assert [|str| - off] + lens[1..] == lens;
    }
  }

  /** Giving up where the limit is looked at, or at metadata or the end. */
  lemma TrackStops(lens0: seq<nat>, s: seq<Item>, boundary: seq<byte>, maxbytes: int, i: nat, k: nat, ignore: nat,
                   lens: seq<nat>)
    requires Tracked(lens0, s, boundary, maxbytes, i, k, ignore, lens) && NoMatchBefore(s, boundary, k + ignore)
    requires k >= maxbytes || k >= |s| || s[k].Meta?
    ensures Limited(Incomplete, lens0, s, boundary, maxbytes, k)
  {
    hide Within, Begins, Start, MatchAt;
    LeftBegins(lens0, i, k, lens);
  }

  /** A match was found where the bucket had been passed up to. */
  lemma TrackFound(lens0: seq<nat>, s: seq<Item>, boundary: seq<byte>, maxbytes: int, k: nat)
    requires Within(lens0, s, boundary, maxbytes, k) && (Edge(lens0, k) ==> k < maxbytes)
    ensures Limited(Success, lens0, s, boundary, maxbytes, k)
  {
    hide Within, Edge;
  }

  /** The state between two rounds of the loop; `mem` says that the input was all in memory, cut as `lens0`. */
  ghost predicate Running(st: Store, out: seq<Ptr>, ring: seq<Ptr>, before: seq<Item>, s: seq<Item>, k: nat,
                          boundary: seq<byte>, maxbytes: int, ignore: nat, mem: bool, lens0: seq<nat>, i: nat) {
    && Passed(st, out, ring, before, s, k) && ignore <= 1 && NoMatchBefore(s, boundary, k + ignore)
    && (mem ==> InMemory(st, ring) && Tracked(lens0, s, boundary, maxbytes, i, k, ignore, Lens(st, ring)))
    && Widest(Lens(st, ring)) <= Widest(lens0)
    && (ignore == 1 ==> ring != [] && LengthOf(st, ring[0]) > 0)
  }

  /** What the call may leave behind, apart from `last`. */
  ghost predicate Finished(status: Status, st: Store, out: seq<Ptr>, ring: seq<Ptr>, before: seq<Item>, s: seq<Item>,
                           k: nat, boundary: seq<byte>, maxbytes: int, mem: bool, lens0: seq<nat>) {
    && Pair(st, out, ring)
    && Outcome(status, before, s, boundary, maxbytes, k, Flow(out, st), Flow(ring, st))
    && (mem ==> status != ReadError && Limited(status, lens0, s, boundary, maxbytes, k))
  }

  lemma GivesUp(status: Status, st: Store, out: seq<Ptr>, ring: seq<Ptr>, before: seq<Item>, s: seq<Item>, k: nat,
                boundary: seq<byte>, maxbytes: int, ignore: nat, mem: bool, lens0: seq<nat>, i: nat)
    requires Running(st, out, ring, before, s, k, boundary, maxbytes, ignore, mem, lens0, i)
    requires (status == ReadError && !mem)
          || (status == Incomplete && (k >= maxbytes || ring == [] || IsMeta(st, ring[0])))
    ensures Finished(status, st, out, ring, before, s, k, boundary, maxbytes, mem, lens0)
  {
    hide View, Flow, Plain, Good, Apart, NoMatchBefore, InMemory, Tracked, Lens, Widest, LengthOf, IsMeta, Limited,
         Outcome, Moved;
    PassedParts(st, out, ring, before, s, k);
    if ring == [] {
      FlowNone(st);
    } else if IsMeta(st, ring[0]) {
      FacingMeta(st, out, ring, before, s, k);
    }
    GaveUp(status, st, out, ring, before, s, k, boundary, maxbytes, ignore);
    if mem {
      TrackStops(lens0, s, boundary, maxbytes, i, k, ignore, Lens(st, ring));
    }
  }

  /** A match inside the first bucket: what is before it is passed, and the boundary is cut out. */
  method TakeMatch(a: Arena, bbOut: Brigade, bbIn: Brigade, boundary: seq<byte>, off: nat, ghost str: seq<byte>,
                   ghost before: seq<Item>, ghost s: seq<Item>, ghost k: nat, ghost maxbytes: int,
                   ghost mem: bool, ghost lens0: seq<nat>)
    requires bbOut != bbIn && Passed(a.st, bbOut.ring, bbIn.ring, before, s, k) && Facing(a.st, bbIn.ring, str)
    requires off + |boundary| <= |str| && Span(s, boundary, k + off, k + off + |boundary|)
    requires NoMatchBefore(s, boundary, k + off)
    requires mem ==> Limited(Success, lens0, s, boundary, maxbytes, k + off)
    modifies a, bbOut, bbIn
    ensures Finished(Success, a.st, bbOut.ring, bbIn.ring, before, s, k + off, boundary, maxbytes, mem, lens0)
  {
    hide View, Flow, Plain, Good, Apart, NoMatchBefore, InMemory, Limited, Lens, Facing, Span, Moved, Outcome;
    if off != 0 {
      PassHead(a, bbOut, bbIn, before, s, k, str, off);
    }
    assert off == 0 ==> str[off..] == str;
    PassedParts(a.st, bbOut.ring, bbIn.ring, before, s, k + off);
    CutHead(a, bbOut, bbIn, before, s, k + off, str[off..], |boundary|);
    Found(before, s, k + off, k + off + |boundary|, boundary, maxbytes, Flow(bbOut.ring, a.st), Flow(bbIn.ring, a.st));
  }

  /** A partial match at the end of the first bucket: what is before it is passed, and later buckets are read. */
  method HoldBack(a: Arena, bbOut: Brigade, bbIn: Brigade, boundary: seq<byte>, off: nat, ghost ignore: nat,
                  str: seq<byte>, ghost before: seq<Item>, ghost s: seq<Item>, ghost k: nat,
                  ghost maxbytes: int, ghost mem: bool, ghost lens0: seq<nat>, ghost i: nat)
    returns (status: Status, found: bool)
    requires bbOut != bbIn
    requires Running(a.st, bbOut.ring, bbIn.ring, before, s, k, boundary, maxbytes, ignore, mem, lens0, i)
    requires Facing(a.st, bbIn.ring, str) && Here(s, k, str) && k < maxbytes
    requires ignore <= off < |str| && str[off..] < boundary && NoMatchBefore(s, boundary, k + off)
    requires forall p :: ignore <= p < off ==> !Partial(str, boundary, p)
    modifies a, bbOut, bbIn
    ensures status == Success || (status == ReadError && !found && !mem)
    ensures found || status == ReadError ==>
      Finished(status, a.st, bbOut.ring, bbIn.ring, before, s, k + off, boundary, maxbytes, mem, lens0)
    ensures status == Success && !found ==>
      Running(a.st, bbOut.ring, bbIn.ring, before, s, k + off, boundary, maxbytes, 1, mem, lens0, i)
  {
    hide View, Flow, Plain, Good, Apart, MatchAt, NoMatchBefore, Span, InMemory, LengthOf, Here, Facing, Outcome, Moved,
         Lens, Widest, Tracked, Limited, Partial, Within, Edge;
    FacingLens(a.st, bbIn.ring, str);
    ghost var lens := Lens(a.st, bbIn.ring);
    PartialIs(str, boundary, off);
    WidestShorter(lens, |str| - off);
    if mem {
      TrackHead(lens0, s, boundary, maxbytes, i, k, ignore, lens, str, off);
      TrackFound(lens0, s, boundary, maxbytes, k + off);
    }
    if off != 0 {
      PassHead(a, bbOut, bbIn, before, s, k, str, off);
    }
    assert off == 0 ==> str[off..] == str && [|str| - off] + lens[1..] == lens;
    PassedParts(a.st, bbOut.ring, bbIn.ring, before, s, k + off);
    ghost var q;
    status, found, q := Skip(a, bbOut, bbIn, boundary, str[off..], before, s, k + off);
    if status != Success {
      GaveUp(ReadError, a.st, bbOut.ring, bbIn.ring, before, s, k + off, boundary, maxbytes, 0);
    } else if found {
      Found(before, s, k + off, q, boundary, maxbytes, Flow(bbOut.ring, a.st), Flow(bbIn.ring, a.st));
    } else {
      Bumped(a.st, bbIn.ring, s, k + off, boundary, str[off..]);
    }
  }

  /** One round of the loop on a data bucket, the limit not being reached; `moved` bytes go to bbOut. */
  method Round(a: Arena, bbOut: Brigade, bbIn: Brigade, boundary: seq<byte>, ignore: nat,
               ghost before: seq<Item>, ghost s: seq<Item>, ghost k: nat,
               ghost maxbytes: int, ghost mem: bool, ghost lens0: seq<nat>, ghost i: nat)
    returns (status: Status, done: bool, moved: nat, ignore': nat, ghost i': nat)
    requires boundary != [] && bbIn.ring != [] && !IsMeta(a.st, bbIn.ring[0]) && k < maxbytes
    requires bbOut != bbIn
    requires Running(a.st, bbOut.ring, bbIn.ring, before, s, k, boundary, maxbytes, ignore, mem, lens0, i)
    modifies a, bbOut, bbIn
    ensures status == Success || (status == ReadError && done)
    ensures moved <= Widest(lens0)
    ensures done ==>
      Finished(status, a.st, bbOut.ring, bbIn.ring, before, s, k + moved, boundary, maxbytes, mem, lens0)
    ensures !done ==>
      Running(a.st, bbOut.ring, bbIn.ring, before, s, k + moved, boundary, maxbytes, ignore', mem, lens0, i')
    ensures !done ==> moved > 0 || ignore' > ignore || (ignore' == ignore && |bbIn.ring| < |old(bbIn.ring)|)
  {
    hide View, Flow, Plain, Good, Apart, MatchAt, NoMatchBefore, Span, InMemory, LengthOf, Here, Facing, Outcome, Moved,
         Lens, Widest, Tracked, Limited, Partial, Within, Edge, Recut, Loaded, IsMeta, Unmoved, Finished;
    i', moved, ignore', done := i, 0, ignore, true;
    PassedParts(a.st, bbOut.ring, bbIn.ring, before, s, k);
    ghost var st0, ring0 := a.st, bbIn.ring;
    var str;
    status, str := ReadAt(a, bbIn, 0);
    AfterRecut(st0, bbOut.ring, ring0, a.st, bbIn.ring, before, s, k);
    if status != Success {
      GivesUp(ReadError, a.st, bbOut.ring, bbIn.ring, before, s, k, boundary, maxbytes, ignore, mem, lens0, i);
      return;
    }
    FacingNow(a.st, bbIn.ring, str);
    FacingHere(a.st, bbOut.ring, bbIn.ring, before, s, k, str);
    FacingLens(a.st, bbIn.ring, str);
    WidestFirst(Lens(a.st, bbIn.ring));
    FacingLength(a.st, bbIn.ring, str);
    var found, off := Scan(str, boundary, ignore, s, k);
    moved := off;
    if found {
      if mem {
        TrackHead(lens0, s, boundary, maxbytes, i, k, ignore, Lens(a.st, bbIn.ring), str, off);
        TrackFound(lens0, s, boundary, maxbytes, k + off);
      }
      TakeMatch(a, bbOut, bbIn, boundary, off, str, before, s, k, maxbytes, mem, lens0);
    } else if off == |str| {
      if mem {
        TrackPass(lens0, s, boundary, maxbytes, i, k, ignore, Lens(a.st, bbIn.ring), str);
      }
      PassBucket(a, bbOut, bbIn, before, s, k, str);
      done, ignore', i' := false, 0, i + 1;
    } else {
      status, found := HoldBack(a, bbOut, bbIn, boundary, off, ignore, str, before, s, k, maxbytes, mem, lens0, i);
      done, ignore' := found || status != Success, 1;
    }
  }

  lemma FacingLength(st: Store, ring: seq<Ptr>, str: seq<byte>)
    requires Facing(st, ring, str)
    ensures ring != [] && LengthOf(st, ring[0]) == |str|
  {
  }

  method SplitBoundary(a: Arena, bbOut: Brigade, bbIn: Brigade, boundary: seq<byte>, maxbytes: int)
    returns (status: Status, ghost k: nat, ghost last: int)
    requires bbOut != bbIn && Pair(a.st, bbOut.ring, bbIn.ring)
    modifies a, bbOut, bbIn
    ensures Pair(a.st, bbOut.ring, bbIn.ring)
    ensures status == EInval <==> boundary == [] || boundary[0] == 0
    ensures status == EInval ==> a.st == old(a.st) && bbOut.ring == old(bbOut.ring) && bbIn.ring == old(bbIn.ring)
    ensures status != EInval ==>
      Outcome(status, Flow(old(bbOut.ring), old(a.st)), Flow(old(bbIn.ring), old(a.st)), boundary, maxbytes, k,
              Flow(bbOut.ring, a.st), Flow(bbIn.ring, a.st))
    ensures status != EInval ==>
      Paced(last, k, maxbytes, Widest(Lens(old(a.st), old(bbIn.ring))), status == Success || status == ReadError)
    ensures InMemory(old(a.st), old(bbIn.ring)) ==> status != ReadError
    ensures InMemory(old(a.st), old(bbIn.ring)) && status != EInval ==>
      Limited(status, Lens(old(a.st), old(bbIn.ring)), Flow(old(bbIn.ring), old(a.st)), boundary, maxbytes, k)
  {
    hide View, Flow, Plain, Good, Apart, MatchAt, NoMatchBefore, Span, InMemory, LengthOf, Here, Facing, Outcome, Moved,
         Lens, Widest, Tracked, Limited, Partial, Within, Edge, IsMeta;
    k, last := 0, 0;
    if boundary == [] || boundary[0] == 0 {
      return EInval, 0, 0;
    }
    ghost var before, s := Flow(bbOut.ring, a.st), Flow(bbIn.ring, a.st);
    ghost var mem, lens0, i := InMemory(a.st, bbIn.ring), Lens(a.st, bbIn.ring), 0;
    var outbytes, ignore := 0, 0;
    PassedStart(a.st, bbOut.ring, bbIn.ring, boundary);
    TrackStart(lens0, s, boundary, maxbytes);
    while bbIn.ring != []
      invariant bbOut != bbIn && outbytes == k
      invariant Running(a.st, bbOut.ring, bbIn.ring, before, s, k, boundary, maxbytes, ignore, mem, lens0, i)
      invariant Paced(last, k, maxbytes, Widest(lens0), ignore == 1)
      decreases |s| - k, 1 - ignore, |bbIn.ring|
    {
      PassedParts(a.st, bbOut.ring, bbIn.ring, before, s, k);
      if outbytes >= maxbytes {
        GivesUp(Incomplete, a.st, bbOut.ring, bbIn.ring, before, s, k, boundary, maxbytes, ignore, mem, lens0, i);
        return Incomplete, k, last;
      }
      last := k;
      var meta := IsMetadata(a, bbIn);
      if meta {
        GivesUp(Incomplete, a.st, bbOut.ring, bbIn.ring, before, s, k, boundary, maxbytes, ignore, mem, lens0, i);
        return Incomplete, k, last;
      }
      var done, moved;
      status, done, moved, ignore, i := Round(a, bbOut, bbIn, boundary, ignore, before, s, k, maxbytes, mem, lens0, i);
      k, outbytes := k + moved, outbytes + moved;
      if done {
        return status, k, last;
      }
      PassedParts(a.st, bbOut.ring, bbIn.ring, before, s, k);
    }
    GivesUp(Incomplete, a.st, bbOut.ring, bbIn.ring, before, s, k, boundary, maxbytes, ignore, mem, lens0, i);
    return Incomplete, k, last;
  }

  lemma PartialIs(str: seq<byte>, boundary: seq<byte>, off: nat)
    requires off < |str| && str[off..] < boundary
    ensures Partial(str, boundary, off)
  {
  }
}
