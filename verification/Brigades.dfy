/**
  Brigades: rings of buckets, changed in place (buckets/apr_brigade.c).

  A ring is the sequence of its buckets without the sentinel. Every operation
  is specified on the stream the ring stands for (`Flow`), which does not
  depend on how the stream is cut into buckets.
*/
module Brigades {
  import opened Streams
  import opened Buckets
  import opened BucketInvariants
  import opened Flows
  import opened Arenas
  import opened Edges

  class Brigade {
    var ring: seq<Ptr>

    constructor ()
      ensures ring == []
    {
      ring := [];
    }
  }

  /** `e` is in memory and reads as `str`; metadata reads as nothing. */
  predicate Loaded(st: Store, e: Ptr, str: seq<byte>) {
    && e in st.buckets && |str| == st.buckets[e].length
    && (!st.buckets[e].kind.Metadata? ==> View(st, e) == Wrap(str))
    && (st.buckets[e].kind.Metadata? ==> str == [])
  }

  lemma LoadedBytes(st: Store, e: Ptr, str: seq<byte>)
    requires Loaded(st, e, str)
    ensures BytesOf(View(st, e)) == str
  {
    if IsMeta(st, e) {
      assert View(st, e)[1..] == [];
    } else {
      BytesOfWrap(str);
    }
  }

  predicate IsMeta(st: Store, e: Ptr) {
    e in st.buckets && st.buckets[e].kind.Metadata?
  }

  predicate IsFile(st: Store, e: Ptr) {
    e in st.buckets && st.buckets[e].kind.File?
  }

  /** No bucket of the ring has to be fetched from a file. */
  predicate InMemory(st: Store, ring: seq<Ptr>) {
    forall e :: e in ring ==> !IsFile(st, e)
  }

  function LengthOf(st: Store, e: Ptr): nat {
    if e in st.buckets then st.buckets[e].length else 0
  }

  /** How the stream of a ring is cut: the items of each bucket. */
  function Lens(st: Store, ring: seq<Ptr>): (r: seq<nat>)
    ensures |r| == |ring|
  {
    seq(|ring|, i requires 0 <= i < |ring| => |View(st, ring[i])|)
  }

  lemma LensTail(st: Store, ring: seq<Ptr>)
    requires ring != []
    ensures Lens(st, ring[1..]) == Lens(st, ring)[1..] && Lens(st, ring)[0] == |View(st, ring[0])|
  {
    hide View;
  }

  /** `e` was left alone. */
  predicate Unmoved(st: Store, st': Store, e: Ptr) {
    e in st.buckets && e in st'.buckets && st'.buckets[e] == st.buckets[e] && View(st', e) == View(st, e)
  }

  /** The ring is well formed over a store that keeps the invariant. */
  predicate Good(st: Store, ring: seq<Ptr>) {
    Inv(st) && Holds(ring, st)
  }

  /** Ring and store changed together, but the stream is the same and nothing else was touched. */
  predicate Recut(st: Store, ring: seq<Ptr>, st': Store, ring': seq<Ptr>) {
    Good(st', ring') && Framed(st, st', ring, ring') && Flow(ring', st') == Flow(ring, st)
  }

  /** apr_bucket_read on the bucket at position `i` of a brigade. */
  method ReadAt(a: Arena, bb: Brigade, i: nat) returns (status: Status, str: seq<byte>)
    requires Good(a.st, bb.ring) && i < |bb.ring|
    modifies a, bb
    ensures Recut(old(a.st), old(bb.ring), a.st, bb.ring)
    ensures status == Success || status == ReadError
    ensures status == ReadError ==> a.st == old(a.st) && bb.ring == old(bb.ring)
    ensures InMemory(old(a.st), old(bb.ring)) ==> status == Success && InMemory(a.st, bb.ring)
    ensures InMemory(old(a.st), old(bb.ring)) ==> Lens(a.st, bb.ring) == Lens(old(a.st), old(bb.ring))
    ensures Widest(Lens(a.st, bb.ring)) <= Widest(Lens(old(a.st), old(bb.ring)))
    ensures status == Success ==>
      && i < |bb.ring| && bb.ring[..i + 1] == old(bb.ring[..i + 1])
      && Loaded(a.st, bb.ring[i], str)
      && Flow(bb.ring[..i], a.st) == Flow(old(bb.ring)[..i], old(a.st))
      && (IsMeta(a.st, bb.ring[i]) <==> IsMeta(old(a.st), bb.ring[i]))
      && (forall j :: 0 <= j < i ==> Unmoved(old(a.st), a.st, bb.ring[j]))
      && (str == [] <==> LengthOf(old(a.st), bb.ring[i]) == 0)
      && (str == [] ==> bb.ring == old(bb.ring))
  {
    hide View, Framed, Inv, Flow, Delivered, Reading, Loaded, Unmoved, InMemory, IsMeta, LengthOf, Lens, Widest;
    ghost var inMemory := InMemory(a.st, bb.ring);
    assert inMemory ==> !IsFile(a.st, bb.ring[i]) by {
      if inMemory {
        NotFile(a.st, bb.ring, i);
      }
    }
    ghost var st0 := a.st;
    var e, rest := bb.ring[i], [];
    status, str, rest := a.Read(e);
    if status == Success {
      ReadFlow(bb.ring, i, rest, st0, a.st);
      ReadLoaded(bb.ring, i, rest, st0, a.st, str);
      ReadLens(bb.ring, i, rest, st0, a.st);
      if inMemory {
        ReadInMemory(bb.ring, i, rest, st0, a.st, str);
      }
      ghost var ring0 := bb.ring;
      bb.ring := InsertAfter(bb.ring, i, rest);
      assert bb.ring[..i] == ring0[..i];
    } else {
      SameFramed(a.st, bb.ring);
    }
  }

  lemma SameFramed(st: Store, ring: seq<Ptr>)
    ensures Framed(st, st, ring, ring)
  {
  }

  lemma ReadLoaded(ring: seq<Ptr>, i: nat, rest: seq<Ptr>, st: Store, st': Store, str: seq<byte>)
    requires Good(st, ring) && i < |ring| && Inv(st')
    requires Delivered(st, st', ring[i], str) && Reading(st, st', ring[i], rest)
    ensures Loaded(st', ring[i], str)
    ensures IsMeta(st', ring[i]) <==> IsMeta(st, ring[i])
    ensures str == [] ==> rest == []
    ensures str == [] <==> LengthOf(st, ring[i]) == 0
    ensures forall j :: 0 <= j < i ==> Unmoved(st, st', ring[j])
    ensures Flow(ring[..i], st') == Flow(ring[..i], st)
  {
    hide View, Flow, Inv;
    Fitting(st, ring[i]);
    Fitting(st', ring[i]);
    FlowSame(ring[..i], st, st');
  }

  /** Reading leaves the pieces as they are, or cuts the one that is read in two. */
  lemma ReadLens(ring: seq<Ptr>, i: nat, rest: seq<Ptr>, st: Store, st': Store)
    requires Good(st, ring) && i < |ring| && Reading(st, st', ring[i], rest)
    ensures rest == [] ==> Lens(st', InsertAfter(ring, i, rest)) == Lens(st, ring)
    ensures Widest(Lens(st', InsertAfter(ring, i, rest))) <= Widest(Lens(st, ring))
  {
    hide View, Inv, Widest;
    var ring' := InsertAfter(ring, i, rest);
    if rest == [] {
      assert ring' == ring;
      LensSame(ring, st, st');
    } else {
      var x := |View(st', ring[i])|;
      assert rest == [rest[0]];
      LensCut(ring, i, rest[0], st, st');
      CutNarrower(Lens(st, ring), i, x);
    }
  }

  lemma LensSame(ring: seq<Ptr>, st: Store, st': Store)
    requires forall e :: e in ring ==> View(st', e) == View(st, e)
    ensures Lens(st', ring) == Lens(st, ring)
  {
    hide View;
  }

  /** One bucket was cut in two and the others read the same. */
  lemma LensCut(ring: seq<Ptr>, i: nat, n: Ptr, st: Store, st': Store)
    requires i < |ring| && Holds(ring, st) && Same(st, st', st.buckets.Keys - {ring[i]})
    requires |View(st', ring[i])| + |View(st', n)| == |View(st, ring[i])|
    ensures Lens(st', InsertAfter(ring, i, [n])) == CutTwo(Lens(st, ring), i, |View(st', ring[i])|)
  {
    hide View;
    var ring' := InsertAfter(ring, i, [n]);
    InsertShape(ring, i, n);
    assert forall j :: i + 2 <= j < |ring'| ==> ring'[j] == ring'[i + 2..][j - i - 2] == ring[j - 1];
  }

  lemma ReadInMemory(ring: seq<Ptr>, i: nat, rest: seq<Ptr>, st: Store, st': Store, str: seq<byte>)
    requires i < |ring| && Delivered(st, st', ring[i], str) && Reading(st, st', ring[i], rest)
    requires InMemory(st, ring)
    ensures rest == [] && InMemory(st', InsertAfter(ring, i, rest))
  {
    hide View, Flow, Same;
    assert !IsFile(st, ring[i]);
    assert InsertAfter(ring, i, []) == ring;
  }

  lemma NotFile(st: Store, ring: seq<Ptr>, i: nat)
    requires InMemory(st, ring) && i < |ring|
    ensures !IsFile(st, ring[i])
  {
  }

  /** apr_bucket_split on the data bucket at position `i`, which reads as `str`. */
  method SplitAt(a: Arena, bb: Brigade, i: nat, point: nat, ghost str: seq<byte>)
    requires Good(a.st, bb.ring) && i < |bb.ring| && point <= |str|
    requires Loaded(a.st, bb.ring[i], str) && !IsMeta(a.st, bb.ring[i])
    modifies a, bb
    ensures Recut(old(a.st), old(bb.ring), a.st, bb.ring)
    ensures |bb.ring| == old(|bb.ring|) + 1 && bb.ring == InsertAfter(old(bb.ring), i, [bb.ring[i + 1]])
    ensures Loaded(a.st, bb.ring[i], str[..point]) && !IsMeta(a.st, bb.ring[i])
    ensures Loaded(a.st, bb.ring[i + 1], str[point..]) && !IsMeta(a.st, bb.ring[i + 1])
    ensures Flow(bb.ring[..i], a.st) == Flow(old(bb.ring)[..i], old(a.st))
    ensures forall j :: 0 <= j < i ==> Unmoved(old(a.st), a.st, bb.ring[j])
    ensures InMemory(old(a.st), old(bb.ring)) ==> InMemory(a.st, bb.ring)
    ensures |str| == Lens(old(a.st), old(bb.ring))[i]
    ensures Lens(a.st, bb.ring) == CutTwo(Lens(old(a.st), old(bb.ring)), i, point)
  {
    LoadedLength(a.st, bb.ring[i], str);
    hide View, Framed, Inv, Flow, Loaded, Buckets.Split, Unmoved, InMemory, Holds, InsertAfter, Recut, IsMeta, Lens,
         CutTwo;
    SplitLens(bb.ring, i, point, a.st, str);
    SplitEffect(bb.ring, i, point, a.st, str);
    LoadedData(a.st, bb.ring[i]);
    var status, b := a.Split(bb.ring[i], point);
    bb.ring := InsertAfter(bb.ring, i, [b]);
  }

  lemma SplitLens(ring: seq<Ptr>, i: nat, point: nat, st: Store, str: seq<byte>)
    requires Good(st, ring) && i < |ring| && Loaded(st, ring[i], str) && !IsMeta(st, ring[i]) && point <= |str|
    ensures |str| == Lens(st, ring)[i]
    ensures Lens(Split(st, ring[i], point), InsertAfter(ring, i, [st.next])) == CutTwo(Lens(st, ring), i, point)
  {
    hide View, Split, Inv, InsertAfter;
    SplitViews(st, ring[i], point);
    LensCut(ring, i, st.next, st, Split(st, ring[i], point));
  }

  lemma LoadedData(st: Store, e: Ptr)
    requires e in st.buckets && !IsMeta(st, e)
    ensures !st.buckets[e].kind.Metadata?
  {
  }

  /** What SplitAt does to ring and store. */
  lemma SplitEffect(ring: seq<Ptr>, i: nat, point: nat, st: Store, str: seq<byte>)
    requires Good(st, ring) && i < |ring| && Loaded(st, ring[i], str) && !IsMeta(st, ring[i]) && point <= |str|
    ensures var ring', st' := InsertAfter(ring, i, [st.next]), Split(st, ring[i], point);
      && |ring'| == |ring| + 1 && ring'[i + 1] == st.next
      && Recut(st, ring, st', ring')
      && Loaded(st', ring'[i], str[..point]) && !IsMeta(st', ring'[i])
      && Loaded(st', ring'[i + 1], str[point..]) && !IsMeta(st', ring'[i + 1])
      && Flow(ring'[..i], st') == Flow(ring[..i], st)
      && (forall j :: 0 <= j < i ==> Unmoved(st, st', ring'[j]))
      && (InMemory(st, ring) ==> InMemory(st', ring'))
  {
    LoadedLength(st, ring[i], str);
    hide View, Framed, Inv, Flow, Loaded, Split, Unmoved, InMemory, Holds, IsMeta, Recut, InsertAfter;
    InsertShape(ring, i, st.next);
    SplitHolds(ring, i, point, st);
    SplitLoaded(st, ring[i], point, str);
    SplitPrefix(ring, i, point, st);
    if InMemory(st, ring) {
      SplitInMemory(ring, i, point, st);
    }
  }

  lemma InsertShape(ring: seq<Ptr>, i: nat, n: Ptr)
    requires i < |ring|
    ensures var ring' := InsertAfter(ring, i, [n]);
      && |ring'| == |ring| + 1 && ring'[i] == ring[i] && ring'[i + 1] == n
      && ring'[..i] == ring[..i] && ring'[..i + 1] == ring[..i + 1] && ring'[i + 2..] == ring[i + 1..]
      && forall j :: 0 <= j < i ==> ring'[j] == ring[j]
  {
  }

  lemma SplitHolds(ring: seq<Ptr>, i: nat, point: nat, st: Store)
    requires Good(st, ring) && i < |ring| && !IsMeta(st, ring[i]) && point <= st.buckets[ring[i]].length
    ensures Recut(st, ring, Split(st, ring[i], point), InsertAfter(ring, i, [st.next]))
  {
    SplitKeeps(st, ring[i], point);
    SplitFlow(ring, i, point, st);
  }

  lemma LoadedLength(st: Store, e: Ptr, str: seq<byte>)
    requires Loaded(st, e, str)
    ensures e in st.buckets && st.buckets[e].length == |str|
  {
  }

  lemma SplitPrefix(ring: seq<Ptr>, i: nat, point: nat, st: Store)
    requires Good(st, ring) && i < |ring| && point <= st.buckets[ring[i]].length && !IsMeta(st, ring[i])
    ensures Flow(ring[..i], Split(st, ring[i], point)) == Flow(ring[..i], st)
    ensures forall j :: 0 <= j < i ==> Unmoved(st, Split(st, ring[i], point), ring[j])
  {
    SplitOthers(st, ring[i], point);
    SplitViews(st, ring[i], point);
    hide View, Inv, Split;
    FlowSame(ring[..i], st, Split(st, ring[i], point));
  }

  lemma SplitInMemory(ring: seq<Ptr>, i: nat, point: nat, st: Store)
    requires Good(st, ring) && i < |ring| && point <= st.buckets[ring[i]].length && InMemory(st, ring)
    ensures InMemory(Split(st, ring[i], point), InsertAfter(ring, i, [st.next]))
  {
    SplitOthers(st, ring[i], point);
    SplitFields(st, ring[i], point);
    hide Inv, Split;
    forall e | e in InsertAfter(ring, i, [st.next]) ensures !IsFile(Split(st, ring[i], point), e) {
      assert e in ring || e == st.next;
      assert !IsFile(st, ring[i]);
    }
  }

  lemma SplitOthers(st: Store, e: Ptr, point: nat)
    requires Inv(st) && e in st.buckets && point <= st.buckets[e].length
    ensures forall x :: x in st.buckets && x != e ==>
      x in Split(st, e, point).buckets && Split(st, e, point).buckets[x] == st.buckets[x]
  {
  }

  lemma SplitLoaded(st: Store, e: Ptr, point: nat, str: seq<byte>)
    requires Inv(st) && Loaded(st, e, str) && !IsMeta(st, e) && point <= |str|
    ensures Loaded(Split(st, e, point), e, str[..point]) && !IsMeta(Split(st, e, point), e)
    ensures Loaded(Split(st, e, point), st.next, str[point..]) && !IsMeta(Split(st, e, point), st.next)
  {
    SplitViews(st, e, point);
    SplitFields(st, e, point);
    hide View, Inv, Split;
    assert Wrap(str)[..point] == Wrap(str[..point]);
    assert Wrap(str)[point..] == Wrap(str[point..]);
  }

  lemma SplitFields(st: Store, e: Ptr, point: nat)
    requires Inv(st) && e in st.buckets && point <= st.buckets[e].length
    ensures Split(st, e, point).buckets[e] == Head(st.buckets[e], point)
    ensures Split(st, e, point).buckets[st.next] == Tail(st.buckets[e], point)
  {
  }

  /** apr_bucket_delete on the first bucket. */
  method DeleteFirst(a: Arena, bb: Brigade)
    requires Good(a.st, bb.ring) && bb.ring != []
    modifies a, bb
    ensures Good(a.st, bb.ring) && bb.ring == old(bb.ring)[1..]
    ensures Framed(old(a.st), a.st, old(bb.ring), bb.ring)
    ensures Same(old(a.st), a.st, old(a.st.buckets.Keys) - {old(bb.ring)[0]})
    ensures Flow(bb.ring, a.st) == Flow(bb.ring, old(a.st))
  {
    hide View, Flow, Framed, Inv, Buckets.Destroy;
    DestroyFlow(bb.ring, a.st);
    DestroyKeeps(a.st, bb.ring[0]);
    var e := bb.ring[0];
    bb.ring := bb.ring[1..];
    a.Destroy(e);
  }

  /** Two brigades over one store, with no bucket in common. */
  predicate Pair(st: Store, x: seq<Ptr>, y: seq<Ptr>) {
    Good(st, x) && Good(st, y) && Apart(x, y)
  }

  lemma PairAfter(st: Store, x: seq<Ptr>, y: seq<Ptr>, st': Store, y': seq<Ptr>)
    requires Pair(st, x, y) && Good(st', y') && Framed(st, st', y, y')
    ensures Pair(st', x, y') && Flow(x, st') == Flow(x, st)
  {
    hide View, Flow, Inv;
    FramedOther(st, st', y, y', x);
  }

  lemma MovePair(st: Store, x: seq<Ptr>, y: seq<Ptr>)
    requires Pair(st, x, y) && y != []
    ensures Pair(st, x + [y[0]], y[1..])
  {
    hide View, Inv;
    forall e | e in x + [y[0]] ensures e !in y[1..] {
      assert e in x || e == y[0];
      assert e in y[1..] ==> e in y;
    }
    assert y[0] in y;
  }

  /** Remove the first bucket of one ring and insert it at the tail of the other. */
  method MoveFirst(a: Arena, bbOut: Brigade, bbIn: Brigade)
    requires bbOut != bbIn && Pair(a.st, bbOut.ring, bbIn.ring) && bbIn.ring != []
    modifies bbOut, bbIn
    ensures Pair(a.st, bbOut.ring, bbIn.ring)
    ensures bbIn.ring == old(bbIn.ring)[1..] && bbOut.ring == old(bbOut.ring) + [old(bbIn.ring)[0]]
    ensures Flow(bbOut.ring, a.st) == Flow(old(bbOut.ring), a.st) + View(a.st, old(bbIn.ring)[0])
    ensures Flow(old(bbIn.ring), a.st) == View(a.st, old(bbIn.ring)[0]) + Flow(bbIn.ring, a.st)
  {
    hide View, Inv;
    var e := bbIn.ring[0];
    FlowConcat(bbOut.ring, [e], a.st);
    assert Flow([e], a.st) == View(a.st, e);
    MovePair(a.st, bbOut.ring, bbIn.ring);
    bbIn.ring := bbIn.ring[1..];
    bbOut.ring := bbOut.ring + [e];
  }

  /** Of a stream `s`, the first `k` items have moved to the end of the other brigade. */
  predicate Moved(st: Store, out: seq<Ptr>, ring: seq<Ptr>, before: seq<Item>, s: seq<Item>, k: int) {
    && Pair(st, out, ring)
    && 0 <= k <= |s|
    && Flow(out, st) == before + s[..k]
    && Flow(ring, st) == s[k..]
  }

  lemma MovedRecut(st: Store, out: seq<Ptr>, ring: seq<Ptr>, st': Store, ring': seq<Ptr>,
                   before: seq<Item>, s: seq<Item>, k: int)
    requires Moved(st, out, ring, before, s, k) && Recut(st, ring, st', ring')
    ensures Moved(st', out, ring', before, s, k)
  {
    hide View, Flow, Framed, Pair;
    PairAfter(st, out, ring, st', ring');
  }
}
