/**
  The stream a ring of buckets stands for, and how ring and store changes act
  on it.
*/
module Flows {
  import opened Streams
  import opened Buckets
  import opened BucketInvariants

  /** The stream of the buckets of `ring`, in order. */
  function Flow(ring: seq<Ptr>, st: Store): seq<Item> {
    if ring == [] then [] else View(st, ring[0]) + Flow(ring[1..], st)
  }

  function Members(ring: seq<Ptr>): set<Ptr> {
    set e | e in ring
  }

  /** All buckets of the ring are live and none is linked twice. */
  predicate Holds(ring: seq<Ptr>, st: Store) {
    && (forall i :: 0 <= i < |ring| ==> ring[i] in st.buckets)
    && (forall i, j :: 0 <= i < j < |ring| ==> ring[i] != ring[j])
  }

  predicate Apart(ring: seq<Ptr>, other: seq<Ptr>) {
    forall e :: e in ring ==> e !in other
  }

  /** A ring changed, but buckets outside it are as before and it took none of them in. */
  predicate Framed(st: Store, st': Store, ring: seq<Ptr>, ring': seq<Ptr>) {
    && Same(st, st', st.buckets.Keys - Members(ring))
    && (forall e :: e in ring' ==> e in ring || e !in st.buckets)
  }

  lemma {:induction false} FlowConcat(a: seq<Ptr>, b: seq<Ptr>, st: Store)
    ensures Flow(a + b, st) == Flow(a, st) + Flow(b, st)
  {
    if a == [] {
      assert a + b == b;
    } else {
      assert (a + b)[1..] == a[1..] + b;
      FlowConcat(a[1..], b, st);
    }
  }

  lemma {:induction false} FlowSame(ring: seq<Ptr>, st: Store, st': Store)
    requires forall e :: e in ring ==> View(st', e) == View(st, e)
    ensures Flow(ring, st') == Flow(ring, st)
  {
    if ring != [] {
      FlowSame(ring[1..], st, st');
    }
  }

  lemma Elsewhere(ring: seq<Ptr>, i: nat, st: Store)
    requires Holds(ring, st) && i < |ring|
    ensures ring[i] !in ring[..i] && ring[i] !in ring[i + 1..]
  {
  }

  /** One bucket of a ring reads as `w` now, the others as before. */
  lemma FlowChange(ring: seq<Ptr>, i: nat, mid: seq<Ptr>, st: Store, st': Store)
    requires i < |ring| && Holds(ring, st)
    requires forall e :: e in ring && e != ring[i] ==> View(st', e) == View(st, e)
    ensures Flow(ring, st) == Flow(ring[..i], st) + View(st, ring[i]) + Flow(ring[i + 1..], st)
    ensures Flow(ring[..i] + mid + ring[i + 1..], st') == Flow(ring[..i], st) + Flow(mid, st') + Flow(ring[i + 1..], st)
  {
    hide View, Flow, Holds;
    FlowOne(ring[i], st);
    FlowConcat([ring[i]], ring[i + 1..], st);
    Elsewhere(ring, i, st);
    assert ring == ring[..i] + ([ring[i]] + ring[i + 1..]);
    FlowConcat(ring[..i], [ring[i]] + ring[i + 1..], st);
    FlowConcat(ring[..i] + mid, ring[i + 1..], st');
    FlowConcat(ring[..i], mid, st');
    FlowSame(ring[..i], st, st');
    FlowSame(ring[i + 1..], st, st');
  }

  lemma FramedOther(st: Store, st': Store, ring: seq<Ptr>, ring': seq<Ptr>, other: seq<Ptr>)
    requires Framed(st, st', ring, ring') && Holds(other, st) && Apart(ring, other)
    ensures Holds(other, st') && Apart(ring', other) && Flow(other, st') == Flow(other, st)
  {
    FlowSame(other, st, st');
  }

  lemma FramedTrans(st: Store, st1: Store, st2: Store, ring: seq<Ptr>, ring1: seq<Ptr>, ring2: seq<Ptr>)
    requires Framed(st, st1, ring, ring1) && Framed(st1, st2, ring1, ring2)
    ensures Framed(st, st2, ring, ring2)
  {
    forall e | e in st.buckets.Keys - Members(ring)
      ensures e in st2.buckets && View(st2, e) == View(st, e)
    {
      assert e in st1.buckets.Keys - Members(ring1);
    }
    forall e | e in ring2 && e !in ring ensures e !in st.buckets {
      assert e in st.buckets.Keys - Members(ring) ==> e in st1.buckets && e !in ring1;
    }
  }

  // ----- Single operations on a bucket of a ring

  /** `ring` with `more` linked in after position `i`. */
  function InsertAfter(ring: seq<Ptr>, i: nat, more: seq<Ptr>): seq<Ptr>
    requires i < |ring|
  {
    ring[..i] + ([ring[i]] + more) + ring[i + 1..]
  }

  lemma InsertHolds(ring: seq<Ptr>, i: nat, more: seq<Ptr>, st: Store, st': Store)
    requires i < |ring| && Holds(ring, st)
    requires more == [] || (|more| == 1 && more[0] !in st.buckets)
    requires st'.buckets.Keys == st.buckets.Keys + Members(more)
    ensures Holds(InsertAfter(ring, i, more), st')
    ensures forall e :: e in InsertAfter(ring, i, more) <==> e in ring || e in more
  {
    hide View, Flow;
    var ring' := InsertAfter(ring, i, more);
    forall j | 0 <= j < |ring'| ensures ring'[j] in st'.buckets {
      assert ring'[j] in ring || ring'[j] in more;
    }
    if |more| == 1 {
      assert ring' == ring[..i + 1] + [more[0]] + ring[i + 1..];
    } else {
      assert ring' == ring;
    }
  }

  /** One bucket was rewritten into itself and `more`, which together read the same. */
  lemma RewriteFlow(ring: seq<Ptr>, i: nat, more: seq<Ptr>, st: Store, st': Store)
    requires i < |ring| && Holds(ring, st)
    requires more == [] || (|more| == 1 && more[0] !in st.buckets)
    requires st'.buckets.Keys == st.buckets.Keys + Members(more)
    requires Same(st, st', st.buckets.Keys - {ring[i]})
    requires View(st, ring[i]) == View(st', ring[i]) + Flow(more, st')
    ensures var ring' := InsertAfter(ring, i, more);
      Holds(ring', st') && Framed(st, st', ring, ring') && Flow(ring', st') == Flow(ring, st)
  {
    hide View;
    var ring' := InsertAfter(ring, i, more);
    InsertHolds(ring, i, more, st, st');
    FlowChange(ring, i, [ring[i]] + more, st, st');
    FlowConcat([ring[i]], more, st');
    assert Flow([ring[i]], st') == View(st', ring[i]);
    var a, b, m := Flow(ring[..i], st), Flow(ring[i + 1..], st), View(st, ring[i]);
    assert Flow([ring[i]] + more, st') == m;
  }

  lemma ReadFlow(ring: seq<Ptr>, i: nat, rest: seq<Ptr>, st: Store, st': Store)
    requires i < |ring| && Holds(ring, st) && Reading(st, st', ring[i], rest)
    ensures var ring' := InsertAfter(ring, i, rest);
      Holds(ring', st') && Framed(st, st', ring, ring') && Flow(ring', st') == Flow(ring, st)
  {
    hide View;
    if |rest| == 1 {
      assert Flow(rest, st') == View(st', rest[0]);
    }
    RewriteFlow(ring, i, rest, st, st');
  }

  lemma HoldsAt(ring: seq<Ptr>, i: nat, st: Store)
    requires Holds(ring, st) && i < |ring|
    ensures ring[i] in st.buckets
  {
  }

  lemma FlowOne(e: Ptr, st: Store)
    ensures Flow([e], st) == View(st, e)
  {
    hide View;
  }

  lemma SplitFlow(ring: seq<Ptr>, i: nat, point: nat, st: Store)
    requires Inv(st) && i < |ring| && Holds(ring, st)
    requires !st.buckets[ring[i]].kind.Metadata? && point <= st.buckets[ring[i]].length
    ensures var ring', st' := InsertAfter(ring, i, [st.next]), Split(st, ring[i], point);
      Holds(ring', st') && Framed(st, st', ring, ring') && Flow(ring', st') == Flow(ring, st)
  {
    hide View, Split, Inv, Holds, Framed, Flow, InsertAfter;
    HoldsAt(ring, i, st);
    SplitViews(st, ring[i], point);
    Unused(st);
    var st' := Split(st, ring[i], point);
    FlowOne(st.next, st');
    var w := View(st, ring[i]);
    assert w == w[..point] + w[point..];
    RewriteFlow(ring, i, [st.next], st, st');
  }

  lemma DestroyFlow(ring: seq<Ptr>, st: Store)
    requires Inv(st) && ring != [] && Holds(ring, st)
    ensures var st' := Destroy(st, ring[0]);
      Holds(ring[1..], st') && Framed(st, st', ring, ring[1..]) && Flow(ring[1..], st') == Flow(ring[1..], st)
  {
    hide View, Destroy, Inv, Flow;
    DestroyKeeps(st, ring[0]);
    var st' := Destroy(st, ring[0]);
    assert forall e :: e in ring[1..] ==> e in st.buckets.Keys - {ring[0]};
    FlowSame(ring[1..], st, st');
  }
}
