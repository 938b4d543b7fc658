/**
  apr_brigade_write, apr_brigade_writev and apr_brigade_vputstrs with no flush
  callback (buckets/apr_brigade.c).
*/
module Writes {
  import opened Streams
  import opened Buckets
  import opened BucketInvariants
  import opened BucketEffects
  import opened Flows
  import opened Arenas
  import opened Brigades

  /** The concatenation of the vectors. */
  function Joined(vec: seq<seq<byte>>): seq<byte> {
    if vec == [] then [] else Joined(vec[..|vec| - 1]) + vec[|vec| - 1]
  }

  lemma {:induction false} JoinedConcat(u: seq<seq<byte>>, v: seq<seq<byte>>)
    ensures Joined(u + v) == Joined(u) + Joined(v)
  {
    if v == [] {
      assert u + v == u;
    } else {
      var front, last := v[..|v| - 1], v[|v| - 1];
      JoinedConcat(u, front);
      JoinedLast(v);
      JoinedLast(u + v);
      assert (u + v)[..|u + v| - 1] == u + front && (u + v)[|u + v| - 1] == last;
      hide Joined;
      assert Joined(u) + Joined(front) + last == Joined(u) + (Joined(front) + last);
    }
  }

  lemma JoinedLast(vec: seq<seq<byte>>)
    requires vec != []
    ensures Joined(vec) == Joined(vec[..|vec| - 1]) + vec[|vec| - 1]
  {
  }

  lemma JoinedNext(vec: seq<seq<byte>>, i: nat, j: nat)
    requires i <= j < |vec|
    ensures Joined(vec[i..j + 1]) == Joined(vec[i..j]) + vec[j]
  {
    assert vec[i..j + 1][..j - i] == vec[i..j];
  }

  lemma JoinedSplit(vec: seq<seq<byte>>, i: nat)
    requires i <= |vec|
    ensures Joined(vec) == Joined(vec[..i]) + Joined(vec[i..])
  {
    assert vec == vec[..i] + vec[i..];
    JoinedConcat(vec[..i], vec[i..]);
  }

  /** The ring's stream gained exactly `str` at its end, and no other bucket was touched. */
  predicate Appended(st: Store, ring: seq<Ptr>, st': Store, ring': seq<Ptr>, str: seq<byte>) {
    && Good(st', ring') && Framed(st, st', ring, ring')
    && Flow(ring', st') == Flow(ring, st) + Wrap(str)
  }

  lemma FlowLast(ring: seq<Ptr>, st: Store)
    requires ring != []
    ensures Flow(ring, st) == Flow(ring[..|ring| - 1], st) + View(st, ring[|ring| - 1])
  {
    hide View;
    assert ring == ring[..|ring| - 1] + [ring[|ring| - 1]];
    FlowConcat(ring[..|ring| - 1], [ring[|ring| - 1]], st);
  }

  /** Copying into the free room of the last bucket. */
  lemma AppendFlow(st: Store, ring: seq<Ptr>, str: seq<byte>)
    requires Good(st, ring) && ring != []
    requires Appendable(st, ring[|ring| - 1]) && |str| <= Room(st, ring[|ring| - 1])
    ensures Appended(st, ring, Append(st, ring[|ring| - 1], str), ring, str)
  {
    hide View, Inv, Append, Flow, Appendable, Room;
    var e := ring[|ring| - 1];
    AppendKeeps(st, e, str);
    AppendViews(st, e, str);
    AppendKeys(st, e, str);
    LastGrown(st, ring, Append(st, e, str), str);
  }

  lemma LastGrown(st: Store, ring: seq<Ptr>, st': Store, str: seq<byte>)
    requires Good(st, ring) && ring != [] && Inv(st') && st'.buckets.Keys == st.buckets.Keys
    requires var e := ring[|ring| - 1];
      View(st', e) == View(st, e) + Wrap(str) && Same(st, st', st.buckets.Keys - {e})
    ensures Appended(st, ring, st', ring, str)
  {
    hide View, Inv, Flow;
    FlowLast(ring, st);
    FlowLast(ring, st');
    FlowSame(ring[..|ring| - 1], st, st');
  }

  lemma AppendKeys(st: Store, e: Ptr, str: seq<byte>)
    requires Appendable(st, e) && |str| <= Room(st, e)
    ensures Append(st, e, str).buckets.Keys == st.buckets.Keys
  {
  }

  /** Linking in a new bucket at the tail. */
  lemma InsertFlow(st: Store, ring: seq<Ptr>, st': Store, e: Ptr, str: seq<byte>)
    requires Good(st, ring) && Inv(st') && e !in st.buckets
    requires st'.buckets.Keys == st.buckets.Keys + {e} && Same(st, st', st.buckets.Keys) && View(st', e) == Wrap(str)
    ensures Appended(st, ring, st', ring + [e], str)
  {
    hide View, Inv, Flow;
    FlowLast(ring + [e], st');
    assert (ring + [e])[..|ring|] == ring;
    FlowSame(ring, st, st');
  }

  lemma AppendedTrans(st: Store, ring: seq<Ptr>, st1: Store, ring1: seq<Ptr>, st2: Store, ring2: seq<Ptr>,
                      str1: seq<byte>, str2: seq<byte>)
    requires Appended(st, ring, st1, ring1, str1) && Appended(st1, ring1, st2, ring2, str2)
    ensures Appended(st, ring, st2, ring2, str1 + str2)
  {
    hide View, Good, Flow, Framed;
    FramedTrans(st, st1, st2, ring, ring1, ring2);
    assert Wrap(str1) + Wrap(str2) == Wrap(str1 + str2);
  }

  /** The last bucket, if it is a heap bucket whose buffer nothing else uses. */
  method Buffer(a: Arena, b: Brigade) returns (usable: bool)
    requires Good(a.st, b.ring)
    ensures usable ==> b.ring != [] && Appendable(a.st, b.ring[|b.ring| - 1])
    ensures b.ring != [] && Appendable(a.st, b.ring[|b.ring| - 1]) ==> usable
  {
    if b.ring == [] {
      return false;
    }
    var e := b.ring[|b.ring| - 1];
    usable := a.st.buckets[e].kind.Heap? && a.st.refcount[a.st.buckets[e].data.ptr] == 1;
  }

  /** The last bucket takes `n` bytes more. */
  predicate HasRoom(st: Store, ring: seq<Ptr>, n: nat) {
    ring != [] && Appendable(st, ring[|ring| - 1]) && n <= Room(st, ring[|ring| - 1])
  }

  /** One new bucket at the tail, with `room` bytes of its buffer free. */
  predicate OneNew(st: Store, ring: seq<Ptr>, st': Store, ring': seq<Ptr>, room: nat) {
    && |ring'| == |ring| + 1 && ring'[..|ring|] == ring && ring'[|ring|] !in st.buckets
    && Appendable(st', ring'[|ring|]) && Room(st', ring'[|ring|]) == room
  }

  /** What fits goes into the last bucket; otherwise there is a new one, with room to spare if none was in use. */
  predicate Placed(st: Store, ring: seq<Ptr>, st': Store, ring': seq<Ptr>, n: nat) {
    if HasRoom(st, ring, n) then
      ring' == ring && HasRoom(st', ring, 0) && Room(st', ring[|ring| - 1]) == Room(st, ring[|ring| - 1]) - n
    else OneNew(st, ring, st', ring', if HasRoom(st, ring, 0) || n > BUFF_SIZE then 0 else BUFF_SIZE - n)
  }

  /** apr_bucket_heap_create of a copy of `str`, inserted at the tail. */
  method InsertCopy(a: Arena, b: Brigade, str: seq<byte>)
    requires Good(a.st, b.ring)
    modifies a, b
    ensures Appended(old(a.st), old(b.ring), a.st, b.ring, str) && OneNew(old(a.st), old(b.ring), a.st, b.ring, 0)
  {
    hide View, Flow, Inv, SharedCreate, Appended, Appendable;
    ghost var st0 := a.st;
    var e := a.HeapCreate(str);
    CopyViews(st0, str);
    CopyFull(st0, str);
    InsertFlow(st0, b.ring, a.st, e, str);
    b.ring := b.ring + [e];
  }

  /** The copy fills its buffer. */
  lemma CopyFull(st: Store, str: seq<byte>)
    ensures var st' := SharedCreate(st, Heap, HeapRes(str), 0, |str|);
      Appendable(st', st.next) && Room(st', st.next) == 0
  {
  }

  lemma CopyViews(st: Store, str: seq<byte>)
    requires Inv(st)
    ensures var st' := SharedCreate(st, Heap, HeapRes(str), 0, |str|);
      && st.next !in st.buckets && st'.buckets.Keys == st.buckets.Keys + {st.next}
      && Same(st, st', st.buckets.Keys) && View(st', st.next) == Wrap(str)
  {
    SharedCreateViews(st, Heap, HeapRes(str), 0, |str|);
    hide View, SharedCreate;
    assert HeapRes(str).Memory()[0..|str|] == str;
  }

  /** A new buffer holding `str`, inserted at the tail. */
  method InsertBuffer(a: Arena, b: Brigade, str: seq<byte>)
    requires Good(a.st, b.ring) && |str| <= BUFF_SIZE
    modifies a, b
    ensures Appended(old(a.st), old(b.ring), a.st, b.ring, str)
    ensures OneNew(old(a.st), old(b.ring), a.st, b.ring, BUFF_SIZE - |str|)
  {
    hide View, Flow, Inv, Append, Appended, Appendable;
    ghost var st0 := a.st;
    var e := a.BufferCreate();
    ghost var st1 := a.st;
    AppendKeys(st1, e, str);
    AppendViews(st1, e, str);
    AppendInPlace(st1, e, str);
    a.Append(e, str);
    BufferViews(st0, st1, a.st, e, str);
    InsertFlow(st0, b.ring, a.st, e, str);
    b.ring := b.ring + [e];
  }

  lemma BufferViews(st: Store, st1: Store, st2: Store, e: Ptr, str: seq<byte>)
    requires Same(st, st1, st.buckets.Keys) && View(st1, e) == [] && e !in st.buckets
    requires st1.buckets.Keys == st.buckets.Keys + {e} && Same(st1, st2, st1.buckets.Keys - {e})
    requires View(st2, e) == View(st1, e) + Wrap(str)
    ensures Same(st, st2, st.buckets.Keys) && View(st2, e) == Wrap(str)
  {
    hide View;
  }

  method AppendLast(a: Arena, b: Brigade, str: seq<byte>)
    requires Good(a.st, b.ring) && b.ring != []
    requires Appendable(a.st, b.ring[|b.ring| - 1]) && |str| <= Room(a.st, b.ring[|b.ring| - 1])
    modifies a
    ensures Appended(old(a.st), b.ring, a.st, b.ring, str) && Placed(old(a.st), b.ring, a.st, b.ring, |str|)
  {
    hide View, Flow, Inv, Buckets.Append, Appended, Appendable;
    AppendFlow(a.st, b.ring, str);
    AppendInPlace(a.st, b.ring[|b.ring| - 1], str);
    a.Append(b.ring[|b.ring| - 1], str);
  }

  /** apr_brigade_write. */
  method Write(a: Arena, b: Brigade, str: seq<byte>)
    requires Good(a.st, b.ring)
    modifies a, b
    ensures Appended(old(a.st), old(b.ring), a.st, b.ring, str) && Placed(old(a.st), old(b.ring), a.st, b.ring, |str|)
  {
    hide Appended, Good, Appendable;
    var remaining := BUFF_SIZE;
    var buf := Buffer(a, b);
    if buf {
      remaining := Room(a.st, b.ring[|b.ring| - 1]);
    }
    if |str| > remaining {
      InsertCopy(a, b, str);
    } else if !buf {
      InsertBuffer(a, b, str);
    } else {
      AppendLast(a, b, str);
    }
  }

  lemma NothingAppended(st: Store, ring: seq<Ptr>)
    requires Good(st, ring)
    ensures Appended(st, ring, st, ring, [])
  {
    hide View, Flow, Good;
    SameFramed(st, ring);
  }

  /** One heap bucket for each vector. */
  method InsertCopies(a: Arena, b: Brigade, vec: seq<seq<byte>>)
    requires Good(a.st, b.ring)
    modifies a, b
    ensures Appended(old(a.st), old(b.ring), a.st, b.ring, Joined(vec))
    ensures |b.ring| == |old(b.ring)| + |vec| && b.ring[..|old(b.ring)|] == old(b.ring)
  {
    hide Flow, Framed, Good, Joined;
    ghost var st0, ring0 := a.st, b.ring;
    NothingAppended(a.st, b.ring);
    JoinedNone();
    for i := 0 to |vec|
      invariant Appended(st0, ring0, a.st, b.ring, Joined(vec[..i]))
      invariant |b.ring| == |ring0| + i && b.ring[..|ring0|] == ring0
    {
      ghost var st1, ring1 := a.st, b.ring;
      InsertCopy(a, b, vec[i]);
      AppendedTrans(st0, ring0, st1, ring1, a.st, b.ring, Joined(vec[..i]), vec[i]);
      JoinedNext(vec, 0, i);
    }
    assert vec[..|vec|] == vec;
  }

  lemma JoinedNone()
    ensures Joined([]) == []
  {
  }

  /** Copy vectors from `i` on, with no check of the room they need. */
  method CopyAll(vec: seq<seq<byte>>, i: nat) returns (copied: seq<byte>)
    requires i <= |vec|
    ensures copied == Joined(vec[i..])
  {
    copied := [];
    for j := i to |vec|
      invariant copied == Joined(vec[i..j])
    {
      JoinedNext(vec, i, j);
      copied := copied + vec[j];
    }
    assert vec[i..|vec|] == vec[i..];
  }

  /** Copy vectors while the next one still fits. */
  method CopyFitting(vec: seq<seq<byte>>, room: nat) returns (i: nat, copied: seq<byte>)
    ensures i <= |vec| && copied == Joined(vec[..i]) && |copied| <= room
    ensures i < |vec| ==> |copied| + |vec[i]| > room
  {
    var remaining := room;
    i, copied := 0, [];
    while i < |vec| && |vec[i]| <= remaining
      invariant i <= |vec| && copied == Joined(vec[..i]) && |copied| + remaining == room && remaining >= 0
    {
      JoinedNext(vec, 0, i);
      copied := copied + vec[i];
      remaining := remaining - |vec[i]|;
      i := i + 1;
    }
  }

  method TotalLen(vec: seq<seq<byte>>) returns (totalLen: nat)
    ensures totalLen == |Joined(vec)|
  {
    totalLen := 0;
    for i := 0 to |vec|
      invariant totalLen == |Joined(vec[..i])|
    {
      JoinedNext(vec, 0, i);
      totalLen := totalLen + |vec[i]|;
    }
    assert vec[..|vec|] == vec;
  }

  /** apr_brigade_writev. */
  method Writev(a: Arena, b: Brigade, vec: seq<seq<byte>>)
    requires Good(a.st, b.ring)
    modifies a, b
    ensures Appended(old(a.st), old(b.ring), a.st, b.ring, Joined(vec))
    ensures |old(b.ring)| <= |b.ring| && b.ring[..|old(b.ring)|] == old(b.ring)
    ensures var n := |Joined(vec)|;
      |b.ring| - |old(b.ring)| == if n > BUFF_SIZE then |vec| else if HasRoom(old(a.st), old(b.ring), n) then 0 else 1
  {
    hide Flow, Framed, Good, Appendable, Joined, Appended;
    var totalLen := TotalLen(vec);
    assert vec[0..] == vec;
    if totalLen > BUFF_SIZE {
      InsertCopies(a, b, vec);
      return;
    }
    var i, copied: seq<byte> := 0, [];
    ghost var st0, ring0 := a.st, b.ring;
    NothingAppended(a.st, b.ring);
    var buf := Buffer(a, b);
    if buf {
      var remaining := Room(a.st, b.ring[|b.ring| - 1]);
      if remaining >= totalLen {
        copied := CopyAll(vec, 0);
        AppendLast(a, b, copied);
        return;
      }
      i, copied := CopyFitting(vec, remaining);
      AppendLast(a, b, copied);
      totalLen := totalLen - |copied|;
    }
    ghost var st1, ring1 := a.st, b.ring;
    JoinedSplit(vec, i);
    JoinedNone();
    var rest := CopyAll(vec, i);
    AppendedGood(st0, ring0, a.st, b.ring, copied);
    InsertBuffer(a, b, rest);
    AppendedTrans(st0, ring0, st1, ring1, a.st, b.ring, copied, rest);
  }

  lemma AppendedGood(st: Store, ring: seq<Ptr>, st': Store, ring': seq<Ptr>, str: seq<byte>)
    requires Appended(st, ring, st', ring', str)
    ensures Good(st', ring')
  {
    hide Good;
  }

  const MAX_VECS := 8

  /** apr_brigade_vputstrs: the strings are passed on in groups of MAX_VECS. */
  method Vputstrs(a: Arena, b: Brigade, strs: seq<seq<byte>>)
    requires Good(a.st, b.ring)
    modifies a, b
    ensures Appended(old(a.st), old(b.ring), a.st, b.ring, Joined(strs))
  {
    hide Flow, Framed, Good, Joined, Appended;
    ghost var st0, ring0 := a.st, b.ring;
    NothingAppended(a.st, b.ring);
    JoinedNone();
    var vec: seq<seq<byte>> := [];
    for n := 0 to |strs|
      invariant |vec| < MAX_VECS && |vec| <= n && vec == strs[n - |vec|..n]
      invariant Appended(st0, ring0, a.st, b.ring, Joined(strs[..n - |vec|]))
    {
      vec := vec + [strs[n]];
      assert vec == strs[n + 1 - |vec|..n + 1];
      if |vec| == MAX_VECS {
        PutGroup(a, b, vec, strs, n + 1, st0, ring0);
        vec := [];
      }
    }
    if |vec| != 0 {
      PutGroup(a, b, vec, strs, |strs|, st0, ring0);
    }
    assert strs[..|strs|] == strs;
  }

  method PutGroup(a: Arena, b: Brigade, vec: seq<seq<byte>>, ghost strs: seq<seq<byte>>, ghost n: nat,
                  ghost st0: Store, ghost ring0: seq<Ptr>)
    requires |vec| <= n <= |strs| && vec == strs[n - |vec|..n]
    requires Appended(st0, ring0, a.st, b.ring, Joined(strs[..n - |vec|]))
    modifies a, b
    ensures Appended(st0, ring0, a.st, b.ring, Joined(strs[..n]))
  {
    hide Flow, Framed, Good, Joined, Appended;
    ghost var st1, ring1 := a.st, b.ring;
    AppendedGood(st0, ring0, st1, ring1, Joined(strs[..n - |vec|]));
    Writev(a, b, vec);
    AppendedTrans(st0, ring0, st1, ring1, a.st, b.ring, Joined(strs[..n - |vec|]), Joined(vec));
    assert strs[..n] == strs[..n - |vec|] + vec;
    JoinedConcat(strs[..n - |vec|], vec);
  }
}
