/**
  What the bucket operations bring about, beyond what they keep: where the
  bytes lie afterwards, who owns the memory, and which memory is shared.
*/
module BucketEffects {
  import opened Streams
  import opened Buckets
  import opened BucketInvariants
  import opened BucketRuns

  // ----- A pool goes away

  /** The structure's bytes are no longer the pool's. */
  predicate OutOfPool(st: Store, r: Ptr) {
    r in st.resources && st.resources[r].PoolRes? ==> !st.resources[r].inPool
  }

  /**
    After pool_bucket_cleanup the structure owns heap memory that was not there
    before, with the pool's bytes; every pool bucket on it will turn into a
    heap bucket at its next read, and no bucket or other structure has changed.
  */
  lemma PoolCleanupMoves(st: Store, r: Ptr)
    requires Inv(st) && r in st.resources && st.resources[r].PoolRes? && st.resources[r].inPool
    ensures var st' := PoolCleanup(st, r);
      && r in st'.resources && st'.resources[r].OwnsHeapMemory() && OutOfPool(st', r)
      && st'.resources[r].Memory() == st.resources[r].Memory()
      && r !in st.freedBase && r in st'.freedBase && st'.freedBase[r] == 0
      && st'.buckets == st.buckets && st'.refcount == st.refcount
      && st'.resources - {r} == st.resources - {r}
    ensures forall e :: e in Owners(st.buckets, r) && st.buckets[e].kind.Pool? ==>
      Enabled(PoolCleanup(st, r), ReadPool(e))
  {
    hide CountsOk, Fits;
    assert (PoolCleanup(st, r).resources - {r}) == st.resources - {r};
  }

  /** The other half, and the only change: the reading bucket's type. */
  lemma PoolReadMorphs(st: Store, r: Ptr, e: Ptr)
    requires Inv(st) && r in st.resources && st.resources[r].PoolRes? && st.resources[r].inPool
    requires e in Owners(st.buckets, r) && st.buckets[e].kind.Pool?
    ensures Possible(st, [PoolCleanupOp(r), ReadPool(e)])
    ensures var st' := Run(st, [PoolCleanupOp(r), ReadPool(e)]);
      && e in st'.buckets && st'.buckets[e] == st.buckets[e].(kind := Heap) && View(st', e) == View(st, e)
      && (forall x :: x in st.buckets && x != e ==> x in st'.buckets && st'.buckets[x] == st.buckets[x])
      && r in st'.resources && st'.resources[r].OwnsHeapMemory()
      && st'.resources[r].Memory() == st.resources[r].Memory()
  {
    hide Inv, Fits, View, PoolCleanup, Possible, Run, Owners;
    var st1 := PoolCleanup(st, r);
    PoolCleanupMoves(st, r);
    PoolCleanupKeeps(st, r);
    MorphBucket(st1, e);
    PoolPointing(st, r, e);
    PoolMorphKeeps(st1, e);
    SameAt(st, st1, st.buckets.Keys, e);
    SameAt(st1, PoolMorph(st1, e), st.buckets.Keys, e);
    TwoSteps(st, PoolCleanupOp(r), ReadPool(e));
  }

  lemma PoolPointing(st: Store, r: Ptr, e: Ptr)
    requires e in Owners(st.buckets, r)
    ensures e in st.buckets && st.buckets[e].data == Ref(r)
  {
  }

  lemma TwoSteps(st: Store, first: Op, second: Op)
    requires Enabled(st, first) && Enabled(Apply(st, first), second)
    ensures Possible(st, [first, second])
    ensures Run(st, [first, second]) == Apply(Apply(st, first), second)
  {
    hide Enabled, Apply;
    assert [first, second][1..] == [second];
    assert [second][1..] == [];
    assert Possible(Apply(Apply(st, first), second), []);
    assert Possible(Apply(st, first), [second]);
    assert Run(Apply(st, first), [second]) == Run(Apply(Apply(st, first), second), []);
  }

  /** No operation takes bytes back to a pool that has gone. */
  lemma StepOutOfPool(st: Store, op: Op, r: Ptr)
    requires Inv(st) && Enabled(st, op) && r < st.next && OutOfPool(st, r)
    ensures OutOfPool(Apply(st, op), r) && r < Apply(st, op).next
  {
    hide InvWith, Inv;
  }

  /** Once its pool has gone a structure is never read from the pool again, through any run. */
  lemma {:induction false} PoolNeverRead(st: Store, ops: seq<Op>, r: Ptr)
    requires Inv(st) && Possible(st, ops) && r < st.next && OutOfPool(st, r)
    ensures OutOfPool(Run(st, ops), r)
    decreases |ops|
  {
    hide Inv, Enabled, Apply, OutOfPool;
    if ops != [] {
      StepKeeps(st, ops[0]);
      StepOutOfPool(st, ops[0], r);
      PoolNeverRead(Apply(st, ops[0]), ops[1..], r);
    }
  }

  // ----- Setting aside

  /** `e` is the only bucket on its structure, and is counted as such. */
  predicate Alone(st: Store, e: Ptr) {
    && e in st.buckets && st.buckets[e].data.Ref?
    && Owners(st.buckets, st.buckets[e].data.ptr) == {e}
    && st.buckets[e].data.ptr in st.refcount && st.refcount[st.buckets[e].data.ptr] == 1
  }

  /** A count of one, and a bucket that holds it. */
  lemma CountedAlone(st: Store, e: Ptr)
    requires Inv(st) && e in st.buckets && st.buckets[e].data.Ref?
    requires st.buckets[e].data.ptr in st.refcount && st.refcount[st.buckets[e].data.ptr] == 1
    ensures Alone(st, e)
  {
    hide InvWith, Inv;
    SoleOwner(st, e, st.buckets[e].data.ptr);
  }

  /** After transient_bucket_setaside the bucket alone owns new heap memory with exactly its bytes. */
  lemma TransientSetAside(st: Store, e: Ptr)
    requires Inv(st) && e in st.buckets && st.buckets[e].kind.Transient?
    requires st.buckets[e].data.Text? && st.buckets[e].start + st.buckets[e].length <= |st.buckets[e].data.text|
    ensures var st' := TransientSetaside(st, e);
      && Alone(st', e) && st'.buckets[e].kind.Heap?
      && (var h := st'.buckets[e].data.ptr;
          && h !in st.freed && h in st'.resources && st'.resources[h].HeapRes? && h in st'.freedBase
          && Wrap(st'.resources[h].base) == View(st, e))
      && (forall x :: x in st.buckets && x != e ==> x in st'.buckets && st'.buckets[x] == st.buckets[x])
  {
    hide InvWith, Inv, Fits;
    TextBacked(st, e);
    TransientSetasideKeeps(st, e);
    NeverMade(st);
    CountedAlone(TransientSetaside(st, e), e);
  }

  lemma NeverMade(st: Store)
    requires Inv(st)
    ensures st.next !in st.freed && st.next !in st.resources && st.next !in st.refcount
  {
  }

  /**
    After the sharing step of file_bucket_setaside the bucket alone owns a
    structure for the same file; the buckets it shared with keep the old one,
    and a bucket that shared with none keeps its own.
  */
  lemma FileSetAside(st: Store, e: Ptr)
    requires Inv(st) && e in st.buckets && st.buckets[e].kind.File? && st.buckets[e].data.Ref?
    requires st.buckets[e].data.ptr in st.resources && st.buckets[e].data.ptr in st.refcount
    ensures var st', r := FileSetaside(st, e), st.buckets[e].data.ptr;
      && Alone(st', e) && st'.buckets[e] == st.buckets[e].(data := st'.buckets[e].data)
      && st'.buckets[e].data.ptr in st'.resources && st'.resources[st'.buckets[e].data.ptr] == st.resources[r]
      && (st'.buckets[e].data == Ref(r) <==> Owners(st.buckets, r) == {e})
      && Owners(st'.buckets, r) - {e} == Owners(st.buckets, r) - {e}
      && (Owners(st.buckets, r) != {e} ==> r in st'.refcount && st'.refcount[r] == st.refcount[r] - 1)
  {
    hide InvWith, Inv, Fits, Owners, Release;
    var r := st.buckets[e].data.ptr;
    NeverMade(st);
    FileSetasideKeeps(st, e);
    Shared(st, e);
    if st.refcount[r] > 1 {
      var st1 := Duplicate(st, e);
      Handed(st1, r, st.next);
      OthersKept(st.buckets, e, st1.buckets[e], r);
      CountedAlone(FileSetaside(st, e), e);
    } else {
      CountedAlone(st, e);
    }
  }

  /** The count tells whether a bucket has its structure to itself. */
  lemma Shared(st: Store, e: Ptr)
    requires Inv(st) && e in st.buckets && st.buckets[e].data.Ref?
    requires st.buckets[e].data.ptr in st.refcount
    ensures var r := st.buckets[e].data.ptr;
      st.refcount[r] >= 1 && (st.refcount[r] == 1 <==> Owners(st.buckets, r) == {e})
  {
    var r := st.buckets[e].data.ptr;
    if st.refcount[r] == 1 {
      SoleOwner(st, e, r);
    }
  }

  /** One of several references is given up. */
  lemma Handed(st: Store, r: Ptr, h: Ptr)
    requires r in st.refcount && st.refcount[r] > 1 && h != r && h in st.refcount
    ensures var st' := Release(st, Ref(r));
      && st'.buckets == st.buckets && st'.resources == st.resources
      && st'.refcount == st.refcount[r := st.refcount[r] - 1] && st'.refcount[h] == st.refcount[h]
  {
  }

  lemma OthersKept(buckets: map<Ptr, Bucket>, e: Ptr, b: Bucket, r: Ptr)
    ensures Owners(buckets[e := b], r) - {e} == Owners(buckets, r) - {e}
  {
  }

  // ----- Sharing

  /**
    A copy and the two halves of a split are windows on one and the same
    memory, counted once more; no bytes are copied.
  */
  lemma CopyShares(st: Store, a: Ptr)
    requires Inv(st) && a in st.buckets
    ensures var st' := Copy(st, a);
      && st.next !in st.buckets && st'.buckets == st.buckets[st.next := st.buckets[a]]
      && OneMore(st, st', st.buckets[a].data)
  {
    Fitting(st, a);
    Pointing(st, a);
  }

  lemma SplitShares(st: Store, a: Ptr, point: nat)
    requires Inv(st) && a in st.buckets && point <= st.buckets[a].length
    ensures var st', b := Split(st, a, point), st.buckets[a];
      && st.next !in st.buckets && st'.buckets.Keys == st.buckets.Keys + {st.next}
      && st'.buckets[a].kind == st'.buckets[st.next].kind == b.kind
      && st'.buckets[a].data == st'.buckets[st.next].data == b.data
      && st'.buckets[a].start == b.start
      && st'.buckets[a].start + st'.buckets[a].length == st'.buckets[st.next].start
      && st'.buckets[st.next].start + st'.buckets[st.next].length == b.start + b.length
      && (forall x :: x in st.buckets && x != a ==> st'.buckets[x] == st.buckets[x])
      && OneMore(st, st', b.data)
  {
    Fitting(st, a);
    Pointing(st, a);
  }

  /** The memory is as before, and what `d` points at has one more bucket, counted. */
  predicate OneMore(st: Store, st': Store, d: Data) {
    && st'.resources == st.resources && st'.freed == st.freed && st'.freedBase == st.freedBase
    && st'.refcount.Keys == st.refcount.Keys
    && (forall r :: r in st.refcount ==> st'.refcount[r] == st.refcount[r] + if d == Ref(r) then 1 else 0)
  }

  /** An append writes into the buffer the bucket already has. */
  lemma AppendInPlace(st: Store, e: Ptr, str: seq<byte>)
    requires Inv(st) && Appendable(st, e) && |str| <= Room(st, e)
    ensures var st', r := Append(st, e, str), st.buckets[e].data.ptr;
      && st'.buckets[e] == st.buckets[e].(length := st.buckets[e].length + |str|)
      && (forall x :: x in st.buckets && x != e ==> st'.buckets[x] == st.buckets[x])
      && st'.resources.Keys == st.resources.Keys && st'.resources - {r} == st.resources - {r}
      && |st'.resources[r].Memory()| == |st.resources[r].Memory()|
      && st'.refcount == st.refcount && st'.freed == st.freed && st'.freedBase == st.freedBase
      && Appendable(st', e) && Room(st', e) == Room(st, e) - |str|
  {
    hide InvWith, Inv;
  }

  /**
    A read file bucket alone owns new heap memory with exactly what was read;
    what is left stays on the file's own structure.
  */
  lemma FileReadOwns(st: Store, e: Ptr, n: nat)
    requires Inv(st) && e in st.buckets && st.buckets[e].kind.File? && n <= st.buckets[e].length
    requires Fits(st.buckets[e], st.resources)
    ensures var st', b := FileRead(st, e, n), st.buckets[e];
      && Alone(st', e) && st'.buckets[e].kind.Heap?
      && (var h := st'.buckets[e].data.ptr;
          && h !in st.freed && h in st'.resources && st'.resources[h].HeapRes?
          && Wrap(st'.resources[h].base) == View(st, e)[..n])
      && (n < b.length ==>
            && st.next + 1 in st'.buckets && st'.buckets[st.next + 1].kind.File?
            && st'.buckets[st.next + 1].data == b.data && st'.buckets[st.next + 1].start == b.start + n)
  {
    hide InvWith, Inv, Fits, Release, View, FileRead;
    Fitting(st, e);
    NeverMade(st);
    FileReadKeeps(st, e, n);
    FileReadBucket(st, e, n);
    FileReadMemory(st, e, n);
    CountedAlone(FileRead(st, e, n), e);
    ViewIsBytes(st, e);
  }

  lemma FileReadMemory(st: Store, e: Ptr, n: nat)
    requires Inv(st) && e in st.buckets && st.buckets[e].kind.File? && n <= st.buckets[e].length
    requires Fits(st.buckets[e], st.resources)
    ensures var st' := FileRead(st, e, n);
      && st.next in st'.resources && st'.resources[st.next] == HeapRes(BytesIn(st, e)[..n])
      && st.next in st'.refcount && st'.refcount[st.next] == 1
  {
    hide InvWith, Inv;
    NeverMade(st);
    var b := st.buckets[e];
    var mem := MemoryOf(b.data, st.resources);
    assert mem[b.start..b.start + n] == mem[b.start..b.start + b.length][..n];
  }
}
