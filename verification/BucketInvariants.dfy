/**
  What every bucket operation keeps: the store invariant, and what every other
  bucket reads as. Each operation is taken apart into steps that add, move or
  drop one reference.
*/
module BucketInvariants {
  import opened Streams
  import opened Buckets

  /** Buckets of `keep` are live in both stores and read the same. */
  predicate Same(st: Store, st': Store, keep: set<Ptr>) {
    forall e :: e in keep ==> e in st.buckets && e in st'.buckets && View(st', e) == View(st, e)
  }

  lemma SameAt(st: Store, st': Store, keep: set<Ptr>, e: Ptr)
    requires Same(st, st', keep) && e in keep
    ensures e in st.buckets && e in st'.buckets && View(st', e) == View(st, e)
  {
  }

  lemma SameTrans(st: Store, st1: Store, st2: Store, keep: set<Ptr>)
    requires Same(st, st1, keep) && Same(st1, st2, keep)
    ensures Same(st, st2, keep)
  {
  }

  // ----- Counting owners, one bucket at a time

  lemma OwnersAdd(buckets: map<Ptr, Bucket>, n: Ptr, b: Bucket, r: Ptr)
    requires n !in buckets
    ensures |Owners(buckets[n := b], r)| == |Owners(buckets, r)| + if b.data == Ref(r) then 1 else 0
  {
    if b.data == Ref(r) {
      assert Owners(buckets[n := b], r) == Owners(buckets, r) + {n};
    } else {
      assert Owners(buckets[n := b], r) == Owners(buckets, r);
    }
  }

  lemma OwnersRemove(buckets: map<Ptr, Bucket>, e: Ptr, r: Ptr)
    requires e in buckets
    ensures |Owners(buckets - {e}, r)| == |Owners(buckets, r)| - if buckets[e].data == Ref(r) then 1 else 0
  {
    if buckets[e].data == Ref(r) {
      assert Owners(buckets, r) == Owners(buckets - {e}, r) + {e};
    } else {
      assert Owners(buckets, r) == Owners(buckets - {e}, r);
    }
  }

  lemma OwnersUpdate(buckets: map<Ptr, Bucket>, e: Ptr, b: Bucket, r: Ptr)
    requires e in buckets
    ensures |Owners(buckets[e := b], r)| == |Owners(buckets, r)|
      + (if b.data == Ref(r) then 1 else 0) - (if buckets[e].data == Ref(r) then 1 else 0)
  {
    OwnersRemove(buckets, e, r);
    OwnersAdd(buckets - {e}, e, b, r);
    assert (buckets - {e})[e := b] == buckets[e := b];
  }

  lemma NoOwners(buckets: map<Ptr, Bucket>, r: Ptr)
    requires |Owners(buckets, r)| == 0
    ensures forall x :: x in buckets ==> buckets[x].data != Ref(r)
  {
    forall x | x in buckets ensures buckets[x].data != Ref(r) {
      assert x !in Owners(buckets, r);
    }
  }

  /** What the invariant says of one bucket. */
  lemma Fitting(st: Store, e: Ptr)
    requires Inv(st) && e in st.buckets
    ensures Fits(st.buckets[e], st.resources) && e < st.next
    ensures st.next !in st.buckets && st.next + 1 !in st.buckets && st.next !in st.resources
  {
  }

  lemma RetainFrame(st: Store, d: Data)
    ensures Retain(st, d).buckets == st.buckets && Retain(st, d).resources == st.resources
    ensures Retain(st, d).next == st.next
  {
  }

  // ----- Single steps

  lemma RetainKeeps(st: Store, d: Data)
    requires Inv(st) && (d.Ref? ==> d.ptr in st.resources)
    ensures InvWith(Retain(st, d), d)
  {
  }

  /** A new bucket takes over the loose reference. */
  lemma PlantKeeps(st: Store, b: Bucket)
    requires InvWith(st, if b.data.Ref? then b.data else Null) && Fits(b, st.resources)
    ensures Inv(Plant(st, b))
  {
    forall r | r in st.refcount ensures st.refcount[r] == |Owners(Plant(st, b).buckets, r)| >= 1 {
      OwnersAdd(st.buckets, st.next, b, r);
    }
  }

  lemma PlantViews(st: Store, b: Bucket)
    requires st.next !in st.buckets
    ensures var st' := Plant(st, b);
      && st'.buckets.Keys == st.buckets.Keys + {st.next}
      && View(st', st.next) == Window(b, st.resources)
      && Same(st, st', st.buckets.Keys)
  {
  }

  /** A bucket's fields change, but not what it points at. */
  lemma RecastKeeps(st: Store, e: Ptr, b: Bucket)
    requires Inv(st) && e in st.buckets && b.data == st.buckets[e].data && Fits(b, st.resources)
    ensures Inv(Recast(st, e, b))
  {
    forall r | r in st.refcount ensures st.refcount[r] == |Owners(Recast(st, e, b).buckets, r)| >= 1 {
      OwnersUpdate(st.buckets, e, b, r);
    }
  }

  /** The loose reference is given up: no live bucket loses its memory. */
  lemma ReleaseKeeps(st: Store, d: Data)
    requires InvWith(st, d)
    ensures Inv(Release(st, d))
    ensures Same(st, Release(st, d), st.buckets.Keys)
  {
    hide InvWith, Window, Release;
    Recorded(st, d);
    if !d.Ref? {
      ReleaseNothing(st, d);
    } else if st.refcount[d.ptr] != 1 {
      ReleaseOne(st, d.ptr);
    } else {
      LastReference(st, d.ptr);
      ReleaseLast(st, d.ptr);
      ReleaseFrame(st, d.ptr);
      forall x | x in st.buckets ensures View(Release(st, d), x) == View(st, x) {
        WindowKept(st.buckets[x], st.resources, st.resources - {d.ptr});
      }
    }
  }

  /** A window reads the same in two stores that agree on its memory. */
  lemma WindowKept(b: Bucket, resources: map<Ptr, Resource>, resources': map<Ptr, Resource>)
    requires MemoryOf(b.data, resources') == MemoryOf(b.data, resources)
    ensures Window(b, resources') == Window(b, resources)
  {
  }

  lemma Recorded(st: Store, d: Data)
    requires InvWith(st, d)
    ensures d.Ref? ==> d.ptr in st.resources && d.ptr in st.refcount && d.ptr in st.freed
  {
  }

  lemma ReleaseNothing(st: Store, d: Data)
    requires InvWith(st, d) && !d.Ref?
    ensures Release(st, d) == st && Inv(st)
  {
    hide WindowsOk, FreedOk;
  }

  lemma ReleaseOne(st: Store, r: Ptr)
    requires InvWith(st, Ref(r)) && r in st.refcount && st.refcount[r] != 1
    ensures Release(st, Ref(r)).buckets == st.buckets && Release(st, Ref(r)).resources == st.resources
    ensures Inv(Release(st, Ref(r)))
  {
    hide WindowsOk, FreedOk;
    Recorded(st, Ref(r));
  }

  lemma LastReference(st: Store, r: Ptr)
    requires InvWith(st, Ref(r)) && r in st.refcount && st.refcount[r] == 1
    ensures forall x :: x in st.buckets ==> st.buckets[x].data != Ref(r)
  {
    hide WindowsOk, FreedOk;
    NoOwners(st.buckets, r);
  }

  lemma ReleaseFrame(st: Store, r: Ptr)
    requires r in st.refcount && st.refcount[r] == 1 && r in st.resources && r in st.freed
    ensures Release(st, Ref(r)).buckets == st.buckets && Release(st, Ref(r)).resources == st.resources - {r}
  {
  }

  /** The last reference goes, and the structure with it. */
  lemma ReleaseLast(st: Store, r: Ptr)
    requires InvWith(st, Ref(r)) && r in st.refcount && st.refcount[r] == 1
    requires forall x :: x in st.buckets ==> st.buckets[x].data != Ref(r)
    ensures Inv(Release(st, Ref(r)))
  {
    hide WindowsOk, FreedOk, CountsOk;
    Recorded(st, Ref(r));
    ReleaseLastParts(st, r);
    CountsDrop(st.buckets, st.refcount, r);
  }

  lemma CountsDrop(buckets: map<Ptr, Bucket>, refcount: map<Ptr, int>, r: Ptr)
    requires CountsOk(buckets, refcount, Ref(r))
    ensures CountsOk(buckets, refcount - {r}, Null)
  {
    hide Owners;
  }

  lemma ReleaseLastParts(st: Store, r: Ptr)
    requires InvWith(st, Ref(r)) && st.refcount[r] == 1
    requires forall x :: x in st.buckets ==> st.buckets[x].data != Ref(r)
    ensures WindowsOk(st.buckets, st.resources - {r}, st.next)
    ensures FreedOk(st.resources - {r}, Release(st, Ref(r)).freed, Release(st, Ref(r)).freedBase, st.next)
  {
    forall x | x in st.buckets ensures Fits(st.buckets[x], st.resources - {r}) {
      assert MemoryOf(st.buckets[x].data, st.resources - {r}) == MemoryOf(st.buckets[x].data, st.resources);
    }
  }

  /** A live bucket drops out; its reference becomes loose. */
  lemma UnlinkKeeps(st: Store, e: Ptr)
    requires Inv(st) && e in st.buckets
    ensures InvWith(st.(buckets := st.buckets - {e}), st.buckets[e].data)
  {
    forall r | r in st.refcount
      ensures |Owners(st.buckets - {e}, r)| == st.refcount[r] - if st.buckets[e].data == Ref(r) then 1 else 0
    {
      OwnersRemove(st.buckets, e, r);
    }
  }

  lemma NewResource(st: Store, res: Resource)
    requires FreedOk(st.resources, st.freed, st.freedBase, st.next)
    ensures var st' := SharedMake(st, 0, Heap, res, 0, 0);
      FreedOk(st'.resources, st'.freed, st'.freedBase, st'.next)
  {
  }

  /** Adding a structure at a new address changes nothing for buckets that fit before. */
  lemma FitsMore(b: Bucket, resources: map<Ptr, Resource>, h: Ptr, res: Resource)
    requires Fits(b, resources) && h !in resources
    ensures Fits(b, resources[h := res])
    ensures Window(b, resources[h := res]) == Window(b, resources)
  {
    assert MemoryOf(b.data, resources[h := res]) == MemoryOf(b.data, resources);
  }

  lemma FitsAlone(b: Bucket, resources: map<Ptr, Resource>, h: Ptr, res: Resource)
    requires b.data == Ref(h) && Fits(b, map[h := res])
    ensures Fits(b, resources[h := res])
  {
  }

  lemma Unused(st: Store)
    requires Inv(st)
    ensures st.next !in st.buckets && st.next !in st.resources && st.next !in st.freed
  {
  }

  /** `e` moves to a new structure; what it pointed at before becomes loose. */
  lemma SharedMakeKeeps(st: Store, e: Ptr, kind: Kind, res: Resource, start: nat, length: nat)
    requires Inv(st) && e in st.buckets
    requires Fits(Bucket(kind, Ref(st.next), start, length), map[st.next := res])
    ensures InvWith(SharedMake(st, e, kind, res, start, length), st.buckets[e].data)
  {
    hide Fits, CountsOk, FreedOk;
    Unused(st);
    var b := Bucket(kind, Ref(st.next), start, length);
    forall x | x in st.buckets ensures Fits(st.buckets[x], st.resources[st.next := res]) {
      FitsMore(st.buckets[x], st.resources, st.next, res);
    }
    FitsAlone(b, st.resources, st.next, res);
    SharedMakeCounts(st, e, b);
    Pointing(st, e);
    NewResource(st, res);
  }

  lemma SharedMakeViews(st: Store, e: Ptr, kind: Kind, res: Resource, start: nat, length: nat)
    requires Inv(st)
    requires start + length <= |res.Memory()| && !kind.Metadata?
    ensures var st' := SharedMake(st, e, kind, res, start, length);
      && Same(st, st', st.buckets.Keys - {e})
      && View(st', e) == Wrap(res.Memory()[start..start + length])
  {
    hide Inv, Fits, Window;
    Unused(st);
    forall x | x in st.buckets ensures Window(st.buckets[x], st.resources[st.next := res]) == View(st, x) {
      Fitting(st, x);
      FitsMore(st.buckets[x], st.resources, st.next, res);
    }
    WindowOn(Bucket(kind, Ref(st.next), start, length), st.resources[st.next := res]);
  }

  lemma WindowOn(b: Bucket, resources: map<Ptr, Resource>)
    requires !b.kind.Metadata? && b.start + b.length <= |MemoryOf(b.data, resources)|
    ensures Window(b, resources) == Wrap(MemoryOf(b.data, resources)[b.start..b.start + b.length])
  {
  }

  lemma SharedMakeCounts(st: Store, e: Ptr, b: Bucket)
    requires Inv(st) && e in st.buckets && b.data == Ref(st.next)
    ensures CountsOk(st.buckets[e := b], st.refcount[st.next := 1], st.buckets[e].data)
  {
    forall r | r in st.refcount[st.next := 1]
      ensures st.refcount[st.next := 1][r]
           == |Owners(st.buckets[e := b], r)| + (if st.buckets[e].data == Ref(r) then 1 else 0)
    {
      OwnersUpdate(st.buckets, e, b, r);
      if r == st.next {
        assert Owners(st.buckets, r) == {};
      }
    }
  }

  // ----- Whole operations

  lemma Pointing(st: Store, e: Ptr)
    requires Inv(st) && e in st.buckets
    ensures st.buckets[e].data.Ref? ==> st.buckets[e].data.ptr in st.resources
  {
  }

  lemma LooseRef(st: Store, d: Data)
    requires InvWith(st, d)
    ensures InvWith(st, if d.Ref? then d else Null)
  {
  }

  /** apr_bucket_shared_copy / apr_bucket_simple_copy. */
  lemma CopyKeeps(st: Store, a: Ptr)
    requires Inv(st) && a in st.buckets
    ensures var st' := Copy(st, a);
      && Inv(st')
      && st'.buckets.Keys == st.buckets.Keys + {st.next}
      && View(st', st.next) == View(st, a)
      && Same(st, st', st.buckets.Keys)
  {
    hide Inv, InvWith, Fits, Retain, Window;
    Fitting(st, a);
    var b := st.buckets[a];
    Pointing(st, a);
    RetainKeeps(st, b.data);
    RetainFrame(st, b.data);
    LooseRef(Retain(st, b.data), b.data);
    PlantKeeps(Retain(st, b.data), b);
    PlantViews(Retain(st, b.data), b);
  }

  lemma SplitWindow(b: Bucket, resources: map<Ptr, Resource>, point: nat)
    requires Fits(b, resources) && point <= b.length && !b.kind.Metadata?
    ensures Fits(Head(b, point), resources) && Fits(Tail(b, point), resources)
    ensures |Window(b, resources)| == b.length
    ensures Window(Head(b, point), resources) == Window(b, resources)[..point]
    ensures Window(Tail(b, point), resources) == Window(b, resources)[point..]
  {
    hide Window;
    WindowOn(b, resources);
    WindowOn(Head(b, point), resources);
    WindowOn(Tail(b, point), resources);
    WrapParts(MemoryOf(b.data, resources), b.start, b.length, point);
  }

  lemma WrapParts(mem: seq<byte>, start: nat, length: nat, point: nat)
    requires start + length <= |mem| && point <= length
    ensures var w := Wrap(mem[start..start + length]);
      && |w| == length && Wrap(mem[start..start + point]) == w[..point]
      && Wrap(mem[start + point..start + point + (length - point)]) == w[point..]
  {
  }

  /** apr_bucket_shared_split / apr_bucket_simple_split. */
  lemma SplitKeeps(st: Store, a: Ptr, point: nat)
    requires Inv(st) && a in st.buckets && point <= st.buckets[a].length && !st.buckets[a].kind.Metadata?
    ensures Inv(Split(st, a, point))
  {
    var b := st.buckets[a];
    SplitWindow(b, st.resources, point);
    RecastKeeps(st, a, Head(b, point));
    var st1 := Recast(st, a, Head(b, point));
    RetainKeeps(st1, b.data);
    PlantKeeps(Retain(st1, b.data), Tail(b, point));
  }

  lemma SplitViews(st: Store, a: Ptr, point: nat)
    requires Inv(st) && a in st.buckets && point <= st.buckets[a].length && !st.buckets[a].kind.Metadata?
    ensures var st' := Split(st, a, point);
      && st'.buckets.Keys == st.buckets.Keys + {st.next}
      && |View(st, a)| == st.buckets[a].length
      && View(st', a) == View(st, a)[..point]
      && View(st', st.next) == View(st, a)[point..]
      && Same(st, st', st.buckets.Keys - {a})
  {
    SplitWindow(st.buckets[a], st.resources, point);
  }

  /** apr_bucket_destroy. */
  lemma DestroyKeeps(st: Store, e: Ptr)
    requires Inv(st) && e in st.buckets
    ensures var st' := Destroy(st, e);
      && Inv(st')
      && st'.buckets.Keys == st.buckets.Keys - {e}
      && Same(st, st', st.buckets.Keys - {e})
  {
    UnlinkKeeps(st, e);
    ReleaseKeeps(st.(buckets := st.buckets - {e}), st.buckets[e].data);
  }

  /** Creating a bucket on a new structure. */
  lemma SharedCreateKeeps(st: Store, kind: Kind, res: Resource, start: nat, length: nat)
    requires Inv(st)
    requires Fits(Bucket(kind, Ref(st.next + 1), start, length), map[st.next + 1 := res])
    ensures Inv(SharedCreate(st, kind, res, start, length))
  {
    PlantKeeps(st, BLANK);
    SharedMakeKeeps(Plant(st, BLANK), st.next, kind, res, start, length);
    LooseText(SharedCreate(st, kind, res, start, length), []);
  }

  /** Only a reference to a shared structure can be loose. */
  lemma LooseText(st: Store, text: seq<byte>)
    requires InvWith(st, Text(text))
    ensures Inv(st)
  {
  }

  lemma SharedCreateViews(st: Store, kind: Kind, res: Resource, start: nat, length: nat)
    requires Inv(st) && start + length <= |res.Memory()| && !kind.Metadata?
    ensures var st' := SharedCreate(st, kind, res, start, length);
      && st'.buckets.Keys == st.buckets.Keys + {st.next}
      && View(st', st.next) == Wrap(res.Memory()[start..start + length])
      && Same(st, st', st.buckets.Keys)
  {
    hide Inv, Fits, View, SharedMake;
    Unused(st);
    BlankFits(st.resources);
    PlainLoose(st);
    PlantKeeps(st, BLANK);
    PlantViews(st, BLANK);
    SharedMakeViews(Plant(st, BLANK), st.next, kind, res, start, length);
    SharedMakeFrame(Plant(st, BLANK), st.next, kind, res, start, length);
  }

  lemma BlankFits(resources: map<Ptr, Resource>)
    ensures Fits(BLANK, resources)
  {
  }

  lemma PlainLoose(st: Store)
    requires Inv(st)
    ensures InvWith(st, Null)
  {
  }

  /** A count of 1 means no other bucket points there. */
  lemma SoleOwner(st: Store, e: Ptr, r: Ptr)
    requires Inv(st) && e in st.buckets && st.buckets[e].data == Ref(r) && st.refcount[r] == 1
    ensures forall x :: x in st.buckets && x != e ==> st.buckets[x].data != Ref(r)
  {
    OwnersRemove(st.buckets, e, r);
    NoOwners(st.buckets - {e}, r);
    forall x | x in st.buckets && x != e ensures st.buckets[x].data != Ref(r) {
      assert x in st.buckets - {e};
    }
  }

  /** A structure changes that the bucket does not point at. */
  lemma FitsElsewhere(b: Bucket, resources: map<Ptr, Resource>, r: Ptr, res: Resource)
    requires Fits(b, resources) && b.data != Ref(r) && r in resources
    ensures Fits(b, resources[r := res]) && Window(b, resources[r := res]) == Window(b, resources)
  {
    assert MemoryOf(b.data, resources[r := res]) == MemoryOf(b.data, resources);
  }

  lemma AppendWindow(st: Store, e: Ptr, str: seq<byte>)
    requires Inv(st) && Appendable(st, e) && |str| <= Room(st, e)
    ensures var st' := Append(st, e, str);
      && |st'.resources[st.buckets[e].data.ptr].Memory()| == |st.resources[st.buckets[e].data.ptr].Memory()|
      && Fits(st'.buckets[e], st'.resources)
      && View(st', e) == View(st, e) + Wrap(str)
  {
    hide Inv;
    var b := st.buckets[e];
    Overwritten(st.resources[b.data.ptr].Memory(), b.start, b.length, str);
  }

  /** Writing after the window leaves the buffer's length, and lengthens the window by what is written. */
  lemma Overwritten(mem: seq<byte>, start: nat, length: nat, str: seq<byte>)
    requires start + length + |str| <= |mem|
    ensures var at := start + length;
      var mem' := mem[..at] + str + mem[at + |str|..];
      |mem'| == |mem| && Wrap(mem'[start..start + (length + |str|)]) == Wrap(mem[start..at]) + Wrap(str)
  {
    var at := start + length;
    var mem' := mem[..at] + str + mem[at + |str|..];
    assert mem'[start..at + |str|] == mem[start..at] + str;
  }

  /** The in-place append stays inside the buffer and is seen by no other bucket. */
  lemma AppendViews(st: Store, e: Ptr, str: seq<byte>)
    requires Inv(st) && Appendable(st, e) && |str| <= Room(st, e)
    ensures var st' := Append(st, e, str);
      && WindowsOk(st'.buckets, st'.resources, st'.next)
      && View(st', e) == View(st, e) + Wrap(str)
      && Same(st, st', st.buckets.Keys - {e})
  {
    hide Fits, CountsOk, FreedOk, Window;
    var st', r := Append(st, e, str), st.buckets[e].data.ptr;
    SoleOwner(st, e, r);
    AppendWindow(st, e, str);
    forall x | x in st.buckets && x != e
      ensures Fits(st.buckets[x], st'.resources) && Window(st.buckets[x], st'.resources) == View(st, x)
    {
      Fitting(st, x);
      FitsElsewhere(st.buckets[x], st.resources, r, st'.resources[r]);
    }
  }

  lemma AppendKeeps(st: Store, e: Ptr, str: seq<byte>)
    requires Inv(st) && Appendable(st, e) && |str| <= Room(st, e)
    ensures Inv(Append(st, e, str))
  {
    AppendViews(st, e, str);
    forall q | q in st.refcount ensures |Owners(Append(st, e, str).buckets, q)| == |Owners(st.buckets, q)| {
      OwnersUpdate(st.buckets, e, Append(st, e, str).buckets[e], q);
    }
  }

  lemma FitsMoved(b: Bucket, resources: map<Ptr, Resource>, r: Ptr)
    requires Fits(b, resources) && r in resources && resources[r].PoolRes? && resources[r].inPool
    ensures var resources' := resources[r := PoolRes(resources[r].poolBase, [], false)];
      Fits(b, resources') && Window(b, resources') == Window(b, resources)
  {
    assert MemoryOf(b.data, resources[r := PoolRes(resources[r].poolBase, [], false)]) == MemoryOf(b.data, resources);
  }

  /** After pool_bucket_cleanup every bucket on the pool's memory still reads the same. */
  lemma PoolCleanupKeeps(st: Store, r: Ptr)
    requires Inv(st) && r in st.resources && st.resources[r].PoolRes? && st.resources[r].inPool
    ensures Inv(PoolCleanup(st, r))
    ensures Same(st, PoolCleanup(st, r), st.buckets.Keys)
  {
    hide Fits, CountsOk, Window;
    var st' := PoolCleanup(st, r);
    forall x | x in st.buckets
      ensures Fits(st.buckets[x], st'.resources) && Window(st.buckets[x], st'.resources) == View(st, x)
    {
      Fitting(st, x);
      FitsMoved(st.buckets[x], st.resources, r);
    }
  }

  lemma PoolMorphKeeps(st: Store, e: Ptr)
    requires Inv(st) && e in st.buckets && st.buckets[e].kind.Pool?
    requires !st.resources[st.buckets[e].data.ptr].inPool
    ensures Inv(PoolMorph(st, e))
    ensures Same(st, PoolMorph(st, e), st.buckets.Keys)
  {
    hide Inv, Fits, Window;
    Fitting(st, e);
    MorphFits(st.buckets[e], st.resources);
    RecastKeeps(st, e, st.buckets[e].(kind := Heap));
  }

  lemma MorphFits(b: Bucket, resources: map<Ptr, Resource>)
    requires Fits(b, resources) && b.kind.Pool? && !resources[b.data.ptr].inPool
    ensures Fits(b.(kind := Heap), resources) && Window(b.(kind := Heap), resources) == Window(b, resources)
  {
  }

  /** The first half of file_bucket_read: the bucket holds the bytes that came back. */
  lemma FileChunkKeeps(st: Store, e: Ptr, n: nat)
    requires Inv(st) && e in st.buckets && st.buckets[e].kind.File? && n <= st.buckets[e].length
    ensures InvWith(FileChunk(st, e, n), st.buckets[e].data)
  {
    hide Inv, InvWith, WindowsOk, CountsOk, FreedOk, SharedMake;
    Fitting(st, e);
    var b := st.buckets[e];
    var chunk := HeapRes(MemoryOf(b.data, st.resources)[b.start..b.start + n]);
    HeapFits(st.next, chunk.base);
    SharedMakeKeeps(st, e, Heap, chunk, 0, n);
  }

  lemma FileChunkViews(st: Store, e: Ptr, n: nat)
    requires Inv(st) && e in st.buckets && st.buckets[e].kind.File? && n <= st.buckets[e].length
    ensures var st1 := FileChunk(st, e, n);
      && st1.buckets.Keys == st.buckets.Keys && st1.next == st.next + 1
      && View(st1, e) == View(st, e)[..n]
      && Same(st, st1, st.buckets.Keys - {e})
      && Fits(st.buckets[e], st1.resources) && Window(st.buckets[e], st1.resources) == View(st, e)
  {
    hide Inv, Fits, Window, SharedMake;
    Fitting(st, e);
    InWindow(st.buckets[e], st.resources);
    var b := st.buckets[e];
    var chunk := HeapRes(MemoryOf(b.data, st.resources)[b.start..b.start + n]);
    SharedMakeViews(st, e, Heap, chunk, 0, n);
    SharedMakeFrame(st, e, Heap, chunk, 0, n);
    FitsMore(b, st.resources, st.next, chunk);
    WindowOn(b, st.resources);
    WrapChunk(MemoryOf(b.data, st.resources), b.start, b.length, n);
  }

  lemma WrapChunk(mem: seq<byte>, start: nat, length: nat, n: nat)
    requires start + length <= |mem| && n <= length
    ensures Wrap(mem[start..start + n][0..0 + n]) == Wrap(mem[start..start + length])[..n]
  {
    var w := mem[start..start + length];
    assert mem[start..start + n][0..0 + n] == w[..n];
    assert Wrap(w)[..n] == Wrap(w[..n]);
  }

  lemma InWindow(b: Bucket, resources: map<Ptr, Resource>)
    requires Fits(b, resources)
    ensures b.start + b.length <= |MemoryOf(b.data, resources)|
  {
  }

  lemma SharedMakeFrame(st: Store, e: Ptr, kind: Kind, res: Resource, start: nat, length: nat)
    ensures var st' := SharedMake(st, e, kind, res, start, length);
      && st'.buckets == st.buckets[e := Bucket(kind, Ref(st.next), start, length)]
      && st'.resources == st.resources[st.next := res] && st'.next == st.next + 1
  {
  }

  /** file_bucket_read keeps the invariant, however many bytes come back. */
  lemma FileReadKeeps(st: Store, e: Ptr, n: nat)
    requires Inv(st) && e in st.buckets && st.buckets[e].kind.File? && n <= st.buckets[e].length
    ensures Inv(FileRead(st, e, n))
  {
    var b, st1 := st.buckets[e], FileChunk(st, e, n);
    FileChunkKeeps(st, e, n);
    if n < b.length {
      FileChunkViews(st, e, n);
      SplitWindow(b, st1.resources, n);
      PlantKeeps(st1, Tail(b, n));
    } else {
      ReleaseKeeps(st1, b.data);
    }
  }

  /** file_bucket_read with a short read: what was read and what is left make up what was there. */
  lemma FileReadPart(st: Store, e: Ptr, n: nat)
    requires Inv(st) && e in st.buckets && st.buckets[e].kind.File? && n < st.buckets[e].length
    ensures FileRead(st, e, n).buckets.Keys == st.buckets.Keys + {st.next + 1}
    ensures View(FileRead(st, e, n), e) == View(st, e)[..n]
    ensures View(FileRead(st, e, n), st.next + 1) == View(st, e)[n..]
    ensures Same(st, FileRead(st, e, n), st.buckets.Keys - {e})
  {
    FileChunkViews(st, e, n);
    PlantRest(st, FileChunk(st, e, n), e, n);
  }

  lemma PlantRest(st: Store, st1: Store, e: Ptr, n: nat)
    requires e in st.buckets && n < st.buckets[e].length && !st.buckets[e].kind.Metadata?
    requires st1.buckets.Keys == st.buckets.Keys && st1.next !in st1.buckets
    requires Same(st, st1, st.buckets.Keys - {e})
    requires Fits(st.buckets[e], st1.resources) && Window(st.buckets[e], st1.resources) == View(st, e)
    ensures var st' := Plant(st1, Tail(st.buckets[e], n));
      && st'.buckets.Keys == st.buckets.Keys + {st1.next}
      && |View(st, e)| == st.buckets[e].length
      && View(st', e) == View(st1, e)
      && View(st', st1.next) == View(st, e)[n..]
      && Same(st, st', st.buckets.Keys - {e})
  {
    SplitWindow(st.buckets[e], st1.resources, n);
    PlantViews(st1, Tail(st.buckets[e], n));
  }

  lemma FileChunkAll(st: Store, e: Ptr)
    requires Inv(st) && e in st.buckets && st.buckets[e].kind.File?
    ensures Same(st, FileChunk(st, e, st.buckets[e].length), st.buckets.Keys)
  {
    FileChunkViews(st, e, st.buckets[e].length);
    SplitWindow(st.buckets[e], st.resources, st.buckets[e].length);
  }

  lemma FileChunkKeys(st: Store, e: Ptr, n: nat)
    requires e in st.buckets && n <= st.buckets[e].length && Fits(st.buckets[e], st.resources)
    ensures FileChunk(st, e, n).buckets.Keys == st.buckets.Keys
  {
  }

  lemma ReleaseBuckets(st: Store, d: Data)
    ensures Release(st, d).buckets == st.buckets
  {
  }

  /** file_bucket_read of all that is left. */
  lemma FileReadAll(st: Store, e: Ptr)
    requires Inv(st) && e in st.buckets && st.buckets[e].kind.File?
    ensures Same(st, FileRead(st, e, st.buckets[e].length), st.buckets.Keys)
    ensures FileRead(st, e, st.buckets[e].length).buckets.Keys == st.buckets.Keys
  {
    hide Inv, InvWith, Fits, FileChunk, Release, View;
    Fitting(st, e);
    var n := st.buckets[e].length;
    FileChunkKeeps(st, e, n);
    FileChunkAll(st, e);
    FileChunkKeys(st, e, n);
    ReleaseBuckets(FileChunk(st, e, n), st.buckets[e].data);
    ReleaseKeeps(FileChunk(st, e, n), st.buckets[e].data);
    SameTrans(st, FileChunk(st, e, n), FileRead(st, e, n), st.buckets.Keys);
  }

  lemma HeapFits(h: Ptr, base: seq<byte>)
    ensures Fits(Bucket(Heap, Ref(h), 0, |base|), map[h := HeapRes(base)])
  {
  }

  lemma TextBacked(st: Store, e: Ptr)
    requires Inv(st) && e in st.buckets && st.buckets[e].kind.Transient?
    ensures st.buckets[e].data.Text? && st.buckets[e].start + st.buckets[e].length <= |st.buckets[e].data.text|
    ensures var b := st.buckets[e]; View(st, e) == Wrap(b.data.text[b.start..b.start + b.length])
  {
    hide InvWith, Inv;
    Fitting(st, e);
  }

  /** transient_bucket_setaside: the bucket reads the same from the heap. */
  lemma TransientSetasideKeeps(st: Store, e: Ptr)
    requires Inv(st) && e in st.buckets && st.buckets[e].kind.Transient?
    ensures Inv(TransientSetaside(st, e))
    ensures Same(st, TransientSetaside(st, e), st.buckets.Keys)
  {
    hide Inv, InvWith, Fits, View;
    TextBacked(st, e);
    var b := st.buckets[e];
    var res := HeapRes(b.data.text[b.start..b.start + b.length]);
    HeapFits(st.next, res.base);
    SharedMakeKeeps(st, e, Heap, res, 0, b.length);
    LooseText(TransientSetaside(st, e), b.data.text);
    SharedMakeViews(st, e, Heap, res, 0, b.length);
  }

  /** A file bucket reads from its structure, and would fit a copy of that. */
  lemma FileBacked(st: Store, e: Ptr)
    requires Inv(st) && e in st.buckets && st.buckets[e].kind.File?
    ensures st.buckets[e].data.Ref? && st.buckets[e].data.ptr in st.resources
    ensures
      var b, res := st.buckets[e], st.resources[st.buckets[e].data.ptr];
      && b.start + b.length <= |res.Memory()| && View(st, e) == Wrap(res.Memory()[b.start..b.start + b.length])
      && Fits(Bucket(b.kind, Ref(st.next), b.start, b.length), map[st.next := res])
  {
    hide InvWith, Inv;
    Fitting(st, e);
  }

  lemma DuplicateKeeps(st: Store, e: Ptr)
    requires Inv(st) && e in st.buckets && st.buckets[e].kind.File?
    ensures InvWith(Duplicate(st, e), st.buckets[e].data)
    ensures Same(st, Duplicate(st, e), st.buckets.Keys)
    ensures Duplicate(st, e).buckets.Keys == st.buckets.Keys
  {
    hide Inv, InvWith, Fits, View;
    Fitting(st, e);
    FileBacked(st, e);
    var b := st.buckets[e];
    var res := st.resources[b.data.ptr];
    SharedMakeKeeps(st, e, b.kind, res, b.start, b.length);
    SharedMakeViews(st, e, b.kind, res, b.start, b.length);
  }

  /** The sharing step of file_bucket_setaside: one reference moves to a copy of the structure. */
  lemma FileSetasideKeeps(st: Store, e: Ptr)
    requires Inv(st) && e in st.buckets && st.buckets[e].kind.File?
    ensures Inv(FileSetaside(st, e))
    ensures Same(st, FileSetaside(st, e), st.buckets.Keys)
  {
    if st.refcount[st.buckets[e].data.ptr] > 1 {
      DuplicateKeeps(st, e);
      ReleaseKeeps(Duplicate(st, e), st.buckets[e].data);
      SameTrans(st, Duplicate(st, e), FileSetaside(st, e), st.buckets.Keys);
    }
  }

  // ----- Reading

  /** The bytes a bucket stands for. */
  function BytesIn(st: Store, e: Ptr): (r: seq<byte>)
    requires Inv(st) && e in st.buckets
    ensures |r| == st.buckets[e].length
  {
    var b := st.buckets[e];
    MemoryOf(b.data, st.resources)[b.start..b.start + b.length]
  }

  /** `e` was read and stands for exactly `str` now; metadata reads as nothing. */
  predicate Delivered(st: Store, st': Store, e: Ptr, str: seq<byte>) {
    && e in st.buckets && e in st'.buckets && !st'.buckets[e].kind.File?
    && |str| == st'.buckets[e].length
    && (st'.buckets[e].kind.Metadata? <==> st.buckets[e].kind.Metadata?)
    && (!st'.buckets[e].kind.Metadata? ==> View(st', e) == Wrap(str))
  }

  /** Nothing but the type and backing of `e` changed. */
  predicate Whole(st: Store, st': Store, e: Ptr) {
    && st'.buckets.Keys == st.buckets.Keys
    && Same(st, st', st.buckets.Keys)
    && e in st.buckets && e in st'.buckets && st'.buckets[e].length == st.buckets[e].length
    && (forall x :: x in st.buckets && x != e ==> st'.buckets[x] == st.buckets[x])
  }

  /** `rest` is a new, shorter file bucket for what reading `e` left over. */
  predicate Cut(st: Store, st': Store, e: Ptr, rest: Ptr) {
    && st'.buckets.Keys == st.buckets.Keys + {rest} && rest !in st.buckets
    && Same(st, st', st.buckets.Keys - {e})
    && e in st.buckets && e in st'.buckets && st'.buckets[e].length > 0
    && View(st', e) + View(st', rest) == View(st, e)
    && st.buckets[e].kind.File? && st'.buckets[rest].kind.File?
    && st'.buckets[e].length + st'.buckets[rest].length == st.buckets[e].length
    && (forall x :: x in st.buckets && x != e ==> st'.buckets[x] == st.buckets[x])
  }

  /** What reading `e` may do to the store; `rest` is the bucket linked in after it, if any. */
  predicate Reading(st: Store, st': Store, e: Ptr, rest: seq<Ptr>) {
    if |rest| == 1 then Cut(st, st', e, rest[0]) else rest == [] && Whole(st, st', e)
  }

  /** A pool bucket whose pool has gone. */
  predicate Orphaned(b: Bucket, resources: map<Ptr, Resource>) {
    && b.kind.Pool? && b.data.Ref? && b.data.ptr in resources
    && resources[b.data.ptr].PoolRes? && !resources[b.data.ptr].inPool
  }

  /** A file bucket and one whose pool has gone are heap buckets once read; of the latter nothing else changes. */
  predicate Settled(st: Store, st': Store, e: Ptr) {
    && e in st.buckets && e in st'.buckets
    && (st.buckets[e].kind.File? ==> st'.buckets[e].kind.Heap?)
    && (Orphaned(st.buckets[e], st.resources) ==>
          st' == st.(buckets := st.buckets[e := st.buckets[e].(kind := Heap)]))
    && (!st.buckets[e].kind.File? && !Orphaned(st.buckets[e], st.resources) ==> st' == st)
  }

  lemma PlainDelivered(st: Store, e: Ptr)
    requires Inv(st) && e in st.buckets && !st.buckets[e].kind.File?
    ensures Delivered(st, st, e, BytesIn(st, e))
    ensures Reading(st, st, e, [])
  {
  }

  lemma PoolDelivered(st: Store, e: Ptr)
    requires Inv(st) && e in st.buckets && st.buckets[e].kind.Pool? && !st.resources[st.buckets[e].data.ptr].inPool
    ensures Delivered(st, PoolMorph(st, e), e, BytesIn(st, e))
    ensures Reading(st, PoolMorph(st, e), e, [])
  {
    hide Inv, View;
    PoolMorphKeeps(st, e);
    ViewIsBytes(st, e);
    MorphBucket(st, e);
  }

  lemma ViewIsBytes(st: Store, e: Ptr)
    requires Inv(st) && e in st.buckets && !st.buckets[e].kind.Metadata?
    ensures View(st, e) == Wrap(BytesIn(st, e))
  {
    Fitting(st, e);
  }

  lemma MorphBucket(st: Store, e: Ptr)
    requires e in st.buckets
    ensures PoolMorph(st, e).buckets == st.buckets[e := st.buckets[e].(kind := Heap)]
  {
  }

  lemma FileReadBucket(st: Store, e: Ptr, n: nat)
    requires e in st.buckets && n <= st.buckets[e].length && Fits(st.buckets[e], st.resources) && e < st.next
    ensures e in FileRead(st, e, n).buckets && FileRead(st, e, n).buckets[e] == Bucket(Heap, Ref(st.next), 0, n)
    ensures forall x :: x in st.buckets && x != e && x < st.next ==>
      x in FileRead(st, e, n).buckets && FileRead(st, e, n).buckets[x] == st.buckets[x]
    ensures n < st.buckets[e].length ==>
      st.next + 1 in FileRead(st, e, n).buckets && FileRead(st, e, n).buckets[st.next + 1] == Tail(st.buckets[e], n)
  {
  }

  lemma FileReadView(st: Store, e: Ptr, n: nat)
    requires Inv(st) && e in st.buckets && st.buckets[e].kind.File? && n <= st.buckets[e].length
    ensures View(FileRead(st, e, n), e) == Wrap(BytesIn(st, e)[..n])
  {
    hide Inv, Window, View, FileRead, BytesIn, Fits, Same;
    Fitting(st, e);
    ViewIsBytes(st, e);
    if n < st.buckets[e].length {
      FileReadPart(st, e, n);
    } else {
      FileReadAll(st, e);
      SameAt(st, FileRead(st, e, n), st.buckets.Keys, e);
    }
  }

  lemma FileDelivered(st: Store, e: Ptr, n: nat)
    requires Inv(st) && e in st.buckets && st.buckets[e].kind.File? && n <= st.buckets[e].length
    ensures Delivered(st, FileRead(st, e, n), e, BytesIn(st, e)[..n])
  {
    FileReadBucket(st, e, n);
    FileReadView(st, e, n);
  }

  lemma FileCut(st: Store, e: Ptr, n: nat)
    requires Inv(st) && e in st.buckets && st.buckets[e].kind.File? && 0 < n < st.buckets[e].length
    ensures Cut(st, FileRead(st, e, n), e, st.next + 1)
  {
    hide Inv, View, FileRead, Fits;
    Fitting(st, e);
    FileReadBucket(st, e, n);
    FileReadPart(st, e, n);
    ViewLength(st, e);
    Earlier(st);
  }

  lemma Earlier(st: Store)
    requires Inv(st)
    ensures forall x :: x in st.buckets ==> x < st.next
  {
  }

  lemma ViewLength(st: Store, e: Ptr)
    requires Inv(st) && e in st.buckets && !st.buckets[e].kind.Metadata?
    ensures |View(st, e)| == st.buckets[e].length
  {
    Fitting(st, e);
  }

  lemma FileWhole(st: Store, e: Ptr)
    requires Inv(st) && e in st.buckets && st.buckets[e].kind.File?
    ensures Whole(st, FileRead(st, e, st.buckets[e].length), e)
  {
    FileReadAll(st, e);
    FileReadBucket(st, e, st.buckets[e].length);
  }
}
