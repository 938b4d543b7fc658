/**
  The bucket operations themselves, on the store of one bucket allocator
  (`bucket->list`). Each is proved against its function in `Buckets`.
*/
module Arenas {
  import opened Streams
  import opened Buckets
  import opened BucketInvariants

  datatype Status = Success | Incomplete | EInval | ENotImpl | ReadError

  /** APR_BUCKET_BUFF_SIZE. */
  const BUFF_SIZE := 8000

  class Arena {
    var st: Store

    constructor ()
      ensures st == EMPTY && Inv(st)
    {
      st := EMPTY;
    }

    /** The type's `split`: shared, simple, or not implemented for metadata. */
    method Split(a: Ptr, point: nat) returns (status: Status, b: Ptr)
      requires Inv(st) && a in st.buckets
      modifies this
      ensures Inv(st)
      ensures status == if old(st.buckets[a].kind).Metadata? then ENotImpl
                        else if point > old(st.buckets[a].length) then EInval else Success
      ensures status != Success ==> st == old(st)
      ensures status == Success ==> b == old(st.next) && st == Buckets.Split(old(st), a, point)
    {
      b := a;
      var bk := st.buckets[a];
      if bk.kind.Metadata? {
        return ENotImpl, a;
      }
      if point > bk.length {
        return EInval, a;
      }
      SplitKeeps(st, a, point);
      b := st.next;
      st := Recast(st, a, bk.(length := point));
      st := Retain(st, bk.data);
      st := Plant(st, bk.(start := bk.start + point, length := bk.length - point));
      status := Success;
    }

    /** The type's `copy`. */
    method Copy(a: Ptr) returns (b: Ptr)
      requires Inv(st) && a in st.buckets
      modifies this
      ensures Inv(st) && b == old(st.next) && st == Buckets.Copy(old(st), a)
    {
      CopyKeeps(st, a);
      b := st.next;
      st := Retain(st, st.buckets[a].data);
      st := Plant(st, st.buckets[a]);
    }

    /** apr_bucket_destroy on a bucket that is on no ring. */
    method Destroy(e: Ptr)
      requires Inv(st) && e in st.buckets
      modifies this
      ensures Inv(st) && st == Buckets.Destroy(old(st), e)
    {
      DestroyKeeps(st, e);
      var d := st.buckets[e].data;
      st := st.(buckets := st.buckets - {e});
      st := Release(st, d);
    }

    /** apr_bucket_heap_create without a free function: the bytes are copied. */
    method HeapCreate(buf: seq<byte>) returns (b: Ptr)
      requires Inv(st)
      modifies this
      ensures Inv(st) && b == old(st.next) && st == SharedCreate(old(st), Heap, HeapRes(buf), 0, |buf|)
    {
      SharedCreateKeeps(st, Heap, HeapRes(buf), 0, |buf|);
      b := st.next;
      st := Plant(st, BLANK);
      st := SharedMake(st, b, Heap, HeapRes(buf), 0, |buf|);
    }

    /** apr_bucket_file_create over bytes [start, start + length) of an open file. */
    method FileCreate(content: seq<byte>, start: nat, length: nat) returns (e: Ptr)
      requires Inv(st) && start + length <= |content|
      modifies this
      ensures Inv(st) && e == old(st.next)
      ensures st == SharedCreate(old(st), File, FileRes(content, BUFF_SIZE), start, length)
    {
      SharedCreateKeeps(st, File, FileRes(content, BUFF_SIZE), start, length);
      e := st.next;
      st := Plant(st, BLANK);
      st := SharedMake(st, e, File, FileRes(content, BUFF_SIZE), start, length);
    }

    /** apr_bucket_pool_create. */
    method PoolCreate(buf: seq<byte>) returns (e: Ptr)
      requires Inv(st)
      modifies this
      ensures Inv(st) && e == old(st.next)
      ensures st == SharedCreate(old(st), Pool, PoolRes([], buf, true), 0, |buf|)
    {
      SharedCreateKeeps(st, Pool, PoolRes([], buf, true), 0, |buf|);
      e := st.next;
      st := Plant(st, BLANK);
      st := SharedMake(st, e, Pool, PoolRes([], buf, true), 0, |buf|);
    }

    /** A window of a live bucket is changed by its owner. */
    method Resize(e: Ptr, start: nat, length: nat)
      requires Inv(st) && e in st.buckets && !st.buckets[e].kind.Metadata?
      requires start + length <= |MemoryOf(st.buckets[e].data, st.resources)|
      modifies this
      ensures Inv(st) && st == Recast(old(st), e, old(st).buckets[e].(start := start, length := length))
    {
      RecastKeeps(st, e, st.buckets[e].(start := start, length := length));
      st := Recast(st, e, st.buckets[e].(start := start, length := length));
    }

    /**
      A heap bucket over BUFF_SIZE bytes of new, unset memory, made to look
      empty: what the write functions do when they need a buffer.
    */
    method BufferCreate() returns (e: Ptr)
      requires Inv(st)
      modifies this
      ensures Inv(st) && e == old(st.next) && e !in old(st.buckets)
      ensures st.buckets.Keys == old(st.buckets.Keys) + {e} && Same(old(st), st, old(st.buckets.Keys))
      ensures View(st, e) == [] && Appendable(st, e) && Room(st, e) == BUFF_SIZE
    {
      hide View, Same;
      assert |seq<byte>(BUFF_SIZE, i => 0)| == BUFF_SIZE;
      var unset: seq<byte> :| |unset| == BUFF_SIZE;
      BufferKeeps(st, unset);
      e := st.next;
      st := Plant(st, BLANK);
      st := SharedMake(st, e, Heap, HeapRes(unset), 0, BUFF_SIZE);
      st := Recast(st, e, st.buckets[e].(length := 0));
    }

    /** memcpy to the end of a heap bucket's data, and `e->length += nbyte`. */
    method Append(e: Ptr, str: seq<byte>)
      requires Inv(st) && Appendable(st, e) && |str| <= Room(st, e)
      modifies this
      ensures Inv(st) && st == Buckets.Append(old(st), e, str)
    {
      hide Inv;
      AppendKeeps(st, e, str);
      var b := st.buckets[e];
      var mem, at := st.resources[b.data.ptr].Memory(), b.start + b.length;
      var res := WithHeapMemory(st.resources[b.data.ptr], mem[..at] + str + mem[at + |str|..]);
      st := st.(resources := st.resources[b.data.ptr := res]);
      st := Recast(st, e, b.(length := b.length + |str|));
    }

    /**
      The type's `read`. A file bucket yields any number of bytes the file
      system chooses to return, at least one if any are left, or fails; `rest`
      is the bucket that file_bucket_read links in after `e`, if any.
    */
    method Read(e: Ptr) returns (status: Status, str: seq<byte>, rest: seq<Ptr>)
      requires Inv(st) && e in st.buckets
      modifies this
      ensures Inv(st) && (status == Success || status == ReadError)
      ensures status == ReadError ==> old(st.buckets[e].kind).File? && st == old(st) && rest == []
      ensures status == Success ==> Delivered(old(st), st, e, str) && Reading(old(st), st, e, rest)
      ensures status == Success ==> Settled(old(st), st, e)
    {
      var b := st.buckets[e];
      rest, status := [], Success;
      str := BytesIn(st, e);
      if b.kind.Pool? && !st.resources[b.data.ptr].inPool {
        PoolMorphKeeps(st, e);
        PoolDelivered(st, e);
        st := PoolMorph(st, e);
      } else if b.kind.File? {
        status, str, rest := FileRead(e);
      } else {
        PlainDelivered(st, e);
      }
    }

    method FileRead(e: Ptr) returns (status: Status, str: seq<byte>, rest: seq<Ptr>)
      requires Inv(st) && e in st.buckets && st.buckets[e].kind.File?
      modifies this
      ensures Inv(st) && (status == Success || status == ReadError)
      ensures status == ReadError ==> st == old(st) && rest == []
      ensures status == Success ==> Delivered(old(st), st, e, str) && Reading(old(st), st, e, rest)
      ensures status == Success ==> Settled(old(st), st, e)
    {
      hide Inv, Fits, BytesIn, Delivered, Cut, Whole, Buckets.FileRead;
      var failed: bool := *;
      if failed {
        return ReadError, [], [];
      }
      var b := st.buckets[e];
      FileSized(st, e);
      var n: nat :| n <= b.length && n <= st.resources[b.data.ptr].readSize && (n == 0 ==> b.length == 0);
      Fitting(st, e);
      FileReadKeeps(st, e, n);
      FileDelivered(st, e, n);
      FileReadBucket(st, e, n);
      if n < b.length {
        FileCut(st, e, n);
      } else {
        FileWhole(st, e);
      }
      rest := if n < b.length then [st.next + 1] else [];
      str := BytesIn(st, e)[..n];
      st := Buckets.FileRead(st, e, n);
      status := Success;
    }
  }

  lemma FileSized(st: Store, e: Ptr)
    requires Inv(st) && e in st.buckets && st.buckets[e].kind.File?
    ensures st.buckets[e].data.Ref? && st.buckets[e].data.ptr in st.resources
    ensures var res := st.resources[st.buckets[e].data.ptr]; res.FileRes? && res.readSize > 0
  {
    hide Inv;
    Fitting(st, e);
  }

  function Buffer(st: Store, unset: seq<byte>): Store {
    var st1 := SharedCreate(st, Heap, HeapRes(unset), 0, |unset|);
    Recast(st1, st.next, Bucket(Heap, Ref(st.next + 1), 0, 0))
  }

  lemma BufferKeeps(st: Store, unset: seq<byte>)
    requires Inv(st)
    ensures var st' := Buffer(st, unset);
      && Inv(st') && st.next !in st.buckets
      && st'.buckets.Keys == st.buckets.Keys + {st.next} && Same(st, st', st.buckets.Keys)
      && View(st', st.next) == [] && Appendable(st', st.next) && Room(st', st.next) == |unset|
  {
    hide Inv, Same, View, Appendable, Fits;
    HeapFits(st.next + 1, unset);
    SharedCreateKeeps(st, Heap, HeapRes(unset), 0, |unset|);
    SharedCreateViews(st, Heap, HeapRes(unset), 0, |unset|);
    Unused(st);
    Shrunk(st, SharedCreate(st, Heap, HeapRes(unset), 0, |unset|), unset);
  }

  lemma EmptyFits(b: Bucket, resources: map<Ptr, Resource>)
    requires b.kind.Heap? && b.start == b.length == 0 && b.data.Ref?
    requires b.data.ptr in resources && resources[b.data.ptr].OwnsHeapMemory()
    ensures Fits(b, resources) && Window(b, resources) == []
  {
  }

  lemma Shrunk(st: Store, st1: Store, unset: seq<byte>)
    requires st.next !in st.buckets
    requires Inv(st1) && st1.buckets.Keys == st.buckets.Keys + {st.next} && Same(st, st1, st.buckets.Keys)
    requires st1.buckets[st.next] == Bucket(Heap, Ref(st.next + 1), 0, |unset|)
    requires st.next + 1 in st1.resources && st1.resources[st.next + 1] == HeapRes(unset)
    requires st.next + 1 in st1.refcount && st1.refcount[st.next + 1] == 1
    ensures var st' := Recast(st1, st.next, Bucket(Heap, Ref(st.next + 1), 0, 0));
      && Inv(st')
      && st'.buckets.Keys == st.buckets.Keys + {st.next} && Same(st, st', st.buckets.Keys)
      && View(st', st.next) == [] && Appendable(st', st.next) && Room(st', st.next) == |unset|
  {
    hide Inv, Window, Fits;
    var b := Bucket(Heap, Ref(st.next + 1), 0, 0);
    EmptyFits(b, st1.resources);
    RecastKeeps(st1, st.next, b);
  }
}
