/**
  Buckets and the reference-counted resources behind them
  (buckets/apr_buckets_refcount.c, _simple.c, _heap.c, _pool.c, _file.c).

  A bucket is a window (start, length) on memory it may share with other
  buckets. Pointers are names of entries in a store, so sharing, in-place
  writes and freed memory are all visible. This module gives the store, its
  invariant and what each bucket operation does to the store. The operations
  themselves are methods of `Arena`.
*/
module Buckets {
  import opened Streams

  type Ptr = nat

  /** A bucket's type pointer. */
  datatype Kind = Heap | Pool | File | Immortal | Transient | Metadata(tag: nat)

  /** `bucket->data`: a shared structure, plain memory, or NULL. */
  datatype Data = Ref(ptr: Ptr) | Text(text: seq<byte>) | Null

  datatype Bucket = Bucket(kind: Kind, data: Data, start: nat, length: nat)

  /** What `Ref` points at, after its reference count. A pool resource contains a heap one. */
  datatype Resource =
    | HeapRes(base: seq<byte>)
    | PoolRes(heapBase: seq<byte>, poolBase: seq<byte>, inPool: bool)
    | FileRes(content: seq<byte>, readSize: nat)
  {
    function Memory(): seq<byte> {
      match this
      case HeapRes(base) => base
      case PoolRes(heapBase, poolBase, inPool) => if inPool then poolBase else heapBase
      case FileRes(content, _) => content
    }

    /** Memory of the bucket allocator hangs off the structure. */
    predicate OwnsHeapMemory() {
      HeapRes? || (PoolRes? && !inPool)
    }
  }

  /**
    Live buckets and shared structures, each structure with its
    apr_bucket_refcount header. `freed` has an entry for every structure ever
    made and counts how often it was given back; `freedBase` does the same for
    the heap memory of those that had some.
  */
  datatype Store = Store(
    buckets: map<Ptr, Bucket>,
    resources: map<Ptr, Resource>,
    refcount: map<Ptr, int>,
    freed: map<Ptr, nat>,
    freedBase: map<Ptr, nat>,
    next: Ptr)

  const EMPTY := Store(map[], map[], map[], map[], map[], 0)

  // ----- Meaning and invariant

  function MemoryOf(d: Data, resources: map<Ptr, Resource>): seq<byte> {
    match d
    case Ref(r) => if r in resources then resources[r].Memory() else []
    case Text(t) => t
    case Null => []
  }

  /** What reading the bucket to its end yields. */
  function Window(b: Bucket, resources: map<Ptr, Resource>): seq<Item> {
    var mem := MemoryOf(b.data, resources);
    if b.kind.Metadata? then [Meta(b.kind.tag)]
    else if b.start + b.length <= |mem| then Wrap(mem[b.start..b.start + b.length])
    else []
  }

  function View(st: Store, e: Ptr): seq<Item> {
    if e in st.buckets then Window(st.buckets[e], st.resources) else []
  }

  /** The type of a bucket agrees with what it points at, and its window lies inside. */
  predicate Fits(b: Bucket, resources: map<Ptr, Resource>) {
    && b.start + b.length <= |MemoryOf(b.data, resources)|
    && (b.data.Ref? ==> b.data.ptr in resources)
    && (b.kind.Heap? ==> b.data.Ref? && resources[b.data.ptr].OwnsHeapMemory())
    && (b.kind.Pool? ==> b.data.Ref? && resources[b.data.ptr].PoolRes?)
    && (b.kind.File? ==> b.data.Ref? && resources[b.data.ptr].FileRes? && resources[b.data.ptr].readSize > 0)
    && (b.kind.Immortal? || b.kind.Transient? ==> b.data.Text?)
    && (b.kind.Metadata? ==> b.data.Null?)
  }

  /** The live buckets pointing at `r`. */
  function Owners(buckets: map<Ptr, Bucket>, r: Ptr): set<Ptr> {
    set e | e in buckets && buckets[e].data == Ref(r)
  }

  /** Every live bucket's window lies inside live memory of the right type. */
  predicate WindowsOk(buckets: map<Ptr, Bucket>, resources: map<Ptr, Resource>, next: Ptr) {
    forall e :: e in buckets ==> e < next && Fits(buckets[e], resources)
  }

  /**
    Every live structure's count is the number of live buckets pointing at it,
    plus one for a reference `loose` that no bucket holds at the moment.
  */
  predicate CountsOk(buckets: map<Ptr, Bucket>, refcount: map<Ptr, int>, loose: Data) {
    forall r :: r in refcount ==>
      refcount[r] == |Owners(buckets, r)| + (if loose == Ref(r) then 1 else 0) >= 1
  }

  /** Every structure ever made is live or was given back exactly once, with its heap memory. */
  predicate FreedOk(resources: map<Ptr, Resource>, freed: map<Ptr, nat>, freedBase: map<Ptr, nat>, next: Ptr) {
    && resources.Keys <= freed.Keys
    && (forall r :: r in freed ==> r < next && freed[r] == if r in resources then 0 else 1)
    && (forall r :: r in freedBase ==> r in freed && freedBase[r] == freed[r])
    && (forall r :: r in resources ==> (r in freedBase <==> resources[r].OwnsHeapMemory()))
  }

  predicate InvWith(st: Store, loose: Data) {
    && WindowsOk(st.buckets, st.resources, st.next)
    && st.refcount.Keys == st.resources.Keys
    && (loose.Ref? ==> loose.ptr in st.resources)
    && CountsOk(st.buckets, st.refcount, loose)
    && FreedOk(st.resources, st.freed, st.freedBase, st.next)
  }

  /** What every run of bucket operations keeps. */
  predicate Inv(st: Store) {
    InvWith(st, Null)
  }

  // ----- Operations on the store

  /** A bucket just allocated, before its type is set. */
  const BLANK := Bucket(Immortal, Text([]), 0, 0)

  /** A new bucket that shares nothing: immortal, transient or metadata. */
  function Plant(st: Store, b: Bucket): Store {
    st.(buckets := st.buckets[st.next := b], next := st.next + 1)
  }

  /** Fields of a live bucket assigned. */
  function Recast(st: Store, e: Ptr, b: Bucket): Store {
    st.(buckets := st.buckets[e := b])
  }

  /** A new structure with one reference, held by `e` over the whole of `[start, start + length)`. */
  function SharedMake(st: Store, e: Ptr, kind: Kind, res: Resource, start: nat, length: nat): Store {
    var h := st.next;
    st.(buckets := st.buckets[e := Bucket(kind, Ref(h), start, length)],
        resources := st.resources[h := res],
        refcount := st.refcount[h := 1],
        freed := st.freed[h := 0],
        freedBase := if res.OwnsHeapMemory() then st.freedBase[h := 0] else st.freedBase,
        next := h + 1)
  }

  /** A new bucket holding the first reference to a new structure. */
  function SharedCreate(st: Store, kind: Kind, res: Resource, start: nat, length: nat): Store {
    SharedMake(Plant(st, BLANK), st.next, kind, res, start, length)
  }

  /** `r->refcount++`. */
  function Retain(st: Store, d: Data): Store {
    if d.Ref? && d.ptr in st.refcount then st.(refcount := st.refcount[d.ptr := st.refcount[d.ptr] + 1]) else st
  }

  /** apr_bucket_simple_copy and, for shared data, apr_bucket_shared_copy. */
  function Copy(st: Store, a: Ptr): Store
    requires a in st.buckets
  {
    Plant(Retain(st, st.buckets[a].data), st.buckets[a])
  }

  /** apr_bucket_simple_split and apr_bucket_shared_split at a point inside `a`. */
  function Split(st: Store, a: Ptr, point: nat): Store
    requires a in st.buckets && point <= st.buckets[a].length
  {
    var b := st.buckets[a];
    Plant(Retain(Recast(st, a, Head(b, point)), b.data), Tail(b, point))
  }

  function Head(b: Bucket, point: nat): Bucket {
    b.(length := point)
  }

  function Tail(b: Bucket, point: nat): Bucket
    requires point <= b.length
  {
    b.(start := b.start + point, length := b.length - point)
  }

  /**
    The type's `destroy` on `bucket->data`: the last reference gives the
    structure back. A release of one that is gone already would give it back
    once more, and `freed` would show it.
  */
  function Release(st: Store, d: Data): Store {
    if !d.Ref? then st
    else if d.ptr in st.refcount && st.refcount[d.ptr] != 1 then
      st.(refcount := st.refcount[d.ptr := st.refcount[d.ptr] - 1])
    else
      st.(resources := st.resources - {d.ptr},
          refcount := st.refcount - {d.ptr},
          freed := OnceMore(st.freed, d.ptr),
          freedBase := if d.ptr in st.resources && !st.resources[d.ptr].OwnsHeapMemory()
                       then st.freedBase else OnceMore(st.freedBase, d.ptr))
  }

  function OnceMore(counts: map<Ptr, nat>, r: Ptr): map<Ptr, nat> {
    counts[r := if r in counts then counts[r] + 1 else 1]
  }

  /** apr_bucket_destroy. */
  function Destroy(st: Store, e: Ptr): Store
    requires e in st.buckets
  {
    Release(st.(buckets := st.buckets - {e}), st.buckets[e].data)
  }

  /** The in-place append of apr_brigade_write: bytes after the window are overwritten. */
  function Append(st: Store, e: Ptr, str: seq<byte>): Store
    requires Appendable(st, e) && |str| <= Room(st, e)
  {
    var b := st.buckets[e];
    var mem, at := st.resources[b.data.ptr].Memory(), b.start + b.length;
    var mem' := mem[..at] + str + mem[at + |str|..];
    st.(buckets := st.buckets[e := b.(length := b.length + |str|)],
        resources := st.resources[b.data.ptr := WithHeapMemory(st.resources[b.data.ptr], mem')])
  }

  function WithHeapMemory(res: Resource, mem: seq<byte>): Resource
    requires res.OwnsHeapMemory()
  {
    if res.HeapRes? then HeapRes(mem) else PoolRes(mem, [], false)
  }

  /** A heap bucket that is the only one on its buffer. */
  predicate Appendable(st: Store, e: Ptr) {
    && e in st.buckets && st.buckets[e].kind.Heap?
    && st.buckets[e].data.Ref?
    && st.buckets[e].data.ptr in st.refcount && st.refcount[st.buckets[e].data.ptr] == 1
    && st.buckets[e].data.ptr in st.resources && st.resources[st.buckets[e].data.ptr].OwnsHeapMemory()
    && st.buckets[e].start + st.buckets[e].length <= |st.resources[st.buckets[e].data.ptr].Memory()|
  }

  /** alloc_len less what lies before and inside the window. */
  function Room(st: Store, e: Ptr): nat
    requires Appendable(st, e)
  {
    |st.resources[st.buckets[e].data.ptr].Memory()| - (st.buckets[e].start + st.buckets[e].length)
  }

  /** pool_bucket_cleanup: the pool's memory is copied to the heap. */
  function PoolCleanup(st: Store, r: Ptr): Store
    requires r in st.resources && st.resources[r].PoolRes? && st.resources[r].inPool
  {
    st.(resources := st.resources[r := PoolRes(st.resources[r].poolBase, [], false)], freedBase := st.freedBase[r := 0])
  }

  /** The morph in pool_bucket_read: a bucket whose pool has gone becomes a heap bucket. */
  function PoolMorph(st: Store, e: Ptr): Store
    requires e in st.buckets
  {
    Recast(st, e, st.buckets[e].(kind := Heap))
  }

  /** The first `n` bytes of the file bucket `e` came back; `e` becomes a heap bucket over them. */
  function FileChunk(st: Store, e: Ptr, n: nat): Store
    requires e in st.buckets && n <= st.buckets[e].length && Fits(st.buckets[e], st.resources)
  {
    var b := st.buckets[e];
    SharedMake(st, e, Heap, HeapRes(MemoryOf(b.data, st.resources)[b.start..b.start + n]), 0, n)
  }

  /** file_bucket_read: a new bucket wraps what is left of the file, if anything. */
  function FileRead(st: Store, e: Ptr, n: nat): Store
    requires e in st.buckets && n <= st.buckets[e].length && Fits(st.buckets[e], st.resources)
  {
    var b := st.buckets[e];
    if n < b.length then Plant(FileChunk(st, e, n), Tail(b, n)) else Release(FileChunk(st, e, n), b.data)
  }

  /** transient_bucket_setaside: the bytes are copied to the heap under the same bucket. */
  function TransientSetaside(st: Store, e: Ptr): Store
    requires e in st.buckets && st.buckets[e].data.Text?
    requires st.buckets[e].start + st.buckets[e].length <= |st.buckets[e].data.text|
  {
    var b := st.buckets[e];
    SharedMake(st, e, Heap, HeapRes(b.data.text[b.start..b.start + b.length]), 0, b.length)
  }

  /** `e` gets its own copy of the structure it points at. */
  function Duplicate(st: Store, e: Ptr): Store
    requires e in st.buckets && st.buckets[e].data.Ref? && st.buckets[e].data.ptr in st.resources
  {
    var b := st.buckets[e];
    SharedMake(st, e, b.kind, st.resources[b.data.ptr], b.start, b.length)
  }

  /** The sharing step of file_bucket_setaside: a shared file structure is duplicated for `e`. */
  function FileSetaside(st: Store, e: Ptr): Store
    requires e in st.buckets && st.buckets[e].data.Ref?
    requires st.buckets[e].data.ptr in st.resources && st.buckets[e].data.ptr in st.refcount
  {
    var d := st.buckets[e].data;
    if st.refcount[d.ptr] > 1 then Release(Duplicate(st, e), d) else st
  }
}
