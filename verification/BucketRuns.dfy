/**
  Whole runs of bucket operations: what holds in every state a program can
  reach, whatever it does with its buckets, and when memory is given back.
*/
module BucketRuns {
  import opened Streams
  import opened Buckets
  import opened BucketInvariants

  datatype Op =
    | HeapCreate(buf: seq<byte>)
    | PoolCreate(buf: seq<byte>)
    | FileCreate(content: seq<byte>, start: nat, length: nat, readSize: nat)
    | ImmortalCreate(buf: seq<byte>)
    | TransientCreate(buf: seq<byte>)
    | MetaCreate(tag: nat)
    | CopyOp(e: Ptr)
    | SplitOp(e: Ptr, point: nat)
    | DestroyOp(e: Ptr)
    | AppendOp(e: Ptr, str: seq<byte>)
    | PoolCleanupOp(r: Ptr)
    | ReadPool(e: Ptr)
    | ReadFile(e: Ptr, n: nat)
    | SetasideTransient(e: Ptr)
    | SetasideFile(e: Ptr)

  /** What the callers and the surrounding code guarantee before each operation. */
  predicate Enabled(st: Store, op: Op) {
    match op
    case FileCreate(content, start, length, readSize) => start + length <= |content| && readSize > 0
    case CopyOp(e) => e in st.buckets
    case SplitOp(e, point) => e in st.buckets && !st.buckets[e].kind.Metadata? && point <= st.buckets[e].length
    case DestroyOp(e) => e in st.buckets
    case AppendOp(e, str) => Appendable(st, e) && |str| <= Room(st, e)
    case PoolCleanupOp(r) => r in st.resources && st.resources[r].PoolRes? && st.resources[r].inPool
    case ReadPool(e) =>
      && e in st.buckets && st.buckets[e].kind.Pool? && st.buckets[e].data.Ref?
      && st.buckets[e].data.ptr in st.resources && st.resources[st.buckets[e].data.ptr].PoolRes?
      && !st.resources[st.buckets[e].data.ptr].inPool
    case ReadFile(e, n) =>
      e in st.buckets && st.buckets[e].kind.File? && n <= st.buckets[e].length && Fits(st.buckets[e], st.resources)
    case SetasideTransient(e) =>
      e in st.buckets && st.buckets[e].kind.Transient? && Fits(st.buckets[e], st.resources)
    case SetasideFile(e) =>
      && e in st.buckets && st.buckets[e].kind.File? && st.buckets[e].data.Ref?
      && st.buckets[e].data.ptr in st.resources && st.buckets[e].data.ptr in st.refcount
    case _ => true
  }

  function Apply(st: Store, op: Op): Store
    requires Enabled(st, op)
  {
    match op
    case HeapCreate(buf) => SharedCreate(st, Heap, HeapRes(buf), 0, |buf|)
    case PoolCreate(buf) => SharedCreate(st, Pool, PoolRes([], buf, true), 0, |buf|)
    case FileCreate(content, start, length, readSize) =>
      SharedCreate(st, File, FileRes(content, readSize), start, length)
    case ImmortalCreate(buf) => Plant(st, Bucket(Immortal, Text(buf), 0, |buf|))
    case TransientCreate(buf) => Plant(st, Bucket(Transient, Text(buf), 0, |buf|))
    case MetaCreate(tag) => Plant(st, Bucket(Metadata(tag), Null, 0, 0))
    case CopyOp(e) => Copy(st, e)
    case SplitOp(e, point) => Split(st, e, point)
    case DestroyOp(e) => Destroy(st, e)
    case AppendOp(e, str) => Append(st, e, str)
    case PoolCleanupOp(r) => PoolCleanup(st, r)
    case ReadPool(e) => PoolMorph(st, e)
    case ReadFile(e, n) => FileRead(st, e, n)
    case SetasideTransient(e) => TransientSetaside(st, e)
    case SetasideFile(e) => FileSetaside(st, e)
  }

  /** The buckets an operation may shorten, extend or remove. */
  function Subject(op: Op): set<Ptr> {
    match op
    case SplitOp(e, _) => {e}
    case DestroyOp(e) => {e}
    case AppendOp(e, _) => {e}
    case ReadFile(e, _) => {e}
    case _ => {}
  }

  /** Every operation keeps the invariant. */
  lemma StepKeeps(st: Store, op: Op)
    requires Inv(st) && Enabled(st, op)
    ensures Inv(Apply(st, op))
  {
    hide Inv, SharedCreate, Plant, Copy, Split, Destroy, Append, PoolCleanup, PoolMorph, FileRead,
         TransientSetaside, FileSetaside;
    match op
    case HeapCreate(buf) => SharedCreateKeeps(st, Heap, HeapRes(buf), 0, |buf|);
    case PoolCreate(buf) => SharedCreateKeeps(st, Pool, PoolRes([], buf, true), 0, |buf|);
    case FileCreate(content, start, length, readSize) =>
      SharedCreateKeeps(st, File, FileRes(content, readSize), start, length);
    case ImmortalCreate(buf) => PlantPlain(st, Bucket(Immortal, Text(buf), 0, |buf|));
    case TransientCreate(buf) => PlantPlain(st, Bucket(Transient, Text(buf), 0, |buf|));
    case MetaCreate(tag) => PlantPlain(st, Bucket(Metadata(tag), Null, 0, 0));
    case CopyOp(e) => CopyKeeps(st, e);
    case SplitOp(e, point) => SplitKeeps(st, e, point);
    case DestroyOp(e) => DestroyKeeps(st, e);
    case AppendOp(e, str) => AppendKeeps(st, e, str);
    case PoolCleanupOp(r) => PoolCleanupKeeps(st, r);
    case ReadPool(e) => PoolMorphKeeps(st, e);
    case ReadFile(e, n) => FileReadKeeps(st, e, n);
    case SetasideTransient(e) => TransientSetasideKeeps(st, e);
    case SetasideFile(e) => FileSetasideKeeps(st, e);
  }

  lemma PlantPlain(st: Store, b: Bucket)
    requires Inv(st) && !b.data.Ref? && Fits(b, st.resources)
    ensures Inv(Plant(st, b)) && Same(st, Plant(st, b), st.buckets.Keys)
  {
    PlantKeeps(st, b);
  }

  /** No operation changes what any other live bucket reads as, however much memory they share. */
  lemma StepFrame(st: Store, op: Op)
    requires Inv(st) && Enabled(st, op)
    ensures Same(st, Apply(st, op), st.buckets.Keys - Subject(op))
  {
    hide Inv, SharedCreate, Plant, Copy, Split, Destroy, Append, PoolCleanup, PoolMorph, FileRead,
         TransientSetaside, FileSetaside, View;
    match op
    case HeapCreate(buf) => SharedCreateViews(st, Heap, HeapRes(buf), 0, |buf|);
    case PoolCreate(buf) => SharedCreateViews(st, Pool, PoolRes([], buf, true), 0, |buf|);
    case FileCreate(content, start, length, readSize) =>
      SharedCreateViews(st, File, FileRes(content, readSize), start, length);
    case ImmortalCreate(buf) => PlantPlain(st, Bucket(Immortal, Text(buf), 0, |buf|));
    case TransientCreate(buf) => PlantPlain(st, Bucket(Transient, Text(buf), 0, |buf|));
    case MetaCreate(tag) => PlantPlain(st, Bucket(Metadata(tag), Null, 0, 0));
    case CopyOp(e) => CopyKeeps(st, e);
    case SplitOp(e, point) => SplitViews(st, e, point);
    case DestroyOp(e) => DestroyKeeps(st, e);
    case AppendOp(e, str) => AppendViews(st, e, str);
    case PoolCleanupOp(r) => PoolCleanupKeeps(st, r);
    case ReadPool(e) => PoolMorphKeeps(st, e);
    case ReadFile(e, n) =>
      if n < st.buckets[e].length {
        FileReadPart(st, e, n);
      } else {
        FileReadAll(st, e);
      }
    case SetasideTransient(e) => TransientSetasideKeeps(st, e);
    case SetasideFile(e) => FileSetasideKeeps(st, e);
  }

  /** Every operation of the run finds what it needs. */
  predicate Possible(st: Store, ops: seq<Op>)
    decreases |ops|
  {
    ops == [] || (Enabled(st, ops[0]) && Possible(Apply(st, ops[0]), ops[1..]))
  }

  function Run(st: Store, ops: seq<Op>): Store
    requires Possible(st, ops)
    decreases |ops|
  {
    if ops == [] then st else Run(Apply(st, ops[0]), ops[1..])
  }

  lemma {:induction false} RunKeeps(st: Store, ops: seq<Op>)
    requires Inv(st) && Possible(st, ops)
    ensures Inv(Run(st, ops))
    decreases |ops|
  {
    hide Inv, Enabled, Apply;
    if ops != [] {
      StepKeeps(st, ops[0]);
      RunKeeps(Apply(st, ops[0]), ops[1..]);
    }
  }

  /**
    In every reachable state each live structure's count is the number of live
    buckets pointing at it, at least one; no bucket points at a structure that
    was given back or outside its memory.
  */
  lemma CountsExact(ops: seq<Op>)
    requires Possible(EMPTY, ops)
    ensures var st := Run(EMPTY, ops);
      && st.refcount.Keys == st.resources.Keys
      && (forall r :: r in st.resources ==> st.refcount[r] == |Owners(st.buckets, r)| >= 1)
      && (forall e :: e in st.buckets && st.buckets[e].data.Ref? ==>
            && st.buckets[e].data.ptr in st.resources
            && st.buckets[e].start + st.buckets[e].length <= |st.resources[st.buckets[e].data.ptr].Memory()|)
  {
    RunKeeps(EMPTY, ops);
    hide Run, Possible;
    var st := Run(EMPTY, ops);
    forall e | e in st.buckets ensures Fits(st.buckets[e], st.resources) {
    }
  }

  /** No structure, and no heap memory of one, is ever given back twice or while a bucket uses it. */
  lemma FreedOnce(ops: seq<Op>, r: Ptr)
    requires Possible(EMPTY, ops) && r in Run(EMPTY, ops).freed
    ensures var st := Run(EMPTY, ops);
      && st.freed[r] == (if Owners(st.buckets, r) == {} then 1 else 0)
      && (r in st.freedBase ==> st.freedBase[r] == st.freed[r])
  {
    RunKeeps(EMPTY, ops);
    hide Run, Possible;
    var st := Run(EMPTY, ops);
    forall e | e in st.buckets ensures st.buckets[e].data == Ref(r) ==> r in st.resources {
      assert Fits(st.buckets[e], st.resources);
    }
  }

  /** Once the last bucket is gone, everything ever made has been given back, exactly once. */
  lemma NothingLeaks(ops: seq<Op>)
    requires Possible(EMPTY, ops) && Run(EMPTY, ops).buckets == map[]
    ensures var st := Run(EMPTY, ops);
      && st.resources == map[]
      && (forall r :: r in st.freed ==> st.freed[r] == 1)
      && (forall r :: r in st.freedBase ==> st.freedBase[r] == 1)
  {
    RunKeeps(EMPTY, ops);
    hide Run, Possible;
    var st := Run(EMPTY, ops);
    forall r ensures |Owners(st.buckets, r)| == 0 {
      assert Owners(st.buckets, r) == {};
    }
  }

  /** A bucket reads the same through any run that does not split, fill, fetch or destroy it. */
  lemma {:induction false} RunFrame(st: Store, ops: seq<Op>, e: Ptr)
    requires Inv(st) && Possible(st, ops) && e in st.buckets
    requires forall i :: 0 <= i < |ops| ==> e !in Subject(ops[i])
    ensures e in Run(st, ops).buckets && View(Run(st, ops), e) == View(st, e)
    decreases |ops|
  {
    hide Inv, Enabled, Apply, View;
    if ops != [] {
      StepKeeps(st, ops[0]);
      StepFrame(st, ops[0]);
      assert e in st.buckets.Keys - Subject(ops[0]);
      RunFrame(Apply(st, ops[0]), ops[1..], e);
    }
  }
}
