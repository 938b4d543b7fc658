/** apr_brigade_insert_file (buckets/apr_brigade.c). */
module InsertFiles {
  import opened Streams
  import opened Buckets
  import opened BucketInvariants
  import opened Flows
  import opened Arenas
  import opened Brigades
  import opened Writes

  /** A "safe" maximum bucket size. */
  const MAX_BUCKET_SIZE: nat := 0x4000_0000

  /** A bucket for bytes [start, start + length) of the file structure `r`. */
  predicate FileBucket(st: Store, e: Ptr, r: Ptr, start: int, length: int) {
    e in st.buckets && start >= 0 && length >= 0 && st.buckets[e] == Bucket(File, Ref(r), start, length)
  }

  /** Full-sized buckets of one file structure, back to back from `start` on. */
  predicate Tiles(st: Store, tiles: seq<Ptr>, r: Ptr, start: int) {
    forall i :: 0 <= i < |tiles| ==> FileBucket(st, tiles[i], r, start + i * MAX_BUCKET_SIZE, MAX_BUCKET_SIZE)
  }

  /** A file structure for `content` is live. */
  predicate Open(st: Store, r: Ptr, content: seq<byte>) {
    r in st.resources && st.resources[r] == FileRes(content, BUFF_SIZE)
  }

  lemma FileView(st: Store, e: Ptr, r: Ptr, content: seq<byte>, start: nat, length: nat)
    requires FileBucket(st, e, r, start, length) && Open(st, r, content) && start + length <= |content|
    ensures View(st, e) == Wrap(content[start..start + length])
  {
  }

  /** The store changed for a bucket that is on no ring yet. */
  lemma LooseChange(st0: Store, ring0: seq<Ptr>, st: Store, ring: seq<Ptr>, st': Store, e: Ptr, str: seq<byte>)
    requires Appended(st0, ring0, st, ring, str) && e !in ring && e !in st0.buckets
    requires Inv(st') && st.buckets.Keys <= st'.buckets.Keys && Same(st, st', st.buckets.Keys - {e})
    ensures Appended(st0, ring0, st', ring, str)
  {
    hide View, Inv, Flow;
    FlowSame(ring, st, st');
  }

  /** The first bucket, over the file structure that all of them share. */
  method Start(a: Arena, content: seq<byte>, start: nat, length: nat, ghost ring: seq<Ptr>)
    returns (e: Ptr, ghost r: Ptr)
    requires Good(a.st, ring) && start + length <= |content|
    modifies a
    ensures Appended(old(a.st), ring, a.st, ring, []) && e !in ring && e !in old(a.st).buckets
    ensures FileBucket(a.st, e, r, start, length) && Open(a.st, r, content)
  {
    hide View, Flow, Inv, Framed, Good, Appended;
    ghost var st0 := a.st;
    GoodParts(st0, ring);
    NothingAppended(st0, ring);
    r := a.st.next + 1;
    e := a.FileCreate(content, start, length);
    StartViews(st0, content, start, length);
    LooseChange(st0, ring, st0, ring, a.st, e, []);
  }

  lemma GoodParts(st: Store, ring: seq<Ptr>)
    requires Good(st, ring)
    ensures Inv(st) && st.next !in ring && st.next !in st.buckets
  {
  }

  lemma StartViews(st: Store, content: seq<byte>, start: nat, length: nat)
    requires Inv(st) && start + length <= |content|
    ensures var st' := SharedCreate(st, File, FileRes(content, BUFF_SIZE), start, length);
      && st'.buckets.Keys == st.buckets.Keys + {st.next} && Same(st, st', st.buckets.Keys)
      && FileBucket(st', st.next, st.next + 1, start, length) && Open(st', st.next + 1, content)
  {
    SharedCreateViews(st, File, FileRes(content, BUFF_SIZE), start, length);
  }

  /**
    The loop's state: `tiles` have been inserted, and `e`, not yet on the ring,
    stands at the first byte that is left.
  */
  predicate Laying(st0: Store, ring0: seq<Ptr>, st: Store, tiles: seq<Ptr>, e: Ptr, r: Ptr,
                   content: seq<byte>, start: int, pos: int, size: int) {
    && 0 <= start <= pos && 0 <= size && pos + size <= |content| && pos == start + |tiles| * MAX_BUCKET_SIZE
    && Appended(st0, ring0, st, ring0 + tiles, content[start..pos])
    && e !in ring0 + tiles && e !in st0.buckets
    && Tiles(st, tiles, r, start) && Open(st, r, content) && FileBucket(st, e, r, pos, size)
  }

  lemma CopyFacts(st: Store, e: Ptr)
    requires Inv(st) && e in st.buckets
    ensures var st' := Copy(st, e);
      && st.next !in st.buckets && st'.buckets == st.buckets[st.next := st.buckets[e]] && st'.resources == st.resources
  {
  }

  /** One round: a copy of `e` is linked in at the tail. */
  lemma LayTile(st0: Store, ring0: seq<Ptr>, st: Store, tiles: seq<Ptr>, e: Ptr, r: Ptr,
                content: seq<byte>, start: nat, pos: nat)
    requires Laying(st0, ring0, st, tiles, e, r, content, start, pos, MAX_BUCKET_SIZE)
    ensures Inv(st) && e in st.buckets
    ensures var st1, ring1 := Copy(st, e), ring0 + (tiles + [st.next]);
      && Appended(st0, ring0, st1, ring1, content[start..pos + MAX_BUCKET_SIZE])
      && e !in ring1 && Tiles(st1, tiles + [st.next], r, start) && Open(st1, r, content)
      && FileBucket(st1, e, r, pos, MAX_BUCKET_SIZE) && Inv(st1)
  {
    hide View, Inv, Copy, Appended, Flow, Good;
    AppendedGood(st0, ring0, st, ring0 + tiles, content[start..pos]);
    GoodParts(st, ring0 + tiles);
    CopyKeeps(st, e);
    CopyFacts(st, e);
    FileView(st, e, r, content, pos, MAX_BUCKET_SIZE);
    var piece := content[pos..pos + MAX_BUCKET_SIZE];
    InsertFlow(st, ring0 + tiles, Copy(st, e), st.next, piece);
    AppendedTrans(st0, ring0, st, ring0 + tiles, Copy(st, e), ring0 + tiles + [st.next], content[start..pos], piece);
    assert content[start..pos] + piece == content[start..pos + MAX_BUCKET_SIZE];
    assert ring0 + tiles + [st.next] == ring0 + (tiles + [st.next]);
  }

  /** The rest of the round: `e` moves on. */
  lemma MoveOn(st0: Store, ring0: seq<Ptr>, st: Store, tiles: seq<Ptr>, e: Ptr, r: Ptr,
               content: seq<byte>, start: nat, pos: nat, size: nat)
    requires start <= pos && pos + size <= |content| && pos == start + |tiles| * MAX_BUCKET_SIZE
    requires Appended(st0, ring0, st, ring0 + tiles, content[start..pos]) && e !in ring0 + tiles && e !in st0.buckets
    requires Tiles(st, tiles, r, start) && Open(st, r, content) && e in st.buckets && Inv(st)
    requires st.buckets[e].kind == File && st.buckets[e].data == Ref(r)
    ensures Laying(st0, ring0, Recast(st, e, Bucket(File, Ref(r), pos, size)), tiles, e, r, content, start, pos, size)
  {
    hide Inv, Appended, View;
    var b := Bucket(File, Ref(r), pos, size);
    RecastKeeps(st, e, b);
    RecastSame(st, e, b);
    LooseChange(st0, ring0, st, ring0 + tiles, Recast(st, e, b), e, content[start..pos]);
  }

  lemma RecastSame(st: Store, e: Ptr, b: Bucket)
    requires e in st.buckets
    ensures Recast(st, e, b).buckets.Keys == st.buckets.Keys && Same(st, Recast(st, e, b), st.buckets.Keys - {e})
  {
  }

  /** The last bucket goes to the tail. */
  lemma LayLast(st0: Store, ring0: seq<Ptr>, st: Store, tiles: seq<Ptr>, e: Ptr, r: Ptr,
                content: seq<byte>, start: nat, pos: nat, size: nat)
    requires Laying(st0, ring0, st, tiles, e, r, content, start, pos, size)
    ensures Appended(st0, ring0, st, ring0 + tiles + [e], content[start..pos + size])
  {
    hide View, Appended, Tiles;
    FileView(st, e, r, content, pos, size);
    LooseInsert(st0, ring0, st, ring0 + tiles, e, content[start..pos], content[pos..pos + size]);
    assert content[start..pos] + content[pos..pos + size] == content[start..pos + size];
  }

  lemma LooseInsert(st0: Store, ring0: seq<Ptr>, st: Store, ring: seq<Ptr>, e: Ptr, str: seq<byte>, more: seq<byte>)
    requires Appended(st0, ring0, st, ring, str) && e in st.buckets && e !in ring && e !in st0.buckets
    requires View(st, e) == Wrap(more)
    ensures Appended(st0, ring0, st, ring + [e], str + more)
  {
    hide View, Inv, Flow;
    FlowLast(ring + [e], st);
    assert (ring + [e])[..|ring|] == ring;
    assert Wrap(str) + Wrap(more) == Wrap(str + more);
  }

  /**
    `sameWidth` says that apr_off_t is as wide as apr_size_t. The C code
    shrinks only the last bucket, after the loop; here `e` never claims more
    than is left of the range.
  */
  method InsertFile(a: Arena, bb: Brigade, content: seq<byte>, start: nat, length: nat, sameWidth: bool)
    returns (e: Ptr, ghost tiles: seq<Ptr>, ghost r: Ptr)
    requires Good(a.st, bb.ring) && start + length <= |content|
    modifies a, bb
    ensures Appended(old(a.st), old(bb.ring), a.st, bb.ring, content[start..start + length])
    ensures bb.ring == old(bb.ring) + tiles + [e] && Tiles(a.st, tiles, r, start)
    ensures var pos := start + |tiles| * MAX_BUCKET_SIZE; FileBucket(a.st, e, r, pos, start + length - pos)
    ensures !sameWidth ==> |tiles| * MAX_BUCKET_SIZE + MAX_BUCKET_SIZE >= length
    ensures sameWidth || length < MAX_BUCKET_SIZE ==> tiles == []
  {
    hide View, Flow, Inv, Framed, Good, Appended, Copy, Tiles;
    ghost var st0, ring0 := a.st, bb.ring;
    tiles := [];
    NoTiles(start);
    var pos, left := start, length;
    assert ring0 + [] == ring0 && content[start..start] == [];
    if sameWidth || length < MAX_BUCKET_SIZE {
      e, r := Start(a, content, start, length, bb.ring);
    } else {
      e, r := Start(a, content, start, MAX_BUCKET_SIZE, bb.ring);
      while left > MAX_BUCKET_SIZE
        invariant left >= 0 && pos + left == start + length && bb.ring == ring0 + tiles
        invariant Laying(st0, ring0, a.st, tiles, e, r, content, start, pos,
                         if left < MAX_BUCKET_SIZE then left else MAX_BUCKET_SIZE)
      {
        LayTile(st0, ring0, a.st, tiles, e, r, content, start, pos);
        var ce := a.Copy(e);
        bb.ring := bb.ring + [ce];
        tiles := tiles + [ce];
        pos, left := pos + MAX_BUCKET_SIZE, left - MAX_BUCKET_SIZE;
        var size := if left < MAX_BUCKET_SIZE then left else MAX_BUCKET_SIZE;
        MoveOn(st0, ring0, a.st, tiles, e, r, content, start, pos, size);
        a.Resize(e, pos, size);
      }
    }
    LayLast(st0, ring0, a.st, tiles, e, r, content, start, pos, left);
    bb.ring := bb.ring + [e];
  }

  lemma NoTiles(start: int)
    ensures forall st, r :: Tiles(st, [], r, start)
  {
  }
}
