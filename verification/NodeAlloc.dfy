/**
  The allocator of bucket nodes (buckets/apr_buckets_alloc.c): small nodes are
  carved from blocks and recycled through a free list, large ones get a block
  of their own.

  Addresses are numbers. The allocator below it hands out address ranges that
  overlap none it has handed out and not got back.
*/
module NodeAlloc {
  type Addr = nat

  datatype Link = Null | To(addr: Addr)

  /** apr_memnode_t: a range [lo, hi) of which everything below `avail` is taken. */
  datatype Memnode = Memnode(lo: Addr, avail: Addr, hi: Addr)

  /** node_header_t, at the start of every node. */
  datatype Header = Header(size: nat, memnode: nat, next: Link)

  const HEADER: nat := 32                      // SIZEOF_NODE_HEADER_T
  const SMALL: nat := 128 + HEADER             // SMALL_NODE_SIZE
  const ALLOC_AMT: nat := 8192 - 40

  /** Everything the allocator keeps: its blocks, the headers of carved nodes, and the head of the free list. */
  datatype State = State(
    memnodes: map<nat, Memnode>,
    nodes: map<Addr, Header>,
    active: nat,
    freelist: Link)

  /** Two nodes do not overlap. */
  predicate Apart(a: Addr, m: nat, b: Addr, n: nat) {
    a + m <= b || b + n <= a
  }

  /** Ranges of different memnodes do not overlap. */
  predicate MemnodesApart(memnodes: map<nat, Memnode>) {
    forall i, j :: i in memnodes && j in memnodes && i != j ==>
      memnodes[i].hi <= memnodes[j].lo || memnodes[j].hi <= memnodes[i].lo
  }

  /** A node lies in the taken part of its memnode. */
  predicate Inside(a: Addr, h: Header, memnodes: map<nat, Memnode>) {
    && h.memnode in memnodes && h.size >= SMALL
    && memnodes[h.memnode].lo <= a
    && a + h.size <= memnodes[h.memnode].avail <= memnodes[h.memnode].hi
  }

  predicate NodesInside(nodes: map<Addr, Header>, memnodes: map<nat, Memnode>) {
    forall a :: a in nodes ==> Inside(a, nodes[a], memnodes)
  }

  predicate NodesApart(nodes: map<Addr, Header>) {
    forall a, b :: a in nodes && b in nodes && a != b ==> Apart(a, nodes[a].size, b, nodes[b].size)
  }

  function After(chain: seq<Addr>, i: nat): Link {
    if i + 1 < |chain| then To(chain[i + 1]) else Null
  }

  /** `chain` is the free list, from its head along the `next` fields to its end. */
  predicate FreeList(nodes: map<Addr, Header>, freelist: Link, chain: seq<Addr>) {
    && freelist == (if chain == [] then Null else To(chain[0]))
    && (forall i :: 0 <= i < |chain| ==> chain[i] in nodes && nodes[chain[i]].size == SMALL)
    && (forall i :: 0 <= i < |chain| ==> nodes[chain[i]].next == After(chain, i))
    && (forall i, j :: 0 <= i < j < |chain| ==> chain[i] != chain[j])
  }

  /** Every node is live or on the free list, and not both. */
  predicate Divided(nodes: map<Addr, Header>, chain: seq<Addr>, live: set<Addr>) {
    && live <= nodes.Keys
    && (forall a :: a in nodes ==> (a in live <==> a !in chain))
  }

  /** A large node has its memnode to itself; small ones share memnodes with small ones. */
  predicate LargeAlone(nodes: map<Addr, Header>, active: nat) {
    forall a :: a in nodes && nodes[a].size > SMALL ==>
      && nodes[a].memnode != active
      && forall b :: b in nodes && b != a ==> nodes[b].memnode != nodes[a].memnode
  }

  /** The active block's bounds are in order. */
  predicate ActiveOk(memnodes: map<nat, Memnode>, active: nat) {
    active in memnodes && memnodes[active].lo <= memnodes[active].avail <= memnodes[active].hi
  }

  /** What every run of alloc and free keeps. */
  predicate Inv(st: State, chain: seq<Addr>, live: set<Addr>) {
    && MemnodesApart(st.memnodes)
    && NodesInside(st.nodes, st.memnodes)
    && NodesApart(st.nodes)
    && FreeList(st.nodes, st.freelist, chain)
    && Divided(st.nodes, chain, live)
    && LargeAlone(st.nodes, st.active)
    && ActiveOk(st.memnodes, st.active)
  }

  // ----- What each operation does to the state

  /** Take the first node of the free list. */
  function PopFree(st: State): State
    requires st.freelist.To? && st.freelist.addr in st.nodes
  {
    st.(freelist := st.nodes[st.freelist.addr].next)
  }

  /** Carve a small node from the active block. */
  function Carve(st: State): State
    requires st.active in st.memnodes
  {
    var m := st.memnodes[st.active];
    st.(nodes := st.nodes[m.avail := Header(SMALL, st.active, Null)],
        memnodes := st.memnodes[st.active := m.(avail := m.avail + SMALL)])
  }

  /** A new block becomes the active one. */
  function NewBlock(st: State, id: nat, lo: Addr, hi: Addr): State {
    st.(memnodes := st.memnodes[id := Memnode(lo, lo, hi)], active := id)
  }

  /** A memnode for one large node. */
  function Large(st: State, id: nat, lo: Addr, hi: Addr, size: nat): State {
    st.(memnodes := st.memnodes[id := Memnode(lo, lo + size, hi)],
        nodes := st.nodes[lo := Header(size, id, Null)])
  }

  /** Put a small node at the head of the free list. */
  function PushFree(st: State, a: Addr): State
    requires a in st.nodes
  {
    st.(nodes := st.nodes[a := st.nodes[a].(next := st.freelist)], freelist := To(a))
  }

  /** Give a large node's memnode back. */
  function DropLarge(st: State, a: Addr): State
    requires a in st.nodes
  {
    st.(nodes := st.nodes - {a}, memnodes := st.memnodes - {st.nodes[a].memnode})
  }

  /** A range that overlaps no memnode handed out. */
  predicate FreshRange(st: State, id: nat, lo: Addr, hi: Addr) {
    && id !in st.memnodes && lo <= hi
    && forall j :: j in st.memnodes ==> st.memnodes[j].hi <= lo || hi <= st.memnodes[j].lo
  }

  // ----- What every operation keeps

  lemma PopKeeps(st: State, chain: seq<Addr>, live: set<Addr>)
    requires Inv(st, chain, live) && st.freelist.To?
    ensures chain != [] && chain[0] == st.freelist.addr && chain[0] in st.nodes && chain[0] !in live
    ensures Inv(PopFree(st), chain[1..], live + {chain[0]})
  {
    hide NodesInside, NodesApart, MemnodesApart, LargeAlone, ActiveOk, FreeList, Divided;
    HeadFree(st.nodes, st.freelist, chain, live);
    PopLists(st.nodes, st.freelist, chain, live);
  }

  lemma HeadFree(nodes: map<Addr, Header>, freelist: Link, chain: seq<Addr>, live: set<Addr>)
    requires FreeList(nodes, freelist, chain) && Divided(nodes, chain, live) && freelist.To?
    ensures chain != [] && chain[0] == freelist.addr && chain[0] in nodes && chain[0] !in live
  {
  }

  lemma PopLists(nodes: map<Addr, Header>, freelist: Link, chain: seq<Addr>, live: set<Addr>)
    requires FreeList(nodes, freelist, chain) && Divided(nodes, chain, live) && chain != []
    ensures FreeList(nodes, nodes[chain[0]].next, chain[1..]) && Divided(nodes, chain[1..], live + {chain[0]})
  {
    hide FreeList, Divided;
    PopChain(nodes, freelist, chain);
    PopDivided(nodes, chain, live);
  }

  lemma PopDivided(nodes: map<Addr, Header>, chain: seq<Addr>, live: set<Addr>)
    requires Divided(nodes, chain, live) && chain != [] && chain[0] in nodes && chain[0] !in chain[1..]
    ensures Divided(nodes, chain[1..], live + {chain[0]})
  {
    assert chain == [chain[0]] + chain[1..];
    assert forall a :: a in chain <==> a == chain[0] || a in chain[1..];
  }

  lemma PopChain(nodes: map<Addr, Header>, freelist: Link, chain: seq<Addr>)
    requires FreeList(nodes, freelist, chain) && chain != []
    ensures chain[0] in nodes && FreeList(nodes, nodes[chain[0]].next, chain[1..]) && chain[0] !in chain[1..]
  {
    var rest := chain[1..];
    forall i | 0 <= i < |rest|
      ensures rest[i] in nodes && nodes[rest[i]].size == SMALL && nodes[rest[i]].next == After(rest, i)
    {
      assert rest[i] == chain[i + 1] && After(rest, i) == After(chain, i + 1);
    }
    assert After(chain, 0) == if rest == [] then Null else To(rest[0]);
  }

  lemma CarveKeeps(st: State, chain: seq<Addr>, live: set<Addr>)
    requires Inv(st, chain, live) && st.memnodes[st.active].avail + SMALL <= st.memnodes[st.active].hi
    ensures var a := st.memnodes[st.active].avail;
      a !in st.nodes && Inv(Carve(st), chain, live + {a})
  {
    hide NodesInside, NodesApart, FreeList, Divided, MemnodesApart, LargeAlone;
    CarveApart(st);
    CarveInside(st);
    CarveLists(st, chain, live);
    CarveBlocks(st);
  }

  lemma CarveBlocks(st: State)
    requires MemnodesApart(st.memnodes) && LargeAlone(st.nodes, st.active) && st.active in st.memnodes
    requires st.memnodes[st.active].avail !in st.nodes
    ensures MemnodesApart(Carve(st).memnodes) && LargeAlone(Carve(st).nodes, st.active)
  {
  }

  lemma CarveApart(st: State)
    requires MemnodesApart(st.memnodes) && NodesInside(st.nodes, st.memnodes) && NodesApart(st.nodes)
    requires ActiveOk(st.memnodes, st.active) && st.memnodes[st.active].avail + SMALL <= st.memnodes[st.active].hi
    ensures st.memnodes[st.active].avail !in st.nodes && NodesApart(Carve(st).nodes)
  {
    var a := st.memnodes[st.active].avail;
    forall b | b in st.nodes ensures b != a && Apart(a, SMALL, b, st.nodes[b].size) {
      assert Inside(b, st.nodes[b], st.memnodes);
      var m, n := st.memnodes[st.nodes[b].memnode], st.memnodes[st.active];
      assert st.nodes[b].memnode != st.active ==> m.hi <= n.lo || n.hi <= m.lo;
    }
  }

  lemma CarveInside(st: State)
    requires NodesInside(st.nodes, st.memnodes)
    requires ActiveOk(st.memnodes, st.active) && st.memnodes[st.active].avail + SMALL <= st.memnodes[st.active].hi
    ensures NodesInside(Carve(st).nodes, Carve(st).memnodes)
  {
    forall b | b in Carve(st).nodes ensures Inside(b, Carve(st).nodes[b], Carve(st).memnodes) {
      if b in st.nodes {
        assert Inside(b, st.nodes[b], st.memnodes);
      }
    }
  }

  lemma CarveLists(st: State, chain: seq<Addr>, live: set<Addr>)
    requires FreeList(st.nodes, st.freelist, chain) && Divided(st.nodes, chain, live)
    requires st.active in st.memnodes && st.memnodes[st.active].avail !in st.nodes
    ensures FreeList(Carve(st).nodes, st.freelist, chain)
    ensures Divided(Carve(st).nodes, chain, live + {st.memnodes[st.active].avail})
  {
    NewNode(st.nodes, st.freelist, chain, live, st.memnodes[st.active].avail, Header(SMALL, st.active, Null));
  }

  /** A node at a new address does not disturb the free list. */
  lemma NewNode(nodes: map<Addr, Header>, freelist: Link, chain: seq<Addr>, live: set<Addr>, a: Addr, h: Header)
    requires FreeList(nodes, freelist, chain) && Divided(nodes, chain, live) && a !in nodes
    ensures FreeList(nodes[a := h], freelist, chain) && Divided(nodes[a := h], chain, live + {a})
  {
    assert a !in chain;
  }

  lemma NewBlockKeeps(st: State, chain: seq<Addr>, live: set<Addr>, id: nat, lo: Addr, hi: Addr)
    requires Inv(st, chain, live) && FreshRange(st, id, lo, hi)
    ensures Inv(NewBlock(st, id, lo, hi), chain, live)
  {
    hide NodesApart, FreeList, Divided;
    MoreMemnodes(st, id, Memnode(lo, lo, hi));
  }

  lemma MoreMemnodes(st: State, id: nat, m: Memnode)
    requires MemnodesApart(st.memnodes) && NodesInside(st.nodes, st.memnodes) && FreshRange(st, id, m.lo, m.hi)
    ensures MemnodesApart(st.memnodes[id := m]) && NodesInside(st.nodes, st.memnodes[id := m])
    ensures forall a :: a in st.nodes ==> st.nodes[a].memnode != id
  {
    forall a | a in st.nodes ensures Inside(a, st.nodes[a], st.memnodes[id := m]) && st.nodes[a].memnode != id {
      assert Inside(a, st.nodes[a], st.memnodes);
    }
  }

  lemma LargeKeeps(st: State, chain: seq<Addr>, live: set<Addr>, id: nat, lo: Addr, hi: Addr, size: nat)
    requires Inv(st, chain, live) && FreshRange(st, id, lo, hi) && SMALL < size && lo + size <= hi
    ensures lo !in st.nodes && Inv(Large(st, id, lo, hi, size), chain, live + {lo})
  {
    hide FreeList, Divided, NodesApart, MemnodesApart, LargeAlone, NodesInside;
    LargeApart(st, id, lo, hi, size);
    MoreMemnodes(st, id, Memnode(lo, lo + size, hi));
    NewNode(st.nodes, st.freelist, chain, live, lo, Header(size, id, Null));
    LargeInside(st, id, lo, hi, size);
  }

  lemma LargeInside(st: State, id: nat, lo: Addr, hi: Addr, size: nat)
    requires NodesInside(st.nodes, st.memnodes[id := Memnode(lo, lo + size, hi)]) && LargeAlone(st.nodes, st.active)
    requires SMALL < size && lo + size <= hi && id != st.active && lo !in st.nodes
    requires forall a :: a in st.nodes ==> st.nodes[a].memnode != id
    ensures NodesInside(Large(st, id, lo, hi, size).nodes, Large(st, id, lo, hi, size).memnodes)
    ensures LargeAlone(Large(st, id, lo, hi, size).nodes, st.active)
  {
  }

  lemma LargeApart(st: State, id: nat, lo: Addr, hi: Addr, size: nat)
    requires NodesInside(st.nodes, st.memnodes) && NodesApart(st.nodes)
    requires FreshRange(st, id, lo, hi) && 0 < size && lo + size <= hi
    ensures lo !in st.nodes && NodesApart(st.nodes[lo := Header(size, id, Null)])
  {
    forall b | b in st.nodes ensures b != lo && Apart(lo, size, b, st.nodes[b].size) {
      assert Inside(b, st.nodes[b], st.memnodes);
    }
  }

  lemma PushKeeps(st: State, chain: seq<Addr>, live: set<Addr>, a: Addr)
    requires Inv(st, chain, live) && a in live && a in st.nodes && st.nodes[a].size == SMALL
    ensures Inv(PushFree(st, a), [a] + chain, live - {a})
  {
    hide FreeList, Divided, NodesApart, MemnodesApart, LargeAlone, NodesInside;
    LiveNotFree(st.nodes, chain, live, a);
    PushLists(st, chain, live, a);
    PushRest(st, a);
  }

  lemma LiveNotFree(nodes: map<Addr, Header>, chain: seq<Addr>, live: set<Addr>, a: Addr)
    requires Divided(nodes, chain, live) && a in live
    ensures a in nodes && a !in chain
  {
  }

  /** Only a `next` field changes. */
  lemma PushRest(st: State, a: Addr)
    requires a in st.nodes && NodesInside(st.nodes, st.memnodes) && NodesApart(st.nodes)
    requires LargeAlone(st.nodes, st.active)
    ensures var nodes := PushFree(st, a).nodes;
      NodesInside(nodes, st.memnodes) && NodesApart(nodes) && LargeAlone(nodes, st.active)
  {
  }

  lemma PushLists(st: State, chain: seq<Addr>, live: set<Addr>, a: Addr)
    requires FreeList(st.nodes, st.freelist, chain) && Divided(st.nodes, chain, live)
    requires a in live && a in st.nodes && st.nodes[a].size == SMALL && a !in chain
    ensures FreeList(PushFree(st, a).nodes, To(a), [a] + chain)
    ensures Divided(PushFree(st, a).nodes, [a] + chain, live - {a})
  {
    hide FreeList, Divided;
    PushChain(st, chain, a);
    PushDivided(st, chain, live, a);
  }

  lemma PushDivided(st: State, chain: seq<Addr>, live: set<Addr>, a: Addr)
    requires Divided(st.nodes, chain, live) && a in live && a in st.nodes
    ensures Divided(PushFree(st, a).nodes, [a] + chain, live - {a})
  {
    assert forall b :: b in [a] + chain <==> b == a || b in chain;
  }

  lemma PushChain(st: State, chain: seq<Addr>, a: Addr)
    requires FreeList(st.nodes, st.freelist, chain) && a in st.nodes && st.nodes[a].size == SMALL && a !in chain
    ensures FreeList(PushFree(st, a).nodes, To(a), [a] + chain)
  {
    var nodes, more := PushFree(st, a).nodes, [a] + chain;
    assert forall i :: 0 < i < |more| ==> more[i] == chain[i - 1];
    forall i | 0 <= i < |more| ensures nodes[more[i]].next == After(more, i) {
      if i > 0 {
        assert After(more, i) == After(chain, i - 1);
      } else {
        assert st.freelist == After(more, 0);
      }
    }
  }

  lemma DropKeeps(st: State, chain: seq<Addr>, live: set<Addr>, a: Addr)
    requires Inv(st, chain, live) && a in live && a in st.nodes && st.nodes[a].size != SMALL
    ensures Inv(DropLarge(st, a), chain, live - {a})
  {
    hide FreeList, Divided, NodesApart, MemnodesApart, LargeAlone, NodesInside;
    LiveNotFree(st.nodes, chain, live, a);
    DropLists(st, chain, live, a);
    DropRest(st, a);
  }

  lemma DropRest(st: State, a: Addr)
    requires a in st.nodes && st.nodes[a].size != SMALL && ActiveOk(st.memnodes, st.active)
    requires MemnodesApart(st.memnodes) && NodesInside(st.nodes, st.memnodes)
    requires NodesApart(st.nodes) && LargeAlone(st.nodes, st.active)
    ensures var st' := DropLarge(st, a);
      && MemnodesApart(st'.memnodes) && NodesInside(st'.nodes, st'.memnodes)
      && NodesApart(st'.nodes) && LargeAlone(st'.nodes, st.active) && ActiveOk(st'.memnodes, st.active)
  {
    assert Inside(a, st.nodes[a], st.memnodes);
    forall b | b in st.nodes && b != a ensures Inside(b, st.nodes[b], DropLarge(st, a).memnodes) {
      assert Inside(b, st.nodes[b], st.memnodes);
    }
  }

  lemma DropLists(st: State, chain: seq<Addr>, live: set<Addr>, a: Addr)
    requires FreeList(st.nodes, st.freelist, chain) && Divided(st.nodes, chain, live) && a !in chain
    ensures FreeList(st.nodes - {a}, st.freelist, chain) && Divided(st.nodes - {a}, chain, live - {a})
  {
  }

  /** What apr_allocator_alloc answers. */
  datatype Answer = Refused | Granted(id: nat, lo: Addr, hi: Addr)

  /** What is asked for when a block is needed. */
  function Asked(inSize: nat): nat {
    if inSize + HEADER <= SMALL then ALLOC_AMT else inSize + HEADER
  }

  /** A grant has the size asked for and overlaps nothing handed out before. */
  predicate Sound(st: State, answer: Answer, size: nat) {
    answer.Granted? ==> FreshRange(st, answer.id, answer.lo, answer.hi) && answer.lo + size <= answer.hi
  }

  /** The request cannot be met from the free list or the active block. */
  predicate NeedsBlock(st: State, inSize: nat)
    requires st.active in st.memnodes
  {
    || inSize + HEADER > SMALL
    || (st.freelist.Null? && st.memnodes[st.active].avail + SMALL >= st.memnodes[st.active].hi)
  }

  /** Where the node comes from: the free list, the active block, or what the allocator below grants. */
  predicate Source(st: State, inSize: nat, answer: Answer, st': State, node: Link)
    requires st.active in st.memnodes
  {
    && (node.Null? <==> NeedsBlock(st, inSize) && answer.Refused?)
    && (!NeedsBlock(st, inSize) ==>
          && st'.memnodes.Keys == st.memnodes.Keys
          && node == if st.freelist.To? then st.freelist else To(st.memnodes[st.active].avail))
    && (NeedsBlock(st, inSize) && answer.Granted? ==>
          st'.memnodes.Keys == st.memnodes.Keys + {answer.id} && node == To(answer.lo))
  }

  class BucketAlloc {
    var st: State
    ghost var chain: seq<Addr>   // the free list
    ghost var live: set<Addr>    // nodes the callers hold

    ghost predicate Valid()
      reads this
    {
      Inv(st, chain, live)
    }

    /** apr_bucket_alloc_create_ex on a first block; the list itself takes `own` bytes of it. */
    constructor (lo: Addr, hi: Addr, own: nat)
      requires lo + own <= hi
      ensures Valid() && live == {} && chain == []
      ensures st.memnodes.Keys == {st.active} && st.memnodes[st.active] == Memnode(lo, lo + own, hi)
    {
      st := State(map[0 := Memnode(lo, lo + own, hi)], map[], 0, Null);
      chain, live := [], {};
    }

    /** apr_bucket_alloc; Null stands for NULL. `answer` is what the allocator below says, if it is asked. */
    method Alloc(inSize: nat, answer: Answer) returns (mem: Link)
      requires Valid() && Sound(st, answer, Asked(inSize))
      modifies this
      ensures Valid() && old(st).active in old(st).memnodes
      ensures mem.Null? ==> st == old(st) && live == old(live) && chain == old(chain)
      ensures mem.To? ==> mem.addr >= HEADER && Gained(old(st), old(live), st, live, mem.addr - HEADER, inSize)
      ensures Source(old(st), inSize, answer, st, if mem.To? then To(mem.addr - HEADER) else Null)
      ensures inSize + HEADER <= SMALL && old(chain) != [] ==>
        mem == To(old(chain)[0] + HEADER) && chain == old(chain)[1..]
      ensures inSize + HEADER > SMALL || old(chain) == [] ==> chain == old(chain)
    {
      hide Inv, Gained, Source, Sound;
      ActiveIs(st, chain, live);
      var size := inSize + HEADER;
      var node;
      if size <= SMALL {
        node := AllocSmall(inSize, answer);
      } else {
        node := AllocLarge(inSize, size, answer);
      }
      mem := if node.Null? then Null else To(node.addr + HEADER);
    }

    method AllocSmall(inSize: nat, answer: Answer) returns (node: Link)
      requires Valid() && inSize + HEADER <= SMALL && Sound(st, answer, ALLOC_AMT)
      modifies this
      ensures Valid() && old(st).active in old(st).memnodes
      ensures node.Null? ==> st == old(st) && live == old(live)
      ensures node.To? ==> Gained(old(st), old(live), st, live, node.addr, inSize)
      ensures Source(old(st), inSize, answer, st, node)
      ensures if old(chain) != [] then node == To(old(chain)[0]) && chain == old(chain)[1..] else chain == []
    {
      hide Inv, Gained, FreshRange;
      ActiveIs(st, chain, live);
      if st.freelist.To? {
        PopKeeps(st, chain, live);
        PopGains(st, chain, live, inSize);
        node := st.freelist;
        live := live + {chain[0]};
        chain := chain[1..];
        st := PopFree(st);
        return;
      }
      NoneFree(st, chain, live);
      ghost var st0, live0 := st, live;
      if st.memnodes[st.active].avail + SMALL >= st.memnodes[st.active].hi {
        if answer.Refused? {
          return Null;
        }
        NewBlockKeeps(st, chain, live, answer.id, answer.lo, answer.hi);
        st := NewBlock(st, answer.id, answer.lo, answer.hi);
      }
      CarveKeeps(st, chain, live);
      CarveGains(st0, st, chain, live, inSize);
      node := To(st.memnodes[st.active].avail);
      live := live + {st.memnodes[st.active].avail};
      st := Carve(st);
    }

    method AllocLarge(inSize: nat, size: nat, answer: Answer) returns (node: Link)
      requires Valid() && size == inSize + HEADER > SMALL && Sound(st, answer, size)
      modifies this
      ensures Valid() && chain == old(chain) && old(st).active in old(st).memnodes
      ensures node.Null? ==> st == old(st) && live == old(live)
      ensures node.To? ==> Gained(old(st), old(live), st, live, node.addr, inSize)
      ensures Source(old(st), inSize, answer, st, node)
    {
      hide Inv, Gained, FreshRange;
      ActiveIs(st, chain, live);
      if answer.Refused? {
        return Null;
      }
      LargeKeeps(st, chain, live, answer.id, answer.lo, answer.hi, size);
      LargeGains(st, chain, live, answer.id, answer.lo, answer.hi, size, inSize);
      node := To(answer.lo);
      live := live + {answer.lo};
      st := Large(st, answer.id, answer.lo, answer.hi, size);
    }

    /** apr_bucket_free on memory a caller holds. */
    method Free(mem: Addr)
      requires Valid() && mem >= HEADER && mem - HEADER in live
      modifies this
      ensures Valid() && live == old(live) - {mem - HEADER}
      ensures Untouched(old(st), st, live) && mem - HEADER in old(st).nodes
      ensures old(st).nodes[mem - HEADER].size == SMALL ==>
        st.memnodes == old(st).memnodes && chain == [mem - HEADER] + old(chain)
      ensures old(st).nodes[mem - HEADER].size != SMALL ==>
        st.memnodes == old(st).memnodes - {old(st).nodes[mem - HEADER].memnode} && chain == old(chain)
    {
      hide Inv, Untouched;
      var node := mem - HEADER;
      LiveIs(st, chain, live, node);
      if st.nodes[node].size == SMALL {
        PushKeeps(st, chain, live, node);
        PushUntouched(st, chain, live, node);
        st := PushFree(st, node);
        chain := [node] + chain;
      } else {
        DropKeeps(st, chain, live, node);
        DropUntouched(st, chain, live, node);
        st := DropLarge(st, node);
      }
      live := live - {node};
    }

    /** A small node that is freed is the next small one handed out, whatever the allocator below would say. */
    method Recycle(mem: Addr, inSize: nat, answer: Answer) returns (again: Link)
      requires Valid() && mem >= HEADER && mem - HEADER in live && mem - HEADER in st.nodes
      requires st.nodes[mem - HEADER].size == SMALL && inSize + HEADER <= SMALL && Sound(st, answer, ALLOC_AMT)
      modifies this
      ensures Valid() && again == To(mem) && live == old(live) && chain == old(chain)
      ensures st.memnodes.Keys == old(st.memnodes.Keys)
    {
      hide Inv, Untouched;
      Free(mem);
      NoneFree(st, chain, live);
      again := Alloc(inSize, answer);
      assert old(live) - {mem - HEADER} + {mem - HEADER} == old(live);
    }
  }

  lemma NoneFree(st: State, chain: seq<Addr>, live: set<Addr>)
    requires Inv(st, chain, live)
    ensures st.freelist.Null? <==> chain == []
  {
  }

  /** Nodes of `live` are where they were, as large as they were. */
  predicate Untouched(st: State, st': State, live: set<Addr>) {
    forall a :: a in live ==>
      && a in st.nodes && a in st'.nodes
      && st'.nodes[a].size == st.nodes[a].size && st'.nodes[a].memnode == st.nodes[a].memnode
  }

  /** The callers hold one more node, with room for `inSize` bytes after its header. */
  predicate Gained(st: State, live: set<Addr>, st': State, live': set<Addr>, node: Addr, inSize: nat) {
    && node !in live && live' == live + {node}
    && node in st'.nodes && HEADER + inSize <= st'.nodes[node].size
    && Untouched(st, st', live)
  }

  lemma ActiveIs(st: State, chain: seq<Addr>, live: set<Addr>)
    requires Inv(st, chain, live)
    ensures st.active in st.memnodes
  {
  }

  lemma LiveIs(st: State, chain: seq<Addr>, live: set<Addr>, a: Addr)
    requires Inv(st, chain, live) && a in live
    ensures a in st.nodes
  {
  }

  lemma PopGains(st: State, chain: seq<Addr>, live: set<Addr>, inSize: nat)
    requires Inv(st, chain, live) && st.freelist.To? && inSize + HEADER <= SMALL
    ensures chain != [] && st.freelist == To(chain[0]) && st.freelist.addr in st.nodes
    ensures Gained(st, live, PopFree(st), live + {chain[0]}, chain[0], inSize)
  {
    hide NodesInside, NodesApart, MemnodesApart, LargeAlone, ActiveOk;
  }

  lemma CarveGains(st0: State, st: State, chain: seq<Addr>, live: set<Addr>, inSize: nat)
    requires Inv(st, chain, live) && st.nodes == st0.nodes && inSize + HEADER <= SMALL
    requires st.memnodes[st.active].avail !in st.nodes
    ensures var a := st.memnodes[st.active].avail; Gained(st0, live, Carve(st), live + {a}, a, inSize)
  {
    hide NodesInside, NodesApart, MemnodesApart, LargeAlone, FreeList;
  }

  lemma LargeGains(st: State, chain: seq<Addr>, live: set<Addr>, id: nat, lo: Addr, hi: Addr, size: nat, inSize: nat)
    requires Inv(st, chain, live) && size == inSize + HEADER && lo !in st.nodes
    ensures Gained(st, live, Large(st, id, lo, hi, size), live + {lo}, lo, inSize)
  {
    hide NodesInside, NodesApart, MemnodesApart, LargeAlone, FreeList;
  }

  lemma PushUntouched(st: State, chain: seq<Addr>, live: set<Addr>, a: Addr)
    requires Inv(st, chain, live) && a in live && a in st.nodes
    ensures Untouched(st, PushFree(st, a), live - {a})
  {
    hide NodesInside, NodesApart, MemnodesApart, LargeAlone, FreeList;
  }

  lemma DropUntouched(st: State, chain: seq<Addr>, live: set<Addr>, a: Addr)
    requires Inv(st, chain, live) && a in live && a in st.nodes
    ensures Untouched(st, DropLarge(st, a), live - {a})
  {
    hide NodesInside, NodesApart, MemnodesApart, LargeAlone, FreeList;
  }

  // ----- What the invariant means to callers

  /** Two nodes that callers hold at the same time do not overlap, headers included. */
  lemma LiveNodesApart(st: State, chain: seq<Addr>, live: set<Addr>, a: Addr, b: Addr)
    requires Inv(st, chain, live) && a in live && b in live && a != b
    ensures a in st.nodes && b in st.nodes && Apart(a, st.nodes[a].size, b, st.nodes[b].size)
  {
    assert a in st.nodes && b in st.nodes;
  }

  /** The stored size tells at free what kind of node it is: a small one shares its block, a large one owns it. */
  lemma SizeTells(st: State, chain: seq<Addr>, live: set<Addr>, a: Addr)
    requires Inv(st, chain, live) && a in live
    ensures a in st.nodes && st.nodes[a].size >= SMALL && st.nodes[a].memnode in st.memnodes
    ensures st.nodes[a].size != SMALL ==>
      forall b :: b in st.nodes && b != a ==> st.nodes[b].memnode != st.nodes[a].memnode
  {
    assert a in st.nodes;
    assert Inside(a, st.nodes[a], st.memnodes);
  }

  /** Following `next` from the free list's head comes to an end after its nodes, none of which is live. */
  lemma {:induction false} FreeListEnds(st: State, chain: seq<Addr>, live: set<Addr>, k: nat)
    requires Inv(st, chain, live) && k <= |chain|
    ensures Walk(st, st.freelist, k) == (if k < |chain| then To(chain[k]) else Null)
    ensures forall i :: 0 <= i < |chain| ==> chain[i] !in live
  {
    hide NodesInside, NodesApart, MemnodesApart, LargeAlone, ActiveOk;
    if k > 0 {
      FreeListEnds(st, chain, live, k - 1);
      assert st.nodes[chain[k - 1]].next == After(chain, k - 1);
    }
  }

  /** `k` steps along the `next` fields. */
  function Walk(st: State, from: Link, k: nat): Link {
    if k == 0 then from
    else
      var at := Walk(st, from, k - 1);
      if at.To? && at.addr in st.nodes then st.nodes[at.addr].next else Null
  }
}
