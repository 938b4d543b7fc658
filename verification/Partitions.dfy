/**
  apr_brigade_partition, apr_brigade_split_ex, apr_brigade_cleanup,
  apr_brigade_flatten and apr_brigade_pflatten (buckets/apr_brigade.c).
*/
module Partitions {
  import opened Streams
  import opened Buckets
  import opened BucketInvariants
  import opened Flows
  import opened Arenas
  import opened Brigades

  /** `n` is the least number of items of `s` that hold `point` bytes. */
  predicate Cut(s: seq<Item>, point: int, n: int) {
    0 <= n <= |s| && |BytesOf(s[..n])| == point && (n == 0 || s[n - 1].Byte?)
  }

  /** A cut at byte `point` is take and drop on the bytes. */
  lemma CutBytes(s: seq<Item>, point: nat, n: nat)
    requires Cut(s, point, n)
    ensures point <= |BytesOf(s)|
    ensures BytesOf(s[..n]) == BytesOf(s)[..point] && BytesOf(s[n..]) == BytesOf(s)[point..]
  {
    hide BytesOf;
    assert s == s[..n] + s[n..];
    BytesOfConcat(s[..n], s[n..]);
  }

  lemma CutUnique(s: seq<Item>, point: nat, n: nat, n': nat)
    requires Cut(s, point, n) && Cut(s, point, n')
    ensures n == n'
  {
    if n < n' {
      CutLonger(s, n, n');
    } else if n' < n {
      CutLonger(s, n', n);
    }
  }

  lemma CutLonger(s: seq<Item>, n: nat, n': nat)
    requires n < n' <= |s| && s[n' - 1].Byte?
    ensures |BytesOf(s[..n])| < |BytesOf(s[..n'])|
  {
    assert s[..n'] == s[..n] + (s[n..n' - 1] + [s[n' - 1]]);
    BytesOfConcat(s[..n], s[n..n' - 1] + [s[n' - 1]]);
    BytesOfConcat(s[n..n' - 1], [s[n' - 1]]);
  }

  /** The recorded length of a bucket is the number of bytes it stands for. */
  lemma ViewLoaded(st: Store, e: Ptr)
    requires Inv(st) && e in st.buckets
    ensures Loaded(st, e, BytesOf(View(st, e)))
    ensures |BytesOf(View(st, e))| == st.buckets[e].length
    ensures !IsMeta(st, e) ==> |View(st, e)| == st.buckets[e].length && Wrap(BytesOf(View(st, e))) == View(st, e)
  {
    var b := st.buckets[e];
    assert Fits(b, st.resources);
    if IsMeta(st, e) {
      assert View(st, e)[1..] == [];
    } else {
      BytesOfWrap(MemoryOf(b.data, st.resources)[b.start..b.start + b.length]);
    }
  }

  /** The bytes of the first `i` buckets, and of one more. */
  lemma PrefixStep(st: Store, ring: seq<Ptr>, i: nat)
    requires Good(st, ring) && i < |ring|
    ensures Flow(ring[..i + 1], st) == Flow(ring[..i], st) + View(st, ring[i])
    ensures |BytesOf(Flow(ring[..i + 1], st))| == |BytesOf(Flow(ring[..i], st))| + st.buckets[ring[i]].length
  {
    ViewLoaded(st, ring[i]);
    hide View, Inv, BytesOf, Loaded;
    assert ring[..i + 1] == ring[..i] + [ring[i]];
    FlowConcat(ring[..i], [ring[i]], st);
    BytesOfConcat(Flow(ring[..i], st), View(st, ring[i]));
  }

  lemma PrefixOf(st: Store, ring: seq<Ptr>, i: nat)
    requires i <= |ring|
    ensures Flow(ring, st) == Flow(ring[..i], st) + Flow(ring[i..], st)
    ensures |BytesOf(Flow(ring[..i], st))| <= |BytesOf(Flow(ring, st))|
  {
    hide View, BytesOf, Flow;
    assert ring == ring[..i] + ring[i..];
    FlowConcat(ring[..i], ring[i..], st);
    BytesOfConcat(Flow(ring[..i], st), Flow(ring[i..], st));
  }

  lemma SameRecut(st: Store, ring: seq<Ptr>)
    requires Good(st, ring)
    ensures Recut(st, ring, st, ring)
  {
    hide View, Flow, Good;
    SameFramed(st, ring);
  }

  lemma NoPrefix(st: Store, ring: seq<Ptr>)
    ensures |BytesOf(Flow(ring[..0], st))| == 0 && Flow(ring[..0], st) == []
    ensures Cut(Flow(ring, st), 0, 0)
  {
  }

  lemma GoodAt(st: Store, ring: seq<Ptr>, i: nat)
    requires Good(st, ring) && i < |ring|
    ensures ring[i] in st.buckets
  {
    hide Inv;
  }

  /** The point falls on the end of a bucket that is not empty. */
  lemma CutAtEdge(st: Store, ring: seq<Ptr>, i: nat, point: nat)
    requires Good(st, ring) && i < |ring| && LengthOf(st, ring[i]) > 0
    requires |BytesOf(Flow(ring[..i], st))| + LengthOf(st, ring[i]) == point
    ensures Cut(Flow(ring, st), point, |Flow(ring[..i + 1], st)|)
  {
    hide View, Flow, BytesOf, Inv;
    PrefixStep(st, ring, i);
    PrefixOf(st, ring, i + 1);
    LastByte(st, ring[i]);
    var m, n := Flow(ring[..i + 1], st), |Flow(ring[..i + 1], st)|;
    assert Flow(ring, st)[..n] == m;
    assert m[n - 1] == View(st, ring[i])[|View(st, ring[i])| - 1];
  }

  lemma LastByte(st: Store, e: Ptr)
    requires Inv(st) && LengthOf(st, e) > 0
    ensures View(st, e) != [] && View(st, e)[|View(st, e)| - 1].Byte?
  {
    ViewLoaded(st, e);
    assert Fits(st.buckets[e], st.resources);
  }

  /** The point falls inside a bucket, which is split there. */
  method CutInside(a: Arena, b: Brigade, i: nat, left: nat, ghost point: nat)
    requires Good(a.st, b.ring) && i < |b.ring| && 0 < left <= LengthOf(a.st, b.ring[i])
    requires |BytesOf(Flow(b.ring[..i], a.st))| + left == point
    modifies a, b
    ensures Recut(old(a.st), old(b.ring), a.st, b.ring)
    ensures i + 1 <= |b.ring| && Cut(Flow(b.ring, a.st), point, |Flow(b.ring[..i + 1], a.st)|)
    ensures Flow(b.ring, a.st) == Flow(b.ring[..i + 1], a.st) + Flow(b.ring[i + 1..], a.st)
  {
    hide View, Flow, Inv, BytesOf, Cut, Framed, Holds, InMemory, Unmoved, IsMeta;
    ghost var e := b.ring[i];
    ViewLoaded(a.st, e);
    HasData(a.st, e);
    SplitAt(a, b, i, left, BytesOf(View(a.st, e)));
    CutAtEdge(a.st, b.ring, i, point);
    PrefixOf(a.st, b.ring, i + 1);
  }

  lemma HasData(st: Store, e: Ptr)
    requires Inv(st) && LengthOf(st, e) > 0
    ensures !IsMeta(st, e)
  {
    assert Fits(st.buckets[e], st.resources);
  }

  /** apr_brigade_partition; `after` is the position of the bucket *after_point. */
  method Partition(a: Arena, b: Brigade, point: int) returns (status: Status, after: nat)
    requires Good(a.st, b.ring)
    modifies a, b
    ensures Recut(old(a.st), old(b.ring), a.st, b.ring)
    ensures status == (if point < 0 then EInval
                       else if point > |BytesOf(Flow(old(b.ring), old(a.st)))| then Incomplete else Success)
    ensures status != Success ==> a.st == old(a.st) && b.ring == old(b.ring)
    ensures status == Incomplete ==> after == |b.ring|
    ensures status == Success ==> after <= |b.ring|
    ensures status == Success ==> Cut(Flow(b.ring, a.st), point, |Flow(b.ring[..after], a.st)|)
    ensures status == Success ==> Flow(b.ring, a.st) == Flow(b.ring[..after], a.st) + Flow(b.ring[after..], a.st)
  {
    hide View, Flow, Inv, BytesOf, Cut, Loaded, InsertAfter, Framed, Holds, InMemory, Unmoved, Recut;
    SameRecut(a.st, b.ring);
    if point < 0 {
      return EInval, 0;
    }
    NoPrefix(a.st, b.ring);
    PrefixOf(a.st, b.ring, 0);
    if point == 0 {
      return Success, 0;
    }
    var left, i := point, 0;
    while i < |b.ring|
      invariant a.st == old(a.st) && b.ring == old(b.ring)
      invariant 0 <= i <= |b.ring| && left > 0
      invariant left + |BytesOf(Flow(b.ring[..i], a.st))| == point
    {
      GoodAt(a.st, b.ring, i);
      PrefixStep(a.st, b.ring, i);
      PrefixOf(a.st, b.ring, i + 1);
      var length := a.st.buckets[b.ring[i]].length;
      if left < length {
        CutInside(a, b, i, left, point);
        return Success, i + 1;
      }
      if left == length {
        CutAtEdge(a.st, b.ring, i, point);
        return Success, i + 1;
      }
      left := left - length;
      i := i + 1;
    }
    assert b.ring[..i] == b.ring;
    return Incomplete, i;
  }

  /** apr_brigade_cleanup: every bucket is deleted. */
  method Cleanup(a: Arena, b: Brigade)
    requires Good(a.st, b.ring)
    modifies a, b
    ensures b.ring == [] && Good(a.st, b.ring) && Framed(old(a.st), a.st, old(b.ring), [])
  {
    hide View, Flow, Inv, Framed, Holds;
    SameFramed(a.st, b.ring);
    while b.ring != []
      invariant Good(a.st, b.ring) && Framed(old(a.st), a.st, old(b.ring), b.ring)
      decreases |b.ring|
    {
      ghost var st1, ring1 := a.st, b.ring;
      DeleteFirst(a, b);
      FramedTrans(old(a.st), st1, a.st, old(b.ring), ring1, b.ring);
    }
  }

  /** apr_brigade_split_ex with a brigade to split into: its old buckets go first. */
  method SplitEx(a: Arena, b: Brigade, i: nat, into: Brigade)
    requires b != into && Pair(a.st, b.ring, into.ring) && i <= |b.ring|
    modifies a, b, into
    ensures Pair(a.st, b.ring, into.ring)
    ensures b.ring == old(b.ring)[..i] && into.ring == old(b.ring)[i..]
    ensures Flow(b.ring, a.st) == Flow(b.ring, old(a.st)) && Flow(into.ring, a.st) == Flow(into.ring, old(a.st))
  {
    hide View, Flow, Inv, Framed, Holds, Apart;
    ghost var st0, ring0, into0 := a.st, b.ring, into.ring;
    SplitParts(st0, ring0, into0, i);
    if into.ring != [] {
      Cleanup(a, into);
      PairAfter(st0, ring0, into0, a.st, []);
      PairAfter(st0, ring0[..i], into0, a.st, []);
      PairAfter(st0, ring0[i..], into0, a.st, []);
    }
    SplitPair(a.st, ring0, i);
    if i < |b.ring| {
      into.ring := b.ring[i..];
      b.ring := b.ring[..i];
    }
  }

  /**
    apr_brigade_partition, and apr_brigade_split_ex at the bucket it finds: the
    bytes of the two brigades are take and drop at `point`.
  */
  method SplitAtPoint(a: Arena, b: Brigade, point: int, into: Brigade) returns (status: Status)
    requires b != into && Pair(a.st, b.ring, into.ring)
    modifies a, b, into
    ensures Pair(a.st, b.ring, into.ring)
    ensures status == (if point < 0 then EInval
                       else if point > |BytesOf(Flow(old(b.ring), old(a.st)))| then Incomplete else Success)
    ensures status != Success ==> a.st == old(a.st) && b.ring == old(b.ring) && into.ring == old(into.ring)
    ensures status == Success ==>
      var content := BytesOf(Flow(old(b.ring), old(a.st)));
      BytesOf(Flow(b.ring, a.st)) == content[..point] && BytesOf(Flow(into.ring, a.st)) == content[point..]
  {
    hide View, Flow, Inv, BytesOf, Cut, Framed, Holds, Apart, Recut;
    ghost var st0, ring0, into0 := a.st, b.ring, into.ring;
    ghost var s := Flow(ring0, st0);
    var after;
    status, after := Partition(a, b, point);
    if status != Success {
      return;
    }
    RecutStays(st0, ring0, a.st, b.ring, into0);
    ghost var n := |Flow(b.ring[..after], a.st)|;
    assert s[..n] == Flow(b.ring[..after], a.st) && s[n..] == Flow(b.ring[after..], a.st);
    CutBytes(s, point, n);
    SplitEx(a, b, after, into);
  }

  /** A brigade apart from one whose buckets were read or split is as before. */
  lemma RecutStays(st: Store, ring: seq<Ptr>, st': Store, ring': seq<Ptr>, other: seq<Ptr>)
    requires Pair(st, ring, other) && Recut(st, ring, st', ring')
    ensures Pair(st', ring', other) && Flow(ring', st') == Flow(ring, st)
  {
    hide View, Flow, Inv;
    FramedOther(st, st', ring, ring', other);
  }

  lemma SplitParts(st: Store, ring: seq<Ptr>, other: seq<Ptr>, i: nat)
    requires Pair(st, ring, other) && i <= |ring|
    ensures Pair(st, ring[..i], other) && Pair(st, ring[i..], other)
  {
    hide Inv, View;
  }

  lemma SplitPair(st: Store, ring: seq<Ptr>, i: nat)
    requires Good(st, ring) && i <= |ring|
    ensures Pair(st, ring[..i], ring[i..])
  {
    hide Inv, View;
  }

  lemma RecutGood(st: Store, ring: seq<Ptr>, st': Store, ring': seq<Ptr>)
    requires Recut(st, ring, st', ring')
    ensures Good(st', ring') && Flow(ring', st') == Flow(ring, st)
  {
    hide Good, Flow, Framed;
  }

  lemma RecutTrans(st: Store, ring: seq<Ptr>, st1: Store, ring1: seq<Ptr>, st2: Store, ring2: seq<Ptr>)
    requires Recut(st, ring, st1, ring1) && Recut(st1, ring1, st2, ring2)
    ensures Recut(st, ring, st2, ring2)
  {
    hide Good, Flow, Framed;
    FramedTrans(st, st1, st2, ring, ring1, ring2);
  }

  lemma PrefixRead(st: Store, ring: seq<Ptr>, i: nat, str: seq<byte>)
    requires Good(st, ring) && i < |ring| && Loaded(st, ring[i], str)
    ensures BytesOf(Flow(ring[..i + 1], st)) == BytesOf(Flow(ring[..i], st)) + str
    ensures BytesOf(Flow(ring[..i + 1], st)) <= BytesOf(Flow(ring, st))
  {
    hide View, Inv, BytesOf, Flow, Loaded;
    PrefixStep(st, ring, i);
    LoadedBytes(st, ring[i], str);
    BytesOfConcat(Flow(ring[..i], st), View(st, ring[i]));
    PrefixOf(st, ring, i + 1);
    BytesOfConcat(Flow(ring[..i + 1], st), Flow(ring[i + 1..], st));
  }

  /**
    apr_brigade_flatten: copy content to `c`, at most `len` bytes of it;
    `actual` is what *len is set to.
  */
  method Flatten(a: Arena, bb: Brigade, c: array<byte>, len: nat) returns (status: Status, actual: nat)
    requires Good(a.st, bb.ring) && len <= c.Length
    modifies a, bb, c
    ensures Recut(old(a.st), old(bb.ring), a.st, bb.ring)
    ensures status == Success || status == ReadError
    ensures InMemory(old(a.st), old(bb.ring)) ==> status == Success
    ensures actual <= len && c[actual..] == old(c[actual..])
    ensures var content := BytesOf(Flow(old(bb.ring), old(a.st)));
      status == Success ==>
        actual == (if |content| < len then |content| else len) && c[..actual] == content[..actual]
  {
    hide View, Flow, Inv, BytesOf, Framed, Holds, InMemory, Unmoved, IsMeta, Loaded, LengthOf, Recut;
    ghost var st0, ring0 := a.st, bb.ring;
    ghost var content := BytesOf(Flow(ring0, st0));
    SameRecut(st0, ring0);
    NoPrefix(a.st, bb.ring);
    actual := 0;
    var i := 0;
    while i < |bb.ring|
      invariant Recut(st0, ring0, a.st, bb.ring) && 0 <= i <= |bb.ring|
      invariant InMemory(st0, ring0) ==> InMemory(a.st, bb.ring)
      invariant actual <= len && (actual < len || i == 0)
      invariant actual == |BytesOf(Flow(bb.ring[..i], a.st))| && c[..actual] == BytesOf(Flow(bb.ring[..i], a.st))
      invariant c[actual..] == old(c[actual..])
      decreases len - actual, |bb.ring| - i
    {
      RecutGood(st0, ring0, a.st, bb.ring);
      ghost var st1, ring1 := a.st, bb.ring;
      var str;
      status, str := ReadAt(a, bb, i);
      RecutTrans(st0, ring0, st1, ring1, a.st, bb.ring);
      RecutGood(st0, ring0, a.st, bb.ring);
      if status != Success {
        return status, actual;
      }
      PrefixRead(a.st, bb.ring, i, str);
      var n := CopyOut(c, actual, str, len, content);
      assert c[actual + n..] == old(c[actual..])[n..];
      actual := actual + n;
      i := i + 1;
      if actual >= len {
        return Success, actual;
      }
    }
    assert bb.ring[..i] == bb.ring;
    RecutGood(st0, ring0, a.st, bb.ring);
    return Success, actual;
  }

  /** One bucket's bytes, or as many of them as there is room for. */
  method CopyOut(c: array<byte>, at: nat, str: seq<byte>, len: nat, ghost content: seq<byte>) returns (n: nat)
    requires at <= len <= c.Length && c[..at] + str <= content
    modifies c
    ensures n == (if |str| + at > len then len - at else |str|) && at + n <= |content|
    ensures c[..at + n] == content[..at + n] && c[at + n..] == old(c[at..])[n..]
    ensures n == |str| ==> c[..at + n] == old(c[..at]) + str
  {
    n := |str|;
    if n + at > len {
      n := len - at;
    }
    CopiedPrefix(c[..at], str, n, content);
    Memcpy(c, at, str, n);
    assert old(c[at..])[n..] == old(c[at + n..]);
  }

  lemma CopiedPrefix(copied: seq<byte>, str: seq<byte>, n: nat, content: seq<byte>)
    requires copied + str <= content && n <= |str|
    ensures |copied| + n <= |content| && copied + str[..n] == content[..|copied| + n]
    ensures n == |str| ==> copied + str[..n] == copied + str
  {
    assert content[..|copied| + |str|] == copied + str;
    assert content[..|copied| + n] == (copied + str)[..|copied| + n];
  }

  method Memcpy(c: array<byte>, at: nat, str: seq<byte>, n: nat)
    requires n <= |str| && at + n <= c.Length
    modifies c
    ensures c[..at + n] == old(c[..at]) + str[..n] && c[at + n..] == old(c[at + n..])
  {
    forall j | 0 <= j < n {
      c[at + j] := str[j];
    }
  }

  /** apr_brigade_length, all lengths being known. */
  method Length(a: Arena, bb: Brigade) returns (total: nat)
    requires Good(a.st, bb.ring)
    ensures total == |BytesOf(Flow(bb.ring, a.st))|
  {
    hide View, Flow, Inv, BytesOf, Holds;
    NoPrefix(a.st, bb.ring);
    total := 0;
    for i := 0 to |bb.ring|
      invariant total == |BytesOf(Flow(bb.ring[..i], a.st))|
    {
      GoodAt(a.st, bb.ring, i);
      PrefixStep(a.st, bb.ring, i);
      total := total + a.st.buckets[bb.ring[i]].length;
    }
    assert bb.ring[..|bb.ring|] == bb.ring;
  }

  /** apr_brigade_pflatten: the whole content in a new buffer. */
  method Pflatten(a: Arena, bb: Brigade) returns (status: Status, c: array<byte>, len: nat)
    requires Good(a.st, bb.ring)
    modifies a, bb
    ensures fresh(c) && Recut(old(a.st), old(bb.ring), a.st, bb.ring)
    ensures status == Success || status == ReadError
    ensures InMemory(old(a.st), old(bb.ring)) ==> status == Success
    ensures status == Success ==> len == c.Length && c[..len] == BytesOf(Flow(old(bb.ring), old(a.st)))
  {
    hide View, Flow, Inv, BytesOf, Recut, InMemory, Good;
    var total := Length(a, bb);
    c := new byte[total];
    status, len := Flatten(a, bb, c, total);
  }
}
