/**
  Where a stream is cut into buckets: the lengths of the pieces, the edges
  between them, and the places at which apr_brigade_split_boundary looks at its
  limit.
*/
module Edges {
  import opened Streams
  import opened Search
  import opened Matches

  function Max(x: nat, y: nat): nat {
    if x < y then y else x
  }

  /** The length of the longest piece. */
  function Widest(lens: seq<nat>): nat {
    if lens == [] then 0 else Max(lens[0], Widest(lens[1..]))
  }

  lemma {:induction false} WidestConcat(a: seq<nat>, b: seq<nat>)
    ensures Widest(a + b) == Max(Widest(a), Widest(b))
  {
    if a == [] {
      assert a + b == b;
    } else {
      assert (a + b)[1..] == a[1..] + b;
      WidestConcat(a[1..], b);
    }
  }

  /** `i` is cut in two. */
  function CutTwo(lens: seq<nat>, i: nat, x: nat): seq<nat>
    requires i < |lens| && x <= lens[i]
  {
    lens[..i] + [x, lens[i] - x] + lens[i + 1..]
  }

  lemma CutNarrower(lens: seq<nat>, i: nat, x: nat)
    requires i < |lens| && x <= lens[i]
    ensures Widest(CutTwo(lens, i, x)) <= Widest(lens)
  {
    hide Widest;
    var a, b := lens[..i], lens[i + 1..];
    assert lens == a + [lens[i]] + b;
    WidestConcat(a + [lens[i]], b);
    WidestConcat(a, [lens[i]]);
    WidestConcat(a + [x, lens[i] - x], b);
    WidestConcat(a, [x, lens[i] - x]);
    WidestSmall(x, lens[i] - x);
  }

  lemma WidestSmall(x: nat, y: nat)
    ensures Widest([x, y]) == Max(x, y) && Widest([x + y]) == x + y
  {
    assert [x, y][1..] == [y] && [y][1..] == [] && [x + y][1..] == [];
    assert Widest([y]) == y;
  }

  lemma WidestFirst(lens: seq<nat>)
    requires lens != []
    ensures lens[0] <= Widest(lens) && Widest(lens[1..]) <= Widest(lens)
  {
  }

  lemma WidestShorter(lens: seq<nat>, x: nat)
    requires lens != [] && x <= lens[0]
    ensures Widest([x] + lens[1..]) <= Widest(lens)
  {
    assert ([x] + lens[1..])[1..] == lens[1..];
  }

  // ----- Edges

  function Sum(lens: seq<nat>): nat {
    if lens == [] then 0 else Sum(lens[..|lens| - 1]) + lens[|lens| - 1]
  }

  /** Where piece `i` begins. */
  function Start(lens: seq<nat>, i: nat): nat
    requires i <= |lens|
  {
    Sum(lens[..i])
  }

  lemma StartNext(lens: seq<nat>, i: nat)
    requires i < |lens|
    ensures Start(lens, i + 1) == Start(lens, i) + lens[i]
  {
    assert lens[..i + 1][..i] == lens[..i];
  }

  lemma {:induction false} StartUp(lens: seq<nat>, i: nat, j: nat)
    requires i <= j <= |lens|
    ensures Start(lens, i) <= Start(lens, j)
    decreases j
  {
    if i < j {
      StartUp(lens, i, j - 1);
      StartNext(lens, j - 1);
    }
  }

  /** A piece begins or the last one ends at `c`. */
  ghost predicate Edge(lens: seq<nat>, c: int) {
    exists i :: 0 <= i <= |lens| && c == Start(lens, i)
  }

  lemma NoEdgeInside(lens: seq<nat>, i: nat, c: int)
    requires i < |lens| && Start(lens, i) < c < Start(lens, i + 1)
    ensures !Edge(lens, c)
  {
    hide Start;
    forall j | 0 <= j <= |lens| ensures c != Start(lens, j) {
      if j <= i {
        StartUp(lens, j, i);
      } else {
        StartUp(lens, i + 1, j);
      }
    }
  }

  /** From `c` inside piece `i` to the end of the piece, a beginning of the boundary. */
  predicate BeginsIn(lens: seq<nat>, s: seq<Item>, boundary: seq<byte>, c: int, i: nat)
    requires i < |lens|
  {
    var e := Start(lens, i + 1);
    && 0 <= Start(lens, i) < c < e <= |s|
    && e - c < |boundary| && s[c..e] == Wrap(boundary[..e - c])
  }

  ghost predicate Begins(lens: seq<nat>, s: seq<Item>, boundary: seq<byte>, c: int) {
    exists i :: 0 <= i < |lens| && BeginsIn(lens, s, boundary, c, i)
  }

  /** The places at which the limit is looked at, once nothing before them matched. */
  ghost predicate Checked(lens: seq<nat>, s: seq<Item>, boundary: seq<byte>, c: int) {
    Edge(lens, c) || Begins(lens, s, boundary, c)
  }

  /** All places looked at before `k` were below the limit. */
  ghost predicate Within(lens: seq<nat>, s: seq<Item>, boundary: seq<byte>, maxbytes: int, k: int) {
    forall c :: Checked(lens, s, boundary, c) && c < k ==> c < maxbytes
  }

  /** A piece in which `c` lies is the only one. */
  lemma OnePiece(lens: seq<nat>, i: nat, j: nat, c: int)
    requires i < |lens| && j < |lens|
    requires Start(lens, i) <= c < Start(lens, i + 1) && Start(lens, j) <= c < Start(lens, j + 1)
    ensures i == j
  {
    hide Start;
    if i < j {
      StartUp(lens, i + 1, j);
    } else if j < i {
      StartUp(lens, j + 1, i);
    }
  }

  // ----- Moving along

  /** Of pieces `lens0`, `lens` are left once `k` items are gone; the first of them is what is left of piece `i`. */
  predicate Left(lens0: seq<nat>, i: nat, k: nat, lens: seq<nat>) {
    && i <= |lens0| && Start(lens0, i) <= k
    && if i == |lens0| then lens == [] && k == Start(lens0, i)
       else k <= Start(lens0, i + 1) && lens == [Start(lens0, i + 1) - k] + lens0[i + 1..]
  }

  lemma LeftStart(lens: seq<nat>)
    ensures Left(lens, 0, 0, lens)
  {
    if lens != [] {
      StartNext(lens, 0);
    }
  }

  lemma LeftPass(lens0: seq<nat>, i: nat, k: nat, lens: seq<nat>)
    requires Left(lens0, i, k, lens) && lens != []
    ensures i < |lens0| && k + lens[0] == Start(lens0, i + 1) && Left(lens0, i + 1, k + lens[0], lens[1..])
  {
    hide Start;
    if i + 1 < |lens0| {
      StartNext(lens0, i + 1);
    }
  }

  lemma LeftHead(lens0: seq<nat>, i: nat, k: nat, lens: seq<nat>, off: nat)
    requires Left(lens0, i, k, lens) && lens != [] && off <= lens[0]
    ensures i < |lens0| && k + lens[0] == Start(lens0, i + 1)
    ensures Left(lens0, i, k + off, [lens[0] - off] + lens[1..])
  {
    hide Start;
  }

  lemma WithinStart(lens: seq<nat>, s: seq<Item>, boundary: seq<byte>, maxbytes: int)
    ensures Within(lens, s, boundary, maxbytes, 0)
  {
    hide Start;
    forall c | Checked(lens, s, boundary, c) ensures c >= 0 {
    }
  }

  /** No place inside the piece up to `off` begins the boundary, so none there is looked at. */
  lemma WithinMore(lens: seq<nat>, s: seq<Item>, boundary: seq<byte>, maxbytes: int, i: nat, k: nat, str: seq<byte>,
                   off: nat)
    requires i < |lens| && Start(lens, i) <= k && k + |str| == Start(lens, i + 1) && Here(s, k, str) && off <= |str|
    requires Within(lens, s, boundary, maxbytes, k) && k < maxbytes
    requires forall p :: 0 < p < off ==> !Partial(str, boundary, p)
    ensures Within(lens, s, boundary, maxbytes, k + off)
  {
    hide Start, Here, Partial, BeginsIn;
    forall c | Checked(lens, s, boundary, c) && c < k + off ensures c < maxbytes {
      if c > k {
        NoEdgeInside(lens, i, c);
        var j :| 0 <= j < |lens| && BeginsIn(lens, s, boundary, c, j);
        BeginsPartial(lens, s, boundary, c, i, j, k, str);
      }
    }
  }

  /** A place inside a piece that begins the boundary is a partial match of the piece. */
  lemma BeginsPartial(lens: seq<nat>, s: seq<Item>, boundary: seq<byte>, c: int, i: nat, j: nat, k: nat, str: seq<byte>)
    requires i < |lens| && j < |lens| && BeginsIn(lens, s, boundary, c, j)
    requires Start(lens, i) <= k < c < k + |str| == Start(lens, i + 1) && Here(s, k, str)
    ensures Partial(str, boundary, c - k)
  {
    hide Start;
    OnePiece(lens, i, j, c);
    var e := k + |str|;
    assert s[c..e] == s[k..e][c - k..] == Wrap(str[c - k..]);
    WrapInjective(str[c - k..], boundary[..e - c]);
  }

  lemma WrapInjective(x: seq<byte>, y: seq<byte>)
    requires Wrap(x) == Wrap(y)
    ensures x == y
  {
    assert |x| == |y|;
    forall i | 0 <= i < |x| ensures x[i] == y[i] {
      assert Wrap(x)[i] == Wrap(y)[i];
    }
  }

  /** A partial match past the start of its piece is a place that is looked at. */
  lemma PartialBegins(lens: seq<nat>, s: seq<Item>, boundary: seq<byte>, i: nat, k: nat, str: seq<byte>, off: nat)
    requires i < |lens| && Start(lens, i) < k + off && k + |str| == Start(lens, i + 1) && Here(s, k, str)
    requires Partial(str, boundary, off)
    ensures Begins(lens, s, boundary, k + off)
  {
    hide Start;
    var c, e := k + off, k + |str|;
    assert s[c..e] == s[k..e][off..] == Wrap(str[off..]);
    assert BeginsIn(lens, s, boundary, c, i);
  }
}
