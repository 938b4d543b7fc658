/**
  What hooks/apr_hooks.c promises about the order of hooks: graphs of
  predecessors, orders that respect them, and how far such an order strays
  from the sequence it started from.

  Items are numbered by their place in the array that qsort left behind;
  `preds[i]` is the set of items that have to come before item `i`.
*/
module HookOrder {
  type Graph = seq<set<int>>

  ghost predicate WellFormed(preds: Graph) {
    forall i, j :: 0 <= i < |preds| && j in preds[i] ==> 0 <= j < |preds|
  }

  /** No item is, through any chain of predecessors, its own predecessor. */
  ghost predicate Acyclic(preds: Graph) {
    forall x :: !TransPred(preds, x, x)
  }

  /** `path` leads from an item to a predecessor of it, and on to a predecessor of that, and so on. */
  ghost predicate Chain(preds: Graph, path: seq<int>) {
    && (forall i :: 0 <= i < |path| ==> 0 <= path[i] < |preds|)
    && (forall i :: 0 < i < |path| ==> path[i] in preds[path[i - 1]])
  }

  ghost predicate ChainBetween(preds: Graph, path: seq<int>, x: int, z: int) {
    |path| >= 2 && Chain(preds, path) && path[0] == z && path[|path| - 1] == x
  }

  /** `x` is a transitive predecessor of `z`. */
  ghost predicate TransPred(preds: Graph, x: int, z: int) {
    exists path :: ChainBetween(preds, path, x, z)
  }

  /** All different, and all of them items. */
  predicate Selection(order: seq<int>, n: nat) {
    && (forall i :: 0 <= i < |order| ==> 0 <= order[i] < n)
    && (forall i, j :: 0 <= i < j < |order| ==> order[i] != order[j])
  }

  /** Every recorded predecessor comes first. */
  ghost predicate Respects(preds: Graph, order: seq<int>)
    requires Selection(order, |preds|)
  {
    forall i :: 0 <= i < |order| ==> forall j :: j in preds[order[i]] ==> j in order[..i]
  }

  /**
    The array's own sequence is only disturbed where it has to be: an item that
    overtakes an earlier one is a transitive predecessor of that one, or of one
    earlier still.
  */
  ghost predicate Forced(preds: Graph, order: seq<int>) {
    forall i, y :: 0 <= i < |order| && 0 <= y < order[i] && y !in order[..i] ==>
      exists z :: 0 <= z <= y && TransPred(preds, order[i], z)
  }

  // ----- Counting

  ghost function Range(n: nat): (items: set<int>)
    ensures |items| == n && forall i :: i in items <==> 0 <= i < n
  {
    if n == 0 then {} else Range(n - 1) + {n - 1}
  }

  /** There are no more than `n` different items. */
  lemma SelectionBound(order: seq<int>, n: nat)
    requires Selection(order, n)
    ensures |order| <= n
  {
    DistinctSize(order);
    SubsetSize(set i | 0 <= i < |order| :: order[i], Range(n));
  }

  lemma {:induction false} DistinctSize(s: seq<int>)
    requires forall i, j :: 0 <= i < j < |s| ==> s[i] != s[j]
    ensures |set i | 0 <= i < |s| :: s[i]| == |s|
  {
    var all := set i | 0 <= i < |s| :: s[i];
    if s == [] {
      assert all == {};
    } else {
      var front, last := s[..|s| - 1], s[|s| - 1];
      DistinctSize(front);
      var rest := set i | 0 <= i < |front| :: front[i];
      assert all == rest + {last} by {
        forall x | x in all ensures x in rest + {last} {
          var i :| 0 <= i < |s| && s[i] == x;
          if i < |front| {
            assert front[i] == x;
          }
        }
        forall x | x in rest ensures x in all {
          var i :| 0 <= i < |front| && front[i] == x;
          assert s[i] == x;
        }
        assert s[|s| - 1] in all;
      }
      assert last !in rest;
    }
  }

  lemma {:induction false} SubsetSize<T>(a: set<T>, b: set<T>)
    requires a <= b
    ensures |a| <= |b|
  {
    if a != {} {
      var x :| x in a;
      SubsetSize(a - {x}, b - {x});
    }
  }

  /** A selection that misses an item is shorter than the number of items. */
  lemma SelectionShort(order: seq<int>, n: nat, x: int)
    requires Selection(order, n) && 0 <= x < n && x !in order
    ensures |order| < n
  {
    SelectionBound(order + [x], n);
  }

  /** A selection as long as the number of items takes them all in. */
  lemma SelectionFull(order: seq<int>, n: nat)
    requires Selection(order, n) && |order| == n
    ensures forall x :: 0 <= x < n ==> x in order
  {
    forall x | 0 <= x < n ensures x in order {
      if x !in order {
        SelectionShort(order, n, x);
      }
    }
  }

  // ----- Chains

  lemma ChainExtend(preds: Graph, path: seq<int>, n: int, i: int)
    requires Chain(preds, path) && path != [] && path[|path| - 1] == n
    requires 0 <= n < |preds| && 0 <= i < |preds| && i in preds[n]
    ensures Chain(preds, path + [i])
  {
  }

  lemma ChainPart(preds: Graph, path: seq<int>, i: nat, j: nat)
    requires Chain(preds, path) && i < j < |path|
    ensures TransPred(preds, path[j], path[i])
  {
    assert ChainBetween(preds, path[i..j + 1], path[j], path[i]);
  }

  /** In an acyclic graph no chain meets an item twice, so chains are short. */
  lemma ChainBound(preds: Graph, path: seq<int>)
    requires Acyclic(preds) && Chain(preds, path)
    ensures Selection(path, |preds|) && |path| <= |preds|
  {
    forall i, j | 0 <= i < j < |path| ensures path[i] != path[j] {
      ChainPart(preds, path, i, j);
    }
    SelectionBound(path, |preds|);
  }

  /** A respecting order of all items exists only if the graph is acyclic. */
  lemma OrderNeedsAcyclic(preds: Graph, order: seq<int>)
    requires WellFormed(preds) && Selection(order, |preds|) && Respects(preds, order)
    requires forall i :: 0 <= i < |preds| ==> i in order
    ensures Acyclic(preds)
  {
    forall path | |path| >= 2 && Chain(preds, path) ensures path[0] != path[|path| - 1] {
      assert path[0] in order;
      var at :| 0 <= at < |order| && order[at] == path[0];
      var at' := Descends(preds, order, path, at);
    }
  }

  /** In a graph with a cycle no order that puts predecessors first takes in all items. */
  lemma CyclicNeverDone(preds: Graph, order: seq<int>)
    requires WellFormed(preds) && !Acyclic(preds) && Selection(order, |preds|) && Respects(preds, order)
    ensures |order| < |preds|
  {
    hide Acyclic, WellFormed, Respects;
    SelectionBound(order, |preds|);
    if |order| == |preds| {
      SelectionFull(order, |preds|);
      OrderNeedsAcyclic(preds, order);
    }
  }

  /** Along a chain, positions in the order go strictly down. */
  lemma {:induction false} Descends(preds: Graph, order: seq<int>, path: seq<int>, at: nat) returns (at': nat)
    requires Selection(order, |preds|) && Respects(preds, order)
    requires Chain(preds, path) && path != [] && at < |order| && order[at] == path[0]
    ensures at' < |order| && order[at'] == path[|path| - 1]
    ensures at' <= at && (|path| >= 2 ==> at' < at)
    decreases |path|
  {
    if |path| == 1 {
      return at;
    }
    assert path[1] in preds[path[0]];
    assert path[1] in order[..at];
    var next :| 0 <= next < at && order[next] == path[1];
    at' := Descends(preds, order, path[1..], next);
  }

  /** Without predecessors nothing is transitively a predecessor. */
  lemma NoPredsNoChains(preds: Graph, x: int, z: int)
    requires forall i :: 0 <= i < |preds| ==> preds[i] == {}
    ensures !TransPred(preds, x, z)
  {
    forall path ensures !ChainBetween(preds, path, x, z) {
      if |path| >= 2 && 0 <= path[0] < |preds| {
        assert path[1] !in preds[path[0]];
      }
    }
  }

  /** With no predecessors at all, an order that is only disturbed where forced is the array itself. */
  lemma {:induction false} NoEdgesIdentity(preds: Graph, order: seq<int>, k: nat)
    requires forall i :: 0 <= i < |preds| ==> preds[i] == {}
    requires Selection(order, |preds|) && |order| == |preds| && Forced(preds, order) && k <= |order|
    ensures forall i :: 0 <= i < k ==> order[i] == i
  {
    if k > 0 {
      NoEdgesIdentity(preds, order, k - 1);
      var x := order[k - 1];
      forall z ensures !TransPred(preds, x, z) {
        NoPredsNoChains(preds, x, z);
      }
      var front := order[..k - 1];
      forall i | i in Range(k - 1) ensures i in front {
        assert front[i] == i;
      }
      assert x !in front;
      assert x !in Range(k - 1);
      assert k - 1 !in front;
    }
  }
}
