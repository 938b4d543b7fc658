/**
  Which item tsort takes next (hooks/apr_hooks.c), told from the rows of
  predecessors as prepare left them and the items placed so far.

  `rows[i]` lists item i's predecessors in the order of its slots; NULL is NIL.
*/
module HookSearch {
  import opened HookOrder

  const NIL := -1

  /** The first predecessor in the row that is not placed, or NIL. */
  function FirstFree(row: seq<int>, placed: seq<int>): (r: int)
    ensures r == NIL ==> forall k :: 0 <= k < |row| ==> row[k] == NIL || row[k] in placed
    ensures r != NIL ==> r in row && r !in placed
  {
    if row == [] then NIL
    else if row[0] != NIL && row[0] !in placed then row[0]
    else FirstFree(row[1..], placed)
  }

  /** Everything listed before the one that is found is placed. */
  lemma {:induction false} FirstFreeFirst(row: seq<int>, placed: seq<int>, k: nat)
    requires k < |row| && row[k] != NIL && row[k] !in placed
    ensures exists l :: 0 <= l <= k && FirstFree(row, placed) == row[l]
  {
    if row[0] != NIL && row[0] !in placed {
      assert FirstFree(row, placed) == row[0];
    } else {
      FirstFreeFirst(row[1..], placed, k - 1);
      var l :| 0 <= l <= k - 1 && FirstFree(row[1..], placed) == row[1..][l];
      assert row[1..][l] == row[l + 1];
    }
  }

  /** Where the search stands after `k` rounds from item 0; where it ends, it stays. */
  function Walk(rows: seq<seq<int>>, placed: seq<int>, k: nat): int {
    if k == 0 then 0
    else
      var n := Walk(rows, placed, k - 1);
      if !(0 <= n < |rows|) then n
      else if n in placed then n + 1
      else if FirstFree(rows[n], placed) == NIL then n
      else FirstFree(rows[n], placed)
  }

  /** An item not placed whose predecessors all are. */
  predicate Stops(rows: seq<seq<int>>, placed: seq<int>, n: int) {
    0 <= n < |rows| && n !in placed && FirstFree(rows[n], placed) == NIL
  }

  /** The search ends at `n`. */
  ghost predicate Picks(rows: seq<seq<int>>, placed: seq<int>, n: int) {
    Stops(rows, placed, n) && exists k :: n == Walk(rows, placed, k)
  }

  /** Every item of the order is the one the search ends at once those before it are placed. */
  ghost predicate Chosen(rows: seq<seq<int>>, order: seq<int>) {
    forall i :: 0 <= i < |order| ==> Picks(rows, order[..i], order[i])
  }

  lemma {:induction false} WalkStays(rows: seq<seq<int>>, placed: seq<int>, k: nat, k': nat)
    requires k <= k' && Stops(rows, placed, Walk(rows, placed, k))
    ensures Walk(rows, placed, k') == Walk(rows, placed, k)
  {
    if k < k' {
      WalkStays(rows, placed, k, k' - 1);
    }
  }

  lemma PicksUnique(rows: seq<seq<int>>, placed: seq<int>, n: int, n': int)
    requires Picks(rows, placed, n) && Picks(rows, placed, n')
    ensures n == n'
  {
    hide Walk, Stops;
    var k :| n == Walk(rows, placed, k);
    var k' :| n' == Walk(rows, placed, k');
    if k <= k' {
      WalkStays(rows, placed, k, k');
    } else {
      WalkStays(rows, placed, k', k);
    }
  }

  lemma ChosenPrefix(rows: seq<seq<int>>, order: seq<int>, m: nat)
    requires Chosen(rows, order) && m <= |order|
    ensures Chosen(rows, order[..m])
  {
    hide Picks;
    forall i | 0 <= i < m ensures Picks(rows, order[..m][..i], order[..m][i]) {
      assert order[..m][..i] == order[..i];
    }
  }

  lemma ChosenNext(rows: seq<seq<int>>, order: seq<int>, n: int)
    requires Chosen(rows, order) && Picks(rows, order, n)
    ensures Chosen(rows, order + [n])
  {
    hide Picks;
    var order' := order + [n];
    forall i | 0 <= i < |order'| ensures Picks(rows, order'[..i], order'[i]) {
      if i < |order| {
        assert order'[..i] == order[..i];
      } else {
        assert order'[..i] == order;
      }
    }
  }

  /** The rows, slot by slot, leave no choice: there is one such order of a given length. */
  lemma {:induction false} ChosenUnique(rows: seq<seq<int>>, order: seq<int>, order': seq<int>)
    requires Chosen(rows, order) && Chosen(rows, order') && |order| == |order'|
    ensures order == order'
    decreases |order|
  {
    hide Picks;
    if order != [] {
      var m := |order| - 1;
      ChosenPrefix(rows, order, m);
      ChosenPrefix(rows, order', m);
      hide Chosen;
      ChosenUnique(rows, order[..m], order'[..m]);
      LastPicked(rows, order);
      LastPicked(rows, order');
      PicksUnique(rows, order[..m], order[m], order'[m]);
      assert order == order[..m] + [order[m]] && order' == order'[..m] + [order'[m]];
    }
  }

  lemma LastPicked(rows: seq<seq<int>>, order: seq<int>)
    requires Chosen(rows, order) && order != []
    ensures Picks(rows, order[..|order| - 1], order[|order| - 1])
  {
  }

  // ----- How the search gets to an item

  /** Every item before `n` is placed. */
  predicate AllBefore(placed: seq<int>, n: int) {
    forall m :: 0 <= m < n ==> m in placed
  }

  /** `path` goes from the first item not placed to the first predecessor of it not placed, and so on. */
  predicate Leads(rows: seq<seq<int>>, placed: seq<int>, path: seq<int>) {
    && path != [] && AllBefore(placed, path[0])
    && (forall i :: 0 <= i < |path| ==> 0 <= path[i] < |rows| && path[i] !in placed)
    && (forall i :: 0 <= i < |path| - 1 ==> path[i + 1] == FirstFree(rows[path[i]], placed))
  }

  /** Rows hold item numbers or NIL. */
  predicate Numbered(rows: seq<seq<int>>) {
    forall i, k :: 0 <= i < |rows| && 0 <= k < |rows[i]| ==> rows[i][k] == NIL || 0 <= rows[i][k] < |rows|
  }

  lemma FirstFreeItem(rows: seq<seq<int>>, placed: seq<int>, n: nat)
    requires Numbered(rows) && n < |rows| && FirstFree(rows[n], placed) != NIL
    ensures 0 <= FirstFree(rows[n], placed) < |rows| && FirstFree(rows[n], placed) !in placed
  {
    var k :| 0 <= k < |rows[n]| && rows[n][k] == FirstFree(rows[n], placed);
  }

  lemma LeadsOn(rows: seq<seq<int>>, placed: seq<int>, path: seq<int>)
    requires Numbered(rows) && Leads(rows, placed, path)
    requires FirstFree(rows[path[|path| - 1]], placed) != NIL
    ensures Leads(rows, placed, path + [FirstFree(rows[path[|path| - 1]], placed)])
  {
    hide FirstFree, Numbered;
    FirstFreeItem(rows, placed, path[|path| - 1]);
  }

  lemma AllBeforeNext(placed: seq<int>, n: int)
    requires AllBefore(placed, n) && n in placed
    ensures AllBefore(placed, n + 1)
  {
  }

  /** The search is at an item because all before it are placed, or was led to it. */
  lemma {:induction false} WalkLed(rows: seq<seq<int>>, placed: seq<int>, k: nat) returns (path: seq<int>)
    requires Numbered(rows)
    ensures var n := Walk(rows, placed, k);
      if path == [] then AllBefore(placed, n) else Leads(rows, placed, path) && path[|path| - 1] == n && |path| >= 2
  {
    hide Numbered, FirstFree, Leads, AllBefore;
    path := [];
    if k == 0 {
      NoneBefore(placed);
    } else {
      path := WalkLed(rows, placed, k - 1);
      var n := Walk(rows, placed, k - 1);
      if 0 <= n < |rows| {
        LedUnplaced(rows, placed, path, n);
        if n in placed {
          AllBeforeNext(placed, n);
        } else if FirstFree(rows[n], placed) != NIL {
          if path == [] {
            path := [n];
            LeadsFrom(rows, placed, n);
          }
          LeadsOn(rows, placed, path);
          path := path + [FirstFree(rows[n], placed)];
        }
      }
    }
  }

  lemma NoneBefore(placed: seq<int>)
    ensures AllBefore(placed, 0)
  {
  }

  lemma LeadsFrom(rows: seq<seq<int>>, placed: seq<int>, n: nat)
    requires AllBefore(placed, n) && n < |rows| && n !in placed
    ensures Leads(rows, placed, [n])
  {
  }

  lemma LedUnplaced(rows: seq<seq<int>>, placed: seq<int>, path: seq<int>, n: int)
    requires path != [] ==> Leads(rows, placed, path) && path[|path| - 1] == n
    ensures path != [] ==> n !in placed
  {
  }

  /** The item the search ends at. */
  lemma PickLed(rows: seq<seq<int>>, placed: seq<int>, n: int) returns (path: seq<int>)
    requires Numbered(rows) && Picks(rows, placed, n)
    ensures if path == [] then AllBefore(placed, n)
            else Leads(rows, placed, path) && path[|path| - 1] == n && |path| >= 2
  {
    hide Numbered, Walk, Leads, AllBefore;
    var k :| n == Walk(rows, placed, k);
    path := WalkLed(rows, placed, k);
  }

  // ----- Two items listed by the same one

  /** The rows list exactly the predecessors of the graph. */
  ghost predicate Lists(rows: seq<seq<int>>, preds: Graph) {
    && |rows| == |preds|
    && forall i, j :: 0 <= i < |rows| ==> (j in preds[i] <==> j in rows[i] && j != NIL)
  }

  /** An order of all items that the search chooses and that puts predecessors first. */
  ghost predicate Sorted(rows: seq<seq<int>>, preds: Graph, order: seq<int>) {
    && Numbered(rows) && Lists(rows, preds) && Chosen(rows, order)
    && Selection(order, |preds|) && |order| == |preds| && Respects(preds, order)
  }

  /** Only `a` lists `x`. */
  predicate OnlyIn(rows: seq<seq<int>>, a: int, x: int) {
    0 <= x < |rows| && forall i :: 0 <= i < |rows| && i != a ==> x !in rows[i]
  }

  /** `a` comes before `c` in the array, or a hook before `c` needs `a`. */
  ghost predicate DrawnIn(preds: Graph, a: int, c: int) {
    0 <= a < c || exists z :: 0 <= z < c && TransPred(preds, a, z)
  }

  /** A path of the search that is led to `x` comes through the one item that lists it. */
  lemma LedThrough(rows: seq<seq<int>>, placed: seq<int>, path: seq<int>, a: int, x: int)
    requires Leads(rows, placed, path) && |path| >= 2 && path[|path| - 1] == x && OnlyIn(rows, a, x)
    ensures path[|path| - 2] == a && 0 <= a < |rows| && FirstFree(rows[a], placed) == x
  {
    var j := path[|path| - 2];
    assert x == FirstFree(rows[j], placed);
    assert x != NIL;
    assert x in rows[j];
  }

  /** Such a path is a chain of predecessors. */
  lemma LedChain(rows: seq<seq<int>>, preds: Graph, placed: seq<int>, path: seq<int>)
    requires Leads(rows, placed, path) && Lists(rows, preds)
    ensures Chain(preds, path)
  {
    forall i | 0 < i < |path| ensures path[i] in preds[path[i - 1]] {
      var i' := i - 1;
      assert path[i' + 1] == FirstFree(rows[path[i']], placed);
    }
  }

  /** Where the items of a chain are placed. */
  lemma ChainPlaced(preds: Graph, order: seq<int>, m: nat, z: int, x: int)
    requires Selection(order, |preds|) && Respects(preds, order) && m <= |order|
    requires z in order[..m] && TransPred(preds, x, z)
    ensures x in order[..m]
  {
    var path :| ChainBetween(preds, path, x, z);
    var at :| 0 <= at < m && order[at] == z;
    var at' := Descends(preds, order, path, at);
    assert order[..m][at'] == x;
  }

  lemma PredPlaced(preds: Graph, order: seq<int>, m: nat, a: int, x: int)
    requires Selection(order, |preds|) && Respects(preds, order) && m <= |order|
    requires a in order[..m] && 0 <= a < |preds| && x in preds[a]
    ensures x in order[..m]
  {
    var at :| 0 <= at < m && order[at] == a;
    assert x in order[..at];
  }

  /** If the search comes to `c` while `b`, listed before it, is not placed, nothing drew `a` in. */
  lemma LaterFirst(rows: seq<seq<int>>, preds: Graph, order: seq<int>, a: nat, k: nat, l: nat, m: nat)
    requires Sorted(rows, preds, order) && a < |rows| && k < l < |rows[a]| && rows[a][k] != NIL
    requires forall q :: 0 <= q < l ==> rows[a][q] != rows[a][l]
    requires m < |order| && order[m] == rows[a][l] && rows[a][k] !in order[..m] && OnlyIn(rows, a, rows[a][l])
    ensures rows[a][l] < rows[a][k] && !DrawnIn(preds, a, rows[a][l])
  {
    hide Numbered, Walk, Leads, Respects, Selection, Stops, FirstFree, Picks, Chosen, TransPred;
    var b, c, placed := rows[a][k], rows[a][l], order[..m];
    PickedAt(rows, order, m);
    NotYet(order, |preds|, m);
    SortedItem(rows, a, k);
    var path := PickLed(rows, placed, c);
    if path != [] {
      LedThrough(rows, placed, path, a, c);
      FirstFreeFirst(rows[a], placed, k);
      assert false;
    }
    assert b !in placed ==> !(0 <= b < c);
    if DrawnIn(preds, a, c) {
      if !(a < c) {
        var z :| 0 <= z < c && TransPred(preds, a, z);
        assert z in placed;
        ChainPlaced(preds, order, m, z, a);
      }
      assert c in preds[a];
      PredPlaced(preds, order, m, a, c);
      assert false;
    }
  }

  /** If the search comes to `b` first, something drew `a` in, or `b` lies before `c`. */
  lemma EarlierFirst(rows: seq<seq<int>>, preds: Graph, order: seq<int>, a: nat, b: int, c: int, m: nat)
    requires Sorted(rows, preds, order) && a < |rows| && c in rows[a] && 0 <= c < |rows| && b != c
    requires m < |order| && order[m] == b && c !in order[..m] && OnlyIn(rows, a, b)
    ensures b < c || DrawnIn(preds, a, c)
  {
    hide Numbered, Walk, Leads, Respects, Selection, Stops, FirstFree, Picks, Chosen, TransPred;
    var placed := order[..m];
    PickedAt(rows, order, m);
    var path := PickLed(rows, placed, b);
    if path == [] {
      assert !(c < b);
    } else {
      LedThrough(rows, placed, path, a, b);
      var z, chain := path[0], path[..|path| - 1];
      LedChain(rows, preds, placed, path);
      LedStart(rows, placed, path, c);
      if |chain| == 1 {
        assert z == a;
      } else {
        assert ChainBetween(preds, chain, a, z) by {
          ChainFront(preds, path);
        }
        IsTransPred(preds, chain, a, z);
      }
      BackAndForth(preds, order, a, c);
      Draws(preds, a, c, z);
    }
  }

  lemma Draws(preds: Graph, a: int, c: int, z: int)
    requires 0 <= z < c && (z == a || TransPred(preds, a, z))
    ensures DrawnIn(preds, a, c)
  {
  }

  lemma LedStart(rows: seq<seq<int>>, placed: seq<int>, path: seq<int>, c: int)
    requires Leads(rows, placed, path) && c !in placed && c >= 0
    ensures 0 <= path[0] <= c
  {
  }

  lemma ChainFront(preds: Graph, path: seq<int>)
    requires Chain(preds, path) && path != []
    ensures Chain(preds, path[..|path| - 1])
  {
  }

  lemma IsTransPred(preds: Graph, path: seq<int>, x: int, z: int)
    requires ChainBetween(preds, path, x, z)
    ensures TransPred(preds, x, z)
  {
  }

  /** Two items that need each other, or one that needs itself, are never both placed. */
  lemma BackAndForth(preds: Graph, order: seq<int>, a: int, c: int)
    requires Selection(order, |preds|) && Respects(preds, order) && |order| == |preds|
    requires 0 <= a < |preds| && c in preds[a] && 0 <= c < |preds|
    ensures c != a && !TransPred(preds, a, c)
  {
    SelectionFull(order, |preds|);
    assert a in order;
    var at :| 0 <= at < |order| && order[at] == a;
    assert c in order[..at];
    if TransPred(preds, a, c) {
      ChainPlaced(preds, order, at, c, a);
      assert false;
    }
  }

  lemma PickedAt(rows: seq<seq<int>>, order: seq<int>, m: nat)
    requires Chosen(rows, order) && m < |order|
    ensures Picks(rows, order[..m], order[m])
  {
  }

  lemma NotYet(order: seq<int>, n: nat, m: nat)
    requires Selection(order, n) && m < |order|
    ensures order[m] !in order[..m]
  {
  }

  lemma SortedItem(rows: seq<seq<int>>, a: nat, k: nat)
    requires Numbered(rows) && a < |rows| && k < |rows[a]| && rows[a][k] != NIL
    ensures 0 <= rows[a][k] < |rows|
  {
  }

  /** `x` comes before `y`. */
  predicate Precedes(order: seq<int>, x: int, y: int) {
    exists i, j :: 0 <= i < j < |order| && order[i] == x && order[j] == y
  }

  /**
    Of two items that the same item lists and no other does, the one listed
    first comes first exactly if it lies first in the array too or an item
    before the other draws the listing one in.
  */
  lemma ListedFirst(rows: seq<seq<int>>, preds: Graph, order: seq<int>, a: nat, k: nat, l: nat)
    requires Sorted(rows, preds, order) && a < |rows| && k < l < |rows[a]| && rows[a][k] != NIL && rows[a][l] != NIL
    requires forall p, q :: 0 <= p < q < |rows[a]| && rows[a][p] == rows[a][q] ==> rows[a][p] == NIL
    requires OnlyIn(rows, a, rows[a][k]) && OnlyIn(rows, a, rows[a][l])
    ensures Precedes(order, rows[a][k], rows[a][l])
      <==> rows[a][k] < rows[a][l] || DrawnIn(preds, a, rows[a][l])
  {
    hide Numbered, Chosen, Respects, DrawnIn;
    var b, c := rows[a][k], rows[a][l];
    SelectionFull(order, |preds|);
    assert b in order && c in order;
    var i :| 0 <= i < |order| && order[i] == b;
    var j :| 0 <= j < |order| && order[j] == c;
    if i < j {
      assert Precedes(order, b, c);
      assert c !in order[..i];
      EarlierFirst(rows, preds, order, a, b, c, i);
    } else {
      assert !Precedes(order, b, c);
      assert b !in order[..j];
      LaterFirst(rows, preds, order, a, k, l, j);
    }
  }

  /** An array on which it does not: item 1 lists 2 before 0, but 0 lies before both and is placed first. */
  lemma ListedLaterFirst()
    ensures var rows := [[NIL, NIL, NIL], [2, 0, NIL], [NIL, NIL, NIL]];
      Chosen(rows, [0, 2, 1]) && Precedes([0, 2, 1], 0, 2)
  {
    var rows := [[NIL, NIL, NIL], [2, 0, NIL], [NIL, NIL, NIL]];
    var none := [NIL, NIL, NIL];
    assert none[1..] == [NIL, NIL] && none[1..][1..] == [NIL];
    assert rows[1][1..] == [0, NIL] && rows[1][1..][1..] == [NIL];
    assert Walk(rows, [], 0) == 0 && Stops(rows, [], 0);
    assert Walk(rows, [0], 0) == 0;
    assert Walk(rows, [0], 1) == 1;
    assert Walk(rows, [0], 2) == 2 && Stops(rows, [0], 2);
    assert Walk(rows, [0, 2], 0) == 0;
    assert Walk(rows, [0, 2], 1) == 1 && Stops(rows, [0, 2], 1);
    var order := [0, 2, 1];
    assert order[..0] == [] && order[..1] == [0] && order[..2] == [0, 2];
    assert order[0] == 0 && order[1] == 2;
  }
}
