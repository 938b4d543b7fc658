/**
  tsort (hooks/apr_hooks.c).

  `&pData[i]` is the number `i` and NULL is NIL. `pp[i]` holds item i's
  nItems predecessor slots, `nPred[i]` its nPredecessors and `next[i]` its
  pNext, which doubles as the mark of an item already placed.
*/
module Hooks {
  import opened HookOrder
  import opened HookSearch

  /** The predecessors still recorded in a row of slots. */
  function Live(row: seq<int>): set<int> {
    set v | v in row && v != NIL
  }

  /** A row of `n` slots: empty, or holding different items. */
  predicate Row(row: seq<int>, n: nat) {
    && |row| == n
    && (forall k :: 0 <= k < n ==> row[k] == NIL || 0 <= row[k] < n)
    && (forall k, l :: 0 <= k < l < n && row[k] == row[l] ==> row[k] == NIL)
  }

  /** Every row holds the predecessors not yet placed, and its count is their number. */
  predicate Table(preds: Graph, nPred: seq<int>, pp: seq<seq<int>>, placed: seq<int>) {
    && |nPred| == |pp| == |preds|
    && forall i :: 0 <= i < |preds| ==>
         Row(pp[i], |preds|) && nPred[i] == |Live(pp[i])| && Live(pp[i]) == preds[i] - Elements(placed)
  }

  function Elements(s: seq<int>): set<int> {
    set x | x in s
  }

  /** The links of the items placed so far; the last one points at itself. */
  predicate Linked(next: seq<int>, order: seq<int>) {
    && Selection(order, |next|)
    && (forall i :: 0 <= i < |next| ==> (next[i] != NIL <==> i in order))
    && (forall j :: 0 <= j < |order| - 1 ==> next[order[j]] == order[j + 1])
    && (order != [] ==> next[order[|order| - 1]] == order[|order| - 1])
  }

  /** The first slot that is not NULL. */
  method FirstSlot(row: seq<int>) returns (k: nat)
    requires exists j :: 0 <= j < |row| && row[j] != NIL
    ensures k < |row| && row[k] != NIL && forall j :: 0 <= j < k ==> row[j] == NIL
  {
    k := 0;
    while row[k] == NIL
      invariant 0 <= k < |row|
      invariant forall j :: 0 <= j < k ==> row[j] == NIL
      decreases |row| - k
    {
      k := k + 1;
    }
  }

  /** The item at an address. */
  method ItemAt(address: int, n: nat) returns (i: nat)
    requires 0 <= address < n
    ensures i == address
  {
    i := 0;
    while i != address
      invariant 0 <= i <= address
    {
      i := i + 1;
    }
  }

  /** While fewer items are placed than there are, one is not. */
  lemma Unplaced(order: seq<int>, n: nat) returns (x: int)
    requires Selection(order, n) && |order| < n
    ensures 0 <= x < n && x !in order
  {
    if forall i :: 0 <= i < n ==> i in order {
      assert Range(n) <= Elements(order);
      SubsetSize(Range(n), Elements(order));
      ElementsSize(order);
      x := 0;
    } else {
      x :| 0 <= x < n && x !in order;
    }
  }

  lemma {:induction false} ElementsSize(s: seq<int>)
    ensures |Elements(s)| <= |s|
  {
    if s != [] {
      ElementsSize(s[1..]);
      assert Elements(s) == Elements(s[1..]) + {s[0]};
    }
  }

  /** A count that is not zero means a slot that is not NULL. */
  lemma Recorded(preds: Graph, nPred: seq<int>, pp: seq<seq<int>>, order: seq<int>, n: nat)
    requires Table(preds, nPred, pp, order) && n < |preds| && nPred[n] != 0
    ensures exists j :: 0 <= j < |pp[n]| && pp[n][j] != NIL
  {
    var v :| v in Live(pp[n]);
  }

  lemma NoneRecorded(preds: Graph, nPred: seq<int>, pp: seq<seq<int>>, order: seq<int>, n: nat)
    requires Table(preds, nPred, pp, order) && n < |preds| && nPred[n] == 0
    ensures preds[n] <= Elements(order)
  {
    assert Live(pp[n]) == {};
    forall j | j in preds[n] ensures j in Elements(order) {
      assert j !in preds[n] - Elements(order);
    }
  }

  lemma SlotIsPred(preds: Graph, nPred: seq<int>, pp: seq<seq<int>>, order: seq<int>, n: nat, k: nat)
    requires Table(preds, nPred, pp, order) && n < |preds| && k < |pp[n]| && pp[n][k] != NIL
    ensures 0 <= pp[n][k] < |preds| && pp[n][k] in preds[n] && pp[n][k] !in order
  {
    assert Row(pp[n], |preds|);
    assert pp[n][k] in Live(pp[n]);
    assert pp[n][k] !in Elements(order);
  }

  lemma PlacedIff(next: seq<int>, order: seq<int>, n: nat)
    requires Linked(next, order) && n < |next|
    ensures next[n] != NIL <==> n in order
  {
  }

  lemma Sizes(preds: Graph, nPred: seq<int>, pp: seq<seq<int>>, order: seq<int>)
    requires Table(preds, nPred, pp, order)
    ensures |nPred| == |pp| == |preds|
    ensures forall i :: 0 <= i < |pp| ==> |pp[i]| == |preds|
  {
    forall i | 0 <= i < |pp| ensures |pp[i]| == |preds| {
      assert Row(pp[i], |preds|);
    }
  }

  /** The first predecessor of item `n` that is not placed. */
  method Follow(nPred: array<int>, pp: array<seq<int>>, n: int, ghost preds: Graph, ghost order: seq<int>)
    returns (i: int)
    requires Table(preds, nPred[..], pp[..], order) && 0 <= n < |preds| == nPred.Length == pp.Length && nPred[n] != 0
    ensures 0 <= i < |preds| && i in preds[n] && i !in order && i == FirstLive(pp[n])
  {
    hide Table, Row, Live, Elements, FirstLive;
    Sizes(preds, nPred[..], pp[..], order);
    Recorded(preds, nPred[..], pp[..], order, n);
    var k := FirstSlot(pp[n]);
    SlotIsPred(preds, nPred[..], pp[..], order, n, k);
    FirstLiveAt(pp[n], k);
    i := ItemAt(pp[n][k], pp.Length);
  }

  /**
    The selection loop of tsort: the first item not placed, and from there
    from predecessor to predecessor, to an item whose predecessors are all
    placed, after `k` rounds. `path` is the chain that was followed.
  */
  method Select(nPred: array<int>, pp: array<seq<int>>, next: array<int>, ghost preds: Graph, ghost order: seq<int>)
    returns (n: int, ghost path: seq<int>, ghost k: nat)
    requires next.Length == |preds| && WellFormed(preds) && Acyclic(preds)
    requires Table(preds, nPred[..], pp[..], order) && Linked(next[..], order) && |order| < |preds|
    ensures 0 <= n < |preds| && n !in order && preds[n] <= Elements(order)
    ensures Chain(preds, path) && path != [] && path[|path| - 1] == n
    ensures AllBefore(order, path[0])
    ensures nPred.Length == pp.Length == next.Length
    ensures n == Searched(nPred[..], pp[..], next[..], k) && Ends(nPred[..], next[..], n)
  {
    hide TransPred, Acyclic, Row, Live, Table, Linked, WellFormed, Elements, Selection, AllBefore, Chain, FirstLive;
    OrderSelected(next[..], order);
    ghost var free := Unplaced(order, |preds|);
    Sizes(preds, nPred[..], pp[..], order);
    NothingBefore(preds, order);
    n, path, k := 0, [], 0;
    while true
      invariant 0 <= n <= |preds| && Chain(preds, path) && n == Searched(nPred[..], pp[..], next[..], k)
      invariant path == [] ==> AllBefore(order, n)
      invariant path != [] ==> path[|path| - 1] == n && 0 <= n < |preds| && n !in order && AllBefore(order, path[0])
      decreases |preds| - |path|, if path == [] then |preds| - n else 0
    {
      if path == [] {
        BeforeFree(order, n, free);
      }
      PlacedIff(next[..], order, n);
      if next[n] == NIL {
        if path == [] {
          path := [n];
          ChainOne(preds, n);
        }
        if nPred[n] != 0 {
          var i := Follow(nPred, pp, n, preds, order);
          ChainExtend(preds, path, n, i);
          path := path + [i];
          ChainBound(preds, path);
          n := i - 1;
        } else {
          NoneRecorded(preds, nPred[..], pp[..], order, n);
          break;
        }
      }
      if path == [] {
        AllBeforeNext(order, n);
      }
      n, k := n + 1, k + 1;
    }
  }

  lemma NothingBefore(preds: Graph, order: seq<int>)
    ensures AllBefore(order, 0) && Chain(preds, [])
  {
  }

  lemma BeforeFree(order: seq<int>, n: int, free: nat)
    requires AllBefore(order, n) && free !in order
    ensures n <= free
  {
  }

  lemma ChainOne(preds: Graph, n: int)
    requires 0 <= n < |preds|
    ensures Chain(preds, [n])
  {
  }

  lemma OrderSelected(next: seq<int>, order: seq<int>)
    requires Linked(next, order)
    ensures Selection(order, |next|)
  {
  }

  // ----- The search for any predecessors

  /** Every item not placed waits for another one that is not placed. */
  predicate Stuck(preds: Graph, order: seq<int>) {
    forall i :: 0 <= i < |preds| && i !in order ==> exists j :: j in preds[i] && j !in order
  }

  function FirstLive(row: seq<int>): int {
    if row == [] then NIL else if row[0] != NIL then row[0] else FirstLive(row[1..])
  }

  /** An item whose predecessors are all placed, at which the search ends. */
  predicate Ends(nPred: seq<int>, next: seq<int>, n: int) {
    0 <= n < |next| == |nPred| && next[n] == NIL && nPred[n] == 0
  }

  /** Where the search stands after `k` rounds from item 0, for any predecessors; where it ends, it stays. */
  function Searched(nPred: seq<int>, pp: seq<seq<int>>, next: seq<int>, k: nat): int
    requires |nPred| == |pp| == |next|
  {
    if k == 0 then 0
    else
      var n := Searched(nPred, pp, next, k - 1);
      if !(0 <= n < |next|) || Ends(nPred, next, n) then n
      else if next[n] != NIL then n + 1
      else FirstLive(pp[n])
  }

  lemma {:induction false} FirstLiveIs(row: seq<int>)
    requires Live(row) != {}
    ensures FirstLive(row) in Live(row)
  {
    var v :| v in Live(row);
    if row[0] == NIL {
      assert v in row[1..];
      assert v in Live(row[1..]);
      FirstLiveIs(row[1..]);
    }
  }

  lemma {:induction false} FirstLiveAt(row: seq<int>, k: nat)
    requires k < |row| && row[k] != NIL && forall j :: 0 <= j < k ==> row[j] == NIL
    ensures FirstLive(row) == row[k]
  {
    if k > 0 {
      FirstLiveAt(row[1..], k - 1);
    }
  }

  /** An item with predecessors left is followed to one that is not placed either. */
  lemma FollowLive(preds: Graph, nPred: seq<int>, pp: seq<seq<int>>, order: seq<int>, n: nat)
    requires Table(preds, nPred, pp, order) && n < |preds| && nPred[n] != 0
    ensures 0 <= FirstLive(pp[n]) < |preds| && FirstLive(pp[n]) !in order
  {
    FirstLiveIs(pp[n]);
    var k :| 0 <= k < |pp[n]| && pp[n][k] == FirstLive(pp[n]);
    SlotIsPred(preds, nPred, pp, order, n, k);
  }

  lemma StuckWaits(preds: Graph, nPred: seq<int>, pp: seq<seq<int>>, order: seq<int>, n: nat)
    requires Table(preds, nPred, pp, order) && Stuck(preds, order) && n < |preds| && n !in order
    ensures nPred[n] != 0
  {
    var j :| j in preds[n] && j !in order;
    assert j in Live(pp[n]);
  }

  /** An item not placed lies ahead. */
  predicate Ahead(order: seq<int>, n: int, size: nat) {
    0 <= n < size && exists u :: n <= u < size && u !in order
  }

  lemma AheadNext(order: seq<int>, n: int, size: nat)
    requires Ahead(order, n, size) && n in order
    ensures Ahead(order, n + 1, size)
  {
    var u :| n <= u < size && u !in order;
    assert n + 1 <= u;
  }

  /**
    For any predecessors, with or without cycles: after any number of rounds
    the search is still inside the array, so the assertion for loops never
    fires. Once only items are left that wait for each other it has not ended
    either: it goes on for ever.
  */
  lemma {:induction false} SearchStays(preds: Graph, nPred: seq<int>, pp: seq<seq<int>>, next: seq<int>,
                                       order: seq<int>, k: nat)
    requires Table(preds, nPred, pp, order) && |next| == |preds| && Linked(next, order) && |order| < |preds|
    ensures |nPred| == |pp| == |next| && Ahead(order, Searched(nPred, pp, next, k), |preds|)
    ensures Stuck(preds, order) ==> !Ends(nPred, next, Searched(nPred, pp, next, k))
  {
    hide Table, Linked, Stuck, Ahead, Live, Row, Selection, FirstLive;
    Sizes(preds, nPred, pp, order);
    OrderSelected(next, order);
    if k == 0 {
      var u := Unplaced(order, |preds|);
      AheadFrom(order, 0, u, |preds|);
    } else {
      SearchStays(preds, nPred, pp, next, order, k - 1);
      var n := Searched(nPred, pp, next, k - 1);
      AheadInside(order, n, |preds|);
      PlacedIff(next, order, n);
      if n in order {
        AheadNext(order, n, |preds|);
      } else if nPred[n] != 0 {
        FollowLive(preds, nPred, pp, order, n);
        AheadFrom(order, FirstLive(pp[n]), FirstLive(pp[n]), |preds|);
      }
    }
    var n := Searched(nPred, pp, next, k);
    AheadInside(order, n, |preds|);
    PlacedIff(next, order, n);
    if Stuck(preds, order) && n !in order {
      StuckWaits(preds, nPred, pp, order, n);
    }
  }

  lemma AheadFrom(order: seq<int>, n: int, u: int, size: nat)
    requires 0 <= n <= u < size && u !in order
    ensures Ahead(order, n, size)
  {
  }

  lemma AheadInside(order: seq<int>, n: int, size: nat)
    requires Ahead(order, n, size)
    ensures 0 <= n < size
  {
  }

  // ----- Placing an item

  /** The new tail is linked in and points at itself. */
  lemma LinkNext(next: seq<int>, order: seq<int>, n: nat)
    requires Linked(next, order) && n < |next| && n !in order
    ensures var next' := if order == [] then next else next[order[|order| - 1] := n];
      Linked(next'[n := n], order + [n])
  {
  }

  lemma RespectsNext(preds: Graph, order: seq<int>, n: nat)
    requires Selection(order, |preds|) && Respects(preds, order)
    requires n < |preds| && n !in order && preds[n] <= Elements(order)
    ensures Selection(order + [n], |preds|) && Respects(preds, order + [n])
  {
    var order' := order + [n];
    forall i, j | 0 <= i < |order'| && j in preds[order'[i]] ensures j in order'[..i] {
      assert order'[..i] == order[..i];
      if i == |order| {
        assert j in Elements(order);
      }
    }
  }

  lemma ForcedNext(preds: Graph, order: seq<int>, n: nat, path: seq<int>)
    requires Forced(preds, order) && Chain(preds, path) && path != [] && path[|path| - 1] == n
    requires AllBefore(order, path[0])
    ensures Forced(preds, order + [n])
  {
    var order' := order + [n];
    forall i, y | 0 <= i < |order'| && 0 <= y < order'[i] && y !in order'[..i]
      ensures exists z :: 0 <= z <= y && TransPred(preds, order'[i], z)
    {
      assert order'[..i] == order[..i];
      if i < |order| {
        assert order'[i] == order[i];
      } else {
        assert order[..i] == order;
        assert path[0] <= y < n;
        assert ChainBetween(preds, path, n, path[0]);
        assert TransPred(preds, order'[i], path[0]);
      }
    }
  }

  /** The slot that holds `x`, if there is one, is set to NULL. */
  method EraseRow(row: seq<int>, x: int) returns (row': seq<int>, found: bool)
    requires Row(row, |row|) && x != NIL
    ensures Row(row', |row|) && Live(row') == Live(row) - {x} && (found <==> x in Live(row))
    ensures forall k :: 0 <= k < |row| ==> row'[k] == if row[k] == x then NIL else row[k]
  {
    row', found := row, false;
    var k := 0;
    while k < |row|
      invariant 0 <= k <= |row| && x !in row[..k]
    {
      if row[k] == x {
        row', found := row[k := NIL], true;
        EraseSlot(row, k);
        return;
      }
      k := k + 1;
    }
  }

  lemma EraseSlot(row: seq<int>, k: nat)
    requires Row(row, |row|) && k < |row| && row[k] != NIL
    ensures Row(row[k := NIL], |row|) && Live(row[k := NIL]) == Live(row) - {row[k]} && row[k] in Live(row)
  {
    var row' := row[k := NIL];
    forall v | v in Live(row) - {row[k]} ensures v in Live(row') {
      var l :| 0 <= l < |row| && row[l] == v;
      assert row'[l] == v;
    }
    forall v | v in Live(row') ensures v in Live(row) - {row[k]} {
      var l :| 0 <= l < |row'| && row'[l] == v;
      assert row[l] == v;
    }
  }

  /** The slots are as they were, less the items placed. */
  predicate StruckRow(start: seq<int>, row: seq<int>, placed: seq<int>) {
    |row| == |start| && forall k :: 0 <= k < |row| ==> row[k] == if start[k] in placed then NIL else start[k]
  }

  predicate Struck(rows: seq<seq<int>>, pp: seq<seq<int>>, placed: seq<int>) {
    |pp| == |rows| && forall i :: 0 <= i < |rows| ==> StruckRow(rows[i], pp[i], placed)
  }

  lemma StruckNext(start: seq<int>, row: seq<int>, row': seq<int>, placed: seq<int>, n: int)
    requires StruckRow(start, row, placed) && |row'| == |row|
    requires forall k :: 0 <= k < |row| ==> row'[k] == if row[k] == n then NIL else row[k]
    ensures StruckRow(start, row', placed + [n])
  {
  }

  /** What the slots say is what the rows and the items placed say. */
  lemma {:induction false} FirstLiveStruck(start: seq<int>, row: seq<int>, placed: seq<int>)
    requires StruckRow(start, row, placed)
    ensures FirstLive(row) == FirstFree(start, placed)
  {
    if row != [] {
      FirstLiveStruck(start[1..], row[1..], placed);
    }
  }

  lemma NoneLive(row: seq<int>)
    ensures |Live(row)| == 0 <==> FirstLive(row) == NIL
  {
    if Live(row) == {} {
      NoneFirst(row);
    } else {
      FirstLiveIs(row);
    }
  }

  lemma {:induction false} NoneFirst(row: seq<int>)
    requires Live(row) == {}
    ensures FirstLive(row) == NIL
  {
    if row != [] {
      assert row[0] !in Live(row);
      forall v | v in Live(row[1..]) ensures v in Live(row) {
      }
      NoneFirst(row[1..]);
    }
  }

  /** The search of the slots is the search of the rows. */
  lemma {:induction false} SearchedWalk(preds: Graph, nPred: seq<int>, pp: seq<seq<int>>, next: seq<int>,
                                        order: seq<int>, rows: seq<seq<int>>, k: nat)
    requires Table(preds, nPred, pp, order) && |next| == |preds| && Linked(next, order) && Struck(rows, pp, order)
    requires |nPred| == |pp| == |next|
    ensures Searched(nPred, pp, next, k) == Walk(rows, order, k)
    ensures var n := Walk(rows, order, k); Ends(nPred, next, n) <==> Stops(rows, order, n)
  {
    hide Table, Linked, Live, StruckRow, FirstLive, FirstFree;
    if k > 0 {
      SearchedWalk(preds, nPred, pp, next, order, rows, k - 1);
      EndsStops(preds, nPred, pp, next, order, rows, Walk(rows, order, k - 1));
    }
    EndsStops(preds, nPred, pp, next, order, rows, Walk(rows, order, k));
  }

  lemma EndsStops(preds: Graph, nPred: seq<int>, pp: seq<seq<int>>, next: seq<int>, order: seq<int>,
                  rows: seq<seq<int>>, n: int)
    requires Table(preds, nPred, pp, order) && |next| == |preds| && Linked(next, order) && Struck(rows, pp, order)
    requires |nPred| == |pp| == |next| == |rows|
    ensures Ends(nPred, next, n) <==> Stops(rows, order, n)
    ensures 0 <= n < |next| ==>
      (next[n] != NIL <==> n in order) && FirstLive(pp[n]) == FirstFree(rows[n], order)
  {
    hide Table, Linked, Live, StruckRow, FirstLive, FirstFree;
    if 0 <= n < |next| {
      PlacedIff(next, order, n);
      FirstLiveStruck(rows[n], pp[n], order);
      Counted(preds, nPred, pp, order, n);
      NoneLive(pp[n]);
    }
  }

  lemma Counted(preds: Graph, nPred: seq<int>, pp: seq<seq<int>>, order: seq<int>, n: nat)
    requires Table(preds, nPred, pp, order) && n < |preds|
    ensures |nPred| == |pp| == |preds| && nPred[n] == |Live(pp[n])|
  {
  }

  /** The selection loop ends where the search of the rows does. */
  lemma SearchPicks(preds: Graph, nPred: seq<int>, pp: seq<seq<int>>, next: seq<int>, order: seq<int>,
                    rows: seq<seq<int>>, n: int, k: nat)
    requires Table(preds, nPred, pp, order) && |next| == |preds| && Linked(next, order) && Struck(rows, pp, order)
    requires |nPred| == |pp| == |next| && n == Searched(nPred, pp, next, k) && Ends(nPred, next, n)
    ensures Picks(rows, order, n)
  {
    hide Table, Linked, Struck, Searched, Walk, Ends, Stops;
    SearchedWalk(preds, nPred, pp, next, order, rows, k);
  }

  /** Row `i` is right for `placed`. */
  predicate RowOk(preds: Graph, nPred: seq<int>, pp: seq<seq<int>>, placed: seq<int>, i: int) {
    && 0 <= i < |preds| == |nPred| == |pp|
    && Row(pp[i], |preds|) && nPred[i] == |Live(pp[i])| && Live(pp[i]) == preds[i] - Elements(placed)
  }

  lemma RowErased(preds: Graph, nPred: seq<int>, pp: seq<seq<int>>, order: seq<int>, i: int, n: int, row: seq<int>,
                  found: bool)
    requires RowOk(preds, nPred, pp, order, i)
    requires Row(row, |preds|) && Live(row) == Live(pp[i]) - {n} && (found <==> n in Live(pp[i]))
    ensures var nPred' := if found then nPred[i := nPred[i] - 1] else nPred;
      RowOk(preds, nPred', pp[i := row], order + [n], i)
  {
    assert Elements(order + [n]) == Elements(order) + {n};
  }

  /** The item just placed is struck from every row. */
  method Erase(nPred: array<int>, pp: array<seq<int>>, n: int, ghost preds: Graph, ghost order: seq<int>,
               ghost rows: seq<seq<int>>)
    requires Table(preds, nPred[..], pp[..], order) && 0 <= n < |preds| && Struck(rows, pp[..], order)
    modifies nPred, pp
    ensures Table(preds, nPred[..], pp[..], order + [n]) && Struck(rows, pp[..], order + [n])
  {
    hide Table, Live, Row, Elements, RowOk, RowsOk, StruckRow;
    Sizes(preds, nPred[..], pp[..], order);
    TableRows(preds, nPred[..], pp[..], order, n);
    for i := 0 to pp.Length
      invariant nPred.Length == pp.Length == |preds|
      invariant RowsOk(preds, nPred[..], pp[..], order, i, |preds|)
      invariant RowsOk(preds, nPred[..], pp[..], order + [n], 0, i)
      invariant |rows| == |preds|
      invariant forall j :: 0 <= j < |rows| ==> StruckRow(rows[j], pp[j], if j < i then order + [n] else order)
    {
      ghost var nPred0, pp0 := nPred[..], pp[..];
      RowShape(preds, nPred0, pp0, order, i);
      var row, found := EraseRow(pp[i], n);
      EraseStep(preds, nPred0, pp0, order, i, n, row, found);
      StruckNext(rows[i], pp[i], row, order, n);
      if found {
        nPred[i] := nPred[i] - 1;
      }
      pp[i] := row;
      assert pp[..] == pp0[i := row];
      assert nPred[..] == if found then nPred0[i := nPred0[i] - 1] else nPred0;
    }
    RowsTable(preds, nPred[..], pp[..], order + [n]);
  }

  /** Rows lo to hi are right for `placed`. */
  predicate RowsOk(preds: Graph, nPred: seq<int>, pp: seq<seq<int>>, placed: seq<int>, lo: int, hi: int) {
    |nPred| == |pp| == |preds| && forall j :: lo <= j < hi ==> RowOk(preds, nPred, pp, placed, j)
  }

  /** One row more is done. */
  lemma EraseStep(preds: Graph, nPred: seq<int>, pp: seq<seq<int>>, order: seq<int>, i: nat, n: int, row: seq<int>,
                  found: bool)
    requires RowsOk(preds, nPred, pp, order, i, |preds|) && RowsOk(preds, nPred, pp, order + [n], 0, i) && i < |preds|
    requires Row(row, |preds|) && Live(row) == Live(pp[i]) - {n} && (found <==> n in Live(pp[i]))
    ensures var nPred' := if found then nPred[i := nPred[i] - 1] else nPred;
      && RowsOk(preds, nPred', pp[i := row], order, i + 1, |preds|)
      && RowsOk(preds, nPred', pp[i := row], order + [n], 0, i + 1)
  {
    hide RowOk, Row, Live, Elements;
    var nPred', pp' := if found then nPred[i := nPred[i] - 1] else nPred, pp[i := row];
    RowErased(preds, nPred, pp, order, i, n, row, found);
    forall j | i < j < |preds| ensures RowOk(preds, nPred', pp', order, j) {
      RowKept(preds, nPred, pp, nPred', pp', order, j);
    }
    forall j | 0 <= j < i ensures RowOk(preds, nPred', pp', order + [n], j) {
      RowKept(preds, nPred, pp, nPred', pp', order + [n], j);
    }
  }

  lemma TableRows(preds: Graph, nPred: seq<int>, pp: seq<seq<int>>, placed: seq<int>, n: int)
    requires Table(preds, nPred, pp, placed)
    ensures RowsOk(preds, nPred, pp, placed, 0, |preds|) && RowsOk(preds, nPred, pp, placed + [n], 0, 0)
  {
  }

  lemma RowsTable(preds: Graph, nPred: seq<int>, pp: seq<seq<int>>, placed: seq<int>)
    requires RowsOk(preds, nPred, pp, placed, 0, |preds|)
    ensures Table(preds, nPred, pp, placed)
  {
    hide Row, Live, Elements;
    forall i | 0 <= i < |preds|
      ensures Row(pp[i], |preds|) && nPred[i] == |Live(pp[i])| && Live(pp[i]) == preds[i] - Elements(placed)
    {
      assert RowOk(preds, nPred, pp, placed, i);
    }
  }

  lemma RowShape(preds: Graph, nPred: seq<int>, pp: seq<seq<int>>, placed: seq<int>, i: int)
    requires RowsOk(preds, nPred, pp, placed, i, |preds|) && 0 <= i < |preds|
    ensures |pp[i]| == |preds| && Row(pp[i], |pp[i]|)
  {
    assert RowOk(preds, nPred, pp, placed, i);
  }

  lemma RowKept(preds: Graph, nPred: seq<int>, pp: seq<seq<int>>, nPred': seq<int>, pp': seq<seq<int>>,
                placed: seq<int>, i: int)
    requires RowOk(preds, nPred, pp, placed, i) && |nPred'| == |pp'| == |preds|
    requires nPred'[i] == nPred[i] && pp'[i] == pp[i]
    ensures RowOk(preds, nPred', pp', placed, i)
  {
  }

  /** The list that starts at `head` is `order`. */
  predicate ListOf(next: seq<int>, head: int, order: seq<int>) {
    && Selection(order, |next|)
    && head == (if order == [] then NIL else order[0])
    && (forall j :: 0 <= j < |order| - 1 ==> next[order[j]] == order[j + 1])
    && (order != [] ==> next[order[|order| - 1]] == NIL)
  }

  lemma Unfudged(next: seq<int>, order: seq<int>)
    requires Linked(next, order)
    ensures var next' := if order == [] then next else next[order[|order| - 1] := NIL];
      ListOf(next', if order == [] then NIL else order[0], order)
  {
  }

  method Tsort(nPred: array<int>, pp: array<seq<int>>, next: array<int>, ghost preds: Graph)
    returns (head: int, ghost order: seq<int>)
    requires nPred != next && next.Length == |preds| && WellFormed(preds) && Acyclic(preds)
    requires Table(preds, nPred[..], pp[..], []) && forall i :: 0 <= i < next.Length ==> next[i] == NIL
    modifies nPred, pp, next
    ensures ListOf(next[..], head, order)
    ensures |order| == |preds| && Selection(order, |preds|) && Respects(preds, order) && Forced(preds, order)
    ensures Chosen(old(pp[..]), order)
  {
    hide Table, Row, Live, Linked, Respects, Forced, Elements, Acyclic, WellFormed, Chain, Struck, Chosen, Picks,
         Searched, Ends;
    ghost var rows := pp[..];
    order, head := [], NIL;
    var tail := NIL;
    StartEmpty(next[..], preds, rows);
    for total := 0 to next.Length
      invariant nPred != next && next.Length == |preds| && |order| == total && Selection(order, |preds|)
      invariant Table(preds, nPred[..], pp[..], order) && Linked(next[..], order)
      invariant Respects(preds, order) && Forced(preds, order)
      invariant Struck(rows, pp[..], order) && Chosen(rows, order)
      invariant head == (if order == [] then NIL else order[0])
      invariant tail == (if order == [] then NIL else order[|order| - 1])
    {
      ghost var next0 := next[..];
      var n, path, k := Select(nPred, pp, next, preds, order);
      SearchPicks(preds, nPred[..], pp[..], next0, order, rows, n, k);
      ChosenNext(rows, order, n);
      RespectsNext(preds, order, n);
      ForcedNext(preds, order, n, path);
      LinkNext(next0, order, n);
      if tail != NIL {
        next[tail] := n;
      } else {
        head := n;
      }
      tail := n;
      next[tail] := tail;
      assert next[..] == (if order == [] then next0 else next0[order[|order| - 1] := n])[n := n];
      Erase(nPred, pp, n, preds, order, rows);
      order := order + [n];
    }
    Unfudged(next[..], order);
    ghost var next1 := next[..];
    if tail != NIL {
      next[tail] := NIL;
    }
    assert next[..] == if order == [] then next1 else next1[order[|order| - 1] := NIL];
  }

  lemma StartEmpty(next: seq<int>, preds: Graph, rows: seq<seq<int>>)
    requires forall i :: 0 <= i < |next| ==> next[i] == NIL
    ensures Linked(next, []) && Respects(preds, []) && Forced(preds, [])
    ensures Struck(rows, rows, []) && Chosen(rows, [])
  {
  }
}
