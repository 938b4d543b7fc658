/**
  prepare and sort_hook (hooks/apr_hooks.c): from the names hooks give of
  each other to rows of predecessors, and the whole sort.
*/
module HookPrepare {
  import opened HookOrder
  import opened HookSearch
  import opened Hooks

  /** TSortData: what a hook says about itself. */
  datatype Hook = Hook(id: nat, name: string, preds: seq<string>, succs: seq<string>, order: int)

  /** The first item of that name, or NIL. */
  function Find(items: seq<Hook>, name: string): (k: int)
    ensures k == NIL ==> forall i :: 0 <= i < |items| ==> items[i].name != name
    ensures k != NIL ==> 0 <= k < |items| && items[k].name == name && forall i :: 0 <= i < k ==> items[i].name != name
  {
    FindFrom(items, name, 0)
  }

  function FindFrom(items: seq<Hook>, name: string, from: nat): (k: int)
    requires from <= |items| && forall i :: 0 <= i < from ==> items[i].name != name
    ensures k == NIL ==> forall i :: 0 <= i < |items| ==> items[i].name != name
    ensures k != NIL ==> 0 <= k < |items| && items[k].name == name && forall i :: 0 <= i < k ==> items[i].name != name
    decreases |items| - from
  {
    if from == |items| then NIL
    else if items[from].name == name then from
    else FindFrom(items, name, from + 1)
  }

  /** One of the names is found at `j`. */
  predicate Names(items: seq<Hook>, names: seq<string>, j: int) {
    exists q :: 0 <= q < |names| && Find(items, names[q]) == j
  }

  /** Item `m` asks for `j` to come before `i`. */
  predicate Asks(items: seq<Hook>, m: int, j: int, i: int) {
    && 0 <= m < |items|
    && ((m == i && Names(items, items[m].preds, j)) || (m == j && Names(items, items[m].succs, i)))
  }

  /** Some item asks for `j` to come before `i`. */
  predicate Edge(items: seq<Hook>, j: int, i: int) {
    exists m :: 0 <= m < |items| && Asks(items, m, j, i)
  }

  /** What the items want, as a graph. */
  ghost function Wanted(items: seq<Hook>): Graph {
    seq(|items|, i => set j | 0 <= j < |items| && Edge(items, j, i))
  }

  // ----- The requests, in the order prepare meets them

  /** The items found under the names, in turn. */
  function Found(items: seq<Hook>, names: seq<string>): seq<int>
    decreases |names|
  {
    if names == [] then []
    else
      var k := Find(items, names[|names| - 1]);
      Found(items, names[..|names| - 1]) + if k == NIL then [] else [k]
  }

  /** `m`, once for every name under which `i` is found. */
  function Naming(items: seq<Hook>, names: seq<string>, m: int, i: int): seq<int>
    decreases |names|
  {
    if names == [] then []
    else Naming(items, names[..|names| - 1], m, i) + if Find(items, names[|names| - 1]) == i then [m] else []
  }

  /** What item `m`'s first `a` predecessors and first `b` successors ask to put before item `i`. */
  function OfItem(items: seq<Hook>, i: int, m: nat, a: nat, b: nat): seq<int>
    requires m < |items| && a <= |items[m].preds| && b <= |items[m].succs|
  {
    (if m == i then Found(items, items[m].preds[..a]) else []) + Naming(items, items[m].succs[..b], m, i)
  }

  /** What the first `n` items ask to put before item `i`. */
  function Requests(items: seq<Hook>, i: int, n: nat): seq<int>
    requires n <= |items|
  {
    if n == 0 then []
    else Requests(items, i, n - 1) + OfItem(items, i, n - 1, |items[n - 1].preds|, |items[n - 1].succs|)
  }

  /** A predecessor is recorded once, where it was first asked for. */
  function AddTo(list: seq<int>, j: int): seq<int> {
    if j in list then list else list + [j]
  }

  function Distinct(s: seq<int>): seq<int> {
    if s == [] then [] else AddTo(Distinct(s[..|s| - 1]), s[|s| - 1])
  }

  lemma {:induction false} DistinctElements(s: seq<int>, x: int)
    ensures x in Distinct(s) <==> x in s
  {
    if s != [] {
      DistinctElements(s[..|s| - 1], x);
      assert s == s[..|s| - 1] + [s[|s| - 1]];
    }
  }

  lemma {:induction false} DistinctOnce(s: seq<int>)
    ensures forall k, l :: 0 <= k < l < |Distinct(s)| ==> Distinct(s)[k] != Distinct(s)[l]
  {
    if s != [] {
      DistinctOnce(s[..|s| - 1]);
    }
  }

  /** The predecessors of item `i`, in the order of its slots. */
  function Listed(items: seq<Hook>, i: int): seq<int> {
    Distinct(Requests(items, i, |items|))
  }

  /** The list in `n` slots. */
  function Padded(list: seq<int>, n: nat): (row: seq<int>)
    requires |list| <= n
    ensures |row| == n
  {
    list + seq(n - |list|, k => NIL)
  }

  lemma NamesLast(items: seq<Hook>, names: seq<string>, j: int)
    requires names != []
    ensures var m := |names| - 1; Names(items, names, j) <==> Names(items, names[..m], j) || Find(items, names[m]) == j
  {
    hide Find;
    var m := |names| - 1;
    if Names(items, names[..m], j) {
      var q :| 0 <= q < m && Find(items, names[..m][q]) == j;
      assert names[..m][q] == names[q];
    }
    if Names(items, names, j) {
      var q :| 0 <= q < |names| && Find(items, names[q]) == j;
      assert q < m ==> names[..m][q] == names[q];
    }
  }

  lemma {:induction false} FoundAll(items: seq<Hook>, names: seq<string>, j: int)
    ensures j in Found(items, names) <==> j != NIL && Names(items, names, j)
    decreases |names|
  {
    hide Find, Names;
    if names == [] {
      NamesNone(items, j);
    } else {
      FoundAll(items, names[..|names| - 1], j);
      NamesLast(items, names, j);
    }
  }

  lemma NamesNone(items: seq<Hook>, j: int)
    ensures !Names(items, [], j)
  {
  }

  lemma {:induction false} NamingAll(items: seq<Hook>, names: seq<string>, m: int, i: int, j: int)
    ensures j in Naming(items, names, m, i) <==> j == m && Names(items, names, i)
    decreases |names|
  {
    hide Find, Names;
    if names == [] {
      NamesNone(items, i);
    } else {
      NamingAll(items, names[..|names| - 1], m, i, j);
      NamesLast(items, names, i);
    }
  }

  lemma AskedByItem(items: seq<Hook>, i: int, m: nat, j: int)
    requires m < |items|
    ensures j in OfItem(items, i, m, |items[m].preds|, |items[m].succs|) <==> j != NIL && Asks(items, m, j, i)
  {
    hide Find;
    assert items[m].preds[..|items[m].preds|] == items[m].preds;
    assert items[m].succs[..|items[m].succs|] == items[m].succs;
    FoundAll(items, items[m].preds, j);
    NamingAll(items, items[m].succs, m, i, j);
  }

  lemma {:induction false} Requested(items: seq<Hook>, i: int, n: nat, j: int)
    requires n <= |items|
    ensures j in Requests(items, i, n) <==> j != NIL && exists m :: 0 <= m < n && Asks(items, m, j, i)
  {
    hide Asks, OfItem;
    if n > 0 {
      Requested(items, i, n - 1, j);
      AskedByItem(items, i, n - 1, j);
    }
  }

  /** The slots hold exactly what the items want. */
  lemma ListedWanted(items: seq<Hook>, i: nat, j: int)
    requires i < |items|
    ensures j in Listed(items, i) <==> j in Wanted(items)[i]
  {
    hide Asks, Requests, Distinct;
    DistinctElements(Requests(items, i, |items|), j);
    Requested(items, i, |items|, j);
    AskedIsItem(items, i, j);
  }

  /** Every list names each item at most once, so it fits its row. */
  lemma ListedFits(items: seq<Hook>, i: nat)
    requires i < |items|
    ensures Selection(Listed(items, i), |items|) && |Listed(items, i)| <= |items|
  {
    hide Requests, Distinct, Edge;
    DistinctOnce(Requests(items, i, |items|));
    forall k | 0 <= k < |Listed(items, i)| ensures 0 <= Listed(items, i)[k] < |items| {
      ListedWanted(items, i, Listed(items, i)[k]);
    }
    SelectionBound(Listed(items, i), |items|);
  }

  lemma AskedIsItem(items: seq<Hook>, i: int, j: int)
    ensures j != NIL && Edge(items, j, i) ==> 0 <= j < |items|
  {
  }

  // ----- One row

  lemma AddKeeps(list: seq<int>, j: int, n: nat)
    requires Selection(list, n) && 0 <= j < n
    ensures Selection(AddTo(list, j), n)
  {
  }

  /** Add a predecessor unless it is there already; there is a slot for it. */
  method AddToRow(row: seq<int>, count: nat, j: int, ghost list: seq<int>) returns (row': seq<int>, count': nat)
    requires Selection(list, |row|) && count == |list| <= |row| && row == Padded(list, |row|) && 0 <= j < |row|
    ensures Selection(AddTo(list, j), |row|) && count' == |AddTo(list, j)| <= |row|
    ensures row' == Padded(AddTo(list, j), |row|)
  {
    AddKeeps(list, j, |row|);
    SelectionBound(AddTo(list, j), |row|);
    var l := 0;
    while l < count
      invariant 0 <= l <= count && j !in list[..l]
    {
      assert row[l] == list[l];
      if row[l] == j {
        return row, count;
      }
      l := l + 1;
    }
    assert list[..count] == list;
    assert row[count := j] == Padded(list + [j], |row|);
    return row[count := j], count + 1;
  }

  // ----- The whole table

  /** Row `i` holds `lists[i]` in its first slots, and nothing after. */
  predicate Filled(lists: seq<seq<int>>, nPred: seq<int>, pp: seq<seq<int>>) {
    && |nPred| == |pp| == |lists|
    && forall i :: 0 <= i < |lists| ==> RowFilled(lists[i], nPred[i], pp[i], |lists|)
  }

  predicate RowFilled(list: seq<int>, count: int, row: seq<int>, n: nat) {
    Selection(list, n) && count == |list| <= n && row == Padded(list, n)
  }

  method AddPred(nPred: array<int>, pp: array<seq<int>>, i: int, j: int, ghost lists: seq<seq<int>>)
    requires Filled(lists, nPred[..], pp[..]) && 0 <= i < |lists| && 0 <= j < |lists|
    modifies nPred, pp
    ensures Filled(lists[i := AddTo(lists[i], j)], nPred[..], pp[..])
  {
    hide AddTo, Padded, Selection;
    ghost var nPred0, pp0 := nPred[..], pp[..];
    assert RowFilled(lists[i], nPred0[i], pp0[i], |lists|);
    var row, count := AddToRow(pp[i], nPred[i], j, lists[i]);
    assert RowFilled(AddTo(lists[i], j), count, row, |lists|);
    hide RowFilled;
    nPred[i] := count;
    pp[i] := row;
    assert nPred[..] == nPred0[i := count] && pp[..] == pp0[i := row];
  }

  // ----- prepare

  /** The lists after the items before `n` and so much of item `n`. */
  ghost predicate SoFar(items: seq<Hook>, lists: seq<seq<int>>, n: nat, a: nat, b: nat)
    requires n < |items| && a <= |items[n].preds| && b <= |items[n].succs|
  {
    && |lists| == |items|
    && forall i :: 0 <= i < |items| ==> lists[i] == Distinct(Requests(items, i, n) + OfItem(items, i, n, a, b))
  }

  /** The lists after the items before `n`. */
  ghost predicate After(items: seq<Hook>, lists: seq<seq<int>>, n: nat)
    requires n <= |items|
  {
    |lists| == |items| && forall i :: 0 <= i < |items| ==> lists[i] == Distinct(Requests(items, i, n))
  }

  lemma DistinctNext(s: seq<int>, j: int)
    ensures Distinct(s + [j]) == AddTo(Distinct(s), j)
  {
    assert (s + [j])[..|s|] == s;
  }

  lemma StartItem(items: seq<Hook>, lists: seq<seq<int>>, n: nat)
    requires n < |items| && After(items, lists, n)
    ensures SoFar(items, lists, n, 0, 0)
  {
    hide Distinct, Requests;
    forall i | 0 <= i < |items| ensures OfItem(items, i, n, 0, 0) == [] {
    }
    forall i | 0 <= i < |items| ensures Requests(items, i, n) + [] == Requests(items, i, n) {
    }
  }

  /** One request more for item `k`'s row. */
  lemma Grown(items: seq<Hook>, lists: seq<seq<int>>, k: nat, n: nat, x: seq<int>, j: int)
    requires k < |lists| && n <= |items| && lists[k] == Distinct(Requests(items, k, n) + x)
    ensures AddTo(lists[k], j) == Distinct(Requests(items, k, n) + (x + [j]))
  {
    hide Requests, Distinct;
    DistinctNext(Requests(items, k, n) + x, j);
    assert Requests(items, k, n) + (x + [j]) == Requests(items, k, n) + x + [j];
  }

  lemma OfItemPred(items: seq<Hook>, i: int, n: nat, a: nat)
    requires n < |items| && a < |items[n].preds|
    ensures var k := Find(items, items[n].preds[a]);
      OfItem(items, i, n, a + 1, 0) == if i == n && k != NIL then OfItem(items, i, n, a, 0) + [k]
                                       else OfItem(items, i, n, a, 0)
  {
    hide Find;
    assert items[n].preds[..a + 1][..a] == items[n].preds[..a];
  }

  lemma OfItemSucc(items: seq<Hook>, i: int, n: nat, b: nat)
    requires n < |items| && b < |items[n].succs|
    ensures var k, a := Find(items, items[n].succs[b]), |items[n].preds|;
      OfItem(items, i, n, a, b + 1) == if i == k then OfItem(items, i, n, a, b) + [n] else OfItem(items, i, n, a, b)
  {
    hide Find, Found;
    assert items[n].succs[..b + 1][..b] == items[n].succs[..b];
  }

  lemma NextPred(items: seq<Hook>, lists: seq<seq<int>>, n: nat, a: nat)
    requires n < |items| && a < |items[n].preds| && SoFar(items, lists, n, a, 0)
    ensures var k := Find(items, items[n].preds[a]);
      SoFar(items, if k == NIL then lists else lists[n := AddTo(lists[n], k)], n, a + 1, 0)
  {
    hide Find, Requests, Distinct, AddTo, OfItem;
    Grown(items, lists, n, n, OfItem(items, n, n, a, 0), Find(items, items[n].preds[a]));
    forall i {
      OfItemPred(items, i, n, a);
    }
  }

  lemma NextSucc(items: seq<Hook>, lists: seq<seq<int>>, n: nat, b: nat)
    requires n < |items| && b < |items[n].succs| && SoFar(items, lists, n, |items[n].preds|, b)
    ensures var k := Find(items, items[n].succs[b]);
      SoFar(items, if k == NIL then lists else lists[k := AddTo(lists[k], n)], n, |items[n].preds|, b + 1)
  {
    var k, a := Find(items, items[n].succs[b]), |items[n].preds|;
    hide Find, Requests, Distinct, AddTo, OfItem;
    if k != NIL {
      Grown(items, lists, k, n, OfItem(items, k, n, a, b), n);
    }
    forall i {
      OfItemSucc(items, i, n, b);
    }
  }

  lemma NextItem(items: seq<Hook>, lists: seq<seq<int>>, n: nat)
    requires n < |items| && SoFar(items, lists, n, |items[n].preds|, |items[n].succs|)
    ensures After(items, lists, n + 1)
  {
    hide Distinct, OfItem;
  }

  lemma StartLists(items: seq<Hook>)
    ensures Filled(seq(|items|, i => []), seq(|items|, i => 0), seq(|items|, i => seq(|items|, k => NIL)))
    ensures After(items, seq(|items|, i => []), 0)
  {
    var n := |items|;
    assert Padded([], n) == seq(n, k => NIL);
  }

  /** The loop over `k` that looks for a name. */
  method FindItem(items: seq<Hook>, name: string) returns (k: int)
    ensures k == Find(items, name)
  {
    k := 0;
    while k < |items|
      invariant 0 <= k <= |items|
      invariant forall i :: 0 <= i < k ==> items[i].name != name
    {
      if items[k].name == name {
        return;
      }
      k := k + 1;
    }
    k := NIL;
  }

  /** The rows as prepare leaves them. */
  function Rows(items: seq<Hook>): (rows: seq<seq<int>>)
    ensures |rows| == |items|
  {
    seq(|items|, i requires 0 <= i < |items| => RowOf(items, i))
  }

  /** One row: the item's predecessors, each once, as they were first asked for. */
  function RowOf(items: seq<Hook>, i: nat): seq<int>
    requires i < |items|
  {
    ListedFits(items, i);
    Padded(Listed(items, i), |items|)
  }

  /** prepare, after its call of qsort. */
  method Prepare(items: seq<Hook>) returns (nPred: array<int>, pp: array<seq<int>>, next: array<int>)
    ensures fresh(nPred) && fresh(pp) && fresh(next) && nPred != next && next.Length == |items|
    ensures Table(Wanted(items), nPred[..], pp[..], []) && forall i :: 0 <= i < next.Length ==> next[i] == NIL
    ensures pp[..] == Rows(items)
  {
    hide Filled, After, Wanted, Find, Table, Rows;
    nPred := new int[|items|](i => 0);
    pp := new seq<int>[|items|](i => seq(|items|, k => NIL));
    next := new int[|items|](i => NIL);
    ghost var lists: seq<seq<int>> := seq(|items|, i => []);
    StartLists(items);
    assert nPred[..] == seq(|items|, i => 0) && pp[..] == seq(|items|, i => seq(|items|, k => NIL));
    for n := 0 to |items|
      invariant fresh(nPred) && fresh(pp) && fresh(next) && nPred != next
      invariant |lists| == |items| && Filled(lists, nPred[..], pp[..]) && After(items, lists, n)
      invariant forall i :: 0 <= i < next.Length ==> next[i] == NIL
    {
      lists := PrepareItem(nPred, pp, items, n, lists);
    }
    AllFilled(items, lists, nPred[..], pp[..]);
  }

  /** What one item says about itself is recorded. */
  method PrepareItem(nPred: array<int>, pp: array<seq<int>>, items: seq<Hook>, n: nat, ghost lists: seq<seq<int>>)
    returns (ghost lists': seq<seq<int>>)
    requires n < |items| == |lists| && Filled(lists, nPred[..], pp[..]) && After(items, lists, n)
    modifies nPred, pp
    ensures |lists'| == |items| && Filled(lists', nPred[..], pp[..]) && After(items, lists', n + 1)
  {
    hide Filled, SoFar, After, Find;
    lists' := lists;
    StartItem(items, lists, n);
    for i := 0 to |items[n].preds|
      invariant |lists'| == |items| && Filled(lists', nPred[..], pp[..]) && SoFar(items, lists', n, i, 0)
    {
      NextPred(items, lists', n, i);
      var k := FindItem(items, items[n].preds[i]);
      if k != NIL {
        AddPred(nPred, pp, n, k, lists');
        lists' := lists'[n := AddTo(lists'[n], k)];
      }
    }
    for i := 0 to |items[n].succs|
      invariant |lists'| == |items| && Filled(lists', nPred[..], pp[..])
      invariant SoFar(items, lists', n, |items[n].preds|, i)
    {
      NextSucc(items, lists', n, i);
      var k := FindItem(items, items[n].succs[i]);
      if k != NIL {
        AddPred(nPred, pp, k, n, lists');
        lists' := lists'[k := AddTo(lists'[k], n)];
      }
    }
    NextItem(items, lists', n);
  }

  lemma AllFilled(items: seq<Hook>, lists: seq<seq<int>>, nPred: seq<int>, pp: seq<seq<int>>)
    requires Filled(lists, nPred, pp) && After(items, lists, |items|)
    ensures Table(Wanted(items), nPred, pp, []) && pp == Rows(items)
  {
    hide Distinct, Requests, Row, Live, Selection, Padded, Wanted, Elements;
    WantedShape(items);
    forall i | 0 <= i < |items|
      ensures RowFilled(Listed(items, i), nPred[i], pp[i], |items|) && lists[i] == Listed(items, i)
    {
      assert RowFilled(lists[i], nPred[i], pp[i], |lists|);
    }
    hide Listed;
    forall i | 0 <= i < |items|
      ensures Row(pp[i], |items|) && nPred[i] == |Live(pp[i])| && Live(pp[i]) == Wanted(items)[i] - Elements([])
    {
      PaddedRow(Listed(items, i), |items|);
      forall j ensures j in Listed(items, i) <==> j in Wanted(items)[i] {
        ListedWanted(items, i, j);
      }
      NoneStruck(Live(pp[i]), Wanted(items)[i], Listed(items, i));
    }
  }

  lemma NoneStruck(live: set<int>, wanted: set<int>, list: seq<int>)
    requires live == Elements(list) && forall j :: j in list <==> j in wanted
    ensures live == wanted - Elements([])
  {
    forall v ensures v in live <==> v in wanted {
      assert v in list <==> v in Elements(list);
    }
  }

  lemma PaddedRow(list: seq<int>, n: nat)
    requires Selection(list, n) && |list| <= n
    ensures Row(Padded(list, n), n) && Live(Padded(list, n)) == Elements(list) && |Live(Padded(list, n))| == |list|
  {
    var row := Padded(list, n);
    forall v | v in Elements(list) ensures v in Live(row) {
      var k :| 0 <= k < |list| && list[k] == v;
      assert row[k] == v;
    }
    DistinctSize(list);
    assert Elements(list) == set i | 0 <= i < |list| :: list[i];
  }

  // ----- sort_hook

  /** The items of `sorted` in the order given. */
  function Picked(sorted: seq<Hook>, order: seq<int>): seq<Hook>
    requires Selection(order, |sorted|)
  {
    seq(|order|, i requires 0 <= i < |order| => sorted[order[i]])
  }

  /** `order` takes every item once, predecessors first, and departs from the given sequence only where forced. */
  ghost predicate Arrangement(sorted: seq<Hook>, order: seq<int>) {
    && |order| == |sorted| == |Wanted(sorted)| && Selection(order, |sorted|)
    && Respects(Wanted(sorted), order) && Forced(Wanted(sorted), order) && Chosen(Rows(sorted), order)
  }

  /** What qsort with crude_order leaves behind. */
  predicate Ascending(items: seq<Hook>) {
    forall i, j :: 0 <= i < j < |items| ==> items[i].order <= items[j].order
  }

  /**
    A hook placed before one of smaller order number is a transitive
    predecessor of that one, or of one sorted before it.
  */
  ghost predicate NumbersKept(sorted: seq<Hook>, order: seq<int>)
    requires Selection(order, |sorted|)
  {
    forall i, j :: 0 <= i < j < |order| && sorted[order[i]].order > sorted[order[j]].order ==>
      exists z :: 0 <= z <= order[j] && TransPred(Wanted(sorted), order[i], z)
  }

  lemma ForcedNumbers(sorted: seq<Hook>, order: seq<int>)
    requires Ascending(sorted) && Arrangement(sorted, order)
    ensures NumbersKept(sorted, order)
  {
    hide Wanted, TransPred, Respects;
    forall i, j | 0 <= i < j < |order| && sorted[order[i]].order > sorted[order[j]].order
      ensures exists z :: 0 <= z <= order[j] && TransPred(Wanted(sorted), order[i], z)
    {
      var y := order[j];
      assert y < order[i];
      assert y !in order[..i];
    }
  }

  /** `result` is `sorted`, rearranged like that. */
  ghost predicate Arranged(sorted: seq<Hook>, result: seq<Hook>) {
    exists order :: Arrangement(sorted, order) && NumbersKept(sorted, order) && result == Picked(sorted, order)
  }

  /** No hook is lost or doubled. */
  lemma ArrangedPermutes(sorted: seq<Hook>, result: seq<Hook>)
    requires Arranged(sorted, result)
    ensures multiset(result) == multiset(sorted)
  {
    var order :| Arrangement(sorted, order) && result == Picked(sorted, order);
    hide Respects, Forced, Wanted;
    PickedPermutes(sorted, order);
  }

  lemma {:induction false} PickedPermutes(items: seq<Hook>, order: seq<int>)
    requires Selection(order, |items|) && |order| == |items|
    ensures multiset(Picked(items, order)) == multiset(items)
    decreases |items|
  {
    if items != [] {
      hide Selection, Picked;
      var m := |items| - 1;
      var p := Position(order, |items|, m);
      PickedAround(items, order, p);
      PickedPermutes(items[..m], order[..p] + order[p + 1..]);
      var x, y := Picked(items, order[..p]), Picked(items, order[p + 1..]);
      calc {
        multiset(Picked(items, order));
        multiset(x + [items[m]] + y);
        { Middle(x, items[m], y, items[..m]); }
        multiset(items[..m] + [items[m]]);
        { assert items == items[..m] + [items[m]]; }
        multiset(items);
      }
    }
  }

  /** Where an item was picked. */
  lemma Position(order: seq<int>, n: nat, x: int) returns (p: nat)
    requires Selection(order, n) && |order| == n && 0 <= x < n
    ensures p < |order| && order[p] == x
  {
    SelectionFull(order, n);
    assert x in order;
    p :| 0 <= p < |order| && order[p] == x;
  }

  lemma Middle(x: seq<Hook>, h: Hook, y: seq<Hook>, rest: seq<Hook>)
    requires multiset(x + y) == multiset(rest)
    ensures multiset(x + [h] + y) == multiset(rest + [h])
  {
    assert multiset(x + [h] + y) == multiset(x) + multiset{h} + multiset(y);
    assert multiset(x + y) == multiset(x) + multiset(y);
  }

  /** The last item taken out, wherever it was picked. */
  lemma PickedAround(items: seq<Hook>, order: seq<int>, p: nat)
    requires Selection(order, |items|) && p < |order| && order[p] == |items| - 1
    ensures Selection(order[..p], |items|) && Selection(order[p + 1..], |items|)
    ensures Selection(order[..p] + order[p + 1..], |items| - 1)
    ensures Picked(items, order) == Picked(items, order[..p]) + [items[|items| - 1]] + Picked(items, order[p + 1..])
    ensures Picked(items[..|items| - 1], order[..p] + order[p + 1..])
         == Picked(items, order[..p]) + Picked(items, order[p + 1..])
  {
    var before, after := order[..p], order[p + 1..];
    var rest := before + after;
    assert forall i :: 0 <= i < |rest| ==> rest[i] == order[if i < p then i else i + 1];
    assert Selection(rest, |items| - 1);
  }

  /** sort_hook; `sorted` is what qsort made of the registered hooks. */
  method SortHook(sorted: seq<Hook>) returns (result: seq<Hook>)
    requires Ascending(sorted) && Acyclic(Wanted(sorted))
    ensures Arranged(sorted, result)
  {
    hide Table, Acyclic, Respects, Forced, Wanted, Ascending, NumbersKept, Chosen, Rows;
    WantedShape(sorted);
    var nPred, pp, next := Prepare(sorted);
    var p, order := Tsort(nPred, pp, next, Wanted(sorted));
    result := [];
    while p != NIL
      invariant |result| <= |order|
      invariant p == (if |result| == |order| then NIL else order[|result|])
      invariant result == Picked(sorted, order)[..|result|]
      decreases |order| - |result|
    {
      result := result + [sorted[p]];
      p := next[p];
    }
    assert Arrangement(sorted, order);
    ForcedNumbers(sorted, order);
  }

  lemma WantedShape(items: seq<Hook>)
    ensures |Wanted(items)| == |items| && WellFormed(Wanted(items))
  {
  }

  // ----- The order is fixed

  /** What the hooks say of themselves leaves sort_hook one result. */
  lemma ArrangedUnique(sorted: seq<Hook>, result: seq<Hook>, result': seq<Hook>)
    requires Arranged(sorted, result) && Arranged(sorted, result')
    ensures result == result'
  {
    hide Respects, Forced, Wanted, Chosen, NumbersKept, Rows, Selection;
    var order :| Arrangement(sorted, order) && result == Picked(sorted, order);
    var order' :| Arrangement(sorted, order') && result' == Picked(sorted, order');
    ChosenUnique(Rows(sorted), order, order');
  }

  lemma RowAt(items: seq<Hook>, i: nat, k: nat)
    requires i < |items| && k < |items|
    ensures Rows(items)[i] == RowOf(items, i) && |RowOf(items, i)| == |items| && |Listed(items, i)| <= |items|
    ensures RowOf(items, i)[k] == if k < |Listed(items, i)| then Listed(items, i)[k] else NIL
  {
    hide Listed;
    ListedFits(items, i);
  }

  /** A row lists what its item wants. */
  lemma RowLists(items: seq<Hook>, i: nat, j: int)
    requires i < |items|
    ensures j in RowOf(items, i) && j != NIL <==> j in Wanted(items)[i]
  {
    hide Listed, Wanted;
    ListedFits(items, i);
    ListedWanted(items, i, j);
    var list, row := Listed(items, i), RowOf(items, i);
    if j in list {
      var k :| 0 <= k < |list| && list[k] == j;
      assert row[k] == j;
    }
  }

  /** `sort_hook`'s order is one the search over prepare's rows chooses. */
  lemma ArrangementSorted(sorted: seq<Hook>, order: seq<int>)
    requires Arrangement(sorted, order)
    ensures Sorted(Rows(sorted), Wanted(sorted), order)
  {
    var rows, preds := Rows(sorted), Wanted(sorted);
    hide Respects, Forced, Chosen, Wanted, RowOf, Rows, Selection, Listed;
    forall i, j | 0 <= i < |rows| ensures j in preds[i] <==> j in rows[i] && j != NIL {
      RowAt(sorted, i, 0);
      RowLists(sorted, i, j);
    }
    forall i, k | 0 <= i < |rows| && 0 <= k < |rows[i]| ensures rows[i][k] == NIL || 0 <= rows[i][k] < |rows| {
      RowAt(sorted, i, 0);
      RowAt(sorted, i, k);
      ListedItem(sorted, i, k);
    }
  }

  lemma ListedItem(items: seq<Hook>, i: nat, k: nat)
    requires i < |items|
    ensures k < |Listed(items, i)| ==> 0 <= Listed(items, i)[k] < |items|
  {
    hide Listed;
    ListedFits(items, i);
  }

  /** `x` is wanted by `a` and by no other item. */
  ghost predicate WantedOnlyBy(items: seq<Hook>, a: int, x: int) {
    && |Wanted(items)| == |items| && 0 <= a < |items| && x in Wanted(items)[a]
    && forall i :: 0 <= i < |items| && i != a ==> x !in Wanted(items)[i]
  }

  lemma OnlyInRow(items: seq<Hook>, a: nat, x: int)
    requires WantedOnlyBy(items, a, x) && 0 <= x < |items|
    ensures OnlyIn(Rows(items), a, x)
  {
    hide Wanted, RowOf, Rows;
    forall i | 0 <= i < |items| && i != a ensures x !in Rows(items)[i] {
      RowAt(items, i, 0);
      RowLists(items, i, x);
    }
  }

  /**
    Of two hooks that one and the same hook lists and no other does, the one
    listed first comes first exactly if it lies first in `sorted` too or a hook
    before the other one draws the listing hook in.
  */
  lemma ListedFirstExactly(sorted: seq<Hook>, order: seq<int>, a: nat, b: int, c: int)
    requires Arrangement(sorted, order) && a < |sorted| && Precedes(Listed(sorted, a), b, c)
    requires WantedOnlyBy(sorted, a, b) && WantedOnlyBy(sorted, a, c)
    ensures Precedes(order, b, c) <==> b < c || DrawnIn(Wanted(sorted), a, c)
  {
    hide Arrangement, WantedOnlyBy, Wanted, RowOf, Rows, Listed, Sorted, DrawnIn, Selection;
    ArrangementSorted(sorted, order);
    var k, l :| 0 <= k < l < |Listed(sorted, a)| && Listed(sorted, a)[k] == b && Listed(sorted, a)[l] == c;
    ListedFits(sorted, a);
    ListedItem(sorted, a, k);
    ListedItem(sorted, a, l);
    RowAt(sorted, a, k);
    RowAt(sorted, a, l);
    OnlyInRow(sorted, a, b);
    OnlyInRow(sorted, a, c);
    RowDistinct(sorted, a);
    ListedFirst(Rows(sorted), Wanted(sorted), order, a, k, l);
  }

  lemma RowDistinct(items: seq<Hook>, a: nat)
    requires a < |items|
    ensures var row := RowOf(items, a); forall p, q :: 0 <= p < q < |row| && row[p] == row[q] ==> row[p] == NIL
  {
    hide Listed;
    ListedFits(items, a);
  }

  // ----- The order of a hook's own list

  lemma {:induction false} FoundPrefix(items: seq<Hook>, names: seq<string>, p: nat) returns (rest: seq<int>)
    requires p <= |names|
    ensures Found(items, names) == Found(items, names[..p]) + rest
    decreases |names|
  {
    hide Find;
    rest := [];
    if p == |names| {
      assert names[..p] == names;
    } else {
      var m := |names| - 1;
      var rest' := FoundPrefix(items, names[..m], p);
      assert names[..m][..p] == names[..p];
      rest := rest' + if Find(items, names[m]) == NIL then [] else [Find(items, names[m])];
    }
  }

  /** What is met first is listed first. */
  lemma {:induction false} DistinctOrder(s: seq<int>, k: nat, y: int)
    requires k < |s| && y !in s[..k + 1] && y in s
    ensures Precedes(Distinct(s), s[k], y)
  {
    var m := |s| - 1;
    var front := s[..m];
    assert s == front + [s[m]];
    if y in front {
      assert front[..k + 1] == s[..k + 1];
      DistinctOrder(front, k, y);
      PrecedesAdd(Distinct(front), s[m], s[k], y);
    } else {
      DistinctElements(front, s[k]);
      DistinctElements(front, y);
      assert front[k] == s[k];
      var i :| 0 <= i < |Distinct(front)| && Distinct(front)[i] == s[k];
      assert Distinct(s) == Distinct(front) + [y];
      assert Distinct(s)[i] == s[k] && Distinct(s)[|Distinct(front)|] == y;
    }
  }

  lemma PrecedesAdd(list: seq<int>, j: int, x: int, y: int)
    requires Precedes(list, x, y)
    ensures Precedes(AddTo(list, j), x, y)
  {
    var i, k :| 0 <= i < k < |list| && list[i] == x && list[k] == y;
    assert AddTo(list, j)[i] == x && AddTo(list, j)[k] == y;
  }

  /** No item names `a` as a successor. */
  predicate NoneNames(items: seq<Hook>, a: int) {
    forall m, q :: 0 <= m < |items| && 0 <= q < |items[m].succs| ==> Find(items, items[m].succs[q]) != a
  }

  lemma {:induction false} OwnRequests(items: seq<Hook>, a: nat, n: nat)
    requires a < |items| && n <= |items| && NoneNames(items, a)
    ensures Requests(items, a, n) == if a < n then Found(items, items[a].preds) else []
  {
    hide Find, Found, OfItem, NoneNames;
    if n > 0 {
      OwnRequests(items, a, n - 1);
      OwnItem(items, a, n - 1);
    }
  }

  lemma OwnItem(items: seq<Hook>, a: nat, m: nat)
    requires m < |items| && NoneNames(items, a)
    ensures OfItem(items, a, m, |items[m].preds|, |items[m].succs|)
         == if m == a then Found(items, items[a].preds) else []
  {
    hide Find, Found, Naming;
    assert items[m].preds[..|items[m].preds|] == items[m].preds;
    assert items[m].succs[..|items[m].succs|] == items[m].succs;
    NoneNaming(items, items[m].succs, m, a);
  }

  lemma NoneNaming(items: seq<Hook>, names: seq<string>, m: nat, a: int)
    requires forall q :: 0 <= q < |names| ==> Find(items, names[q]) != a
    ensures Naming(items, names, m, a) == []
  {
    hide Find, Naming;
    if Naming(items, names, m, a) != [] {
      NamingAll(items, names, m, a, Naming(items, names, m, a)[0]);
    }
  }

  /** A hook that no other names as a successor lists its predecessors as it names them. */
  lemma NamedFirst(items: seq<Hook>, a: nat, p: nat, q: nat)
    requires a < |items| && NoneNames(items, a) && p < q < |items[a].preds|
    requires var names := items[a].preds; Find(items, names[p]) != NIL && Find(items, names[q]) != NIL
    requires forall r :: 0 <= r <= p ==> Find(items, items[a].preds[r]) != Find(items, items[a].preds[q])
    ensures Precedes(Listed(items, a), Find(items, items[a].preds[p]), Find(items, items[a].preds[q]))
  {
    hide Find, Distinct, Requests, Precedes;
    var names := items[a].preds;
    var b, c, s := Find(items, names[p]), Find(items, names[q]), Found(items, names);
    OwnRequests(items, a, |items|);
    var rest := FoundPrefix(items, names, p + 1);
    var front := Found(items, names[..p + 1]);
    assert names[..p + 1][..p] == names[..p];
    assert front == Found(items, names[..p]) + [b];
    hide Found;
    FoundAll(items, names, c);
    FoundAll(items, names[..p + 1], c);
    assert s[..|front|] == front;
    DistinctOrder(s, |front| - 1, c);
  }

  /**
    What a module author sees: whenever the sort puts item `order[x]` somewhere,
    the first item of every name it listed as a predecessor is already there,
    and so is every item that listed its name as a successor.
  */
  lemma NamesRespected(items: seq<Hook>, order: seq<int>, x: nat, q: nat, m: nat)
    requires |Wanted(items)| == |items| && Selection(order, |items|) && Respects(Wanted(items), order) && x < |order|
    ensures q < |items[order[x]].preds| && Find(items, items[order[x]].preds[q]) != NIL ==>
      Find(items, items[order[x]].preds[q]) in order[..x]
    ensures m < |items| && q < |items[m].succs| && Find(items, items[m].succs[q]) == order[x] ==> m in order[..x]
  {
    hide Find;
    var i := order[x];
    if q < |items[i].preds| && Find(items, items[i].preds[q]) != NIL {
      var j := Find(items, items[i].preds[q]);
      assert Asks(items, i, j, i);
      assert j in Wanted(items)[i];
    }
    if m < |items| && q < |items[m].succs| && Find(items, items[m].succs[q]) == i {
      assert Asks(items, m, m, i);
      assert m in Wanted(items)[i];
    }
  }
}
