/**
  dbd_pgsql_bind and dbd_pgsql_bbind (dbd/apr_dbd_pgsql.c): walking the values
  a caller passes for a prepared query, where a large object takes four of them
  and a NULL only one.
*/
module DbdBind {
  import opened DbdPrepare

  /** One of the pointers a caller passes. */
  datatype Slot = Nil | Ptr(text: string)

  /** What is set up for one parameter: val[i], and len[i] and fmt[i] where they are set. */
  datatype Cell = NoValue | Plain(text: string) | Binary(data: string, size: int)

  predicate IsLob(ty: Type) {
    ty == BLOB || ty == CLOB
  }

  /** How far one parameter moves the cursor. */
  function Step(slot: Slot, ty: Type): (n: nat)
    ensures 1 <= n <= Need(ty)
  {
    if slot.Ptr? && IsLob(ty) then 4 else 1
  }

  /** How a value's slot is turned into text; `size` reads the slot that holds a large object's size. */
  datatype Reader = Reader(convert: (Type, string) -> Cell, size: Slot -> int)

  /** What one parameter gets from the values starting at its slot. */
  function CellOf(r: Reader, values: seq<Slot>, ty: Type): Cell
    requires |values| >= Need(ty)
  {
    match values[0]
    case Nil => NoValue
    case Ptr(text) => if IsLob(ty) then Binary(text, r.size(values[1])) else r.convert(ty, text)
  }

  /** What all parameters get. */
  function Cells(r: Reader, values: seq<Slot>, types: seq<Type>): (cells: seq<Cell>)
    requires |values| >= Needs(types)
    ensures |cells| == |types|
    decreases |types|
  {
    if types == [] then []
    else [CellOf(r, values, types[0])] + Cells(r, values[Step(values[0], types[0])..], types[1..])
  }

  /** dbd_pgsql_bind passes text on as it is. */
  function TextReader(atoi: Slot -> int): Reader {
    Reader((ty, text) => Plain(text), atoi)
  }

  /** dbd_pgsql_bbind formats the value a pointer leads to; a declared NULL is one, whatever is passed. */
  function BinaryReader(format: (Type, string) -> string, size: Slot -> int): Reader {
    Reader((ty, text) => if ty == NULL || ty == NONE then NoValue else Plain(format(ty, text)), size)
  }

  lemma NeedsFrom(types: seq<Type>, i: nat)
    requires i < |types|
    ensures Needs(types[i..]) == Need(types[i]) + Needs(types[i + 1..])
  {
    assert types[i..][1..] == types[i + 1..];
  }

  /** Where a bind loop stands after `i` parameters and `j` values. */
  ghost predicate Walking(r: Reader, values: seq<Slot>, types: seq<Type>, i: int, j: int, val: seq<Cell>) {
    && 0 <= i <= |types| == |val| && 0 <= j
    && j + Needs(types[i..]) <= |values|
    && Needs(types) <= |values|
    && val[..i] + Cells(r, values[j..], types[i..]) == Cells(r, values, types)
  }

  lemma WalkingStart(r: Reader, values: seq<Slot>, types: seq<Type>, val: seq<Cell>)
    requires Needs(types) <= |values| && |val| == |types|
    ensures Walking(r, values, types, 0, 0, val)
  {
    assert types[0..] == types && values[0..] == values;
  }

  lemma CellsStep(r: Reader, values: seq<Slot>, types: seq<Type>)
    requires types != [] && |values| >= Needs(types)
    ensures |values| >= Need(types[0]) >= 1 && |values| - Step(values[0], types[0]) >= Needs(types[1..])
    ensures Cells(r, values, types)
         == [CellOf(r, values, types[0])] + Cells(r, values[Step(values[0], types[0])..], types[1..])
  {
    hide CellOf;
  }

  lemma NeedsTotal(types: seq<Type>)
    ensures Needs(types) >= 0
  {
  }

  lemma WalkingNext(r: Reader, values: seq<Slot>, types: seq<Type>, i: nat, j: nat, val: seq<Cell>)
    requires Walking(r, values, types, i, j, val) && i < |types|
    ensures j + Need(types[i]) <= |values|
    ensures var cell := CellOf(r, values[j..], types[i]);
      Walking(r, values, types, i + 1, j + Step(values[j], types[i]), val[i := cell])
  {
    hide Cells, CellOf, Step, Needs;
    NeedsFrom(types, i);
    NeedsTotal(types[i + 1..]);
    var rest, tys := values[j..], types[i..];
    var n := Step(values[j], types[i]);
    assert tys[1..] == types[i + 1..] && rest[n..] == values[j + n..];
    var cell := CellOf(r, rest, types[i]);
    CellsStep(r, rest, tys);
    assert Cells(r, rest, tys) == [cell] + Cells(r, values[j + n..], types[i + 1..]);
    assert val[i := cell][..i + 1] == val[..i] + [cell];
  }

  /**
    dbd_pgsql_bind: the cursor `j` stays inside the values, given the number of
    them that apr_dbd_prepare computed.
  */
  method Bind(types: seq<Type>, values: seq<Slot>, atoi: Slot -> int, val: array<Cell>)
    requires |values| >= Needs(types) && val.Length == |types|
    modifies val
    ensures val[..] == Cells(TextReader(atoi), values, types)
  {
    hide Walking, Cells, Needs;
    ghost var r := TextReader(atoi);
    WalkingStart(r, values, types, val[..]);
    var i, j := 0, 0;
    while i < |types|
      invariant 0 <= i <= |types| == val.Length && 0 <= j && Walking(r, values, types, i, j, val[..])
    {
      WalkingNext(r, values, types, i, j, val[..]);
      ghost var val0 := val[..];
      if values[j].Nil? {
        val[i] := NoValue;
      } else if IsLob(types[i]) {
        val[i] := Binary(values[j].text, atoi(values[j + 1]));
        j := j + 3;
      } else {
        val[i] := Plain(values[j].text);
      }
      assert val[..] == val0[i := val[i]];
      i, j := i + 1, j + 1;
    }
    WalkingEnd(r, values, types, j, val[..]);
  }

  /** dbd_pgsql_bbind. */
  method Bbind(types: seq<Type>, values: seq<Slot>, format: (Type, string) -> string, size: Slot -> int,
               val: array<Cell>)
    requires |values| >= Needs(types) && val.Length == |types|
    modifies val
    ensures val[..] == Cells(BinaryReader(format, size), values, types)
  {
    hide Walking, Cells, Needs;
    ghost var r := BinaryReader(format, size);
    WalkingStart(r, values, types, val[..]);
    var i, j := 0, 0;
    while i < |types|
      invariant 0 <= i <= |types| == val.Length && 0 <= j && Walking(r, values, types, i, j, val[..])
    {
      WalkingNext(r, values, types, i, j, val[..]);
      ghost var val0 := val[..];
      var ty := if values[j].Nil? then NULL else types[i];
      if IsLob(ty) {
        val[i] := Binary(values[j].text, size(values[j + 1]));
        j := j + 3;
      } else if ty == NULL || ty == NONE {
        val[i] := NoValue;
      } else {
        val[i] := Plain(format(ty, values[j].text));
      }
      assert val[..] == val0[i := val[i]];
      i, j := i + 1, j + 1;
    }
    WalkingEnd(r, values, types, j, val[..]);
  }

  lemma WalkingEnd(r: Reader, values: seq<Slot>, types: seq<Type>, j: nat, val: seq<Cell>)
    requires Walking(r, values, types, |types|, j, val)
    ensures Needs(types) <= |values| && val == Cells(r, values, types)
  {
    assert types[|types|..] == [] && val[..|types|] == val;
  }

  // ----- Callers and the bind loops agree

  /** What a caller means to pass for one parameter. */
  datatype Arg = NullArg | Scalar(text: string) | Lob(data: string, size: string, table: string, column: string)

  /** A large object exactly where the query asks for one. */
  predicate Suits(arg: Arg, ty: Type) {
    arg.NullArg? || (arg.Lob? <==> IsLob(ty))
  }

  predicate AllSuit(args: seq<Arg>, types: seq<Type>) {
    |args| == |types| && forall i :: 0 <= i < |args| ==> Suits(args[i], types[i])
  }

  function Slots(arg: Arg): seq<Slot> {
    match arg
    case NullArg => [Nil]
    case Scalar(text) => [Ptr(text)]
    case Lob(data, size, table, column) => [Ptr(data), Ptr(size), Ptr(table), Ptr(column)]
  }

  /** The values a caller passes, one argument after the other. */
  function Layout(args: seq<Arg>): seq<Slot> {
    if args == [] then [] else Slots(args[0]) + Layout(args[1..])
  }

  /** What each argument should come out as. */
  function Meant(r: Reader, args: seq<Arg>, types: seq<Type>): seq<Cell>
    requires |args| == |types|
  {
    seq(|args|, i requires 0 <= i < |args| => MeantCell(r, args[i], types[i]))
  }

  function MeantCell(r: Reader, arg: Arg, ty: Type): Cell {
    match arg
    case NullArg => NoValue
    case Scalar(text) => r.convert(ty, text)
    case Lob(data, size, _, _) => Binary(data, r.size(Ptr(size)))
  }

  /** One argument, at the start of the values. */
  lemma FirstArg(r: Reader, arg: Arg, ty: Type, more: seq<Slot>)
    requires Suits(arg, ty) && |Slots(arg) + more| >= Need(ty)
    ensures var values := Slots(arg) + more;
      |values| > 0 && Step(values[0], ty) == |Slots(arg)| && CellOf(r, values, ty) == MeantCell(r, arg, ty)
  {
  }

  /** The values of suitable arguments are at most as many as the prepared query says. */
  lemma {:induction false} LayoutFits(args: seq<Arg>, types: seq<Type>)
    requires AllSuit(args, types)
    ensures |Layout(args)| <= Needs(types)
  {
    if args != [] {
      assert Suits(args[0], types[0]);
      LayoutFits(args[1..], types[1..]);
    }
  }

  lemma LayoutHead(args: seq<Arg>)
    requires args != []
    ensures Layout(args) == Slots(args[0]) + Layout(args[1..])
  {
  }

  lemma NoParameters(r: Reader, values: seq<Slot>)
    ensures Needs([]) == 0 && Cells(r, values, []) == []
  {
  }

  /**
    For every mix of NULLs, scalars and large objects, the loops give each
    parameter its own argument, wherever in the values it ended up. `rest` is
    whatever follows the values in memory.
  */
  lemma {:induction false} BindInvertsLayout(r: Reader, args: seq<Arg>, types: seq<Type>, rest: seq<Slot>)
    requires AllSuit(args, types) && |Layout(args) + rest| >= Needs(types)
    ensures Cells(r, Layout(args) + rest, types) == Meant(r, args, types)
    decreases |args|
  {
    hide Cells, CellOf, Needs, Suits, MeantCell, Step, Slots, Layout;
    if args == [] {
      NoParameters(r, Layout(args) + rest);
    } else {
      LayoutHead(args);
      var values := Layout(args) + rest;
      assert Suits(args[0], types[0]);
      CellsStep(r, values, types);
      assert values == Slots(args[0]) + (Layout(args[1..]) + rest);
      FirstArg(r, args[0], types[0], Layout(args[1..]) + rest);
      var n := Step(values[0], types[0]);
      assert values[n..] == Layout(args[1..]) + rest;
      BindInvertsLayout(r, args[1..], types[1..], rest);
      assert Meant(r, args, types)[1..] == Meant(r, args[1..], types[1..]);
      assert Meant(r, args, types) == [MeantCell(r, args[0], types[0])] + Meant(r, args, types)[1..];
    }
  }
}
