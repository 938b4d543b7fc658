/**
  apr_dbd_prepare (dbd/apr_dbd.c): a query with %-parameters is translated, in
  two passes, into the database's own parameter references.
*/
module DbdPrepare {
  datatype Type =
    | NONE | TINY | UTINY | SHORT | USHORT | INT | UINT | LONG | ULONG | LONGLONG | ULONGLONG
    | FLOAT | DOUBLE | STRING | TEXT | TIME | DATE | DATETIME | TIMESTAMP | ZTIMESTAMP | BLOB | CLOB | NULL

  /** A query, read as its author meant it. */
  datatype Token = Char(c: char) | Percent | Param(ty: Type)

  predicate IsAlpha(c: char) {
    'a' <= c <= 'z' || 'A' <= c <= 'Z'
  }

  predicate Begins1(s: string, c: char) {
    |s| >= 1 && s[0] == c
  }

  predicate Begins2(s: string, c: char, d: char) {
    |s| >= 2 && s[0] == c && s[1] == d
  }

  predicate Begins3(s: string, c: char, d: char, e: char) {
    |s| >= 3 && s[0] == c && s[1] == d && s[2] == e
  }

  /** The type that the letters after a % name, and how many of them do; anything else is a string. */
  function Spec(s: string): (r: (Type, nat))
    requires s != [] && IsAlpha(s[0])
    ensures 1 <= r.1 <= 3 && r.1 <= |s| && forall k :: 0 <= k < r.1 ==> IsAlpha(s[k])
    ensures r.0 != NONE
  {
    if Begins1(s, 'd') then (INT, 1)
    else if Begins1(s, 'u') then (UINT, 1)
    else if Begins1(s, 'f') then (FLOAT, 1)
    else if Begins3(s, 'h', 'h', 'd') then (TINY, 3)
    else if Begins3(s, 'h', 'h', 'u') then (UTINY, 3)
    else if Begins2(s, 'h', 'd') then (SHORT, 2)
    else if Begins2(s, 'h', 'u') then (USHORT, 2)
    else if Begins3(s, 'l', 'l', 'd') then (LONGLONG, 3)
    else if Begins3(s, 'l', 'l', 'u') then (ULONGLONG, 3)
    else if Begins2(s, 'l', 'd') then (LONG, 2)
    else if Begins2(s, 'l', 'u') then (ULONG, 2)
    else if Begins2(s, 'l', 'f') then (DOUBLE, 2)
    else if Begins3(s, 'p', 'D', 't') then (TEXT, 3)
    else if Begins3(s, 'p', 'D', 'i') then (TIME, 3)
    else if Begins3(s, 'p', 'D', 'd') then (DATE, 3)
    else if Begins3(s, 'p', 'D', 'a') then (DATETIME, 3)
    else if Begins3(s, 'p', 'D', 's') then (TIMESTAMP, 3)
    else if Begins3(s, 'p', 'D', 'z') then (ZTIMESTAMP, 3)
    else if Begins3(s, 'p', 'D', 'b') then (BLOB, 3)
    else if Begins3(s, 'p', 'D', 'c') then (CLOB, 3)
    else if Begins3(s, 'p', 'D', 'n') then (NULL, 3)
    else (STRING, 1)
  }

  function Parse(q: string): seq<Token> {
    if q == [] then []
    else if q[0] != '%' then [Char(q[0])] + Parse(q[1..])
    else if |q| > 1 && IsAlpha(q[1]) then [Param(Spec(q[1..]).0)] + Parse(q[1 + Spec(q[1..]).1..])
    else if |q| > 1 && q[1] == '%' then [Percent] + Parse(q[2..])
    else [Char('%')] + Parse(q[1..])
  }

  /** The types of the parameters, in order. */
  function Types(tokens: seq<Token>): seq<Type> {
    if tokens == [] then []
    else (if tokens[0].Param? then [tokens[0].ty] else []) + Types(tokens[1..])
  }

  /** How many values the caller passes for a parameter. */
  function Need(ty: Type): nat {
    if ty == BLOB || ty == CLOB then 4 else 1
  }

  function Needs(types: seq<Type>): nat {
    if types == [] then 0 else Need(types[0]) + Needs(types[1..])
  }

  // ----- The driver's parameter reference

  /** driver->pformat: a fixed text, or a text with the parameter's number in it. */
  datatype Format = Fixed(text: string) | Numbered(pre: string, post: string)

  /** strlen(pformat), the number being written as two characters there. */
  function FormatLen(f: Format): nat {
    match f case Fixed(text) => |text| case Numbered(pre, post) => |pre| + 2 + |post|
  }

  function Digits(n: nat): (s: string)
    ensures s != []
  {
    if n < 10 then [Digit(n)] else Digits(n / 10) + [Digit(n % 10)]
  }

  function Digit(d: nat): char
    requires d < 10
  {
    "0123456789"[d]
  }

  function Pow10(e: nat): nat {
    if e == 0 then 1 else 10 * Pow10(e - 1)
  }

  lemma {:induction false} DigitsShort(n: nat, e: nat)
    requires e >= 1 && n < Pow10(e)
    ensures |Digits(n)| <= e
  {
    if n >= 10 {
      DigitsShort(n / 10, e - 1);
    }
  }

  /** The number a text of digits stands for. */
  function Number(s: string): int {
    if s == [] then 0 else Number(s[..|s| - 1]) * 10 + (s[|s| - 1] as int - '0' as int)
  }

  /** The decimal number, in digits only and with no leading zero. */
  lemma {:induction false} DigitsNumber(n: nat)
    ensures Number(Digits(n)) == n && (n > 0 ==> Digits(n)[0] != '0')
    ensures forall k :: 0 <= k < |Digits(n)| ==> '0' <= Digits(n)[k] <= '9'
  {
    if n >= 10 {
      DigitsNumber(n / 10);
      assert Digits(n)[..|Digits(n)| - 1] == Digits(n / 10);
    } else {
      assert Digits(n)[..0] == [];
    }
  }

  /** Two references to different parameters differ. */
  lemma ReferencesDiffer(f: Format, i: nat, j: nat)
    requires f.Numbered? && Reference(f, i) == Reference(f, j)
    ensures i == j
  {
    hide Digits;
    DigitsNumber(i);
    DigitsNumber(j);
    var a, b := Reference(f, i), Reference(f, j);
    assert Digits(i) == a[|f.pre|..|a| - |f.post|];
    assert Digits(j) == b[|f.pre|..|b| - |f.post|];
  }

  function Reference(f: Format, i: nat): string {
    match f case Fixed(text) => text case Numbered(pre, post) => pre + Digits(i) + post
  }

  const INT_MAX: nat := 0x7fff_ffff
  const SLACK: nat := 4 * 3 + 2        // sizeof(nargs) * 3 + 2

  lemma ReferenceShort(f: Format, i: nat)
    requires i <= INT_MAX
    ensures |Reference(f, i)| <= FormatLen(f) + SLACK - 6
  {
    assert Pow10(10) == 10_000_000_000 by {
      assert Pow10(1) == 10 && Pow10(2) == 100 && Pow10(4) == 10_000;
      assert Pow10(6) == 1_000_000 && Pow10(8) == 100_000_000;
    }
    DigitsShort(i, 10);
  }

  /** The translated query; the first parameter has number `i + 1`. */
  function Render(tokens: seq<Token>, f: Format, i: nat): string {
    if tokens == [] then []
    else match tokens[0]
      case Char(c) => [c] + Render(tokens[1..], f, i)
      case Percent => "%" + Render(tokens[1..], f, i)
      case Param(_) => Reference(f, i + 1) + Render(tokens[1..], f, i + 1)
  }

  // ----- The first pass

  /** What is left to count from a place in the query. */
  function Count(q: string): nat {
    if q == [] then 0
    else if q[0] != '%' then Count(q[1..])
    else if |q| > 1 && IsAlpha(q[1]) then 1 + Count(q[1..])
    else if |q| > 1 && q[1] == '%' then Count(q[2..])
    else Count(q[1..])
  }

  /** Letters are passed over without effect. */
  lemma {:induction false} CountSkips(q: string, n: nat)
    requires n <= |q| && forall k :: 0 <= k < n ==> q[k] != '%'
    ensures Count(q) == Count(q[n..])
  {
    if n > 0 {
      CountSkips(q[1..], n - 1);
      assert q[1..][n - 1..] == q[n..];
    }
  }

  /** The first pass, which knows nothing of types, finds the parameters of the parse. */
  lemma {:induction false} CountIsParams(q: string)
    ensures Count(q) == |Types(Parse(q))|
    decreases |q|
  {
    if q == [] {
    } else if q[0] == '%' && |q| > 1 && IsAlpha(q[1]) {
      var n := Spec(q[1..]).1;
      CountSkips(q[1..], n);
      assert q[1..][n..] == q[1 + n..];
      CountIsParams(q[1 + n..]);
      assert Parse(q)[1..] == Parse(q[1 + n..]);
    } else if q[0] == '%' && |q| > 1 && q[1] == '%' {
      CountIsParams(q[2..]);
      assert Parse(q)[1..] == Parse(q[2..]);
    } else {
      CountIsParams(q[1..]);
      assert Parse(q)[1..] == Parse(q[1..]);
    }
  }

  method CountArgs(query: string) returns (nargs: nat)
    ensures nargs == |Types(Parse(query))|
  {
    nargs := 0;
    var q := 0;
    while q < |query|
      invariant 0 <= q <= |query| && nargs + Count(query[q..]) == Count(query)
    {
      var rest := query[q..];
      assert rest[0] == query[q] && rest[1..] == query[q + 1..];
      assert |rest| > 1 ==> rest[1] == query[q + 1] && rest[2..] == query[q + 2..];
      if query[q] == '%' {
        if q + 1 < |query| && IsAlpha(query[q + 1]) {
          nargs := nargs + 1;
        } else if q + 1 < |query| && query[q + 1] == '%' {
          q := q + 1;
        }
      }
      q := q + 1;
    }
    CountIsParams(query);
  }

  // ----- The second pass

  /** q[k], which is NUL at the end of the query. */
  function At(query: string, k: nat): char {
    if k < |query| then query[k] else '\0'
  }

  /** What a case of the switch found, against the letters `s`. */
  ghost predicate Matches(s: string, ty: Type, more: nat)
    requires s != [] && IsAlpha(s[0])
  {
    Spec(s) == (if ty == NONE then STRING else ty, more + 1)
  }

  /** The nested switch on the letters after a % at `q`; NONE if no case applies. `more` is what it adds to q. */
  method Switch(query: string, q: nat) returns (ty: Type, more: nat)
    requires q + 1 < |query| && IsAlpha(query[q + 1])
    ensures Matches(query[q + 1..], ty, more)
  {
    ty, more := NONE, 0;
    var c1, c2, c3 := query[q + 1], At(query, q + 2), At(query, q + 3);
    ghost var s := query[q + 1..];
    assert Letters(s, c1, c2, c3);
    if c1 == 'h' {
      ty, more := SwitchH(c2, c3, s);
    } else if c1 == 'l' {
      ty, more := SwitchL(c2, c3, s);
    } else if c1 == 'p' {
      ty, more := SwitchP(c2, c3, s);
    } else if c1 == 'd' {
      ty := INT;
    } else if c1 == 'u' {
      ty := UINT;
    } else if c1 == 'f' {
      ty := FLOAT;
    }
  }

  /** `s` begins with these characters, as far as it goes. */
  predicate Letters(s: string, c1: char, c2: char, c3: char) {
    && s != [] && s[0] == c1
    && (if |s| > 1 then s[1] == c2 else c2 == '\0')
    && (if |s| > 2 then s[2] == c3 else c3 == '\0')
  }

  method SwitchH(c2: char, c3: char, ghost s: string) returns (ty: Type, more: nat)
    requires Letters(s, 'h', c2, c3)
    ensures Matches(s, ty, more)
  {
    ty, more := NONE, 0;
    if c2 == 'h' {
      if c3 == 'd' {
        ty, more := TINY, 2;
      } else if c3 == 'u' {
        ty, more := UTINY, 2;
      }
    } else if c2 == 'd' {
      ty, more := SHORT, 1;
    } else if c2 == 'u' {
      ty, more := USHORT, 1;
    }
  }

  method SwitchL(c2: char, c3: char, ghost s: string) returns (ty: Type, more: nat)
    requires Letters(s, 'l', c2, c3)
    ensures Matches(s, ty, more)
  {
    ty, more := NONE, 0;
    if c2 == 'l' {
      if c3 == 'd' {
        ty, more := LONGLONG, 2;
      } else if c3 == 'u' {
        ty, more := ULONGLONG, 2;
      }
    } else if c2 == 'd' {
      ty, more := LONG, 1;
    } else if c2 == 'u' {
      ty, more := ULONG, 1;
    } else if c2 == 'f' {
      ty, more := DOUBLE, 1;
    }
  }

  method SwitchP(c2: char, c3: char, ghost s: string) returns (ty: Type, more: nat)
    requires Letters(s, 'p', c2, c3)
    ensures Matches(s, ty, more)
  {
    ty, more := NONE, 0;
    if c2 == 'D' {
      more := 2;
      match c3
      case 't' => ty := TEXT;
      case 'i' => ty := TIME;
      case 'd' => ty := DATE;
      case 'a' => ty := DATETIME;
      case 's' => ty := TIMESTAMP;
      case 'z' => ty := ZTIMESTAMP;
      case 'b' => ty := BLOB;
      case 'c' => ty := CLOB;
      case 'n' => ty := NULL;
      case _ => more := 0;
    }
  }

  /** Where the second pass stands: `p` characters written, `i` parameters seen, the query read up to `q`. */
  ghost predicate Standing(query: string, f: Format, q: int, out: string, types: seq<Type>, nvals: int) {
    && 0 <= q <= |query|
    && out + Render(Parse(query[q..]), f, |types|) == Render(Parse(query), f, 0)
    && types + Types(Parse(query[q..])) == Types(Parse(query))
    && nvals + Needs(Types(Parse(query[q..]))) - |Types(Parse(query[q..]))| == Needs(Types(Parse(query)))
  }

  lemma StandingStart(query: string, f: Format)
    ensures Standing(query, f, 0, "", [], |Types(Parse(query))|)
  {
    assert query[0..] == query;
  }

  /** What a token is written as, and what it adds to the parameters. */
  function Text(t: Token, f: Format, i: nat): string {
    match t case Char(c) => [c] case Percent => "%" case Param(_) => Reference(f, i + 1)
  }

  function Adds(t: Token): seq<Type> {
    if t.Param? then [t.ty] else []
  }

  lemma RenderStep(t: Token, more: seq<Token>, f: Format, i: nat)
    ensures Render([t] + more, f, i) == Text(t, f, i) + Render(more, f, i + |Adds(t)|)
    ensures Types([t] + more) == Adds(t) + Types(more)
  {
    hide Reference;
    assert ([t] + more)[1..] == more;
  }

  lemma NeedsStep(t: Token, types: seq<Type>)
    ensures Needs(Adds(t) + types) == Needs(Adds(t)) + Needs(types)
  {
    hide Need;
    if t.Param? {
      assert ([t.ty] + types)[1..] == types && [t.ty][1..] == [];
    } else {
      assert Adds(t) + types == types;
    }
  }

  /** One token further. */
  lemma StandingToken(query: string, f: Format, q: nat, out: string, types: seq<Type>, nvals: int, t: Token, q': nat)
    requires Standing(query, f, q, out, types, nvals) && q <= q' <= |query|
    requires Parse(query[q..]) == [t] + Parse(query[q'..])
    ensures Standing(query, f, q', out + Text(t, f, |types|), types + Adds(t), nvals + Needs(Adds(t)) - |Adds(t)|)
    ensures t.Param? ==> |types| < |Types(Parse(query))|
  {
    hide Parse, Render, Types, Needs, Text;
    var more := Parse(query[q'..]);
    RenderStep(t, more, f, |types|);
    NeedsStep(t, Types(more));
    var rest := Render(more, f, |types| + |Adds(t)|);
    assert out + Text(t, f, |types|) + rest == out + (Text(t, f, |types|) + rest);
    assert types + Adds(t) + Types(more) == types + (Adds(t) + Types(more));
  }

  lemma StandingChar(query: string, f: Format, q: nat, out: string, types: seq<Type>, nvals: int)
    requires Standing(query, f, q, out, types, nvals) && q < |query|
    requires query[q] != '%' || !(q + 1 < |query| && (IsAlpha(query[q + 1]) || query[q + 1] == '%'))
    ensures Standing(query, f, q + 1, out + [query[q]], types, nvals)
  {
    hide Standing, Parse, Render, Types, Needs, Spec, Reference, IsAlpha;
    var rest := query[q..];
    assert rest[0] == query[q] && rest[1..] == query[q + 1..] && (|rest| > 1 ==> rest[1] == query[q + 1]);
    ParseChar(rest);
    StandingToken(query, f, q, out, types, nvals, Char(query[q]), q + 1);
    NeedsOne(NONE);
    assert types + [] == types;
  }

  lemma ParseChar(rest: string)
    requires rest != [] && (rest[0] != '%' || !(1 < |rest| && (IsAlpha(rest[1]) || rest[1] == '%')))
    ensures Parse(rest) == [Char(rest[0])] + Parse(rest[1..])
  {
    hide Spec;
  }

  lemma StandingPercent(query: string, f: Format, q: nat, out: string, types: seq<Type>, nvals: int)
    requires Standing(query, f, q, out, types, nvals) && q + 1 < |query| && query[q] == query[q + 1] == '%'
    ensures Standing(query, f, q + 2, out + "%", types, nvals)
  {
    hide Standing, Parse, Render, Types, Needs, Spec, Reference;
    var rest := query[q..];
    assert rest[0] == rest[1] == '%' && rest[2..] == query[q + 2..];
    ParsePercent(rest);
    StandingToken(query, f, q, out, types, nvals, Percent, q + 2);
    NeedsOne(NONE);
    assert types + [] == types;
  }

  lemma ParsePercent(rest: string)
    requires |rest| >= 2 && rest[0] == rest[1] == '%'
    ensures Parse(rest) == [Percent] + Parse(rest[2..])
  {
    hide Spec;
  }

  lemma StandingParam(query: string, f: Format, q: nat, out: string, types: seq<Type>, nvals: int)
    requires Standing(query, f, q, out, types, nvals) && q + 1 < |query| && query[q] == '%' && IsAlpha(query[q + 1])
    ensures |types| < |Types(Parse(query))|
    ensures var (ty, n) := Spec(query[q + 1..]);
      Standing(query, f, q + 1 + n, out + Reference(f, |types| + 1), types + [ty], nvals + (Need(ty) - 1))
  {
    hide Standing, Spec, Parse, Reference, Render, IsAlpha, Types, Needs, Need;
    var (ty, n) := Spec(query[q + 1..]);
    assert query[q..][1..] == query[q + 1..] && query[q..][1 + n..] == query[q + 1 + n..];
    ParseParam(query[q..]);
    StandingToken(query, f, q, out, types, nvals, Param(ty), q + 1 + n);
    NeedsOne(ty);
  }

  lemma NeedsOne(ty: Type)
    ensures Needs([ty]) == Need(ty) && Needs([]) == 0
  {
    assert [ty][1..] == [];
  }

  lemma ParseParam(rest: string)
    requires |rest| >= 2 && rest[0] == '%' && IsAlpha(rest[1])
    ensures var (ty, n) := Spec(rest[1..]); Parse(rest) == [Param(ty)] + Parse(rest[1 + n..])
  {
    hide Spec;
  }

  /** Room for the longest output a query of this length with this many parameters can have, and its NUL. */
  function Qlen(length: nat, nargs: nat, f: Format): nat {
    length + nargs * (FormatLen(f) + SLACK) + 1
  }

  /** What has been written fits in what was reserved for what has been read. */
  ghost predicate Within(p: int, q: int, i: int, f: Format) {
    0 <= p <= q + i * (FormatLen(f) + SLACK)
  }

  lemma WithinRoom(p: int, q: int, i: int, f: Format, length: nat, nargs: nat)
    requires Within(p, q, i, f) && 0 <= q <= length && 0 <= i <= nargs
    ensures p < Qlen(length, nargs, f)
  {
    var w := FormatLen(f) + SLACK;
    assert i * w + (nargs - i) * w == nargs * w;
    assert (nargs - i) * w >= 0;
  }

  lemma WithinParam(p: int, q: int, i: nat, f: Format, n: nat)
    requires Within(p, q, i, f) && i < INT_MAX
    ensures Within(p + |Reference(f, i + 1)|, q + n, i + 1, f)
  {
    ReferenceShort(f, i + 1);
    var w := FormatLen(f) + SLACK;
    assert (i + 1) * w == i * w + w;
  }

  method Put(pq: array<char>, p: nat, s: string)
    requires p + |s| <= pq.Length
    modifies pq
    ensures pq[..p + |s|] == old(pq[..p]) + s
  {
    forall k | 0 <= k < |s| {
      pq[p + k] := s[k];
    }
  }

  /** A parameter: its type goes to t[i], its reference to the output. */
  method PutParam(query: string, f: Format, q: nat, pq: array<char>, p: nat, t: array<Type>, i: nat, nvals: nat)
    returns (q': nat, p': nat, nvals': nat)
    requires |query| <= INT_MAX && q + 1 < |query| && query[q] == '%' && IsAlpha(query[q + 1])
    requires i <= t.Length == |Types(Parse(query))| <= |query|
    requires p < pq.Length == Qlen(|query|, t.Length, f)
    requires Standing(query, f, q, pq[..p], t[..i], nvals) && Within(p, q, i, f)
    modifies pq, t
    ensures q < q' <= |query| && i < t.Length && p' < pq.Length
    ensures Standing(query, f, q', pq[..p'], t[..i + 1], nvals') && Within(p', q', i + 1, f)
  {
    hide Standing, Within, Render, Parse, Types, Needs, Spec, Reference, Qlen;
    ghost var out, types := pq[..p], t[..i];
    StandingParam(query, f, q, out, types, nvals);
    var ty, more := Switch(query, q);
    if ty == NONE {
      ty := STRING;
    }
    t[i] := ty;
    nvals' := if ty == BLOB || ty == CLOB then nvals + 3 else nvals;
    q' := q + more + 2;
    WithinParam(p, q, i, f, more + 2);
    WithinRoom(p + |Reference(f, i + 1)|, q', i + 1, f, |query|, t.Length);
    Put(pq, p, Reference(f, i + 1));
    p' := p + |Reference(f, i + 1)|;
    assert t[..i + 1] == types + [ty];
  }

  /**
    Both passes. Every write is inside the `qlen` characters allocated for the
    translated query and the `nargs` entries allocated for the types, and
    apr_snprintf has no need to truncate.
  */
  method Prepare(query: string, f: Format)
    returns (pq: array<char>, length: nat, nargs: nat, nvals: nat, t: array<Type>)
    requires |query| <= INT_MAX
    ensures length < pq.Length == Qlen(|query|, nargs, f) && pq[length] == '\0'
    ensures pq[..length] == Render(Parse(query), f, 0)
    ensures nargs == t.Length && t[..] == Types(Parse(query)) && nvals == Needs(Types(Parse(query)))
  {
    hide Standing, Within, Render, Parse, Types, Needs, Spec, Reference, Qlen;
    nargs := CountArgs(query);
    nvals := nargs;
    ParamsFit(query);
    pq := new char[Qlen(|query|, nargs, f)];
    t := new Type[nargs](i => NONE);
    var q, i, p := 0, 0, 0;
    StandingStart(query, f);
    WithinStart(f);
    WithinRoom(0, 0, 0, f, |query|, nargs);
    while q < |query|
      invariant 0 <= q <= |query| && 0 <= i <= nargs == t.Length && 0 <= p < pq.Length == Qlen(|query|, nargs, f)
      invariant Standing(query, f, q, pq[..p], t[..i], nvals) && Within(p, q, i, f)
      invariant fresh(pq) && fresh(t)
    {
      ghost var out, types := pq[..p], t[..i];
      if query[q] == '%' && q + 1 < |query| && IsAlpha(query[q + 1]) {
        q, p, nvals := PutParam(query, f, q, pq, p, t, i, nvals);
        i := i + 1;
      } else if query[q] == '%' && q + 1 < |query| && query[q + 1] == '%' {
        StandingPercent(query, f, q, out, types, nvals);
        WithinChar(p, q, i, f, 2);
        WithinRoom(p + 1, q + 2, i, f, |query|, nargs);
        Put(pq, p, "%");
        p, q := p + 1, q + 2;
      } else {
        StandingChar(query, f, q, out, types, nvals);
        WithinChar(p, q, i, f, 1);
        WithinRoom(p + 1, q + 1, i, f, |query|, nargs);
        Put(pq, p, [query[q]]);
        p, q := p + 1, q + 1;
      }
    }
    StandingEnd(query, f, pq[..p], t[..i], nvals);
    assert t[..i] == t[..];
    pq[p] := '\0';
    length := p;
  }

  lemma WithinStart(f: Format)
    ensures Within(0, 0, 0, f)
  {
  }

  lemma WithinChar(p: int, q: int, i: int, f: Format, n: nat)
    requires Within(p, q, i, f) && n >= 1
    ensures Within(p + 1, q + n, i, f)
  {
  }

  lemma StandingEnd(query: string, f: Format, out: string, types: seq<Type>, nvals: int)
    requires Standing(query, f, |query|, out, types, nvals)
    ensures out == Render(Parse(query), f, 0) && types == Types(Parse(query)) && nvals == Needs(types)
  {
    assert query[|query|..] == [];
  }

  lemma {:induction false} TypesShort(tokens: seq<Token>)
    ensures |Types(tokens)| <= |tokens|
  {
    if tokens != [] {
      TypesShort(tokens[1..]);
    }
  }

  lemma {:induction false} ParseShort(q: string)
    ensures |Parse(q)| <= |q|
    decreases |q|
  {
    if q == [] {
    } else if q[0] == '%' && |q| > 1 && IsAlpha(q[1]) {
      ParseShort(q[1 + Spec(q[1..]).1..]);
    } else if q[0] == '%' && |q| > 1 && q[1] == '%' {
      ParseShort(q[2..]);
    } else {
      ParseShort(q[1..]);
    }
  }

  lemma ParamsFit(query: string)
    ensures |Types(Parse(query))| <= |query|
  {
    TypesShort(Parse(query));
    ParseShort(query);
  }

  /** Every character of the query that is not part of a parameter or a %% reaches the output. */
  lemma {:induction false} PlainQuery(q: string, f: Format, i: nat)
    requires '%' !in q
    ensures Render(Parse(q), f, i) == q && Types(Parse(q)) == []
  {
    if q != [] {
      PlainQuery(q[1..], f, i);
      assert Parse(q)[1..] == Parse(q[1..]);
    }
  }
}
