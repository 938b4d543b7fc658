/**
  Hashed passwords (crypto/crypt_blowfish.c, crypto/apr_md5.c,
  crypto/apr_sha1.c, crypto/apr_passwd.c): setting strings, output layout and
  validation. The Blowfish and MD5 cores are abstract functions.
*/
module Passwd {
  import opened Streams
  import A = Alphabets
  import B = Base64
  import Sha1

  datatype Option<T> = None | Some(value: T)

  type Text = seq<byte>

  /** s[k], which is NUL at the end of a string. */
  function At(s: Text, k: nat): byte {
    if k < |s| then s[k] else 0
  }

  const DOLLAR: byte := 36

  // ----- Blowfish's own base 64

  /** BF_itoa64. */
  function Itoa64(d: B.Digit): byte {
    if d == 0 then 46
    else if d == 1 then 47
    else if d < 28 then 65 + (d - 2)
    else if d < 54 then 97 + (d - 28)
    else 48 + (d - 54)
  }

  /** BF_safe_atoi64; None for a character it does not know. */
  function Atoi64(c: byte): Option<B.Digit> {
    if c == 46 then Some(0)
    else if c == 47 then Some(1)
    else if 65 <= c <= 90 then Some(2 + (c - 65))
    else if 97 <= c <= 122 then Some(28 + (c - 97))
    else if 48 <= c <= 57 then Some(54 + (c - 48))
    else None
  }

  lemma Itoa64RoundTrip(d: B.Digit)
    ensures Atoi64(Itoa64(d)) == Some(d)
  {
  }

  function BfText(d: B.Digits): (r: Text)
    ensures |r| == |d|
  {
    seq(|d|, i requires 0 <= i < |d| => Itoa64(d[i]))
  }

  /** What BF_encode writes. */
  function BfEncoded(src: seq<byte>): Text {
    BfText(B.Sextets(src))
  }

  /** How many characters stand for `size` bytes. */
  function BfLength(size: nat): nat {
    (size * 4 + 2) / 3
  }

  /** All of the first `n` characters are known. */
  predicate Known(s: Text, n: nat) {
    forall i :: 0 <= i < n ==> Atoi64(At(s, i)).Some?
  }

  function BfValues(s: Text, n: nat): (r: B.Digits)
    requires Known(s, n)
    ensures |r| == n
  {
    seq(n, i requires 0 <= i < n => Atoi64(At(s, i)).value)
  }

  /** What BF_decode makes of the start of a string; None if it returns -1. */
  function BfDecoded(s: Text, size: nat): Option<seq<byte>> {
    if Known(s, BfLength(size)) then Some(B.FromSextets(BfValues(s, BfLength(size)))) else None
  }

  /** BF_decode inverts BF_encode, whatever follows the text. */
  lemma BfRoundTrip(src: seq<byte>, rest: Text)
    ensures |BfEncoded(src)| == BfLength(|src|)
    ensures BfDecoded(BfEncoded(src) + rest, |src|) == Some(src)
  {
    B.SextetsLength(src);
    B.SextetsRoundTrip(src);
    hide B.Sextets, B.FromSextets, Itoa64, Atoi64;
    var d, s := B.Sextets(src), BfEncoded(src) + rest;
    forall i | 0 <= i < |d| ensures Atoi64(At(s, i)) == Some(d[i]) {
      Itoa64RoundTrip(d[i]);
    }
    assert BfValues(s, |d|) == d;
  }

  /** The loop of BF_encode, whose input is never empty. */
  method BfEncode(src: seq<byte>) returns (out: Text)
    requires src != []
    ensures out == BfEncoded(src)
  {
    hide B.First, B.Second, B.Third, B.Fourth, Itoa64, BfText;
    out := [];
    var i := 0;
    assert src[0..] == src;
    BfTextNone();
    while true
      invariant 0 <= i < |src| && out + BfEncoded(src[i..]) == BfEncoded(src)
      decreases |src| - i
    {
      ghost var rest := src[i..];
      EncodeStep(rest);
      var c1 := src[i];
      i := i + 1;
      if i >= |src| {
        out := out + [Itoa64(B.First(c1)), Itoa64(B.Second(c1, 0))];
        break;
      }
      var c2 := src[i];
      i := i + 1;
      if i >= |src| {
        out := out + [Itoa64(B.First(c1)), Itoa64(B.Second(c1, c2)), Itoa64(B.Third(c2, 0))];
        break;
      }
      var c3 := src[i];
      i := i + 1;
      out := out + [Itoa64(B.First(c1)), Itoa64(B.Second(c1, c2)), Itoa64(B.Third(c2, c3)), Itoa64(B.Fourth(c3))];
      assert rest[3..] == src[i..];
      if i >= |src| {
        break;
      }
    }
  }

  /** The four characters of three bytes. */
  function Four(a: byte, b: byte, c: byte): Text {
    [Itoa64(B.First(a)), Itoa64(B.Second(a, b)), Itoa64(B.Third(b, c)), Itoa64(B.Fourth(c))]
  }

  lemma BfTextNone()
    ensures BfEncoded([]) == []
  {
  }

  lemma EncodeStep(src: seq<byte>)
    requires src != []
    ensures |src| == 1 ==> BfEncoded(src) == [Itoa64(B.First(src[0])), Itoa64(B.Second(src[0], 0))]
    ensures |src| == 2 ==>
              BfEncoded(src) == [Itoa64(B.First(src[0])), Itoa64(B.Second(src[0], src[1])), Itoa64(B.Third(src[1], 0))]
    ensures |src| >= 3 ==> BfEncoded(src) == Four(src[0], src[1], src[2]) + BfEncoded(src[3..])
  {
    hide B.First, B.Second, B.Third, B.Fourth, Itoa64;
  }

  lemma Pieces(c1: B.Digit, c2: B.Digit, c3: B.Digit, c4: B.Digit)
    ensures B.FromSextets([c1, c2]) == [B.Byte1(c1, c2)]
    ensures B.FromSextets([c1, c2, c3]) == [B.Byte1(c1, c2), B.Byte2(c2, c3)]
    ensures B.FromSextets([c1, c2, c3, c4]) == [B.Byte1(c1, c2), B.Byte2(c2, c3), B.Byte3(c3, c4)]
  {
    B.FromRest([c1, c2]);
    B.FromRest([c1, c2, c3]);
    B.FromGroup([c1, c2, c3, c4]);
  }

  /** The values of `d` follow the first p characters. */
  predicate Next(s: Text, p: nat, d: B.Digits) {
    forall i :: p <= i < p + |d| ==> Atoi64(At(s, i)) == Some(d[i - p])
  }

  lemma ValuesMore(s: Text, p: nat, d: B.Digits)
    requires Known(s, p) && p % 4 == 0 && Next(s, p, d)
    ensures Known(s, p + |d|)
    ensures B.FromSextets(BfValues(s, p + |d|)) == B.FromSextets(BfValues(s, p)) + B.FromSextets(d)
  {
    hide Atoi64, B.FromSextets;
    assert BfValues(s, p + |d|) == BfValues(s, p) + d;
    B.FromSextetsConcat(BfValues(s, p), d);
  }

  lemma Unknown(s: Text, k: nat, n: nat)
    requires k < n && Atoi64(At(s, k)).None?
    ensures !Known(s, n)
  {
  }

  /** What BF_decode has written once it has read p characters. */
  ghost predicate Read(s: Text, p: nat, out: seq<byte>) {
    Known(s, p) && out == B.FromSextets(BfValues(s, p))
  }

  /** The loop of BF_decode for at least one byte. */
  method BfDecode(s: Text, size: nat) returns (ok: bool, out: seq<byte>)
    requires size > 0
    ensures ok <==> BfDecoded(s, size).Some?
    ensures ok ==> out == BfDecoded(s, size).value
  {
    hide Atoi64, B.FromSextets, At, Known, BfValues, B.Byte1, B.Byte2, B.Byte3;
    out := [];
    var p := 0;
    ReadStart(s);
    while true
      invariant p % 4 == 0 && |out| == p / 4 * 3 < size
      invariant Read(s, p, out)
      decreases size - |out|
    {
      ghost var n := BfLength(size);
      var c1, c2 := Atoi64(At(s, p)), Atoi64(At(s, p + 1));
      if c1.None? || c2.None? {
        Unknown(s, if c1.None? then p else p + 1, n);
        return false, out;
      }
      ghost var done := out;
      out := out + [B.Byte1(c1.value, c2.value)];
      if |out| >= size {
        Pieces(c1.value, c2.value, 0, 0);
        ValuesMore(s, p, [c1.value, c2.value]);
        return true, out;
      }
      var c3 := Atoi64(At(s, p + 2));
      if c3.None? {
        Unknown(s, p + 2, n);
        return false, out;
      }
      out := out + [B.Byte2(c2.value, c3.value)];
      if |out| >= size {
        Pieces(c1.value, c2.value, c3.value, 0);
        ValuesMore(s, p, [c1.value, c2.value, c3.value]);
        assert out == done + [B.Byte1(c1.value, c2.value), B.Byte2(c2.value, c3.value)];
        return true, out;
      }
      var c4 := Atoi64(At(s, p + 3));
      if c4.None? {
        Unknown(s, p + 3, n);
        return false, out;
      }
      out := out + [B.Byte3(c3.value, c4.value)];
      Pieces(c1.value, c2.value, c3.value, c4.value);
      ValuesMore(s, p, [c1.value, c2.value, c3.value, c4.value]);
      assert out == done + [B.Byte1(c1.value, c2.value), B.Byte2(c2.value, c3.value), B.Byte3(c3.value, c4.value)];
      p := p + 4;
      if |out| >= size {
        return true, out;
      }
    }
  }

  lemma ReadStart(s: Text)
    ensures Read(s, 0, [])
  {
  }

  // ----- Settings

  const SETTING := 7 + 22
  const OUTPUT := 7 + 22 + 31

  /** What a setting asks for. */
  datatype Request = Request(subtype: byte, cost: nat, salt: seq<byte>)

  /** flags_by_subtype is not zero for 'a', 'x' and 'y'. */
  predicate KnownSubtype(c: byte) {
    c == 97 || c == 120 || c == 121
  }

  /** The checks at the start of BF_crypt, for a minimum iteration count of 2^minCost. */
  function Parsed(setting: Text, minCost: nat): Option<Request> {
    if At(setting, 0) != DOLLAR || At(setting, 1) != 50 || !KnownSubtype(At(setting, 2)) || At(setting, 3) != DOLLAR
       || !(48 <= At(setting, 4) <= 49) || !(48 <= At(setting, 5) <= 57)
       || (At(setting, 4) == 49 && At(setting, 5) > 55) || At(setting, 6) != DOLLAR
    then None
    else
      var cost := (At(setting, 4) - 48) * 10 + (At(setting, 5) - 48);
      var salt := BfDecoded(if |setting| >= 7 then setting[7..] else [], 16);
      if cost < minCost || salt.None? then None else Some(Request(At(setting, 2), cost, salt.value))
  }

  /** The start of a setting: "$2", the subtype, "$", the cost in two digits, "$". */
  function Header(subtype: byte, cost: nat): (r: Text)
    requires cost < 100
    ensures |r| == 7
  {
    [DOLLAR, 50, subtype, DOLLAR, 48 + cost / 10, 48 + cost % 10, DOLLAR]
  }

  /** A setting with that header, an allowed cost and 22 characters of salt. */
  ghost predicate WellMade(setting: Text, minCost: nat, subtype: byte, cost: nat) {
    && subtype in [97, 120, 121] && minCost <= cost <= 17 && Header(subtype, cost) <= setting
    && Known(setting[7..], 22)
  }

  /** The checks let through exactly the settings made like that, and read cost, subtype and salt from them. */
  lemma ParsedExactly(setting: Text, minCost: nat)
    ensures Parsed(setting, minCost).Some? <==> exists subtype, cost :: WellMade(setting, minCost, subtype, cost)
    ensures forall subtype, cost :: WellMade(setting, minCost, subtype, cost) ==>
      Parsed(setting, minCost) == Some(Request(subtype, cost, B.FromSextets(BfValues(setting[7..], 22))))
  {
    hide Atoi64, B.FromSextets;
    forall subtype, cost | WellMade(setting, minCost, subtype, cost)
      ensures Parsed(setting, minCost) == Some(Request(subtype, cost, B.FromSextets(BfValues(setting[7..], 22))))
    {
      hide Known, BfValues, KnownSubtype;
      HeaderAt(setting, subtype, cost);
    }
    if Parsed(setting, minCost).Some? {
      ParsedLong(setting, minCost);
      hide Known, BfValues, BfDecoded;
      var r := Parsed(setting, minCost).value;
      assert Header(r.subtype, r.cost) == setting[..7];
      assert WellMade(setting, minCost, r.subtype, r.cost);
    }
  }

  lemma HeaderAt(setting: Text, subtype: byte, cost: nat)
    requires cost <= 17 && Header(subtype, cost) <= setting
    ensures At(setting, 0) == DOLLAR && At(setting, 1) == 50 && At(setting, 2) == subtype && At(setting, 3) == DOLLAR
    ensures 48 <= At(setting, 4) <= 49 && 48 <= At(setting, 5) <= 57 && !(At(setting, 4) == 49 && At(setting, 5) > 55)
    ensures At(setting, 6) == DOLLAR && (At(setting, 4) - 48) * 10 + (At(setting, 5) - 48) == cost
  {
    assert forall i :: 0 <= i < 7 ==> At(setting, i) == Header(subtype, cost)[i];
  }

  /** The Eksblowfish core: 24 bytes from the key and the request, of which 23 are used. */
  type Core = (seq<byte>, Request) -> seq<byte>

  /** The first 23 bytes of what the core yields. */
  function Hash23(core: Core, key: seq<byte>, r: Request): (h: seq<byte>)
    ensures |h| == 23 && (|core(key, r)| >= 23 ==> h == core(key, r)[..23])
  {
    var h := core(key, r);
    seq(23, i requires 0 <= i < 23 => At(h, i))
  }

  /** The last character of the salt, with the bits that are not part of it cleared. */
  function Cleared(c: byte): byte {
    var d := Atoi64(c);
    if d.Some? then Itoa64(d.value / 16 * 16) else c
  }

  /** A setting that passes the checks is long enough. */
  lemma ParsedLong(setting: Text, minCost: nat)
    requires Parsed(setting, minCost).Some?
    ensures |setting| >= SETTING && Known(setting[7..], 22)
  {
    var s := if |setting| >= 7 then setting[7..] else [];
    assert Known(s, 22);
    assert Atoi64(At(s, 21)).Some?;
    assert Atoi64(0).None?;
  }

  /** BF_crypt into a buffer that is large enough; None where it sets EINVAL. */
  function Crypt(core: Core, key: seq<byte>, setting: Text, minCost: nat): Option<Text> {
    var r := Parsed(setting, minCost);
    if r.None? then None
    else
      ParsedLong(setting, minCost);
      Some(setting[..SETTING - 1] + [Cleared(setting[SETTING - 1])] + BfEncoded(Hash23(core, key, r.value)))
  }

  /** The low bits of a last, incomplete group play no part in decoding. */
  lemma {:induction false} LowBits(d: B.Digits, e: B.Digits)
    requires |d| == |e| && |d| % 4 == 2
    requires d[..|d| - 1] == e[..|d| - 1] && d[|d| - 1] / 16 == e[|d| - 1] / 16
    ensures B.FromSextets(d) == B.FromSextets(e)
    decreases |d|
  {
    assert forall i :: 0 <= i < |d| - 1 ==> d[i] == d[..|d| - 1][i] == e[i];
    if |d| >= 4 {
      LowBits(d[4..], e[4..]);
    }
  }

  lemma ClearedKeeps(c: byte)
    requires Atoi64(c).Some?
    ensures Atoi64(Cleared(c)).Some? && Atoi64(Cleared(c)).value / 16 == Atoi64(c).value / 16
    ensures Cleared(Cleared(c)) == Cleared(c)
  {
    Itoa64RoundTrip(Atoi64(c).value / 16 * 16);
  }

  /** A text that keeps the first 21 characters of a salt and clears the last one decodes alike. */
  lemma SaltKept(s: Text, t: Text)
    requires Known(s, 22) && |s| >= 22 && |t| >= 22
    requires t[..21] == s[..21] && t[21] == Cleared(s[21])
    ensures BfDecoded(t, 16) == BfDecoded(s, 16)
  {
    hide Atoi64, Itoa64, Cleared, B.FromSextets;
    assert Atoi64(At(s, 21)).Some?;
    ClearedKeeps(s[21]);
    assert forall i :: 0 <= i < 21 ==> At(t, i) == t[..21][i] == At(s, i);
    assert Known(t, 22);
    var d, e := BfValues(s, 22), BfValues(t, 22);
    assert d[..21] == e[..21];
    LowBits(d, e);
  }

  /** Hashing with a setting and hashing with the result of that take the same request. */
  lemma SameRequest(setting: Text, out: Text, minCost: nat)
    requires Parsed(setting, minCost).Some? && |setting| >= SETTING && |out| >= SETTING
    requires out[..SETTING - 1] == setting[..SETTING - 1] && out[SETTING - 1] == Cleared(setting[SETTING - 1])
    ensures Parsed(out, minCost) == Parsed(setting, minCost)
  {
    ParsedLong(setting, minCost);
    hide Known, BfDecoded, Atoi64, Itoa64, Cleared;
    assert forall i :: 0 <= i < 28 ==> At(out, i) == out[..28][i] == At(setting, i);
    var s, t := setting[7..], out[7..];
    assert t[..21] == out[..28][7..] == s[..21];
    SaltKept(s, t);
  }

  /** What BF_crypt writes is 60 characters long, and BF_crypt takes it as a setting to itself. */
  lemma CryptFixpoint(core: Core, key: seq<byte>, setting: Text, minCost: nat)
    requires Crypt(core, key, setting, minCost).Some?
    ensures
      var out := Crypt(core, key, setting, minCost).value;
      |out| == OUTPUT && Parsed(out, minCost) == Parsed(setting, minCost) && Crypt(core, key, out, minCost) == Some(out)
  {
    hide Known, Atoi64, Parsed, Cleared, BfEncoded, BfDecoded, Hash23, Crypt;
    CryptDefined(core, key, setting, minCost);
    ParsedLong(setting, minCost);
    CryptIs(core, key, setting, minCost);
    var c, h := setting[SETTING - 1], Hash23(core, key, Parsed(setting, minCost).value);
    var out := setting[..SETTING - 1] + [Cleared(c)] + BfEncoded(h);
    assert setting[7..][21] == c;
    KnownLast(setting[7..]);
    ClearedKeeps(c);
    BfRoundTrip(h, []);
    assert out[..SETTING - 1] == setting[..SETTING - 1] && out[SETTING - 1] == Cleared(c);
    SameRequest(setting, out, minCost);
    CryptIs(core, key, out, minCost);
  }

  lemma CryptDefined(core: Core, key: seq<byte>, setting: Text, minCost: nat)
    ensures Crypt(core, key, setting, minCost).Some? <==> Parsed(setting, minCost).Some?
  {
  }

  lemma CryptIs(core: Core, key: seq<byte>, setting: Text, minCost: nat)
    requires Parsed(setting, minCost).Some? && |setting| >= SETTING
    ensures
      var hash := BfEncoded(Hash23(core, key, Parsed(setting, minCost).value));
      Crypt(core, key, setting, minCost) == Some(setting[..SETTING - 1] + [Cleared(setting[SETTING - 1])] + hash)
  {
  }

  lemma Atoi64RoundTrip(c: byte)
    requires Atoi64(c).Some?
    ensures Itoa64(Atoi64(c).value) == c
  {
  }

  /** Decoding and encoding groups again clears the bits that fill no byte, and no others. */
  lemma {:induction false} SextetsBack(d: B.Digits)
    requires |d| % 4 == 2
    ensures B.Sextets(B.FromSextets(d)) == d[..|d| - 1] + [d[|d| - 1] / 16 * 16]
    decreases |d|
  {
    hide B.Sextets, B.FromSextets, B.First, B.Second, B.Third, B.Fourth, B.Byte1, B.Byte2, B.Byte3;
    if |d| == 2 {
      B.FromRest(d);
      B.SextetsRest(B.FromSextets(d));
      LastGroup(d[0], d[1]);
    } else {
      B.FromGroup(d);
      SextetsBack(d[4..]);
      B.QuadIs(B.FromSextets(d));
      QuadBack(d[0], d[1], d[2], d[3]);
      assert B.FromSextets(d)[3..] == B.FromSextets(d[4..]);
      assert d[..4] + d[4..][..|d| - 5] == d[..|d| - 1];
    }
  }

  lemma LastGroup(a: B.Digit, b: B.Digit)
    ensures B.First(B.Byte1(a, b)) == a && B.Second(B.Byte1(a, b), 0) == b / 16 * 16
  {
  }

  lemma QuadBack(a: B.Digit, b: B.Digit, c: B.Digit, d: B.Digit)
    ensures var x, y, z := B.Byte1(a, b), B.Byte2(b, c), B.Byte3(c, d); B.Quad(x, y, z) == [a, b, c, d]
  {
    hide B.First, B.Second, B.Third, B.Fourth, B.Byte1, B.Byte2, B.Byte3;
    FirstBack(a, b);
    SecondBack(a, b, c);
    ThirdBack(b, c, d);
    FourthBack(c, d);
  }

  lemma FirstBack(a: B.Digit, b: B.Digit)
    ensures B.First(B.Byte1(a, b)) == a && B.Byte1(a, b) % 4 == b / 16
  {
  }

  lemma SecondBack(a: B.Digit, b: B.Digit, c: B.Digit)
    ensures B.Second(B.Byte1(a, b), B.Byte2(b, c)) == b
  {
    FirstBack(a, b);
    hide B.Byte1;
  }

  lemma ThirdBack(b: B.Digit, c: B.Digit, d: B.Digit)
    ensures B.Third(B.Byte2(b, c), B.Byte3(c, d)) == c
  {
    assert B.Byte2(b, c) % 16 == c / 4;
    hide B.Byte2;
  }

  lemma FourthBack(c: B.Digit, d: B.Digit)
    ensures B.Fourth(B.Byte3(c, d)) == d
  {
  }

  /** The salt characters of the output are those of the decoded salt. */
  lemma SaltText(s: Text)
    requires |s| >= 22 && Known(s, 22)
    ensures BfEncoded(B.FromSextets(BfValues(s, 22))) == s[..21] + [Cleared(s[21])]
  {
    hide B.Sextets, B.FromSextets, Atoi64, Itoa64;
    var d := BfValues(s, 22);
    SextetsBack(d);
    forall i | 0 <= i < 21 ensures Itoa64(d[i]) == s[i] {
      assert Atoi64(At(s, i)).Some?;
      Atoi64RoundTrip(s[i]);
    }
    assert Atoi64(At(s, 21)).Some?;
    var e := d[..21] + [d[21] / 16 * 16];
    assert forall i :: 0 <= i < 21 ==> BfText(e)[i] == Itoa64(d[i]);
  }

  /** What BF_crypt writes: the header, the salt and the hash that the request stands for, in full. */
  lemma CryptText(core: Core, key: seq<byte>, setting: Text, minCost: nat)
    requires Parsed(setting, minCost).Some?
    ensures
      var r := Parsed(setting, minCost).value;
      r.cost <= 17
      && Crypt(core, key, setting, minCost)
         == Some(Header(r.subtype, r.cost) + BfEncoded(r.salt) + BfEncoded(Hash23(core, key, r)))
  {
    hide Known, BfValues, BfEncoded, Hash23, Parsed, Cleared, Header, B.FromSextets;
    ParsedFields(setting, minCost);
    var s := setting[7..];
    SaltText(s);
    CryptIs(core, key, setting, minCost);
    assert setting[..SETTING - 1] == setting[..7] + s[..21];
    var last := [Cleared(s[21])];
    assert s[21] == setting[SETTING - 1];
    assert setting[..SETTING - 1] + last == setting[..7] + (s[..21] + last);
  }

  /** Where the fields of a request come from. */
  lemma ParsedFields(setting: Text, minCost: nat)
    requires Parsed(setting, minCost).Some?
    ensures
      var r := Parsed(setting, minCost).value;
      && r.cost <= 17 && |setting| >= SETTING && setting[..7] == Header(r.subtype, r.cost)
      && Known(setting[7..], 22) && r.salt == B.FromSextets(BfValues(setting[7..], 22))
  {
    ParsedLong(setting, minCost);
    hide Known, BfValues, B.FromSextets;
  }

  lemma KnownLast(s: Text)
    requires Known(s, 22) && |s| >= 22
    ensures Atoi64(s[21]).Some?
  {
    assert Atoi64(At(s, 21)).Some?;
  }

  /** Two keys have the same output under one setting exactly when the 23 bytes agree. */
  lemma CryptInjective(core: Core, key: seq<byte>, other: seq<byte>, setting: Text, minCost: nat)
    requires Parsed(setting, minCost).Some?
    ensures
      var r := Parsed(setting, minCost).value;
      Crypt(core, key, setting, minCost) == Crypt(core, other, setting, minCost)
      <==> Hash23(core, key, r) == Hash23(core, other, r)
  {
    ParsedLong(setting, minCost);
    hide Known, BfDecoded, Atoi64, Parsed, Cleared, BfEncoded, Hash23;
    var r := Parsed(setting, minCost).value;
    var a, b := Hash23(core, key, r), Hash23(core, other, r);
    var head := setting[..SETTING - 1] + [Cleared(setting[SETTING - 1])];
    assert (head + BfEncoded(a))[SETTING..] == BfEncoded(a);
    assert (head + BfEncoded(b))[SETTING..] == BfEncoded(b);
    BfRoundTrip(a, []);
    BfRoundTrip(b, []);
    assert BfEncoded(a) + [] == BfEncoded(a) && BfEncoded(b) + [] == BfEncoded(b);
  }

  // ----- bcrypt

  /** What an operation reports. */
  datatype Result<T> = Ok(value: T) | EInval | ERange

  /** The cost that a count asks for: 0 stands for 5. */
  function Cost(count: nat): nat {
    if count == 0 then 5 else count
  }

  predicate CountAllowed(count: nat) {
    count == 0 || 4 <= count <= 17
  }

  /** _crypt_gensalt_blowfish_rn with the prefix "$2y$" and room for the setting. */
  function Gensalt(count: nat, salt: seq<byte>): Result<Text> {
    if |salt| < 16 || !CountAllowed(count) then EInval
    else
      var c := Cost(count);
      Ok(Header(121, c) + BfEncoded(salt[..16]))
  }

  /** A generated setting passes the checks and asks for its cost and the first 16 bytes of its salt. */
  lemma GensaltParses(count: nat, salt: seq<byte>)
    requires Gensalt(count, salt).Ok?
    ensures
      var setting := Gensalt(count, salt).value;
      && |setting| == SETTING
      && Parsed(setting, 4) == Some(Request(121, if count == 0 then 5 else count, salt[..16]))
  {
    hide BfEncoded, BfDecoded;
    var setting := Gensalt(count, salt).value;
    BfRoundTrip(salt[..16], []);
    assert setting[7..] == BfEncoded(salt[..16]) + [];
  }

  /** apr_bcrypt_encode into a buffer of `room` bytes. */
  function BcryptEncode(core: Core, pw: Text, count: nat, salt: seq<byte>, room: nat): Result<Text> {
    var setting := Gensalt(count, salt);
    if !setting.Ok? then EInval
    else if room < OUTPUT + 1 then ERange
    else
      var out := Crypt(core, pw, setting.value, 4);
      if out.None? then EInval else Ok(out.value)
  }

  /** apr_bcrypt_encode fails exactly for a short salt, a cost it does not take, or a small buffer. */
  lemma BcryptSucceeds(core: Core, pw: Text, count: nat, salt: seq<byte>, room: nat)
    ensures BcryptEncode(core, pw, count, salt, room).Ok?
      <==> |salt| >= 16 && (count == 0 || 4 <= count <= 17) && room >= 61
    ensures BcryptEncode(core, pw, count, salt, room).ERange?
      <==> |salt| >= 16 && (count == 0 || 4 <= count <= 17) && room < 61
  {
    hide Parsed;
    if Gensalt(count, salt).Ok? {
      GensaltParses(count, salt);
    }
  }

  // ----- apr1

  /** "$apr1$" */
  const APR1: Text := [DOLLAR, 97, 112, 114, 49, DOLLAR]

  /** "{SHA}" */
  const SHA: Text := [123, 83, 72, 65, 125]

  /** strncmp with the length of the second string finds no difference. */
  predicate Starts(s: Text, id: Text) {
    id <= s
  }

  /** The longest start of a string of at most `most` characters with no '$' and no NUL. */
  function Salt(s: Text, most: nat): (r: Text)
    ensures |r| <= most && r <= s && DOLLAR !in r && 0 !in r
    ensures |r| < most && |r| < |s| ==> s[|r|] == DOLLAR || s[|r|] == 0
  {
    if s == [] || s[0] == 0 || s[0] == DOLLAR || most == 0 then [] else [s[0]] + Salt(s[1..], most - 1)
  }

  /** The salt that apr_md5_encode takes from its argument. */
  function Refined(salt: Text): Text {
    Salt(if Starts(salt, APR1) then salt[|APR1|..] else salt, 8)
  }

  predicate Stops(c: byte) {
    c == 0 || c == DOLLAR
  }

  /** The contract of Salt leaves one answer. */
  lemma SaltIs(s: Text, n: nat, most: nat)
    requires n <= |s| && n <= most && forall i :: 0 <= i < n ==> !Stops(s[i])
    requires n < |s| && n < most ==> Stops(s[n])
    ensures Salt(s, most) == s[..n]
  {
    var r := Salt(s, most);
    hide Salt;
    assert r == s[..|r|];
    assert |r| < n ==> !Stops(s[|r|]);
    assert forall k :: 0 <= k < |r| ==> r[k] in r && s[k] == r[k];
  }

  /** The loop that finds the end of the salt. */
  method SaltLength(s: Text) returns (n: nat)
    ensures n <= |s| && s[..n] == Salt(s, 8)
  {
    hide Salt;
    n := 0;
    while n < |s| && s[n] != 0 && s[n] != DOLLAR && n < 8
      invariant n <= |s| && n <= 8
      invariant forall i :: 0 <= i < n ==> !Stops(s[i])
    {
      n := n + 1;
    }
    SaltIs(s, n, 8);
  }

  /** A salt with nothing to cut, followed by '$', is found again. */
  lemma SaltFound(salt: Text, most: nat, rest: Text)
    requires |salt| <= most && DOLLAR !in salt && 0 !in salt
    ensures Salt(salt + [DOLLAR] + rest, most) == salt
  {
    hide Salt;
    var s := salt + [DOLLAR] + rest;
    assert forall i :: 0 <= i < |salt| ==> s[i] == salt[i] && !Stops(s[i]);
    SaltIs(s, |salt|, most);
    assert s[..|salt|] == salt;
  }

  /** to64: n six-bit groups, lowest first. */
  function To64(v: nat, n: nat): (r: B.Digits)
    ensures |r| == n
  {
    if n == 0 then [] else [v % 64] + To64(v / 64, n - 1)
  }

  function Power64(n: nat): nat {
    if n == 0 then 1 else 64 * Power64(n - 1)
  }

  /** Equal groups come from numbers that agree in their low bits. */
  lemma {:induction false} To64Injective(v: nat, w: nat, n: nat)
    requires To64(v, n) == To64(w, n) && v < Power64(n) && w < Power64(n)
    ensures v == w
  {
    if n > 0 {
      assert To64(v, n)[1..] == To64(v / 64, n - 1);
      assert To64(w, n)[1..] == To64(w / 64, n - 1);
      assert To64(v, n)[0] == v % 64 && To64(w, n)[0] == w % 64;
      To64Injective(v / 64, w / 64, n - 1);
    }
  }

  /** The number that the groups stand for, lowest first. */
  function From64(d: B.Digits): nat {
    if d == [] then 0 else d[0] + 64 * From64(d[1..])
  }

  /** The groups are the number's digits to the base 64; what does not fit is cut off. */
  lemma {:induction false} To64Value(v: nat, n: nat)
    ensures From64(To64(v, n)) < Power64(n)
    ensures v < Power64(n) ==> From64(To64(v, n)) == v
  {
    if n > 0 {
      assert To64(v, n)[1..] == To64(v / 64, n - 1);
      To64Value(v / 64, n - 1);
    }
  }

  /** The characters to64 writes. */
  function Md5Letter(d: B.Digit): byte {
    if d == 0 then 46
    else if d == 1 then 47
    else if d < 12 then 48 + (d - 2)
    else if d < 38 then 65 + (d - 12)
    else 97 + (d - 38)
  }

  function Md5Text(d: B.Digits): (r: Text)
    ensures |r| == |d|
  {
    seq(|d|, i requires 0 <= i < |d| => Md5Letter(d[i]))
  }

  /** They are '.', '/', the digits and the letters, in the order of their codes. */
  lemma LettersAscend(d: B.Digit, e: B.Digit)
    ensures d < e <==> Md5Letter(d) < Md5Letter(e)
    ensures 46 <= Md5Letter(d) <= 57 || 65 <= Md5Letter(d) <= 90 || 97 <= Md5Letter(d) <= 122
  {
  }

  lemma TextInjective(d: B.Digits, e: B.Digits)
    requires Md5Text(d) == Md5Text(e)
    ensures d == e
  {
    hide Md5Letter;
    assert |d| == |e|;
    forall i | 0 <= i < |d| ensures d[i] == e[i] {
      assert Md5Text(d)[i] == Md5Text(e)[i];
      LettersAscend(d[i], e[i]);
      LettersAscend(e[i], d[i]);
    }
  }

  /** Three bytes of the digest, four characters. */
  function Word(a: byte, b: byte, c: byte): Text {
    Md5Text(To64(a * 65536 + b * 256 + c, 4))
  }

  lemma WordLength(a: byte, b: byte, c: byte)
    ensures |Word(a, b, c)| == 4
  {
  }

  lemma WordInjective(a: byte, b: byte, c: byte, d: byte, e: byte, f: byte)
    requires Word(a, b, c) == Word(d, e, f)
    ensures a == d && b == e && c == f
  {
    hide Md5Text, To64;
    var v, w := a * 65536 + b * 256 + c, d * 65536 + e * 256 + f;
    TextInjective(To64(v, 4), To64(w, 4));
    assert Power64(4) == 64 * 64 * 64 * 64;
    To64Injective(v, w, 4);
  }

  type Digest = s: seq<byte> | |s| == 16 witness [0, 0, 0, 0, 0, 0, 0, 0, 0, 0, 0, 0, 0, 0, 0, 0]

  function Tail(f: Digest): Text {
    Md5Text(To64(f[11], 2))
  }

  /** The 22 characters at the end of an apr1 hash. */
  function DigestText(f: Digest): Text {
    Word(f[0], f[6], f[12]) + Word(f[1], f[7], f[13]) + Word(f[2], f[8], f[14]) + Word(f[3], f[9], f[15])
    + Word(f[4], f[10], f[5]) + Tail(f)
  }

  lemma TailInjective(f: Digest, g: Digest)
    requires Tail(f) == Tail(g)
    ensures f[11] == g[11]
  {
    hide Md5Text, To64;
    TextInjective(To64(f[11], 2), To64(g[11], 2));
    assert Power64(2) == 64 * 64;
    To64Injective(f[11], g[11], 2);
  }

  function Pick(f: Digest, k: nat): Text
    requires k < 5
  {
    if k < 4 then Word(f[k], f[k + 6], f[k + 12]) else Word(f[4], f[10], f[5])
  }

  /** The text of a digest is 22 characters long and holds its six pieces. */
  lemma DigestPieces(f: Digest)
    ensures |DigestText(f)| == 22 && DigestText(f)[20..] == Tail(f)
    ensures DigestText(f)[0..4] == Pick(f, 0) && DigestText(f)[4..8] == Pick(f, 1)
    ensures DigestText(f)[8..12] == Pick(f, 2) && DigestText(f)[12..16] == Pick(f, 3)
    ensures DigestText(f)[16..20] == Pick(f, 4)
  {
    WordLength(f[0], f[6], f[12]);
    WordLength(f[1], f[7], f[13]);
    WordLength(f[2], f[8], f[14]);
    WordLength(f[3], f[9], f[15]);
    WordLength(f[4], f[10], f[5]);
    TailLength(f);
    hide Word, Tail;
    SixPieces(Pick(f, 0), Pick(f, 1), Pick(f, 2), Pick(f, 3), Pick(f, 4), Tail(f));
  }

  lemma TailLength(f: Digest)
    ensures |Tail(f)| == 2
  {
  }

  lemma SixPieces(a: Text, b: Text, c: Text, d: Text, e: Text, t: Text)
    requires |a| == |b| == |c| == |d| == |e| == 4 && |t| == 2
    ensures var s := a + b + c + d + e + t;
      && |s| == 22 && s[0..4] == a && s[4..8] == b && s[8..12] == c && s[12..16] == d && s[16..20] == e && s[20..] == t
  {
  }

  lemma PickInjective(f: Digest, g: Digest, k: nat)
    requires k < 4 && Pick(f, k) == Pick(g, k)
    ensures f[k] == g[k] && f[k + 6] == g[k + 6] && f[k + 12] == g[k + 12]
  {
    WordInjective(f[k], f[k + 6], f[k + 12], g[k], g[k + 6], g[k + 12]);
  }

  /** The text keeps every bit of the digest. */
  lemma DigestInjective(f: Digest, g: Digest)
    requires DigestText(f) == DigestText(g)
    ensures f == g
  {
    DigestPieces(f);
    DigestPieces(g);
    hide Word, Tail, DigestText;
    TailInjective(f, g);
    PickInjective(f, g, 0);
    PickInjective(f, g, 1);
    PickInjective(f, g, 2);
    PickInjective(f, g, 3);
    assert Pick(f, 4) == Pick(g, 4);
    WordInjective(f[4], f[10], f[5], g[4], g[10], g[5]);
  }

  /** The digest of a password and a refined salt. */
  type Md5Core = (Text, Text) -> Digest

  /** The whole text apr_md5_encode builds. */
  function Apr1(core: Md5Core, pw: Text, salt: Text): Text {
    APR1 + Refined(salt) + [DOLLAR] + DigestText(core(pw, Refined(salt)))
  }

  /** An apr1 hash, taken as a salt, stands for the salt it was made with, even cut short after it. */
  lemma SaltOfHash(salt: Text, rest: Text)
    ensures Refined(APR1 + Refined(salt) + [DOLLAR] + rest) == Refined(salt)
  {
    hide Salt;
    var r := Refined(salt);
    var s := APR1 + r + [DOLLAR] + rest;
    assert s[|APR1|..] == r + [DOLLAR] + rest;
    SaltFound(r, 8, rest);
  }

  /** Encoding with an encoded password as the salt gives that again. */
  lemma Apr1Fixpoint(core: Md5Core, pw: Text, salt: Text)
    ensures Apr1(core, pw, Apr1(core, pw, salt)) == Apr1(core, pw, salt)
    ensures |Apr1(core, pw, salt)| == 29 + |Refined(salt)| <= 37
  {
    hide Salt, DigestText;
    SaltOfHash(salt, DigestText(core(pw, Refined(salt))));
    DigestPieces(core(pw, Refined(salt)));
  }

  /** What apr_cpystrn leaves in the result: at most nbytes - 2 characters. */
  function Md5Encode(core: Md5Core, pw: Text, salt: Text, nbytes: nat): Text
    requires nbytes >= 2
  {
    var s := Apr1(core, pw, salt);
    if |s| <= nbytes - 2 then s else s[..nbytes - 2]
  }

  // ----- Validation

  datatype Verdict = Success | Mismatch | Failed

  /** The algorithms behind apr_password_validate that are not part of this model. */
  datatype Cores = Cores(bf: Core, md5: Md5Core, sha: Sha1.Transform, crypt: (Text, Text) -> Option<Text>)

  /** apr_sha1_base64 */
  function ShaText(c: Cores, pw: Text): Text {
    SHA + B.Encoded(Sha1.Hash(c.sha, pw), A.NO_FLAGS)
  }

  predicate IsBcrypt(hash: Text) {
    At(hash, 0) == DOLLAR && At(hash, 1) == 50 && (At(hash, 2) == 97 || At(hash, 2) == 121) && At(hash, 3) == DOLLAR
  }

  function Compared(sample: Text, hash: Text): Verdict {
    if sample == hash then Success else Mismatch
  }

  /** apr_password_validate, whose sample buffer has 200 bytes. */
  function Validate(c: Cores, pw: Text, hash: Text): Verdict {
    if IsBcrypt(hash) then
      var sample := Crypt(c.bf, pw, hash, 4);
      if sample.None? then Failed else Compared(sample.value, hash)
    else if Starts(hash, APR1) then Compared(Md5Encode(c.md5, pw, hash, 200), hash)
    else if Starts(hash, SHA) then Compared(ShaText(c, pw), hash)
    else
      var sample := c.crypt(pw, hash);
      if sample.None? then Mismatch else Compared(sample.value, hash)
  }

  /**
    A password is valid for what apr_bcrypt_encode makes of it, and another one exactly when its
    23 bytes under the same cost and salt are the same.
  */
  lemma BcryptValidates(c: Cores, pw: Text, other: Text, count: nat, salt: seq<byte>, room: nat)
    requires BcryptEncode(c.bf, pw, count, salt, room).Ok?
    ensures
      var hash := BcryptEncode(c.bf, pw, count, salt, room).value;
      var r := Request(121, if count == 0 then 5 else count, salt[..16]);
      && |hash| == OUTPUT < room
      && Validate(c, pw, hash) == Success
      && Validate(c, other, hash) == if Hash23(c.bf, other, r) == Hash23(c.bf, pw, r) then Success else Mismatch
  {
    BcryptSucceeds(c.bf, pw, count, salt, room);
    GensaltParses(count, salt);
    var setting := Gensalt(count, salt).value;
    var hash := BcryptEncode(c.bf, pw, count, salt, room).value;
    assert forall i :: 0 <= i < 28 ==> hash[i] == setting[i];
    hide Crypt, Parsed, Gensalt, Hash23, Md5Encode;
    assert Crypt(c.bf, pw, setting, 4) == Some(hash);
    CryptFixpoint(c.bf, pw, setting, 4);
    CryptInjective(c.bf, other, pw, hash, 4);
    CryptDefined(c.bf, other, hash, 4);
  }

  /** The first four characters tell a bcrypt hash. */
  lemma BcryptMarked(hash: Text)
    ensures IsBcrypt(hash) <==> Starts(hash, [DOLLAR, 50, 97, DOLLAR]) || Starts(hash, [DOLLAR, 50, 121, DOLLAR])
  {
    if IsBcrypt(hash) {
      assert hash[..4] == [DOLLAR, 50, hash[2], DOLLAR];
    }
    var a, y: Text := [DOLLAR, 50, 97, DOLLAR], [DOLLAR, 50, 121, DOLLAR];
    assert Starts(hash, a) ==> hash[0] == a[0] && hash[1] == a[1] && hash[2] == a[2] && hash[3] == a[3];
    assert Starts(hash, y) ==> hash[0] == y[0] && hash[1] == y[1] && hash[2] == y[2] && hash[3] == y[3];
  }

  /**
    Validation of a bcrypt hash fails exactly when it is no setting; otherwise the password is
    valid exactly if hashing it with the hash as setting gives the hash. What crypt makes of a
    setting with either marker is valid for its own password.
  */
  lemma BcryptBranch(c: Cores, pw: Text, hash: Text)
    requires IsBcrypt(hash)
    ensures Validate(c, pw, hash) == Failed <==> Parsed(hash, 4).None?
    ensures Validate(c, pw, hash) == Success <==> Crypt(c.bf, pw, hash, 4) == Some(hash)
    ensures Crypt(c.bf, pw, hash, 4).Some? ==> Validate(c, pw, Crypt(c.bf, pw, hash, 4).value) == Success
  {
    CryptDefined(c.bf, pw, hash, 4);
    if Crypt(c.bf, pw, hash, 4).Some? {
      var out := Crypt(c.bf, pw, hash, 4).value;
      CryptFixpoint(c.bf, pw, hash, 4);
      CryptMarked(c.bf, pw, hash, 4);
    }
  }

  lemma CryptMarked(core: Core, key: seq<byte>, setting: Text, minCost: nat)
    requires Crypt(core, key, setting, minCost).Some?
    ensures IsBcrypt(Crypt(core, key, setting, minCost).value) <==> IsBcrypt(setting)
  {
    hide Parsed, Cleared, BfEncoded, Hash23;
    ParsedLong(setting, minCost);
    var out := Crypt(core, key, setting, minCost).value;
    assert forall i :: 0 <= i < 4 ==> out[i] == setting[i];
  }

  /** A {SHA} hash is valid exactly for the passwords whose own {SHA} text it is. */
  lemma ShaBranch(c: Cores, pw: Text, hash: Text)
    requires Starts(hash, SHA)
    ensures Validate(c, pw, hash) == if hash == SHA + B.Encoded(Sha1.Hash(c.sha, pw), A.NO_FLAGS) then Success
                                     else Mismatch
  {
    assert hash[0] == SHA[0] == 123;
    assert APR1[0] != hash[0];
  }

  /** A password is valid for a {SHA} hash exactly when its SHA-1 hash is the one encoded there. */
  lemma ShaValidates(c: Cores, pw: Text, other: Text)
    ensures
      var hash := SHA + B.Encoded(Sha1.Hash(c.sha, pw), A.NO_FLAGS);
      Validate(c, other, hash) == if Sha1.Hash(c.sha, other) == Sha1.Hash(c.sha, pw) then Success else Mismatch
  {
    hide Validate, B.Encoded, Sha1.Hash;
    var x, y := Sha1.Hash(c.sha, pw), Sha1.Hash(c.sha, other);
    var hash := SHA + B.Encoded(x, A.NO_FLAGS);
    ShaBranch(c, other, hash);
    B.RoundTrip(x, A.NO_FLAGS);
    B.RoundTrip(y, A.NO_FLAGS);
    assert hash[|SHA|..] == B.Encoded(x, A.NO_FLAGS);
    assert (SHA + B.Encoded(y, A.NO_FLAGS))[|SHA|..] == B.Encoded(y, A.NO_FLAGS);
  }

  /** A hash of no known kind is valid exactly if the system's crypt gives it back; a refusal is a mismatch. */
  lemma CryptBranch(c: Cores, pw: Text, hash: Text)
    requires !IsBcrypt(hash) && !Starts(hash, APR1) && !Starts(hash, SHA)
    ensures Validate(c, pw, hash) == if c.crypt(pw, hash) == Some(hash) then Success else Mismatch
  {
  }

  /** An apr1 hash is not taken for a bcrypt hash. */
  lemma Apr1Branch(c: Cores, pw: Text, hash: Text)
    requires Starts(hash, APR1)
    ensures Validate(c, pw, hash) == Compared(Apr1(c.md5, pw, hash), hash)
  {
    assert hash[1] == APR1[1];
    hide Apr1, Crypt;
    Apr1Fixpoint(c.md5, pw, hash);
  }

  /**
    A password is valid for its apr1 hash, and another one exactly when it has the same digest
    with the same salt.
  */
  lemma Apr1Validates(c: Cores, pw: Text, other: Text, salt: Text)
    ensures
      var hash := Apr1(c.md5, pw, salt);
      && Validate(c, pw, hash) == Success
      && (Validate(c, other, hash) == Success <==> c.md5(other, Refined(salt)) == c.md5(pw, Refined(salt)))
  {
    hide Validate, Refined, DigestText;
    var hash := Apr1(c.md5, pw, salt);
    var r := Refined(salt);
    var f, g := c.md5(pw, r), c.md5(other, r);
    SaltOfHash(salt, DigestText(f));
    Apr1Branch(c, pw, hash);
    Apr1Branch(c, other, hash);
    var head := APR1 + r + [DOLLAR];
    assert (head + DigestText(f))[|head|..] == DigestText(f);
    assert (head + DigestText(g))[|head|..] == DigestText(g);
    if DigestText(f) == DigestText(g) {
      DigestInjective(f, g);
    }
  }

  /**
    What apr_md5_encode leaves in a result buffer that at least holds the marker is valid
    exactly when there are two bytes to spare, one more than the text and its NUL take.
  */
  lemma Md5EncodeValidates(c: Cores, pw: Text, salt: Text, nbytes: nat)
    requires nbytes >= |APR1| + 2
    ensures Validate(c, pw, Md5Encode(c.md5, pw, salt, nbytes)) == Success
            <==> nbytes >= |Apr1(c.md5, pw, salt)| + 2
  {
    hide Validate, DigestText, Refined;
    var s := Apr1(c.md5, pw, salt);
    Apr1Fixpoint(c.md5, pw, salt);
    Apr1Validates(c, pw, pw, salt);
    if nbytes < |s| + 2 {
      var r := Refined(salt);
      var t := s[..nbytes - 2];
      assert t[..|APR1|] == APR1;
      Apr1Branch(c, pw, t);
      Apr1Fixpoint(c.md5, pw, t);
      var head := APR1 + r + [DOLLAR];
      if |t| >= |head| {
        assert t == head + t[|head|..];
        SaltOfHash(salt, t[|head|..]);
      }
    }
  }
}
