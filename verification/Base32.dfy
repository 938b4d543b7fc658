/**
  Base 32 of encoding/apr_encode.c (sections 6 and 7 of RFC 4648). Shifts and
  masks on disjoint bits are written as division, remainder, product and sum.
*/
module Base32 {
  import opened Streams
  import A = Alphabets

  type Status = A.Status
  type Flags = A.Flags
  type Digit = d: int | 0 <= d < 32
  type Digits = s: seq<int> | forall i :: 0 <= i < |s| ==> 0 <= s[i] < 32

  /** The table `base32`, or `base32hex`. */
  function Letter(d: Digit, hex: bool): byte {
    if hex then if d < 10 then 48 + d else 65 + (d - 10)
    else if d < 26 then 65 + d else 50 + (d - 26)
  }

  /** The table pr2five, or pr2fivehex; 32 is no letter and 128 is padding. */
  function Pr2five(hex: bool): A.Table {
    (c: byte) =>
      if c == A.PAD then 128
      else if hex then if 48 <= c <= 57 then c - 48 else if 65 <= c <= 86 then 10 + (c - 65) else 32
      else if 65 <= c <= 90 then c - 65 else if 50 <= c <= 55 then 26 + (c - 50) else 32
  }

  lemma LetterRoundTrip(d: Digit, hex: bool)
    ensures Pr2five(hex)(Letter(d, hex)) == d
  {
  }

  // ----- Groups of five bytes and of eight digits

  /** A byte of a group; a byte that is missing counts as zero. */
  function At(g: seq<byte>, k: nat): byte {
    if k < |g| then g[k] else 0
  }

  function D0(a: byte): Digit { a / 8 }
  function D1(a: byte, b: byte): Digit { a % 8 * 4 + b / 64 }
  function D2(b: byte): Digit { b / 2 % 32 }
  function D3(b: byte, c: byte): Digit { b % 2 * 16 + c / 16 }
  function D4(c: byte, d: byte): Digit { c % 16 * 2 + d / 128 }
  function D5(d: byte): Digit { d / 4 % 32 }
  function D6(d: byte, e: byte): Digit { d % 4 * 8 + e / 32 }
  function D7(e: byte): Digit { e % 32 }

  function B0(p: Digit, q: Digit): byte { p * 8 + q / 4 }
  function B1(p: Digit, q: Digit, r: Digit): byte { p % 4 * 64 + q * 2 + r / 16 }
  function B2(p: Digit, q: Digit): byte { p % 16 * 16 + q / 2 }
  function B3(p: Digit, q: Digit, r: Digit): byte { p % 2 * 128 + q * 4 + r / 8 }
  function B4(p: Digit, q: Digit): byte { p % 8 * 32 + q }

  /** How many digits stand for k bytes. */
  function DigitCount(k: nat): nat
    requires k <= 5
  {
    if k == 0 then 0 else if k == 1 then 2 else if k == 2 then 4 else if k == 3 then 5 else if k == 4 then 7 else 8
  }

  /** How many bytes k digits fill. */
  function ByteCount(k: nat): nat
    requires k <= 8
  {
    if k < 2 then 0 else if k < 4 then 1 else if k == 4 then 2 else if k < 7 then 3 else if k == 7 then 4 else 5
  }

  function Eight(a: byte, b: byte, c: byte, d: byte, e: byte): (r: Digits)
    ensures |r| == 8
  {
    [D0(a), D1(a, b), D2(b), D3(b, c), D4(c, d), D5(d), D6(d, e), D7(e)]
  }

  function Five(d: Digits): (r: seq<byte>)
    requires |d| == 8
    ensures |r| == 5
  {
    [B0(d[0], d[1]), B1(d[1], d[2], d[3]), B2(d[3], d[4]), B3(d[4], d[5], d[6]), B4(d[6], d[7])]
  }

  /** The digits of a group of at most five bytes. */
  function GroupDigits(g: seq<byte>): (r: Digits)
    requires |g| <= 5
    ensures |r| == DigitCount(|g|)
  {
    Eight(At(g, 0), At(g, 1), At(g, 2), At(g, 3), At(g, 4))[..DigitCount(|g|)]
  }

  function Filled(d: Digits): (r: Digits)
    requires |d| <= 8
    ensures |r| == 8
  {
    seq(8, i requires 0 <= i < 8 => if i < |d| then d[i] else 0)
  }

  /** The bytes of a group of at most eight digits. */
  function GroupBytes(d: Digits): (r: seq<byte>)
    requires |d| <= 8
    ensures |r| == ByteCount(|d|)
  {
    Five(Filled(d))[..ByteCount(|d|)]
  }

  /** A digit made of high and low bits comes apart again. */
  lemma Packed(hi: nat, lo: nat, size: nat)
    requires lo < size && size in {2, 4, 8, 16}
    ensures (hi * size + lo) / size == hi && (hi * size + lo) % size == lo
  {
    if size == 2 {
      assert (hi * 2 + lo) / 2 == hi;
    } else if size == 4 {
      assert (hi * 4 + lo) / 4 == hi;
    } else if size == 8 {
      assert (hi * 8 + lo) / 8 == hi;
    } else {
      assert (hi * 16 + lo) / 16 == hi;
    }
  }

  // A byte is its high bits, five bits in the middle, and its low bits.

  lemma LowOne(b: byte)
    ensures b == b / 64 * 64 + b / 2 % 32 * 2 + b % 2
  {
  }

  lemma LowTwo(b: byte)
    ensures b == b / 128 * 128 + b / 4 % 32 * 4 + b % 4
  {
  }

  lemma Back0(a: byte, b: byte)
    ensures B0(D0(a), D1(a, b)) == a
  {
    Packed(a % 8, b / 64, 4);
  }

  lemma Back1(a: byte, b: byte, c: byte)
    ensures B1(D1(a, b), D2(b), D3(b, c)) == b
  {
    Packed(a % 8, b / 64, 4);
    Packed(b % 2, c / 16, 16);
    LowOne(b);
  }

  lemma Back2(b: byte, c: byte, d: byte)
    ensures B2(D3(b, c), D4(c, d)) == c
  {
    Packed(b % 2, c / 16, 16);
    Packed(c % 16, d / 128, 2);
  }

  lemma Back3(c: byte, d: byte, e: byte)
    ensures B3(D4(c, d), D5(d), D6(d, e)) == d
  {
    Packed(c % 16, d / 128, 2);
    Packed(d % 4, e / 32, 8);
    LowTwo(d);
  }

  lemma Back4(d: byte, e: byte)
    ensures B4(D6(d, e), D7(e)) == e
  {
    Packed(d % 4, e / 32, 8);
  }

  lemma GroupRoundTrip(g: seq<byte>)
    requires |g| <= 5
    ensures GroupBytes(GroupDigits(g)) == g
  {
    hide D0, D1, D2, D3, D4, D5, D6, D7, B0, B1, B2, B3, B4;
    Back0(At(g, 0), At(g, 1));
    Back1(At(g, 0), At(g, 1), At(g, 2));
    Back2(At(g, 1), At(g, 2), At(g, 3));
    Back3(At(g, 2), At(g, 3), At(g, 4));
    Back4(At(g, 3), At(g, 4));
    var d, f := GroupDigits(g), Filled(GroupDigits(g));
    assert forall i :: 0 <= i < |d| ==> f[i] == d[i];
    assert forall i :: 0 <= i < |g| ==> Five(f)[i] == At(g, i);
  }

  // ----- Whole texts

  function Quintets(src: seq<byte>): Digits {
    if |src| <= 5 then GroupDigits(src) else GroupDigits(src[..5]) + Quintets(src[5..])
  }

  function FromQuintets(d: Digits): seq<byte> {
    if |d| <= 8 then GroupBytes(d) else GroupBytes(d[..8]) + FromQuintets(d[8..])
  }

  lemma {:induction false} QuintetsRoundTrip(src: seq<byte>)
    ensures FromQuintets(Quintets(src)) == src
    decreases |src|
  {
    hide GroupDigits, GroupBytes;
    if |src| <= 5 {
      GroupRoundTrip(src);
    } else {
      var g, d := src[..5], Quintets(src[5..]);
      GroupRoundTrip(g);
      QuintetsRoundTrip(src[5..]);
      QuintetsNone(src[5..]);
      assert (GroupDigits(g) + d)[..8] == GroupDigits(g) && (GroupDigits(g) + d)[8..] == d;
      assert src == src[..5] + src[5..];
    }
  }

  lemma {:induction false} QuintetsNone(src: seq<byte>)
    requires src != []
    ensures Quintets(src) != []
  {
    hide Eight, Quintets;
    if |src| <= 5 {
      LastGroup(src);
    } else {
      MoreGroups(src);
    }
  }

  /** Digits in the last group of the text of n bytes. */
  lemma {:induction false} QuintetsLength(src: seq<byte>)
    ensures |Quintets(src)| == |src| / 5 * 8 + DigitCount(|src| % 5)
    decreases |src|
  {
    hide GroupDigits;
    if |src| > 5 {
      QuintetsLength(src[5..]);
    }
  }

  lemma {:induction false} FromQuintetsLength(d: Digits)
    ensures |FromQuintets(d)| == |d| / 8 * 5 + ByteCount(|d| % 8)
    decreases |d|
  {
    hide GroupBytes, ByteCount;
    if |d| <= 8 {
      ByteCountWhole(|d|);
    } else {
      OneGroupLess(|d|);
      ByteCountWhole(8);
      FromQuintetsLength(d[8..]);
    }
  }

  lemma ByteCountWhole(k: nat)
    requires k <= 8
    ensures ByteCount(k) == k / 8 * 5 + ByteCount(k % 8) && ByteCount(8) == 5
  {
  }

  lemma OneGroupLess(n: nat)
    requires n >= 8
    ensures n / 8 == (n - 8) / 8 + 1 && n % 8 == (n - 8) % 8
  {
  }

  function Letters(d: Digits, hex: bool): (r: seq<byte>)
    ensures |r| == |d|
  {
    seq(|d|, i requires 0 <= i < |d| => Letter(d[i], hex))
  }

  /** How many padding characters fill up the last group. */
  function PadCount(count: nat): nat {
    [0, 6, 4, 3, 1][count % 5]
  }

  function Padding(n: nat): (r: seq<byte>)
    ensures |r| == n && A.AllPad(r)
  {
    seq(n, i => A.PAD)
  }

  /** The encoded text. */
  function Encoded(src: seq<byte>, f: Flags): seq<byte> {
    Letters(Quintets(src), f.hex) + (if f.noPadding then [] else Padding(PadCount(|src|)))
  }

  /** The number of letters at the start of a text. */
  function Prefix(text: seq<byte>, hex: bool): (n: nat)
    ensures n <= |text| && A.Letters(text[..n], Pr2five(hex), 32)
  {
    A.Prefix(text, Pr2five(hex), 32)
  }

  function Values(text: seq<byte>, hex: bool): (r: Digits)
    requires A.Letters(text, Pr2five(hex), 32)
    ensures |r| == |text|
  {
    seq(|text|, i requires 0 <= i < |text| => Pr2five(hex)(text[i]))
  }

  /** Strict decoding tolerates at most six padding characters. */
  const MOST := 6

  /** Digits that no number of bytes gives. */
  predicate Odd(n: nat) {
    n % 8 == 1 || n % 8 == 3 || n % 8 == 6
  }

  function DecodeStatus(text: seq<byte>, f: Flags): Status {
    var n := Prefix(text, f.hex);
    if Odd(n) then A.EIncomplete else A.Judged(text[n..], MOST, f.relaxed)
  }

  function Decoded(text: seq<byte>, f: Flags): seq<byte> {
    FromQuintets(Values(text[..Prefix(text, f.hex)], f.hex))
  }

  // ----- What strict decoding accepts

  /** A letter of the alphabet. */
  predicate IsLetter(c: byte, hex: bool) {
    if hex then 48 <= c <= 57 || 65 <= c <= 86 else 65 <= c <= 90 || 50 <= c <= 55
  }

  /** `n` letters, a number of them that bytes give, and then up to six padding characters. */
  predicate Strict(text: seq<byte>, n: nat, hex: bool) {
    && n <= |text| <= n + 6 && n % 8 in [0, 2, 4, 5, 7]
    && (forall i :: 0 <= i < n ==> IsLetter(text[i], hex))
    && (forall i :: n <= i < |text| ==> text[i] == A.PAD)
  }

  /** Strict decoding succeeds exactly on those texts; a relaxed one fails only for the number of letters. */
  lemma StrictDecodes(text: seq<byte>, f: Flags)
    ensures !f.relaxed ==> (DecodeStatus(text, f) == A.Success <==> exists n :: Strict(text, n, f.hex))
    ensures f.relaxed ==> DecodeStatus(text, f) == if Odd(Prefix(text, f.hex)) then A.EIncomplete else A.Success
  {
    PadIsNone(f.hex);
    A.StrictExactly(text, Pr2five(f.hex), 32, MOST);
    hide A.Prefix, A.Form, Pr2five, Strict, Odd;
    forall n: nat ensures Strict(text, n, f.hex) <==> A.Form(text, n, Pr2five(f.hex), 32, MOST) && !Odd(n) {
      StrictForm(text, n, f.hex);
    }
  }

  lemma PadIsNone(hex: bool)
    ensures Pr2five(hex)(A.PAD) >= 32
  {
  }

  lemma StrictForm(text: seq<byte>, n: nat, hex: bool)
    ensures Strict(text, n, hex) <==> A.Form(text, n, Pr2five(hex), 32, MOST) && !Odd(n)
  {
    assert forall c: byte :: Pr2five(hex)(c) < 32 <==> IsLetter(c, hex);
    assert !Odd(n) <==> n % 8 in [0, 2, 4, 5, 7];
    hide Pr2five, IsLetter, Odd;
    if n <= |text| {
      assert forall i :: 0 <= i < n ==> text[..n][i] == text[i];
      assert forall i :: 0 <= i < |text| - n ==> text[n..][i] == text[n + i];
      assert forall i :: n <= i < |text| ==> text[i] == text[n..][i - n];
    }
  }

  /** The hex alphabet has no 'W' to 'Z'; the other one has no '0', '1', '8' and '9'. */
  lemma AlphabetKept(src: seq<byte>, f: Flags)
    ensures f.hex ==> forall c :: c in Encoded(src, f) ==> !(87 <= c <= 90)
    ensures !f.hex ==> forall c :: c in Encoded(src, f) ==> c !in [48, 49, 56, 57]
  {
    hide Quintets;
    var d, text := Quintets(src), Encoded(src, f);
    forall i | 0 <= i < |text| ensures if f.hex then !(87 <= text[i] <= 90) else text[i] !in [48, 49, 56, 57] {
      if i >= |d| {
        assert text[i] == A.PAD;
      }
    }
  }

  lemma {:induction false} LettersAreValues(d: Digits, hex: bool)
    ensures A.Letters(Letters(d, hex), Pr2five(hex), 32) && Values(Letters(d, hex), hex) == d
  {
    hide Pr2five, Letter;
    forall i | 0 <= i < |d| ensures Pr2five(hex)(Letters(d, hex)[i]) == d[i] {
      LetterRoundTrip(d[i], hex);
    }
  }

  /** Strict decoding inverts encoding, for every byte string and every combination of flags. */
  lemma {:induction false} RoundTrip(src: seq<byte>, f: Flags)
    ensures DecodeStatus(Encoded(src, f), f) == A.Success && Decoded(Encoded(src, f), f) == src
  {
    var pad := if f.noPadding then [] else Padding(PadCount(|src|));
    assert pad == [] || Pr2five(f.hex)(pad[0]) == 128;
    hide Quintets, FromQuintets, A.Prefix, Pr2five, Letters, Padding, PadCount, Odd;
    PadFits(|src|);
    NotOdd(src);
    var d := Quintets(src);
    var letters := Letters(d, f.hex);
    LettersAreValues(d, f.hex);
    A.PrefixIs(letters, pad, Pr2five(f.hex), 32);
    assert (letters + pad)[..|letters|] == letters && (letters + pad)[|letters|..] == pad;
    QuintetsRoundTrip(src);
  }

  lemma PadFits(count: nat)
    ensures PadCount(count) <= MOST
  {
  }

  lemma {:induction false} NotOdd(src: seq<byte>)
    ensures !Odd(|Quintets(src)|)
  {
    hide Quintets;
    QuintetsLength(src);
    Mod8(|src| / 5, DigitCount(|src| % 5));
  }

  lemma Mod8(q: nat, r: nat)
    requires r < 8
    ensures (q * 8 + r) % 8 == r
  {
  }

  /** The encoder's size query, with room for the NUL. */
  function EncodeQuery(count: nat): nat {
    (count + 4) / 5 * 8 + 1
  }

  /** The query is exact with padding, and an upper bound without. */
  lemma {:induction false} EncodeQueryFits(src: seq<byte>, f: Flags)
    ensures |Encoded(src, f)| + 1 == EncodeQuery(|src|) - (if f.noPadding then PadCount(|src|) else 0)
  {
    hide Quintets;
    QuintetsLength(src);
    assert |src| == 5 * (|src| / 5) + |src| % 5;
  }

  // ----- The loops

  /** What has been written for src[..i], and what is still to be written. */
  ghost predicate Written(src: seq<byte>, i: int, hex: bool, out: seq<byte>) {
    0 <= i <= |src| && out + Letters(Quintets(src[i..]), hex) == Letters(Quintets(src), hex)
  }

  lemma LettersConcat(a: Digits, b: Digits, hex: bool)
    ensures Letters(a + b, hex) == Letters(a, hex) + Letters(b, hex)
  {
    hide Letter;
  }

  lemma {:induction false} GroupIs(src: seq<byte>)
    requires |src| >= 5
    ensures Quintets(src) == Eight(src[0], src[1], src[2], src[3], src[4]) + Quintets(src[5..])
  {
    hide Eight, GroupDigits, Quintets;
    WholeGroup(src[..5]);
    if |src| == 5 {
      LastGroup(src);
      LastGroup([]);
      NoGroup();
      assert src[5..] == [] && src == src[..5];
    } else {
      MoreGroups(src);
    }
  }

  lemma {:induction false} MoreGroups(src: seq<byte>)
    requires |src| > 5
    ensures Quintets(src) == GroupDigits(src[..5]) + Quintets(src[5..])
  {
    hide GroupDigits;
  }

  lemma WholeGroup(g: seq<byte>)
    requires |g| == 5
    ensures GroupDigits(g) == Eight(g[0], g[1], g[2], g[3], g[4])
  {
    hide Eight;
  }

  lemma NoGroup()
    ensures GroupDigits([]) == []
  {
    hide Eight;
  }

  lemma {:induction false} WrittenGroup(src: seq<byte>, i: nat, hex: bool, out: seq<byte>)
    requires Written(src, i, hex, out) && i + 4 < |src|
    ensures Written(src, i + 5, hex, out + Letters(Eight(src[i], src[i + 1], src[i + 2], src[i + 3], src[i + 4]), hex))
  {
    hide Letters, Quintets, Eight;
    var rest := src[i..];
    GroupIs(rest);
    LettersConcat(Eight(rest[0], rest[1], rest[2], rest[3], rest[4]), Quintets(rest[5..]), hex);
    assert rest[5..] == src[i + 5..];
  }

  /** apr_encode_base32_binary into a buffer. */
  method Encode(src: seq<byte>, f: Flags) returns (out: seq<byte>)
    ensures out == Encoded(src, f)
  {
    hide Letter, Letters, Quintets, Eight, GroupDigits, Written;
    out := [];
    var i := 0;
    WrittenStart(src, f.hex);
    if |src| > 4 {
      while i < |src| - 4
        invariant 0 <= i <= |src| && i % 5 == 0 && Written(src, i, f.hex, out)
      {
        WrittenGroup(src, i, f.hex, out);
        out := out + Letters(Eight(src[i], src[i + 1], src[i + 2], src[i + 3], src[i + 4]), f.hex);
        i := i + 5;
      }
    }
    WrittenEnd(src, i, f.hex, out);
    if i < |src| {
      var last := EncodeLast(src[i..], f);
      out := out + last;
    }
  }

  lemma {:induction false} WrittenStart(src: seq<byte>, hex: bool)
    ensures Written(src, 0, hex, [])
  {
    assert src[0..] == src;
  }

  lemma {:induction false} WrittenEnd(src: seq<byte>, i: nat, hex: bool, out: seq<byte>)
    requires Written(src, i, hex, out) && i % 5 == 0 && i <= |src| < i + 5
    ensures |src| % 5 == |src| - i && out + Letters(GroupDigits(src[i..]), hex) == Letters(Quintets(src), hex)
    ensures i == |src| ==> Letters(GroupDigits(src[i..]), hex) == []
  {
    hide GroupDigits, Letter, Letters, Quintets;
    LastGroup(src[i..]);
  }

  lemma {:induction false} LastGroup(g: seq<byte>)
    requires |g| <= 5
    ensures Quintets(g) == GroupDigits(g)
  {
    hide GroupDigits;
  }

  /** The branches for the one to four bytes that are left. */
  method EncodeLast(g: seq<byte>, f: Flags) returns (out: seq<byte>)
    requires 1 <= |g| <= 4
    ensures out == Letters(GroupDigits(g), f.hex) + (if f.noPadding then [] else Padding(PadCount(|g|)))
  {
    hide Letter, D0, D1, D2, D3, D4, D5, D6;
    var hex := f.hex;
    out := [Letter(D0(g[0]), hex)];
    var pads;
    if |g| == 1 {
      out := out + [Letter(D1(g[0], 0), hex)];
      pads := 6;
    } else if |g| == 2 {
      out := out + [Letter(D1(g[0], g[1]), hex), Letter(D2(g[1]), hex), Letter(D3(g[1], 0), hex)];
      pads := 4;
    } else if |g| == 3 {
      out := out + [Letter(D1(g[0], g[1]), hex), Letter(D2(g[1]), hex), Letter(D3(g[1], g[2]), hex),
                    Letter(D4(g[2], 0), hex)];
      pads := 3;
    } else {
      out := out + [Letter(D1(g[0], g[1]), hex), Letter(D2(g[1]), hex), Letter(D3(g[1], g[2]), hex),
                    Letter(D4(g[2], g[3]), hex), Letter(D5(g[3]), hex), Letter(D6(g[3], 0), hex)];
      pads := 1;
    }
    assert out == Letters(GroupDigits(g), hex);
    if !f.noPadding {
      out := out + Padding(pads);
    }
  }

  method Scan(text: seq<byte>, f: Flags) returns (n: nat, status: Status)
    ensures n == Prefix(text, f.hex) && status == A.Judged(text[n..], MOST, f.relaxed)
  {
    n, status := A.Scan(text, Pr2five(f.hex), 32, MOST, f.relaxed);
  }

  /** apr_decode_base32_binary into a buffer. */
  method Decode(text: seq<byte>, f: Flags) returns (status: Status, out: seq<byte>)
    ensures status == DecodeStatus(text, f) && out == Decoded(text, f)
  {
    hide Pr2five, Values, FromQuintets, A.Prefix, A.Judged, Odd;
    var count;
    count, status := Scan(text, f);
    var incomplete;
    incomplete, out := DecodeDigits(Values(text[..count], f.hex));
    if incomplete {
      status := A.EIncomplete;
    }
  }

  /** The loop over whole groups, and what is left. */
  method DecodeDigits(d: Digits) returns (incomplete: bool, out: seq<byte>)
    ensures incomplete <==> Odd(|d|)
    ensures out == FromQuintets(d)
  {
    hide Five, GroupBytes, FromQuintets, Odd;
    out := [];
    var i, count := 0, |d|;
    assert d[0..] == d;
    while count >= 8
      invariant 0 <= i && 0 <= count && i + count == |d| && (Odd(count) <==> Odd(|d|))
      invariant out + FromQuintets(d[i..]) == FromQuintets(d)
    {
      FromGroup(d[i..]);
      assert d[i..][8..] == d[i + 8..] && d[i..][..8] == d[i..i + 8];
      OddLess(count);
      out := out + Five(d[i..i + 8]);
      i, count := i + 8, count - 8;
    }
    var last;
    incomplete, last := DecodeLast(d[i..]);
    FromRest(d[i..]);
    out := out + last;
  }

  lemma OddLess(n: nat)
    requires n >= 8
    ensures Odd(n - 8) <==> Odd(n)
  {
    OneGroupLess(n);
  }

  lemma {:induction false} FromGroup(d: Digits)
    requires |d| >= 8
    ensures FromQuintets(d) == Five(d[..8]) + FromQuintets(d[8..])
  {
    hide Five;
    assert Filled(d[..8]) == d[..8];
    assert d[8..] == [] ==> d == d[..8];
  }

  lemma {:induction false} FromRest(d: Digits)
    requires |d| < 8
    ensures FromQuintets(d) == GroupBytes(d)
  {
  }

  /** What is left after the whole groups. */
  method DecodeLast(d: Digits) returns (incomplete: bool, out: seq<byte>)
    requires |d| < 8
    ensures incomplete <==> Odd(|d|)
    ensures out == GroupBytes(d)
  {
    hide B0, B1, B2, B3, B4;
    out := [];
    var count := |d|;
    ghost var f := Filled(d);
    assert forall i :: 0 <= i < |d| ==> f[i] == d[i];
    if count >= 2 {
      out := out + [B0(d[0], d[1])];
    }
    if count >= 4 {
      out := out + [B1(d[1], d[2], d[3])];
    }
    if count >= 5 {
      out := out + [B2(d[3], d[4])];
    }
    if count >= 7 {
      out := out + [B3(d[4], d[5], d[6])];
    }
    incomplete := count == 1 || count == 3 || count == 6;
  }

  /** apr_decode_base32_binary with no buffer: the same status, and exactly the length a decode writes. */
  method DecodeQuery(text: seq<byte>, f: Flags) returns (status: Status, dlen: nat)
    ensures status == DecodeStatus(text, f) && dlen == |Decoded(text, f)|
  {
    hide Pr2five, FromQuintets, A.Prefix;
    var count;
    count, status := Scan(text, f);
    FromQuintetsLength(Values(text[..count], f.hex));
    dlen := count / 8 * 5;
    match count % 8 {
      case 7 =>
        dlen := dlen + 4;
      case 6 =>
        status := A.EIncomplete;
        dlen := dlen + 3;
      case 5 =>
        dlen := dlen + 3;
      case 4 =>
        dlen := dlen + 2;
      case 3 =>
        status := A.EIncomplete;
        dlen := dlen + 1;
      case 2 =>
        dlen := dlen + 1;
      case 1 =>
        status := A.EIncomplete;
      case _ =>
    }
  }
}
