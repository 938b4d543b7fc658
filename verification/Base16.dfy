/**
  Base 16 of encoding/apr_encode.c (section 8 of RFC 4648), in either case and
  with or without colons between the bytes.
*/
module Base16 {
  import opened Streams
  import A = Alphabets

  type Status = A.Status
  type Flags = A.Flags
  type Nibble = d: int | 0 <= d < 16

  const COLON: byte := 58

  /** The table `base16`, or `base16lower`. */
  function Letter(d: Nibble, lower: bool): byte {
    if d < 10 then 48 + d else if lower then 97 + (d - 10) else 65 + (d - 10)
  }

  /** The table pr2two: 16 is no letter, and 32 is a colon. */
  function Pr2two(c: byte): nat {
    if 48 <= c <= 57 then c - 48
    else if 65 <= c <= 70 then 10 + (c - 65)
    else if 97 <= c <= 102 then 10 + (c - 97)
    else if c == COLON then 32
    else 16
  }

  lemma LetterRoundTrip(d: Nibble, lower: bool)
    ensures Pr2two(Letter(d, lower)) == d
  {
  }

  /** The characters that the scan goes past, as a table: 0 for those and 16 for all others. */
  function Accepted(colon: bool): A.Table {
    (c: byte) => if Pr2two(c) < 16 || (colon && c == COLON) then 0 else 16
  }

  function Pair(b: byte, lower: bool): seq<byte> {
    [Letter(b / 16, lower), Letter(b % 16, lower)]
  }

  /** The encoded text; `first` says that no byte stands before. */
  function EncodedFrom(src: seq<byte>, f: Flags, first: bool): seq<byte> {
    if src == [] then []
    else (if f.colon && !first then [COLON] else []) + Pair(src[0], f.lower) + EncodedFrom(src[1..], f, false)
  }

  function Encoded(src: seq<byte>, f: Flags): seq<byte> {
    EncodedFrom(src, f, true)
  }

  /** The bitwise or of a nibble's shift by four and the second entry, which may be a colon's 32. */
  function Joined(hi: Nibble, lo: nat): byte
    requires lo < 16 || lo == 32
  {
    if lo < 16 then hi * 16 + lo else if hi / 2 % 2 == 1 then hi * 16 else hi * 16 + 32
  }

  /** A colon's 32 sets that bit, whether or not it is set already, and no other. */
  lemma JoinedBits(hi: Nibble)
    ensures Joined(hi, 32) / 32 % 2 == 1
    ensures Joined(hi, 32) % 32 == hi * 16 % 32 && Joined(hi, 32) / 64 == hi * 16 / 64
  {
  }

  predicate Clean(text: seq<byte>) {
    forall i :: 0 <= i < |text| ==> Pr2two(text[i]) < 16 || text[i] == COLON
  }

  /** What the decoding loop makes of the characters that were scanned. */
  function Bytes(text: seq<byte>): seq<byte>
    requires Clean(text)
  {
    if |text| < 2 then []
    else if text[0] == COLON then Bytes(text[1..])
    else [Joined(Pr2two(text[0]), Pr2two(text[1]))] + Bytes(text[2..])
  }

  /** A single character is left over. */
  predicate Short(text: seq<byte>)
    requires Clean(text)
  {
    if |text| < 2 then |text| == 1
    else if text[0] == COLON then Short(text[1..])
    else Short(text[2..])
  }

  function Scanned(text: seq<byte>, f: Flags): (r: seq<byte>)
    ensures Clean(r) && (!f.colon ==> COLON !in r)
  {
    var n := A.Prefix(text, Accepted(f.colon), 16);
    text[..n]
  }

  function DecodeStatus(text: seq<byte>, f: Flags): Status {
    var s := Scanned(text, f);
    if Short(s) then A.EIncomplete else A.Judged(text[|s|..], 0, f.relaxed)
  }

  function Decoded(text: seq<byte>, f: Flags): seq<byte> {
    Bytes(Scanned(text, f))
  }

  // ----- Strict decoding inverts encoding

  lemma PairBack(b: byte, lower: bool)
    ensures Joined(Pr2two(Pair(b, lower)[0]), Pr2two(Pair(b, lower)[1])) == b
    ensures Pr2two(Pair(b, lower)[0]) < 16 && Pr2two(Pair(b, lower)[1]) < 16
  {
    LetterRoundTrip(b / 16, lower);
    LetterRoundTrip(b % 16, lower);
  }

  lemma BytesStep(text: seq<byte>)
    requires Clean(text) && |text| >= 2
    ensures text[0] == COLON ==> Bytes(text) == Bytes(text[1..]) && Short(text) == Short(text[1..])
    ensures text[0] != COLON ==> Short(text) == Short(text[2..])
    ensures text[0] != COLON ==> Bytes(text) == [Joined(Pr2two(text[0]), Pr2two(text[1]))] + Bytes(text[2..])
  {
    hide Pr2two, Joined;
  }

  lemma {:induction false} BytesBack(src: seq<byte>, f: Flags, first: bool)
    ensures var t := EncodedFrom(src, f, first); Clean(t) && Bytes(t) == src && !Short(t)
    ensures A.Letters(EncodedFrom(src, f, first), Accepted(f.colon), 16)
    decreases |src|
  {
    hide Pair, Pr2two, Joined, Bytes, Short, EncodedFrom;
    if src == [] {
      EncodedNone(f, first);
      NothingLeft();
    } else {
      BytesBack(src[1..], f, false);
      EncodedStep(src, f, first);
      PairBack(src[0], f.lower);
      var rest := EncodedFrom(src[1..], f, false);
      var p := Pair(src[0], f.lower);
      PairLength(src[0], f.lower);
      var t := p + rest;
      assert t[2..] == rest && t[0] == p[0] && t[1] == p[1];
      ColonIsNoLetter();
      BytesStep(t);
      assert src == [src[0]] + src[1..];
      if f.colon && !first {
        var u := [COLON] + t;
        assert u[1..] == t;
        assert EncodedFrom(src, f, first) == u;
        BytesStep(u);
      } else {
        assert EncodedFrom(src, f, first) == t;
      }
    }
  }

  lemma NothingLeft()
    ensures Bytes([]) == [] && !Short([])
  {
  }

  lemma PairLength(b: byte, lower: bool)
    ensures |Pair(b, lower)| == 2
  {
  }

  lemma ColonIsNoLetter()
    ensures Pr2two(COLON) == 32
  {
  }

  /** For every byte string, in either case, with or without colons. */
  lemma RoundTrip(src: seq<byte>, f: Flags)
    ensures DecodeStatus(Encoded(src, f), f) == A.Success && Decoded(Encoded(src, f), f) == src
  {
    hide EncodedFrom, Bytes, Short, A.Prefix, Pr2two;
    var t := Encoded(src, f);
    BytesBack(src, f, true);
    A.PrefixIs(t, [], Accepted(f.colon), 16);
    assert t + [] == t && t[..|t|] == t;
  }

  // ----- What strict decoding accepts

  predicate IsDigit(c: byte) {
    48 <= c <= 57 || 65 <= c <= 70 || 97 <= c <= 102
  }

  /** Digits, and colons where the flag allows them. */
  predicate Strict(text: seq<byte>, colon: bool) {
    forall i :: 0 <= i < |text| ==> IsDigit(text[i]) || (colon && text[i] == COLON)
  }

  lemma StrictClean(text: seq<byte>, colon: bool)
    requires Strict(text, colon)
    ensures Clean(text)
  {
  }

  /** Without colons every character counts. */
  lemma {:induction false} ShortEven(text: seq<byte>)
    requires Clean(text) && COLON !in text
    ensures Short(text) <==> |text| % 2 == 1
  {
    if |text| >= 2 {
      assert text[0] in text;
      ShortEven(text[2..]);
    }
  }

  /** Strict decoding succeeds exactly on digits and colons that leave no digit over; without colons, on whole pairs. */
  lemma StrictDecodes(text: seq<byte>, f: Flags)
    requires !f.relaxed
    ensures DecodeStatus(text, f) == A.Success <==> Strict(text, f.colon) && Clean(text) && !Short(text)
    ensures !f.colon ==> (DecodeStatus(text, f) == A.Success <==> Strict(text, false) && |text| % 2 == 0)
  {
    var pr2 := Accepted(f.colon);
    assert forall c: byte :: pr2(c) < 16 <==> IsDigit(c) || (f.colon && c == COLON);
    A.StrictExactly(text, pr2, 16, 0);
    hide A.Prefix, Short;
    var n := A.Prefix(text, pr2, 16);
    assert Strict(text, f.colon) <==> A.Letters(text, pr2, 16);
    if n == |text| {
      assert text[..n] == text;
    } else {
      assert !A.Letters(text, pr2, 16);
    }
    if !f.colon && Strict(text, false) {
      StrictClean(text, false);
      ShortEven(text);
    }
  }

  /** Lower-case output has no 'A' to 'F', other output no 'a' to 'f', and colons come only with their flag. */
  lemma {:induction false} CaseKept(src: seq<byte>, f: Flags, first: bool)
    ensures forall c :: c in EncodedFrom(src, f, first) ==>
      && (f.lower ==> !(65 <= c <= 70)) && (!f.lower ==> !(97 <= c <= 102)) && (c == COLON ==> f.colon)
    decreases |src|
  {
    if src != [] {
      CaseKept(src[1..], f, false);
    }
  }

  // ----- Lengths

  /** The encoder's size query, with room for the NUL. */
  function EncodeQuery(count: nat, colon: bool): nat {
    count * 2 + 1 + (if colon && count > 1 then count - 1 else 0)
  }

  lemma {:induction false} FromLength(src: seq<byte>, f: Flags, first: bool)
    ensures |EncodedFrom(src, f, first)|
         == |src| * 2 + (if !f.colon || src == [] then 0 else if first then |src| - 1 else |src|)
    decreases |src|
  {
    if src != [] {
      FromLength(src[1..], f, false);
    }
  }

  /** The query is exactly what is written, and the NUL. */
  lemma EncodeQueryExact(src: seq<byte>, f: Flags)
    ensures |Encoded(src, f)| + 1 == EncodeQuery(|src|, f.colon)
  {
    hide EncodedFrom;
    FromLength(src, f, true);
  }

  /** The decoder's size query on the characters that were scanned. */
  function QueryLength(count: nat, colon: bool): nat {
    (if colon then count - count / 3 else count) / 2
  }

  predicate QueryShort(count: nat, colon: bool) {
    if colon then (count > 0 && (count + 1) % 3 != 0) || (count - count / 3) % 2 == 1 else count % 2 == 1
  }

  function QueryStatus(text: seq<byte>, f: Flags): Status {
    var n := |Scanned(text, f)|;
    if QueryShort(n, f.colon) then A.EIncomplete else A.Judged(text[n..], 0, f.relaxed)
  }

  lemma {:induction false} PairsOnly(text: seq<byte>)
    requires Clean(text) && COLON !in text
    ensures |Bytes(text)| == |text| / 2 && (Short(text) <==> |text| % 2 == 1)
    decreases |text|
  {
    hide Pr2two;
    if |text| >= 2 {
      PairsOnly(text[2..]);
    }
  }

  /** Without colons the query agrees with the decode on every text. */
  lemma QueryAgrees(text: seq<byte>, f: Flags)
    requires !f.colon
    ensures QueryStatus(text, f) == DecodeStatus(text, f)
    ensures QueryLength(|Scanned(text, f)|, f.colon) == |Decoded(text, f)|
  {
    hide Bytes, Short, Pr2two;
    PairsOnly(Scanned(text, f));
  }

  /** With colons it agrees on whatever the encoder writes. */
  lemma QueryAgreesOnEncoded(src: seq<byte>, f: Flags)
    ensures QueryStatus(Encoded(src, f), f) == DecodeStatus(Encoded(src, f), f)
    ensures QueryLength(|Scanned(Encoded(src, f), f)|, f.colon) == |src|
  {
    hide EncodedFrom, Bytes, Short, A.Prefix, Pr2two, QueryShort, QueryLength;
    RoundTrip(src, f);
    var t := Encoded(src, f);
    BytesBack(src, f, true);
    A.PrefixIs(t, [], Accepted(f.colon), 16);
    assert t + [] == t && t[..|t|] == t;
    FromLength(src, f, true);
    QueryExact(|src|, f.colon);
  }

  /** The query undoes the length of an encoded text. */
  lemma QueryExact(n: nat, colon: bool)
    ensures var count := if colon && n > 0 then 3 * n - 1 else 2 * n;
      !QueryShort(count, colon) && QueryLength(count, colon) == n
  {
    if colon && n > 0 {
      assert (3 * n - 1) / 3 == n - 1;
    }
  }

  /** The colons that the decoding loop steps over; one that is taken for a digit is none of them. */
  function Skips(text: seq<byte>): nat
    requires Clean(text)
  {
    if |text| < 2 then 0
    else if text[0] == COLON then 1 + Skips(text[1..])
    else Skips(text[2..])
  }

  /** Every character is stepped over, is one of a pair, or is left over. */
  lemma {:induction false} Accounted(text: seq<byte>)
    requires Clean(text)
    ensures |text| == Skips(text) + 2 * |Bytes(text)| + (if Short(text) then 1 else 0)
    decreases |text|
  {
    hide Bytes, Short, Pr2two, Joined;
    if |text| < 2 {
      LastStep(text);
    } else {
      BytesStep(text);
      Accounted(if text[0] == COLON then text[1..] else text[2..]);
    }
  }

  /** As many colons stand where the decoder steps over them as the query takes for granted. */
  predicate Regular(s: seq<byte>)
    requires Clean(s)
  {
    var n := |s|;
    n == 0 || ((Short(s) <==> n % 3 != 2) && Skips(s) == if n % 3 == 0 then n / 3 - 1 else n / 3)
  }

  /** For every text and flag set: query and decode agree if and only if colons are off or regular. */
  lemma QueryAgreesExactly(text: seq<byte>, f: Flags)
    ensures
      QueryStatus(text, f) == DecodeStatus(text, f) && QueryLength(|Scanned(text, f)|, f.colon) == |Decoded(text, f)|
      <==> !f.colon || Regular(Scanned(text, f))
  {
    hide Bytes, Short, Skips, Pr2two, QueryShort, QueryLength, Regular, Scanned;
    if !f.colon {
      QueryAgrees(text, f);
    } else {
      var s := Scanned(text, f);
      RegularIs(s);
    }
  }

  lemma RegularIs(s: seq<byte>)
    requires Clean(s)
    ensures Regular(s) <==> (QueryShort(|s|, true) <==> Short(s)) && QueryLength(|s|, true) == |Bytes(s)|
  {
    hide Bytes, Short, Skips;
    Accounted(s);
    if s == [] {
      LastStep(s);
    } else {
      QueryBy3(|s|);
    }
  }

  lemma QueryBy3(n: nat)
    requires n > 0
    ensures QueryShort(n, true) <==> n % 3 != 2
    ensures 2 * QueryLength(n, true) == n - n / 3 - (if n % 3 == 1 then 1 else 0)
  {
    var k, r := n / 3, n % 3;
    NextThird(k, r);
    Half(if r == 2 then k + 1 else k, if r == 1 then 1 else 0);
  }

  lemma NextThird(k: nat, r: nat)
    requires r < 3
    ensures (3 * k + r + 1) % 3 == if r == 2 then 0 else r + 1
  {
  }

  lemma Half(k: nat, r: nat)
    requires r < 2
    ensures (2 * k + r) / 2 == k && (2 * k + r) % 2 == r
  {
  }

  /** Two colons: the query promises one byte, and the decode is incomplete and writes none. */
  lemma QueryDisagrees()
    ensures
      var f, text := A.NO_FLAGS.(colon := true), [COLON, COLON];
      && QueryStatus(text, f) == A.Success && QueryLength(|Scanned(text, f)|, true) == 1
      && DecodeStatus(text, f) == A.EIncomplete && Decoded(text, f) == []
  {
    var f, text := A.NO_FLAGS.(colon := true), [COLON, COLON];
    A.PrefixIs(text, [], Accepted(true), 16);
    assert text + [] == text && text[..2] == text;
    assert Scanned(text, f) == text && text[1..] == [COLON];
    BytesStep(text);
    LastStep([COLON]);
  }

  // ----- The loops

  /** apr_encode_base16_binary into a buffer. */
  method Encode(src: seq<byte>, f: Flags) returns (out: seq<byte>)
    ensures out == Encoded(src, f)
  {
    hide Pair, Written;
    out := [];
    WrittenStart(src, f);
    for i := 0 to |src|
      invariant Written(src, f, i, out)
    {
      WrittenNext(src, f, i, out);
      if f.colon && i > 0 {
        out := out + [COLON];
      }
      out := out + Pair(src[i], f.lower);
    }
    WrittenEnd(src, f, out);
  }

  /** What has been written for src[..i], and what is still to be written. */
  ghost predicate Written(src: seq<byte>, f: Flags, i: nat, out: seq<byte>) {
    i <= |src| && out + EncodedFrom(src[i..], f, i == 0) == Encoded(src, f)
  }

  lemma WrittenStart(src: seq<byte>, f: Flags)
    ensures Written(src, f, 0, [])
  {
    hide EncodedFrom;
    assert src[0..] == src;
  }

  lemma WrittenNext(src: seq<byte>, f: Flags, i: nat, out: seq<byte>)
    requires Written(src, f, i, out) && i < |src|
    ensures Written(src, f, i + 1, (if f.colon && i > 0 then out + [COLON] else out) + Pair(src[i], f.lower))
  {
    hide EncodedFrom, Pair;
    EncodedStep(src[i..], f, i == 0);
    assert src[i..][1..] == src[i + 1..];
  }

  lemma WrittenEnd(src: seq<byte>, f: Flags, out: seq<byte>)
    requires Written(src, f, |src|, out)
    ensures out == Encoded(src, f)
  {
    hide EncodedFrom;
    EncodedNone(f, |src| == 0);
    assert src[|src|..] == [];
  }

  lemma EncodedStep(src: seq<byte>, f: Flags, first: bool)
    requires src != []
    ensures EncodedFrom(src, f, first)
         == (if f.colon && !first then [COLON] else []) + Pair(src[0], f.lower) + EncodedFrom(src[1..], f, false)
  {
  }

  lemma EncodedNone(f: Flags, first: bool)
    ensures EncodedFrom([], f, first) == []
  {
  }

  /** apr_decode_base16_binary into a buffer. */
  method Decode(text: seq<byte>, f: Flags) returns (status: Status, out: seq<byte>)
    ensures status == DecodeStatus(text, f) && out == Decoded(text, f)
  {
    hide A.Prefix, Bytes, Short, Joined, Pr2two;
    var count;
    count, status := A.Scan(text, Accepted(f.colon), 16, 0, f.relaxed);
    var s := Scanned(text, f);
    out := [];
    var i := 0;
    assert s[0..] == s;
    while count >= 2
      invariant 0 <= i && 0 <= count && i + count == |s|
      invariant out + Bytes(s[i..]) == Bytes(s) && Short(s[i..]) == Short(s)
    {
      BytesStep(s[i..]);
      if s[i] == COLON {
        assert s[i..][1..] == s[i + 1..];
        i, count := i + 1, count - 1;
      } else {
        Entry(s[i]);
        Entry(s[i + 1]);
        out := out + [Joined(Pr2two(s[i]), Pr2two(s[i + 1]))];
        assert s[i..][2..] == s[i + 2..];
        i, count := i + 2, count - 2;
      }
    }
    LastStep(s[i..]);
    if count == 1 {
      status := A.EIncomplete;
    }
  }

  lemma Entry(c: byte)
    requires Pr2two(c) < 16 || c == COLON
    ensures Pr2two(c) < 16 || Pr2two(c) == 32
    ensures c != COLON ==> Pr2two(c) < 16
  {
  }

  lemma LastStep(text: seq<byte>)
    requires Clean(text) && |text| < 2
    ensures Bytes(text) == [] && (Short(text) <==> |text| == 1)
  {
  }

  /** apr_decode_base16_binary with no buffer. */
  method DecodeQuery(text: seq<byte>, f: Flags) returns (status: Status, dlen: nat)
    ensures status == QueryStatus(text, f) && dlen == QueryLength(|Scanned(text, f)|, f.colon)
  {
    var count;
    count, status := A.Scan(text, Accepted(f.colon), 16, 0, f.relaxed);
    if f.colon {
      if count > 0 && (count + 1) % 3 != 0 {
        status := A.EIncomplete;
      }
      count := count - count / 3;
    }
    if count % 2 == 1 {
      status := A.EIncomplete;
    }
    dlen := count / 2;
  }
}
