/**
  Base 64 of encoding/apr_encode.c and encoding/apr_base64.c (section 4 and 5
  of RFC 4648). Shifts and masks on disjoint bits are written as division,
  remainder, product and sum.
*/
module Base64 {
  import opened Streams
  import A = Alphabets

  type Status = A.Status
  type Flags = A.Flags

  /** The table `base64`, or `base64url`. */
  function Letter(d: int, url: bool): byte
    requires 0 <= d < 64
  {
    if d < 26 then 65 + d
    else if d < 52 then 97 + (d - 26)
    else if d < 62 then 48 + (d - 52)
    else if d == 62 then if url then 45 else 43
    else if url then 95 else 47
  }

  /** The table pr2six, which knows both alphabets; 64 is no letter and 128 is padding. */
  function Pr2six(c: byte): nat {
    if 65 <= c <= 90 then c - 65
    else if 97 <= c <= 122 then 26 + (c - 97)
    else if 48 <= c <= 57 then 52 + (c - 48)
    else if c == 43 || c == 45 then 62
    else if c == 47 || c == 95 then 63
    else if c == A.PAD then 128
    else 64
  }

  lemma LetterRoundTrip(d: int, url: bool)
    requires 0 <= d < 64
    ensures Pr2six(Letter(d, url)) == d
  {
  }

  type Digit = d: int | 0 <= d < 64

  // The four six-bit groups of three bytes; a byte that is missing counts as zero.

  function First(a: byte): Digit {
    a / 4
  }

  function Second(a: byte, b: byte): Digit {
    a % 4 * 16 + b / 16
  }

  function Third(b: byte, c: byte): Digit {
    b % 16 * 4 + c / 64
  }

  function Fourth(c: byte): Digit {
    c % 64
  }

  type Digits = s: seq<int> | forall i :: 0 <= i < |s| ==> 0 <= s[i] < 64

  /** The six-bit groups of a byte string. */
  function Sextets(src: seq<byte>): Digits {
    if src == [] then []
    else if |src| == 1 then [First(src[0]), Second(src[0], 0)]
    else if |src| == 2 then [First(src[0]), Second(src[0], src[1]), Third(src[1], 0)]
    else [First(src[0]), Second(src[0], src[1]), Third(src[1], src[2]), Fourth(src[2])] + Sextets(src[3..])
  }

  lemma {:induction false} SextetsLength(src: seq<byte>)
    ensures |Sextets(src)| == (|src| * 4 + 2) / 3
    ensures |Sextets(src)| == |src| / 3 * 4 + (if |src| % 3 == 0 then 0 else |src| % 3 + 1)
    decreases |src|
  {
    if |src| >= 3 {
      SextetsLength(src[3..]);
    }
  }

  // The three bytes of four six-bit groups.

  function Byte1(a: Digit, b: Digit): byte {
    a * 4 + b / 16
  }

  function Byte2(b: Digit, c: Digit): byte {
    b % 16 * 16 + c / 4
  }

  function Byte3(c: Digit, d: Digit): byte {
    c % 4 * 64 + d
  }

  function Triple(a: Digit, b: Digit, c: Digit, d: Digit): seq<byte> {
    [Byte1(a, b), Byte2(b, c), Byte3(c, d)]
  }

  /** The bytes of a sequence of six-bit groups; bits that fill no byte are dropped. */
  function FromSextets(d: Digits): seq<byte> {
    if |d| < 2 then []
    else if |d| == 2 then [Byte1(d[0], d[1])]
    else if |d| == 3 then [Byte1(d[0], d[1]), Byte2(d[1], d[2])]
    else Triple(d[0], d[1], d[2], d[3]) + FromSextets(d[4..])
  }

  lemma {:induction false} FromSextetsLength(d: Digits)
    ensures |FromSextets(d)| == |d| * 3 / 4
    ensures |FromSextets(d)| == |d| / 4 * 3 + (if |d| % 4 < 2 then 0 else |d| % 4 - 1)
    decreases |d|
  {
    if |d| >= 4 {
      FromSextetsLength(d[4..]);
    }
  }

  lemma {:induction false} SextetsRoundTrip(src: seq<byte>)
    ensures FromSextets(Sextets(src)) == src
    decreases |src|
  {
    hide Sextets, FromSextets, First, Second, Third, Fourth, Byte1, Byte2, Byte3;
    if |src| >= 3 {
      var quad := Quad(src[0], src[1], src[2]);
      QuadIs(src);
      assert Sextets(src)[4..] == Sextets(src[3..]);
      FromGroup(Sextets(src));
      TripleBack(src[0], src[1], src[2]);
      SextetsRoundTrip(src[3..]);
      assert src == [src[0], src[1], src[2]] + src[3..];
    } else {
      SextetsRest(src);
      FromRest(Sextets(src));
      if |src| >= 1 {
        TripleBack(src[0], if |src| == 2 then src[1] else 0, 0);
      }
    }
  }

  /** No bit of the three bytes is lost. */
  /** The groups are the 24 bits of the bytes, most significant first. */
  lemma GroupValue(a: byte, b: byte, c: byte)
    ensures ((First(a) * 64 + Second(a, b)) * 64 + Third(b, c)) * 64 + Fourth(c) == (a * 256 + b) * 256 + c
  {
  }

  lemma TripleBack(a: byte, b: byte, c: byte)
    ensures Byte1(First(a), Second(a, b)) == a
    ensures Byte2(Second(a, b), Third(b, c)) == b
    ensures Byte3(Third(b, c), Fourth(c)) == c
  {
  }

  lemma SextetsRest(src: seq<byte>)
    requires |src| < 3
    ensures src == [] ==> Sextets(src) == []
    ensures |src| == 1 ==> Sextets(src) == [First(src[0]), Second(src[0], 0)]
    ensures |src| == 2 ==> Sextets(src) == [First(src[0]), Second(src[0], src[1]), Third(src[1], 0)]
  {
  }

  function Letters(d: Digits, url: bool): (r: seq<byte>)
    ensures |r| == |d|
  {
    seq(|d|, i requires 0 <= i < |d| => Letter(d[i], url))
  }

  function Padding(n: nat): (r: seq<byte>)
    ensures |r| == n
  {
    seq(n, i => A.PAD)
  }

  /** How many padding characters fill up the last group. */
  function PadCount(count: nat): nat {
    if count % 3 == 1 then 2 else if count % 3 == 2 then 1 else 0
  }

  /** The alphabet is the URL-safe one for either flag of APR_ENCODE_BASE64URL, so also for NOPADDING alone. */
  predicate UrlAlphabet(f: Flags) {
    f.noPadding || f.url
  }

  /** The encoded text. */
  function Encoded(src: seq<byte>, f: Flags): seq<byte> {
    Letters(Sextets(src), UrlAlphabet(f)) + (if f.noPadding then [] else Padding(PadCount(|src|)))
  }

  /** The number of letters at the start of a text. */
  function Prefix(text: seq<byte>): (n: nat)
    ensures n <= |text| && forall i :: 0 <= i < n ==> Pr2six(text[i]) < 64
  {
    var n := A.Prefix(text, Pr2six, 64);
    assert forall i :: 0 <= i < n ==> text[..n][i] == text[i];
    n
  }

  function Values(text: seq<byte>): (r: Digits)
    requires forall i :: 0 <= i < |text| ==> Pr2six(text[i]) < 64
    ensures |r| == |text|
  {
    seq(|text|, i requires 0 <= i < |text| => Pr2six(text[i]))
  }

  /** Strict decoding tolerates at most two padding characters. */
  const MOST := 2

  function DecodeStatus(text: seq<byte>, f: Flags): Status {
    var n := Prefix(text);
    if n % 4 == 1 then A.EIncomplete else A.Judged(text[n..], MOST, f.relaxed)
  }

  function Decoded(text: seq<byte>): seq<byte> {
    FromSextets(Values(text[..Prefix(text)]))
  }

  // ----- What strict decoding accepts

  /** A letter of either alphabet. */
  predicate IsLetter(c: byte) {
    65 <= c <= 90 || 97 <= c <= 122 || 48 <= c <= 57 || c in [43, 45, 47, 95]
  }

  /** `n` letters, a possible number of them, and then up to two padding characters. */
  predicate Strict(text: seq<byte>, n: nat) {
    && n <= |text| <= n + 2 && n % 4 != 1
    && (forall i :: 0 <= i < n ==> IsLetter(text[i]))
    && (forall i :: n <= i < |text| ==> text[i] == A.PAD)
  }

  /** Strict decoding succeeds exactly on those texts; a relaxed one fails only for the number of letters. */
  lemma StrictDecodes(text: seq<byte>, f: Flags)
    ensures !f.relaxed ==> (DecodeStatus(text, f) == A.Success <==> exists n :: Strict(text, n))
    ensures f.relaxed ==> DecodeStatus(text, f) == if Prefix(text) % 4 == 1 then A.EIncomplete else A.Success
  {
    A.StrictExactly(text, Pr2six, 64, MOST);
    hide A.Prefix;
    forall n: nat ensures Strict(text, n) <==> A.Form(text, n, Pr2six, 64, MOST) && n % 4 != 1 {
      if n <= |text| {
        assert forall i :: 0 <= i < n ==> text[..n][i] == text[i];
        assert forall i :: 0 <= i < |text| - n ==> text[n..][i] == text[n + i];
        assert forall i :: n <= i < |text| ==> text[i] == text[n..][i - n];
        assert forall c: byte :: Pr2six(c) < 64 <==> IsLetter(c);
      }
    }
  }

  // ----- Strict decoding inverts encoding

  /** For every byte string and every combination of flags. */
  lemma RoundTrip(src: seq<byte>, f: Flags)
    ensures DecodeStatus(Encoded(src, f), f) == A.Success && Decoded(Encoded(src, f)) == src
  {
    hide Sextets, FromSextets, A.Prefix;
    var d, url := Sextets(src), UrlAlphabet(f);
    var letters := Letters(d, url);
    var pad := if f.noPadding then [] else Padding(PadCount(|src|));
    LettersAreValues(d, url);
    A.PrefixIs(letters, pad, Pr2six, 64);
    assert (letters + pad)[..|letters|] == letters && (letters + pad)[|letters|..] == pad;
    SextetsRoundTrip(src);
    SextetsLength(src);
    assert |d| % 4 != 1;
  }

  lemma LettersAreValues(d: Digits, url: bool)
    ensures forall i :: 0 <= i < |d| ==> Pr2six(Letters(d, url)[i]) < 64
    ensures Values(Letters(d, url)) == d
  {
    forall i | 0 <= i < |d| ensures Pr2six(Letters(d, url)[i]) == d[i] {
      LetterRoundTrip(d[i], url);
    }
  }

  // ----- Lengths

  /** The encoder's size query, with room for the NUL; APR_ENOSPC if it overflows a 64-bit size. */
  function EncodeQuery(count: nat): nat {
    (count + 2) / 3 * 4 + 1
  }

  /** The query is exact with padding, and an upper bound without. */
  lemma EncodeQueryFits(src: seq<byte>, f: Flags)
    ensures |Encoded(src, f)| + 1 <= EncodeQuery(|src|)
    ensures !f.noPadding ==> |Encoded(src, f)| + 1 == EncodeQuery(|src|)
    ensures f.noPadding ==> |Encoded(src, f)| + 1 == EncodeQuery(|src|) - PadCount(|src|)
  {
    hide Sextets;
    SextetsLength(src);
    var q, r := |src| / 3, |src| % 3;
    assert |src| == 3 * q + r;
  }

  /** With the url flag alone there is no '+' and no '/' in the text; with neither flag no '-' and no '_'. */
  lemma AlphabetKept(src: seq<byte>, f: Flags)
    ensures f.url && !f.noPadding ==> 43 !in Encoded(src, f) && 47 !in Encoded(src, f)
    ensures !f.url && !f.noPadding ==> 45 !in Encoded(src, f) && 95 !in Encoded(src, f)
  {
    hide Sextets;
    var d, text := Sextets(src), Encoded(src, f);
    forall i | 0 <= i < |text| && !f.noPadding
      ensures f.url ==> text[i] != 43 && text[i] != 47
      ensures !f.url ==> text[i] != 45 && text[i] != 95
    {
      if i >= |d| {
        assert text[i] == A.PAD;
      }
    }
  }

  // ----- The alphabet follows from padding

  const NO_PADDING := A.NO_FLAGS.(noPadding := true)

  predicate NoSpecials(d: Digits) {
    forall i :: 0 <= i < |d| ==> d[i] < 62
  }

  /**
    Asking for no padding changes more than the padding: the text is that of
    the standard alphabet exactly if no six-bit group is 62 or 63.
  */
  lemma NoPaddingAlphabet(src: seq<byte>)
    ensures Encoded(src, NO_PADDING) == Letters(Sextets(src), false) <==> NoSpecials(Sextets(src))
  {
    var d := Sextets(src);
    forall i | 0 <= i < |d| ensures Letters(d, true)[i] == Letters(d, false)[i] <==> d[i] < 62 {
    }
    assert Encoded(src, NO_PADDING) == Letters(d, true);
  }

  lemma NoPaddingExample()
    ensures Encoded([251, 255, 254], NO_PADDING) == [45, 95, 95, 45]
    ensures Letters(Sextets([251, 255, 254]), false) == [43, 47, 47, 43]
  {
    var src: seq<byte> := [251, 255, 254];
    assert src[3..] == [];
    assert Sextets(src) == [62, 63, 63, 62];
  }

  // ----- The loops

  /** What has been written for src[..i]: whole groups of four letters. */
  ghost predicate Written(src: seq<byte>, i: int, url: bool, out: seq<byte>) {
    0 <= i <= |src| && out + Letters(Sextets(src[i..]), url) == Letters(Sextets(src), url)
  }

  lemma LettersConcat(a: Digits, b: Digits, url: bool)
    ensures Letters(a + b, url) == Letters(a, url) + Letters(b, url)
  {
    hide Letter;
  }

  /** The letters of one whole group. */
  function Group(a: byte, b: byte, c: byte, url: bool): seq<byte> {
    [Letter(First(a), url), Letter(Second(a, b), url), Letter(Third(b, c), url), Letter(Fourth(c), url)]
  }

  function Quad(a: byte, b: byte, c: byte): (r: Digits)
    ensures |r| == 4
  {
    [First(a), Second(a, b), Third(b, c), Fourth(c)]
  }

  lemma QuadIs(src: seq<byte>)
    requires |src| >= 3
    ensures Sextets(src) == Quad(src[0], src[1], src[2]) + Sextets(src[3..])
  {
    hide First, Second, Third, Fourth;
  }

  lemma QuadLetters(a: byte, b: byte, c: byte, url: bool)
    ensures Letters(Quad(a, b, c), url) == Group(a, b, c, url)
  {
    hide First, Second, Third, Fourth, Letter;
  }

  lemma GroupIs(src: seq<byte>, url: bool)
    requires |src| >= 3
    ensures Letters(Sextets(src), url) == Group(src[0], src[1], src[2], url) + Letters(Sextets(src[3..]), url)
  {
    hide Letters, Sextets, Quad, Group;
    QuadIs(src);
    LettersConcat(Quad(src[0], src[1], src[2]), Sextets(src[3..]), url);
    QuadLetters(src[0], src[1], src[2], url);
  }

  lemma WrittenGroup(src: seq<byte>, i: nat, url: bool, out: seq<byte>)
    requires Written(src, i, url, out) && i + 2 < |src|
    ensures Written(src, i + 3, url, out + Group(src[i], src[i + 1], src[i + 2], url))
  {
    hide Group, Letters, Sextets;
    GroupIs(src[i..], url);
    assert src[i..][3..] == src[i + 3..];
  }

  /** apr_encode_base64_binary into a buffer. */
  method Encode(src: seq<byte>, f: Flags) returns (out: seq<byte>)
    ensures out == Encoded(src, f)
  {
    hide Letter, Written, Group, Sextets, First, Second, Third, Fourth, Letters;
    var url := UrlAlphabet(f);
    out := [];
    var i := 0;
    WrittenStart(src, url);
    while i + 2 < |src|
      invariant 0 <= i <= |src| && Written(src, i, url, out) && i % 3 == 0
    {
      WrittenGroup(src, i, url, out);
      out := out + Group(src[i], src[i + 1], src[i + 2], url);
      i := i + 3;
    }
    WrittenEnd(src, i, url, out);
    if i < |src| {
      out := out + [Letter(First(src[i]), url)];
      if i == |src| - 1 {
        out := out + [Letter(Second(src[i], 0), url)];
        if !f.noPadding {
          out := out + [A.PAD];
        }
      } else {
        out := out + [Letter(Second(src[i], src[i + 1]), url)];
        out := out + [Letter(Third(src[i + 1], 0), url)];
      }
      if !f.noPadding {
        out := out + [A.PAD];
      }
    }
  }

  /** apr_base64_encode_binary, which returns the length with the NUL: the same text as Encode with no flags. */
  method OldEncode(src: seq<byte>) returns (length: int, out: seq<byte>)
    ensures out == Encoded(src, A.NO_FLAGS) && length == |out| + 1 == EncodeQuery(|src|)
  {
    EncodeQueryFits(src, A.NO_FLAGS);
    hide Letter, Written, Group, Sextets, First, Second, Third, Fourth, Letters;
    out := [];
    var i := 0;
    WrittenStart(src, false);
    while i < |src| - 2
      invariant 0 <= i <= |src| && Written(src, i, false, out) && i % 3 == 0
    {
      WrittenGroup(src, i, false, out);
      out := out + Group(src[i], src[i + 1], src[i + 2], false);
      i := i + 3;
    }
    WrittenEnd(src, i, false, out);
    if i < |src| {
      out := out + [Letter(First(src[i]), false)];
      if i == |src| - 1 {
        out := out + [Letter(Second(src[i], 0), false), A.PAD];
      } else {
        out := out + [Letter(Second(src[i], src[i + 1]), false), Letter(Third(src[i + 1], 0), false)];
      }
      out := out + [A.PAD];
    }
    length := |out| + 1;
  }

  lemma WrittenStart(src: seq<byte>, url: bool)
    ensures Written(src, 0, url, [])
  {
    assert src[0..] == src;
  }

  lemma WrittenEnd(src: seq<byte>, i: nat, url: bool, out: seq<byte>)
    requires Written(src, i, url, out) && i % 3 == 0 && i <= |src| < i + 3
    ensures |src| % 3 == |src| - i
    ensures i == |src| ==> out == Letters(Sextets(src), url)
    ensures i == |src| - 1 ==>
      out + [Letter(First(src[i]), url), Letter(Second(src[i], 0), url)] == Letters(Sextets(src), url)
    ensures i == |src| - 2 ==>
      out + [Letter(First(src[i]), url), Letter(Second(src[i], src[i + 1]), url), Letter(Third(src[i + 1], 0), url)]
        == Letters(Sextets(src), url)
  {
    hide Letter, Sextets, Letters, First, Second, Third, Fourth;
    if i == |src| - 1 {
      assert src[i..] == [src[i]];
      OneLeft(src[i], url);
    } else if i == |src| - 2 {
      assert src[i..] == [src[i], src[i + 1]];
      TwoLeft(src[i], src[i + 1], url);
    } else {
      assert src[i..] == [];
      NoneLeft(url);
    }
  }

  lemma NoneLeft(url: bool)
    ensures Letters(Sextets([]), url) == []
  {
  }

  lemma OneLeft(a: byte, url: bool)
    ensures Letters(Sextets([a]), url) == [Letter(First(a), url), Letter(Second(a, 0), url)]
  {
    hide Letter;
  }

  lemma TwoLeft(a: byte, b: byte, url: bool)
    ensures Letters(Sextets([a, b]), url)
      == [Letter(First(a), url), Letter(Second(a, b), url), Letter(Third(b, 0), url)]
  {
    hide Letter;
  }

  method Scan(text: seq<byte>, relaxed: bool) returns (n: nat, status: Status)
    ensures n == Prefix(text) && status == A.Judged(text[n..], MOST, relaxed)
  {
    n, status := A.Scan(text, Pr2six, 64, MOST, relaxed);
  }

  /** apr_decode_base64_binary into a buffer. */
  method Decode(text: seq<byte>, f: Flags) returns (status: Status, out: seq<byte>)
    ensures status == DecodeStatus(text, f) && out == Decoded(text)
  {
    var count;
    count, status := Scan(text, f.relaxed);
    out := DecodeDigits(Values(text[..count]));
    if count % 4 == 1 {
      status := A.EIncomplete;
    }
  }

  /** The loop that both decoders run over the values of the letters. */
  method DecodeDigits(d: Digits) returns (out: seq<byte>)
    ensures out == FromSextets(d)
  {
    hide FromSextets, Byte1, Byte2, Triple;
    out := [];
    var i, count := 0, |d|;
    assert d[0..] == d;
    while count >= 4
      invariant 0 <= i && 0 <= count && i + count == |d|
      invariant out + FromSextets(d[i..]) == FromSextets(d)
    {
      FromGroup(d[i..]);
      assert d[i..][4..] == d[i + 4..];
      out := out + Triple(d[i], d[i + 1], d[i + 2], d[i + 3]);
      i, count := i + 4, count - 4;
    }
    FromRest(d[i..]);
    if count > 1 {
      out := out + [Byte1(d[i], d[i + 1])];
    }
    if count > 2 {
      out := out + [Byte2(d[i + 1], d[i + 2])];
    }
  }

  lemma FromGroup(d: Digits)
    requires |d| >= 4
    ensures FromSextets(d) == Triple(d[0], d[1], d[2], d[3]) + FromSextets(d[4..])
  {
  }

  lemma FromRest(d: Digits)
    requires |d| < 4
    ensures |d| < 2 ==> FromSextets(d) == []
    ensures |d| == 2 ==> FromSextets(d) == [Byte1(d[0], d[1])]
    ensures |d| == 3 ==> FromSextets(d) == [Byte1(d[0], d[1]), Byte2(d[1], d[2])]
  {
  }

  /** apr_decode_base64_binary with no buffer: the same status, and exactly the length a decode writes. */
  method DecodeQuery(text: seq<byte>, f: Flags) returns (status: Status, dlen: nat)
    ensures status == DecodeStatus(text, f) && dlen == |Decoded(text)|
  {
    var count;
    count, status := Scan(text, f.relaxed);
    FromSextetsLength(Values(text[..count]));
    dlen := count / 4 * 3;
    if count % 4 == 3 {
      dlen := dlen + 2;
    } else if count % 4 == 2 {
      dlen := dlen + 1;
    } else if count % 4 == 1 {
      status := A.EIncomplete;
    }
  }

  lemma {:induction false} FromSextetsConcat(d: Digits, e: Digits)
    requires |d| % 4 == 0
    ensures FromSextets(d + e) == FromSextets(d) + FromSextets(e)
    decreases |d|
  {
    hide FromSextets, Triple;
    if d == [] {
      assert d + e == e;
      FromRest(d);
    } else {
      FromSextetsConcat(d[4..], e);
      FromGroup(d);
      FromGroup(d + e);
      assert (d + e)[4..] == d[4..] + e;
    }
  }

  // ----- The older decoder

  /** The table of encoding/apr_base64.c, which knows the standard alphabet only. */
  function OldPr2six(c: byte): nat {
    if 65 <= c <= 90 then c - 65
    else if 97 <= c <= 122 then 26 + (c - 97)
    else if 48 <= c <= 57 then 52 + (c - 48)
    else if c == 43 then 62
    else if c == 47 then 63
    else 64
  }

  /** Where the older decoder stops. */
  function OldPrefix(text: seq<byte>): (n: nat)
    ensures n <= |text| && A.Letters(text[..n], OldPr2six, 64)
  {
    A.Prefix(text, OldPr2six, 64)
  }

  function OldValues(text: seq<byte>): (r: Digits)
    requires A.Letters(text, OldPr2six, 64)
    ensures |r| == |text|
  {
    seq(|text|, i requires 0 <= i < |text| => OldPr2six(text[i]))
  }

  function OldDecoded(text: seq<byte>): seq<byte> {
    FromSextets(OldValues(text[..OldPrefix(text)]))
  }

  /** apr_base64_decode_binary: stops at the first character that is no letter, and returns the length. */
  method OldDecode(text: seq<byte>) returns (length: int, out: seq<byte>)
    ensures out == OldDecoded(text) && length == |out|
  {
    hide FromSextets, A.Prefix;
    var nprbytes := 0;
    while nprbytes < |text| && OldPr2six(text[nprbytes]) <= 63
      invariant 0 <= nprbytes <= |text| && A.Letters(text[..nprbytes], OldPr2six, 64)
    {
      assert text[..nprbytes + 1] == text[..nprbytes] + [text[nprbytes]];
      nprbytes := nprbytes + 1;
    }
    A.ScanStops(text, nprbytes, OldPr2six, 64);
    FromSextetsLength(OldValues(text[..nprbytes]));
    var nbytesdecoded := (nprbytes + 3) / 4 * 3;
    out := DecodeDigits(OldValues(text[..nprbytes]));
    var left := nprbytes % 4;
    length := nbytesdecoded - (4 - left) % 4;
  }

  /** A letter of the older table has the same value in the newer one. */
  lemma OldLetter(c: byte)
    requires OldPr2six(c) < 64
    ensures Pr2six(c) == OldPr2six(c)
  {
  }

  /** The older decoder never reads further than the newer one, and reads the same values. */
  lemma OldPrefixShorter(text: seq<byte>)
    ensures OldPrefix(text) <= Prefix(text)
    ensures OldValues(text[..OldPrefix(text)]) == Values(text[..Prefix(text)])[..OldPrefix(text)]
  {
    var m, n := OldPrefix(text), Prefix(text);
    assert A.Prefix(text, Pr2six, 64) == n;
    hide A.Prefix, OldPr2six, Pr2six;
    forall i | 0 <= i < m ensures Pr2six(text[i]) == OldPr2six(text[i]) < 64 {
      assert text[..m][i] == text[i];
      OldLetter(text[i]);
    }
  }

  /**
    The two decoders write the same bytes if and only if they stop at the same
    place, or the newer one reads one letter more that completes no byte.
  */
  lemma OldDecodeAgrees(text: seq<byte>)
    ensures
      var m, n := OldPrefix(text), Prefix(text);
      OldDecoded(text) == Decoded(text) <==> m == n || (m % 4 == 0 && n == m + 1)
  {
    hide FromSextets, OldPrefix, Prefix, OldValues, Values;
    var m, n := OldPrefix(text), Prefix(text);
    OldPrefixShorter(text);
    var d, e := OldValues(text[..m]), Values(text[..n]);
    FromSextetsLength(d);
    FromSextetsLength(e);
    if m == n {
      assert e[..m] == e;
    } else if m % 4 == 0 && n == m + 1 {
      assert e == d + [e[m]];
      FromSextetsConcat(d, [e[m]]);
      FromRest([e[m]]);
    } else {
      LengthsDiffer(m, n);
    }
  }

  lemma LengthsDiffer(m: nat, n: nat)
    requires m < n && !(m % 4 == 0 && n == m + 1)
    ensures m * 3 / 4 < n * 3 / 4
  {
  }

  /** A text of the URL alphabet, on which they differ: one writes nothing and the other three bytes. */
  lemma OldDecodeDiffers()
    ensures OldDecoded([45, 95, 95, 45]) == [] && Decoded([45, 95, 95, 45]) == [251, 255, 254]
  {
    hide OldDecoded, Decoded, FromSextets, Pr2six, OldPr2six;
    UrlSpecials();
    OldReadsNothing([45, 95, 95, 45]);
    ReadsAll([45, 95, 95, 45]);
    assert Values([45, 95, 95, 45]) == [62, 63, 63, 62];
    SpecialBytes();
  }

  lemma OldReadsNothing(text: seq<byte>)
    requires text != [] && OldPr2six(text[0]) >= 64
    ensures OldDecoded(text) == []
  {
    hide FromSextets, OldPr2six;
    FromRest([]);
  }

  lemma ReadsAll(text: seq<byte>)
    requires forall i :: 0 <= i < |text| ==> Pr2six(text[i]) < 64
    ensures Decoded(text) == FromSextets(Values(text))
  {
    hide FromSextets, Pr2six, A.Prefix;
    A.PrefixIs(text, [], Pr2six, 64);
    assert text + [] == text && text[..|text|] == text;
  }

  /** The letters that only the newer table knows. */
  lemma UrlSpecials()
    ensures OldPr2six(45) == 64 && OldPr2six(95) == 64 && Pr2six(45) == 62 && Pr2six(95) == 63
  {
  }

  lemma SpecialBytes()
    ensures FromSextets([62, 63, 63, 62]) == [251, 255, 254]
  {
    hide FromSextets;
    var d: Digits := [62, 63, 63, 62];
    FromGroup(d);
    FromRest([]);
    assert d[4..] == [];
  }

  lemma OldLetterRoundTrip(d: int)
    requires 0 <= d < 64
    ensures OldPr2six(Letter(d, false)) == d
  {
  }

  /** The older decoder inverts the older encoder, which writes what Encoded says with no flags. */
  lemma OldRoundTrip(src: seq<byte>)
    ensures OldDecoded(Encoded(src, A.NO_FLAGS)) == src
  {
    hide Sextets, FromSextets, A.Prefix, Letter, OldPr2six;
    var d := Sextets(src);
    var letters, pad := Letters(d, false), Padding(PadCount(|src|));
    forall i | 0 <= i < |d| ensures OldPr2six(letters[i]) == d[i] {
      OldLetterRoundTrip(d[i]);
    }
    PadIsNoOldLetter();
    A.PrefixIs(letters, pad, OldPr2six, 64);
    assert (letters + pad)[..|letters|] == letters;
    assert OldValues(letters) == d;
    SextetsRoundTrip(src);
  }

  lemma PadIsNoOldLetter()
    ensures OldPr2six(A.PAD) == 64
  {
  }
}
