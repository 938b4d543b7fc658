/**
  Where a boundary stands in a stream. Metadata between two of its bytes does
  not keep a boundary from matching.
*/
module Matches {
  import opened Streams
  import opened Search

  /** The bytes from `p` on, metadata skipped, begin with `needle`. */
  predicate MatchAt(s: seq<Item>, needle: seq<byte>, p: int) {
    0 <= p < |s| && s[p].Byte? && needle <= BytesOf(s[p..])
  }

  predicate NoMatchBefore(s: seq<Item>, needle: seq<byte>, k: int) {
    forall p :: 0 <= p < k ==> !MatchAt(s, needle, p)
  }

  /** `needle` is what stands in s[p..q], from its first byte to its last. */
  predicate Span(s: seq<Item>, needle: seq<byte>, p: int, q: int) {
    0 <= p < q <= |s| && s[p].Byte? && s[q - 1].Byte? && BytesOf(s[p..q]) == needle
  }

  /** `str` is the run of items of `s` from `k` on. */
  predicate Here(s: seq<Item>, k: int, str: seq<byte>) {
    0 <= k && k + |str| <= |s| && s[k..k + |str|] == Wrap(str)
  }

  lemma HereAt(s: seq<Item>, k: nat, str: seq<byte>, i: nat)
    requires Here(s, k, str) && i < |str|
    ensures s[k + i] == Byte(str[i])
  {
    assert s[k + i] == s[k..k + |str|][i];
  }

  /** Read from inside a run of bytes: the rest of the run comes first. */
  lemma HereBytes(s: seq<Item>, k: nat, str: seq<byte>, p: nat)
    requires Here(s, k, str) && p <= |str|
    ensures BytesOf(s[k + p..]) == str[p..] + BytesOf(s[k + |str|..])
  {
    assert s[k + p..] == Wrap(str[p..]) + s[k + |str|..] by {
      forall i | p <= i < |str| ensures s[k + i] == Byte(str[i]) {
        HereAt(s, k, str, i);
      }
    }
    BytesOfConcat(Wrap(str[p..]), s[k + |str|..]);
    BytesOfWrap(str[p..]);
  }

  lemma MatchWithin(s: seq<Item>, k: nat, str: seq<byte>, needle: seq<byte>, p: nat)
    requires needle != [] && Here(s, k, str) && p + |needle| <= |str|
    ensures MatchAt(s, needle, k + p) <==> At(str, needle, p)
  {
    HereAt(s, k, str, p);
    HereBytes(s, k, str, p);
    var t := str[p..] + BytesOf(s[k + |str|..]);
    assert t[..|needle|] == str[p..p + |needle|];
    assert needle <= t <==> t[..|needle|] == needle;
  }

  lemma MatchRunsOff(s: seq<Item>, k: nat, str: seq<byte>, needle: seq<byte>, p: nat)
    requires Here(s, k, str) && p < |str| < p + |needle|
    requires MatchAt(s, needle, k + p)
    ensures Partial(str, needle, p)
  {
    HereBytes(s, k, str, p);
    var t := str[p..] + BytesOf(s[k + |str|..]);
    assert needle[..|str| - p] == t[..|str| - p] == str[p..];
  }

  /**
    Scanning one buffer from `from` on: `needle` does not stand inside it, and
    no partial match runs off its end before `off`.
  */
  lemma Scanned(s: seq<Item>, k: nat, str: seq<byte>, needle: seq<byte>, from: nat, mid: nat, off: nat)
    requires needle != [] && Here(s, k, str) && off <= |str|
    requires forall p :: from <= p && p + |needle| <= |str| ==> !At(str, needle, p)
    requires forall p :: mid <= p < off ==> !Partial(str, needle, p)
    requires mid + |needle| <= |str| + 1 || mid == from
    requires NoMatchBefore(s, needle, k + from)
    ensures NoMatchBefore(s, needle, k + off)
  {
    forall q | k + from <= q < k + off ensures !MatchAt(s, needle, q) {
      if q - k + |needle| <= |str| {
        MatchWithin(s, k, str, needle, q - k);
      } else if MatchAt(s, needle, q) {
        MatchRunsOff(s, k, str, needle, q - k);
      }
    }
  }

  /** An occurrence inside one run of bytes. */
  lemma SpanWithin(s: seq<Item>, k: nat, str: seq<byte>, needle: seq<byte>, p: nat)
    requires needle != [] && Here(s, k, str) && At(str, needle, p)
    ensures MatchAt(s, needle, k + p) && Span(s, needle, k + p, k + p + |needle|)
  {
    MatchWithin(s, k, str, needle, p);
    HereAt(s, k, str, p);
    HereAt(s, k, str, p + |needle| - 1);
    assert s[k + p..k + p + |needle|] == Wrap(needle) by {
      forall i | 0 <= i < |needle| ensures s[k + p + i] == Byte(needle[i]) {
        HereAt(s, k, str, p + i);
        assert needle[i] == str[p..p + |needle|][i];
      }
    }
    BytesOfWrap(needle);
  }

  /** A span is what a match at `p` covers. */
  lemma SpanMatches(s: seq<Item>, needle: seq<byte>, p: nat, q: nat)
    requires Span(s, needle, p, q)
    ensures MatchAt(s, needle, p)
  {
    assert s[p..] == s[p..q] + s[q..];
    BytesOfConcat(s[p..q], s[q..]);
  }

  /** A match covers one stretch only. */
  lemma SpanUnique(s: seq<Item>, needle: seq<byte>, p: nat, q: nat, q': nat)
    requires Span(s, needle, p, q) && Span(s, needle, p, q')
    ensures q == q'
  {
    if q < q' {
      SpanLonger(s, needle, p, q, q');
    } else if q' < q {
      SpanLonger(s, needle, p, q', q);
    }
  }

  lemma SpanLonger(s: seq<Item>, needle: seq<byte>, p: nat, q: nat, q': nat)
    requires Span(s, needle, p, q) && q < q' <= |s| && s[q' - 1].Byte?
    ensures BytesOf(s[p..q']) != needle
  {
    assert s[p..q'] == s[p..q] + s[q..q'];
    BytesOfConcat(s[p..q], s[q..q']);
    assert s[q..q'] == s[q..q' - 1] + [s[q' - 1]];
    BytesOfConcat(s[q..q' - 1], [s[q' - 1]]);
  }

  /** Without metadata, matches are plain occurrences in the bytes. */
  lemma MatchIsOccurrence(s: seq<Item>, needle: seq<byte>, p: nat)
    requires Plain(s) && needle != []
    ensures MatchAt(s, needle, p) <==> At(BytesOf(s), needle, p)
  {
    BytesOfPlain(s);
    var bytes := BytesOf(s);
    if p + |needle| <= |bytes| {
      MatchWithin(s, 0, bytes, needle, p);
    } else if p < |s| {
      BytesOfPlain(s[p..]);
    }
  }
}
