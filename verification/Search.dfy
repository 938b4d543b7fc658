/**
  Substring search: the fallback memmem of buckets/apr_brigade.c and the scan
  for a needle that runs off the end of a buffer.
*/
module Search {
  import opened Streams

  /** `needle` occurs in `hay` at `p`. */
  predicate At(hay: seq<byte>, needle: seq<byte>, p: int) {
    0 <= p && p + |needle| <= |hay| && hay[p..p + |needle|] == needle
  }

  /** No occurrence starts before `k`. */
  predicate NoneBefore(hay: seq<byte>, needle: seq<byte>, k: int) {
    forall p :: 0 <= p < k ==> !At(hay, needle, p)
  }

  /** `p` is where the first occurrence starts. */
  predicate FirstAt(hay: seq<byte>, needle: seq<byte>, p: int) {
    At(hay, needle, p) && NoneBefore(hay, needle, p)
  }

  predicate Occurs(hay: seq<byte>, needle: seq<byte>) {
    exists p :: 0 <= p <= |hay| && At(hay, needle, p)
  }

  /** memchr over `s[from..from + len]`; -1 stands for NULL. */
  method Memchr(s: seq<byte>, c: byte, from: nat, len: nat) returns (r: int)
    requires from + len <= |s|
    ensures r == -1 ==> c !in s[from..from + len]
    ensures r != -1 ==> from <= r < from + len && s[r] == c && c !in s[from..r]
  {
    r := from;
    while r < from + len
      invariant from <= r <= from + len
      invariant c !in s[from..r]
    {
      if s[r] == c {
        return;
      }
      r := r + 1;
    }
    r := -1;
  }

  /** The fallback memmem; -1 stands for NULL. An empty needle is never found. */
  method Memmem(hay: seq<byte>, needle: seq<byte>) returns (pos: int)
    ensures needle == [] ==> pos == -1
    ensures needle != [] && pos == -1 ==> !Occurs(hay, needle)
    ensures pos != -1 ==> FirstAt(hay, needle, pos)
  {
    if |hay| < |needle| || |needle| == 0 || |hay| == 0 {
      return -1;
    }
    var len := |hay| - |needle| + 1;
    pos := Memchr(hay, needle[0], 0, len);
    SkipNonMatching(hay, needle, 0, if pos == -1 then len else pos);
    while pos != -1
      invariant pos != -1 ==> 0 <= pos <= |hay| - |needle| && NoneBefore(hay, needle, pos)
      invariant pos == -1 ==> NoneBefore(hay, needle, |hay| - |needle| + 1)
      decreases if pos == -1 then 0 else |hay| - pos
    {
      if hay[pos..pos + |needle|] == needle {
        return;
      }
      len := |hay| - pos - |needle| + 1 - 1;
      var from := pos + 1;
      pos := Memchr(hay, needle[0], from, len);
      SkipNonMatching(hay, needle, from, if pos == -1 then from + len else pos);
    }
  }

  /** Where the needle's first byte does not stand, the needle does not start. */
  lemma SkipNonMatching(hay: seq<byte>, needle: seq<byte>, from: nat, to: nat)
    requires needle != [] && from <= to <= |hay| && needle[0] !in hay[from..to]
    ensures forall p :: from <= p < to ==> !At(hay, needle, p)
  {
    forall p | from <= p < to ensures !At(hay, needle, p) {
      assert hay[p] == hay[from..to][p - from];
    }
  }

  /** What is left of `str` at `off` begins `needle` but does not complete it. */
  predicate Partial(str: seq<byte>, needle: seq<byte>, off: int) {
    0 <= off < |str| && |str| - off < |needle| && str[off..] == needle[..|str| - off]
  }

  /**
    The loops that look for a partial match at the end of a buffer, from
    `start` on; |str| when there is none.
  */
  method FirstPartial(str: seq<byte>, needle: seq<byte>, start: nat) returns (off: nat)
    requires start <= |str| && |str| - start < |needle|
    ensures start <= off <= |str|
    ensures off < |str| ==> Partial(str, needle, off)
    ensures forall p :: start <= p < off ==> !Partial(str, needle, p)
  {
    off := start;
    while off < |str|
      invariant start <= off <= |str|
      invariant forall p :: start <= p < off ==> !Partial(str, needle, p)
    {
      if str[off..] == needle[..|str| - off] {
        return;
      }
      off := off + 1;
    }
  }
}
