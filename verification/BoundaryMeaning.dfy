/**
  What the outcome of apr_brigade_split_boundary means to a caller. All of it
  is about `Outcome`, which every call establishes for every way of cutting
  the input into buckets.
*/
module BoundaryMeaning {
  import opened Streams
  import opened Arenas
  import opened Search
  import opened Matches
  import opened Boundary
  import opened Edges

  // ----- What an outcome gives, one fact at a time

  lemma OutcomeParts(status: Status, before: seq<Item>, s: seq<Item>, boundary: seq<byte>, maxbytes: int, k: int,
                     out: seq<Item>, rest: seq<Item>)
    requires Outcome(status, before, s, boundary, maxbytes, k, out, rest) && status != ReadError
    ensures status == Success || status == Incomplete
    ensures 0 <= k <= |s| && Plain(s[..k]) && out == before + s[..k] && NoMatchBefore(s, boundary, k)
    ensures status == Incomplete ==> rest == s[k..] && (k == |s| || k >= maxbytes || s[k].Meta?)
  {
    hide Plain, NoMatchBefore, Span;
  }

  /** Where the match of a successful call ends. */
  lemma MatchEnd(before: seq<Item>, s: seq<Item>, boundary: seq<byte>, maxbytes: int, k: int, out: seq<Item>,
                 rest: seq<Item>) returns (q: int)
    requires Outcome(Success, before, s, boundary, maxbytes, k, out, rest)
    ensures SpanThen(s, boundary, k, q, rest)
  {
    hide Plain, NoMatchBefore, BytesOf;
    q :| Span(s, boundary, k, q) && rest == s[q..];
  }

  /** Items that were moved are bytes, so a limit above the number of bytes is not reached. */
  lemma BelowLimit(s: seq<Item>, k: int)
    requires 0 <= k <= |s| && Plain(s[..k])
    ensures k <= |BytesOf(s)|
  {
    hide BytesOf;
    BytesOfPlain(s[..k]);
    assert s == s[..k] + s[k..];
    BytesOfConcat(s[..k], s[k..]);
  }

  // ----- What the call decides

  /**
    For a limit above the number of bytes: the call succeeds exactly when a
    match begins before the first metadata bucket.
  */
  lemma SucceedsExactly(status: Status, before: seq<Item>, s: seq<Item>, boundary: seq<byte>, maxbytes: int, k: int,
                        out: seq<Item>, rest: seq<Item>)
    requires Outcome(status, before, s, boundary, maxbytes, k, out, rest) && status != ReadError
    requires maxbytes > |BytesOf(s)|
    ensures status == Success <==> exists p :: MatchAt(s, boundary, p) && Plain(s[..p])
  {
    hide Outcome, MatchAt, Span, NoMatchBefore, BytesOf;
    OutcomeParts(status, before, s, boundary, maxbytes, k, out, rest);
    if status == Success {
      var q := MatchEnd(before, s, boundary, maxbytes, k, out, rest);
      SpanBounds(s, boundary, k, q);
      SpanMatches(s, boundary, k, q);
    } else {
      BelowLimit(s, k);
      StoppedShort(s, boundary, k);
    }
  }

  lemma SpanBounds(s: seq<Item>, boundary: seq<byte>, k: int, q: int)
    requires Span(s, boundary, k, q)
    ensures 0 <= k < q <= |s|
  {
  }

  /** No match begins before the metadata, or the end, at which the search stopped. */
  lemma StoppedShort(s: seq<Item>, boundary: seq<byte>, k: int)
    requires 0 <= k <= |s| && NoMatchBefore(s, boundary, k) && (k == |s| || s[k].Meta?)
    ensures forall p :: !(MatchAt(s, boundary, p) && Plain(s[..p]))
  {
    hide BytesOf;
    forall p | MatchAt(s, boundary, p) ensures !Plain(s[..p]) {
      assert k < p && s[..p][k].Meta?;
    }
  }

  /**
    Without metadata the call is a plain search of the concatenated bytes:
    bbOut gains what is before the first occurrence, bbIn keeps what is after.
  */
  lemma SearchesBytes(status: Status, before: seq<Item>, s: seq<Item>, boundary: seq<byte>, maxbytes: int, k: int,
                      out: seq<Item>, rest: seq<Item>)
    requires Outcome(status, before, s, boundary, maxbytes, k, out, rest) && status != ReadError
    requires Plain(s) && maxbytes > |BytesOf(s)| && boundary != []
    ensures status == Success <==> Occurs(BytesOf(s), boundary)
    ensures status == Success ==>
      && FirstAt(BytesOf(s), boundary, k)
      && out == before + Wrap(BytesOf(s)[..k])
      && rest == Wrap(BytesOf(s)[k + |boundary|..])
    ensures status == Incomplete ==> rest == [] && out == before + Wrap(BytesOf(s))
  {
    hide Outcome, BytesOf, Wrap, MatchAt, Occurs, FirstAt, NoMatchBefore, Plain, Span, SpanThen;
    OutcomeParts(status, before, s, boundary, maxbytes, k, out, rest);
    if status == Success {
      var q := MatchEnd(before, s, boundary, maxbytes, k, out, rest);
      FoundBytes(s, boundary, k, q, rest);
    } else {
      BelowLimit(s, k);
      NoMeta(s, k);
      NoneAnywhere(s, boundary, k);
      BytesOfPlain(s);
      assert s[..k] == s && s[k..] == [];
    }
  }

  /** What a match means for the bytes of a stream without metadata. */
  lemma FoundBytes(s: seq<Item>, boundary: seq<byte>, k: int, q: int, rest: seq<Item>)
    requires Plain(s) && boundary != [] && NoMatchBefore(s, boundary, k) && SpanThen(s, boundary, k, q, rest)
    ensures FirstAt(BytesOf(s), boundary, k) && Occurs(BytesOf(s), boundary)
    ensures 0 <= k && k + |boundary| <= |BytesOf(s)|
    ensures s[..k] == Wrap(BytesOf(s)[..k]) && rest == Wrap(BytesOf(s)[k + |boundary|..])
  {
    hide BytesOf, Wrap, MatchAt, Occurs, FirstAt, NoMatchBefore, Plain, Span;
    SpanBounds(s, boundary, k, q);
    SpanMatches(s, boundary, k, q);
    SpanOfBytes(s, boundary, k, q);
    FirstOccurrence(s, boundary, k);
  }

  lemma NoMeta(s: seq<Item>, k: int)
    requires Plain(s) && 0 <= k <= |s|
    ensures k < |s| ==> s[k].Byte?
  {
  }

  lemma FirstOccurrence(s: seq<Item>, boundary: seq<byte>, k: int)
    requires Plain(s) && boundary != [] && MatchAt(s, boundary, k) && NoMatchBefore(s, boundary, k)
    ensures FirstAt(BytesOf(s), boundary, k) && Occurs(BytesOf(s), boundary)
  {
    BytesOfPlain(s);
    hide BytesOf, MatchAt, At;
    Bounded(s, boundary, k);
    forall p | 0 <= p <= k ensures MatchAt(s, boundary, p) <==> At(BytesOf(s), boundary, p) {
      MatchIsOccurrence(s, boundary, p);
    }
  }

  lemma Bounded(s: seq<Item>, boundary: seq<byte>, k: int)
    requires MatchAt(s, boundary, k)
    ensures 0 <= k < |s|
  {
  }

  lemma SpanOfBytes(s: seq<Item>, boundary: seq<byte>, k: int, q: int)
    requires Plain(s) && Span(s, boundary, k, q)
    ensures |BytesOf(s)| == |s| && q == k + |boundary|
    ensures s[..k] == Wrap(BytesOf(s)[..k]) && s[q..] == Wrap(BytesOf(s)[q..])
  {
    BytesOfPlain(s);
    BytesOfPlain(s[k..q]);
  }

  lemma NoneAnywhere(s: seq<Item>, boundary: seq<byte>, k: int)
    requires Plain(s) && boundary != [] && k == |s| && NoMatchBefore(s, boundary, k)
    ensures !Occurs(BytesOf(s), boundary)
  {
    BytesOfPlain(s);
    hide BytesOf;
    forall p | 0 <= p <= |s| ensures !At(BytesOf(s), boundary, p) {
      MatchIsOccurrence(s, boundary, p);
    }
  }

  /** Neither the status nor the two streams depend on how the input was cut into buckets. */
  lemma CutIndependent(status: Status, before: seq<Item>, s: seq<Item>, boundary: seq<byte>, maxbytes: int,
                       k: int, out: seq<Item>, rest: seq<Item>,
                       status': Status, k': int, out': seq<Item>, rest': seq<Item>)
    requires Outcome(status, before, s, boundary, maxbytes, k, out, rest)
    requires Outcome(status', before, s, boundary, maxbytes, k', out', rest')
    requires status != ReadError && status' != ReadError && maxbytes > |BytesOf(s)|
    ensures status == status' && out == out' && rest == rest'
  {
    hide Outcome, MatchAt, Span, NoMatchBefore, BytesOf, Plain;
    SucceedsExactly(status, before, s, boundary, maxbytes, k, out, rest);
    SucceedsExactly(status', before, s, boundary, maxbytes, k', out', rest');
    OutcomeParts(status, before, s, boundary, maxbytes, k, out, rest);
    OutcomeParts(status', before, s, boundary, maxbytes, k', out', rest');
    if status == Success {
      var q := MatchEnd(before, s, boundary, maxbytes, k, out, rest);
      var q' := MatchEnd(before, s, boundary, maxbytes, k', out', rest');
      SamePlace(s, boundary, k, q, k', q');
    } else {
      BelowLimit(s, k);
      BelowLimit(s, k');
      PlainItems(s, k);
      PlainItems(s, k');
    }
  }

  /** Two first matches are the same. */
  lemma SamePlace(s: seq<Item>, boundary: seq<byte>, k: int, q: int, k': int, q': int)
    requires Span(s, boundary, k, q) && NoMatchBefore(s, boundary, k)
    requires Span(s, boundary, k', q') && NoMatchBefore(s, boundary, k')
    ensures k == k' && q == q'
  {
    hide MatchAt, Span;
    SpanBounds(s, boundary, k, q);
    SpanBounds(s, boundary, k', q');
    SpanMatches(s, boundary, k, q);
    SpanMatches(s, boundary, k', q');
    SpanUnique(s, boundary, k, q, q');
  }

  lemma PlainItems(s: seq<Item>, k: int)
    requires 0 <= k <= |s| && Plain(s[..k])
    ensures forall i :: 0 <= i < k ==> s[i].Byte?
  {
    forall i | 0 <= i < k ensures s[i].Byte? {
      assert s[..k][i].Byte?;
    }
  }

  // ----- What the limit decides

  /** The boundary is first found at `p`, and the limit was not reached where it was looked at. */
  ghost predicate Reachable(lens: seq<nat>, s: seq<Item>, boundary: seq<byte>, maxbytes: int, p: int) {
    && 0 <= p < |s| && MatchAt(s, boundary, p) && Plain(s[..p]) && NoMatchBefore(s, boundary, p)
    && Within(lens, s, boundary, maxbytes, p) && (Edge(lens, p) ==> p < maxbytes)
  }

  /**
    For an input in memory and any limit: the call succeeds exactly when there
    is a first match before the first metadata bucket, every bucket edge up to
    it is below the limit, and so is every place before it at which the rest
    of a bucket begins the boundary.
  */
  lemma LimitExactly(status: Status, before: seq<Item>, s: seq<Item>, boundary: seq<byte>, maxbytes: int, k: int,
                     out: seq<Item>, rest: seq<Item>, lens: seq<nat>)
    requires Outcome(status, before, s, boundary, maxbytes, k, out, rest) && status != ReadError
    requires Limited(status, lens, s, boundary, maxbytes, k)
    ensures status == Success <==> exists p :: Reachable(lens, s, boundary, maxbytes, p)
    ensures forall p :: Reachable(lens, s, boundary, maxbytes, p) ==> p == k
  {
    hide Outcome, MatchAt, Span, NoMatchBefore, BytesOf, Within, Edge, Begins, Plain, Limited, SpanThen;
    OutcomeParts(status, before, s, boundary, maxbytes, k, out, rest);
    LimitedWithin(status, lens, s, boundary, maxbytes, k);
    if status == Success {
      var q := MatchEnd(before, s, boundary, maxbytes, k, out, rest);
      SpanThenBounds(s, boundary, k, q, rest);
      SpanMatches(s, boundary, k, q);
      assert Reachable(lens, s, boundary, maxbytes, k);
      forall p | Reachable(lens, s, boundary, maxbytes, p) ensures p == k {
        FirstIsOne(s, boundary, k, p);
      }
    } else {
      forall p ensures !Reachable(lens, s, boundary, maxbytes, p) {
        NotReached(s, boundary, maxbytes, k, lens, p);
      }
    }
  }

  lemma LimitedWithin(status: Status, lens: seq<nat>, s: seq<Item>, boundary: seq<byte>, maxbytes: int, k: int)
    requires Limited(status, lens, s, boundary, maxbytes, k)
    ensures Within(lens, s, boundary, maxbytes, k) && (status == Success && Edge(lens, k) ==> k < maxbytes)
  {
    hide Within, Edge;
  }

  lemma SpanThenBounds(s: seq<Item>, boundary: seq<byte>, k: int, q: int, rest: seq<Item>)
    requires SpanThen(s, boundary, k, q, rest)
    ensures Span(s, boundary, k, q) && 0 <= k < q <= |s|
  {
    hide BytesOf;
  }

  lemma FirstIsOne(s: seq<Item>, boundary: seq<byte>, k: int, p: int)
    requires 0 <= k && 0 <= p && MatchAt(s, boundary, k) && NoMatchBefore(s, boundary, k)
    requires MatchAt(s, boundary, p) && NoMatchBefore(s, boundary, p)
    ensures p == k
  {
    hide MatchAt;
  }

  /** Where the call gave up there was nothing within reach. */
  lemma NotReached(s: seq<Item>, boundary: seq<byte>, maxbytes: int, k: int, lens: seq<nat>, p: int)
    requires 0 <= k <= |s| && NoMatchBefore(s, boundary, k) && Limited(Incomplete, lens, s, boundary, maxbytes, k)
    ensures !Reachable(lens, s, boundary, maxbytes, p)
  {
    hide Edge, Begins, BytesOf;
    if k < |s| && s[k].Byte? {
      assert Checked(lens, s, boundary, k);
    } else if k < p <= |s| {
      assert s[..p][k].Meta?;
    }
  }

  /**
    Whole leading buckets that hold as many bytes as the limit, and no match or
    beginning of one, are all that moves: the call is incomplete and bbIn keeps
    everything after them, even a boundary that follows at once.
  */
  lemma StopsAtLimit(status: Status, before: seq<Item>, s: seq<Item>, boundary: seq<byte>, maxbytes: int, k: int,
                     out: seq<Item>, rest: seq<Item>, lens: seq<nat>, j: nat)
    requires Outcome(status, before, s, boundary, maxbytes, k, out, rest) && status != ReadError
    requires Limited(status, lens, s, boundary, maxbytes, k) && j <= |lens| && Start(lens, j) <= |s|
    requires Start(lens, j) >= maxbytes && forall i :: 0 <= i < j ==> Start(lens, i) < maxbytes
    requires Plain(s[..Start(lens, j)]) && NoMatchBefore(s, boundary, Start(lens, j))
    requires forall c :: c < Start(lens, j) ==> !Begins(lens, s, boundary, c)
    ensures status == Incomplete && k == Start(lens, j)
    ensures out == before + s[..k] && rest == s[k..]
  {
    hide Outcome, MatchAt, Span, BytesOf, Begins, Start, SpanThen;
    OutcomeParts(status, before, s, boundary, maxbytes, k, out, rest);
    var e := Start(lens, j);
    assert Edge(lens, e) && Checked(lens, s, boundary, e);
    assert k <= e;
    if status == Success {
      var q := MatchEnd(before, s, boundary, maxbytes, k, out, rest);
      SpanThenBounds(s, boundary, k, q, rest);
      SpanMatches(s, boundary, k, q);
    } else if k < e {
      assert s[..e][k].Byte?;
      var i :| 0 <= i <= |lens| && k == Start(lens, i);
      if i >= j {
        StartUp(lens, j, i);
      }
    }
  }

  /** With no limit left nothing moves, whatever the input. */
  lemma NothingMoves(status: Status, before: seq<Item>, s: seq<Item>, boundary: seq<byte>, maxbytes: int, k: int,
                     out: seq<Item>, rest: seq<Item>, last: int, wide: nat)
    requires Outcome(status, before, s, boundary, maxbytes, k, out, rest)
    requires Paced(last, k, maxbytes, wide, status == Success || status == ReadError) && maxbytes <= 0
    ensures status == Incomplete && k == 0 && out == before && rest == s
  {
    hide Plain, NoMatchBefore, Span;
    assert s[..0] == [] && s[0..] == s;
  }

  /** The metadata of a stream, in order. */
  function Marks(s: seq<Item>): seq<Item> {
    if s == [] then []
    else if s[0].Meta? then [s[0]] + Marks(s[1..])
    else Marks(s[1..])
  }

  lemma {:induction false} MarksConcat(a: seq<Item>, b: seq<Item>)
    ensures Marks(a + b) == Marks(a) + Marks(b)
  {
    if a == [] {
      assert a + b == b;
    } else {
      assert (a + b)[1..] == a[1..] + b;
      MarksConcat(a[1..], b);
    }
  }

  lemma {:induction false} MarksPlain(s: seq<Item>)
    ensures Marks(s) == [] <==> Plain(s)
  {
    if s != [] {
      MarksPlain(s[1..]);
      if Plain(s[1..]) && s[0].Byte? {
        assert s == [s[0]] + s[1..];
      }
    }
  }

  /**
    A successful call keeps all metadata exactly when none lies between the
    bytes of the match: what does is deleted along with the boundary.
  */
  lemma MetadataKept(before: seq<Item>, s: seq<Item>, boundary: seq<byte>, maxbytes: int, k: int, q: int,
                     out: seq<Item>, rest: seq<Item>)
    requires Outcome(Success, before, s, boundary, maxbytes, k, out, rest) && Span(s, boundary, k, q)
    ensures Marks(out + rest) == Marks(before + s) <==> Plain(s[k..q])
  {
    hide Marks, Plain, MatchAt, NoMatchBefore, Outcome, BytesOf;
    OutcomeParts(Success, before, s, boundary, maxbytes, k, out, rest);
    var q' := MatchEnd(before, s, boundary, maxbytes, k, out, rest);
    SpanUnique(s, boundary, k, q, q');
    MarksCut(before + s[..k], s[k..q], rest);
    assert before + s == before + s[..k] + (s[k..q] + rest);
  }

  lemma MarksCut(a: seq<Item>, m: seq<Item>, z: seq<Item>)
    ensures Marks(a + z) == Marks(a + (m + z)) <==> Plain(m)
  {
    hide Marks, Plain;
    MarksConcat(a, z);
    MarksConcat(a, m + z);
    MarksConcat(m, z);
    MarksPlain(m);
    var x, y, w := Marks(a), Marks(m), Marks(z);
    assert x + w == x + (y + w) <==> y == [] by {
      assert y != [] ==> |x + w| != |x + (y + w)|;
      assert y == [] ==> y + w == w;
    }
  }

  /**
    A metadata bucket inside a boundary that straddles buckets does not stop
    the call, as its documentation promises, and is lost.
  */
  lemma MetadataInsideMatchIsLost(before: seq<Item>, c: byte, d: byte, tag: nat, status: Status, k: int,
                                  out: seq<Item>, rest: seq<Item>)
    requires Outcome(status, before, [Byte(c), Meta(tag), Byte(d)], [c, d], 4, k, out, rest) && status != ReadError
    ensures status == Success && out == before && rest == []
  {
    hide Outcome, MatchAt, NoMatchBefore;
    var s := [Byte(c), Meta(tag), Byte(d)];
    assert s[2..] == [Byte(d)] && s[1..] == [Meta(tag), Byte(d)] && s[2..][1..] == [];
    assert BytesOf(s[2..]) == [d];
    assert s[1..][1..] == s[2..] && BytesOf(s[1..]) == [d];
    assert s[0..3] == s[0..] == s && BytesOf(s) == [c, d];
    assert Span(s, [c, d], 0, 3);
    hide Span, BytesOf;
    SpanMatches(s, [c, d], 0, 3);
    assert s[..0] == [] && Plain(s[..0]);
    SucceedsExactly(status, before, s, [c, d], 4, k, out, rest);
    OutcomeParts(status, before, s, [c, d], 4, k, out, rest);
    var q := MatchEnd(before, s, [c, d], 4, k, out, rest);
    NothingBefore(s, [c, d]);
    SamePlace(s, [c, d], 0, 3, k, q);
  }

  lemma NothingBefore(s: seq<Item>, boundary: seq<byte>)
    ensures NoMatchBefore(s, boundary, 0)
  {
  }
}
