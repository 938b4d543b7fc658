/**
  The meaning of a brigade, apart from how it is cut into buckets: a stream of
  bytes with metadata marks between them.
*/
module Streams {
  type byte = b: int | 0 <= b < 256

  /** One position of a brigade's stream: a content byte or a metadata bucket. */
  datatype Item = Byte(val: byte) | Meta(tag: nat)

  /** A run of plain bytes as stream items. */
  function Wrap(s: seq<byte>): (r: seq<Item>)
    ensures |r| == |s|
    ensures forall i :: 0 <= i < |s| ==> r[i] == Byte(s[i])
  {
    seq(|s|, i requires 0 <= i < |s| => Byte(s[i]))
  }

  /** The content bytes of a stream, metadata skipped. */
  function BytesOf(s: seq<Item>): (r: seq<byte>)
    ensures |r| <= |s|
  {
    if s == [] then []
    else if s[0].Byte? then [s[0].val] + BytesOf(s[1..])
    else BytesOf(s[1..])
  }

  /** No metadata in the stream. */
  predicate Plain(s: seq<Item>) {
    forall i :: 0 <= i < |s| ==> s[i].Byte?
  }

  lemma {:induction false} BytesOfConcat(a: seq<Item>, b: seq<Item>)
    ensures BytesOf(a + b) == BytesOf(a) + BytesOf(b)
  {
    if a == [] {
      assert a + b == b;
    } else {
      assert (a + b)[1..] == a[1..] + b;
      BytesOfConcat(a[1..], b);
    }
  }

  lemma {:induction false} BytesOfPlain(s: seq<Item>)
    requires Plain(s)
    ensures |BytesOf(s)| == |s|
    ensures Wrap(BytesOf(s)) == s
  {
    if s != [] {
      BytesOfPlain(s[1..]);
    }
  }

  lemma {:induction false} BytesOfWrap(s: seq<byte>)
    ensures BytesOf(Wrap(s)) == s
  {
    if s != [] {
      assert Wrap(s)[1..] == Wrap(s[1..]);
      BytesOfWrap(s[1..]);
    }
  }
}
