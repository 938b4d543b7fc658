/**
  What the decoders of encoding/apr_encode.c have in common: each first counts
  the letters that the text starts with, by a table, and judges what follows.
*/
module Alphabets {
  import opened Streams

  datatype Status = Success | BadCh | EIncomplete

  /** The flags of the encoders and decoders; `hex` is APR_ENCODE_BASE32HEX. */
  datatype Flags = Flags(relaxed: bool, noPadding: bool, url: bool, hex: bool, lower: bool, colon: bool)

  const NO_FLAGS := Flags(false, false, false, false, false, false)

  const PAD: byte := 61

  /** A table: below `base` for a letter, `base` for no letter, above it for padding. */
  type Table = byte -> nat

  predicate Letters(text: seq<byte>, pr2: Table, base: nat) {
    forall i :: 0 <= i < |text| ==> pr2(text[i]) < base
  }

  /** The characters before the first that is no letter. */
  function Prefix(text: seq<byte>, pr2: Table, base: nat): (n: nat)
    ensures n <= |text| && Letters(text[..n], pr2, base) && (n < |text| ==> pr2(text[n]) >= base)
  {
    if text == [] || pr2(text[0]) >= base then 0 else 1 + Prefix(text[1..], pr2, base)
  }

  /** The contract of Prefix leaves one answer. */
  lemma PrefixIs(letters: seq<byte>, rest: seq<byte>, pr2: Table, base: nat)
    requires Letters(letters, pr2, base) && (rest == [] || pr2(rest[0]) >= base)
    ensures Prefix(letters + rest, pr2, base) == |letters|
  {
    var text := letters + rest;
    var n := Prefix(text, pr2, base);
    hide Prefix;
    assert forall i :: 0 <= i < |letters| ==> text[i] == letters[i];
    assert forall i :: 0 <= i < n ==> text[..n][i] == text[i];
    assert rest != [] ==> text[|letters|] == rest[0];
  }

  predicate AllPad(text: seq<byte>) {
    forall i :: 0 <= i < |text| ==> text[i] == PAD
  }

  /** Strict decoding tolerates at most `most` characters after the letters, all of them padding. */
  predicate Tolerated(rest: seq<byte>, most: nat) {
    |rest| <= most && AllPad(rest)
  }

  /** What the scan reports. */
  function Judged(rest: seq<byte>, most: nat, relaxed: bool): Status {
    if rest != [] && !relaxed && !Tolerated(rest, most) then BadCh else Success
  }

  /** `n` letters and then nothing but padding, at most `most` characters of it. */
  predicate Form(text: seq<byte>, n: nat, pr2: Table, base: nat, most: nat) {
    n <= |text| <= n + most && Letters(text[..n], pr2, base) && AllPad(text[n..])
  }

  /** Strict decoding lets through exactly the texts of that form; relaxed decoding objects to none. */
  lemma StrictExactly(text: seq<byte>, pr2: Table, base: nat, most: nat)
    requires pr2(PAD) >= base
    ensures Judged(text[Prefix(text, pr2, base)..], most, false) == Success
      <==> Form(text, Prefix(text, pr2, base), pr2, base, most)
    ensures Judged(text[Prefix(text, pr2, base)..], most, true) == Success
    ensures forall n: nat :: Form(text, n, pr2, base, most) ==> n == Prefix(text, pr2, base)
  {
    hide Prefix;
    forall n: nat | Form(text, n, pr2, base, most) ensures n == Prefix(text, pr2, base) {
      ScanStops(text, n, pr2, base);
    }
  }

  ghost predicate PadsOnly(pr2: Table, base: nat) {
    forall c: byte :: pr2(c) > base <==> c == PAD
  }

  /** The scan at the start of a decoder, with or without a buffer. */
  method Scan(text: seq<byte>, pr2: Table, base: nat, most: nat, relaxed: bool) returns (n: nat, status: Status)
    requires most == 0 || PadsOnly(pr2, base)
    ensures n == Prefix(text, pr2, base) && status == Judged(text[n..], most, relaxed)
  {
    hide Prefix;
    n := 0;
    var count := |text|;
    while count > 0
      invariant 0 <= count && n + count == |text| && Letters(text[..n], pr2, base)
    {
      if pr2(text[n]) >= base {
        ScanStops(text, n, pr2, base);
        status := Success;
        if !relaxed {
          status := CheckTail(text[n..], pr2, base, most);
        }
        return;
      }
      assert text[..n + 1] == text[..n] + [text[n]];
      count := count - 1;
      n := n + 1;
    }
    ScanStops(text, n, pr2, base);
    status := Success;
  }

  lemma ScanStops(text: seq<byte>, n: nat, pr2: Table, base: nat)
    requires n <= |text| && Letters(text[..n], pr2, base) && (n < |text| ==> pr2(text[n]) >= base)
    ensures Prefix(text, pr2, base) == n
  {
    hide Prefix;
    PrefixIs(text[..n], text[n..], pr2, base);
    assert text[..n] + text[n..] == text;
  }

  /** The loop over what follows the letters, from its end. */
  method CheckTail(rest: seq<byte>, pr2: Table, base: nat, most: nat) returns (status: Status)
    requires rest != [] && (most == 0 || PadsOnly(pr2, base))
    ensures status == if Tolerated(rest, most) then Success else BadCh
  {
    var count := |rest|;
    if count <= most {
      while true
        invariant 0 < count <= |rest| <= most && forall i :: count <= i < |rest| ==> rest[i] == PAD
        decreases count
      {
        if pr2(rest[count - 1]) <= base {
          break;
        }
        count := count - 1;
        if count == 0 {
          break;
        }
      }
    }
    status := if count > 0 then BadCh else Success;
  }
}
