/** The small LZ77 decoder that every compressed stream is judged by. */
module Lz77 {
  import opened Basics

  const MIN_MATCH: nat := 3
  const MAX_MATCH: nat := 258

  /** A literal/length-distance symbol, sections 3.2.3 and 3.2.5 of RFC 1951. */
  datatype Symbol = Literal(b: byte) | Match(len: nat, dist: nat)

  /** Copies n bytes from dist bytes back, one at a time, so that the source may overlap the copy. */
  function CopyBack(out: seq<byte>, dist: nat, n: nat): (r: seq<byte>)
    requires 1 <= dist <= |out|
    ensures |r| == |out| + n && out <= r
    decreases n
  {
    if n == 0 then out else CopyBack(out + [out[|out| - dist]], dist, n - 1)
  }

  /**
   What one symbol adds to the output; None when the symbol is not legal here: a length outside
   3..258, or a distance beyond `reach` or before the start of the output.
   */
  function Expand(reach: nat, out: seq<byte>, sym: Symbol): Option<seq<byte>> {
    match sym
    case Literal(b) => Some(out + [b])
    case Match(len, dist) =>
      if MIN_MATCH <= len <= MAX_MATCH && 1 <= dist <= reach && dist <= |out|
      then Some(CopyBack(out, dist, len))
      else None
  }

  /** Decodes a symbol sequence after the history `out`. */
  function Decode(reach: nat, out: seq<byte>, syms: seq<Symbol>): Option<seq<byte>> {
    if syms == [] then Some(out)
    else
      var front := Decode(reach, out, syms[..|syms| - 1]);
      if front.None? then None else Expand(reach, front.value, syms[|syms| - 1])
  }

  lemma DecodeSnoc(reach: nat, out: seq<byte>, syms: seq<Symbol>, sym: Symbol)
    requires Decode(reach, out, syms).Some?
    ensures Decode(reach, out, syms + [sym]) == Expand(reach, Decode(reach, out, syms).value, sym)
  {
    assert (syms + [sym])[..|syms|] == syms;
  }

  /** Decoding is a left action of symbol sequences on outputs. */
  lemma {:induction false} DecodeAppend(reach: nat, out: seq<byte>, a: seq<Symbol>, b: seq<Symbol>)
    requires Decode(reach, out, a).Some?
    ensures Decode(reach, out, a + b) == Decode(reach, Decode(reach, out, a).value, b)
  {
    if b == [] {
      assert a + b == a;
    } else {
      var front := b[..|b| - 1];
      DecodeAppend(reach, out, a, front);
      assert (a + b)[..|a + b| - 1] == a + front;
    }
  }

  lemma {:induction false} CopyWithHistory(before: seq<byte>, out: seq<byte>, dist: nat, n: nat)
    requires 1 <= dist <= |out|
    ensures CopyBack(before + out, dist, n) == before + CopyBack(out, dist, n)
    decreases n
  {
    if n != 0 {
      var c := out[|out| - dist];
      assert before + out + [c] == before + (out + [c]);
      CopyWithHistory(before, out + [c], dist, n - 1);
    }
  }

  /** What decodes without a history decodes to the same bytes after any history. */
  lemma {:induction false} DecodeWithHistory(reach: nat, before: seq<byte>, out: seq<byte>, syms: seq<Symbol>)
    requires Decode(reach, out, syms).Some?
    ensures Decode(reach, before + out, syms) == Some(before + Decode(reach, out, syms).value)
  {
    if syms != [] {
      var front, sym := syms[..|syms| - 1], syms[|syms| - 1];
      DecodeWithHistory(reach, before, out, front);
      var mid := Decode(reach, out, front).value;
      match sym {
        case Literal(b) => assert before + mid + [b] == before + (mid + [b]);
        case Match(len, dist) => CopyWithHistory(before, mid, dist, len);
      }
    }
  }

  /** Symbols are never empty. */
  lemma {:induction false} DecodeLengthens(reach: nat, out: seq<byte>, syms: seq<Symbol>)
    requires Decode(reach, out, syms).Some?
    ensures |Decode(reach, out, syms).value| >= |out| + |syms|
  {
    if syms != [] {
      DecodeLengthens(reach, out, syms[..|syms| - 1]);
    }
  }

  /** The bytes of s at `at` repeat those at `at - dist`, for n bytes. */
  ghost predicate Repeats(s: seq<byte>, at: nat, dist: nat, n: nat) {
    && 1 <= dist <= at
    && at + n <= |s|
    && forall k :: at <= k < at + n ==> s[k] == s[k - dist]
  }

  lemma RepeatsGrow(s: seq<byte>, s': seq<byte>, at: nat, dist: nat, n: nat)
    requires Repeats(s, at, dist, n) && s <= s'
    ensures Repeats(s', at, dist, n)
  {
  }

  /** A repeat that does not reach back past k is one of the bytes from k on. */
  lemma RepeatsTail(s: seq<byte>, at: nat, dist: nat, n: nat, k: nat)
    requires Repeats(s, at, dist, n) && k + dist <= at
    ensures Repeats(s[k..], at - k, dist, n)
  {
    var t := s[k..];
    forall i | at - k <= i < at - k + n
      ensures t[i] == t[i - dist]
    {
      assert s[i + k] == s[i + k - dist];
    }
  }

  /** A repeat in the stream is exactly what a match symbol reproduces, overlap included. */
  lemma {:induction false} RepeatIsCopy(s: seq<byte>, at: nat, dist: nat, n: nat)
    requires Repeats(s, at, dist, n)
    ensures CopyBack(s[..at], dist, n) == s[..at + n]
    decreases n
  {
    if n != 0 {
      assert s[at] == s[at - dist];
      assert s[..at] + [s[at - dist]] == s[..at + 1];
      RepeatIsCopy(s, at + 1, dist, n - 1);
    }
  }
}
