/** memcpy and memset on byte buffers. */
module Memory {
  import opened Basics

  lemma DropAppend(s: seq<byte>, t: seq<byte>, k: nat)
    requires k <= |s|
    ensures (s + t)[k..] == s[k..] + t
  {
  }

  lemma AppendAssoc(a: seq<byte>, b: seq<byte>, c: seq<byte>)
    ensures a + (b + c) == (a + b) + c
  {
  }

  lemma DropDrop(s: seq<byte>, i: nat, j: nat)
    requires i + j <= |s|
    ensures s[i..][j..] == s[i + j..]
  {
  }

  lemma TakeFromRest(s: seq<byte>, t: seq<byte>, k: nat)
    requires k <= |t|
    ensures (s + t[..k]) + t[k..] == s + t
  {
  }

  /** What has been read since is the beginning of what was given. */
  lemma TakenFromInput(read: seq<byte>, given: seq<byte>, read': seq<byte>, rest: seq<byte>)
    requires read' + rest == read + given && read <= read'
    ensures |rest| <= |given| && read' == read + given[..|given| - |rest|]
    ensures given[..|given| - |rest|] == read'[|read'| - (|given| - |rest|)..]
  {
    var used := |given| - |rest|;
    assert |read' + rest| == |read + given|;
    assert read' == (read' + rest)[..|read'|] == (read + given)[..|read| + used];
    assert (read + given)[..|read| + used] == read + given[..used];
  }

  /** The indices lo .. hi - 1. */
  ghost function Span(lo: nat, hi: nat): (r: set<nat>)
    ensures forall i :: i in r <==> lo <= i < hi
    decreases hi - lo
  {
    if lo >= hi then {} else {lo} + Span(lo + 1, hi)
  }

  /** A read of a buffer of which only the bytes in `init` have been given a value. */
  function Fetch(a: array<byte>, i: nat, ghost init: set<nat>): byte
    requires i < a.Length && i in init
    reads a
  {
    a[i]
  }

  /** Copies data to `at`; exactly the bytes written join the initialised ones. */
  method CopyIn(a: array<byte>, at: nat, data: seq<byte>, ghost init: set<nat>) returns (ghost init': set<nat>)
    requires at + |data| <= a.Length
    modifies a
    ensures a[..at + |data|] == old(a[..at]) + data
    ensures a[at + |data|..] == old(a[at + |data|..])
    ensures init' == init + Span(at, at + |data|)
  {
    forall i | 0 <= i < |data| {
      a[at + i] := data[i];
    }
    init' := init + Span(at, at + |data|);
  }

  /** Moves the n bytes at `from`, all initialised, to the front; the two ranges do not overlap. */
  method CopyDown(a: array<byte>, from: nat, n: nat, ghost init: set<nat>) returns (ghost init': set<nat>)
    requires n <= from && from + n <= a.Length && Span(from, from + n) <= init
    modifies a
    ensures a[..n] == old(a[from..from + n])
    ensures a[n..] == old(a[n..])
    ensures init' == init + Span(0, n)
  {
    forall i | 0 <= i < n {
      a[i] := a[from + i];
    }
    init' := init + Span(0, n);
  }

  method Zero(a: array<byte>, at: nat, n: nat, ghost init: set<nat>) returns (ghost init': set<nat>)
    requires at + n <= a.Length
    modifies a
    ensures a[..at] == old(a[..at])
    ensures a[at + n..] == old(a[at + n..])
    ensures forall i :: at <= i < at + n ==> a[i] == 0
    ensures init' == init + Span(at, at + n)
  {
    forall i | 0 <= i < n {
      a[at + i] := 0;
    }
    init' := init + Span(at, at + n);
  }

  lemma MulMono(a: nat, b: nat, c: nat)
    requires a <= b
    ensures a * c <= b * c
  {
  }

  lemma SameBytes(a: seq<byte>, b: seq<byte>, c: seq<byte>, d: seq<byte>)
    requires a + b == c + d
    ensures |a| + |b| == |c| + |d|
  {
    assert |a + b| == |c + d|;
  }
}
