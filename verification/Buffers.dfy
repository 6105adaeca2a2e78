/** Byte buffers: overwriting a window, concatenation, and NUL-terminated strings. */
module Buffers {
  import opened Machine

  function Zeros(n: nat): (s: seq<byte>)
    ensures |s| == n
    ensures forall k :: 0 <= k < n ==> s[k] == 0
  {
    seq(n, _ => 0)
  }

  /** `s` with `src` written over it from position `at`. */
  function Put(s: seq<byte>, at: nat, src: seq<byte>): (r: seq<byte>)
    requires at + |src| <= |s|
    ensures |r| == |s|
    ensures forall k :: 0 <= k < at ==> r[k] == s[k]
    ensures forall k :: at <= k < at + |src| ==> r[k] == src[k - at]
    ensures forall k :: at + |src| <= k < |s| ==> r[k] == s[k]
  {
    seq(|s|, k requires 0 <= k < |s| => if at <= k < at + |src| then src[k - at] else s[k])
  }

  lemma PutWindow(s: seq<byte>, at: nat, src: seq<byte>)
    requires at + |src| <= |s|
    ensures Put(s, at, src)[at..at + |src|] == src
  {
  }

  /** A byte loop that stores `src` at `buf + at`. */
  method CopyIn(buf: array<byte>, at: nat, src: seq<byte>)
    requires at + |src| <= buf.Length
    modifies buf
    ensures buf[..] == Put(old(buf[..]), at, src)
  {
    var k := 0;
    while k < |src|
      invariant k <= |src|
      invariant forall j :: 0 <= j < at ==> buf[j] == old(buf[j])
      invariant forall j :: at <= j < at + k ==> buf[j] == src[j - at]
      invariant forall j :: at + k <= j < buf.Length ==> buf[j] == old(buf[j])
    {
      buf[at + k] := src[k];
      k := k + 1;
    }
  }

  function Concat(ss: seq<seq<byte>>): seq<byte> {
    if ss == [] then [] else ss[0] + Concat(ss[1..])
  }

  lemma {:induction false} ConcatSnoc(ss: seq<seq<byte>>, s: seq<byte>)
    ensures Concat(ss + [s]) == Concat(ss) + s
    decreases |ss|
  {
    if ss == [] {
      assert [s][1..] == [] && ss + [s] == [s];
    } else {
      ConcatSnoc(ss[1..], s);
      assert (ss + [s])[1..] == ss[1..] + [s];
    }
  }

  // ------------------------------------------------------------ lines

  /** Length of the first line: the position of the first newline, or of the end. */
  function LineLength(f: seq<byte>): (k: nat)
    ensures k <= |f|
    ensures forall i :: 0 <= i < k ==> f[i] != NEWLINE
    ensures k < |f| ==> f[k] == NEWLINE
  {
    if f == [] || f[0] == NEWLINE then 0 else 1 + LineLength(f[1..])
  }

  lemma LineLengthIs(f: seq<byte>, k: nat)
    requires k <= |f| && (forall i :: 0 <= i < k ==> f[i] != NEWLINE) && (k < |f| ==> f[k] == NEWLINE)
    ensures LineLength(f) == k
  {
    var n := LineLength(f);
    assert n < |f| ==> f[n] == NEWLINE;
    assert k < |f| ==> f[k] == NEWLINE;
  }

  ghost predicate NewlineFree(s: seq<byte>) {
    forall i :: 0 <= i < |s| ==> s[i] != NEWLINE
  }

  /** Lines with a newline between each two of them. */
  function JoinLines(ls: seq<seq<byte>>): seq<byte> {
    if ls == [] then [] else if |ls| == 1 then ls[0] else ls[0] + [NEWLINE] + JoinLines(ls[1..])
  }

  lemma JoinLinesCons(line: seq<byte>, ls: seq<seq<byte>>)
    ensures JoinLines([line] + ls) == if ls == [] then line else line + [NEWLINE] + JoinLines(ls)
  {
    assert ([line] + ls)[1..] == ls;
  }

  // ------------------------------------------------------------ C strings

  ghost predicate NulFree(s: seq<byte>) {
    forall i :: 0 <= i < |s| ==> s[i] != NUL
  }

  /** The bytes of a C string that starts at `at`. */
  function CString(data: seq<byte>, at: nat): (r: seq<byte>)
    requires at <= |data|
    decreases |data| - at
  {
    if at == |data| || data[at] == NUL then [] else [data[at]] + CString(data, at + 1)
  }

  /** It ends before the first NUL. */
  lemma {:induction false} CStringMeans(data: seq<byte>, at: nat)
    requires at <= |data|
    ensures var s := CString(data, at);
      && at + |s| <= |data| && s == data[at..at + |s|] && NulFree(s)
      && (at + |s| < |data| ==> data[at + |s|] == NUL)
    decreases |data| - at
  {
    if at < |data| && data[at] != NUL {
      CStringMeans(data, at + 1);
      var n := |CString(data, at)|;
      assert data[at..at + n] == [data[at]] + data[at + 1..at + n];
    }
  }

  lemma {:induction false} CStringIs(data: seq<byte>, at: nat, end: nat)
    requires at <= end < |data| && data[end] == NUL && NulFree(data[at..end])
    ensures CString(data, at) == data[at..end]
    decreases end - at
  {
    if at < end {
      assert data[at] == data[at..end][0];
      assert data[at + 1..end] == data[at..end][1..];
      CStringIs(data, at + 1, end);
    }
  }
}
