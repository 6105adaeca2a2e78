/** syscalls/ece391grep.c: a chunked line search that carries a partial line over to
    the next read, on a buffer of 1025 bytes. */
module Grep {
  import opened Machine
  import opened Buffers
  import opened FileSystem
  import opened GrepSpec

  /** `ece391_strncmp(data + at, s, strlen(s)) == 0`; a NUL at `end` stops it. */
  method StrncmpIsZero(data: array<byte>, at: nat, s: seq<byte>, ghost end: nat) returns (eq: bool)
    requires at <= end < data.Length && data[end] == NUL && NulFree(s)
    ensures eq == (at + |s| <= end && data[at..at + |s|] == s)
  {
    if |s| == 0 {
      return true;
    }
    var j := 0;
    while data[at + j] == s[j]
      invariant j < |s| && at + j <= end
      invariant data[at..at + j] == s[..j]
      decreases |s| - j
    {
      assert data[at..at + j + 1] == s[..j + 1];
      if data[at + j] == NUL || j + 1 == |s| {
        return true;
      }
      j := j + 1;
    }
    assert at + |s| <= end ==> data[at..at + |s|][j] == data[at + j];
    return false;
  }

  lemma OccursIff(data: seq<byte>, start: nat, end: nat, check: nat, s: seq<byte>)
    requires start <= check < end <= |data|
    ensures OccursAt(data[start..end], s, check - start) <==> check + |s| <= end && data[check..check + |s|] == s
    ensures s != [] && OccursAt(data[start..end], s, check - start) ==> s[0] == data[check]
  {
    if check + |s| <= end {
      SliceOfSlice(data, start, end, check - start, |s|);
    }
  }

  lemma SliceOfSlice(data: seq<byte>, start: nat, end: nat, c: nat, n: nat)
    requires start + c + n <= end <= |data|
    ensures data[start..end][c..c + n] == data[start + c..start + c + n]
  {
    var inner, outer := data[start..end][c..c + n], data[start + c..start + c + n];
    forall i | 0 <= i < n ensures inner[i] == outer[i] {
      assert inner[i] == data[start..end][c + i] == data[start + (c + i)];
    }
  }

  /** The search of one line, which ends at a NUL. */
  method SearchLine(data: array<byte>, start: nat, end: nat, s: seq<byte>) returns (hit: bool)
    requires start <= end < data.Length && data[end] == NUL && NulFree(s)
    ensures NulFree(data[start..end]) ==> hit == Hit(data[start..end], s)
  {
    ghost var line := data[start..end];
    var check := start;
    while check < end
      invariant start <= check <= end
      invariant NulFree(line) && s != [] ==> forall c: nat :: c < check - start ==> !OccursAt(line, s, c)
    {
      OccursIff(data[..], start, end, check, s);
      if data[check] == (if |s| == 0 then NUL else s[0]) {
        var eq := StrncmpIsZero(data, check, s, end);
        if eq {
          assert s == [] ==> line[check - start] == NUL;
          return true;
        }
      }
      check := check + 1;
    }
    return false;
  }

  /** `ece391_strcpy(data, data + src)`: copies down, through the NUL at `end`. */
  method StrcpyDown(data: array<byte>, src: nat, ghost end: nat)
    requires 0 < src <= end < data.Length && data[end] == NUL
    modifies data
    ensures NulFree(old(data[src..end])) ==>
      && data[..end - src] == old(data[src..end])
      && forall k :: end - src < k < data.Length ==> data[k] == old(data[k])
  {
    var k := 0;
    ghost var line := data[src..end];
    while true
      invariant src + k <= end
      invariant data[end] == NUL
      invariant forall j :: 0 <= j < k ==> data[j] == line[j]
      invariant forall j :: k <= j < data.Length ==> data[j] == old(data[j])
      decreases end - k
    {
      var c := data[src + k];
      data[k] := c;
      if c == NUL {
        assert src + k < end ==> line[k] == NUL;
        break;
      }
      k := k + 1;
    }
  }

  method LineEnd(data: array<byte>, start: nat, last: nat) returns (end: nat)
    requires start <= last <= data.Length
    ensures start <= end <= last
    ensures forall i :: start <= i < end ==> data[i] != NEWLINE
    ensures end < last ==> data[end] == NEWLINE
  {
    end := start;
    while end < last && data[end] != NEWLINE
      invariant start <= end <= last
      invariant forall i :: start <= i < end ==> data[i] != NEWLINE
    {
      end := end + 1;
    }
  }

  /** The buffer holds the next `last` bytes of what is left of the file. */
  ghost predicate Holds(data: seq<byte>, last: nat, rest: seq<byte>) {
    last <= |data| && last <= |rest| && data[..last] == rest[..last]
  }

  /** The rest of the file from the current line on, and where the scan has got to in it. */
  ghost predicate Scanning(data: seq<byte>, start: nat, last: nat, rest: seq<byte>) {
    && start <= last < |data|
    && Holds(data[start..], last - start, rest)
    && NulFree(rest)
    && data[last] != NEWLINE
  }

  /** The line under the scan: it ends at the first newline, or where the bytes end. */
  ghost predicate LineSpan(data: seq<byte>, start: nat, end: nat, last: nat) {
    && start <= end <= last < |data|
    && (forall i :: start <= i < end ==> data[i] != NEWLINE)
    && (end < last ==> data[end] == NEWLINE)
  }

  /** What is left of the file once the line has been searched. */
  ghost function After(rest: seq<byte>, n: nat, newline: bool): seq<byte>
    requires n + (if newline then 1 else 0) <= |rest|
  {
    if newline then rest[n + 1..] else rest[n..]
  }

  /** Searching the line under the scan accounts for exactly one piece of the file. */
  lemma SearchStep(data: seq<byte>, start: nat, end: nat, last: nat, rest: seq<byte>, s: seq<byte>)
    requires Scanning(data, start, last, rest) && LineSpan(data, start, end, last) && last <= BUFSIZE
    requires end < last || last - start == BUFSIZE || (last - start == |rest| < BUFSIZE)
    ensures end - start + (if end < last then 1 else 0) <= |rest|
    ensures var line, left := data[start..end], After(rest, end - start, end < last);
      && NulFree(line) && line == rest[..end - start] && NulFree(left)
      && Matching(Pieces(rest), s) == (if Hit(line, s) then [line] else []) + Matching(Pieces(left), s)
      && (end < last ==> Holds(data[end + 1..], last - (end + 1), left))
  {
    hide Hit, Matching, Pieces;
    var n := end - start;
    ghost var line, left := data[start..end], After(rest, n, end < last);
    SameBytes(data, start, last, rest);
    assert line == rest[..n];
    if end < last {
      assert data[end + 1..][..last - (end + 1)] == left[..last - (end + 1)];
      LineLengthIs(rest, n);
    } else if |rest| < BUFSIZE {
      LineLengthIs(rest, n);
      assert rest == line && left == [];
    }
    PieceStep(rest, n, s);
    MatchingCons(line, Pieces(left), s);
    NoHitInEmpty(s);
  }

  lemma SameBytes(data: seq<byte>, start: nat, last: nat, rest: seq<byte>)
    requires start <= last <= |data| && Holds(data[start..], last - start, rest)
    ensures forall i :: start <= i < last ==> data[i] == rest[i - start]
    ensures forall k {:trigger rest[k]} :: 0 <= k < last - start ==> rest[k] == data[start + k]
  {
    forall i | start <= i < last ensures data[i] == rest[i - start] {
      assert data[start..][..last - start][i - start] == data[i];
    }
  }

  /** The first piece of a nonempty rest. */
  lemma PieceStep(rest: seq<byte>, n: nat, s: seq<byte>)
    requires n <= |rest| && n <= BUFSIZE
    requires n < BUFSIZE ==> LineLength(rest) == n
    requires n == BUFSIZE ==> forall i :: 0 <= i < n ==> rest[i] != NEWLINE
    ensures rest != [] ==>
      Pieces(rest) == [rest[..n]] + Pieces(if n < BUFSIZE && n < |rest| then rest[n + 1..] else rest[n..])
    ensures rest == [] ==> Pieces(rest) == []
  {
    hide LineLength;
    if n == |rest| { assert rest[..n] == rest && rest[n..] == []; }
    var k := LineLength(rest);
    assert k < |rest| ==> rest[k] == NEWLINE;
    assert n == BUFSIZE ==> k >= n;
  }

  ghost predicate Suffix(s: seq<byte>, t: seq<byte>) {
    |s| <= |t| && s == t[|t| - |s|..]
  }

  lemma AfterSuffix(s: seq<byte>, t: seq<byte>, n: nat, newline: bool)
    requires Suffix(s, t) && n + (if newline then 1 else 0) <= |s|
    ensures Suffix(After(s, n, newline), t)
    ensures |After(s, n, newline)| == |s| - n - (if newline then 1 else 0)
  {
  }

  lemma SuffixOfSuffix(s: seq<byte>, f: seq<byte>, p: nat)
    requires p <= |f| && Suffix(s, f[p..])
    ensures |s| <= |f| - p && s == f[|f| - |s|..]
  {
  }

  /** What the scan relies on when it starts: the file's bytes, with no newline after them. */
  ghost predicate Loaded(data: seq<byte>, filled: nat, cnt: nat, rest: seq<byte>) {
    && Scanning(data, 0, filled, rest)
    && (cnt == 0 ==> filled == |rest| < BUFSIZE && NewlineFree(rest))
    && (cnt > 0 ==> 0 < filled && (filled == BUFSIZE || filled == |rest|))
  }

  lemma LoadedMeans(data: seq<byte>, filled: nat, cnt: nat, rest: seq<byte>)
    requires Loaded(data, filled, cnt, rest)
    ensures Scanning(data, 0, filled, rest) && Suffix(rest, rest)
    ensures cnt == 0 ==> filled == |rest| < BUFSIZE && NewlineFree(rest)
    ensures cnt > 0 ==> 0 < filled && (filled == BUFSIZE || filled == |rest|)
  {
  }

  /** Searches the line under the scan and leaves the scan behind it. */
  method SearchOne(data: array<byte>, start: nat, end: nat, last: nat, s: seq<byte>, name: seq<byte>,
                   ghost good: bool, ghost left: seq<byte>, ghost rest: seq<byte>)
    returns (text: seq<byte>, ghost out: seq<seq<byte>>, ghost after: seq<byte>)
    requires LineSpan(data[..], start, end, last) && last <= BUFSIZE && NulFree(s)
    requires good ==> Scanning(data[..], start, last, left) && Suffix(left, rest)
    requires good ==> end < last || last - start == BUFSIZE || (last - start == |left| < BUFSIZE)
    modifies data
    ensures text == Printed(name, out)
    ensures forall i :: 0 <= i < data.Length ==> data[i] == if i == end then NUL else old(data[i])
    ensures good ==>
      && Matching(Pieces(left), s) == out + Matching(Pieces(after), s)
      && |after| == |left| - (end - start) - (if end < last then 1 else 0)
      && Suffix(after, rest) && NulFree(after)
      && (end < last ==> Scanning(data[..], end + 1, last, after))
  {
    hide Hit, Matching, Pieces, NulFree, Holds, Printed, Suffix, After;
    after := left;
    if good {
      SearchStep(data[..], start, end, last, left, s);
      AfterSuffix(left, rest, end - start, end < last);
      after := After(left, end - start, end < last);
    }
    text, out := SearchPiece(data, start, end, s, name);
  }

  /** One pass over the bytes in the buffer. `rest` is the file from the first of them. */
  method ScanBuffer(data: array<byte>, filled: nat, cnt: nat, s: seq<byte>, name: seq<byte>, ghost rest: seq<byte>)
    returns (last: nat, text: seq<byte>, ghost out: seq<seq<byte>>, ghost left: seq<byte>)
    requires data.Length == BUFSIZE + 1 && filled <= BUFSIZE && NulFree(s)
    modifies data
    ensures last < BUFSIZE && text == Printed(name, out)
    ensures Loaded(old(data[..]), filled, cnt, rest) ==>
      && Matching(Pieces(rest), s) == out + Matching(Pieces(left), s)
      && Holds(data[..], last, left) && NewlineFree(left[..last])
      && |left| - last == |rest| - filled && Suffix(left, rest) && NulFree(left)
      && (old(data[BUFSIZE]) != NEWLINE ==> data[BUFSIZE] != NEWLINE)
      && (cnt == 0 ==> left == [])
  {
    hide Hit, Matching, Pieces, NulFree, Holds, Printed, Suffix, Loaded;
    last, text, out, left := filled, [], [], rest;
    PrintedNone(name);
    var start := 0;
    ghost var good := Loaded(data[..], filled, cnt, rest);
    if good { LoadedMeans(data[..], filled, cnt, rest); }
    while true
      invariant start <= last == filled && (start < last || start == 0) && text == Printed(name, out)
      invariant good ==> Scanning(data[..], start, last, left)
      invariant good ==> Matching(Pieces(rest), s) == out + Matching(Pieces(left), s)
      invariant good ==> |left| - (last - start) == |rest| - filled && Suffix(left, rest)
      invariant good && (cnt == 0 || start == 0) ==> start == 0 && left == rest
      invariant good && old(data[BUFSIZE]) != NEWLINE ==> data[BUFSIZE] != NEWLINE
      decreases last - start
    {
      var end := LineEnd(data, start, last);
      if data[end] != NEWLINE && cnt != 0 && start != 0 {
        Carry(data, start, end, left);
        last := last - start;
        break;
      }
      if good && cnt == 0 { NoneInside(data[..], end, last, rest); }
      var moreText;
      ghost var more, after;
      moreText, more, after := SearchOne(data, start, end, last, s, name, good, left, rest);
      PrintedSplit(name, out, more);
      assert out + (more + Matching(Pieces(after), s)) == out + more + Matching(Pieces(after), s);
      text, out, left := text + moreText, out + more, after;
      start := end + 1;
      if start >= last {
        last := 0;
        assert good ==> Holds(data[..], 0, left) by { HoldsNothing(data[..], left); }
        break;
      }
    }
  }

  lemma HoldsNothing(data: seq<byte>, rest: seq<byte>)
    ensures Holds(data, 0, rest)
  {
  }

  /** A carried line that the end of the file leaves without a newline. */
  lemma NoneInside(data: seq<byte>, end: nat, last: nat, rest: seq<byte>)
    requires Scanning(data, 0, last, rest) && LineSpan(data, 0, end, last) && last == |rest| && NewlineFree(rest)
    ensures end == last
  {
    SameBytes(data, 0, last, rest);
    assert forall i :: 0 <= i < |rest| ==> data[i] == rest[i] != NEWLINE;
  }

  /** Terminates the line, searches it and prints it if it matches. */
  method SearchPiece(data: array<byte>, start: nat, end: nat, s: seq<byte>, name: seq<byte>)
    returns (text: seq<byte>, ghost out: seq<seq<byte>>)
    requires start <= end < data.Length && NulFree(s)
    modifies data
    ensures forall i :: 0 <= i < data.Length ==> data[i] == if i == end then NUL else old(data[i])
    ensures end + 1 <= data.Length && data[end + 1..] == old(data[end + 1..])
    ensures var line := old(data[start..end]);
      NulFree(line) ==> out == if Hit(line, s) then [line] else []
    ensures text == Printed(name, out)
  {
    hide Hit;
    ghost var line := data[start..end];
    data[end] := NUL;
    assert data[start..end] == line;
    var hit := SearchLine(data, start, end, s);
    text, out := [], [];
    if hit {
      var shown := CString(data[..], start);
      text, out := name + [COLON] + shown + [NEWLINE], [shown];
      PrintedOne(name, shown);
    }
    if NulFree(line) {
      assert data[..][start..end] == line;
      CStringIs(data[..], start, end);
    }
  }

  /** Moves the unfinished last line to the front of the buffer. */
  method Carry(data: array<byte>, start: nat, end: nat, ghost rest: seq<byte>)
    requires 0 < start <= end < data.Length
    modifies data
    ensures Scanning(old(data[..]), start, end, rest) && LineSpan(old(data[..]), start, end, end) ==>
      && Holds(data[..], end - start, rest) && NewlineFree(rest[..end - start])
      && (old(data[data.Length - 1]) != NEWLINE ==> data[data.Length - 1] != NEWLINE)
  {
    ghost var pre := data[..];
    data[end] := NUL;
    StrcpyDown(data, start, end);
    if Scanning(pre, start, end, rest) && LineSpan(pre, start, end, end) {
      SameBytes(pre, start, end, rest);
      assert pre[start..end] == rest[..end - start];
    }
  }

  /** One read and the scan of what it brought. */
  method ReadAndScan(files: OpenFiles, fd: nat, data: array<byte>, last: nat, s: seq<byte>, name: seq<byte>,
                     ghost good: bool, ghost f: seq<byte>, ghost rest: seq<byte>)
    returns (cnt: int, last': nat, text: seq<byte>, ghost out: seq<seq<byte>>, ghost rest': seq<byte>)
    requires files.Valid() && fd < DESCRIPTORS && data.Length == BUFSIZE + 1 && last < BUFSIZE && NulFree(s)
    requires f == File(files.disk, files.inodeOf[fd])
    requires good ==> Carried(data[..], last, f, files.fpos[fd], rest) && data[BUFSIZE] != NEWLINE
    modifies files`fpos, files`fdVal, data
    ensures files.Valid() && cnt == Returned(files.disk, files.inodeOf[fd], old(files.fpos[fd]), BUFSIZE - last)
    ensures cnt >= 0 ==> last' < BUFSIZE && text == Printed(name, out) && files.fpos[fd] == old(files.fpos[fd]) + cnt
    ensures cnt >= 0 && good ==>
      && Matching(Pieces(rest), s) == out + Matching(Pieces(rest'), s)
      && Carried(data[..], last', f, files.fpos[fd], rest') && data[BUFSIZE] != NEWLINE
      && (cnt == 0 ==> rest' == [])
  {
    hide Hit, Matching, Pieces, NulFree, Holds, Filled, Put, NewlineFree, File, Loaded, Printed, Suffix;
    ghost var d, inode, pos, pre := files.disk, files.inodeOf[fd], files.fpos[fd], data[..];
    FileLength(d, inode);
    cnt := files.Read(fd, data, last, BUFSIZE - last);
    last', text, out, rest' := last, [], [], rest;
    if cnt == -1 {
      return;
    }
    if good { Load(pre, last, d, inode, pos, rest); }
    last', text, out, rest' := ScanBuffer(data, last + cnt, cnt, s, name, rest);
    if good {
      SuffixOfSuffix(rest', f, pos - last);
      assert |f| - |rest'| == files.fpos[fd] - last';
    }
  }

  /** `do_one_file` on an opened descriptor. `data` is the function's uninitialised stack buffer. */
  method DoOneFile(files: OpenFiles, fd: nat, data: array<byte>, s: seq<byte>, name: seq<byte>)
    returns (r: int, text: seq<byte>)
    requires files.Valid() && fd < DESCRIPTORS && files.fpos[fd] == 0
    requires data.Length == BUFSIZE + 1 && NulFree(s)
    modifies files`fpos, files`fdVal, data
    ensures var f := File(files.disk, files.inodeOf[fd]);
      if f == [] || Readable(files.disk, files.inodeOf[fd]) then
        r == 0 && (NulFree(f) && old(data[BUFSIZE]) != NEWLINE ==> text == Printed(name, Matching(Pieces(f), s)))
      else r == -1 && text == []
  {
    hide Hit, Matching, Pieces, NulFree, NewlineFree, File, Carried, Printed;
    ghost var inode, d := files.inodeOf[fd], files.disk;
    ghost var f := File(d, inode);
    FileLength(d, inode);
    ghost var good := NulFree(f) && data[BUFSIZE] != NEWLINE;
    var last: nat := 0;
    ghost var out, rest := [], f;
    r, text := 0, [];
    PrintedNone(name);
    if good { NothingCarried(data[..], f); }
    assert [] + Matching(Pieces(f), s) == Matching(Pieces(f), s);
    while true
      invariant files.Valid() && last < BUFSIZE && files.fpos[fd] <= |f|
      invariant files.inodeOf[fd] == inode && text == Printed(name, out)
      invariant files.fpos[fd] > 0 ==> Readable(d, inode)
      invariant f != [] && !Readable(d, inode) ==> text == []
      invariant good ==> Matching(Pieces(f), s) == out + Matching(Pieces(rest), s)
      invariant good ==> Carried(data[..], last, f, files.fpos[fd], rest) && data[BUFSIZE] != NEWLINE
      decreases |f| - files.fpos[fd]
    {
      ghost var more, m;
      var cnt, moreText;
      cnt, last, moreText, more, m := ReadAndScan(files, fd, data, last, s, name, good, f, rest);
      if cnt == -1 {
        return -1, text;
      }
      PrintedSplit(name, out, more);
      assert out + (more + Matching(Pieces(m), s)) == out + more + Matching(Pieces(m), s);
      text, out, rest := text + moreText, out + more, m;
      if cnt == 0 {
        NothingLeft(s);
        assert out + [] == out;
        break;
      }
    }
  }

  lemma NothingCarried(data: seq<byte>, f: seq<byte>)
    requires NulFree(f)
    ensures Carried(data, 0, f, 0, f)
  {
  }

  lemma PrintedNone(name: seq<byte>)
    ensures Printed(name, []) == []
  {
  }

  lemma PrintedOne(name: seq<byte>, line: seq<byte>)
    ensures Printed(name, [line]) == name + [COLON] + line + [NEWLINE]
  {
    assert [line][1..] == [] && Printed(name, []) == [];
  }

  lemma NothingLeft(s: seq<byte>)
    ensures Matching(Pieces([]), s) == []
  {
  }

  lemma FileLength(d: Disk, inode: uint32)
    ensures |File(d, inode)| == d.length(inode)
  {
  }

  /** Between reads: the buffer holds the start of an unfinished line. */
  ghost predicate Carried(data: seq<byte>, last: nat, f: seq<byte>, pos: nat, rest: seq<byte>) {
    && last <= pos <= |f| && rest == f[pos - last..]
    && Holds(data, last, rest) && NewlineFree(rest[..last]) && NulFree(rest)
  }

  /** A read fills the buffer behind the carried bytes and clears what it does not fill. */
  lemma Load(data: seq<byte>, last: nat, d: Disk, inode: uint32, pos: uint32, rest: seq<byte>)
    requires |data| == BUFSIZE + 1 && last < BUFSIZE && data[BUFSIZE] != NEWLINE
    requires Carried(data, last, File(d, inode), pos, rest)
    requires pos < d.length(inode) ==> Readable(d, inode)
    ensures var n := BUFSIZE - last;
      var cnt := Returned(d, inode, pos, n);
      cnt >= 0 && Loaded(Put(data, last, Filled(d, inode, pos, n)), last + cnt, cnt, rest)
  {
    hide Filled, File, Returned, Scanning, Holds, NulFree, NewlineFree, Put, Zeros;
    var f, n := File(d, inode), BUFSIZE - last;
    ReadBrings(d, inode, pos, n);
    var cnt := Returned(d, inode, pos, n);
    var piece := f[pos..pos + cnt];
    SliceOfTail(f, pos - last, last, cnt);
    LoadPiece(data, last, rest, piece);
    assert cnt == 0 ==> rest[..last] == rest;
  }

  /** A read of at most one block where it does not fail. */
  lemma ReadBrings(d: Disk, inode: uint32, pos: uint32, n: uint32)
    requires 0 < n <= BLOCK && pos <= |File(d, inode)| && (pos < d.length(inode) ==> Readable(d, inode))
    ensures var f, cnt := File(d, inode), Returned(d, inode, pos, n);
      && 0 <= cnt <= n && pos + cnt <= |f| && (cnt < n ==> pos + cnt == |f|)
      && Filled(d, inode, pos, n) == f[pos..pos + cnt] + Zeros(n - cnt)
  {
    hide Filled, File;
    FileLength(d, inode);
    var cnt := Returned(d, inode, pos, n);
    SmallReadExact(d, inode, pos, n);
    PieceOfFile(d, inode, pos, cnt);
    if cnt == 0 {
      assert File(d, inode)[pos..pos] + Zeros(n) == Zeros(n);
    }
  }

  lemma SliceOfTail(f: seq<byte>, p: nat, c: nat, n: nat)
    requires p + c + n <= |f|
    ensures f[p..][c..c + n] == f[p + c..p + c + n]
  {
    SliceOfSlice(f, p, |f|, c, n);
    assert f[p..|f|] == f[p..];
  }

  lemma PieceOfFile(d: Disk, inode: uint32, pos: nat, n: nat)
    requires pos + n <= d.length(inode)
    ensures pos + n <= |File(d, inode)| && File(d, inode)[pos..pos + n] == Slice(d, inode, pos, n)
  {
  }

  lemma LoadPiece(data: seq<byte>, last: nat, rest: seq<byte>, piece: seq<byte>)
    requires |data| == BUFSIZE + 1 && last + |piece| <= BUFSIZE && data[BUFSIZE] != NEWLINE
    requires Holds(data, last, rest) && last + |piece| <= |rest| && rest[last..last + |piece|] == piece && NulFree(rest)
    ensures Scanning(Put(data, last, piece + Zeros(BUFSIZE - last - |piece|)), 0, last + |piece|, rest)
  {
    var r := Put(data, last, piece + Zeros(BUFSIZE - last - |piece|));
    forall k | 0 <= k < last + |piece| ensures r[k] == rest[k] {
      if k < last {
        assert data[..last][k] == rest[..last][k];
      } else {
        assert rest[last..last + |piece|][k - last] == rest[k];
      }
    }
    assert r[0..][..last + |piece|] == rest[..last + |piece|];
  }
}
