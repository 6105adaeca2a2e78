/** add_frames (fish/fish.c): two text files are read in lockstep, a byte at a time, and every
    cell where either has something visible becomes a blink request. */
module Frames {
  import opened Machine
  import opened Buffers
  import opened FileSystem

  const OFFSET := 40

  datatype Request = Request(location: uint16, onChar: byte, offChar: byte)

  // ------------------------------------------------------------ whole files

  /** The segments between newlines; a file with `k` newlines has `k + 1`. */
  function Split(f: seq<byte>): (ls: seq<seq<byte>>)
    ensures |ls| > 0
    decreases |f|
  {
    var k := LineLength(f);
    [f[..k]] + if k < |f| then Split(f[k + 1..]) else []
  }

  /** The segments hold no newline, and with newlines between them they are the file again. */
  lemma {:induction false} SplitMeans(f: seq<byte>)
    ensures forall i :: 0 <= i < |Split(f)| ==> NewlineFree(Split(f)[i])
    ensures JoinLines(Split(f)) == f
    decreases |f|
  {
    hide LineLength, JoinLines;
    var k := LineLength(f);
    if k < |f| {
      SplitMeans(f[k + 1..]);
      JoinLinesCons(f[..k], Split(f[k + 1..]));
      assert f == f[..k] + [NEWLINE] + f[k + 1..];
    } else {
      JoinLinesCons(f[..k], []);
      assert f[..k] == f && [f] + [] == [f];
    }
  }

  /** Column `c` of a line padded with spaces; row `r` of a file padded with empty lines. */
  function Pad(line: seq<byte>, c: nat): byte {
    if c < |line| then line[c] else SPACE
  }

  function Row(ls: seq<seq<byte>>, r: nat): seq<byte> {
    if r < |ls| then ls[r] else []
  }

  function Max(a: nat, b: nat): nat {
    if a >= b then a else b
  }

  predicate Visible(a: seq<byte>, b: seq<byte>, c: nat) {
    Pad(a, c) != SPACE || Pad(b, c) != SPACE
  }

  function RequestAt(a: seq<byte>, b: seq<byte>, row: nat, c: nat): Request {
    Request((row * 80 + c + OFFSET) % 0x1_0000, Pad(a, c), Pad(b, c))
  }

  /** Requests of the first `n` columns of one row. */
  function RowRequests(a: seq<byte>, b: seq<byte>, row: nat, n: nat): seq<Request> {
    if n == 0 then []
    else RowRequests(a, b, row, n - 1) + if Visible(a, b, n - 1) then [RequestAt(a, b, row, n - 1)] else []
  }

  function Width(a: seq<byte>, b: seq<byte>): nat {
    Max(|a|, |b|)
  }

  /** Requests of the first `n` rows. */
  function Requests(s0: seq<seq<byte>>, s1: seq<seq<byte>>, n: nat): seq<Request> {
    if n == 0 then []
    else
      var a, b := Row(s0, n - 1), Row(s1, n - 1);
      Requests(s0, s1, n - 1) + RowRequests(a, b, n - 1, Width(a, b))
  }

  /** `q` asks for row `r`, column `c` of two pictures: the character of each there, a space where it
      has none; not both are spaces. */
  ghost predicate Cell(s0: seq<seq<byte>>, s1: seq<seq<byte>>, q: Request, r: nat, c: nat) {
    && q.onChar == (if r < |s0| && c < |s0[r]| then s0[r][c] else 32)
    && q.offChar == (if r < |s1| && c < |s1[r]| then s1[r][c] else 32)
    && (q.onChar != 32 || q.offChar != 32)
    && q.location == (r * 80 + c + 40) % 0x1_0000
  }

  lemma CellIff(s0: seq<seq<byte>>, s1: seq<seq<byte>>, q: Request, r: nat, c: nat)
    ensures var a, b := Row(s0, r), Row(s1, r);
      Cell(s0, s1, q, r, c) <==> c < Width(a, b) && Visible(a, b, c) && q == RequestAt(a, b, r, c)
  {
  }

  lemma {:induction false} RowRequestedIff(a: seq<byte>, b: seq<byte>, row: nat, n: nat, q: Request)
    ensures q in RowRequests(a, b, row, n) <==>
            exists c: nat :: c < n && Visible(a, b, c) && q == RequestAt(a, b, row, c)
  {
    if n > 0 {
      RowRequestedIff(a, b, row, n - 1, q);
      assert Visible(a, b, n - 1) && q == RequestAt(a, b, row, n - 1) ==> q in RowRequests(a, b, row, n);
    }
  }

  /** A request is issued exactly for the visible cells of the padded pair of files. */
  lemma {:induction false} RequestedIff(s0: seq<seq<byte>>, s1: seq<seq<byte>>, n: nat, q: Request)
    ensures q in Requests(s0, s1, n) <==> exists r: nat, c: nat :: r < n && Cell(s0, s1, q, r, c)
  {
    hide RowRequests, Cell, Visible, RequestAt, Requests;
    RequestsStep(s0, s1, 0);
    if n > 0 {
      var a, b := Row(s0, n - 1), Row(s1, n - 1);
      RequestedIff(s0, s1, n - 1, q);
      RequestsStep(s0, s1, n - 1);
      RowRequestedIff(a, b, n - 1, Width(a, b), q);
      if q in RowRequests(a, b, n - 1, Width(a, b)) {
        var c: nat :| c < Width(a, b) && Visible(a, b, c) && q == RequestAt(a, b, n - 1, c);
        CellIff(s0, s1, q, n - 1, c);
      }
      if r, c :| 0 <= r < n && 0 <= c && Cell(s0, s1, q, r, c) {
        CellIff(s0, s1, q, r, c);
      }
    }
  }

  /** The visible columns below `n` of one row, and the visible cells of the first `n` rows. */
  function Columns(a: seq<byte>, b: seq<byte>, row: nat, n: nat): seq<(nat, nat)> {
    if n == 0 then []
    else Columns(a, b, row, n - 1) + if Visible(a, b, n - 1) then [(row, n - 1)] else []
  }

  function Places(s0: seq<seq<byte>>, s1: seq<seq<byte>>, n: nat): seq<(nat, nat)> {
    if n == 0 then []
    else
      var a, b := Row(s0, n - 1), Row(s1, n - 1);
      Places(s0, s1, n - 1) + Columns(a, b, n - 1, Width(a, b))
  }

  /** In reading order. */
  predicate Before(p: (nat, nat), q: (nat, nat)) {
    p.0 < q.0 || (p.0 == q.0 && p.1 < q.1)
  }

  ghost predicate InOrder(ps: seq<(nat, nat)>) {
    forall i, j :: 0 <= i < j < |ps| ==> Before(ps[i], ps[j])
  }

  lemma {:induction false} ColumnsInOrder(a: seq<byte>, b: seq<byte>, row: nat, n: nat)
    ensures InOrder(Columns(a, b, row, n))
    ensures forall i :: 0 <= i < |Columns(a, b, row, n)| ==>
      Columns(a, b, row, n)[i].0 == row && Columns(a, b, row, n)[i].1 < n
    decreases n
  {
    hide Visible;
    if n > 0 { ColumnsInOrder(a, b, row, n - 1); }
  }

  lemma {:induction false} PlacesInOrder(s0: seq<seq<byte>>, s1: seq<seq<byte>>, n: nat)
    ensures InOrder(Places(s0, s1, n))
    ensures forall i :: 0 <= i < |Places(s0, s1, n)| ==> Places(s0, s1, n)[i].0 < n
    decreases n
  {
    hide Columns;
    if n > 0 {
      var a, b := Row(s0, n - 1), Row(s1, n - 1);
      PlacesInOrder(s0, s1, n - 1);
      ColumnsInOrder(a, b, n - 1, Width(a, b));
    }
  }

  lemma {:induction false} RowRequestsAt(s0: seq<seq<byte>>, s1: seq<seq<byte>>, row: nat, n: nat)
    requires n <= Width(Row(s0, row), Row(s1, row))
    ensures var a, b := Row(s0, row), Row(s1, row);
      && |RowRequests(a, b, row, n)| == |Columns(a, b, row, n)|
      && forall i :: 0 <= i < |RowRequests(a, b, row, n)| ==>
           Cell(s0, s1, RowRequests(a, b, row, n)[i], Columns(a, b, row, n)[i].0, Columns(a, b, row, n)[i].1)
    decreases n
  {
    hide Visible, RequestAt, Cell;
    if n > 0 {
      var a, b := Row(s0, row), Row(s1, row);
      RowRequestsAt(s0, s1, row, n - 1);
      CellIff(s0, s1, RequestAt(a, b, row, n - 1), row, n - 1);
    }
  }

  /** Requests come in reading order, one for each cell: request `i` is for place `i`, and the places
      go strictly forward by rows and columns. */
  lemma {:induction false} RequestsInOrder(s0: seq<seq<byte>>, s1: seq<seq<byte>>, n: nat)
    ensures |Requests(s0, s1, n)| == |Places(s0, s1, n)| && InOrder(Places(s0, s1, n))
    ensures forall i :: 0 <= i < |Requests(s0, s1, n)| ==>
      Cell(s0, s1, Requests(s0, s1, n)[i], Places(s0, s1, n)[i].0, Places(s0, s1, n)[i].1)
    decreases n
  {
    hide Cell, InOrder, RowRequests, Columns;
    PlacesInOrder(s0, s1, n);
    if n > 0 {
      RequestsInOrder(s0, s1, n - 1);
      RowRequestsAt(s0, s1, n - 1, Width(Row(s0, n - 1), Row(s1, n - 1)));
    }
  }

  // ------------------------------------------------------------ one file, byte by byte

  /** The segment that starts at `base`. */
  ghost predicate SegmentAt(f: seq<byte>, base: nat, line: seq<byte>) {
    && base + |line| <= |f| && f[base..base + |line|] == line
    && (forall i :: 0 <= i < |line| ==> line[i] != NEWLINE)
    && (base + |line| < |f| ==> f[base + |line|] == NEWLINE)
  }

  /** Where a file stands before column `col` of a row is read: `done` if it had ended before
      the row, else in the segment at `base`. */
  ghost predicate Reading(f: seq<byte>, done: bool, base: nat, line: seq<byte>, col: nat, p: nat, c: byte, eof: bool) {
    if done then line == [] && c == NEWLINE && eof
    else
      && SegmentAt(f, base, line)
      && (c != NEWLINE ==> p == base + col && col <= |line| && !eof)
      && (c == NEWLINE ==> col >= |line| && (eof <==> base + |line| == |f|) && (!eof ==> p == base + |line| + 1))
  }

  /** One side of the inner loop: the character held, whether the end was seen, the position. */
  datatype Cursor = Cursor(c: byte, eof: bool, pos: uint32)

  /** What the guarded one-byte read does to a side, on any file. */
  ghost function OnePass(d: Disk, inode: uint32, s: Cursor): Cursor {
    if s.c == NEWLINE then s
    else if Returned(d, inode, s.pos, 1) == 0 then Cursor(NEWLINE, true, s.pos)
    else Cursor(Filled(d, inode, s.pos, 1)[0], s.eof, Advanced(d, inode, s.pos, 1))
  }

  ghost function Passes(d: Disk, inode: uint32, s: Cursor, n: nat): Cursor
    decreases n
  {
    if n == 0 then s else Passes(d, inode, OnePass(d, inode, s), n - 1)
  }

  /** The bytes of an open file can be had: `read_data` accepts its inode, or there are none. */
  predicate Servable(d: Disk, inode: uint32) {
    Readable(d, inode) || d.length(inode) == 0
  }

  /** A pass on a file that can be served takes its next byte, or notes its end. */
  lemma PassServes(d: Disk, inode: uint32, s: Cursor)
    requires Servable(d, inode) && s.pos <= d.length(inode) && s.c != NEWLINE
    ensures var f := File(d, inode);
      OnePass(d, inode, s) ==
      if s.pos < |f| then Cursor(f[s.pos], s.eof, s.pos + 1) else Cursor(NEWLINE, true, s.pos)
  {
    hide Copied, Slice;
    SmallReadExact(d, inode, s.pos, 1);
  }

  /** On a file that `read_data` refuses it takes a NUL and stays where it is. */
  lemma PassRefused(d: Disk, inode: uint32, s: Cursor)
    requires !Readable(d, inode) && s.pos < d.length(inode) && s.c != NEWLINE
    ensures OnePass(d, inode, s) == Cursor(0, s.eof, s.pos)
  {
    hide Copied;
  }

  /** The inner loop gets its newline exactly from the files that can be served, and at the end of
      any: on a file that `read_data` refuses each pass leaves a NUL and the same position. */
  lemma RowEndsIff(d: Disk, inode: uint32, s: Cursor)
    requires s.c != NEWLINE
    ensures (exists n :: Passes(d, inode, s, n).c == NEWLINE)
      <==> Readable(d, inode) || s.pos >= d.length(inode)
  {
    hide OnePass;
    if Readable(d, inode) || s.pos >= d.length(inode) {
      var n := RowEnds(d, inode, s);
    } else {
      forall n: nat ensures Passes(d, inode, s, n).c != NEWLINE {
        RefusedFor(d, inode, s, n);
      }
    }
  }

  lemma {:induction false} RefusedFor(d: Disk, inode: uint32, s: Cursor, n: nat)
    requires s.c != NEWLINE && !Readable(d, inode) && s.pos < d.length(inode)
    ensures Passes(d, inode, s, n).c != NEWLINE
    decreases n
  {
    if n > 0 { RefusedFor(d, inode, OnePass(d, inode, s), n - 1); }
  }

  lemma {:induction false} RowEnds(d: Disk, inode: uint32, s: Cursor) returns (n: nat)
    requires s.c != NEWLINE && (Readable(d, inode) || s.pos >= d.length(inode))
    ensures Passes(d, inode, s, n).c == NEWLINE
    decreases d.length(inode) - s.pos
  {
    var s' := OnePass(d, inode, s);
    assert Passes(d, inode, s', 0) == s';
    if s'.c == NEWLINE {
      n := 1;
      assert Passes(d, inode, s, 1) == Passes(d, inode, s', 0);
    } else {
      n := RowEnds(d, inode, s');
      n := n + 1;
    }
  }

  /** `if (c != '\n') ...`: `cell` is the address of `c`. */
  method NextByte(files: OpenFiles, fd: nat, cell: array<byte>, c: byte, eof: bool)
    returns (c': byte, eof': bool, fault: bool)
    requires files.Valid() && fd < DESCRIPTORS && cell.Length == 1
    modifies files`fpos, files`fdVal, cell
    ensures files.Valid()
    ensures fault <==> c != NEWLINE && files.inUse[fd] && !files.hasOps[fd]
    ensures forall k :: 0 <= k < DESCRIPTORS && k != fd ==> files.fpos[k] == old(files.fpos[k])
    ensures !fault && (c == NEWLINE || files.inUse[fd]) ==>
      Cursor(c', eof', files.fpos[fd]) == OnePass(files.disk, files.inodeOf[fd], Cursor(c, eof, old(files.fpos[fd])))
    ensures !files.inUse[fd] ==> c' == c && eof' == eof && files.fpos[fd] == old(files.fpos[fd])
  {
    c', eof', fault := c, eof, false;
    if c != NEWLINE {
      cell[0] := c;
      var r;
      r, fault := files.SysRead(fd, cell, 0, 1);
      c' := cell[..][0];
      if r == 0 {
        c', eof' := NEWLINE, true;
      }
    }
  }

  /** A pass moves a side one column on. */
  lemma ReadingStep(d: Disk, inode: uint32, done: bool, base: nat, line: seq<byte>, col: nat, s: Cursor)
    requires Servable(d, inode) && s.pos <= d.length(inode)
    requires Reading(File(d, inode), done, base, line, col, s.pos, s.c, s.eof)
    ensures var s' := OnePass(d, inode, s);
      && s'.pos <= d.length(inode) && Reading(File(d, inode), done, base, line, col + 1, s'.pos, s'.c, s'.eof)
      && (s'.c == NEWLINE <==> col >= |line|) && (s'.c != NEWLINE ==> s'.c == line[col])
  {
    hide File;
    var f := File(d, inode);
    assert |f| == d.length(inode) by { FileLength(d, inode); }
    if s.c != NEWLINE {
      PassServes(d, inode, s);
      assert col < |line| ==> f[base..base + |line|][col] == f[s.pos];
    }
  }

  lemma FileLength(d: Disk, inode: uint32)
    ensures |File(d, inode)| == d.length(inode)
  {
  }

  /** The files between rows. */
  ghost predicate AtRow(f: seq<byte>, ls: seq<seq<byte>>, row: nat, p: nat, eof: bool) {
    p <= |f| && if eof then row >= |ls| else row < |ls| && ls[row..] == Split(f[p..])
  }

  lemma SplitSegment(f: seq<byte>, ls: seq<seq<byte>>, row: nat, p: nat)
    requires AtRow(f, ls, row, p, false)
    ensures var line := ls[row];
      && SegmentAt(f, p, line)
      && (if p + |line| == |f| then row + 1 == |ls|
          else row + 1 < |ls| && ls[row + 1..] == Split(f[p + |line| + 1..]))
  {
    hide Split, SegmentAt;
    var rest := f[p..];
    var k := LineLength(rest);
    SplitFront(rest);
    SegmentOfTail(f, p);
    assert ls[row] == ls[row..][0];
    assert ls[row + 1..] == ls[row..][1..];
    assert k < |rest| ==> rest[k + 1..] == f[p + k + 1..];
  }

  lemma SplitFront(f: seq<byte>)
    ensures var k := LineLength(f);
      && Split(f)[0] == f[..k]
      && if k < |f| then |Split(f)| > 1 && Split(f)[1..] == Split(f[k + 1..]) else |Split(f)| == 1
  {
    hide LineLength;
  }

  lemma SegmentOfTail(f: seq<byte>, p: nat)
    requires p <= |f|
    ensures SegmentAt(f, p, f[p..][..LineLength(f[p..])])
  {
    hide LineLength;
    var rest, k := f[p..], LineLength(f[p..]);
    assert forall i :: 0 <= i < |rest| ==> rest[i] == f[p + i];
    assert f[p..p + k] == rest[..k];
    assert k < |rest| ==> rest[k] == f[p + k];
  }

  lemma AtStart(f: seq<byte>)
    ensures AtRow(f, Split(f), 0, 0, false)
  {
    assert f[0..] == f;
  }

  lemma RowBound(f: seq<byte>, ls: seq<seq<byte>>, row: nat, p: nat, eof: bool)
    requires AtRow(f, ls, row, p, eof)
    ensures p <= |f| && (eof <==> row >= |ls|) && (eof ==> AtRow(f, ls, row, 0, eof))
  {
  }

  lemma StartsReading(f: seq<byte>, ls: seq<seq<byte>>, row: nat, p: nat, eof: bool, c: byte)
    requires AtRow(f, ls, row, p, eof) && c == (if eof then NEWLINE else 48)
    ensures p <= |f| && Reading(f, eof, p, Row(ls, row), 0, p, c, eof)
  {
    hide Split;
    if !eof { SplitSegment(f, ls, row, p); }
  }

  lemma EndsReading(f: seq<byte>, ls: seq<seq<byte>>, row: nat, q: nat, done: bool, col: nat, p: nat, eof: bool)
    requires AtRow(f, ls, row, q, done) && p <= |f|
    requires Reading(f, done, q, Row(ls, row), col, p, NEWLINE, eof)
    ensures AtRow(f, ls, row + 1, p, eof)
  {
    hide Split;
    if !done { SplitSegment(f, ls, row, q); }
  }

  lemma RequestsStep(s0: seq<seq<byte>>, s1: seq<seq<byte>>, n: nat)
    ensures Requests(s0, s1, 0) == []
    ensures var a, b := Row(s0, n), Row(s1, n);
      Requests(s0, s1, n + 1) == Requests(s0, s1, n) + RowRequests(a, b, n, Width(a, b))
  {
  }

  lemma RowRequestsStep(a: seq<byte>, b: seq<byte>, row: nat, n: nat)
    ensures RowRequests(a, b, row, 0) == []
    ensures RowRequests(a, b, row, n + 1)
            == RowRequests(a, b, row, n) + if Visible(a, b, n) then [RequestAt(a, b, row, n)] else []
  {
  }

  // ------------------------------------------------------------ both files

  /** Descriptor `fd` is open on the file `f`, whose bytes can be had. */
  ghost predicate Serves(files: OpenFiles, fd: nat, f: seq<byte>)
    requires files.Valid() && fd < DESCRIPTORS
    reads files
  {
    var d, inode := files.disk, files.inodeOf[fd];
    files.inUse[fd] && Servable(d, inode) && f == File(d, inode) && files.fpos[fd] <= |f|
  }

  /** One side's part of a pass. */
  method SideStep(files: OpenFiles, fd: nat, cell: array<byte>, c: byte, eof: bool,
                  ghost f: seq<byte>, ghost done: bool, ghost base: nat, ghost line: seq<byte>, ghost col: nat)
    returns (c': byte, eof': bool, fault: bool)
    requires files.Valid() && fd < DESCRIPTORS && cell.Length == 1 && (!done ==> Serves(files, fd, f))
    requires files.fpos[fd] <= |f| && Reading(f, done, base, line, col, files.fpos[fd], c, eof)
    modifies files`fpos, files`fdVal, cell
    ensures files.Valid() && (fault <==> c != NEWLINE && !files.hasOps[fd])
    ensures forall k :: 0 <= k < DESCRIPTORS && k != fd ==> files.fpos[k] == old(files.fpos[k])
    ensures !fault ==>
      && files.fpos[fd] <= |f| && (!done ==> Serves(files, fd, f))
      && Reading(f, done, base, line, col + 1, files.fpos[fd], c', eof')
      && (c' == NEWLINE <==> col >= |line|) && (c' != NEWLINE ==> c' == line[col])
  {
    hide OnePass, Reading, File;
    ghost var d, inode, s := files.disk, files.inodeOf[fd], Cursor(c, eof, files.fpos[fd]);
    DoneIsNewline(f, done, base, line, col, s);
    c', eof', fault := NextByte(files, fd, cell, c, eof);
    if !done {
      FileLength(d, inode);
      ReadingStep(d, inode, done, base, line, col, s);
    } else {
      NewlineStays(d, inode, s);
    }
  }

  lemma DoneIsNewline(f: seq<byte>, done: bool, base: nat, line: seq<byte>, col: nat, s: Cursor)
    requires Reading(f, done, base, line, col, s.pos, s.c, s.eof)
    ensures done ==> s.c == NEWLINE && line == [] && Reading(f, done, base, line, col + 1, s.pos, s.c, s.eof)
  {
  }

  lemma NewlineStays(d: Disk, inode: uint32, s: Cursor)
    requires s.c == NEWLINE
    ensures OnePass(d, inode, s) == s
  {
  }

  /** The two descriptors as the loops find them before a row: `e0` and `e1` say which ended. */
  ghost predicate Ready(files: OpenFiles, fd0: nat, fd1: nat, f0: seq<byte>, f1: seq<byte>, e0: bool, e1: bool)
    requires files.Valid() && fd0 < DESCRIPTORS && fd1 < DESCRIPTORS
    reads files
  {
    (!e0 ==> Serves(files, fd0, f0) && files.hasOps[fd0]) && (!e1 ==> Serves(files, fd1, f1))
  }

  /** One pass of the outer loop up to the closes: a row of both files. */
  method AddRow(files: OpenFiles, fd0: nat, fd1: nat, cell: array<byte>, row: nat,
                d0: byte, e0: bool, d1: byte, e1: bool,
                ghost f0: seq<byte>, ghost f1: seq<byte>, ghost s0: seq<seq<byte>>, ghost s1: seq<seq<byte>>)
    returns (reqs: seq<Request>, c0: byte, eof0: bool, c1: byte, eof1: bool, fault: bool)
    requires files.Valid() && fd0 < DESCRIPTORS && fd1 < DESCRIPTORS && fd0 != fd1 && cell.Length == 1
    requires Ready(files, fd0, fd1, f0, f1, e0, e1)
    requires AtRow(f0, s0, row, files.fpos[fd0], e0) && AtRow(f1, s1, row, files.fpos[fd1], e1)
    requires d0 == (if e0 then NEWLINE else 48) && d1 == (if e1 then NEWLINE else 48)
    modifies files`fpos, files`fdVal, cell
    ensures files.Valid() && (fault <==> !e1 && !files.hasOps[fd1])
    ensures fault ==> reqs == []
    ensures !fault ==>
      && Ready(files, fd0, fd1, f0, f1, e0, e1)
      && AtRow(f0, s0, row + 1, files.fpos[fd0], eof0) && AtRow(f1, s1, row + 1, files.fpos[fd1], eof1)
      && var a, b := Row(s0, row), Row(s1, row);
         reqs == RowRequests(a, b, row, Width(a, b))
  {
    hide AtRow, Split, Reading, RowRequests, File, Servable, Visible, RequestAt;
    c0, eof0, c1, eof1, fault := d0, e0, d1, e1, false;
    reqs := [];
    ghost var a, b, q0, q1 := Row(s0, row), Row(s1, row), files.fpos[fd0], files.fpos[fd1];
    StartsReading(f0, s0, row, q0, e0, d0);
    StartsReading(f1, s1, row, q1, e1, d1);
    RowRequestsStep(a, b, row, 0);
    var col: nat := 0;
    while true
      invariant files.Valid() && Ready(files, fd0, fd1, f0, f1, e0, e1) && !fault
      invariant files.fpos[fd0] <= |f0| && Reading(f0, e0, q0, a, col, files.fpos[fd0], c0, eof0)
      invariant files.fpos[fd1] <= |f1| && Reading(f1, e1, q1, b, col, files.fpos[fd1], c1, eof1)
      invariant col == 0 ==> c1 == d1
      invariant col > 0 ==> e1 || files.hasOps[fd1]
      invariant col <= Width(a, b) && reqs == RowRequests(a, b, row, col)
      decreases Width(a, b) - col
    {
      DoneIsNewline(f0, e0, q0, a, col, Cursor(c0, eof0, files.fpos[fd0]));
      DoneIsNewline(f1, e1, q1, b, col, Cursor(c1, eof1, files.fpos[fd1]));
      c0, eof0, fault := SideStep(files, fd0, cell, c0, eof0, f0, e0, q0, a, col);
      c1, eof1, fault := SideStep(files, fd1, cell, c1, eof1, f1, e1, q1, b, col);
      if fault {
        return;
      }
      if c0 == NEWLINE && c1 == NEWLINE {
        EndsReading(f0, s0, row, q0, e0, col + 1, files.fpos[fd0], eof0);
        EndsReading(f1, s1, row, q1, e1, col + 1, files.fpos[fd1], eof1);
        break;
      }
      RowRequestsStep(a, b, row, col);
      CellRequest(a, b, row, col, c0, c1);
      if (c0 != SPACE && c0 != NEWLINE) || (c1 != SPACE && c1 != NEWLINE) {
        var on := if c0 == NEWLINE then SPACE else c0;
        var off := if c1 == NEWLINE then SPACE else c1;
        reqs := reqs + [Request((row * 80 + col + OFFSET) % 0x1_0000, on, off)];
      }
      col := col + 1;
    }
  }

  /** The characters held in column `col`, as the padded lines have them. */
  lemma CellRequest(a: seq<byte>, b: seq<byte>, row: nat, col: nat, c0: byte, c1: byte)
    requires (c0 == NEWLINE <==> col >= |a|) && (c0 != NEWLINE ==> c0 == a[col])
    requires (c1 == NEWLINE <==> col >= |b|) && (c1 != NEWLINE ==> c1 == b[col])
    ensures Visible(a, b, col) <==> (c0 != SPACE && c0 != NEWLINE) || (c1 != SPACE && c1 != NEWLINE)
    ensures RequestAt(a, b, row, col) ==
      Request((row * 80 + col + OFFSET) % 0x1_0000, if c0 == NEWLINE then SPACE else c0, if c1 == NEWLINE then SPACE else c1)
  {
  }

  /** `add_frames` after its opens, the second file being the one opened last. Closing the first
      file takes the second one's operations, so reading on in a longer second file faults. */
  method AddFrames(files: OpenFiles, fd0: nat, fd1: nat) returns (reqs: seq<Request>, faulted: bool)
    requires files.Valid() && FD_MIN <= fd0 < DESCRIPTORS && FD_MIN <= fd1 < DESCRIPTORS && fd0 != fd1
    requires files.fdIndex == fd1 && files.fpos[fd0] == files.fpos[fd1] == 0
    requires files.inUse[fd0] && files.inUse[fd1] && files.hasOps[fd0] && files.hasOps[fd1]
    requires Servable(files.disk, files.inodeOf[fd0]) && Servable(files.disk, files.inodeOf[fd1])
    modifies files
    ensures var s0 := Split(File(files.disk, old(files.inodeOf[fd0])));
      var s1 := Split(File(files.disk, old(files.inodeOf[fd1])));
      && (faulted <==> |s0| < |s1|)
      && reqs == Requests(s0, s1, |s0|)
  {
    hide AtRow, Split, Requests, RowRequests, File, Servable;
    ghost var f0, f1 := File(files.disk, files.inodeOf[fd0]), File(files.disk, files.inodeOf[fd1]);
    ghost var s0, s1 := Split(f0), Split(f1);
    AtStart(f0);
    AtStart(f1);
    RequestsStep(s0, s1, 0);
    reqs, faulted := [], false;
    var cell := new byte[1];
    var c0: byte, c1: byte, eof0, eof1 := 48, 48, false, false;
    var row: nat := 0;
    while !eof0 || !eof1
      invariant files.Valid() && files.fdIndex == fd1 && Ready(files, fd0, fd1, f0, f1, eof0, eof1)
      invariant !eof1 ==> (files.hasOps[fd1] <==> !eof0)
      invariant AtRow(f0, s0, row, files.fpos[fd0], eof0) && AtRow(f1, s1, row, files.fpos[fd1], eof1)
      invariant c0 == (if eof0 then NEWLINE else 48) && c1 == (if eof1 then NEWLINE else 48)
      invariant row <= Max(|s0|, |s1|) && (|s0| < |s1| ==> row <= |s0|) && reqs == Requests(s0, s1, row)
      decreases Max(|s0|, |s1|) - row
    {
      RowBound(f0, s0, row, files.fpos[fd0], eof0);
      RowBound(f1, s1, row, files.fpos[fd1], eof1);
      RequestsStep(s0, s1, row);
      var more;
      more, c0, eof0, c1, eof1, faulted :=
        AddRow(files, fd0, fd1, cell, row, c0, eof0, c1, eof1, f0, f1, s0, s1);
      if faulted {
        return;
      }
      reqs := reqs + more;
      RowBound(f0, s0, row + 1, files.fpos[fd0], eof0);
      RowBound(f1, s1, row + 1, files.fpos[fd1], eof1);
      c0, c1 := 48, 48;
      if eof0 {
        c0 := NEWLINE;
        var _ := files.Close(fd0);
      }
      if eof1 {
        c1 := NEWLINE;
        var _ := files.Close(fd1);
      }
      row := row + 1;
    }
    RowBound(f0, s0, row, files.fpos[fd0], eof0);
    RowBound(f1, s1, row, files.fpos[fd1], eof1);
  }
}
