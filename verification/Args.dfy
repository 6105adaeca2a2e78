/** The two routes from a command line to a program's argument string: the emulation layer
    (syscalls/ece391emulate.c) and the kernel (student-distrib/systemcalls.c). */
module Args {
  import opened Machine
  import opened Buffers
  import opened ArgsSpec

  // ------------------------------------------------------------ the emulation layer

  const COMMAND_MAX := 1023
  const BUFFER := 1026

  /** The text from `scan` on is still the command's. */
  ghost predicate Unread(data: seq<byte>, scan: nat, end: nat, rest: seq<byte>) {
    scan <= end < |data| && data[end] == NUL && data[scan..end] == rest && NulFree(rest)
  }

  method ScanWord(buf: array<byte>, from: nat, ghost end: nat, ghost rest: seq<byte>) returns (scan: nat)
    requires Unread(buf[..], from, end, rest)
    ensures scan == from + WordLength(rest)
  {
    scan := from;
    while buf[scan] != NUL && buf[scan] != SPACE && buf[scan] != NEWLINE
      invariant from <= scan <= end && forall i :: from <= i < scan ==> !Separates(buf[i])
      decreases end - scan
    {
      scan := scan + 1;
    }
    assert forall i :: 0 <= i < |rest| ==> rest[i] == buf[..][from..end][i] == buf[from + i];
    WordLengthIs(rest, scan - from);
  }

  method ScanSpaces(buf: array<byte>, from: nat, ghost end: nat, ghost rest: seq<byte>) returns (scan: nat)
    requires Unread(buf[..], from, end, rest)
    ensures scan == from + Spaces(rest)
  {
    scan := from;
    while buf[scan] == SPACE
      invariant from <= scan <= end && forall i :: from <= i < scan ==> buf[i] == SPACE
      decreases end - scan
    {
      scan := scan + 1;
    }
    assert forall i :: 0 <= i < |rest| ==> rest[i] == buf[..][from..end][i] == buf[from + i];
    SpacesIs(rest, scan - from);
  }

  /** Argument `w` stands at `q` with its terminator, before or at `scan`. */
  ghost predicate Stands(data: seq<byte>, q: nat, w: seq<byte>, scan: nat) {
    q + |w| <= scan && q + |w| < |data| && data[q..q + |w|] == w && data[q + |w|] == NUL && NulFree(w)
  }

  ghost predicate Recorded(data: seq<byte>, args: seq<nat>, ws: seq<seq<byte>>, scan: nat) {
    |args| == |ws| && forall k :: 0 <= k < |args| ==> Stands(data, args[k], ws[k], scan)
  }

  lemma RecordedNone(data: seq<byte>, scan: nat)
    ensures Recorded(data, [], [], scan)
  {
  }

  lemma RecordedSnoc(data: seq<byte>, args: seq<nat>, ws: seq<seq<byte>>, scan: nat, q: nat, w: seq<byte>)
    requires Recorded(data, args, ws, scan) && Stands(data, q, w, scan)
    ensures Recorded(data, args + [q], ws + [w], scan)
  {
  }

  lemma RecordedLater(data: seq<byte>, args: seq<nat>, ws: seq<seq<byte>>, scan: nat, at: nat, scan': nat)
    requires Recorded(data, args, ws, scan) && scan <= at < |data| && scan <= scan'
    ensures Recorded(data[at := NUL], args, ws, scan') && Recorded(data, args, ws, scan')
  {
    forall k | 0 <= k < |args|
      ensures Stands(data[at := NUL], args[k], ws[k], scan') && Stands(data, args[k], ws[k], scan')
    {
      assert Stands(data, args[k], ws[k], scan);
      assert data[at := NUL][args[k]..args[k] + |ws[k]|] == data[args[k]..args[k] + |ws[k]|];
    }
  }

  /** `ece391_execute` up to the call of `execv`: `args` are offsets into `buf`. */
  method Tokenise(command: seq<byte>) returns (ok: bool, buf: array<byte>, args: seq<nat>)
    requires NulFree(command)
    ensures ok <==> |command| <= COMMAND_MAX
    ensures ok ==> buf.Length == BUFFER && 1 <= |args| < 1024
    ensures ok ==> CString(buf[..], 0) == [46, 47] + command[..WordLength(command)]
    ensures ok ==> (forall k :: 0 <= k < |args| ==> args[k] < BUFFER)
    ensures ok ==> Strings(buf[..], args[1..]) == Arguments(command)
  {
    hide WordLength, Spaces, Tokens, CString;
    buf := new byte[BUFFER];
    args := [0];
    if |command| > COMMAND_MAX {
      return false, buf, args;
    }
    CopyCommand(buf, command);
    ghost var end := 2 + |command|;
    var scan := ScanWord(buf, 2, end, command);
    ghost var word := command[..scan - 2];
    assert buf[..scan] == [46, 47] + word;
    assert NulFree([46, 47] + word);
    if buf[scan] != NUL {
      ghost var rest := command[scan - 1..];
      buf[scan] := NUL;
      assert buf[..scan] == [46, 47] + word;
      assert buf[..][scan + 1..end] == rest;
      var more := ParseArguments(buf, scan + 1, end, rest);
      assert buf[..][0..scan] == buf[..scan];
      TokensAreNonempty(rest);
      args := args + more;
      assert args[1..] == more;
    } else {
      assert args[1..] == [];
    }
    assert buf[..][0..scan] == [46, 47] + word;
    CStringIs(buf[..], 0, scan);
    return true, buf, args;
  }

  method CopyCommand(buf: array<byte>, command: seq<byte>)
    requires buf.Length == BUFFER && |command| <= COMMAND_MAX && NulFree(command)
    modifies buf
    ensures buf[0] == 46 && buf[1] == 47 && Unread(buf[..], 2, 2 + |command|, command)
  {
    buf[0] := 46;
    buf[1] := 47;
    ghost var pre := buf[..];
    CopyIn(buf, 2, command + [NUL]);
    CopiedUnread(pre, command);
    assert buf[..][0] == pre[0] && buf[..][1] == pre[1];
  }

  lemma CopiedUnread(pre: seq<byte>, command: seq<byte>)
    requires |command| + 3 <= |pre| && NulFree(command)
    ensures Unread(Put(pre, 2, command + [NUL]), 2, 2 + |command|, command)
  {
    var data := Put(pre, 2, command + [NUL]);
    forall i | 0 <= i < |command| ensures data[2..2 + |command|][i] == command[i] {
      assert data[2 + i] == (command + [NUL])[i];
    }
    assert data[2 + |command|] == NUL;
  }

  /** The argument loop: words are terminated in place and their offsets collected. */
  method ParseArguments(buf: array<byte>, from: nat, ghost end: nat, ghost text: seq<byte>) returns (args: seq<nat>)
    requires Unread(buf[..], from, end, text)
    modifies buf
    ensures forall i :: 0 <= i < from ==> buf[i] == old(buf[i])
    ensures forall k :: 0 <= k < |args| ==> args[k] < buf.Length
    ensures Strings(buf[..], args) == Tokens(text)
  {
    hide WordLength, Spaces, Tokens, CString, Unread, Stands, Recorded, Strings;
    var scan := from;
    args := [];
    ghost var ws, rest := [], text;
    assert Recorded(buf[..], args, ws, scan) by { RecordedNone(buf[..], scan); }
    FirstUnread(buf[..], from, end, text);
    while true
      invariant from <= buf.Length && from <= scan && Unread(buf[..], scan, end, rest)
      invariant forall i :: 0 <= i < from ==> buf[i] == old(buf[i])
      invariant Recorded(buf[..], args, ws, scan)
      invariant ws + Tokens(rest) == Tokens(text)
      decreases end - scan
    {
      TokenStep(rest);
      ghost var sp := Spaces(rest);
      var start := ScanSpaces(buf, scan, end, rest);
      ghost var u := rest[sp..];
      UnreadFrom(buf[..], scan, end, rest, sp);
      if buf[start] == NUL || buf[start] == NEWLINE {
        RecordedLater(buf[..], args, ws, scan, start, start);
        ghost var pre := buf[..];
        FirstUnread(pre, start, end, u);
        assert pre[start] == buf[start];
        assert u == [] || u[0] == NEWLINE;
        assert Tokens(rest) == [];
        buf[start] := NUL;
        assert buf[..] == pre[start := NUL];
        RecordedStrings(buf[..], args, ws, start);
        assert ws + [] == ws;
        break;
      }
      FirstUnread(buf[..], start, end, u);
      ghost var k := WordLength(u);
      RecordedLater(buf[..], args, ws, scan, start, start);
      scan := ScanWord(buf, start, end, u);
      scan, rest := EndWord(buf, start, scan, end, u, args, ws);
      args, ws := args + [start], ws + [u[..k]];
    }
  }

  /** Terminates the word that has just been scanned. */
  method EndWord(buf: array<byte>, start: nat, scan: nat, ghost end: nat, ghost u: seq<byte>,
                 ghost args: seq<nat>, ghost ws: seq<seq<byte>>)
    returns (next: nat, ghost rest: seq<byte>)
    requires Unread(buf[..], start, end, u) && scan == start + WordLength(u)
    requires Recorded(buf[..], args, ws, start)
    modifies buf
    ensures forall i :: 0 <= i < start ==> i < buf.Length && buf[i] == old(buf[i])
    ensures var k := WordLength(u);
      && rest == (if k < |u| then u[k + 1..] else []) && scan <= next
      && Unread(buf[..], next, end, rest) && Recorded(buf[..], args + [start], ws + [u[..k]], next)
  {
    hide WordLength, Unread, Stands, Recorded;
    ghost var k, pre := WordLength(u), buf[..];
    UnreadFrom(pre, start, end, u, k);
    FirstUnread(pre, start, end, u);
    FirstUnread(pre, scan, end, u[k..]);
    if buf[scan] != NUL {
      buf[scan] := NUL;
      assert buf[..] == pre[scan := NUL];
      RecordedLater(pre, args, ws, start, scan, scan + 1);
      UnreadAfterNul(pre, scan, end, u[k..]);
      assert u[k..][1..] == u[k + 1..];
      next, rest := scan + 1, u[k + 1..];
    } else {
      RecordedLater(pre, args, ws, start, scan, scan);
      next, rest := scan, u[k..];
    }
    NewWord(pre, buf[..], start, end, u, k, next);
    RecordedSnoc(buf[..], args, ws, next, start, u[..k]);
  }

  lemma UnreadFrom(data: seq<byte>, scan: nat, end: nat, rest: seq<byte>, n: nat)
    requires Unread(data, scan, end, rest) && n <= |rest|
    ensures Unread(data, scan + n, end, rest[n..])
  {
    assert data[scan + n..end] == data[scan..end][n..];
  }

  lemma FirstUnread(data: seq<byte>, scan: nat, end: nat, rest: seq<byte>)
    requires Unread(data, scan, end, rest)
    ensures scan <= end < |data| && (rest == [] <==> scan == end) && (rest == [] <==> data[scan] == NUL)
    ensures rest != [] ==> data[scan] == rest[0]
  {
    if scan < end { assert data[scan..end][0] == data[scan] == rest[0]; }
  }

  lemma UnreadAfterNul(data: seq<byte>, scan: nat, end: nat, rest: seq<byte>)
    requires Unread(data, scan, end, rest) && rest != []
    ensures Unread(data[scan := NUL], scan + 1, end, rest[1..])
  {
    assert data[scan := NUL][scan + 1..end] == data[scan..end][1..];
  }

  /** The word just scanned, terminated by the NUL written or found behind it. */
  lemma NewWord(pre: seq<byte>, data: seq<byte>, start: nat, end: nat, u: seq<byte>, k: nat, scan: nat)
    requires Unread(pre, start, end, u) && k <= |u| && start + k <= scan
    requires data == pre[start + k := NUL] || (k == |u| && data == pre)
    ensures Stands(data, start, u[..k], scan)
  {
    assert start + |u| == end;
    assert data[start..start + k] == pre[start..end][..k];
  }

  lemma RecordedStrings(data: seq<byte>, args: seq<nat>, ws: seq<seq<byte>>, scan: nat)
    requires Recorded(data, args, ws, scan)
    ensures (forall k :: 0 <= k < |args| ==> args[k] < |data|) && Strings(data, args) == ws
  {
    forall k | 0 <= k < |args| ensures args[k] < |data| && CString(data, args[k]) == ws[k] {
      assert Stands(data, args[k], ws[k], scan);
      CStringIs(data, args[k], args[k] + |ws[k]|);
    }
  }

  ghost function Strings(data: seq<byte>, args: seq<nat>): (ss: seq<seq<byte>>)
    requires forall k :: 0 <= k < |args| ==> args[k] < |data|
    ensures |ss| == |args|
    ensures forall k :: 0 <= k < |args| ==> ss[k] == CString(data, args[k])
  {
    seq(|args|, k requires 0 <= k < |args| => CString(data, args[k]))
  }

  /** The buffer starts with `done`. */
  ghost predicate Begins(data: seq<byte>, done: seq<byte>) {
    |done| <= |data| && data[..|done|] == done
  }

  /** `strcpy(buf + at, w)`. When the word ends where the array does, its NUL falls outside. */
  method CopyString(buf: array<byte>, at: nat, w: seq<byte>, ghost done: seq<byte>)
    requires at + |w| <= buf.Length && at == |done| && Begins(buf[..], done)
    modifies buf
    ensures Begins(buf[..], done + w)
    ensures forall i :: at + |w| < i < buf.Length ==> buf[i] == old(buf[i])
    ensures at + |w| < buf.Length ==> buf[at + |w|] == NUL
  {
    CopyIn(buf, at, w);
    assert forall i :: 0 <= i < buf.Length ==> buf[i] == buf[..][i];
    if at + |w| < buf.Length {
      buf[at + |w|] := NUL;
    }
    assert buf[..][..at] == old(buf[..])[..at];
    assert buf[..][..at + |w|] == done + w;
  }

  method StoreSpace(buf: array<byte>, at: nat, ghost done: seq<byte>)
    requires at < buf.Length && at == |done| && Begins(buf[..], done)
    modifies buf
    ensures Begins(buf[..], done + [SPACE])
    ensures forall i :: at < i < buf.Length ==> buf[i] == old(buf[i])
  {
    buf[at] := SPACE;
    assert buf[..][..at] == old(buf[..])[..at];
    assert buf[..][..at + 1] == done + [SPACE];
  }

  method Terminate(buf: array<byte>, at: nat, ghost done: seq<byte>)
    requires at < buf.Length && at == |done| && Begins(buf[..], done) && NulFree(done)
    modifies buf
    ensures CString(buf[..], 0) == done
    ensures forall i :: at < i < buf.Length ==> buf[i] == old(buf[i])
  {
    buf[at] := NUL;
    assert buf[..][0..at] == old(buf[..])[..at];
    CStringIs(buf[..], 0, at);
  }

  /** Some nonempty prefix of the arguments joins to exactly `nbytes` bytes. */
  ghost predicate Overruns(argv: seq<seq<byte>>, nbytes: int) {
    exists k :: 1 <= k <= |argv| && |Join(argv[..k])| == nbytes
  }

  /** `ece391_getargs` into a buffer of at least `nbytes` bytes. `spill` says that a NUL was
      stored at `buf + nbytes`, which is outside the buffer when that has no byte to spare. */
  method EmulatedGetArgs(argv: seq<seq<byte>>, buf: array<byte>, nbytes: int) returns (r: int, spill: bool)
    requires nbytes <= buf.Length && forall i :: 0 <= i < |argv| ==> NulFree(argv[i])
    modifies buf
    ensures r == if |Join(argv)| + 1 <= nbytes then 0 else -1
    ensures r == 0 ==> CString(buf[..], 0) == Join(argv)
    ensures spill <==> Overruns(argv, nbytes)
    ensures 0 <= nbytes < buf.Length ==> buf[nbytes] == if spill then NUL else old(buf[nbytes])
    ensures forall i :: 0 <= i < buf.Length && i > nbytes ==> buf[i] == old(buf[i])
  {
    hide Join, CString, Overruns, Begins;
    var idx, at, left := 0, 0, nbytes;
    spill := false;
    ghost var done: seq<byte> := [];
    assert Begins(buf[..], done) by { BeginsNone(buf[..]); }
    assert argv[..0] == [] && Join([]) == [] by { JoinNil(); }
    while idx < |argv|
      invariant 0 <= idx <= |argv| && 0 <= at == |done| && at + left == nbytes && !spill
      invariant idx == 0 ==> at == 0
      invariant 0 < idx ==> idx < |argv| && left >= 0 && done == Join(argv[..idx]) + [SPACE]
      invariant Begins(buf[..], done)
      invariant forall i :: 0 <= i < buf.Length && i >= nbytes ==> buf[i] == old(buf[i])
    {
      JoinStep(argv, idx);
      var len := |argv[idx]|;
      if len > left {
        NoOverrun(argv, nbytes, idx);
        return -1, spill;
      }
      CopyString(buf, at, argv[idx], done);
      done := done + argv[idx];
      at, left, idx, spill := at + len, left - len, idx + 1, len == left;
      assert done == Join(argv[..idx]);
      if idx >= |argv| {
        break;
      }
      if left < 1 {
        Overrun(argv, nbytes, idx);
        return -1, spill;
      }
      StoreSpace(buf, at, done);
      done := done + [SPACE];
      at, left := at + 1, left - 1;
    }
    assert argv[..|argv|] == argv;
    if left == 0 && |argv| > 0 {
      Overrun(argv, nbytes, |argv|);
    } else {
      NoOverrun(argv, nbytes, |argv|);
    }
    if left < 1 {
      return -1, spill;
    }
    JoinNulFree(argv);
    Terminate(buf, at, done);
    return 0, spill;
  }

  lemma BeginsNone(data: seq<byte>)
    ensures Begins(data, [])
  {
  }

  lemma JoinNil()
    ensures Join([]) == []
  {
  }

  lemma JoinStep(argv: seq<seq<byte>>, idx: nat)
    requires idx < |argv|
    ensures Join(argv[..idx + 1]) == (if idx == 0 then argv[0] else Join(argv[..idx]) + [SPACE] + argv[idx])
  {
    assert argv[..idx + 1][..idx] == argv[..idx];
  }

  lemma {:induction false} JoinGrows(argv: seq<seq<byte>>, m: nat, n: nat)
    requires m <= n <= |argv|
    ensures |Join(argv[..m])| <= |Join(argv[..n])|
    ensures 0 < m < n ==> |Join(argv[..m])| < |Join(argv[..n])|
    decreases n - m
  {
    if m < n {
      JoinStep(argv, m);
      JoinGrows(argv, m + 1, n);
    }
  }

  /** A prefix of exactly `nbytes` bytes overruns, and the whole join does not fit. */
  lemma Overrun(argv: seq<seq<byte>>, nbytes: int, k: nat)
    requires 1 <= k <= |argv| && |Join(argv[..k])| == nbytes
    ensures Overruns(argv, nbytes) && |Join(argv)| >= nbytes
  {
    JoinGrows(argv, k, |argv|);
    assert argv[..|argv|] == argv;
  }

  /** No prefix does if the first `k` arguments stay below the limit and one more exceeds it. */
  lemma NoOverrun(argv: seq<seq<byte>>, nbytes: int, k: nat)
    requires k <= |argv| && (k > 0 ==> |Join(argv[..k])| < nbytes)
    requires k < |argv| ==> |Join(argv[..k + 1])| > nbytes
    ensures !Overruns(argv, nbytes)
    ensures k < |argv| ==> |Join(argv)| > nbytes
  {
    hide Join;
    forall j | 1 <= j <= |argv| ensures |Join(argv[..j])| != nbytes {
      if j <= k { JoinGrows(argv, j, k); } else { JoinGrows(argv, k + 1, j); }
    }
    if k < |argv| {
      JoinGrows(argv, k + 1, |argv|);
      assert argv[..|argv|] == argv;
    }
  }

  /** One argument of two bytes and a buffer of two: a NUL lands behind it, then the call fails. */
  lemma OverrunExample()
    ensures Overruns([[97, 98]], 2) && !(|Join([[97, 98]])| + 1 <= 2)
  {
    assert [[97, 98]][..1] == [[97, 98]];
    Overrun([[97, 98]], 2, 1);
  }

  lemma {:induction false} JoinNulFree(ws: seq<seq<byte>>)
    requires forall i :: 0 <= i < |ws| ==> NulFree(ws[i])
    ensures NulFree(Join(ws))
    decreases |ws|
  {
    if |ws| > 1 { JoinNulFree(ws[..|ws| - 1]); }
  }

  /** The emulation layer end to end: the program sees the argument words joined by single
      spaces, and splitting that string again gives the same words. */
  method EmulatedArguments(command: seq<byte>, buf: array<byte>, nbytes: int) returns (r: int, spill: bool)
    requires NulFree(command) && |command| <= COMMAND_MAX && nbytes <= buf.Length
    modifies buf
    ensures r == if |Join(Arguments(command))| + 1 <= nbytes then 0 else -1
    ensures r == 0 ==> CString(buf[..], 0) == Join(Arguments(command))
    ensures r == 0 ==> Tokens(CString(buf[..], 0)) == Arguments(command)
    ensures spill <==> Overruns(Arguments(command), nbytes)
  {
    hide Tokens, Join, CString, WordLength, Overruns;
    var ok, b, args := Tokenise(command);
    var argv: seq<seq<byte>> := [];
    var k := 1;
    while k < |args|
      invariant 1 <= k <= |args| && |argv| == k - 1
      invariant forall i :: 0 <= i < |argv| ==> argv[i] == Strings(b[..], args[1..])[i]
    {
      argv := argv + [CString(b[..], args[k])];
      k := k + 1;
    }
    assert argv == Arguments(command);
    ghost var n := WordLength(command);
    if n < |command| { TokensAreNonempty(command[n + 1..]); }
    assert AllWords(argv);
    TokensOfJoin(argv);
    r, spill := EmulatedGetArgs(argv, buf, nbytes);
  }

  // ------------------------------------------------------------ the kernel

  const FIELD := 40
  const SIZE_AT := 2 * FIELD
  const GETARGS_CLEARS := 1024

  /** From the command field on, a text of at most 255 bytes reaches no further than this. */
  const REACH := FIELD + 0x100

  /** `strlen` is kept in a byte. */
  function Truncated(input: seq<byte>): seq<byte> {
    input[..|input| % 0x100]
  }

  /** The memory from the command field on, holding a command and an argument. */
  function Fields(m: seq<byte>, cmd: seq<byte>, arg: seq<byte>): (r: seq<byte>)
    requires |m| >= REACH && |cmd| < 0x100 && |arg| < 0x100
    ensures |r| == |m|
  {
    Put(Put(Put(m, 0, Zeros(SIZE_AT)), 0, cmd), FIELD, arg)
  }

  /** Neither field's bound is checked, and the size byte behind them is stored last. */
  function Parsed(m: seq<byte>, s: seq<byte>): (r: seq<byte>)
    requires |m| >= REACH && |s| < 0x100
    ensures |r| == |m|
  {
    Fields(m, KernelCommand(s), KernelArgument(s))[SIZE_AT := |KernelArgument(s)|]
  }

  /** The argument as `getargs` finds it: its byte 40, if it has one, is where the size is kept. */
  function Delivered(arg: seq<byte>): (r: seq<byte>)
    requires |arg| < 0x100
    ensures |r| == |arg|
  {
    if |arg| <= FIELD then arg else arg[FIELD := |arg|]
  }

  lemma DeliveredIff(arg: seq<byte>)
    requires |arg| < 0x100
    ensures Delivered(arg) == arg <==> |arg| <= 40 || arg[40] == |arg|
  {
    if |arg| > FIELD { assert Delivered(arg)[FIELD] == |arg|; }
  }

  lemma ParsedArgument(m: seq<byte>, s: seq<byte>)
    requires |m| >= REACH && |s| < 0x100
    ensures var arg := KernelArgument(s);
      Parsed(m, s)[SIZE_AT] == |arg| && Parsed(m, s)[FIELD..FIELD + |arg|] == Delivered(arg)
  {
    hide CommandFrom, ArgumentFrom;
  }

  /** Byte `i` of the memory: the size, the argument, which lies over the command, zeros in the rest
      of the two fields, and what was there before. */
  function StoredByte(cmd: seq<byte>, arg: seq<byte>, before: byte, i: nat): byte
    requires |arg| < 0x100
  {
    if i == 80 then |arg|
    else if 40 <= i < 40 + |arg| then arg[i - 40]
    else if i < |cmd| then cmd[i]
    else if i < 80 then 0
    else before
  }

  lemma ParsedAt(m: seq<byte>, s: seq<byte>, i: nat)
    requires |m| >= REACH && |s| < 0x100 && i < |m|
    ensures var cmd, arg := KernelCommand(s), KernelArgument(s);
      Parsed(m, s)[i] == StoredByte(cmd, arg, m[i], i)
  {
    hide CommandFrom, ArgumentFrom;
  }

  /** When the command field, read as a string, is the command: it stays inside the field, or the
      argument field that it runs into ends inside it and agrees with it byte by byte. A command
      that reaches the size byte must hold that size there, and one that goes on must find a NUL. */
  ghost predicate CommandKept(m: seq<byte>, cmd: seq<byte>, arg: seq<byte>)
    requires |m| > |cmd|
  {
    || |cmd| < 40
    || (&& 40 + |arg| <= |cmd|
        && (forall i :: 0 <= i < |arg| && i != 40 ==> cmd[40 + i] == arg[i])
        && (|cmd| == 80 ==> arg == [])
        && (|cmd| > 80 ==> cmd[80] == |arg| && m[|cmd|] == 0))
  }

  /** What `loader` finds in the command field is the parsed command exactly under that condition. */
  lemma CommandStoredIff(m: seq<byte>, s: seq<byte>)
    requires |m| >= REACH && |s| < 0x100 && NulFree(s)
    ensures CString(Parsed(m, s), 0) == KernelCommand(s)
      <==> CommandKept(m, KernelCommand(s), KernelArgument(s))
  {
    hide CommandFrom, ArgumentFrom, CString, Parsed;
    var data, cmd, arg := Parsed(m, s), KernelCommand(s), KernelArgument(s);
    CommandNulFree(s, StartOf(s), false);
    ArgumentNulFree(s, StartOf(s), false);
    StringIff(data, cmd);
    ParsedAt(m, s, |cmd|);
    if CommandKept(m, cmd, arg) {
      forall i | 0 <= i < |cmd| ensures data[i] == cmd[i] {
        ParsedAt(m, s, i);
        assert 40 <= i < 40 + |arg| && i != 80 ==> cmd[40 + (i - 40)] == arg[i - 40];
      }
    } else if forall i :: 0 <= i < |cmd| ==> data[i] == cmd[i] {
      ParsedAt(m, s, 80);
      forall i | 0 <= i < |arg| && i != 40 && 40 + i < |cmd| ensures cmd[40 + i] == arg[i] {
        ParsedAt(m, s, 40 + i);
        assert data[40 + i] == cmd[40 + i];
      }
      assert |cmd| < 40 + |arg| && |cmd| != 80 ==> data[|cmd|] == arg[|cmd| - 40];
    }
  }

  lemma StringIff(data: seq<byte>, cmd: seq<byte>)
    requires |cmd| < |data| && NulFree(cmd)
    ensures CString(data, 0) == cmd <==> (forall i :: 0 <= i < |cmd| ==> data[i] == cmd[i]) && data[|cmd|] == NUL
  {
    hide CString;
    CStringMeans(data, 0);
    if (forall i :: 0 <= i < |cmd| ==> data[i] == cmd[i]) && data[|cmd|] == NUL {
      assert data[0..|cmd|] == cmd;
      CStringIs(data, 0, |cmd|);
    }
  }

  lemma {:induction false} CommandNulFree(s: seq<byte>, i: nat, inArg: bool)
    requires i <= |s| && NulFree(s)
    ensures NulFree(CommandFrom(s, i, inArg))
    decreases |s| - i
  {
    if i < |s| { CommandNulFree(s, i + 1, inArg || (i + 1 < |s| && s[i + 1] == SPACE)); }
  }

  /** A caller's memory after a successful `getargs`, which clears 1024 bytes whatever the count. */
  function Fetched(before: seq<byte>, arg: seq<byte>): (r: seq<byte>)
    requires |before| >= GETARGS_CLEARS && |arg| < 0x100
    ensures |r| == |before|
  {
    Put(Put(before, 0, Zeros(GETARGS_CLEARS)), 0, arg)
  }

  /** The bytes behind a buffer of `nbytes` bytes are kept exactly when those that are cleared
      were zero. */
  lemma FetchKeepsRestIff(before: seq<byte>, arg: seq<byte>, nbytes: nat)
    requires |before| >= GETARGS_CLEARS && |arg| < 0x100 && |arg| <= nbytes <= |before|
    ensures Fetched(before, arg)[nbytes..] == before[nbytes..]
      <==> forall i :: nbytes <= i < 1024 ==> before[i] == 0
  {
    var after := Fetched(before, arg);
    if forall i :: nbytes <= i < GETARGS_CLEARS ==> before[i] == 0 {
      assert after[nbytes..] == before[nbytes..];
    } else {
      var i :| nbytes <= i < GETARGS_CLEARS && before[i] != 0;
      assert after[nbytes..][i - nbytes] != before[nbytes..][i - nbytes];
    }
  }

  ghost predicate Plain(command: seq<byte>) {
    |command| < 0x100 && NewlineFree(command) && (command == [] || command[0] != SPACE)
  }

  /** What `parse_cmd` leaves for the loader. */
  lemma ParsedMeans(m: seq<byte>, input: seq<byte>)
    requires |m| >= REACH
    ensures var s := Truncated(input);
      var cmd, arg, r := KernelCommand(s), KernelArgument(s), Parsed(m, s);
      && (forall i :: 0 <= i < |m| ==> r[i] == StoredByte(cmd, arg, m[i], i))
      && (NulFree(input) ==> (CString(r, 0) == cmd <==> CommandKept(m, cmd, arg)))
      && (NulFree(input) && |cmd| < 40 ==> CString(r, 0) == cmd)
      && (Plain(input) && NulFree(input) && WordLength(input) < 40 ==> CString(r, 0) == input[..WordLength(input)])
  {
    hide CommandFrom, ArgumentFrom, Parsed, CString, WordLength, Tokens, Concat;
    var s := Truncated(input);
    forall i | 0 <= i < |m|
      ensures Parsed(m, s)[i] == StoredByte(KernelCommand(s), KernelArgument(s), m[i], i)
    {
      ParsedAt(m, s, i);
    }
    if NulFree(input) {
      CommandStoredIff(m, s);
      if Plain(input) {
        assert s == input;
        KernelReads(input);
      }
    }
  }

  class Pcb {
    /** The memory from `cmd_name` on: both fields, the argument's size, and what lies behind. */
    const memory: array<byte>

    ghost predicate Valid() {
      memory.Length >= REACH
    }

    constructor (memory: array<byte>)
      requires memory.Length >= REACH
      ensures Valid() && this.memory == memory
    {
      this.memory := memory;
    }

    /** `parse_cmd`. */
    method ParseCmd(input: seq<byte>)
      requires Valid()
      modifies memory
      ensures memory[..] == Parsed(old(memory[..]), Truncated(input))
      ensures var s := input[..|input| % 0x100];
        var cmd, arg := KernelCommand(s), KernelArgument(s);
        && (forall i :: 0 <= i < memory.Length ==> memory[i] == StoredByte(cmd, arg, old(memory[i]), i))
        && (NulFree(input) ==> (CString(memory[..], 0) == cmd <==> CommandKept(old(memory[..]), cmd, arg)))
        && (NulFree(input) && |cmd| < 40 ==> CString(memory[..], 0) == cmd)
      ensures Plain(input) && NulFree(input) && WordLength(input) < 40 ==>
        CString(memory[..], 0) == input[..WordLength(input)]
    {
      hide KernelCommand, KernelArgument, Parsed, CString, CommandKept, WordLength, Plain, StoredByte;
      ghost var m := memory[..];
      ParsedMeans(m, input);
      ScanCommand(input);
      assert forall i :: 0 <= i < memory.Length ==> memory[i] == memory[..][i] && m[i] == old(memory[i]);
    }

    method ScanCommand(input: seq<byte>)
      requires Valid()
      modifies memory
      ensures memory[..] == Parsed(old(memory[..]), Truncated(input))
    {
      hide CommandFrom, ArgumentFrom, Fields;
      ghost var m, s := memory[..], Truncated(input);
      var length := |input| % 0x100;
      ClearFields();
      var i := 0;
      if length > 0 && input[0] == SPACE {
        i := CountSpaces(input, length);
      }
      var cmdSize, argSize, inArg := 0, 0, false;
      ghost var cmd: seq<byte>, arg: seq<byte> := [], [];
      while i < length
        invariant 0 <= i <= length && cmdSize == |cmd| && argSize == |arg| && |cmd| + |arg| <= i
        invariant cmd + CommandFrom(s, i, inArg) == KernelCommand(s)
        invariant arg + ArgumentFrom(s, i, inArg) == KernelArgument(s)
        invariant memory[..] == Fields(m, cmd, arg) && (inArg || arg == [])
        decreases length - i
      {
        KernelStep(s, i, inArg, cmd, arg);
        KernelEnd(s);
        if !inArg && input[i] != SPACE {
          StoreCommand(cmdSize, input[i], m, cmd);
          cmd := cmd + [input[i]];
          cmdSize := cmdSize + 1;
        }
        if inArg && input[i] != SPACE {
          StoreArgument(argSize, input[i], m, cmd, arg);
          arg := arg + [input[i]];
          argSize := argSize + 1;
        }
        if !inArg && i + 1 < |input| && input[i + 1] == SPACE {
          inArg := true;
        }
        i := i + 1;
      }
      KernelEnd(s);
      assert cmd + [] == cmd && arg + [] == arg;
      memory[SIZE_AT] := argSize;
    }

    method StoreCommand(size: nat, c: byte, ghost m: seq<byte>, ghost cmd: seq<byte>)
      requires Valid() && |m| == memory.Length && size == |cmd| < 0xFF && memory[..] == Fields(m, cmd, [])
      modifies memory
      ensures memory[..] == Fields(m, cmd + [c], [])
    {
      hide Fields;
      FieldsCommand(m, cmd, c);
      memory[size] := c;
    }

    method StoreArgument(size: nat, c: byte, ghost m: seq<byte>, ghost cmd: seq<byte>, ghost arg: seq<byte>)
      requires Valid() && |m| == memory.Length && |cmd| < 0x100 && size == |arg| < 0xFF
      requires memory[..] == Fields(m, cmd, arg)
      modifies memory
      ensures memory[..] == Fields(m, cmd, arg + [c])
    {
      hide Fields;
      FieldsArgument(m, cmd, arg, c);
      memory[FIELD + size] := c;
    }

    method ClearFields()
      requires Valid()
      modifies memory
      ensures memory[..] == Fields(old(memory[..]), [], [])
    {
      var i := 0;
      while i < FIELD
        invariant 0 <= i <= FIELD
        invariant forall k :: 0 <= k < i || FIELD <= k < FIELD + i ==> memory[k] == NUL
        invariant forall k :: SIZE_AT <= k < memory.Length ==> memory[k] == old(memory[k])
      {
        memory[i] := NUL;
        memory[FIELD + i] := NUL;
        i := i + 1;
      }
    }

    method CountSpaces(input: seq<byte>, length: nat) returns (n: nat)
      requires length <= |input|
      ensures n == SpaceCount(input[..length])
    {
      n := 0;
      var i := 0;
      while i < length
        invariant 0 <= i <= length && n == SpaceCount(input[..i])
      {
        assert input[..i + 1][..i] == input[..i];
        if input[i] == SPACE {
          n := n + 1;
        }
        i := i + 1;
      }
    }

    /** `getargs`; `buf` is the memory from the caller's buffer on. */
    method GetArgs(buf: array?<byte>, nbytes: int) returns (r: int)
      requires Valid() && (buf != null ==> buf.Length >= GETARGS_CLEARS && buf != memory)
      modifies buf
      ensures r == if buf == null || nbytes < 0 then -1 else 0
      ensures r == 0 ==>
        buf[..] == Fetched(old(buf[..]), memory[..][FIELD..FIELD + Min(memory[SIZE_AT], nbytes)])
      ensures r == 0 ==> forall i :: 0 <= i < buf.Length ==>
        buf[i] == if i < memory[80] && i < nbytes then memory[40 + i] else if i < 1024 then 0 else old(buf[i])
      ensures r == -1 && buf != null ==> buf[..] == old(buf[..])
    {
      if buf == null || nbytes < 0 {
        return -1;
      }
      var n := if memory[SIZE_AT] < nbytes then memory[SIZE_AT] else nbytes;
      CopyIn(buf, 0, Zeros(GETARGS_CLEARS));
      CopyIn(buf, 0, memory[..][FIELD..FIELD + n]);
      assert forall i :: 0 <= i < buf.Length ==> buf[i] == buf[..][i];
      return 0;
    }
  }

  lemma FieldsCommand(m: seq<byte>, cmd: seq<byte>, c: byte)
    requires |m| >= REACH && |cmd| < 0xFF
    ensures Fields(m, cmd + [c], []) == Fields(m, cmd, [])[|cmd| := c]
  {
  }

  lemma FieldsArgument(m: seq<byte>, cmd: seq<byte>, arg: seq<byte>, c: byte)
    requires |m| >= REACH && |cmd| < 0x100 && |arg| < 0xFF
    ensures Fields(m, cmd, arg + [c]) == Fields(m, cmd, arg)[FIELD + |arg| := c]
  {
    var before := Put(Put(m, 0, Zeros(SIZE_AT)), 0, cmd);
    assert Put(before, FIELD, arg + [c]) == Put(before, FIELD, arg)[FIELD + |arg| := c];
  }

  /** The kernel end to end, for every command: the program sees the argument the kernel read,
      but for a byte 40, cut at the count. For plain commands that argument is the argument words
      run together. */
  method KernelArguments(pcb: Pcb, command: seq<byte>, buf: array<byte>, nbytes: int) returns (r: int)
    requires pcb.Valid() && NulFree(command) && buf.Length >= GETARGS_CLEARS && buf != pcb.memory
    modifies pcb.memory, buf
    ensures r == if nbytes < 0 then -1 else 0
    ensures r == 0 ==> var arg := KernelArgument(command[..|command| % 0x100]);
      CString(buf[..], 0) == Delivered(arg)[..Min(|arg|, nbytes)]
    ensures r == 0 && Plain(command) && |Concat(Arguments(command))| <= FIELD ==>
      CString(buf[..], 0) == Concat(Arguments(command))[..Min(|Concat(Arguments(command))|, nbytes)]
  {
    hide WordLength, Tokens, Concat, CommandFrom, ArgumentFrom, CString, Parsed, Delivered;
    ghost var s := Truncated(command);
    ghost var arg := KernelArgument(s);
    if Plain(command) {
      assert s == command;
      KernelReads(command);
    }
    ParsedArgument(pcb.memory[..], s);
    DeliveredIff(arg);
    pcb.ParseCmd(command);
    r := pcb.GetArgs(buf, nbytes);
    if r == 0 {
      ghost var n := Min(|arg|, nbytes);
      DeliveredNulFree(s);
      WindowFront(pcb.memory[..], FIELD, |arg|, n);
      FetchedString(old(buf[..]), Delivered(arg)[..n]);
    }
  }

  lemma WindowFront(data: seq<byte>, at: nat, m: nat, n: nat)
    requires at + m <= |data| && n <= m
    ensures data[at..at + n] == data[at..at + m][..n]
  {
  }

  lemma FetchedString(before: seq<byte>, arg: seq<byte>)
    requires |before| >= GETARGS_CLEARS && |arg| < 0x100 && NulFree(arg)
    ensures CString(Fetched(before, arg), 0) == arg
  {
    var after := Fetched(before, arg);
    assert after[0..|arg|] == arg;
    CStringIs(after, 0, |arg|);
  }

  lemma DeliveredNulFree(s: seq<byte>)
    requires |s| < 0x100 && NulFree(s)
    ensures NulFree(Delivered(KernelArgument(s)))
  {
    hide ArgumentFrom;
    ArgumentNulFree(s, StartOf(s), false);
  }

  lemma {:induction false} ArgumentNulFree(s: seq<byte>, i: nat, inArg: bool)
    requires i <= |s| && NulFree(s)
    ensures NulFree(ArgumentFrom(s, i, inArg))
    decreases |s| - i
  {
    if i < |s| { ArgumentNulFree(s, i + 1, inArg || (i + 1 < |s| && s[i + 1] == SPACE)); }
  }

  lemma KernelEnd(s: seq<byte>)
    ensures forall b :: CommandFrom(s, |s|, b) == [] && ArgumentFrom(s, |s|, b) == []
  {
  }

  /** One step of the kernel's scan, after `cmd` and `arg` have been collected. */
  lemma KernelStep(s: seq<byte>, i: nat, inArg: bool, cmd: seq<byte>, arg: seq<byte>)
    requires i < |s|
    ensures var next := inArg || (i + 1 < |s| && s[i + 1] == SPACE);
      && cmd + CommandFrom(s, i, inArg)
         == (if !inArg && s[i] != SPACE then cmd + [s[i]] else cmd) + CommandFrom(s, i + 1, next)
      && arg + ArgumentFrom(s, i, inArg)
         == (if inArg && s[i] != SPACE then arg + [s[i]] else arg) + ArgumentFrom(s, i + 1, next)
  {
    var next := inArg || (i + 1 < |s| && s[i + 1] == SPACE);
    var c, a := CommandFrom(s, i + 1, next), ArgumentFrom(s, i + 1, next);
    assert cmd + ([s[i]] + c) == cmd + [s[i]] + c && cmd + ([] + c) == cmd + c;
    assert arg + ([s[i]] + a) == arg + [s[i]] + a && arg + ([] + a) == arg + a;
  }
}
