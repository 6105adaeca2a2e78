/** What grep should print, and what its 1024-byte buffer makes of a file. */
module GrepSpec {
  import opened Machine
  import opened Buffers

  const BUFSIZE := 1024
  const COLON: byte := 58

  function Lines(f: seq<byte>): seq<seq<byte>>
    decreases |f|
  {
    if f == [] then []
    else
      var k := LineLength(f);
      [f[..k]] + if k < |f| then Lines(f[k + 1..]) else []
  }

  /** With newlines between them, and one more if the file ends in one, the lines are the file. */
  lemma {:induction false} LinesJoin(f: seq<byte>)
    requires f != []
    ensures |Lines(f)| > 0
    ensures f == JoinLines(Lines(f)) + if f[|f| - 1] == NEWLINE then [NEWLINE] else []
    decreases |f|
  {
    hide LineLength, Lines, JoinLines;
    var k := LineLength(f);
    var rest := if k < |f| then f[k + 1..] else [];
    LinesFirst(f);
    NoLines();
    JoinLinesCons(f[..k], Lines(rest));
    if rest != [] {
      LinesJoin(rest);
      assert f == f[..k] + [NEWLINE] + rest;
      Regroup(f[..k] + [NEWLINE], JoinLines(Lines(rest)), if f[|f| - 1] == NEWLINE then [NEWLINE] else []);
    } else if k < |f| {
      assert f == f[..k] + [NEWLINE];
    } else {
      assert f == f[..k] + [];
    }
  }

  lemma Regroup(a: seq<byte>, b: seq<byte>, c: seq<byte>)
    ensures a + (b + c) == a + b + c
  {
  }

  /** And no line holds a newline. */
  lemma {:induction false} LinesNewlineFree(f: seq<byte>, i: nat)
    requires i < |Lines(f)|
    ensures NewlineFree(Lines(f)[i])
    decreases |f|
  {
    hide LineLength, Lines;
    NoLines();
    LinesFirst(f);
    var k := LineLength(f);
    if i > 0 {
      assert Lines(f)[i] == Lines(f[k + 1..])[i - 1];
      LinesNewlineFree(f[k + 1..], i - 1);
    }
  }

  /** The pieces the scan searches: lines, except that a run of 1024 bytes without a
      newline is searched as if it were a line. */
  function Pieces(f: seq<byte>): seq<seq<byte>>
    decreases |f|
  {
    if f == [] then []
    else
      var k := LineLength(f);
      if k == |f| && k < BUFSIZE then [f]
      else if k < BUFSIZE then [f[..k]] + Pieces(f[k + 1..])
      else [f[..BUFSIZE]] + Pieces(f[BUFSIZE..])
  }

  ghost predicate OccursAt(line: seq<byte>, s: seq<byte>, c: nat) {
    c + |s| <= |line| && line[c..c + |s|] == s
  }

  ghost predicate Hit(line: seq<byte>, s: seq<byte>) {
    s != [] && exists c: nat :: OccursAt(line, s, c)
  }

  /** A line is hit exactly when it is something, the nonempty pattern, and something more. */
  lemma HitMeans(line: seq<byte>, s: seq<byte>)
    ensures Hit(line, s) <==> s != [] && exists a: seq<byte>, b: seq<byte> :: line == a + s + b
  {
    if Hit(line, s) {
      var c: nat :| OccursAt(line, s, c);
      assert line == line[..c] + s + line[c + |s|..];
    }
    if s != [] && exists a: seq<byte>, b: seq<byte> :: line == a + s + b {
      var a: seq<byte>, b: seq<byte> :| line == a + s + b;
      assert OccursAt(line, s, |a|);
    }
  }

  /** The lines that contain a nonempty pattern, in order. */
  ghost function Matching(ls: seq<seq<byte>>, s: seq<byte>): seq<seq<byte>> {
    if ls == [] then []
    else (if Hit(ls[0], s) then [ls[0]] else []) + Matching(ls[1..], s)
  }

  lemma MatchingCons(l: seq<byte>, ls: seq<seq<byte>>, s: seq<byte>)
    ensures Matching([l] + ls, s) == (if Hit(l, s) then [l] else []) + Matching(ls, s)
  {
    assert ([l] + ls)[1..] == ls;
  }

  lemma NoHitInEmpty(s: seq<byte>)
    ensures !Hit([], s)
  {
  }

  // ------------------------------------------------------------ when the two agree

  predicate ShortLines(f: seq<byte>) {
    forall i :: 0 <= i < |Lines(f)| ==> |Lines(f)[i]| <= BUFSIZE
  }

  /** A line more at the end is a line more in the output if it is hit, and behind the others. */
  lemma {:induction false} MatchingSnoc(ls: seq<seq<byte>>, line: seq<byte>, s: seq<byte>)
    ensures Matching([], s) == []
    ensures Matching(ls + [line], s) == Matching(ls, s) + if Hit(line, s) then [line] else []
    decreases |ls|
  {
    hide Hit;
    if ls == [] {
      assert [] + [line] == [line] && [line][1..] == [];
    } else {
      MatchingSnoc(ls[1..], line, s);
      assert (ls + [line])[1..] == ls[1..] + [line];
    }
  }

  /** What is written for lines found in a file: its name, a colon, the line and a newline each. */
  function Printed(name: seq<byte>, ls: seq<seq<byte>>): seq<byte> {
    if ls == [] then []
    else name + [COLON] + ls[0] + [NEWLINE] + Printed(name, ls[1..])
  }

  lemma {:induction false} PrintedSplit(name: seq<byte>, a: seq<seq<byte>>, b: seq<seq<byte>>)
    ensures Printed(name, a + b) == Printed(name, a) + Printed(name, b)
    decreases |a|
  {
    if a == [] {
      assert a + b == b;
    } else {
      PrintedSplit(name, a[1..], b);
      assert (a + b)[1..] == a[1..] + b;
    }
  }

  /** Read line by line, the output is the name, a colon and the line, for each line found. */
  lemma {:induction false} PrintedLines(name: seq<byte>, ls: seq<seq<byte>>)
    requires NewlineFree(name) && forall i :: 0 <= i < |ls| ==> NewlineFree(ls[i])
    ensures |Lines(Printed(name, ls))| == |ls|
    ensures forall i :: 0 <= i < |ls| ==> Lines(Printed(name, ls))[i] == name + [58] + ls[i]
    decreases |ls|
  {
    hide Lines, Printed, LineLength;
    PrintedStep(name, ls);
    if ls == [] {
      NoLines();
    } else {
      var line, rest := name + [58] + ls[0], Printed(name, ls[1..]);
      var text := line + [NEWLINE] + rest;
      PrintedLines(name, ls[1..]);
      LineLengthIs(text, |line|);
      LinesFirst(text);
      assert text[..|line|] == line && text[|line| + 1..] == rest;
      forall i | 0 <= i < |ls| ensures Lines(text)[i] == name + [58] + ls[i] {
        assert i > 0 ==> Lines(text)[i] == Lines(rest)[i - 1] && ls[1..][i - 1] == ls[i];
      }
    }
  }

  lemma PrintedStep(name: seq<byte>, ls: seq<seq<byte>>)
    ensures Printed(name, []) == []
    ensures ls != [] ==> Printed(name, ls) == name + [58] + ls[0] + [NEWLINE] + Printed(name, ls[1..])
  {
  }

  /** A first line that fills the buffer exactly leaves its newline as an empty piece. */
  lemma FullBufferPiece(f: seq<byte>, s: seq<byte>)
    requires |f| > BUFSIZE && LineLength(f) == BUFSIZE
    ensures Matching(Pieces(f), s) == Matching([f[..BUFSIZE]] + Pieces(f[BUFSIZE + 1..]), s)
  {
    hide LineLength, Hit;
    var tail, rest := f[BUFSIZE..], f[BUFSIZE + 1..];
    LineLengthIs(tail, 0);
    assert tail[1..] == rest;
    assert Pieces(tail) == [tail[..0]] + Pieces(rest);
    MatchingCons(f[..BUFSIZE], Pieces(tail), s);
    MatchingCons([], Pieces(rest), s);
    NoHitInEmpty(s);
    MatchingCons(f[..BUFSIZE], Pieces(rest), s);
  }

  lemma {:induction false} ShortLinesAgree(f: seq<byte>, s: seq<byte>)
    requires ShortLines(f)
    ensures Matching(Pieces(f), s) == Matching(Lines(f), s)
    decreases |f|
  {
    hide LineLength, Hit;
    var k := LineLength(f);
    if f == [] {
    } else if k == |f| {
      assert f[..k] == f && Lines(f)[0] == f[..k];
      assert k == BUFSIZE ==> f[BUFSIZE..] == [] && Pieces(f) == [f];
    } else {
      var rest := f[k + 1..];
      assert Lines(f) == [f[..k]] + Lines(rest);
      assert Lines(f)[0] == f[..k];
      assert forall i :: 0 <= i < |Lines(rest)| ==> Lines(rest)[i] == Lines(f)[i + 1];
      ShortLinesAgree(rest, s);
      MatchingCons(f[..k], Lines(rest), s);
      MatchingCons(f[..k], Pieces(rest), s);
      if k == BUFSIZE {
        FullBufferPiece(f, s);
      }
    }
  }

  /** A line as the buffer cuts it. */
  function Chop(line: seq<byte>): seq<seq<byte>>
    decreases |line|
  {
    if |line| <= 1024 then [line] else [line[..1024]] + Chop(line[1024..])
  }

  function ChopAll(ls: seq<seq<byte>>): seq<seq<byte>> {
    if ls == [] then [] else Chop(ls[0]) + ChopAll(ls[1..])
  }

  lemma ChopFirst(line: seq<byte>, ls: seq<seq<byte>>)
    ensures |line| <= 1024 ==> ChopAll([line] + ls) == [line] + ChopAll(ls)
    ensures |line| > 1024 ==> ChopAll([line] + ls) == [line[..1024]] + ChopAll([line[1024..]] + ls)
  {
    assert ([line] + ls)[1..] == ls;
    if |line| > 1024 {
      assert ([line[1024..]] + ls)[1..] == ls;
      assert [line[..1024]] + Chop(line[1024..]) + ChopAll(ls) == [line[..1024]] + (Chop(line[1024..]) + ChopAll(ls));
    }
  }

  lemma LinesFirst(f: seq<byte>)
    requires f != []
    ensures var k := LineLength(f);
      Lines(f) == [f[..k]] + if k < |f| then Lines(f[k + 1..]) else []
  {
  }

  /** For every file: what is searched, and printed when it matches, are the lines cut into runs of
      1024 bytes. */
  lemma {:induction false} PiecesAreChunks(f: seq<byte>, s: seq<byte>)
    ensures Matching(Pieces(f), s) == Matching(ChopAll(Lines(f)), s)
    decreases |f|
  {
    hide LineLength, Hit, Matching, ChopAll, Lines, Pieces;
    NoLines();
    if f != [] {
      if LineLength(f) <= BUFSIZE {
        PiecesAreChunks(AfterLine(f), s);
        ShortLineChunk(f, s);
      } else {
        PiecesAreChunks(f[BUFSIZE..], s);
        LongLineChunk(f, s);
      }
    }
  }

  /** The file behind its first line. */
  function AfterLine(f: seq<byte>): (rest: seq<byte>)
    ensures f != [] ==> |rest| < |f|
  {
    if LineLength(f) < |f| then f[LineLength(f) + 1..] else []
  }

  lemma ShortLineChunk(f: seq<byte>, s: seq<byte>)
    requires f != [] && LineLength(f) <= BUFSIZE
    requires Matching(Pieces(AfterLine(f)), s) == Matching(ChopAll(Lines(AfterLine(f))), s)
    ensures Matching(Pieces(f), s) == Matching(ChopAll(Lines(f)), s)
  {
    hide LineLength, Hit, Matching, ChopAll, Lines, Pieces;
    var k, rest := LineLength(f), AfterLine(f);
    LinesFirst(f);
    NoLines();
    ChopFirst(f[..k], Lines(rest));
    MatchingCons(f[..k], Pieces(rest), s);
    MatchingCons(f[..k], ChopAll(Lines(rest)), s);
    if k == BUFSIZE < |f| { FullBufferPiece(f, s); } else { ShortPiece(f); }
  }

  lemma ShortPiece(f: seq<byte>)
    requires f != [] && LineLength(f) <= BUFSIZE && (LineLength(f) == BUFSIZE ==> |f| == BUFSIZE)
    ensures Pieces(f) == [f[..LineLength(f)]] + Pieces(AfterLine(f))
  {
    hide LineLength, Pieces;
    var k := LineLength(f);
    PiecesUnfold(f);
    NoLines();
    WholeSlices(f);
    if k == |f| {
      assert AfterLine(f) == [];
      assert k < BUFSIZE ==> Pieces(f) == [f];
      assert k == BUFSIZE ==> Pieces(f) == [f] + [];
    } else {
      assert AfterLine(f) == f[k + 1..];
    }
  }

  lemma WholeSlices(f: seq<byte>)
    ensures f[..|f|] == f && f[|f|..] == []
  {
  }

  lemma PiecesUnfold(f: seq<byte>)
    requires f != []
    ensures var k := LineLength(f);
      Pieces(f) ==
      if k == |f| && k < BUFSIZE then [f]
      else if k < BUFSIZE then [f[..k]] + Pieces(f[k + 1..])
      else [f[..BUFSIZE]] + Pieces(f[BUFSIZE..])
  {
    hide LineLength;
  }

  lemma LongLineChunk(f: seq<byte>, s: seq<byte>)
    requires LineLength(f) > BUFSIZE
    requires Matching(Pieces(f[BUFSIZE..]), s) == Matching(ChopAll(Lines(f[BUFSIZE..])), s)
    ensures Matching(Pieces(f), s) == Matching(ChopAll(Lines(f)), s)
  {
    hide LineLength, Hit, Matching, ChopAll, Lines;
    var k, g := LineLength(f), f[BUFSIZE..];
    LongLineTail(f);
    LinesFirst(f);
    LinesFirst(g);
    assert f[..k][..1024] == f[..BUFSIZE] && f[..k][1024..] == g[..k - BUFSIZE];
    assert k < |f| ==> g[k - BUFSIZE + 1..] == f[k + 1..];
    ChopFirst(f[..k], if k < |f| then Lines(f[k + 1..]) else []);
    MatchingCons(f[..BUFSIZE], Pieces(g), s);
    MatchingCons(f[..BUFSIZE], ChopAll(Lines(g)), s);
  }

  lemma NoLines()
    ensures Lines([]) == [] && ChopAll([]) == [] && Pieces([]) == []
  {
  }

  lemma LongLineTail(f: seq<byte>)
    requires LineLength(f) > BUFSIZE
    ensures LineLength(f[BUFSIZE..]) == LineLength(f) - BUFSIZE
  {
    hide LineLength;
    var g, k := f[BUFSIZE..], LineLength(f);
    assert forall i :: 0 <= i < |g| ==> g[i] == f[BUFSIZE + i];
    LineLengthIs(g, k - BUFSIZE);
  }

  lemma {:induction false} PiecesShort(f: seq<byte>, s: seq<byte>)
    ensures forall i :: 0 <= i < |Matching(Pieces(f), s)| ==> |Matching(Pieces(f), s)[i]| <= BUFSIZE
    decreases |f|
  {
    if f != [] {
      var k := LineLength(f);
      if k == |f| && k < BUFSIZE {
        assert [f][1..] == [];
      } else if k < BUFSIZE {
        PiecesShort(f[k + 1..], s);
        MatchingCons(f[..k], Pieces(f[k + 1..]), s);
      } else {
        PiecesShort(f[BUFSIZE..], s);
        MatchingCons(f[..BUFSIZE], Pieces(f[BUFSIZE..]), s);
      }
    }
  }

  lemma {:induction false} MatchingKeeps(ls: seq<seq<byte>>, s: seq<byte>, i: nat)
    requires i < |ls| && Hit(ls[i], s)
    ensures ls[i] in Matching(ls, s)
    decreases |ls|
  {
    if i > 0 { MatchingKeeps(ls[1..], s, i - 1); }
  }

  ghost predicate GrepCorrect(f: seq<byte>) {
    forall s :: s != [] && NulFree(s) ==> Matching(Pieces(f), s) == Matching(Lines(f), s)
  }

  /** The scan prints the matching lines for every pattern exactly when no line is
      longer than the buffer. */
  lemma GrepCorrectIff(f: seq<byte>)
    requires NulFree(f)
    ensures GrepCorrect(f) <==> ShortLines(f)
  {
    if ShortLines(f) {
      forall s | s != [] && NulFree(s) ensures Matching(Pieces(f), s) == Matching(Lines(f), s) {
        ShortLinesAgree(f, s);
      }
    } else {
      var i :| 0 <= i < |Lines(f)| && |Lines(f)[i]| > BUFSIZE;
      var line := Lines(f)[i];
      var s := [line[0]];
      assert OccursAt(line, s, 0);
      MatchingKeeps(Lines(f), s, i);
      PiecesShort(f, s);
      LineBytes(f, i);
      assert Matching(Pieces(f), s) != Matching(Lines(f), s);
    }
  }

  /** Lines are made of the file's bytes. */
  lemma {:induction false} LineBytes(f: seq<byte>, i: nat)
    requires NulFree(f) && i < |Lines(f)|
    ensures NulFree(Lines(f)[i])
    decreases |f|
  {
    hide LineLength, Lines;
    NoLines();
    LinesFirst(f);
    var k := LineLength(f);
    if i > 0 {
      assert Lines(f)[i] == Lines(f[k + 1..])[i - 1];
      LineBytes(f[k + 1..], i - 1);
    }
  }
}
