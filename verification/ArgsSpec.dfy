/** Command lines: the words the two parsers find in them. */
module ArgsSpec {
  import opened Machine
  import opened Buffers

  predicate Separates(c: byte) {
    c == SPACE || c == NEWLINE
  }

  /** Length of the word at the front: up to a space, a newline or the end. */
  function WordLength(t: seq<byte>): (k: nat)
    ensures k <= |t|
    ensures forall i :: 0 <= i < k ==> !Separates(t[i])
    ensures k < |t| ==> Separates(t[k])
  {
    if t == [] || Separates(t[0]) then 0 else 1 + WordLength(t[1..])
  }

  function Spaces(t: seq<byte>): (k: nat)
    ensures k <= |t|
    ensures forall i :: 0 <= i < k ==> t[i] == SPACE
    ensures k < |t| ==> t[k] != SPACE
  {
    if t == [] || t[0] != SPACE then 0 else 1 + Spaces(t[1..])
  }

  lemma WordLengthIs(t: seq<byte>, k: nat)
    requires k <= |t| && (forall i :: 0 <= i < k ==> !Separates(t[i])) && (k < |t| ==> Separates(t[k]))
    ensures WordLength(t) == k
  {
    var n := WordLength(t);
    assert n < |t| ==> Separates(t[n]);
    assert k < |t| ==> Separates(t[k]);
  }

  lemma SpacesIs(t: seq<byte>, k: nat)
    requires k <= |t| && (forall i :: 0 <= i < k ==> t[i] == SPACE) && (k < |t| ==> t[k] != SPACE)
    ensures Spaces(t) == k
  {
    var n := Spaces(t);
    assert n < |t| ==> t[n] != SPACE;
    assert k < |t| ==> t[k] != SPACE;
  }

  /** What the emulation layer's scan finds: words end at a space or a newline, and a newline
      where a word should start ends the list. */
  function Tokens(t: seq<byte>): seq<seq<byte>>
    decreases |t|
  {
    var u := t[Spaces(t)..];
    if u == [] || u[0] == NEWLINE then []
    else
      var k := WordLength(u);
      assert k > 0;
      [u[..k]] + Tokens(if k < |u| then u[k + 1..] else [])
  }

  /** The arguments of a command: the tokens after its first word. */
  function Arguments(cmd: seq<byte>): seq<seq<byte>> {
    var k := WordLength(cmd);
    if k == |cmd| then [] else Tokens(cmd[k + 1..])
  }

  // ------------------------------------------------------------ maximal space-free words

  function Word(w: seq<byte>): seq<seq<byte>> {
    if w == [] then [] else [w]
  }

  /** The maximal space-free words of a text, with the word `w` still open in front of it. */
  function WordsWith(w: seq<byte>, t: seq<byte>): seq<seq<byte>>
    decreases |t|
  {
    if t == [] then Word(w)
    else if t[0] == SPACE then Word(w) + WordsWith([], t[1..])
    else WordsWith(w + [t[0]], t[1..])
  }

  lemma {:induction false} WordsSkip(t: seq<byte>)
    ensures WordsWith([], t) == WordsWith([], t[Spaces(t)..])
    decreases |t|
  {
    if t != [] && t[0] == SPACE {
      WordsSkip(t[1..]);
      assert t[1..][Spaces(t[1..])..] == t[Spaces(t)..];
    } else {
      assert t[0..] == t;
    }
  }

  lemma {:induction false} WordsTake(w: seq<byte>, t: seq<byte>)
    requires NewlineFree(t)
    ensures var k := WordLength(t);
      WordsWith(w, t) == Word(w + t[..k]) + if k < |t| then WordsWith([], t[k + 1..]) else []
    decreases |t|
  {
    var k := WordLength(t);
    if k > 0 {
      WordsTake(w + [t[0]], t[1..]);
      assert w + [t[0]] + t[1..][..k - 1] == w + t[..k];
      assert k < |t| ==> t[1..][k..] == t[k + 1..];
    } else {
      assert w + t[..0] == w;
    }
  }

  /** On newline-free text the tokens are exactly the maximal space-free words. */
  lemma {:induction false} TokensAreWords(t: seq<byte>)
    requires NewlineFree(t)
    ensures Tokens(t) == WordsWith([], t)
    decreases |t|
  {
    hide WordLength, Spaces, Tokens, WordsWith, NewlineFree;
    var u := t[Spaces(t)..];
    WordsSkip(t);
    TokenStep(t);
    NewlineFreeTail(t, Spaces(t));
    assert Word([]) == [];
    WordsNone([]);
    if u != [] {
      var k := WordLength(u);
      WordsTake([], u);
      assert [] + u[..k] == u[..k];
      if k < |u| {
        NewlineFreeTail(u, k + 1);
        TokensAreWords(u[k + 1..]);
      } else {
        TokensNone();
      }
    }
  }

  lemma TokensNone()
    ensures Tokens([]) == []
  {
    TokenStep([]);
  }

  lemma WordsNone(w: seq<byte>)
    ensures WordsWith(w, []) == Word(w)
  {
  }

  lemma NewlineFreeTail(t: seq<byte>, n: nat)
    requires NewlineFree(t) && n <= |t|
    ensures NewlineFree(t[n..]) && (n < |t| ==> t[n..][0] != NEWLINE)
  {
  }

  /** One round of the scan: `sp` spaces, then a word of length `k`. */
  lemma TokenStep(t: seq<byte>)
    ensures var sp := Spaces(t);
      var u := t[sp..];
      if u == [] || u[0] == NEWLINE then Tokens(t) == []
      else
        var k := WordLength(u);
        k > 0 && Tokens(t) == [u[..k]] + Tokens(if k < |u| then u[k + 1..] else [])
  {
    hide WordLength, Spaces;
    var u := t[Spaces(t)..];
    if u != [] && u[0] != NEWLINE {
      assert u[0] == t[Spaces(t)] != SPACE;
      assert WordLength(u) > 0;
    }
  }

  // ------------------------------------------------------------ tokens of any text

  /** The maximal words without space or newline, with the word `w` still open in front. */
  function WordsSep(w: seq<byte>, t: seq<byte>): seq<seq<byte>>
    decreases |t|
  {
    if t == [] then Word(w)
    else if t[0] == 32 || t[0] == 10 then Word(w) + WordsSep([], t[1..])
    else WordsSep(w + [t[0]], t[1..])
  }

  /** Where the scan stops: at the first newline that does not end a word. `between` says that no word
      is open in front of the text. */
  function Stop(t: seq<byte>, between: bool): (n: nat)
    ensures n <= |t|
  {
    if t == [] || (between && t[0] == 10) then 0 else 1 + Stop(t[1..], t[0] == 32 || t[0] == 10)
  }

  lemma {:induction false} StopSkips(t: seq<byte>)
    ensures var u := t[Spaces(t)..];
      WordsSep([], t[..Stop(t, true)]) == WordsSep([], u[..Stop(u, true)])
    decreases |t|
  {
    if t != [] && t[0] == SPACE {
      StopSkips(t[1..]);
      var rest := t[1..];
      assert rest[Spaces(rest)..] == t[Spaces(t)..];
      assert t[..Stop(t, true)][1..] == rest[..Stop(rest, true)];
    } else {
      assert t[0..] == t;
    }
  }

  /** The words of a text up to where the scan stops. */
  function WordsToStop(t: seq<byte>): seq<seq<byte>> {
    WordsSep([], t[..Stop(t, true)])
  }

  lemma {:induction false} StopTakes(w: seq<byte>, t: seq<byte>, between: bool)
    requires WordLength(t) > 0 || !between
    ensures var k := WordLength(t);
      WordsSep(w, t[..Stop(t, between)]) == Word(w + t[..k]) + if k < |t| then WordsToStop(t[k + 1..]) else []
    decreases |t|
  {
    hide WordLength, Stop, WordsSep, WordsToStop;
    var k := WordLength(t);
    if t == [] {
      assert w + t[..0] == w;
      StopsAtOnce(t);
      SepNone(w);
    } else {
      var c, rest := t[0], t[1..];
      StopStep(t, between);
      SepStep(w, c, rest[..Stop(rest, Separates(c))]);
      WordLengthStep(t);
      if k > 0 {
        StopTakes(w + [c], rest, false);
        ShiftedWord(w, t, k);
      } else {
        assert w + t[..0] == w;
        assert WordsSep([], rest[..Stop(rest, true)]) == WordsToStop(rest) by { ToStop(rest); }
      }
    }
  }

  lemma ToStop(t: seq<byte>)
    ensures WordsToStop(t) == WordsSep([], t[..Stop(t, true)])
  {
    hide Stop, WordsSep;
  }

  lemma ShiftedWord(w: seq<byte>, t: seq<byte>, k: nat)
    requires 0 < k <= |t|
    ensures w + [t[0]] + t[1..][..k - 1] == w + t[..k] && (k < |t| ==> t[1..][k..] == t[k + 1..])
  {
  }

  lemma StopStep(t: seq<byte>, between: bool)
    requires t != [] && !(between && t[0] == NEWLINE)
    ensures t[..Stop(t, between)] == [t[0]] + t[1..][..Stop(t[1..], Separates(t[0]))]
  {
  }

  lemma SepNone(w: seq<byte>)
    ensures WordsSep(w, []) == Word(w)
  {
  }

  lemma SepStep(w: seq<byte>, c: byte, t: seq<byte>)
    ensures WordsSep(w, [c] + t) == if Separates(c) then Word(w) + WordsSep([], t) else WordsSep(w + [c], t)
  {
    assert ([c] + t)[1..] == t;
  }

  lemma WordLengthStep(t: seq<byte>)
    requires t != []
    ensures WordLength(t) == if Separates(t[0]) then 0 else 1 + WordLength(t[1..])
  {
  }

  /** On every text the tokens are the maximal words without space or newline, up to the first
      newline that does not end a word. */
  lemma {:induction false} TokensUntilStop(t: seq<byte>)
    ensures Tokens(t) == WordsSep([], t[..Stop(t, true)])
    decreases |t|
  {
    hide WordLength, Spaces, Tokens, Stop, WordsSep, WordsToStop;
    var u := t[Spaces(t)..];
    TokenStep(t);
    StopSkips(t);
    if u == [] || u[0] == NEWLINE {
      StopsAtOnce(u);
    } else {
      var k := WordLength(u);
      StopTakes([], u, true);
      assert [] + u[..k] == u[..k];
      if k < |u| {
        TokensUntilStop(u[k + 1..]);
        ToStop(u[k + 1..]);
      } else {
        TokensNone();
      }
    }
  }

  lemma StopsAtOnce(u: seq<byte>)
    requires u == [] || u[0] == NEWLINE
    ensures Stop(u, true) == 0 && WordsSep([], u[..Stop(u, true)]) == []
    ensures u == [] ==> Stop(u, false) == 0
  {
    assert Stop(u, true) == 0 && u[..0] == [];
  }

  lemma {:induction false} TokensAreNonempty(t: seq<byte>)
    requires forall i :: 0 <= i < |t| ==> t[i] != NUL
    ensures AllWords(Tokens(t))
    ensures 2 * |Tokens(t)| <= |t| + 1
    decreases |t|
  {
    hide WordLength, Spaces, Tokens;
    TokenStep(t);
    var u := t[Spaces(t)..];
    if u != [] && u[0] != NEWLINE {
      var k := WordLength(u);
      var rest := if k < |u| then u[k + 1..] else [];
      TokensAreNonempty(rest);
      assert IsWord(u[..k]);
      forall i | 0 <= i < |Tokens(t)| ensures IsWord(Tokens(t)[i]) {
        assert i > 0 ==> Tokens(t)[i] == Tokens(rest)[i - 1];
      }
    }
  }

  // ------------------------------------------------------------ joining

  /** Words separated by single spaces. */
  function Join(ws: seq<seq<byte>>): seq<byte> {
    if ws == [] then []
    else if |ws| == 1 then ws[0]
    else Join(ws[..|ws| - 1]) + [SPACE] + ws[|ws| - 1]
  }

  ghost predicate IsWord(w: seq<byte>) {
    w != [] && forall i :: 0 <= i < |w| ==> !Separates(w[i]) && w[i] != NUL
  }

  ghost predicate AllWords(ws: seq<seq<byte>>) {
    forall i :: 0 <= i < |ws| ==> IsWord(ws[i])
  }

  lemma WordThen(w: seq<byte>, t: seq<byte>)
    requires IsWord(w) && (t == [] || t[0] == SPACE)
    ensures Tokens(w + t) == [w] + Tokens(if t == [] then [] else t[1..])
  {
    hide WordLength, Spaces, Tokens;
    var s := w + t;
    assert s[0] == w[0];
    SpacesIs(s, 0);
    assert s[0..] == s;
    assert forall i :: 0 <= i < |w| ==> s[i] == w[i];
    WordLengthIs(s, |w|);
    TokenStep(s);
    assert s[..|w|] == w;
    if t != [] { assert s[|w| + 1..] == t[1..]; }
  }

  /** Front form of the join. */
  lemma {:induction false} JoinFront(ws: seq<seq<byte>>)
    requires |ws| > 1
    ensures Join(ws) == ws[0] + ([SPACE] + Join(ws[1..]))
    decreases |ws|
  {
    var front, last := ws[..|ws| - 1], ws[|ws| - 1];
    if |ws| > 2 {
      JoinFront(front);
      assert ws[1..][..|ws| - 2] == front[1..];
      assert Join(ws[1..]) == Join(front[1..]) + [SPACE] + last;
      calc {
        Join(ws);
        Join(front) + [SPACE] + last;
        ws[0] + ([SPACE] + Join(front[1..])) + [SPACE] + last;
        ws[0] + ([SPACE] + (Join(front[1..]) + [SPACE] + last));
      }
    } else {
      assert front == [ws[0]] && ws[1..] == [last];
      assert ws[0] + [SPACE] + last == ws[0] + ([SPACE] + last);
    }
  }

  /** Splitting the join gives the words back. */
  lemma {:induction false} TokensOfJoin(ws: seq<seq<byte>>)
    requires AllWords(ws)
    ensures Tokens(Join(ws)) == ws
    decreases |ws|
  {
    hide WordLength, Spaces, Tokens;
    assert Tokens([]) == [] by { TokenStep([]); }
    if ws == [] {
    } else if |ws| == 1 {
      WordThen(ws[0], []);
      assert ws[0] + [] == ws[0];
    } else {
      JoinFront(ws);
      WordThen(ws[0], [SPACE] + Join(ws[1..]));
      assert ([SPACE] + Join(ws[1..]))[1..] == Join(ws[1..]);
      TokensOfJoin(ws[1..]);
    }
  }

  // ------------------------------------------------------------ the kernel's reading

  /** The kernel's scan from position `i`: bytes go to the command until the next byte is a
      space, and from then on to the argument; spaces are dropped. */
  function CommandFrom(s: seq<byte>, i: nat, inArg: bool): (r: seq<byte>)
    requires i <= |s|
    ensures |r| <= |s| - i
    decreases |s| - i
  {
    if i == |s| then []
    else (if !inArg && s[i] != SPACE then [s[i]] else [])
         + CommandFrom(s, i + 1, inArg || (i + 1 < |s| && s[i + 1] == SPACE))
  }

  function ArgumentFrom(s: seq<byte>, i: nat, inArg: bool): (r: seq<byte>)
    requires i <= |s|
    ensures |r| <= |s| - i
    decreases |s| - i
  {
    if i == |s| then []
    else (if inArg && s[i] != SPACE then [s[i]] else [])
         + ArgumentFrom(s, i + 1, inArg || (i + 1 < |s| && s[i + 1] == SPACE))
  }

  function SpaceCount(s: seq<byte>): (n: nat)
    ensures n <= |s|
  {
    if s == [] then 0 else SpaceCount(s[..|s| - 1]) + if s[|s| - 1] == SPACE then 1 else 0
  }

  /** Where the kernel starts: past as many bytes as the text has spaces, if it starts with one. */
  function StartOf(s: seq<byte>): (n: nat)
    ensures n <= |s|
  {
    if s != [] && s[0] == SPACE then SpaceCount(s) else 0
  }

  function KernelCommand(s: seq<byte>): (r: seq<byte>)
    ensures |r| <= |s|
  {
    CommandFrom(s, StartOf(s), false)
  }

  function KernelArgument(s: seq<byte>): (r: seq<byte>)
    ensures |r| <= |s|
  {
    ArgumentFrom(s, StartOf(s), false)
  }

  /** Once in the argument, the kernel keeps every byte that is not a space. */
  lemma {:induction false} ArgumentIsConcat(s: seq<byte>, i: nat, w: seq<byte>)
    requires i <= |s|
    ensures w + ArgumentFrom(s, i, true) == Concat(WordsWith(w, s[i..]))
    decreases |s| - i
  {
    var t := s[i..];
    if i == |s| {
      assert Word(w) == [] || Word(w)[1..] == [];
    } else {
      assert t[1..] == s[i + 1..];
      if s[i] == SPACE {
        ArgumentIsConcat(s, i + 1, []);
        ConcatWord(w, WordsWith([], t[1..]));
        assert [] + ArgumentFrom(s, i + 1, true) == ArgumentFrom(s, i + 1, true);
        assert ArgumentFrom(s, i, true) == ArgumentFrom(s, i + 1, true);
      } else {
        ArgumentIsConcat(s, i + 1, w + [s[i]]);
        assert w + [s[i]] + ArgumentFrom(s, i + 1, true) == w + ([s[i]] + ArgumentFrom(s, i + 1, true));
      }
    }
  }

  lemma ConcatWord(w: seq<byte>, ws: seq<seq<byte>>)
    ensures Concat(Word(w) + ws) == w + Concat(ws)
  {
    if w == [] {
      assert Word(w) + ws == ws && w + Concat(ws) == Concat(ws);
    } else {
      assert ([w] + ws)[1..] == ws;
    }
  }

  /** Before the first space everything belongs to the command. */
  lemma {:induction false} KernelSplits(s: seq<byte>, i: nat, k: nat)
    requires i <= k <= |s| && (forall j :: i <= j < k ==> s[j] != SPACE) && (k < |s| ==> s[k] == SPACE)
    requires i < k || k == |s|
    ensures CommandFrom(s, i, false) == s[i..k]
    ensures ArgumentFrom(s, i, false) == if k < |s| then ArgumentFrom(s, k, true) else []
    decreases k - i
  {
    hide CommandFrom, ArgumentFrom;
    ScanStep(s, i, false);
    if i < k {
      assert s[i..k] == [s[i]] + s[i + 1..k];
      if i + 1 < k || k == |s| {
        KernelSplits(s, i + 1, k);
      } else {
        InArgumentNoCommand(s, k);
      }
    }
  }

  /** One byte of the kernel's scan. */
  lemma ScanStep(s: seq<byte>, i: nat, inArg: bool)
    requires i <= |s|
    ensures i == |s| ==> CommandFrom(s, i, inArg) == [] && ArgumentFrom(s, i, inArg) == []
    ensures i < |s| ==> var next := inArg || (i + 1 < |s| && s[i + 1] == SPACE);
      && CommandFrom(s, i, inArg)
         == (if !inArg && s[i] != SPACE then [s[i]] else []) + CommandFrom(s, i + 1, next)
      && ArgumentFrom(s, i, inArg)
         == if inArg && s[i] != SPACE then [s[i]] + ArgumentFrom(s, i + 1, next)
            else ArgumentFrom(s, i + 1, next)
  {
    if i < |s| {
      var next := inArg || (i + 1 < |s| && s[i + 1] == SPACE);
      assert [] + ArgumentFrom(s, i + 1, next) == ArgumentFrom(s, i + 1, next);
    }
  }

  lemma {:induction false} InArgumentNoCommand(s: seq<byte>, i: nat)
    requires i <= |s|
    ensures CommandFrom(s, i, true) == []
    decreases |s| - i
  {
    if i < |s| { InArgumentNoCommand(s, i + 1); }
  }

  /** For newline-free commands that do not start with a space, the kernel's command is the
      first word and its argument the other words run together. */
  lemma KernelReads(s: seq<byte>)
    requires NewlineFree(s) && (s == [] || s[0] != SPACE)
    ensures KernelCommand(s) == s[..WordLength(s)]
    ensures KernelArgument(s) == Concat(Arguments(s))
  {
    hide WordLength, Tokens, Concat, CommandFrom, ArgumentFrom, WordsWith;
    var k := WordLength(s);
    assert forall j :: 0 <= j < k ==> s[j] != SPACE;
    KernelSplits(s, 0, k);
    assert s[0..k] == s[..k];
    if k < |s| {
      var t := s[k + 1..];
      assert forall j :: 0 <= j < |t| ==> t[j] == s[k + 1 + j];
      ArgumentIsConcat(s, k + 1, []);
      TokensAreWords(t);
      SpaceSkipped(s, k);
    } else {
      assert Concat([]) == [] by { ConcatNil(); }
    }
  }

  /** A text without its spaces. */
  function NoSpaces(t: seq<byte>): seq<byte> {
    if t == [] then [] else (if t[0] == 32 then [] else [t[0]]) + NoSpaces(t[1..])
  }

  lemma {:induction false} ArgumentIsRest(s: seq<byte>, i: nat)
    requires i <= |s|
    ensures ArgumentFrom(s, i, true) == NoSpaces(s[i..])
    decreases |s| - i
  {
    if i < |s| {
      ArgumentIsRest(s, i + 1);
      assert s[i..][1..] == s[i + 1..];
    }
  }

  /** For every text that does not start with a space: the command is what stands before its first
      space, at `k`, and the argument everything behind without spaces. */
  lemma KernelSplitsAt(s: seq<byte>, k: nat)
    requires k <= |s| && (forall i :: 0 <= i < k ==> s[i] != 32) && (k < |s| ==> k > 0 && s[k] == 32)
    ensures KernelCommand(s) == s[..k] && KernelArgument(s) == NoSpaces(s[k..])
  {
    hide CommandFrom, ArgumentFrom;
    KernelSplits(s, 0, k);
    assert s[0..k] == s[..k];
    if k < |s| { ArgumentIsRest(s, k); } else { assert s[k..] == []; }
  }

  lemma SpaceSkipped(s: seq<byte>, k: nat)
    requires k < |s| && s[k] == SPACE
    ensures ArgumentFrom(s, k, true) == [] + ArgumentFrom(s, k + 1, true)
  {
  }

  lemma ConcatNil()
    ensures Concat([]) == []
  {
  }

  lemma {:induction false} ConcatShorter(ws: seq<seq<byte>>)
    requires |ws| > 0
    ensures |Join(ws)| == |Concat(ws)| + |ws| - 1
    decreases |ws|
  {
    if |ws| > 1 {
      JoinFront(ws);
      ConcatShorter(ws[1..]);
    } else {
      assert ws == [ws[0]] && ws[1..] == [];
    }
  }

  /** The two layers hand a program the same argument string exactly when the command has at
      most one argument word. */
  lemma LayersAgreeIff(s: seq<byte>)
    requires NewlineFree(s) && (s == [] || s[0] != SPACE)
    ensures KernelArgument(s) == Join(Arguments(s)) <==> |Arguments(s)| <= 1
  {
    KernelReads(s);
    var ws := Arguments(s);
    if |ws| > 0 { ConcatShorter(ws); }
    if |ws| == 1 {
      assert ws == [ws[0]] && ws[1..] == [] && Concat(ws) == ws[0] + [];
    }
  }

  // ------------------------------------------------------------ commands that start with a space

  lemma {:induction false} SpaceCountSplit(a: seq<byte>, b: seq<byte>)
    ensures SpaceCount(a + b) == SpaceCount(a) + SpaceCount(b)
    decreases |b|
  {
    if b == [] {
      assert a + b == a;
    } else {
      assert (a + b)[..|a + b| - 1] == a + b[..|b| - 1];
      SpaceCountSplit(a, b[..|b| - 1]);
    }
  }

  lemma {:induction false} SpaceCountBounds(s: seq<byte>)
    ensures (forall i :: 0 <= i < |s| ==> s[i] == SPACE) ==> SpaceCount(s) == |s|
    ensures SpaceCount(s) == 0 ==> forall i :: 0 <= i < |s| ==> s[i] != SPACE
    decreases |s|
  {
    if s != [] { SpaceCountBounds(s[..|s| - 1]); }
  }

  /** Spaces in front of a single word are skipped. */
  lemma OnlyLeadingSpaces(s: seq<byte>)
    requires SpaceCount(s) == Spaces(s)
    ensures KernelCommand(s) == s[Spaces(s)..] && KernelArgument(s) == []
  {
    hide SpaceCount, Spaces;
    var k := Spaces(s);
    var a, b := s[..k], s[k..];
    assert s == a + b;
    SpaceCountSplit(a, b);
    SpaceCountBounds(a);
    SpaceCountBounds(b);
    forall j | k <= j < |s| ensures s[j] != SPACE { assert s[j] == b[j - k]; }
    assert StartOf(s) == k;
    KernelSplits(s, k, |s|);
  }

  /** Command and argument together hold every byte from the start on that is not a space. */
  lemma {:induction false} BytesCollected(s: seq<byte>, i: nat, inArg: bool)
    requires i <= |s|
    ensures |CommandFrom(s, i, inArg)| + |ArgumentFrom(s, i, inArg)| == |s| - i - SpaceCount(s[i..])
    decreases |s| - i
  {
    hide SpaceCount, CommandFrom, ArgumentFrom;
    ScanStep(s, i, inArg);
    if i < |s| {
      BytesCollected(s, i + 1, inArg || (i + 1 < |s| && s[i + 1] == SPACE));
      assert s[i..] == [s[i]] + s[i + 1..];
      SpaceCountSplit([s[i]], s[i + 1..]);
      SpaceCountOne(s[i]);
    } else {
      assert s[i..] == [] && SpaceCount([]) == 0 by { SpaceCountBounds([]); }
    }
  }

  lemma SpaceCountOne(c: byte)
    ensures SpaceCount([c]) == if c == SPACE then 1 else 0
  {
    assert [c][..0] == [];
  }

  /** Between the first word and as many bytes further as `t` has spaces there is a byte that is
      not a space, so a space is left behind them. */
  lemma SpaceLeftBehind(t: seq<byte>)
    requires t != [] && t[0] != SPACE && SpaceCount(t) > 0
    ensures SpaceCount(t[SpaceCount(t)..]) > 0
  {
    hide SpaceCount;
    var m := SpaceCount(t);
    assert t == t[..m] + t[m..];
    SpaceCountSplit(t[..m], t[m..]);
    assert t[..m] == [t[0]] + t[1..m];
    SpaceCountSplit([t[0]], t[1..m]);
    SpaceCountOne(t[0]);
  }

  /** With a space after the first word, the kernel collects too few bytes of a command that
      starts with one. */
  lemma LeadingSpacesLose(s: seq<byte>)
    requires s != [] && s[0] == SPACE && SpaceCount(s) != Spaces(s)
    ensures var t := s[Spaces(s)..];
      |KernelCommand(s)| + |KernelArgument(s)| < |KernelCommand(t)| + |KernelArgument(t)|
  {
    hide SpaceCount, Spaces, CommandFrom, ArgumentFrom;
    var k := Spaces(s);
    var t := s[k..];
    CountBehindSpaces(s);
    var m := SpaceCount(t);
    SpaceLeftBehind(t);
    BytesCollected(s, k + m, false);
    TailOfTail(s, k, m);
    BytesCollected(t, 0, false);
    TailOfTail(s, k, 0);
    assert t[0..] == t;
  }

  lemma TailOfTail(s: seq<byte>, k: nat, m: nat)
    requires k + m <= |s|
    ensures s[k..][m..] == s[k + m..]
  {
  }

  lemma CountBehindSpaces(s: seq<byte>)
    ensures var k := Spaces(s);
      SpaceCount(s) == k + SpaceCount(s[k..]) && (SpaceCount(s) != k ==> k < |s| && s[k..][0] != SPACE)
  {
    hide SpaceCount, Spaces;
    var k := Spaces(s);
    assert s == s[..k] + s[k..];
    SpaceCountSplit(s[..k], s[k..]);
    SpaceCountBounds(s[..k]);
    SpaceCountBounds([]);
  }

  /** The kernel reads a command that starts with spaces like the same command without them
      exactly when it has no other space. */
  lemma LeadingSpacesIff(s: seq<byte>)
    requires s != [] && s[0] == SPACE
    ensures var t := s[Spaces(s)..];
      KernelCommand(s) == KernelCommand(t) && KernelArgument(s) == KernelArgument(t)
      <==> SpaceCount(s) == Spaces(s)
  {
    hide SpaceCount, Spaces, CommandFrom, ArgumentFrom;
    var k := Spaces(s);
    var t := s[k..];
    if SpaceCount(s) == k {
      OnlyLeadingSpaces(s);
      assert s == s[..k] + t;
      SpaceCountSplit(s[..k], t);
      SpaceCountBounds(s[..k]);
      SpaceCountBounds(t);
      KernelSplits(t, 0, |t|);
      assert t[0..|t|] == t;
    } else {
      LeadingSpacesLose(s);
    }
  }

  /** The failing input: of " a b" the kernel takes "b" for the command, because it
      skips as many bytes as the whole text has spaces. */
  lemma LeadingSpaceMisread()
    ensures var s := [SPACE, 97, SPACE, 98];
      KernelCommand(s) == [98] && KernelArgument(s) == []
  {
    var s := [SPACE, 97, SPACE, 98];
    assert s[..3][..2] == [SPACE, 97] && s[..3] == [SPACE, 97, SPACE] && [SPACE, 97][..1] == [SPACE];
    assert SpaceCount([SPACE]) == 1;
    assert SpaceCount([SPACE, 97]) == 1;
    assert SpaceCount([SPACE, 97, SPACE]) == 2;
    assert StartOf(s) == 2;
    assert CommandFrom(s, 4, false) == [] && CommandFrom(s, 3, false) == [98];
    assert ArgumentFrom(s, 4, false) == [] && ArgumentFrom(s, 3, false) == [];
  }
}
