/** What a terminal should show: the tail of the lines written so far. */
module ConsoleSpec {
  import opened Machine
  import opened Buffers

  const COLS := 80
  const ROWS := 25

  /** All lines written since the screen was cleared; the last one is still open. */
  type History = h: seq<seq<byte>> | |h| > 0 witness [[]]

  function Last(h: History): seq<byte> {
    h[|h| - 1]
  }

  predicate Breaks(c: byte) {
    c == NEWLINE || c == RETURN
  }

  function Type(h: History, c: byte): History {
    if c == NUL then h
    else if Breaks(c) then h + [[]]
    else h[|h| - 1 := Last(h) + [c]]
  }

  function TypeAll(h: History, text: seq<byte>): History
    decreases |text|
  {
    if text == [] then h else Type(TypeAll(h, text[..|text| - 1]), text[|text| - 1])
  }

  /** How a stream is split over calls does not matter. */
  lemma {:induction false} TypeAllSplit(h: History, a: seq<byte>, b: seq<byte>)
    ensures TypeAll(h, a + b) == TypeAll(TypeAll(h, a), b)
    decreases |b|
  {
    if b == [] {
      assert a + b == a;
    } else {
      assert (a + b)[..|a + b| - 1] == a + b[..|b| - 1];
      TypeAllSplit(h, a, b[..|b| - 1]);
    }
  }

  /** Line feeds and carriage returns in a text. */
  function BreakCount(text: seq<byte>): nat {
    if text == [] then 0
    else BreakCount(text[..|text| - 1]) + if text[|text| - 1] == 10 || text[|text| - 1] == 13 then 1 else 0
  }

  /** Its bytes other than those and NUL. */
  function Glyphs(text: seq<byte>): seq<byte> {
    if text == [] then []
    else
      var c := text[|text| - 1];
      Glyphs(text[..|text| - 1]) + if c == 0 || c == 10 || c == 13 then [] else [c]
  }

  /** A text adds one line per break, and its glyphs, in order, behind everything written before;
      finished lines stay. With `TypeAllSplit`, this says where every glyph goes. */
  lemma {:induction false} TypeAllMeans(h: History, text: seq<byte>)
    ensures |TypeAll(h, text)| == |h| + BreakCount(text)
    ensures Concat(TypeAll(h, text)) == Concat(h) + Glyphs(text)
    ensures forall i :: 0 <= i < |h| - 1 ==> TypeAll(h, text)[i] == h[i]
    decreases |text|
  {
    hide Concat, TypeAll;
    TypeAllStep(h, text);
    if text == [] {
      assert Concat(h) + [] == Concat(h);
    } else {
      var front, c := text[..|text| - 1], text[|text| - 1];
      TypeAllMeans(h, front);
      TypeMeans(TypeAll(h, front), c);
    }
  }

  lemma TypeAllStep(h: History, text: seq<byte>)
    ensures TypeAll(h, []) == h
    ensures text != [] ==> TypeAll(h, text) == Type(TypeAll(h, text[..|text| - 1]), text[|text| - 1])
  {
  }

  lemma TypeMeans(h: History, c: byte)
    ensures |Type(h, c)| == |h| + if c == 10 || c == 13 then 1 else 0
    ensures Concat(Type(h, c)) == Concat(h) + if c == 0 || c == 10 || c == 13 then [] else [c]
    ensures forall i :: 0 <= i < |h| - 1 ==> Type(h, c)[i] == h[i]
  {
    hide Concat;
    var n := |h| - 1;
    if c == 10 || c == 13 {
      ConcatSnoc(h, []);
    } else if c != 0 {
      assert h == h[..n] + [Last(h)] && Type(h, c) == h[..n] + [Last(h) + [c]];
      ConcatSnoc(h[..n], Last(h));
      ConcatSnoc(h[..n], Last(h) + [c]);
      assert Concat(h[..n]) + (Last(h) + [c]) == Concat(h[..n]) + Last(h) + [c];
    } else {
      assert Concat(h) + [] == Concat(h);
    }
  }

  function Blank(): (row: seq<byte>)
    ensures |row| == COLS
    ensures forall c :: 0 <= c < COLS ==> row[c] == SPACE
  {
    seq(COLS, _ => SPACE)
  }

  /** A line has no wrap: it is written over itself every 80 columns. */
  function Overlay(line: seq<byte>): (row: seq<byte>)
    ensures |row| == COLS
    decreases |line|
  {
    if line == [] then Blank()
    else Overlay(line[..|line| - 1])[(|line| - 1) % COLS := line[|line| - 1]]
  }

  lemma OverlayNone()
    ensures Overlay([]) == Blank()
  {
  }

  lemma OverlaySnoc(line: seq<byte>, c: byte)
    ensures Overlay(line + [c]) == Overlay(line)[|line| % COLS := c]
  {
    assert (line + [c])[..|line|] == line;
  }

  lemma Incongruent(i: nat, n: nat)
    requires i < n < i + COLS
    ensures n % COLS != i % COLS
  {
    var q, p := n / COLS, i / COLS;
    if q == p {
      assert n % COLS - i % COLS == n - i;
    } else {
      assert q == p + 1;
      assert n % COLS - i % COLS == n - i - COLS;
    }
  }

  /** Column `c` shows the last byte written at a position congruent to `c`, and a space if none
      was. */
  lemma {:induction false} OverlayMeans(line: seq<byte>, c: nat)
    requires c < COLS
    ensures |line| <= c ==> Overlay(line)[c] == SPACE
    ensures forall i :: 0 <= i < |line| <= i + COLS && i % COLS == c ==> Overlay(line)[c] == line[i]
    decreases |line|
  {
    if line != [] {
      var n := |line| - 1;
      var front := line[..n];
      OverlayMeans(front, c);
      forall i | 0 <= i < |line| <= i + COLS && i % COLS == c ensures Overlay(line)[c] == line[i] {
        if i < n {
          Incongruent(i, n);
          assert Overlay(front)[c] == front[i];
        }
      }
    }
  }

  /** The cursor row: lines fill the screen down to row 23; a line break there leaves the
      cursor on row 24 until the next byte scrolls. */
  ghost predicate RowOf(h: History, y: int) {
    y == Min(|h| - 1, ROWS - 2) || (y == ROWS - 1 && |h| >= ROWS && Last(h) == [])
  }

  /** What row `r` shows when the cursor is on row `y`. */
  ghost function RowShown(h: History, y: int, r: nat): seq<byte>
    requires 0 <= y < |h|
  {
    if r <= y then Overlay(h[|h| - 1 - y + r]) else Blank()
  }

  predicate Clean(c: byte) {
    c != NUL && !Breaks(c)
  }

  ghost predicate CleanLines(h: History) {
    forall i :: 0 <= i < |h| ==> forall k :: 0 <= k < |h[i]| ==> Clean(h[i][k])
  }

  lemma {:induction false} OverlayClean(line: seq<byte>, c: nat)
    requires c < COLS && forall k :: 0 <= k < |line| ==> Clean(line[k])
    ensures Clean(Overlay(line)[c])
    decreases |line|
  {
    if line != [] { OverlayClean(line[..|line| - 1], c); }
  }

  lemma {:induction false} TypeAllClean(h: History, text: seq<byte>)
    requires CleanLines(h)
    ensures CleanLines(TypeAll(h, text))
    decreases |text|
  {
    if text != [] { TypeAllClean(h, text[..|text| - 1]); }
  }
}
