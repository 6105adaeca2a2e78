/** The text screen of student-distrib/lib.c and the terminal writer of
    student-distrib/terminal.c: character/attribute pairs in video memory, a cursor,
    and a scroll that copies rows through `putc`. */
module Console {
  import opened Machine
  import opened ConsoleSpec

  const ATTRIB: byte := 7
  const PAGE := 4096

  // ------------------------------------------------------------ cells of video memory

  function Index(r: nat, c: nat): nat {
    2 * (COLS * r + c)
  }

  function Cell(v: seq<byte>, r: nat, c: nat): byte
    requires |v| == PAGE && r < ROWS && c < COLS
  {
    v[Index(r, c)]
  }

  function Attr(v: seq<byte>, r: nat, c: nat): byte
    requires |v| == PAGE && r < ROWS && c < COLS
  {
    v[Index(r, c) + 1]
  }

  /** Video memory after one character is drawn. */
  function Draw(v: seq<byte>, r: nat, c: nat, ch: byte): (w: seq<byte>)
    requires |v| == PAGE && r < ROWS && c < COLS
    ensures |w| == PAGE
  {
    v[Index(r, c) := ch][Index(r, c) + 1 := ATTRIB]
  }

  lemma DrawCells(v: seq<byte>, r: nat, c: nat, ch: byte)
    requires |v| == PAGE && r < ROWS && c < COLS
    ensures forall r', c' :: 0 <= r' < ROWS && 0 <= c' < COLS ==>
      Cell(Draw(v, r, c, ch), r', c') == if r' == r && c' == c then ch else Cell(v, r', c')
    ensures forall r', c' :: 0 <= r' < ROWS && 0 <= c' < COLS ==>
      Attr(Draw(v, r, c, ch), r', c') == if r' == r && c' == c then ATTRIB else Attr(v, r', c')
    ensures SameTail(v, Draw(v, r, c, ch))
  {
  }

  /** The 96 bytes of the page beyond the screen. */
  ghost predicate SameTail(v: seq<byte>, w: seq<byte>)
    requires |v| == |w| == PAGE
  {
    v[Index(ROWS, 0)..] == w[Index(ROWS, 0)..]
  }

  // ------------------------------------------------------------ what a screen shows

  ghost predicate Shows(v: seq<byte>, x: int, y: int, h: History) {
    && |v| == PAGE && CleanLines(h) && RowOf(h, y) && x == |Last(h)| % COLS
    && (forall r, c :: 0 <= r < ROWS && 0 <= c < COLS ==> Cell(v, r, c) == RowShown(h, y, r)[c])
    && (forall r, c :: 0 <= r < ROWS && 0 <= c < COLS ==> Attr(v, r, c) == ATTRIB)
  }

  /** Row 24 stays blank, and no cell holds a byte that `putc` would take for a line break. */
  lemma ShowsMeans(v: seq<byte>, x: int, y: int, h: History)
    requires Shows(v, x, y, h)
    ensures |v| == PAGE && 0 <= x < COLS && 0 <= y < ROWS
    ensures forall r, c :: r == ROWS - 1 && 0 <= c < COLS ==> Cell(v, r, c) == SPACE
    ensures forall r, c :: 0 <= r < ROWS && 0 <= c < COLS ==> Clean(Cell(v, r, c))
  {
    forall r, c | 0 <= r < ROWS && 0 <= c < COLS ensures Clean(Cell(v, r, c)) {
      if r <= y { OverlayClean(h[|h| - 1 - y + r], c); }
    }
  }

  /** Byte by byte: the cursor row shows the last line and the rows above it those before; column `c`
      of a row shows the last byte of its line at a position congruent to `c`, on the fixed
      attribute. */
  lemma ShowsLines(v: seq<byte>, x: int, y: int, h: History, r: nat, c: nat)
    requires Shows(v, x, y, h) && r <= y && c < 80
    ensures y <= 24 && y < |h| && (y == |h| - 1 || y >= 23)
    ensures |v| == 4096 && v[2 * (80 * r + c) + 1] == 7
    ensures var line := h[|h| - 1 - (y - r)];
      && (|line| <= c ==> v[2 * (80 * r + c)] == 32)
      && (forall i :: 0 <= i < |line| <= i + 80 && i % 80 == c ==> v[2 * (80 * r + c)] == line[i])
  {
    hide Overlay, CleanLines;
    var line := h[|h| - 1 - (y - r)];
    OverlayMeans(line, c);
    assert Cell(v, r, c) == RowShown(h, y, r)[c] == Overlay(line)[c];
    assert Attr(v, r, c) == ATTRIB;
  }

  // ------------------------------------------------------------ scrolling

  /** The saved copy of the screen, with spaces for its last row. */
  function Kept(v: seq<byte>, r: nat, c: nat): byte
    requires |v| == PAGE && r < ROWS && c < COLS
  {
    if r < ROWS - 1 then Cell(v, r, c) else SPACE
  }

  /** `w` is `v` with rows 1 .. i-1, and `j` columns of row `i`, copied one row up. */
  ghost predicate Lifted(w: seq<byte>, v: seq<byte>, i: nat, j: nat) {
    && |v| == |w| == PAGE && 1 <= i && i + (if j > 0 then 1 else 0) <= ROWS
    && SameTail(v, w)
    && (forall r, c :: 0 <= r < ROWS && 0 <= c < COLS ==>
      Cell(w, r, c) == (if r < i - 1 || (r == i - 1 && c < j) then Kept(v, r + 1, c) else Cell(v, r, c)))
    && (forall r, c :: 0 <= r < ROWS && 0 <= c < COLS ==>
      Attr(w, r, c) == (if r < i - 1 || (r == i - 1 && c < j) then ATTRIB else Attr(v, r, c)))
  }

  lemma LiftNone(v: seq<byte>)
    requires |v| == PAGE
    ensures Lifted(v, v, 1, 0)
  {
  }

  lemma LiftOne(w: seq<byte>, v: seq<byte>, i: nat, j: nat)
    requires Lifted(w, v, i, j) && i < ROWS && j < COLS
    ensures Lifted(Draw(w, i - 1, j, Kept(v, i, j)), v, i, j + 1)
  {
    hide Cell, Attr, Draw, SameTail;
    DrawCells(w, i - 1, j, Kept(v, i, j));
    TailAgain(v, w, Draw(w, i - 1, j, Kept(v, i, j)));
  }

  lemma TailAgain(u: seq<byte>, v: seq<byte>, w: seq<byte>)
    requires |u| == |v| == |w| == PAGE && SameTail(u, v) && SameTail(v, w)
    ensures SameTail(u, w)
  {
  }

  lemma LiftRow(w: seq<byte>, v: seq<byte>, i: nat)
    requires Lifted(w, v, i, COLS)
    ensures Lifted(w, v, i + 1, 0)
  {
  }

  lemma ScrollShows(w: seq<byte>, v: seq<byte>, x: int, h: History)
    requires Shows(v, x, ROWS - 1, h) && Lifted(w, v, ROWS, 0)
    ensures Shows(w, 0, ROWS - 2, h)
  {
    hide Cell, Attr, Lifted, CleanLines, RowShown;
    forall r, c | 0 <= r < ROWS && 0 <= c < COLS
      ensures |RowShown(h, ROWS - 2, r)| == COLS && |w| == PAGE && Cell(w, r, c) == RowShown(h, ROWS - 2, r)[c] && Attr(w, r, c) == ATTRIB
    {
      ScrolledCell(w, v, x, h, r, c);
    }
    ScrolledCell(w, v, x, h, 0, 0);
  }

  lemma ScrolledCell(w: seq<byte>, v: seq<byte>, x: int, h: History, r: nat, c: nat)
    requires Shows(v, x, ROWS - 1, h) && Lifted(w, v, ROWS, 0) && r < ROWS && c < COLS
    ensures |w| == PAGE && |h| >= ROWS
    ensures |RowShown(h, ROWS - 2, r)| == COLS
    ensures Cell(w, r, c) == RowShown(h, ROWS - 2, r)[c] && Attr(w, r, c) == ATTRIB
  {
    hide Cell, Attr, SameTail, Overlay, CleanLines;
    OverlayNone();
    var r' := if r + 1 < ROWS then r + 1 else r;
    assert Cell(v, r', c) == RowShown(h, ROWS - 1, r')[c];
    assert Attr(v, r, c) == ATTRIB;
  }

  lemma ClearedShows(v: seq<byte>)
    requires |v| == PAGE
    requires forall r, c :: 0 <= r < ROWS && 0 <= c < COLS ==> Cell(v, r, c) == SPACE && Attr(v, r, c) == ATTRIB
    ensures Shows(v, 0, 0, [[]])
  {
  }

  lemma BreakShows(v: seq<byte>, x: int, y: int, h: History)
    requires Shows(v, x, y, h) && y < ROWS - 1
    ensures Shows(v, 0, y + 1, h + [[]])
  {
    var h' := h + [[]];
    forall r, c | 0 <= r < ROWS && 0 <= c < COLS ensures Cell(v, r, c) == RowShown(h', y + 1, r)[c] {
    }
  }

  lemma DrawShows(v: seq<byte>, x: int, y: int, h: History, ch: byte)
    requires Shows(v, x, y, h) && y < ROWS - 1 && Clean(ch)
    ensures Shows(Draw(v, y, x, ch), (x + 1) % COLS, y, Type(h, ch))
  {
    hide Overlay, Draw, Cell, Attr, SameTail, Type, CleanLines;
    var h', w := Type(h, ch), Draw(v, y, x, ch);
    TypedLine(h, ch);
    DrawCells(v, y, x, ch);
    OverlaySnoc(Last(h), ch);
    NextColumn(|Last(h)|);
    forall r, c | 0 <= r < ROWS && 0 <= c < COLS ensures Cell(w, r, c) == RowShown(h', y, r)[c] {
      assert r != y ==> RowShown(h', y, r) == RowShown(h, y, r);
    }
  }

  lemma TypedLine(h: History, ch: byte)
    requires CleanLines(h) && Clean(ch)
    ensures var h' := Type(h, ch);
      && |h'| == |h| && Last(h') == Last(h) + [ch] && CleanLines(h')
      && forall i :: 0 <= i < |h| - 1 ==> h'[i] == h[i]
  {
  }

  lemma NextColumn(n: nat)
    ensures (n + 1) % COLS == (n % COLS + 1) % COLS
  {
  }

  lemma TypedByte(h: History, ch: byte)
    ensures ch == NUL ==> Type(h, ch) == h
    ensures Breaks(ch) ==> Type(h, ch) == h + [[]]
  {
  }

  // ------------------------------------------------------------ the screen

  class Screen {
    const video: array<byte>
    var x: int
    var y: int

    ghost predicate Valid()
      reads this
    {
      video.Length == PAGE && 0 <= x < COLS && 0 <= y < ROWS
    }

    constructor (vmem: array<byte>)
      requires vmem.Length == PAGE
      ensures video == vmem && x == 0 && y == 0
    {
      video := vmem;
      x, y := 0, 0;
    }

    method SetCursor(x': int, y': int)
      modifies this
      ensures x == x' && y == y'
    {
      x, y := x', y';
    }

    method PutChar(ch: byte)
      requires Valid()
      modifies this, video
      ensures video[..] == if Breaks(ch) then old(video[..]) else Draw(old(video[..]), old(y), old(x), ch)
      ensures if Breaks(ch) then y == old(y) + 1 && x == 0 else y == old(y) && x == (old(x) + 1) % COLS
    {
      if ch == NEWLINE || ch == RETURN {
        y := y + 1;
        x := 0;
      } else {
        video[2 * (COLS * y + x)] := ch;
        video[2 * (COLS * y + x) + 1] := ATTRIB;
        x := x + 1;
        x := x % COLS;
        y := (y + x / COLS) % ROWS;
      }
    }

    method Clear()
      requires video.Length == PAGE
      modifies video
      ensures forall r, c :: 0 <= r < ROWS && 0 <= c < COLS ==>
        Cell(video[..], r, c) == SPACE && Attr(video[..], r, c) == ATTRIB
      ensures SameTail(old(video[..]), video[..])
    {
      var i := 0;
      while i < ROWS * COLS
        invariant 0 <= i <= ROWS * COLS
        invariant forall k :: 0 <= k < 2 * i ==> video[k] == if k % 2 == 0 then SPACE else ATTRIB
        invariant forall k :: 2 * i <= k < PAGE ==> video[k] == old(video[k])
      {
        video[2 * i] := SPACE;
        video[2 * i + 1] := ATTRIB;
        i := i + 1;
      }
    }

    /** `clear()` and the cursor in the corner: an empty history. */
    method ClearAndHome()
      requires video.Length == PAGE
      modifies this, video
      ensures Shows(video[..], x, y, [[]])
    {
      Clear();
      SetCursor(0, 0);
      ClearedShows(video[..]);
    }

    /** Copies the screen aside (its last row as spaces) and puts rows 1..24 back one higher. */
    method Scroll()
      requires Valid()
      requires forall r, c :: 0 <= r < ROWS && 0 <= c < COLS ==> Clean(Cell(video[..], r, c))
      modifies this, video
      ensures x == 0 && y == ROWS - 2
      ensures Lifted(video[..], old(video[..]), ROWS, 0)
    {
      ghost var v := video[..];
      var hist := SaveRows();
      LiftNone(v);
      var i := 1;
      while i < ROWS
        invariant 1 <= i <= ROWS && video.Length == PAGE
        invariant Lifted(video[..], v, i, 0)
        invariant forall r, c :: 0 <= r < ROWS && 0 <= c < COLS ==> hist[r, c] == Kept(v, r, c)
      {
        PutRow(hist, i, v);
        i := i + 1;
      }
      SetCursor(0, ROWS - 2);
    }

    method SaveRows() returns (hist: array2<byte>)
      requires video.Length == PAGE
      ensures fresh(hist) && hist.Length0 == ROWS && hist.Length1 == COLS
      ensures forall r, c :: 0 <= r < ROWS && 0 <= c < COLS ==> hist[r, c] == Kept(video[..], r, c)
    {
      hist := new byte[ROWS, COLS];
      var i := 0;
      while i < ROWS
        invariant 0 <= i <= ROWS
        invariant forall r, c :: 0 <= r < i && 0 <= c < COLS ==> hist[r, c] == Kept(video[..], r, c)
      {
        var j := 0;
        while j < COLS
          invariant 0 <= j <= COLS
          invariant forall r, c :: 0 <= r < i && 0 <= c < COLS ==> hist[r, c] == Kept(video[..], r, c)
          invariant forall c :: 0 <= c < j ==> hist[i, c] == Kept(video[..], i, c)
        {
          hist[i, j] := video[2 * (COLS * i + j)];
          if i >= ROWS - 1 {
            hist[i, j] := SPACE;
          }
          j := j + 1;
        }
        i := i + 1;
      }
    }

    /** Writes saved row `i` on screen row `i - 1`. */
    method PutRow(hist: array2<byte>, i: nat, ghost v: seq<byte>)
      requires video.Length == PAGE && hist.Length0 == ROWS && hist.Length1 == COLS
      requires 1 <= i < ROWS && Lifted(video[..], v, i, 0)
      requires forall r, c :: 0 <= r < ROWS && 0 <= c < COLS ==>
        hist[r, c] == Kept(v, r, c) && Clean(hist[r, c])
      modifies this, video
      ensures Lifted(video[..], v, i + 1, 0)
    {
      hide Lifted, Draw, Kept;
      SetCursor(0, i - 1);
      var j := 0;
      while j < COLS
        invariant 0 <= j <= COLS && x == j % COLS && y == i - 1
        invariant Lifted(video[..], v, i, j)
      {
        LiftOne(video[..], v, i, j);
        PutChar(hist[i, j]);
        j := j + 1;
      }
      LiftRow(video[..], v, i);
    }

    /** `write_helper`: `h` is the history the screen shows before the call. */
    method WriteHelper(text: seq<byte>, length: int, ghost h: History) returns (ok: bool)
      requires length <= |text|
      requires Shows(video[..], x, y, h)
      modifies this, video
      ensures ok <==> length >= 0
      ensures Shows(video[..], x, y, if ok then TypeAll(h, text[..length]) else h)
    {
      if length < 0 {
        return false;
      }
      hide Shows, Type;
      ghost var now := h;
      var k := 0;
      while k < length
        invariant 0 <= k <= length && now == TypeAll(h, text[..k])
        invariant Shows(video[..], x, y, now)
      {
        assert text[..k + 1][..k] == text[..k];
        WriteByte(text[k], now);
        now := Type(now, text[k]);
        k := k + 1;
      }
      SetCursor(x, y);
      return true;
    }

    method WriteByte(ch: byte, ghost h: History)
      requires Shows(video[..], x, y, h)
      modifies this, video
      ensures Shows(video[..], x, y, Type(h, ch))
    {
      hide Shows, Lifted, Draw, Type;
      ShowsMeans(video[..], x, y, h);
      TypedByte(h, ch);
      ghost var v, x0 := video[..], x;
      if y >= ROWS - 1 {
        Scroll();
        ScrollShows(video[..], v, x0, h);
      }
      ghost var w, x1, y1 := video[..], x, y;
      if ch == NUL {
      } else if ch == NEWLINE {
        BreakShows(w, x1, y1, h);
        SetCursor(0, y + 1);
      } else {
        if ch == RETURN { BreakShows(w, x1, y1, h); } else { DrawShows(w, x1, y1, h, ch); }
        PutChar(ch);
      }
      // The column read on entry is below 80, so the end-of-line test after this never fires.
      assert x0 < COLS;
    }
  }
}
