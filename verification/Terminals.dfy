/** Terminal switching (student-distrib/terminal.c): three save areas at 6 MB and one live
    screen stand for three independent screens. */
module Terminals {
  import opened Machine
  import opened Buffers
  import opened ConsoleSpec
  import opened Console

  const TERMINALS := 3
  const LINE := 128
  const BACKSPACE: byte := 8

  /** Offsets from 6 MB. The casts apply before the additions, so TERM2 and TERM3 are
      scaled by the size of a 32-bit word and the program staging area is not. */
  const STAGE := 0x5000
  const REGION := 0x20_0000

  function SaveArea(t: nat): nat {
    4 * PAGE * t
  }

  // ------------------------------------------------------------ the line buffer

  function NoLine(): (s: seq<byte>)
    ensures |s| == LINE
  {
    seq(LINE, _ => NUL)
  }

  /** A line buffer and how far it is filled. */
  datatype Entry = Entry(line: seq<byte>, count: nat) {
    ghost predicate Valid() {
      |line| == LINE && count < LINE
    }
  }

  /** What `keyboard_read` does to the line buffer for one key. `blocked` says that the cursor is
      in the last column or, for a backspace, right behind the prompt. */
  function Pressed(e: Entry, ch: byte, blocked: bool): (r: Entry)
    requires e.Valid()
    ensures r.Valid()
  {
    if ch == NEWLINE then Entry(e.line[e.count := ch], 0)
    else if blocked then e
    else if ch == BACKSPACE then
      if e.count == 0 then e else Entry(e.line[e.count - 1 := NUL], e.count - 1)
    else if 32 <= ch <= 126 && e.count < LINE - 1 then Entry(e.line[e.count := ch], e.count + 1)
    else e
  }

  /** The unblocked keys `keys`, one after the other. */
  function PressAll(e: Entry, keys: seq<byte>): (r: Entry)
    requires e.Valid()
    ensures r.Valid()
    decreases |keys|
  {
    if keys == [] then e else Pressed(PressAll(e, keys[..|keys| - 1]), keys[|keys| - 1], false)
  }

  /** The text a user has typed since the last newline: a backspace takes back the last character
      left, a printable key adds one while there are fewer than 127, other keys do nothing. */
  function Typed(keys: seq<byte>): (text: seq<byte>)
    ensures |text| <= 127
    decreases |keys|
  {
    if keys == [] then []
    else
      var text, ch := Typed(keys[..|keys| - 1]), keys[|keys| - 1];
      if ch == 10 then []
      else if ch == 8 then (if text == [] then [] else text[..|text| - 1])
      else if 32 <= ch <= 126 && |text| < 127 then text + [ch]
      else text
  }

  /** Any keys on a cleared line: the filled part is the text typed, and as long as there was no
      newline everything behind it is NUL. */
  lemma {:induction false} KeysType(keys: seq<byte>)
    ensures var e, text := PressAll(Entry(NoLine(), 0), keys), Typed(keys);
      && e.count == |text| && (forall i :: 0 <= i < |text| ==> e.line[i] == text[i])
      && ((forall k :: 0 <= k < |keys| ==> keys[k] != 10) ==> forall i :: |text| <= i < 128 ==> e.line[i] == 0)
    decreases |keys|
  {
    if keys != [] {
      KeysType(keys[..|keys| - 1]);
    }
  }

  /** The newline that ends a line: the buffer then starts with the text typed and that newline,
      and the next key goes to its front. */
  lemma LineEntered(keys: seq<byte>)
    ensures var e, text := PressAll(Entry(NoLine(), 0), keys + [10]), Typed(keys);
      e.count == 0 && e.line[..|text| + 1] == text + [10]
  {
    hide PressAll, Typed;
    KeysType(keys);
    assert (keys + [10])[..|keys|] == keys;
    PressedLast(Entry(NoLine(), 0), keys, 10);
  }

  lemma PressedLast(e: Entry, keys: seq<byte>, ch: byte)
    requires e.Valid()
    ensures PressAll(e, keys + [ch]) == Pressed(PressAll(e, keys), ch, false)
  {
    assert (keys + [ch])[..|keys|] == keys;
  }

  // ------------------------------------------------------------ three terminals, one fill count

  /** What the terminals hold. They count from 0; the fill count is shared by all of them. */
  datatype Desk = Desk(cur: nat, open: seq<bool>, hist: seq<History>, line: seq<seq<byte>>, counter: nat) {
    ghost predicate Valid() {
      && |open| == |hist| == |line| == TERMINALS && cur < TERMINALS && open[cur] && counter < LINE
      && forall t :: 0 <= t < TERMINALS ==> |line[t]| == LINE
    }
  }

  datatype Op =
    | Write(text: seq<byte>)
    | Key(ch: byte, blocked: bool)
    | Switch(t: nat)
    | Stage(image: seq<byte>)

  predicate Sensible(op: Op) {
    match op
    case Write(_) => true
    case Key(_, _) => true
    case Switch(t) => t < TERMINALS
    case Stage(image) => |image| <= SaveArea(2) - STAGE
  }

  ghost function DeskStep(d: Desk, op: Op): (r: Desk)
    requires d.Valid() && Sensible(op)
    ensures r.Valid()
  {
    match op
    case Write(text) => d.(hist := d.hist[d.cur := TypeAll(d.hist[d.cur], text)])
    case Key(ch, blocked) =>
      var e := Pressed(Entry(d.line[d.cur], d.counter), ch, blocked);
      d.(line := d.line[d.cur := e.line], counter := e.count)
    case Switch(t) =>
      if d.open[t] then d.(cur := t)
      else Desk(t, d.open[t := true], d.hist[t := [[]]], d.line[t := NoLine()], 0)
    case Stage(_) => d
  }

  ghost function DeskRun(d: Desk, ops: seq<Op>): (r: Desk)
    requires d.Valid() && forall i :: 0 <= i < |ops| ==> Sensible(ops[i])
    ensures r.Valid()
    decreases |ops|
  {
    if ops == [] then d else DeskStep(DeskRun(d, ops[..|ops| - 1]), ops[|ops| - 1])
  }

  /** The bytes written while terminal `t` was on display. */
  ghost function WrittenTo(d: Desk, ops: seq<Op>, t: nat): seq<byte>
    requires d.Valid() && forall i :: 0 <= i < |ops| ==> Sensible(ops[i])
    decreases |ops|
  {
    if ops == [] then []
    else
      var front, op := ops[..|ops| - 1], ops[|ops| - 1];
      WrittenTo(d, front, t) + if op.Write? && DeskRun(d, front).cur == t then op.text else []
  }

  /** An open terminal's history is what was written while it was on display, and no more. */
  lemma {:induction false} OwnHistory(d: Desk, ops: seq<Op>, t: nat)
    requires d.Valid() && forall i :: 0 <= i < |ops| ==> Sensible(ops[i])
    requires t < TERMINALS && d.open[t]
    ensures DeskRun(d, ops).open[t]
    ensures DeskRun(d, ops).hist[t] == TypeAll(d.hist[t], WrittenTo(d, ops, t))
    decreases |ops|
  {
    hide DeskStep, TypeAll;
    if ops != [] {
      var front, op := ops[..|ops| - 1], ops[|ops| - 1];
      OwnHistory(d, front, t);
      HistoryStep(DeskRun(d, front), op, t);
      if op.Write? && DeskRun(d, front).cur == t {
        TypeAllSplit(d.hist[t], WrittenTo(d, front, t), op.text);
      } else {
        assert WrittenTo(d, front, t) + [] == WrittenTo(d, front, t);
      }
    } else {
      TypeNothing(d.hist[t]);
    }
  }

  lemma HistoryStep(d: Desk, op: Op, t: nat)
    requires d.Valid() && Sensible(op) && t < TERMINALS && d.open[t]
    ensures var r := DeskStep(d, op);
      r.open[t] && r.hist[t] == if op.Write? && d.cur == t then TypeAll(d.hist[t], op.text) else d.hist[t]
  {
    hide Pressed, TypeAll;
  }

  lemma TypeNothing(h: History)
    ensures TypeAll(h, []) == h
  {
  }

  function KeyOps(keys: seq<byte>): (ops: seq<Op>)
    ensures |ops| == |keys| && forall i :: 0 <= i < |keys| ==> ops[i] == Key(keys[i], false)
  {
    seq(|keys|, i requires 0 <= i < |keys| => Key(keys[i], false))
  }

  /** Keys go to the terminal on display, and to no other. */
  lemma {:induction false} KeysOnDisplay(d: Desk, keys: seq<byte>)
    requires d.Valid()
    ensures var r, e := DeskRun(d, KeyOps(keys)), PressAll(Entry(d.line[d.cur], d.counter), keys);
      && r.cur == d.cur && r.open == d.open && r.hist == d.hist
      && r.line == d.line[d.cur := e.line] && r.counter == e.count
    decreases |keys|
  {
    hide Pressed;
    if keys != [] {
      var front := keys[..|keys| - 1];
      KeysOnDisplay(d, front);
      assert KeyOps(keys)[..|keys| - 1] == KeyOps(front);
    } else {
      assert d.line[d.cur := d.line[d.cur]] == d.line;
    }
  }

  // ------------------------------------------------------------ three fill counts

  /** Three separate terminals, each with a line buffer and a fill count of its own. */
  datatype Own = Own(cur: nat, open: seq<bool>, entry: seq<Entry>) {
    ghost predicate Valid() {
      && |open| == |entry| == TERMINALS && cur < TERMINALS && open[cur]
      && forall t :: 0 <= t < TERMINALS ==> entry[t].Valid()
    }
  }

  ghost function OwnStep(o: Own, op: Op): (r: Own)
    requires o.Valid() && Sensible(op)
    ensures r.Valid()
  {
    match op
    case Write(_) => o
    case Key(ch, blocked) => o.(entry := o.entry[o.cur := Pressed(o.entry[o.cur], ch, blocked)])
    case Switch(t) =>
      if o.open[t] then o.(cur := t)
      else Own(t, o.open[t := true], o.entry[t := Entry(NoLine(), 0)])
    case Stage(_) => o
  }

  ghost function OwnRun(o: Own, ops: seq<Op>): (r: Own)
    requires o.Valid() && forall i :: 0 <= i < |ops| ==> Sensible(ops[i])
    ensures r.Valid()
    decreases |ops|
  {
    if ops == [] then o else OwnStep(OwnRun(o, ops[..|ops| - 1]), ops[|ops| - 1])
  }

  /** Same buffers, and the shared count is that of the terminal on display. */
  ghost predicate InStep(d: Desk, o: Own)
    requires d.Valid() && o.Valid()
  {
    && d.cur == o.cur && d.open == o.open && d.counter == o.entry[o.cur].count
    && forall t :: 0 <= t < TERMINALS ==> d.line[t] == o.entry[t].line
  }

  /** A switch between two open terminals that are not filled equally far. */
  ghost predicate Lossy(o: Own, op: Op)
    requires o.Valid() && Sensible(op)
  {
    op.Switch? && o.open[op.t] && o.entry[op.t].count != o.entry[o.cur].count
  }

  /** The shared count serves exactly until a lossy switch: back on an open terminal the live
      count is that terminal's own exactly when the terminal left was filled equally far. */
  lemma InStepIff(d: Desk, o: Own, op: Op)
    requires d.Valid() && o.Valid() && Sensible(op) && InStep(d, o)
    ensures InStep(DeskStep(d, op), OwnStep(o, op)) <==> !Lossy(o, op)
    ensures op.Switch? && d.open[op.t] ==>
      (DeskStep(d, op).counter == o.entry[op.t].count <==> o.entry[op.t].count == o.entry[d.cur].count)
  {
    hide Pressed, TypeAll;
    if op.Key? {
      assert Entry(d.line[d.cur], d.counter) == o.entry[o.cur];
    }
  }

  /** Out of step, a printable key lands at the wrong place: the buffer on display becomes what
      the terminal's own would be only if both places hold that key already. */
  lemma KeyMisplaced(e: Entry, counter: nat, ch: byte)
    requires e.Valid() && counter < LINE - 1 && counter != e.count < LINE - 1 && 32 <= ch <= 126
    ensures Pressed(Entry(e.line, counter), ch, false).line == Pressed(e, ch, false).line
      <==> e.line[counter] == ch && e.line[e.count] == ch
  {
    var live, own := e.line[counter := ch], e.line[e.count := ch];
    if e.line[counter] == ch && e.line[e.count] == ch {
      assert live == e.line && own == e.line;
    } else {
      assert live[counter] == ch && live[e.count] == e.line[e.count];
      assert own[e.count] == ch && own[counter] == e.line[counter];
    }
  }

  ghost predicate InStepThroughout(d: Desk, o: Own, ops: seq<Op>)
    requires d.Valid() && o.Valid() && forall i :: 0 <= i < |ops| ==> Sensible(ops[i])
  {
    forall i :: 0 <= i <= |ops| ==> InStep(DeskRun(d, ops[..i]), OwnRun(o, ops[..i]))
  }

  ghost predicate NeverLossy(o: Own, ops: seq<Op>)
    requires o.Valid() && forall i :: 0 <= i < |ops| ==> Sensible(ops[i])
  {
    forall i :: 0 <= i < |ops| ==> !Lossy(OwnRun(o, ops[..i]), ops[i])
  }

  lemma RunStep(d: Desk, o: Own, ops: seq<Op>, i: nat)
    requires d.Valid() && o.Valid() && (forall k :: 0 <= k < |ops| ==> Sensible(ops[k])) && i < |ops|
    ensures DeskRun(d, ops[..i + 1]) == DeskStep(DeskRun(d, ops[..i]), ops[i])
    ensures OwnRun(o, ops[..i + 1]) == OwnStep(OwnRun(o, ops[..i]), ops[i])
  {
    assert ops[..i + 1][..i] == ops[..i];
  }

  /** The shared count serves three terminals all through a run exactly when no switch is lossy. */
  lemma RunInStepIff(d: Desk, o: Own, ops: seq<Op>)
    requires d.Valid() && o.Valid() && (forall i :: 0 <= i < |ops| ==> Sensible(ops[i])) && InStep(d, o)
    ensures InStepThroughout(d, o, ops) <==> NeverLossy(o, ops)
  {
    hide DeskRun, OwnRun, InStep, DeskStep, OwnStep, Lossy;
    if NeverLossy(o, ops) {
      forall i | 0 <= i <= |ops| ensures InStep(DeskRun(d, ops[..i]), OwnRun(o, ops[..i])) {
        StaysInStep(d, o, ops, i);
      }
    } else if InStepThroughout(d, o, ops) {
      var i :| 0 <= i < |ops| && Lossy(OwnRun(o, ops[..i]), ops[i]);
      RunStep(d, o, ops, i);
      InStepIff(DeskRun(d, ops[..i]), OwnRun(o, ops[..i]), ops[i]);
      assert false;
    }
  }

  lemma {:induction false} StaysInStep(d: Desk, o: Own, ops: seq<Op>, i: nat)
    requires d.Valid() && o.Valid() && (forall k :: 0 <= k < |ops| ==> Sensible(ops[k])) && i <= |ops|
    requires InStep(d, o) && NeverLossy(o, ops)
    ensures InStep(DeskRun(d, ops[..i]), OwnRun(o, ops[..i]))
    decreases i
  {
    hide DeskRun, OwnRun, InStep, DeskStep, OwnStep, Lossy;
    if i > 0 {
      StaysInStep(d, o, ops, i - 1);
      RunStep(d, o, ops, i - 1);
      InStepIff(DeskRun(d, ops[..i - 1]), OwnRun(o, ops[..i - 1]), ops[i - 1]);
    } else {
      RunNone(d, o, ops);
    }
  }

  /** A failing run: type "a", open the second terminal, come back and type "b". The first
      terminal's line is then "b", not "ab". */
  lemma CountLost(d: Desk, o: Own)
    requires d.Valid() && o.Valid() && InStep(d, o)
    requires d.cur == 0 && d.open == [true, false, false] && d.counter == 0
    ensures var ops := [Key(97, false), Switch(1), Switch(0), Key(98, false)];
      && DeskRun(d, ops).counter == 1 && OwnRun(o, ops).entry[0].count == 2
      && DeskRun(d, ops).line[0] == d.line[0][0 := 98]
      && OwnRun(o, ops).entry[0].line == d.line[0][0 := 97][1 := 98]
  {
    hide DeskRun, OwnRun, DeskStep, OwnStep;
    var ops := [Key(97, false), Switch(1), Switch(0), Key(98, false)];
    RunNone(d, o, ops);
    RunStep(d, o, ops, 0);
    RunStep(d, o, ops, 1);
    RunStep(d, o, ops, 2);
    RunStep(d, o, ops, 3);
    assert ops[..4] == ops;
    CountLostSteps(d, o);
  }

  lemma RunNone(d: Desk, o: Own, ops: seq<Op>)
    requires d.Valid() && o.Valid() && forall k :: 0 <= k < |ops| ==> Sensible(ops[k])
    ensures DeskRun(d, ops[..0]) == d && OwnRun(o, ops[..0]) == o
  {
  }

  lemma CountLostSteps(d: Desk, o: Own)
    requires d.Valid() && o.Valid() && InStep(d, o)
    requires d.cur == 0 && d.open == [true, false, false] && d.counter == 0
    ensures
      var d4 := DeskStep(DeskStep(DeskStep(DeskStep(d, Key(97, false)), Switch(1)), Switch(0)), Key(98, false));
      var o4 := OwnStep(OwnStep(OwnStep(OwnStep(o, Key(97, false)), Switch(1)), Switch(0)), Key(98, false));
      && d4.counter == 1 && o4.entry[0].count == 2
      && d4.line[0] == d.line[0][0 := 98] && o4.entry[0].line == d.line[0][0 := 97][1 := 98]
  {
    assert d.line[0][0 := 97][0 := 98] == d.line[0][0 := 98];
  }

  // ------------------------------------------------------------ the save areas

  ghost function PageAt(mem: seq<byte>, t: nat): (p: seq<byte>)
    requires t < TERMINALS && |mem| == REGION
    ensures |p| == PAGE
  {
    mem[SaveArea(t)..SaveArea(t) + PAGE]
  }

  lemma SaveKeepsOthers(mem: seq<byte>, t: nat, page: seq<byte>)
    requires |mem| == REGION && t < TERMINALS && |page| == PAGE
    ensures PageAt(Put(mem, SaveArea(t), page), t) == page
    ensures forall u :: 0 <= u < TERMINALS && u != t ==>
      PageAt(Put(mem, SaveArea(t), page), u) == PageAt(mem, u)
  {
  }

  /** Staging a program of `n` bytes leaves every save area alone, whatever the bytes. */
  ghost predicate StagingSafe(n: nat)
    requires n <= REGION - STAGE
  {
    forall mem: seq<byte>, image: seq<byte>, t: nat :: |mem| == REGION && |image| == n && t < TERMINALS ==>
      PageAt(Put(mem, STAGE, image), t) == PageAt(mem, t)
  }

  lemma StageKeepsPages(mem: seq<byte>, image: seq<byte>, t: nat)
    requires |mem| == REGION && t < TERMINALS && |image| <= SaveArea(2) - STAGE
    ensures PageAt(Put(mem, STAGE, image), t) == PageAt(mem, t)
  {
  }

  /** Exactly the programs of at most 0x3000 bytes. */
  lemma StagingSafeIff(n: nat)
    requires n <= REGION - STAGE
    ensures StagingSafe(n) <==> n <= 0x3000
  {
    if n <= 0x3000 {
      forall mem: seq<byte>, image: seq<byte>, t: nat | |mem| == REGION && |image| == n && t < TERMINALS
        ensures PageAt(Put(mem, STAGE, image), t) == PageAt(mem, t)
      {
        StageKeepsPages(mem, image, t);
      }
    } else {
      var mem: seq<byte> := seq(REGION, _ => 0);
      var image: seq<byte> := seq(n, _ => 1);
      assert PageAt(Put(mem, STAGE, image), 2)[0] == Put(mem, STAGE, image)[SaveArea(2)] == 1;
      assert PageAt(mem, 2)[0] == 0;
    }
  }

  // ------------------------------------------------------------ the kernel's terminals

  /** A terminal as it can be put back on display. */
  datatype View = View(page: seq<byte>, x: int, y: int, line: seq<byte>)

  class Multiplexer {
    const screen: Screen
    const mem: array<byte>
    const textBuf: array<byte>
    var counter: nat
    var cur: nat
    var isOpen: seq<bool>
    var posX: seq<int>
    var posY: seq<int>
    var lineBuf: seq<seq<byte>>
    ghost var desk: Desk

    ghost predicate Shaped()
      reads this, screen
    {
      && screen.video.Length == PAGE && mem.Length == REGION && textBuf.Length == LINE
      && screen.video != mem && screen.video != textBuf && mem != textBuf
      && cur < TERMINALS && |isOpen| == |posX| == |posY| == |lineBuf| == TERMINALS
      && forall t :: 0 <= t < TERMINALS ==> |lineBuf[t]| == LINE
    }

    ghost function ViewOf(t: nat): View
      requires Shaped() && t < TERMINALS
      reads this, screen, screen.video, mem, textBuf
    {
      if t == cur then View(screen.video[..], screen.x, screen.y, textBuf[..])
      else Stored(t)
    }

    ghost function Stored(t: nat): View
      requires Shaped() && t < TERMINALS
      reads this, screen, mem
    {
      View(PageAt(mem[..], t), posX[t], posY[t], lineBuf[t])
    }

    /** Every open terminal, on display or saved, is the one on the desk. */
    ghost predicate Valid()
      reads this, screen, screen.video, mem, textBuf
    {
      && Shaped() && desk.Valid() && desk.cur == cur && desk.open == isOpen && desk.counter == counter
      && forall t :: 0 <= t < TERMINALS && isOpen[t] ==> Agrees(ViewOf(t), desk.hist[t], desk.line[t])
    }

    /** Boot: the first terminal is on display and cleared, the others have not been opened. */
    constructor (vmem: array<byte>, region: array<byte>)
      requires vmem.Length == PAGE && region.Length == REGION && vmem != region
      modifies vmem
      ensures Valid() && fresh(textBuf) && screen.video == vmem && mem == region
      ensures desk.cur == 0 && desk.open == [true, false, false] && desk.hist[0] == [[]]
      ensures desk.counter == 0 && desk.line[0] == NoLine()
    {
      screen := new Screen(vmem);
      mem := region;
      textBuf := new byte[LINE](_ => NUL);
      counter := 0;
      cur := 0;
      isOpen := [true, false, false];
      posX, posY := [0, 0, 0], [0, 0, 0];
      lineBuf := [NoLine(), NoLine(), NoLine()];
      desk := Desk(0, [true, false, false], [[[]], [[]], [[]]], [NoLine(), NoLine(), NoLine()], 0);
      new;
      screen.ClearAndHome();
      assert textBuf[..] == NoLine();
    }

    method SaveCurrent()
      requires Shaped()
      modifies this`posX, this`posY, this`lineBuf, mem
      ensures Shaped()
      ensures forall u :: 0 <= u < TERMINALS ==> Stored(u) == old(ViewOf(u))
    {
      posX := posX[cur := screen.x];
      posY := posY[cur := screen.y];
      lineBuf := lineBuf[cur := textBuf[..]];
      SaveKeepsOthers(mem[..], cur, screen.video[..]);
      CopyIn(mem, SaveArea(cur), screen.video[..]);
    }

    method SaveAndClear()
      requires Shaped()
      modifies this`posX, this`posY, this`lineBuf, screen, screen.video, mem
      ensures Shaped() && Shows(screen.video[..], screen.x, screen.y, [[]])
      ensures forall u :: 0 <= u < TERMINALS ==> Stored(u) == old(ViewOf(u))
    {
      hide Shows, PageAt;
      SaveCurrent();
      screen.ClearAndHome();
    }

    /** `terminal_switch`: open terminals come back byte for byte as they were left. */
    method SwitchTo(t: nat)
      requires Valid() && t < TERMINALS
      modifies this, screen, screen.video, mem, textBuf
      ensures Valid() && desk == DeskStep(old(desk), Switch(t))
      ensures cur == t
      // The fill count of the line buffer is not saved with it.
      ensures counter == if old(isOpen)[t] then old(counter) else 0
      ensures !old(isOpen)[t] ==> forall i :: 0 <= i < 128 ==> textBuf[i] == 0
      ensures forall u :: 0 <= u < TERMINALS && old(isOpen)[u] ==> ViewOf(u) == old(ViewOf(u))
    {
      hide Shows, PageAt, Agrees;
      if cur == t {
        return;
      }
      SaveAndClear();
      cur := t;
      if !isOpen[t] {
        CopyIn(textBuf, 0, NoLine());
        assert textBuf[..] == NoLine();
        AgreesIf(View(screen.video[..], screen.x, screen.y, textBuf[..]), [[]], NoLine());
        counter := 0;
        isOpen := isOpen[t := true];
      } else {
        BringBack(t);
      }
      desk := DeskStep(desk, Switch(t));
    }

    method BringBack(t: nat)
      requires Shaped() && t < TERMINALS
      modifies screen, screen.video, textBuf
      ensures Shaped()
      ensures View(screen.video[..], screen.x, screen.y, textBuf[..]) == Stored(t)
    {
      CopyIn(screen.video, 0, mem[SaveArea(t)..SaveArea(t) + PAGE]);
      assert screen.video[..] == PageAt(mem[..], t);
      screen.SetCursor(posX[t], posY[t]);
      CopyIn(textBuf, 0, lineBuf[t]);
    }

    /** A program on the displayed terminal writes. */
    method WriteText(text: seq<byte>)
      requires Valid()
      modifies this`desk, screen, screen.video
      ensures Valid() && desk == DeskStep(old(desk), Write(text))
    {
      var _ := screen.WriteHelper(text, |text|, desk.hist[cur]);
      assert text[..|text|] == text;
      desk := DeskStep(desk, Write(text));
    }

    /** `keyboard_read`, as far as it touches the line buffer: keys go where the shared count is. */
    method PressKey(ch: byte, blocked: bool)
      requires Valid()
      modifies this`desk, this`counter, textBuf
      ensures Valid() && desk == DeskStep(old(desk), Key(ch, blocked))
      ensures ch == 10 ==> counter == 0 && textBuf[..] == old(textBuf[..])[old(counter) := 10]
      ensures ch == 8 && !blocked && old(counter) > 0 ==>
        counter == old(counter) - 1 && textBuf[..] == old(textBuf[..])[old(counter) - 1 := 0]
      ensures 32 <= ch <= 126 && !blocked && old(counter) < 127 ==>
        counter == old(counter) + 1 && textBuf[..] == old(textBuf[..])[old(counter) := ch]
      ensures ch != 10 && (blocked || (ch == 8 && old(counter) == 0) || (ch != 8 && !(32 <= ch <= 126 && old(counter) < 127))) ==>
        counter == old(counter) && textBuf[..] == old(textBuf[..])
    {
      hide Shows;
      if ch == NEWLINE {
        textBuf[counter] := ch;
        counter := 0;
      } else if blocked {
      } else if ch == BACKSPACE {
        if counter > 0 {
          counter := counter - 1;
          textBuf[counter] := NUL;
        }
      } else if ch >= 32 && ch <= 126 && counter < LINE - 1 {
        textBuf[counter] := ch;
        counter := counter + 1;
      }
      desk := DeskStep(desk, Key(ch, blocked));
    }

    /** The loader stages a program image. */
    method StageImage(image: seq<byte>)
      requires Valid() && Sensible(Stage(image))
      modifies mem
      ensures Valid()
      ensures mem[..] == Put(old(mem[..]), STAGE, image)
      ensures forall t :: 0 <= t < TERMINALS ==> ViewOf(t) == old(ViewOf(t))
    {
      ghost var before := mem[..];
      CopyIn(mem, STAGE, image);
      forall t | 0 <= t < TERMINALS ensures PageAt(mem[..], t) == PageAt(before, t) {
        StageKeepsPages(before, image, t);
      }
    }

    method Perform(op: Op)
      requires Valid() && Sensible(op)
      modifies this, screen, screen.video, mem, textBuf
      ensures Valid() && desk == DeskStep(old(desk), op)
    {
      match op {
        case Write(text) => WriteText(text);
        case Key(ch, blocked) => PressKey(ch, blocked);
        case Switch(t) => SwitchTo(t);
        case Stage(image) => StageImage(image);
      }
    }

    /** Any run: each open terminal shows its own history and has its own line buffer. */
    method Drive(ops: seq<Op>)
      requires Valid() && forall i :: 0 <= i < |ops| ==> Sensible(ops[i])
      modifies this, screen, screen.video, mem, textBuf
      ensures Valid() && desk == DeskRun(old(desk), ops)
      ensures forall t :: 0 <= t < TERMINALS && old(desk).open[t] ==>
        Agrees(ViewOf(t), TypeAll(old(desk).hist[t], WrittenTo(old(desk), ops, t)), desk.line[t])
    {
      ghost var d := desk;
      var i := 0;
      while i < |ops|
        invariant 0 <= i <= |ops| && Valid() && desk == DeskRun(d, ops[..i])
      {
        assert ops[..i + 1][..i] == ops[..i];
        Perform(ops[i]);
        i := i + 1;
      }
      assert ops[..i] == ops;
      forall t | 0 <= t < TERMINALS && d.open[t]
        ensures Agrees(ViewOf(t), TypeAll(d.hist[t], WrittenTo(d, ops, t)), desk.line[t])
      {
        OwnHistory(d, ops, t);
      }
    }
  }

  lemma AgreesIf(v: View, h: History, line: seq<byte>)
    requires Shows(v.page, v.x, v.y, h) && v.line == line
    ensures Agrees(v, h, line)
  {
  }

  ghost predicate Agrees(v: View, h: History, line: seq<byte>) {
    Shows(v.page, v.x, v.y, h) && v.line == line
  }
}
