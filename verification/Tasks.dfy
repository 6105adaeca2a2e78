/** The process table: execute and halt (student-distrib/systemcalls.c), the loader's part in
    them (student-distrib/filesystem.c) and terminal_switch (student-distrib/terminal.c).
    A page directory is named by the pid that owns it, 0 being the kernel's. */
module Tasks {
  import opened Machine

  const MAX_TASKS := 7

  /** The globals these routines share. `slots[p]` is the CR3 saved in the PCB area of `p`,
      `pcbCr3` the one in the current PCB; `rst` and `press` are the shell-restart and
      terminal-key flags; terminals count from 1 and index 0 is unused. */
  datatype State = State(
    tasks: seq<nat>, pc: uint32, cr3: nat, pcbCr3: nat, slots: seq<nat>,
    curTerm: nat, termCr3: seq<nat>, flag: seq<bool>, press: seq<bool>, rst: seq<bool>)

  ghost predicate Shaped(s: State) {
    && |s.tasks| == |s.slots| == MAX_TASKS && s.cr3 < MAX_TASKS
    && |s.termCr3| == |s.flag| == |s.press| == |s.rst| == 4 && 1 <= s.curTerm <= 3
    && (forall p :: 0 <= p < MAX_TASKS ==> s.tasks[p] < MAX_TASKS)
    && (forall p :: 0 <= p < MAX_TASKS ==> s.slots[p] < MAX_TASKS)
    && (forall t :: 0 <= t < 4 ==> s.termCr3[t] < MAX_TASKS)
    && s.pcbCr3 < MAX_TASKS
  }

  // ------------------------------------------------------------ the routines as functions

  /** The search over table entries 1, 4, 5 and 6 (2 and 3 are kept for the other shells). */
  function FreePid(tasks: seq<nat>): nat
    requires |tasks| == MAX_TASKS
  {
    if tasks[1] == 0 then 1 else if tasks[4] == 0 then 4
    else if tasks[5] == 0 then 5 else if tasks[6] == 0 then 6 else MAX_TASKS
  }

  function NewPid(s: State, shell: bool): nat
    requires Shaped(s)
  {
    if s.pc == 0 then 1
    else if shell && s.rst[1] then 1
    else if shell && (s.press[2] || s.rst[2]) then 2
    else if shell && (s.press[3] || s.rst[3]) then 3
    else FreePid(s.tasks)
  }

  function RstAfter(s: State, shell: bool): seq<bool>
    requires Shaped(s)
  {
    if s.pc == 0 then s.rst
    else if shell && s.rst[1] then s.rst[1 := false]
    else if shell && (s.press[2] || s.rst[2]) then s.rst[2 := false]
    else if shell && (s.press[3] || s.rst[3]) then s.rst[3 := false]
    else s.rst
  }

  predicate Counted(p: nat) {
    p == 1 || 4 <= p <= 6
  }

  /** Taking the table entry `p` for the caller's child, loading it and making it current. */
  function Launched(s: State, p: nat, loads: bool): (r: State)
    requires Shaped(s) && 1 <= p < MAX_TASKS
    ensures Shaped(r)
  {
    var me := if s.cr3 == 0 then 1 else s.cr3;
    var s1 := s.(tasks := s.tasks[p := me], slots := if p != 1 then s.slots[me := s.pcbCr3] else s.slots);
    if !loads then s1
    else s1.(cr3 := p, pcbCr3 := p, slots := s1.slots[p := p],
             press := s1.press[2 := false][3 := false],
             pc := if Counted(p) then (s1.pc + 1) % 0x1_0000_0000 else s1.pc)
  }

  /** `execute`. `shell` says the command starts with "shell", `loads` that the loader finds
      an executable file. */
  function Executed(s: State, shell: bool, loads: bool): (r: State)
    requires Shaped(s)
    ensures Shaped(r)
  {
    var p := NewPid(s, shell);
    var s1 := s.(pcbCr3 := s.cr3, rst := RstAfter(s, shell));
    if p == MAX_TASKS then s1 else Launched(s1, p, loads)
  }

  function Decremented(pc: uint32): uint32 {
    (pc + 0xFFFF_FFFF) % 0x1_0000_0000
  }

  /** `halt` of the running process. `loads` is for the shell a halted shell is replaced by. */
  function Halted(s: State, loads: bool): (r: State)
    requires Shaped(s)
    ensures Shaped(r)
  {
    var p := s.cr3;
    if p <= 3 then
      Executed(s.(rst := if p == 0 then s.rst else s.rst[p := true], tasks := s.tasks[p := 0],
                  pc := Decremented(s.pc)), true, loads)
    else
      s.(pc := Decremented(s.pc), tasks := s.tasks[p := 0], cr3 := s.slots[s.tasks[p]])
  }

  /** The terminal key `t`, then `terminal_switch(t)`. */
  function Switched(s: State, t: nat, loads: bool): (r: State)
    requires Shaped(s) && 1 <= t <= 3
    ensures Shaped(r)
  {
    var s0 := if t == 1 then s else s.(press := s.press[t := true]);
    if s.curTerm == t then s0
    else
      var s1 := s0.(termCr3 := s0.termCr3[s.curTerm := s.cr3], curTerm := t);
      if t != 1 && !s.flag[t] then Executed(s1.(flag := s1.flag[t := true]), true, loads)
      else s1.(press := s1.press[2 := false][3 := false], pcbCr3 := s1.slots[s1.termCr3[t]], cr3 := s1.termCr3[t])
  }

  /** `open` stores the current PCB in the running process's PCB area. */
  function FileOpened(s: State): (r: State)
    requires Shaped(s)
    ensures Shaped(r)
  {
    s.(slots := s.slots[s.cr3 := s.pcbCr3])
  }

  datatype Op =
    | Execute(shell: bool, loads: bool)
    | Halt(loads: bool)
    | Switch(t: nat, loads: bool)
    | OpenFile

  predicate InRange(op: Op) {
    op.Switch? ==> 1 <= op.t <= 3
  }

  function Step(s: State, op: Op): (r: State)
    requires Shaped(s) && InRange(op)
    ensures Shaped(r)
  {
    match op
    case Execute(shell, loads) => Executed(s, shell, loads)
    case Halt(loads) => Halted(s, loads)
    case Switch(t, loads) => Switched(s, t, loads)
    case OpenFile => FileOpened(s)
  }

  // ------------------------------------------------------------ per-terminal call stacks

  function LiveCount(tasks: seq<nat>): nat
    requires |tasks| == MAX_TASKS
  {
    (if tasks[1] != 0 then 1 else 0) + (if tasks[4] != 0 then 1 else 0)
    + (if tasks[5] != 0 then 1 else 0) + (if tasks[6] != 0 then 1 else 0)
  }

  predicate OpenTerm(s: State, t: nat)
    requires Shaped(s)
  {
    t == 1 || (2 <= t <= 3 && s.flag[t])
  }

  /** The process a terminal runs. */
  function Running(s: State, t: nat): nat
    requires Shaped(s) && 1 <= t <= 3
  {
    if t == s.curTerm then s.cr3 else s.termCr3[t]
  }

  predicate Live(s: State, p: nat)
    requires Shaped(s)
  {
    1 <= p < MAX_TASKS && s.tasks[p] != 0
  }

  /** A process above a shell: its parent entry is one level down on the same terminal, and the
      parent's PCB area holds the parent's own page directory. */
  ghost predicate ChildOk(s: State, home: seq<nat>, depth: seq<nat>, p: nat)
    requires Shaped(s) && |home| == |depth| == MAX_TASKS && 4 <= p <= 6
  {
    s.tasks[p] != 0 ==>
      var q := s.tasks[p];
      Live(s, q) && 1 <= home[p] == home[q] <= 3 && depth[p] == depth[q] + 1 && s.slots[q] == q
  }

  /** No two live processes share a level of one terminal. */
  ghost predicate ApartOk(s: State, home: seq<nat>, depth: seq<nat>, p: nat, q: nat)
    requires Shaped(s) && |home| == |depth| == MAX_TASKS && 1 <= p < q <= 6
  {
    Live(s, p) && Live(s, q) ==> !(home[p] == home[q] && depth[p] == depth[q])
  }

  /** An open terminal runs a live process of its own. */
  ghost predicate TermOk(s: State, home: seq<nat>, t: nat)
    requires Shaped(s) && |home| == MAX_TASKS && 1 <= t <= 3
  {
    OpenTerm(s, t) ==> Live(s, Running(s, t)) && home[Running(s, t)] == t
  }

  /** That process is the topmost one. */
  ghost predicate TopOk(s: State, home: seq<nat>, depth: seq<nat>, t: nat, p: nat)
    requires Shaped(s) && |home| == |depth| == MAX_TASKS && 1 <= t <= 3 && 1 <= p <= 6
  {
    OpenTerm(s, t) && Live(s, p) && home[p] == t ==> depth[p] <= depth[Running(s, t)]
  }

  ghost predicate ShellsOk(s: State, home: seq<nat>, depth: seq<nat>)
    requires Shaped(s) && |home| == |depth| == MAX_TASKS
  {
    && s.tasks[1] != 0 && (s.flag[2] <==> s.tasks[2] != 0) && (s.flag[3] <==> s.tasks[3] != 0)
    && home[1] == 1 && home[2] == 2 && home[3] == 3
    && depth[1] == 0 && depth[2] == 0 && depth[3] == 0
    && OpenTerm(s, s.curTerm)
  }

  /** `home[p]` is the terminal of a live process, `depth[p]` its height above that terminal's
      shell: the parent entries are one call stack per terminal. */
  ghost predicate Stacked(s: State, home: seq<nat>, depth: seq<nat>) {
    && Shaped(s) && |home| == |depth| == MAX_TASKS && ShellsOk(s, home, depth)
    && (forall p :: 4 <= p <= 6 ==> ChildOk(s, home, depth, p))
    && (forall p, q :: 1 <= p < q <= 6 ==> ApartOk(s, home, depth, p, q))
    && (forall t :: 1 <= t <= 3 ==> TermOk(s, home, t))
    && (forall t, p :: 1 <= t <= 3 && 1 <= p <= 6 ==> TopOk(s, home, depth, t, p))
  }

  /** Nothing pending, every running process counted, and the parent entries form stacks. */
  ghost predicate Sound(s: State) {
    && Shaped(s) && s.pc == LiveCount(s.tasks)
    && (forall t :: 0 <= t < 4 ==> !s.press[t] && !s.rst[t])
    && exists home: seq<nat>, depth: seq<nat> :: Stacked(s, home, depth)
  }

  /** The calls that keep the table sound. */
  predicate Benign(s: State, op: Op)
    requires Shaped(s) && InRange(op)
  {
    match op
    case Execute(_, loads) => loads || (s.tasks[4] != 0 && s.tasks[5] != 0 && s.tasks[6] != 0)
    case Halt(loads) => s.cr3 >= 4 || (s.cr3 == 1 && s.pc >= 2 && loads)
    case Switch(t, loads) =>
      if t == s.curTerm then t == 1 else OpenTerm(s, t) || loads
    case OpenFile => true
  }

  // ------------------------------------------------------------ what keeps the table sound

  /** A free pid pushed on the displayed terminal's stack. */
  lemma PushKeeps(s: State, r: State, p: nat, home: seq<nat>, depth: seq<nat>)
    requires Stacked(s, home, depth) && Shaped(r) && 4 <= p <= 6 && s.tasks[p] == 0
    requires r.curTerm == s.curTerm && r.termCr3 == s.termCr3 && r.flag == s.flag
    requires r.cr3 == p && r.tasks == s.tasks[p := s.cr3] && r.slots == s.slots[s.cr3 := s.cr3][p := p]
    ensures Stacked(r, home[p := s.curTerm], depth[p := depth[s.cr3] + 1])
  {
    var h, d := home[p := s.curTerm], depth[p := depth[s.cr3] + 1];
    assert TermOk(s, home, s.curTerm);
    forall c | 4 <= c <= 6 ensures ChildOk(r, h, d, c) {
      assert ChildOk(s, home, depth, c);
    }
    forall a, b | 1 <= a < b <= 6 ensures ApartOk(r, h, d, a, b) {
      assert ApartOk(s, home, depth, a, b);
      assert TopOk(s, home, depth, s.curTerm, a) && TopOk(s, home, depth, s.curTerm, b);
    }
    forall t | 1 <= t <= 3 ensures TermOk(r, h, t) {
      assert TermOk(s, home, t);
    }
    forall t, a | 1 <= t <= 3 && 1 <= a <= 6 ensures TopOk(r, h, d, t, a) {
      assert TopOk(s, home, depth, t, a) && TermOk(s, home, t);
    }
  }

  lemma ExecuteKeeps(s: State, shell: bool, loads: bool, home: seq<nat>, depth: seq<nat>)
    requires Sound(s) && Stacked(s, home, depth) && Benign(s, Execute(shell, loads))
    ensures Sound(Executed(s, shell, loads))
  {
    hide Stacked, Sound, NewPid, RstAfter, LiveCount, FreePid;
    StackedShape(s, home, depth);
    QuietPid(s, shell);
    var p, r := FreePid(s.tasks), Executed(s, shell, loads);
    if p < MAX_TASKS {
      PushKeeps(s, r, p, home, depth);
      CountsUp(s.tasks, p, s.cr3);
      SoundIf(r, home[p := s.curTerm], depth[p := depth[s.cr3] + 1]);
    } else {
      SameStacks(s, r, home, depth);
      SoundIf(r, home, depth);
    }
  }

  /** With nothing pending, `execute` takes a free program pid or none. */
  lemma QuietPid(s: State, shell: bool)
    requires Sound(s) && s.tasks[1] != 0
    ensures NewPid(s, shell) == FreePid(s.tasks) && RstAfter(s, shell) == s.rst
    ensures s.pc == LiveCount(s.tasks) <= 4 && forall t :: 0 <= t < 4 ==> !s.press[t] && !s.rst[t]
    ensures FreePid(s.tasks) == MAX_TASKS || (4 <= FreePid(s.tasks) <= 6 && s.tasks[FreePid(s.tasks)] == 0)
    ensures FreePid(s.tasks) == MAX_TASKS <==> s.tasks[4] != 0 && s.tasks[5] != 0 && s.tasks[6] != 0
    ensures FirstFreePid(s.tasks, FreePid(s.tasks))
  {
    hide Stacked;
  }

  lemma CountsUp(tasks: seq<nat>, p: nat, q: nat)
    requires |tasks| == MAX_TASKS && 4 <= p <= 6 && tasks[p] == 0 && q != 0
    ensures LiveCount(tasks[p := q]) == LiveCount(tasks) + 1
  {
  }

  lemma SoundIf(s: State, home: seq<nat>, depth: seq<nat>)
    requires Shaped(s) && Stacked(s, home, depth) && s.pc == LiveCount(s.tasks)
    requires forall t :: 0 <= t < 4 ==> !s.press[t] && !s.rst[t]
    ensures Sound(s)
  {
    hide Stacked, LiveCount;
  }

  lemma StackedShape(s: State, home: seq<nat>, depth: seq<nat>)
    requires Stacked(s, home, depth)
    ensures Shaped(s) && |home| == |depth| == MAX_TASKS && ShellsOk(s, home, depth) && Live(s, s.cr3)
  {
    assert TermOk(s, home, s.curTerm);
  }

  /** Nothing the stacks depend on has changed. */
  lemma SameStacks(s: State, r: State, home: seq<nat>, depth: seq<nat>)
    requires Stacked(s, home, depth) && Shaped(r)
    requires r.flag == s.flag && ShellsOk(r, home, depth)
    requires forall t :: 1 <= t <= 3 && OpenTerm(s, t) ==> Running(r, t) == Running(s, t)
    requires forall p :: 0 <= p < MAX_TASKS ==>
      r.tasks[p] == s.tasks[p] || (p <= 3 && r.tasks[p] != 0 && s.tasks[p] != 0)
    requires forall p :: 0 <= p < MAX_TASKS ==> r.slots[p] == s.slots[p] || r.slots[p] == p
    ensures Stacked(r, home, depth)
  {
    forall c | 4 <= c <= 6 ensures ChildOk(r, home, depth, c) {
      assert ChildOk(s, home, depth, c);
    }
    forall a, b | 1 <= a < b <= 6 ensures ApartOk(r, home, depth, a, b) {
      assert ApartOk(s, home, depth, a, b);
    }
    forall t | 1 <= t <= 3 ensures TermOk(r, home, t) {
      assert TermOk(s, home, t);
    }
    forall t, a | 1 <= t <= 3 && 1 <= a <= 6 ensures TopOk(r, home, depth, t, a) {
      assert TopOk(s, home, depth, t, a);
    }
  }

  lemma HaltKeeps(s: State, loads: bool, home: seq<nat>, depth: seq<nat>)
    requires Sound(s) && Stacked(s, home, depth) && s.cr3 >= 4
    ensures Sound(Halted(s, loads)) && Halted(s, loads).cr3 == s.tasks[s.cr3]
  {
    var p, r := s.cr3, Halted(s, loads);
    assert TermOk(s, home, s.curTerm) && ChildOk(s, home, depth, p);
    forall c | 4 <= c <= 6 ensures ChildOk(r, home, depth, c) {
      assert ChildOk(s, home, depth, c) && TopOk(s, home, depth, s.curTerm, c);
    }
    forall a, b | 1 <= a < b <= 6 ensures ApartOk(r, home, depth, a, b) {
      assert ApartOk(s, home, depth, a, b);
    }
    forall t | 1 <= t <= 3 ensures TermOk(r, home, t) {
      assert TermOk(s, home, t);
    }
    forall t, a | 1 <= t <= 3 && 1 <= a <= 6 ensures TopOk(r, home, depth, t, a) {
      assert TopOk(s, home, depth, t, a);
      assert a < p ==> ApartOk(s, home, depth, a, p);
      assert p < a ==> ApartOk(s, home, depth, p, a);
    }
    assert Stacked(r, home, depth);
  }

  lemma RestartKeeps(s: State, home: seq<nat>, depth: seq<nat>)
    requires Sound(s) && Stacked(s, home, depth) && s.cr3 == 1 && s.pc >= 2
    ensures Sound(Halted(s, true))
  {
    hide Stacked, Sound;
    StackedShape(s, home, depth);
    RestartedShell(s);
    SameStacks(s, Halted(s, true), home, depth);
    SoundIf(Halted(s, true), home, depth);
  }

  /** Halting the first shell while others are counted puts a new one in its place. */
  lemma RestartedShell(s: State)
    requires Sound(s) && s.cr3 == 1 && s.pc >= 2 && s.tasks[1] != 0
    ensures var r := Halted(s, true);
      && r.tasks == s.tasks[1 := 1] && r.slots == s.slots[1 := 1] && r.cr3 == 1 && r.pc == s.pc
      && r.curTerm == s.curTerm && r.termCr3 == s.termCr3 && r.flag == s.flag
      && s.pc == LiveCount(s.tasks) && LiveCount(r.tasks) == LiveCount(s.tasks)
      && forall t :: 0 <= t < 4 ==> !r.press[t] && !r.rst[t]
  {
    hide Stacked;
    var r := Halted(s, true);
    assert r.tasks == s.tasks[1 := 0][1 := 1] == s.tasks[1 := 1];
  }

  lemma SwitchKeeps(s: State, t: nat, loads: bool, home: seq<nat>, depth: seq<nat>)
    requires Sound(s) && Stacked(s, home, depth) && 1 <= t <= 3 && t != s.curTerm && OpenTerm(s, t)
    ensures Sound(Switched(s, t, loads))
  {
    hide Stacked;
    StackedShape(s, home, depth);
    SameStacks(s, Switched(s, t, loads), home, depth);
  }

  /** A terminal opened for the first time: its shell starts a new stack. */
  lemma NewStackKeeps(s: State, r: State, t: nat, home: seq<nat>, depth: seq<nat>)
    requires Stacked(s, home, depth) && Shaped(r) && 2 <= t <= 3 && t != s.curTerm && !OpenTerm(s, t)
    requires r.curTerm == t == r.cr3 && r.termCr3 == s.termCr3[s.curTerm := s.cr3] && r.flag == s.flag[t := true]
    requires r.tasks == s.tasks[t := s.cr3] && r.slots == s.slots[s.cr3 := s.cr3][t := t]
    ensures Stacked(r, home, depth)
  {
    assert TermOk(s, home, s.curTerm);
    forall c | 4 <= c <= 6 ensures ChildOk(r, home, depth, c) {
      assert ChildOk(s, home, depth, c);
    }
    forall a, b | 1 <= a < b <= 6 ensures ApartOk(r, home, depth, a, b) {
      assert ApartOk(s, home, depth, a, b);
      assert 4 <= b ==> ChildOk(s, home, depth, b);
    }
    forall u | 1 <= u <= 3 ensures TermOk(r, home, u) {
      assert TermOk(s, home, u);
    }
    forall u, a | 1 <= u <= 3 && 1 <= a <= 6 ensures TopOk(r, home, depth, u, a) {
      assert TopOk(s, home, depth, u, a);
      if a >= 4 { NotOnClosed(s, home, depth, a, t); }
    }
  }

  lemma FirstSwitchKeeps(s: State, t: nat, home: seq<nat>, depth: seq<nat>)
    requires Sound(s) && Stacked(s, home, depth) && 2 <= t <= 3 && t != s.curTerm && !OpenTerm(s, t)
    ensures Sound(Switched(s, t, true))
  {
    hide Stacked;
    StackedShape(s, home, depth);
    NewStackKeeps(s, Switched(s, t, true), t, home, depth);
  }

  /** No live process belongs to a terminal that was never opened. */
  lemma {:induction false} NotOnClosed(s: State, home: seq<nat>, depth: seq<nat>, p: nat, t: nat)
    requires Stacked(s, home, depth) && 1 <= p <= 6 && 1 <= t <= 3 && !OpenTerm(s, t)
    ensures Live(s, p) ==> home[p] != t
    decreases depth[p]
  {
    if Live(s, p) && p >= 4 {
      assert ChildOk(s, home, depth, p);
      NotOnClosed(s, home, depth, s.tasks[p], t);
    }
  }

  lemma OpenKeeps(s: State, home: seq<nat>, depth: seq<nat>)
    requires Sound(s) && Stacked(s, home, depth)
    ensures Sound(FileOpened(s))
  {
    var r := FileOpened(s);
    assert TermOk(s, home, s.curTerm);
    forall c | 4 <= c <= 6 ensures ChildOk(r, home, depth, c) {
      assert ChildOk(s, home, depth, c) && TopOk(s, home, depth, s.curTerm, c);
    }
    forall a, b | 1 <= a < b <= 6 ensures ApartOk(r, home, depth, a, b) {
      assert ApartOk(s, home, depth, a, b);
    }
    forall t | 1 <= t <= 3 ensures TermOk(r, home, t) {
      assert TermOk(s, home, t);
    }
    forall t, a | 1 <= t <= 3 && 1 <= a <= 6 ensures TopOk(r, home, depth, t, a) {
      assert TopOk(s, home, depth, t, a);
    }
    assert Stacked(r, home, depth);
  }

  /** Exactly the benign calls keep a sound table sound. */
  lemma StepSoundIff(s: State, op: Op)
    requires Sound(s) && InRange(op)
    ensures Sound(Step(s, op)) <==> Benign(s, op)
  {
    hide Stacked;
    var home: seq<nat>, depth: seq<nat> :| Stacked(s, home, depth);
    StackedShape(s, home, depth);
    if Benign(s, op) {
      BenignKeeps(s, op, home, depth);
    } else {
      match op
      case Execute(shell, loads) => FailedLoadBreaks(s, shell);
      case Halt(loads) => ShellHaltBreaks(s, loads);
      case Switch(t, loads) => SwitchBreaks(s, t);
    }
  }

  lemma BenignKeeps(s: State, op: Op, home: seq<nat>, depth: seq<nat>)
    requires Sound(s) && Stacked(s, home, depth) && InRange(op) && Benign(s, op)
    ensures Sound(Step(s, op))
  {
    hide Stacked, Sound;
    StackedShape(s, home, depth);
    match op
    case Execute(shell, loads) => ExecuteKeeps(s, shell, loads, home, depth);
    case Halt(loads) =>
      if s.cr3 >= 4 { HaltKeeps(s, loads, home, depth); } else { RestartKeeps(s, home, depth); }
    case Switch(t, loads) =>
      if t != s.curTerm {
        if OpenTerm(s, t) { SwitchKeeps(s, t, loads, home, depth); } else { FirstSwitchKeeps(s, t, home, depth); }
      }
    case OpenFile => OpenKeeps(s, home, depth);
  }

  /** A pid is taken and never counted. */
  lemma FailedLoadBreaks(s: State, shell: bool)
    requires Sound(s) && Live(s, s.cr3) && s.tasks[1] != 0 && FreePid(s.tasks) < MAX_TASKS
    ensures !Sound(Executed(s, shell, false))
  {
    hide Stacked;
    assert LiveCount(Executed(s, shell, false).tasks) == LiveCount(s.tasks) + 1;
  }

  /** The second and third shells were never counted; the first is restarted through the
      "no program running" branch, which leaves its restart flag up. */
  lemma ShellHaltBreaks(s: State, loads: bool)
    requires Sound(s) && s.tasks[1] != 0 && s.cr3 <= 3 && Live(s, s.cr3)
    requires s.cr3 == 1 ==> s.pc < 2 || !loads
    ensures !Sound(Halted(s, loads))
  {
    hide Stacked;
    var r := Halted(s, loads);
    assert r.rst[s.cr3] || r.pc != LiveCount(r.tasks);
  }

  /** The key of the terminal on display, or a shell that does not load, leaves the key flag up. */
  lemma SwitchBreaks(s: State, t: nat)
    requires Sound(s) && Live(s, s.cr3) && s.tasks[1] != 0 && 2 <= t <= 3 && (t == s.curTerm || !OpenTerm(s, t))
    ensures !Sound(Switched(s, t, false))
    ensures t == s.curTerm ==> !Sound(Switched(s, t, true))
  {
    hide Stacked;
    assert Switched(s, t, false).press[t];
    assert t == s.curTerm ==> Switched(s, t, true).press[t];
  }

  // ------------------------------------------------------------ the calls in plain fields

  /** Pid `p` is the first of 1, 4, 5 and 6 that is free, or 7 when none is. */
  ghost predicate FirstFreePid(tasks: seq<nat>, p: nat)
    requires |tasks| == 7
  {
    && (p == 1 || 4 <= p <= 7) && (p < 7 ==> tasks[p] == 0)
    && forall q :: (q == 1 || 4 <= q <= 6) && q < p ==> tasks[q] != 0
  }

  /** What `execute` runs as `p`: the first process ever, a shell that was asked for, or the first
      free program pid; a restart flag is consumed with the shell it asked for. */
  ghost predicate Chooses(s: State, shell: bool, p: nat, rst: seq<bool>)
    requires |s.tasks| == 7 && |s.rst| == |s.press| == 4
  {
    && (s.pc == 0 ==> p == 1 && rst == s.rst)
    && (s.pc > 0 && shell && s.rst[1] ==> p == 1 && rst == s.rst[1 := false])
    && (s.pc > 0 && shell && !s.rst[1] && (s.press[2] || s.rst[2]) ==> p == 2 && rst == s.rst[2 := false])
    && (s.pc > 0 && shell && !s.rst[1] && !s.press[2] && !s.rst[2] && (s.press[3] || s.rst[3]) ==>
          p == 3 && rst == s.rst[3 := false])
    && (s.pc > 0 && (!shell || !(s.rst[1] || s.press[2] || s.rst[2] || s.press[3] || s.rst[3])) ==>
          FirstFreePid(s.tasks, p) && rst == s.rst)
  }

  /** The caller of `execute`; the kernel itself counts as pid 1. */
  function Caller(s: State): nat {
    if s.cr3 == 0 then 1 else s.cr3
  }

  /** Everything `execute` leaves when it does not start pid `p`. */
  ghost predicate NotStarted(s: State, r: State, p: nat)
    requires Shaped(s) && Shaped(r)
  {
    && r.cr3 == s.cr3 && r.pc == s.pc && r.curTerm == s.curTerm && r.termCr3 == s.termCr3
    && r.flag == s.flag && r.press == s.press && r.pcbCr3 == s.cr3
    && (forall q :: 0 <= q < 7 && q != p ==> r.tasks[q] == s.tasks[q])
    && (p < 7 ==> r.tasks[p] == Caller(s))
    && (forall q :: 0 <= q < 7 && q != Caller(s) ==> r.slots[q] == s.slots[q])
    && r.slots[Caller(s)] == if p == 1 || p == 7 then s.slots[Caller(s)] else s.cr3
  }

  /** And when it does: `p` runs, in its own directory, as the caller's child. */
  ghost predicate Started(s: State, r: State, p: nat)
    requires Shaped(s) && Shaped(r) && 1 <= p < 7
  {
    && r.cr3 == p && r.pcbCr3 == p && r.slots[p] == p && r.tasks[p] == Caller(s)
    && (p == 2 || p == 3 ==> r.pc == s.pc) && (p != 2 && p != 3 ==> r.pc == (s.pc + 1) % 0x1_0000_0000)
    && r.curTerm == s.curTerm && r.termCr3 == s.termCr3 && r.flag == s.flag
    && r.press[0] == s.press[0] && r.press[1] == s.press[1] && !r.press[2] && !r.press[3]
    && (forall q :: 0 <= q < 7 && q != p ==> r.tasks[q] == s.tasks[q])
    && (forall q :: 0 <= q < 7 && q != p && q != Caller(s) ==> r.slots[q] == s.slots[q])
    && (Caller(s) != p ==> r.slots[Caller(s)] == if p == 1 then s.slots[Caller(s)] else s.cr3)
  }

  lemma ExecuteLaw(s: State, shell: bool, loads: bool)
    requires Shaped(s)
    ensures var p, r := NewPid(s, shell), Executed(s, shell, loads);
      && 1 <= p <= 7 && Chooses(s, shell, p, r.rst)
      && if loads && p < 7 then Started(s, r, p) else NotStarted(s, r, p)
  {
    var p, r := NewPid(s, shell), Executed(s, shell, loads);
    assert r.rst == RstAfter(s, shell);
    ChoosesPid(s, shell);
    hide NewPid, RstAfter;
  }

  lemma ChoosesPid(s: State, shell: bool)
    requires Shaped(s)
    ensures 1 <= NewPid(s, shell) <= 7 && Chooses(s, shell, NewPid(s, shell), RstAfter(s, shell))
  {
  }

  /** On a sound table a failed load takes a free program pid for the caller, and no other entry. */
  lemma FailedLoadLaw(s: State, shell: bool, q: nat)
    requires Sound(s) && q < 7
    ensures var r := Executed(s, shell, false);
      && NotStarted(s, r, NewPid(s, shell)) && r.rst == s.rst
      && (r.tasks[q] != s.tasks[q] ==> s.tasks[q] == 0 && r.tasks[q] == s.cr3 && 4 <= q <= 6)
  {
    hide Stacked, NewPid, RstAfter, FreePid, Executed, LiveCount;
    var home: seq<nat>, depth: seq<nat> :| Stacked(s, home, depth);
    StackedShape(s, home, depth);
    QuietPid(s, shell);
    ExecuteLaw(s, shell, false);
    assert s.pc > 0 by { CountedShell(s.tasks); }
  }

  lemma CountedShell(tasks: seq<nat>)
    requires |tasks| == 7 && tasks[1] != 0
    ensures LiveCount(tasks) >= 1
  {
  }

  /** Halting a program gives its pid back, counts one less and goes to the directory that is saved
      in the area of its table entry. */
  lemma ProgramHaltLaw(s: State, loads: bool)
    requires Shaped(s) && s.cr3 >= 4
    ensures var r := Halted(s, loads);
      && r.tasks == s.tasks[s.cr3 := 0] && r.cr3 == s.slots[s.tasks[s.cr3]]
      && (s.pc > 0 ==> r.pc == s.pc - 1) && (s.pc == 0 ==> r.pc == 0xFFFF_FFFF)
      && r.pcbCr3 == s.pcbCr3 && r.slots == s.slots && r.curTerm == s.curTerm && r.termCr3 == s.termCr3
      && r.flag == s.flag && r.press == s.press && r.rst == s.rst
  {
  }

  /** Halting a shell of a sound table: when nothing else is counted, pid 1 is started whichever
      shell it was, and the restart flag stays up; otherwise the shell itself is started again. Only
      a started pid 1 is counted. */
  lemma ShellHaltLaw(s: State, loads: bool)
    requires Sound(s) && s.cr3 <= 3
    ensures var me, p, r := s.cr3, if s.pc == 1 then 1 else s.cr3, Halted(s, loads);
      && 1 <= me <= 3 && s.pc >= 1
      && r.tasks == s.tasks[me := 0][p := me] && r.cr3 == (if loads then p else me)
      && r.pc == s.pc - 1 + (if loads && p == 1 then 1 else 0)
      && r.rst == (if s.pc == 1 then s.rst[me := true] else s.rst)
      && r.press == s.press && r.flag == s.flag && r.curTerm == s.curTerm && r.termCr3 == s.termCr3
      && r.slots == (if p != 1 then s.slots[p := p] else if loads then s.slots[1 := 1] else s.slots)
  {
    hide Stacked, Executed, LiveCount;
    var home: seq<nat>, depth: seq<nat> :| Stacked(s, home, depth);
    StackedShape(s, home, depth);
    assert s.pc >= 1 by { CountedShell(s.tasks); }
    RestartChoice(s);
    var s1 := Restarting(s);
    assert Halted(s, loads) == Executed(s1, true, loads);
    LaunchesAs(s1, loads);
    RestartFields(s, loads);
  }

  /** A sound table on which a shell has begun to halt. */
  function Restarting(s: State): State
    requires Shaped(s) && 1 <= s.cr3 <= 3 && s.pc >= 1
  {
    s.(rst := s.rst[s.cr3 := true], tasks := s.tasks[s.cr3 := 0], pc := s.pc - 1)
  }

  lemma RestartChoice(s: State)
    requires Shaped(s) && 1 <= s.cr3 <= 3 && s.pc >= 1
    requires forall t :: 0 <= t < 4 ==> !s.press[t] && !s.rst[t]
    ensures var s1 := Restarting(s);
      && Shaped(s1) && NewPid(s1, true) == (if s.pc == 1 then 1 else s.cr3)
      && RstAfter(s1, true) == if s.pc == 1 then s.rst[s.cr3 := true] else s.rst
  {
    assert s.rst[s.cr3 := true][s.cr3 := false] == s.rst;
  }

  lemma LaunchesAs(s: State, loads: bool)
    requires Shaped(s) && 1 <= NewPid(s, true) < 7
    ensures Executed(s, true, loads)
      == Launched(s.(pcbCr3 := s.cr3, rst := RstAfter(s, true)), NewPid(s, true), loads)
  {
    hide NewPid, RstAfter;
  }

  lemma RestartFields(s: State, loads: bool)
    requires Shaped(s) && 1 <= s.cr3 <= 3 && s.pc >= 1
    requires forall t :: 0 <= t < 4 ==> !s.press[t] && !s.rst[t]
    ensures var me, p, rst := s.cr3, if s.pc == 1 then 1 else s.cr3, if s.pc == 1 then s.rst[s.cr3 := true] else s.rst;
      var r := Launched(Restarting(s).(pcbCr3 := me, rst := rst), p, loads);
      && r.tasks == s.tasks[me := 0][p := me] && r.cr3 == (if loads then p else me) && r.rst == rst
      && r.pc == s.pc - 1 + (if loads && p == 1 then 1 else 0)
      && r.press == s.press && r.flag == s.flag && r.curTerm == s.curTerm && r.termCr3 == s.termCr3
      && r.slots == (if p != 1 then s.slots[p := p] else if loads then s.slots[1 := 1] else s.slots)
  {
    assert s.press[2 := false][3 := false] == s.press;
  }

  /** Halting a shell of any table: its entry is cleared, its restart flag raised, the count lowered,
      and a shell executed. */
  lemma AnyShellHaltLaw(s: State, s1: State, loads: bool)
    requires Shaped(s) && s.cr3 <= 3
    requires s1.tasks == s.tasks[s.cr3 := 0] && s1.rst == (if s.cr3 == 0 then s.rst else s.rst[s.cr3 := true])
    requires s1.pc == (if s.pc > 0 then s.pc - 1 else 0xFFFF_FFFF) && s1.cr3 == s.cr3 && s1.pcbCr3 == s.pcbCr3
    requires s1.slots == s.slots && s1.curTerm == s.curTerm && s1.termCr3 == s.termCr3
    requires s1.flag == s.flag && s1.press == s.press
    ensures Shaped(s1) && Halted(s, loads) == Executed(s1, true, loads)
  {
    hide Executed;
    assert s1 == s.(rst := s1.rst, tasks := s1.tasks, pc := Decremented(s.pc));
  }

  /** The key of the terminal on display raises that terminal's key flag and does nothing else. */
  lemma SameTerminalLaw(s: State, t: nat, loads: bool)
    requires Shaped(s) && 1 <= t <= 3 && t == s.curTerm
    ensures Switched(s, t, loads) == if t == 1 then s else s.(press := s.press[t := true])
  {
  }

  /** The key of another open terminal saves the directory of the one left and takes that of the
      one shown. */
  lemma SwitchLaw(s: State, t: nat, loads: bool)
    requires Shaped(s) && 1 <= t <= 3 && t != s.curTerm && (t == 1 || s.flag[t])
    ensures var r := Switched(s, t, loads);
      && r.curTerm == t && r.cr3 == s.termCr3[t] && r.termCr3 == s.termCr3[s.curTerm := s.cr3]
      && r.pcbCr3 == s.slots[s.termCr3[t]] && !r.press[2] && !r.press[3] && r.press[1] == s.press[1]
      && r.tasks == s.tasks && r.pc == s.pc && r.slots == s.slots && r.flag == s.flag && r.rst == s.rst
  {
  }

  /** The first key of a terminal, on any table: the directory on display is saved, the terminal shown
      and marked open, its key flag raised, and a shell executed. */
  lemma AnyFirstSwitchLaw(s: State, s1: State, t: nat, loads: bool)
    requires Shaped(s) && 2 <= t <= 3 && t != s.curTerm && !s.flag[t]
    requires s1.press == s.press[t := true] && s1.flag == s.flag[t := true] && s1.curTerm == t
    requires s1.termCr3 == s.termCr3[s.curTerm := s.cr3] && s1.tasks == s.tasks && s1.rst == s.rst
    requires s1.pc == s.pc && s1.cr3 == s.cr3 && s1.pcbCr3 == s.pcbCr3 && s1.slots == s.slots
    ensures Shaped(s1) && Switched(s, t, loads) == Executed(s1, true, loads)
  {
    hide Executed;
    assert s1 == s.(press := s1.press, flag := s1.flag, curTerm := t, termCr3 := s1.termCr3);
  }

  /** The first key of a terminal starts its shell as that pid, a child of the process that was on
      display; if the shell does not load, that process runs on and the key flag stays up. */
  lemma FirstSwitchLaw(s: State, t: nat, loads: bool)
    requires Sound(s) && 2 <= t <= 3 && t != s.curTerm && !s.flag[t]
    ensures var r := Switched(s, t, loads);
      && r.curTerm == t && r.termCr3 == s.termCr3[s.curTerm := s.cr3] && r.flag == s.flag[t := true]
      && r.tasks == s.tasks[t := s.cr3] && r.pc == s.pc && r.rst == s.rst
      && r.cr3 == (if loads then t else s.cr3)
      && (forall u :: 0 <= u < 4 ==> (r.press[u] <==> !loads && u == t))
      && r.slots == (if loads then s.slots[s.cr3 := s.cr3][t := t] else s.slots[s.cr3 := s.cr3])
  {
    hide Stacked;
    var home: seq<nat>, depth: seq<nat> :| Stacked(s, home, depth);
    StackedShape(s, home, depth);
    assert s.pc >= 1 by { CountedShell(s.tasks); }
    var r := Switched(s, t, loads);
    assert s.rst[t := false] == s.rst;
  }

  // ------------------------------------------------------------ whole runs

  function BootState(): State {
    State([1, 0, 0, 0, 0, 0, 0], 0, 0, 0, [0, 0, 0, 0, 0, 0, 0], 1, [0, 0, 0, 0],
          [false, false, false, false], [false, false, false, false], [false, false, false, false])
  }

  /** After the kernel has executed the first shell. */
  function Booted(): (s: State)
    ensures Shaped(s)
  {
    Executed(BootState(), true, true)
  }

  lemma BootedSound()
    ensures Sound(Booted())
  {
    var s, home, depth := Booted(), [0, 1, 2, 3, 0, 0, 0], [0, 0, 0, 0, 0, 0, 0];
    assert s.tasks == [1, 1, 0, 0, 0, 0, 0] && s.flag == [false, false, false, false] && s.cr3 == 1;
    assert forall p :: 1 <= p <= 6 ==> (Live(s, p) <==> p == 1);
    assert forall t :: 1 <= t <= 3 ==> (OpenTerm(s, t) <==> t == 1);
    assert Running(s, 1) == 1;
    forall p | 4 <= p <= 6 ensures ChildOk(s, home, depth, p) {}
    forall p, q | 1 <= p < q <= 6 ensures ApartOk(s, home, depth, p, q) {}
    forall t | 1 <= t <= 3 ensures TermOk(s, home, t) {}
    forall t, p | 1 <= t <= 3 && 1 <= p <= 6 ensures TopOk(s, home, depth, t, p) {}
    assert Stacked(s, home, depth);
  }

  predicate AllInRange(ops: seq<Op>) {
    forall i :: 0 <= i < |ops| ==> InRange(ops[i])
  }

  function Run(s: State, ops: seq<Op>): (r: State)
    requires Shaped(s) && AllInRange(ops)
    ensures Shaped(r)
    decreases |ops|
  {
    if ops == [] then s else Step(Run(s, ops[..|ops| - 1]), ops[|ops| - 1])
  }

  predicate AllBenign(s: State, ops: seq<Op>)
    requires Shaped(s) && AllInRange(ops)
  {
    forall i :: 0 <= i < |ops| ==> Benign(Run(s, ops[..i]), ops[i])
  }

  /** Every run of benign calls from a sound table, and so from boot, keeps it sound. */
  lemma {:induction false} RunsStaySound(s: State, ops: seq<Op>)
    requires Sound(s) && AllInRange(ops) && AllBenign(s, ops)
    ensures Sound(Run(s, ops))
    decreases |ops|
  {
    hide Stacked, Benign, Step;
    if ops != [] {
      var front := ops[..|ops| - 1];
      assert forall i :: 0 <= i < |front| ==> front[..i] == ops[..i];
      RunsStaySound(s, front);
      StepSoundIff(Run(s, front), ops[|ops| - 1]);
    }
  }

  lemma SoundShape(s: State)
    requires Sound(s)
    ensures Shaped(s)
  {
  }

  function Ancestor(s: State, p: nat, n: nat): (q: nat)
    requires Shaped(s) && p < MAX_TASKS
    ensures q < MAX_TASKS
    decreases n
  {
    if n == 0 then p else Ancestor(s, s.tasks[p], n - 1)
  }

  /** Following parent entries from a live process reaches a shell of an open terminal, through
      live processes of that terminal only. */
  lemma {:induction false} ChainReachesShell(s: State, home: seq<nat>, depth: seq<nat>, p: nat)
    requires Stacked(s, home, depth) && Live(s, p)
    ensures 1 <= home[p] <= 3 && OpenTerm(s, home[p]) && Ancestor(s, p, depth[p]) == home[p]
    ensures forall n :: 0 <= n <= depth[p] ==> Live(s, Ancestor(s, p, n)) && home[Ancestor(s, p, n)] == home[p]
    decreases depth[p]
  {
    if p >= 4 {
      assert ChildOk(s, home, depth, p);
      ChainReachesShell(s, home, depth, s.tasks[p]);
      forall n | 0 <= n <= depth[p]
        ensures Live(s, Ancestor(s, p, n)) && home[Ancestor(s, p, n)] == home[p]
      {
        if n > 0 {
          assert Ancestor(s, p, n) == Ancestor(s, s.tasks[p], n - 1);
        }
      }
    }
  }

  /** A successful execute takes a pid that was free and runs it on the same terminal, above
      the caller. */
  lemma NewTaskIsFresh(s: State, shell: bool)
    requires Sound(s) && (s.tasks[4] == 0 || s.tasks[5] == 0 || s.tasks[6] == 0)
    ensures var r := Executed(s, shell, true);
      && !Live(s, r.cr3) && Live(r, r.cr3) && r.tasks[r.cr3] == s.cr3 && r.curTerm == s.curTerm
      && (forall p :: 0 <= p < MAX_TASKS && p != r.cr3 ==> r.tasks[p] == s.tasks[p])
  {
    hide Stacked;
    var home: seq<nat>, depth: seq<nat> :| Stacked(s, home, depth);
    StackedShape(s, home, depth);
  }

  /** While a process lives, its parent entry is the process that executed it. */
  lemma ParentStays(s: State, op: Op, p: nat)
    requires Sound(s) && InRange(op) && Benign(s, op) && 4 <= p <= 6 && Live(s, p)
    requires !(op.Halt? && s.cr3 == p)
    ensures Step(s, op).tasks[p] == s.tasks[p]
  {
    hide Stacked, Executed, NewPid;
    var home: seq<nat>, depth: seq<nat> :| Stacked(s, home, depth);
    StackedShape(s, home, depth);
    match op
    case Execute(shell, loads) => ExecuteTouches(s, shell, loads);
    case Halt(loads) =>
      if s.cr3 <= 3 {
        ExecuteTouches(s.(rst := s.rst[s.cr3 := true], tasks := s.tasks[s.cr3 := 0], pc := Decremented(s.pc)), true, loads);
      }
    case Switch(t, loads) =>
      if t != s.curTerm && t != 1 && !s.flag[t] {
        ExecuteTouches(s.(press := s.press[t := true], termCr3 := s.termCr3[s.curTerm := s.cr3], curTerm := t,
                          flag := s.flag[t := true]), true, loads);
      }
    case OpenFile =>
  }

  /** `execute` writes the table at the chosen pid only, which is 1, 2, 3 or free. */
  lemma ExecuteTouches(s: State, shell: bool, loads: bool)
    requires Shaped(s)
    ensures forall p :: 4 <= p <= 6 && s.tasks[p] != 0 ==> Executed(s, shell, loads).tasks[p] == s.tasks[p]
  {
  }

  /** Process `p` does not halt during the run. */
  predicate Survives(s: State, ops: seq<Op>, p: nat)
    requires Shaped(s) && AllInRange(ops)
  {
    forall i :: 0 <= i < |ops| ==> !(ops[i].Halt? && Run(s, ops[..i]).cr3 == p)
  }

  lemma {:induction false} ParentStaysThrough(s: State, ops: seq<Op>, p: nat)
    requires Sound(s) && AllInRange(ops) && AllBenign(s, ops) && Survives(s, ops, p)
    requires 4 <= p <= 6 && Live(s, p)
    ensures Run(s, ops).tasks[p] == s.tasks[p]
    decreases |ops|
  {
    hide Stacked, Benign, Step;
    if ops != [] {
      var front := ops[..|ops| - 1];
      assert forall i :: 0 <= i < |front| ==> front[..i] == ops[..i];
      ParentStaysThrough(s, front, p);
      RunsStaySound(s, front);
      ParentStays(Run(s, front), ops[|ops| - 1], p);
    }
  }

  /** Whatever ran in between, halting a process returns to the page directory of the process that
      executed it. */
  lemma HaltReturnsToCaller(s: State, shell: bool, ops: seq<Op>, loads: bool)
    requires Sound(s) && (s.tasks[4] == 0 || s.tasks[5] == 0 || s.tasks[6] == 0) && AllInRange(ops)
    requires var c := Executed(s, shell, true);
      AllBenign(c, ops) && Survives(c, ops, c.cr3) && Run(c, ops).cr3 == c.cr3
    ensures Step(Run(Executed(s, shell, true), ops), Halt(loads)).cr3 == s.cr3
  {
    hide Stacked, Run, Executed;
    var c := Executed(s, shell, true);
    NewTaskIsFresh(s, shell);
    StepSoundIff(s, Execute(shell, true));
    NewPidRange(s, shell);
    ParentStaysThrough(c, ops, c.cr3);
    RunsStaySound(c, ops);
    var h: seq<nat>, d: seq<nat> :| Stacked(Run(c, ops), h, d);
    HaltKeeps(Run(c, ops), loads, h, d);
  }

  lemma NewPidRange(s: State, shell: bool)
    requires Sound(s) && (s.tasks[4] == 0 || s.tasks[5] == 0 || s.tasks[6] == 0)
    ensures 4 <= Executed(s, shell, true).cr3 <= 6
  {
    hide Stacked;
    var home: seq<nat>, depth: seq<nat> :| Stacked(s, home, depth);
    StackedShape(s, home, depth);
  }
}
