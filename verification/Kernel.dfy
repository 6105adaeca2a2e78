/** The process routines as the kernel runs them, step by step on its globals. */
module Kernel {
  import opened Machine
  import opened Tasks

  /** The choice does not look at the saved CR3. */
  lemma PidRange(s: State, c: nat, shell: bool)
    requires Shaped(s) && c < MAX_TASKS
    ensures 1 <= NewPid(s, shell) <= MAX_TASKS && |RstAfter(s, shell)| == 4
    ensures NewPid(s.(pcbCr3 := c), shell) == NewPid(s, shell)
    ensures RstAfter(s.(pcbCr3 := c), shell) == RstAfter(s, shell)
  {
  }

  lemma SoundAfter(s: State, op: Op)
    requires Shaped(s) && InRange(op)
    ensures Sound(s) ==> (Sound(Step(s, op)) <==> Benign(s, op))
  {
    hide Sound, Benign, Step;
    if Sound(s) { StepSoundIff(s, op); }
  }

  /** What a refused or failed `execute` leaves alone. */
  lemma RefusalFields(s: State, shell: bool, loads: bool)
    requires Shaped(s)
    ensures var r := Executed(s, shell, loads);
      !loads || NewPid(s, shell) == 7 ==>
        && r.cr3 == s.cr3 && r.pc == s.pc && r.curTerm == s.curTerm && r.termCr3 == s.termCr3
        && r.flag == s.flag && r.press == s.press
        && (Sound(s) ==> forall q :: 0 <= q < 7 && r.tasks[q] != s.tasks[q] ==>
              s.tasks[q] == 0 && r.tasks[q] == s.cr3 && 4 <= q <= 6)
  {
    hide Executed, NewPid, Sound, Chooses, Started;
    ExecuteLaw(s, shell, loads);
    if (!loads || NewPid(s, shell) == 7) && Sound(s) {
      RefusedAlike(s, shell, loads);
      forall q | 0 <= q < 7
        ensures Executed(s, shell, loads).tasks[q] != s.tasks[q] ==>
          s.tasks[q] == 0 && Executed(s, shell, loads).tasks[q] == s.cr3 && 4 <= q <= 6
      {
        FailedLoadLaw(s, shell, q);
      }
    }
  }

  lemma RefusedAlike(s: State, shell: bool, loads: bool)
    requires Shaped(s) && (!loads || NewPid(s, shell) == 7)
    ensures Executed(s, shell, loads) == Executed(s, shell, false)
  {
    hide NewPid, RstAfter;
  }

  lemma HaltReturns(s: State, loads: bool)
    requires Shaped(s)
    ensures Sound(s) && s.cr3 >= 4 ==> Halted(s, loads).cr3 == s.tasks[s.cr3]
  {
    hide Stacked, Halted;
    if Sound(s) && s.cr3 >= 4 {
      var home: seq<nat>, depth: seq<nat> :| Stacked(s, home, depth);
      HaltKeeps(s, loads, home, depth);
    }
  }

  lemma HaltFields(s: State, loads: bool)
    requires Shaped(s)
    ensures var r := Halted(s, loads);
      && s.cr3 < 7 && |s.slots| == |s.tasks| == 7 && |s.rst| == 4 && s.tasks[s.cr3] < 7
      && (s.cr3 >= 4 ==>
        && r.tasks == s.tasks[s.cr3 := 0] && r.cr3 == s.slots[s.tasks[s.cr3]]
        && r.pc == (if s.pc > 0 then s.pc - 1 else 0xFFFF_FFFF)
        && r.slots == s.slots && r.pcbCr3 == s.pcbCr3 && r.curTerm == s.curTerm && r.termCr3 == s.termCr3
        && r.flag == s.flag && r.press == s.press && r.rst == s.rst)
      && (Sound(s) && s.cr3 <= 3 ==>
        var me, p := s.cr3, if s.pc == 1 then 1 else s.cr3;
        && 1 <= me && s.pc >= 1
        && r.tasks == s.tasks[me := 0][p := me] && r.cr3 == (if loads then p else me)
        && r.pc == s.pc - 1 + (if loads && p == 1 then 1 else 0)
        && r.rst == (if s.pc == 1 then s.rst[me := true] else s.rst)
        && r.press == s.press && r.flag == s.flag && r.curTerm == s.curTerm && r.termCr3 == s.termCr3)
  {
    hide Sound, Halted;
    if s.cr3 >= 4 {
      ProgramHaltLaw(s, loads);
    } else if Sound(s) {
      ShellHaltLaw(s, loads);
    }
  }

  lemma SwitchFields(s: State, t: nat, loads: bool)
    requires Shaped(s) && 1 <= t <= 3
    ensures var r := Switched(s, t, loads);
      && (t == s.curTerm ==> r == s.(press := if t == 1 then s.press else s.press[t := true]))
      && (t != s.curTerm && (t == 1 || s.flag[t]) ==>
        && r.curTerm == t && r.cr3 == s.termCr3[t] && r.termCr3 == s.termCr3[s.curTerm := s.cr3]
        && r.pcbCr3 == s.slots[s.termCr3[t]] && !r.press[2] && !r.press[3]
        && r.tasks == s.tasks && r.pc == s.pc && r.slots == s.slots && r.flag == s.flag && r.rst == s.rst)
      && (Sound(s) && t != s.curTerm && t != 1 && !s.flag[t] ==>
        && r.curTerm == t && r.cr3 == (if loads then t else s.cr3) && r.termCr3 == s.termCr3[s.curTerm := s.cr3]
        && r.tasks == s.tasks[t := s.cr3] && r.pc == s.pc && r.flag == s.flag[t := true] && r.rst == s.rst
        && (forall u :: 0 <= u < 4 ==> (r.press[u] <==> !loads && u == t)))
  {
    hide Sound, Switched;
    if t == s.curTerm {
      SameTerminalLaw(s, t, loads);
    } else if t == 1 || s.flag[t] {
      SwitchLaw(s, t, loads);
    } else if Sound(s) {
      FirstSwitchLaw(s, t, loads);
    }
  }

  class Globals {
    var tasks: seq<nat>
    var pc: uint32
    var newPid: nat
    var cr3: nat
    var pcbCr3: nat
    var slots: seq<nat>
    var curTerm: nat
    var termCr3: seq<nat>
    var flag: seq<bool>
    var press: seq<bool>
    var rst: seq<bool>

    ghost function Snapshot(): State
      reads this
    {
      State(tasks, pc, cr3, pcbCr3, slots, curTerm, termCr3, flag, press, rst)
    }

    constructor ()
      ensures Snapshot() == BootState()
      ensures tasks == [1, 0, 0, 0, 0, 0, 0] && pc == 0 && cr3 == 0 && curTerm == 1
      ensures forall t :: 0 <= t < 4 ==> !flag[t] && !press[t] && !rst[t]
    {
      tasks, pc, newPid, cr3, pcbCr3 := [1, 0, 0, 0, 0, 0, 0], 0, 0, 0, 0;
      slots, curTerm, termCr3 := [0, 0, 0, 0, 0, 0, 0], 1, [0, 0, 0, 0];
      flag, press := [false, false, false, false], [false, false, false, false];
      rst := [false, false, false, false];
    }

    /** The search of `execute`: the counter skips from 2 to 4. */
    method FindFree() returns (pid: nat)
      requires Shaped(Snapshot())
      ensures pid == FreePid(tasks) && FirstFreePid(tasks, pid)
    {
      pid := MAX_TASKS;
      var i := 1;
      while i < MAX_TASKS
        invariant 1 <= i <= MAX_TASKS && i != 3
        invariant pid == MAX_TASKS
        invariant i > 1 ==> tasks[1] != 0
        invariant i > 4 ==> tasks[4] != 0
        invariant i > 5 ==> tasks[5] != 0
        invariant i > 6 ==> tasks[6] != 0
      {
        if i == 2 {
          i := i + i;
        }
        if tasks[i] == 0 {
          pid := i;
          break;
        }
        i := i + 1;
      }
    }

    method ChoosePid(shell: bool)
      requires Shaped(Snapshot())
      modifies this`newPid, this`rst
      ensures newPid == NewPid(old(Snapshot()), shell) && rst == RstAfter(old(Snapshot()), shell)
    {
      newPid := FindFree();
      if pc == 0 {
        newPid := 1;
      } else if shell && rst[1] {
        rst := rst[1 := false];
        newPid := 1;
      } else if shell && (press[2] || rst[2]) {
        rst := rst[2 := false];
        newPid := 2;
      } else if shell && (press[3] || rst[3]) {
        rst := rst[3 := false];
        newPid := 3;
      }
    }

    /** `execute`: the whole new state, which is sound exactly when the call was benign. */
    method Execute(shell: bool, loads: bool) returns (r: int)
      requires Shaped(Snapshot())
      modifies this
      ensures Snapshot() == Executed(old(Snapshot()), shell, loads)
      ensures 1 <= newPid <= 7 && Chooses(old(Snapshot()), shell, newPid, rst)
      ensures r == if loads && newPid < 7 then 0 else -1
      ensures r == 0 ==> Started(old(Snapshot()), Snapshot(), newPid)
      ensures r == -1 ==> NotStarted(old(Snapshot()), Snapshot(), newPid)
      ensures r == -1 ==>
        && cr3 == old(cr3) && pc == old(pc) && curTerm == old(curTerm)
        && termCr3 == old(termCr3) && flag == old(flag) && press == old(press)
      ensures r == -1 && Sound(old(Snapshot())) ==>
        forall q :: 0 <= q < 7 && tasks[q] != old(tasks)[q] ==>
          old(tasks)[q] == 0 && tasks[q] == old(cr3) && 4 <= q <= 6
      ensures Sound(old(Snapshot())) ==>
        (Sound(Snapshot()) <==> Benign(old(Snapshot()), Op.Execute(shell, loads)))
    {
      hide NewPid, RstAfter, Sound, Benign, Launched, Chooses, Started, NotStarted;
      ghost var s := Snapshot();
      SoundAfter(s, Op.Execute(shell, loads));
      ExecuteLaw(s, shell, loads);
      RefusalFields(s, shell, loads);
      PidRange(s, cr3, shell);
      pcbCr3 := cr3;
      assert Snapshot() == s.(pcbCr3 := s.cr3);
      ChoosePid(shell);
      if newPid == MAX_TASKS {
        return -1;
      }
      var ok := Launch(loads);
      return if ok then 0 else -1;
    }

    method Launch(loads: bool) returns (ok: bool)
      requires Shaped(Snapshot()) && 1 <= newPid < MAX_TASKS
      modifies this
      ensures newPid == old(newPid) && Snapshot() == Launched(old(Snapshot()), newPid, loads) && ok == loads
    {
      Record();
      ok := Load(loads);
      if ok {
        Activate();
      }
    }

    /** The new process's table entry, and the caller's PCB. */
    method Record()
      requires |tasks| == |slots| == MAX_TASKS && cr3 < MAX_TASKS && newPid < MAX_TASKS
      modifies this`tasks, this`slots
      ensures var me := if cr3 == 0 then 1 else cr3;
        && tasks == old(tasks)[newPid := me]
        && slots == if newPid != 1 then old(slots)[me := pcbCr3] else old(slots)
    {
      var curPid := cr3;
      if curPid == 0 {
        curPid := curPid + 1;
      }
      tasks := tasks[newPid := curPid];
      if newPid != 1 {
        slots := slots[curPid := pcbCr3];
      }
    }

    /** The new process's PCB, once its page directory is in use. */
    method Activate()
      requires |press| == 4 && |slots| == MAX_TASKS && newPid < MAX_TASKS
      modifies this`press, this`pcbCr3, this`slots
      ensures press == old(press)[2 := false][3 := false]
      ensures slots == old(slots)[newPid := cr3] && pcbCr3 == newPid
    {
      press := press[2 := false][3 := false];
      pcbCr3 := cr3;
      slots := slots[newPid := pcbCr3];
      pcbCr3 := newPid;
    }

    /** What `loader` does to these globals once the file is found to be executable. */
    method Load(loads: bool) returns (ok: bool)
      requires 1 <= newPid < MAX_TASKS
      modifies this`cr3, this`pc
      ensures ok == loads
      ensures if loads then cr3 == newPid && pc == (if Counted(newPid) then (old(pc) + 1) % 0x1_0000_0000 else old(pc))
              else cr3 == old(cr3) && pc == old(pc)
    {
      if !loads {
        return false;
      }
      cr3 := newPid;
      if newPid == 1 || newPid == 4 || newPid == 5 || newPid == 6 {
        pc := (pc + 1) % 0x1_0000_0000;
      }
      return true;
    }

    /** `halt`: on a sound table a program returns to the process named by its table entry. */
    method Halt(loads: bool)
      requires Shaped(Snapshot())
      modifies this
      ensures Snapshot() == Halted(old(Snapshot()), loads)
      ensures Sound(old(Snapshot())) ==> (Sound(Snapshot()) <==> Benign(old(Snapshot()), Op.Halt(loads)))
      ensures Sound(old(Snapshot())) && old(cr3) >= 4 ==> cr3 == old(tasks[cr3])
      ensures old(cr3) >= 4 ==>
        && tasks == old(tasks)[old(cr3) := 0] && cr3 == old(slots[tasks[cr3]])
        && pc == (if old(pc) > 0 then old(pc) - 1 else 0xFFFF_FFFF)
        && slots == old(slots) && pcbCr3 == old(pcbCr3) && curTerm == old(curTerm) && termCr3 == old(termCr3)
        && flag == old(flag) && press == old(press) && rst == old(rst)
      // A shell: with nothing else counted pid 1 starts and the restart flag stays up.
      ensures Sound(old(Snapshot())) && old(cr3) <= 3 ==>
        var me, p := old(cr3), if old(pc) == 1 then 1 else old(cr3);
        && 1 <= me && old(pc) >= 1
        && tasks == old(tasks)[me := 0][p := me] && cr3 == (if loads then p else me)
        && pc == old(pc) - 1 + (if loads && p == 1 then 1 else 0)
        && rst == (if old(pc) == 1 then old(rst)[me := true] else old(rst))
        && press == old(press) && flag == old(flag) && curTerm == old(curTerm) && termCr3 == old(termCr3)
    {
      hide Sound, Benign, Executed, Chooses, Started, NotStarted;
      HaltFields(Snapshot(), loads);
      SoundAfter(Snapshot(), Op.Halt(loads));
      HaltReturns(Snapshot(), loads);
      var pid := cr3;
      if pid <= 3 {
        if pid != 0 {
          rst := rst[pid := true];
        }
        tasks := tasks[pid := 0];
        pc := Decremented(pc);
        var _ := Execute(true, loads);
        return;
      }
      pc := Decremented(pc);
      var saved := slots[tasks[pid]];
      tasks := tasks[pid := 0];
      cr3 := saved;
    }

    /** A terminal key and the switch it asks for. */
    method SwitchKey(t: nat, loads: bool)
      requires Shaped(Snapshot()) && 1 <= t <= 3
      modifies this
      ensures Snapshot() == Switched(old(Snapshot()), t, loads)
      ensures Sound(old(Snapshot())) ==> (Sound(Snapshot()) <==> Benign(old(Snapshot()), Op.Switch(t, loads)))
      // The key of the terminal on display.
      ensures t == old(curTerm) ==> Snapshot() == old(Snapshot()).(press := if t == 1 then old(press) else old(press)[t := true])
      // Another open terminal.
      ensures t != old(curTerm) && (t == 1 || old(flag)[t]) ==>
        && curTerm == t && cr3 == old(termCr3)[t] && termCr3 == old(termCr3)[old(curTerm) := old(cr3)]
        && pcbCr3 == old(slots)[old(termCr3)[t]] && !press[2] && !press[3]
        && tasks == old(tasks) && pc == old(pc) && slots == old(slots) && flag == old(flag) && rst == old(rst)
      // A terminal that is opened: its shell is started.
      ensures Sound(old(Snapshot())) && t != old(curTerm) && t != 1 && !old(flag)[t] ==>
        && curTerm == t && cr3 == (if loads then t else old(cr3)) && termCr3 == old(termCr3)[old(curTerm) := old(cr3)]
        && tasks == old(tasks)[t := old(cr3)] && pc == old(pc) && flag == old(flag)[t := true] && rst == old(rst)
        && (forall u :: 0 <= u < 4 ==> (press[u] <==> !loads && u == t))
    {
      hide Sound, Benign, Executed, Chooses, Started, NotStarted;
      SwitchFields(Snapshot(), t, loads);
      SoundAfter(Snapshot(), Op.Switch(t, loads));
      if t != 1 {
        press := press[t := true];
      }
      if curTerm == t {
        return;
      }
      termCr3 := termCr3[curTerm := cr3];
      curTerm := t;
      if t != 1 && !flag[t] {
        flag := flag[t := true];
        var _ := Execute(true, loads);
        return;
      }
      press := press[2 := false][3 := false];
      pcbCr3 := slots[termCr3[t]];
      cr3 := termCr3[t];
    }

    /** `open`: stores the current PCB, with whatever directory it names, in the caller's area. */
    method OpenFile()
      requires Shaped(Snapshot())
      modifies this`slots
      ensures Snapshot() == FileOpened(old(Snapshot())) && slots == old(slots)[cr3 := pcbCr3]
      ensures Sound(old(Snapshot())) ==> (Sound(Snapshot()) <==> Benign(old(Snapshot()), Op.OpenFile))
    {
      hide Sound, Benign;
      SoundAfter(Snapshot(), Op.OpenFile);
      slots := slots[cr3 := pcbCr3];
    }

    method Perform(op: Op)
      requires Shaped(Snapshot()) && InRange(op)
      modifies this
      ensures Snapshot() == Step(old(Snapshot()), op)
    {
      hide Sound, Benign, Executed, Halted, Switched, FileOpened;
      match op {
        case Execute(shell, loads) => var _ := Execute(shell, loads);
        case Halt(loads) => Halt(loads);
        case Switch(t, loads) => SwitchKey(t, loads);
        case OpenFile => OpenFile();
      }
    }

    /** Any run of benign calls: the table stays sound throughout. */
    method Drive(ops: seq<Op>)
      requires Sound(Snapshot()) && AllInRange(ops) && AllBenign(Snapshot(), ops)
      modifies this
      ensures Snapshot() == Run(old(Snapshot()), ops) && Sound(Snapshot())
    {
      hide Step, Sound, Benign;
      assert Shaped(Snapshot()) by { SoundShape(Snapshot()); }
      ghost var s := Snapshot();
      var i := 0;
      while i < |ops|
        invariant 0 <= i <= |ops| && Shaped(s) && Snapshot() == Run(s, ops[..i])
      {
        assert ops[..i + 1][..i] == ops[..i];
        Perform(ops[i]);
        i := i + 1;
      }
      assert ops[..i] == ops;
      RunsStaySound(s, ops);
    }
  }
}
