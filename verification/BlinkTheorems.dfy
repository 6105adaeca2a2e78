/** What the blink driver promises over whole runs: timing, multimap behaviour,
    lockstep after sync, and agreement between the list and the screen. */
module BlinkTheorems {
  import opened Machine
  import opened BlinkSpec

  // ---------------------------------------------------------------- timing

  /** How many ticks a programmed length lasts: the countdown is compared as a signed
      word after the decrement, so 0 and everything above 0x8000 last one tick. */
  function Duration(length: uint16): (d: nat)
    ensures 1 <= d
  {
    if 1 <= length <= 0x8000 then length else 1
  }

  lemma ModOf(n: nat, p: nat, q: nat, r: nat)
    requires r < p && n == p * q + r
    ensures n % p == r
  {
    var k := n / p - q;
    assert p * k == r - n % p by {
      assert n == p * (n / p) + n % p;
      assert p * k == p * (n / p) - p * q;
    }
    assert k >= 1 ==> p * k >= p;
    assert k <= -1 ==> p * k <= 0 - p;
  }

  lemma ModSmall(n: nat, p: nat)
    requires 0 < p && n <= p
    ensures n % p == if n == p then 0 else n
  {
    if n == p { ModOf(n, p, 1, 0); } else { ModOf(n, p, 0, n); }
  }

  lemma NextMod(n: nat, p: nat)
    requires p > 0
    ensures (n + 1) % p == if n % p + 1 == p then 0 else n % p + 1
  {
    var q, r := n / p, n % p;
    if r + 1 == p {
      assert p * (q + 1) == p * q + p;
      ModOf(n + 1, p, q + 1, 0);
    } else {
      ModOf(n + 1, p, q, r + 1);
    }
  }

  function Period(e: Entry): (p: nat)
    ensures p >= 2
  {
    Duration(e.onLength) + Duration(e.offLength)
  }

  /** The entry as it stands `m` ticks into its period. */
  function AtPhase(e: Entry, m: nat): Entry
    requires m < Period(e)
  {
    var on := Duration(e.onLength);
    if m < on then e.(status := 1, countdown := e.onLength - m)
    else e.(status := 0, countdown := e.offLength - (m - on))
  }

  lemma TickPhase(e: Entry, m: nat)
    requires m < Period(e)
    ensures Tick(AtPhase(e, m)) == AtPhase(e, if m + 1 == Period(e) then 0 else m + 1)
  {
  }

  /** Closed form: `n` ticks after an entry was added. */
  lemma {:induction false} Schedule(e: Entry, n: nat)
    ensures Ticks(Fresh(e), n) == AtPhase(e, n % Period(e))
  {
    if n == 0 {
      ModSmall(0, Period(e));
    } else {
      Schedule(e, n - 1);
      TickPhase(e, (n - 1) % Period(e));
      NextMod(n - 1, Period(e));
    }
  }

  lemma LitPhase(e: Entry, n: nat)
    ensures Lit(Ticks(Fresh(e), n)) <==> n % Period(e) < Duration(e.onLength)
  {
    hide Ticks, Period;
    Schedule(e, n);
  }

  /** The documented law at one tick. */
  ghost predicate LawAt(e: Entry, n: nat)
    requires e.onLength + e.offLength > 0
  {
    Lit(Ticks(Fresh(e), n)) <==> n % (e.onLength + e.offLength) < e.onLength
  }

  predicate Plain(length: uint16) {
    1 <= length <= 0x8000
  }

  lemma LawHolds(e: Entry, n: nat)
    requires Plain(e.onLength) && Plain(e.offLength)
    ensures LawAt(e, n)
  {
    hide Ticks, Lit;
    assert Period(e) == e.onLength + e.offLength && Duration(e.onLength) == e.onLength;
    LitPhase(e, n);
  }

  /** The first tick at which the code and the law part. */
  lemma LawFails(e: Entry) returns (n: nat)
    requires e.onLength + e.offLength > 0 && !(Plain(e.onLength) && Plain(e.offLength))
    ensures !LawAt(e, n)
  {
    hide Ticks, Lit;
    var on, total := Duration(e.onLength), e.onLength + e.offLength;
    n := if e.onLength == 0 then 0 else if e.offLength == 0 || e.onLength > 0x8000 then on else on + 1;
    LitPhase(e, n);
    ModSmall(n, Period(e));
    ModSmall(n, total);
  }

  /** `n mod (on + off) < on` holds at every tick exactly for lengths between 1 and 0x8000. */
  lemma DocumentedLawIff(e: Entry)
    requires e.onLength + e.offLength > 0
    ensures (forall n: nat :: LawAt(e, n)) <==> Plain(e.onLength) && Plain(e.offLength)
  {
    hide LawAt;
    if Plain(e.onLength) && Plain(e.offLength) {
      forall n: nat ensures LawAt(e, n) { LawHolds(e, n); }
    } else {
      var n := LawFails(e);
    }
  }

  // ---------------------------------------------------------------- the entry points, field by field

  /** Add puts the entry in front, lit and with a full countdown, and draws its on character. */
  lemma AddLaw(w: World, e: Entry)
    requires w.Valid() && 0 < e.location < 2000 && |w.entries| < 2000
    ensures var r := Step(w, AddOp(e));
      && |r.entries| == |w.entries| + 1 && r.entries[1..] == w.entries
      && r.entries[0].location == e.location
      && r.entries[0].onChar == e.onChar && r.entries[0].offChar == e.offChar
      && r.entries[0].onLength == e.onLength && r.entries[0].offLength == e.offLength
      && r.entries[0].countdown == e.onLength && r.entries[0].status == 1
      && (forall p :: 0 <= p < 4000 ==> r.video[p] == if p == 2 * e.location then e.onChar else w.video[p])
  {
    assert ([Fresh(e)] + w.entries)[1..] == w.entries;
  }

  /** Remove takes out the newest entry, number `k`, at the location in the low half of its argument. */
  lemma RemoveLaw(w: World, high: uint16, loc: uint16, k: nat)
    requires w.Valid() && k < |w.entries| && w.entries[k].location == loc
    requires forall i :: 0 <= i < k ==> w.entries[i].location != loc
    ensures var arg: uint32 := high * 0x1_0000 + loc;
      var r := Step(w, RemoveOp(arg));
      r.entries == w.entries[..k] + w.entries[k + 1..] && r.video == w.video
  {
    hide FindIndex;
    var arg: uint32 := high * 0x1_0000 + loc;
    Halves(high, loc);
    FoundFirst(w.entries, loc, k);
  }

  lemma Halves(high: uint16, low: uint16)
    ensures Low(high * 0x1_0000 + low) == low && High(high * 0x1_0000 + low) == high
  {
  }

  lemma FoundFirst(es: seq<Entry>, loc: uint16, k: nat)
    requires k < |es| && es[k].location == loc && forall i :: 0 <= i < k ==> es[i].location != loc
    ensures FindIndex(es, loc) == k
  {
    var j := FindIndex(es, loc);
    assert j < |es| ==> es[j].location == loc;
  }

  lemma FoundNone(es: seq<Entry>, loc: uint16)
    requires forall i :: 0 <= i < |es| ==> es[i].location != loc
    ensures FindIndex(es, loc) == |es|
  {
  }

  /** Sync gives the newest entry at `to`, number `j`, the four timing fields of the newest entry at
      `from`, number `i`; it keeps its place and characters and draws its off character. */
  lemma SyncLaw(w: World, from: uint16, to: uint16, i: nat, j: nat)
    requires w.Valid() && i < |w.entries| && w.entries[i].location == from
    requires j < |w.entries| && w.entries[j].location == to
    requires forall k :: 0 <= k < i ==> w.entries[k].location != from
    requires forall k :: 0 <= k < j ==> w.entries[k].location != to
    ensures var es, r := w.entries, Step(w, SyncOp(from * 0x1_0000 + to));
      && |r.entries| == |es| && (forall k :: 0 <= k < |es| && k != j ==> r.entries[k] == es[k])
      && r.entries[j].onLength == es[i].onLength && r.entries[j].offLength == es[i].offLength
      && r.entries[j].countdown == es[i].countdown && r.entries[j].status == es[i].status
      && r.entries[j].location == to
      && r.entries[j].onChar == es[j].onChar && r.entries[j].offChar == es[j].offChar
      && (forall p :: 0 <= p < 4000 ==> r.video[p] == if p == 2 * to then es[j].offChar else w.video[p])
  {
    hide FindIndex;
    Halves(from, to);
    FoundFirst(w.entries, from, i);
    FoundFirst(w.entries, to, j);
  }

  /** Without an entry at either location nothing changes. */
  lemma SyncFails(w: World, from: uint16, to: uint16)
    requires w.Valid()
    requires (forall k :: 0 <= k < |w.entries| ==> w.entries[k].location != from)
      || (forall k :: 0 <= k < |w.entries| ==> w.entries[k].location != to)
    ensures Step(w, SyncOp(from * 0x1_0000 + to)) == w
  {
    hide FindIndex;
    Halves(from, to);
    if forall k :: 0 <= k < |w.entries| ==> w.entries[k].location != from {
      FoundNone(w.entries, from);
    } else {
      FoundNone(w.entries, to);
    }
  }

  /** One tick of one entry: the countdown goes down by one in 16 bits; unless it is then a
      positive signed word, the status flips and the other length is loaded. */
  lemma TickLaw(e: Entry)
    ensures var c, r := (e.countdown + 0xFFFF) % 0x1_0000, Tick(e);
      && r.location == e.location && r.onChar == e.onChar && r.offChar == e.offChar
      && r.onLength == e.onLength && r.offLength == e.offLength
      && (1 <= c <= 0x7FFF ==> r.countdown == c && r.status == e.status)
      && (!(1 <= c <= 0x7FFF) && e.status % 2 == 1 ==> r.countdown == e.offLength && r.status == e.status - 1)
      && (!(1 <= c <= 0x7FFF) && e.status % 2 == 0 ==> r.countdown == e.onLength && r.status == e.status + 1)
  {
  }

  // ---------------------------------------------------------------- multimap

  /** The entries at one location, newest first. */
  ghost function At(es: seq<Entry>, loc: uint16): (r: seq<Entry>)
    ensures |r| <= |es|
  {
    if es == [] then []
    else (if es[0].location == loc then [es[0]] else []) + At(es[1..], loc)
  }

  /** A multimap: a stack of entries for each screen cell. */
  datatype Multimap = Multimap(stacks: seq<seq<Entry>>, size: nat)

  ghost predicate Has(m: Multimap, loc: uint16)
    requires |m.stacks| == CELLS
  {
    loc < CELLS && m.stacks[loc] != []
  }

  ghost function MapStep(m: Multimap, op: Op): (r: Multimap)
    requires |m.stacks| == CELLS
    ensures |r.stacks| == CELLS
  {
    match op
    case AddOp(e) =>
      if e.location < CELLS && m.size < CELLS then
        Multimap(m.stacks[e.location := [Fresh(e)] + m.stacks[e.location]], m.size + 1)
      else m
    case RemoveOp(arg) =>
      var l := Low(arg);
      if Has(m, l) && m.size > 0 then Multimap(m.stacks[l := m.stacks[l][1..]], m.size - 1) else m
    case FindOp(_) => m
    case SyncOp(arg) =>
      var h, l := High(arg), Low(arg);
      if Has(m, h) && Has(m, l) then
        m.(stacks := m.stacks[l := [CopyTiming(m.stacks[l][0], m.stacks[h][0])] + m.stacks[l][1..]])
      else m
    case TickOp =>
      m.(stacks := seq(CELLS, l requires 0 <= l < CELLS => TickAll(m.stacks[l])))
  }

  ghost function MapRun(m: Multimap, ops: seq<Op>): (r: Multimap)
    requires |m.stacks| == CELLS
    ensures |r.stacks| == CELLS
    decreases |ops|
  {
    if ops == [] then m
    else MapStep(MapRun(m, ops[..|ops| - 1]), ops[|ops| - 1])
  }

  ghost function Abstract(es: seq<Entry>): (m: Multimap)
    ensures |m.stacks| == CELLS
  {
    Multimap(seq(CELLS, l requires 0 <= l < CELLS => At(es, l)), |es|)
  }

  lemma {:induction false} AtConcat(a: seq<Entry>, b: seq<Entry>, loc: uint16)
    ensures At(a + b, loc) == At(a, loc) + At(b, loc)
    decreases |a|
  {
    hide At;
    if a == [] {
      assert a + b == b;
      AtNil(loc);
      assert [] + At(b, loc) == At(b, loc);
    } else {
      AtConcat(a[1..], b, loc);
      assert a == [a[0]] + a[1..];
      assert a + b == [a[0]] + (a[1..] + b);
      AtCons(a[0], a[1..], loc);
      AtCons(a[0], a[1..] + b, loc);
      Regroup(Top(a[0], loc), At(a[1..], loc), At(b, loc));
    }
  }

  function Top(e: Entry, loc: uint16): seq<Entry> {
    if e.location == loc then [e] else []
  }

  lemma AtNil(loc: uint16)
    ensures At([], loc) == []
  {
  }

  lemma AtCons(e: Entry, es: seq<Entry>, loc: uint16)
    ensures At([e] + es, loc) == Top(e, loc) + At(es, loc)
  {
    assert ([e] + es)[1..] == es;
  }

  lemma Regroup(a: seq<Entry>, b: seq<Entry>, c: seq<Entry>)
    ensures a + (b + c) == a + b + c
  {
  }

  lemma {:induction false} AtNone(es: seq<Entry>, loc: uint16)
    requires forall i :: 0 <= i < |es| ==> es[i].location != loc
    ensures At(es, loc) == []
    decreases |es|
  {
    if es != [] { AtNone(es[1..], loc); }
  }

  lemma {:induction false} AtTick(es: seq<Entry>, loc: uint16)
    ensures At(TickAll(es), loc) == TickAll(At(es, loc))
    decreases |es|
  {
    if es != [] {
      assert TickAll(es)[1..] == TickAll(es[1..]);
      AtTick(es[1..], loc);
    }
  }

  /** One entry in the middle of the list, seen from one location. */
  lemma AtAround(a: seq<Entry>, e: Entry, b: seq<Entry>, loc: uint16)
    ensures At(a + [e] + b, loc) == At(a, loc) + (if e.location == loc then [e] else []) + At(b, loc)
  {
    AtConcat(a + [e], b, loc);
    AtConcat(a, [e], loc);
    assert [e][1..] == [];
  }

  /** The newest entry at `loc` is the top of its stack; there is none exactly when
      the stack is empty. */
  lemma FindIsTop(es: seq<Entry>, loc: uint16)
    ensures var k := FindIndex(es, loc);
      && (k == |es| <==> At(es, loc) == [])
      && (k < |es| ==> At(es, loc) == [es[k]] + At(es[k + 1..], loc))
  {
    var k := FindIndex(es, loc);
    if k == |es| {
      AtNone(es, loc);
    } else {
      assert es == es[..k] + [es[k]] + es[k + 1..];
      AtAround(es[..k], es[k], es[k + 1..], loc);
      AtNone(es[..k], loc);
    }
  }

  lemma RemoveAt(es: seq<Entry>, target: uint16, loc: uint16)
    requires FindIndex(es, target) < |es|
    ensures |At(es, target)| > 0
    ensures At(Removed(es, target), loc) == if loc == target then At(es, loc)[1..] else At(es, loc)
  {
    hide At;
    var k := FindIndex(es, target);
    var a, b := es[..k], es[k + 1..];
    assert es == a + [es[k]] + b;
    assert Removed(es, target) == a + b;
    FindIsTop(es, target);
    AtAround(a, es[k], b, loc);
    AtConcat(a, b, loc);
    if loc == target { AtNone(a, loc); }
  }

  lemma ReplaceAt(es: seq<Entry>, target: uint16, e: Entry, loc: uint16)
    requires FindIndex(es, target) < |es| && e.location == target
    ensures |At(es, target)| > 0
    ensures At(es[FindIndex(es, target) := e], loc)
            == if loc == target then [e] + At(es, loc)[1..] else At(es, loc)
  {
    hide At;
    var k := FindIndex(es, target);
    var a, b := es[..k], es[k + 1..];
    assert es == a + [es[k]] + b;
    assert es[k := e] == a + [e] + b;
    FindIsTop(es, target);
    AtAround(a, es[k], b, loc);
    AtAround(a, e, b, loc);
    if loc == target { AtNone(a, loc); }
  }

  lemma RemoveRefines(w: World, arg: uint32)
    requires w.Valid()
    ensures Abstract(Step(w, RemoveOp(arg)).entries) == MapStep(Abstract(w.entries), RemoveOp(arg))
  {
    hide FindIndex, At;
    var es := w.entries;
    var r, m := Abstract(Step(w, RemoveOp(arg)).entries), MapStep(Abstract(es), RemoveOp(arg));
    FindIsTop(es, Low(arg));
    if FindIndex(es, Low(arg)) < |es| {
      forall l | 0 <= l < CELLS ensures r.stacks[l] == m.stacks[l] {
        RemoveAt(es, Low(arg), l);
      }
    }
  }

  lemma SyncRefines(w: World, arg: uint32)
    requires w.Valid()
    ensures Abstract(Step(w, SyncOp(arg)).entries) == MapStep(Abstract(w.entries), SyncOp(arg))
  {
    hide FindIndex, At;
    var es := w.entries;
    var r, m := Abstract(Step(w, SyncOp(arg)).entries), MapStep(Abstract(es), SyncOp(arg));
    FindIsTop(es, High(arg));
    FindIsTop(es, Low(arg));
    if SyncSucceeds(es, arg) {
      var i, j := FindIndex(es, High(arg)), FindIndex(es, Low(arg));
      forall l | 0 <= l < CELLS ensures r.stacks[l] == m.stacks[l] {
        ReplaceAt(es, Low(arg), CopyTiming(es[j], es[i]), l);
      }
    }
  }

  /** Every entry point acts on the multimap as its name says: add pushes, remove pops
      and re-exposes, sync retimes one top, a tick ages everything. */
  lemma StepRefines(w: World, op: Op)
    requires w.Valid() && Allowed(op)
    ensures Abstract(Step(w, op).entries) == MapStep(Abstract(w.entries), op)
  {
    var es := w.entries;
    match op
    case AddOp(e) =>
      if AddSucceeds(es, e) {
        forall l | 0 <= l < CELLS
          ensures Abstract(Step(w, op).entries).stacks[l] == MapStep(Abstract(es), op).stacks[l]
        {
          assert ([Fresh(e)] + es)[1..] == es;
        }
      }
    case RemoveOp(arg) => RemoveRefines(w, arg);
    case FindOp(_) =>
    case SyncOp(arg) => SyncRefines(w, arg);
    case TickOp =>
      forall l | 0 <= l < CELLS
        ensures Abstract(Step(w, op).entries).stacks[l] == MapStep(Abstract(es), op).stacks[l]
      {
        AtTick(es, l);
      }
  }

  lemma {:induction false} RunRefines(w: World, ops: seq<Op>)
    requires w.Valid() && AllAllowed(ops)
    ensures Abstract(Run(w, ops).entries) == MapRun(Abstract(w.entries), ops)
    decreases |ops|
  {
    if ops != [] {
      var front := ops[..|ops| - 1];
      RunRefines(w, front);
      StepRefines(Run(w, front), ops[|ops| - 1]);
    }
  }

  // ---------------------------------------------------------------- runs

  /** Does an operation change which entries a location has, or retime them? */
  predicate Touches(op: Op, loc: uint16) {
    match op
    case AddOp(e) => e.location == loc
    case RemoveOp(arg) => Low(arg) == loc
    case SyncOp(arg) => Low(arg) == loc
    case FindOp(_) => false
    case TickOp => false
  }

  predicate Undisturbed(ops: seq<Op>, loc: uint16) {
    forall i :: 0 <= i < |ops| ==> !Touches(ops[i], loc)
  }

  function TickCount(ops: seq<Op>): nat
    decreases |ops|
  {
    if ops == [] then 0
    else TickCount(ops[..|ops| - 1]) + if ops[|ops| - 1].TickOp? then 1 else 0
  }

  /** Between operations that touch it, a location only ages. */
  lemma {:induction false} OnlyAges(m: Multimap, ops: seq<Op>, loc: uint16)
    requires |m.stacks| == CELLS && loc < CELLS && Undisturbed(ops, loc)
    ensures |MapRun(m, ops).stacks[loc]| == |m.stacks[loc]|
    ensures forall i :: 0 <= i < |m.stacks[loc]| ==>
      MapRun(m, ops).stacks[loc][i] == Ticks(m.stacks[loc][i], TickCount(ops))
    decreases |ops|
  {
    if ops != [] {
      var front, op := ops[..|ops| - 1], ops[|ops| - 1];
      OnlyAges(m, front, loc);
      assert !Touches(op, loc);
    }
  }

  /** The entry found at `loc`, if any. */
  ghost function Found(es: seq<Entry>, loc: uint16): Entry
    requires FindIndex(es, loc) < |es|
  {
    es[FindIndex(es, loc)]
  }

  lemma FoundAfter(w: World, ops: seq<Op>, loc: uint16)
    requires w.Valid() && AllAllowed(ops) && Undisturbed(ops, loc)
    requires FindIndex(w.entries, loc) < |w.entries|
    ensures var es := Run(w, ops).entries;
      FindIndex(es, loc) < |es| && Found(es, loc) == Ticks(Found(w.entries, loc), TickCount(ops))
  {
    hide Run, MapRun, FindIndex;
    var es := Run(w, ops).entries;
    RunRefines(w, ops);
    FindIsTop(w.entries, loc);
    FindIsTop(es, loc);
    assert 0 < loc < CELLS by { assert w.entries[FindIndex(w.entries, loc)].location == loc; }
    OnlyAges(Abstract(w.entries), ops, loc);
    assert Abstract(w.entries).stacks[loc] == At(w.entries, loc);
    assert Abstract(es).stacks[loc] == At(es, loc);
    assert At(w.entries, loc)[0] == Found(w.entries, loc);
    assert At(es, loc)[0] == Found(es, loc);
  }

  /** After a successful add, and any run that leaves the location alone, `find` gives
      the added entry, lit exactly in the first part of each period. */
  lemma AddedEntryBlinks(w: World, e: Entry, ops: seq<Op>)
    requires w.Valid() && e.location != 0 && AddSucceeds(w.entries, e)
    requires AllAllowed(ops) && Undisturbed(ops, e.location)
    ensures var es := Run(Step(w, AddOp(e)), ops).entries;
      && FindIndex(es, e.location) < |es|
      && Found(es, e.location) == Ticks(Fresh(e), TickCount(ops))
      && (Lit(Found(es, e.location)) <==>
          TickCount(ops) % Period(e) < Duration(e.onLength))
  {
    var w' := Step(w, AddOp(e));
    assert w'.entries[0] == Fresh(e);
    assert FindIndex(w'.entries, e.location) == 0;
    FoundAfter(w', ops, e.location);
    Schedule(e, TickCount(ops));
  }

  ghost predicate SameTiming(a: Entry, b: Entry) {
    a.onLength == b.onLength && a.offLength == b.offLength && a.countdown == b.countdown && a.status == b.status
  }

  lemma {:induction false} TicksKeepStep(a: Entry, b: Entry, n: nat)
    requires SameTiming(a, b)
    ensures SameTiming(Ticks(a, n), Ticks(b, n))
  {
    if n > 0 { TicksKeepStep(a, b, n - 1); }
  }

  /** A successful sync puts two entries in step, and they stay in step. */
  lemma SyncedStayInStep(w: World, arg: uint32, ops: seq<Op>)
    requires w.Valid() && SyncSucceeds(w.entries, arg)
    requires AllAllowed(ops) && Undisturbed(ops, High(arg)) && Undisturbed(ops, Low(arg))
    ensures var es := Run(Step(w, SyncOp(arg)), ops).entries;
      && FindIndex(es, High(arg)) < |es| && FindIndex(es, Low(arg)) < |es|
      && SameTiming(Found(es, High(arg)), Found(es, Low(arg)))
      && Found(es, Low(arg)) == Ticks(CopyTiming(Found(w.entries, Low(arg)), Found(w.entries, High(arg))), TickCount(ops))
  {
    var es, es' := w.entries, Step(w, SyncOp(arg)).entries;
    var i, j := FindIndex(es, High(arg)), FindIndex(es, Low(arg));
    SameFirst(es, es', High(arg));
    SameFirst(es, es', Low(arg));
    FoundAfter(Step(w, SyncOp(arg)), ops, High(arg));
    FoundAfter(Step(w, SyncOp(arg)), ops, Low(arg));
    TicksKeepStep(es'[i], es'[j], TickCount(ops));
  }

  lemma SameFirst(es: seq<Entry>, es': seq<Entry>, loc: uint16)
    requires |es| == |es'| && forall i :: 0 <= i < |es| ==> es[i].location == es'[i].location
    ensures FindIndex(es, loc) == FindIndex(es', loc)
  {
    var k, k' := FindIndex(es, loc), FindIndex(es', loc);
    assert k < |es| && k < |es'| ==> es[k].location == es'[k].location;
    assert k' < |es| && k' < |es'| ==> es[k'].location == es'[k'].location;
  }

  // ---------------------------------------------------------------- screen

  function Face(e: Entry): byte {
    if Lit(e) then e.onChar else e.offChar
  }

  /** Live locations are distinct and every live cell shows its entry's face. */
  ghost predicate Shown(w: World)
    requires w.Valid()
  {
    && (forall i, j :: 0 <= i < j < |w.entries| ==> w.entries[i].location != w.entries[j].location)
    && (forall i :: 0 <= i < |w.entries| ==> w.video[2 * w.entries[i].location] == Face(w.entries[i]))
  }

  lemma {:induction false} TickVideoCells(v: seq<byte>, es: seq<Entry>, k: nat)
    requires Placed(es) && |v| == VIDEO_BYTES && k <= |es|
    ensures forall p :: 0 <= p < |v| && (forall i :: 0 <= i < k ==> p != 2 * es[i].location) ==>
      TickVideo(v, es, k)[p] == v[p]
    ensures (forall i, j :: 0 <= i < j < |es| ==> es[i].location != es[j].location) ==>
      forall i :: 0 <= i < k ==>
        TickVideo(v, es, k)[2 * es[i].location] == if Expires(es[i]) then Face(Tick(es[i])) else v[2 * es[i].location]
  {
    if k > 0 {
      TickVideoCells(v, es, k - 1);
    }
  }

  lemma StepKeepsAttributes(w: World, op: Op, p: nat)
    requires w.Valid() && Allowed(op) && p < VIDEO_BYTES && p % 2 == 1
    ensures Step(w, op).video[p] == w.video[p]
  {
    hide FindIndex;
    if op.TickOp? {
      forall i | 0 <= i < |w.entries| ensures p != 2 * w.entries[i].location {}
      TickVideoCells(w.video, w.entries, |w.entries|);
    }
  }

  lemma {:induction false} AttributesKept(w: World, ops: seq<Op>, p: nat)
    requires w.Valid() && AllAllowed(ops) && p < VIDEO_BYTES && p % 2 == 1
    ensures Run(w, ops).video[p] == w.video[p]
    decreases |ops|
  {
    hide Step;
    if ops != [] {
      AttributesKept(w, ops[..|ops| - 1], p);
      StepKeepsAttributes(Run(w, ops[..|ops| - 1]), ops[|ops| - 1], p);
    }
  }

  /** What an operation must satisfy for the screen to keep agreeing with the list:
      no second live entry on one cell, and no sync that lights a cell whose two
      characters differ (sync always draws OFF_CHAR). */
  ghost predicate Harmless(w: World, op: Op) {
    match op
    case AddOp(e) => AddSucceeds(w.entries, e) ==> FindIndex(w.entries, e.location) == |w.entries|
    case SyncOp(arg) => SyncSucceeds(w.entries, arg) ==>
      var to := Found(w.entries, Low(arg));
      !Lit(Found(w.entries, High(arg))) || to.onChar == to.offChar
    case RemoveOp(_) => true
    case FindOp(_) => true
    case TickOp => true
  }

  lemma AddShownIff(w: World, e: Entry)
    requires w.Valid() && e.location != 0 && Shown(w)
    ensures Shown(Step(w, AddOp(e))) <==> Harmless(w, AddOp(e))
  {
    hide FindIndex, Shown;
    if AddSucceeds(w.entries, e) {
      var k := FindIndex(w.entries, e.location);
      if k < |w.entries| { AddedTwice(w, e, k); } else { AddedShown(w, e); }
    }
  }

  lemma AddedTwice(w: World, e: Entry, k: nat)
    requires w.Valid() && e.location != 0 && AddSucceeds(w.entries, e)
    requires k < |w.entries| && w.entries[k].location == e.location
    ensures !Shown(Step(w, AddOp(e)))
  {
    var es := Step(w, AddOp(e)).entries;
    assert es[0].location == es[k + 1].location;
  }

  lemma AddedShown(w: World, e: Entry)
    requires w.Valid() && e.location != 0 && Shown(w) && AddSucceeds(w.entries, e)
    requires forall i :: 0 <= i < |w.entries| ==> w.entries[i].location != e.location
    ensures Shown(Step(w, AddOp(e)))
  {
    hide Face;
    var es, w' := w.entries, Step(w, AddOp(e));
    assert Face(Fresh(e)) == e.onChar by { FreshIsLit(e); }
    forall i | 0 <= i < |w'.entries| ensures w'.video[2 * w'.entries[i].location] == Face(w'.entries[i]) {
      assert i > 0 ==> w'.entries[i] == es[i - 1];
    }
    forall i, j | 0 <= i < j < |w'.entries| ensures w'.entries[i].location != w'.entries[j].location {
      assert w'.entries[j] == es[j - 1] && (i > 0 ==> w'.entries[i] == es[i - 1]);
    }
  }

  lemma FreshIsLit(e: Entry)
    ensures Face(Fresh(e)) == e.onChar
  {
  }

  lemma RemovedShown(w: World, arg: uint32)
    requires w.Valid() && Shown(w)
    ensures Shown(Step(w, RemoveOp(arg)))
  {
    hide FindIndex, Face;
    var es, es' := w.entries, Step(w, RemoveOp(arg)).entries;
    var k := FindIndex(es, Low(arg));
    if k < |es| {
      assert forall i :: 0 <= i < |es'| ==> es'[i] == es[if i < k then i else i + 1];
    }
  }

  lemma TickShown(w: World)
    requires w.Valid() && Shown(w)
    ensures Shown(Step(w, TickOp))
  {
    hide TickVideo;
    var es, w' := w.entries, Step(w, TickOp);
    TickVideoCells(w.video, es, |es|);
    forall i | 0 <= i < |es| ensures w'.video[2 * w'.entries[i].location] == Face(w'.entries[i]) {
      assert w'.entries[i] == Tick(es[i]);
      assert w.video[2 * es[i].location] == Face(es[i]);
    }
  }

  lemma SyncShownIff(w: World, arg: uint32)
    requires w.Valid() && Shown(w)
    ensures Shown(Step(w, SyncOp(arg))) <==> Harmless(w, SyncOp(arg))
  {
    hide FindIndex;
    var es, w' := w.entries, Step(w, SyncOp(arg));
    if SyncSucceeds(es, arg) {
      var i, j := FindIndex(es, High(arg)), FindIndex(es, Low(arg));
      assert w'.entries[j] == CopyTiming(es[j], es[i]);
      assert w'.video[2 * w'.entries[j].location] == es[j].offChar;
      assert forall k :: 0 <= k < |es| && k != j ==> w'.entries[k] == es[k] && es[k].location != es[j].location;
      assert Harmless(w, SyncOp(arg)) <==> w'.video[2 * w'.entries[j].location] == Face(w'.entries[j]);
    }
  }

  /** Exactly the harmless operations keep the screen and the list in agreement. */
  lemma StepShownIff(w: World, op: Op)
    requires w.Valid() && Allowed(op) && Shown(w)
    ensures Shown(Step(w, op)) <==> Harmless(w, op)
  {
    hide Shown;
    match op
    case AddOp(e) => AddShownIff(w, e);
    case RemoveOp(arg) => RemovedShown(w, arg);
    case FindOp(_) =>
    case SyncOp(arg) => SyncShownIff(w, arg);
    case TickOp => TickShown(w);
  }

  ghost predicate AllHarmless(w: World, ops: seq<Op>)
    requires w.Valid() && AllAllowed(ops)
  {
    forall i :: 0 <= i < |ops| ==> Harmless(Run(w, ops[..i]), ops[i])
  }

  /** Over every run of harmless operations each live cell shows on_char exactly when
      its entry is lit. */
  lemma {:induction false} ScreenAgrees(w: World, ops: seq<Op>)
    requires w.Valid() && AllAllowed(ops) && Shown(w) && AllHarmless(w, ops)
    ensures Shown(Run(w, ops))
    decreases |ops|
  {
    if ops != [] {
      var front := ops[..|ops| - 1];
      forall i | 0 <= i < |front| ensures Harmless(Run(w, front[..i]), front[i]) {
        assert front[..i] == ops[..i];
      }
      ScreenAgrees(w, front);
      StepShownIff(Run(w, front), ops[|ops| - 1]);
    }
  }
}
