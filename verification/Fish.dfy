/** The fish demonstration (fish/fish.c): the requests of add_frames, given to the blink driver,
    animate the two files on the screen. */
module Fish {
  import opened Machine
  import opened BlinkSpec
  import BT = BlinkTheorems
  import F = Frames

  const HALF := 15

  /** The structure add_frames passes to the driver; countdown and status are set by the driver. */
  function EntryOf(q: F.Request): Entry {
    Entry(q.location, q.onChar, q.offChar, HALF, HALF, 0, 0)
  }

  function Adds(qs: seq<F.Request>): (ops: seq<Op>)
    ensures |ops| == |qs|
    ensures forall i :: 0 <= i < |qs| ==> ops[i] == AddOp(EntryOf(qs[i]))
  {
    seq(|qs|, i requires 0 <= i < |qs| => AddOp(EntryOf(qs[i])))
  }

  function TickOps(n: nat): (ops: seq<Op>)
    ensures |ops| == n && forall i :: 0 <= i < n ==> ops[i] == TickOp
  {
    seq(n, _ => TickOp)
  }

  /** The pictures stay on the screen: no row is wider than it, and the last one ends on it. */
  predicate Fits(s0: seq<seq<byte>>, s1: seq<seq<byte>>, rows: nat) {
    forall r :: 0 <= r < rows ==> RowFits(F.Row(s0, r), F.Row(s1, r), r)
  }

  predicate RowFits(a: seq<byte>, b: seq<byte>, r: nat) {
    F.Width(a, b) <= 80 && r * 80 + F.Width(a, b) + F.OFFSET <= CELLS
  }

  // ------------------------------------------------------------ locations

  ghost predicate Ordered(qs: seq<F.Request>, lo: int, hi: int) {
    && (forall i :: 0 <= i < |qs| ==> lo <= qs[i].location < hi)
    && (forall i, j :: 0 <= i < j < |qs| ==> qs[i].location < qs[j].location)
  }

  lemma OrderedJoin(a: seq<F.Request>, b: seq<F.Request>, lo: int, mid: int, hi: int)
    requires Ordered(a, lo, mid) && Ordered(b, mid, hi) && lo <= mid <= hi
    ensures Ordered(a + b, lo, hi)
  {
  }

  lemma {:induction false} RowOrdered(a: seq<byte>, b: seq<byte>, row: nat, n: nat)
    requires row * 80 + n + F.OFFSET <= CELLS
    ensures Ordered(F.RowRequests(a, b, row, n), row * 80 + F.OFFSET, row * 80 + n + F.OFFSET)
  {
    hide F.RowRequests, F.Visible, F.RequestAt, Ordered;
    if n > 0 {
      var lo, front := row * 80 + F.OFFSET, F.RowRequests(a, b, row, n - 1);
      RowOrdered(a, b, row, n - 1);
      F.RowRequestsStep(a, b, row, n - 1);
      var last := if F.Visible(a, b, n - 1) then [F.RequestAt(a, b, row, n - 1)] else [];
      LastOrdered(a, b, row, n - 1);
      OrderedJoin(front, last, lo, lo + n - 1, lo + n);
    } else {
      F.RowRequestsStep(a, b, row, 0);
      OrderedNone(row * 80 + F.OFFSET);
    }
  }

  lemma OrderedNone(lo: int)
    ensures Ordered([], lo, lo)
  {
  }

  lemma LastOrdered(a: seq<byte>, b: seq<byte>, row: nat, c: nat)
    requires row * 80 + c + F.OFFSET < CELLS
    ensures var lo := row * 80 + F.OFFSET + c;
      Ordered(if F.Visible(a, b, c) then [F.RequestAt(a, b, row, c)] else [], lo, lo + 1)
  {
    hide F.Visible;
  }

  /** Requests come in strictly increasing order of location, so no two share a cell. */
  lemma {:induction false} RequestsOrdered(s0: seq<seq<byte>>, s1: seq<seq<byte>>, n: nat)
    requires Fits(s0, s1, n)
    ensures Ordered(F.Requests(s0, s1, n), F.OFFSET, n * 80 + F.OFFSET)
    ensures Ordered(F.Requests(s0, s1, n), F.OFFSET, CELLS)
  {
    hide F.Requests, F.RowRequests, F.Row, F.Width;
    F.RequestsStep(s0, s1, if n > 0 then n - 1 else 0);
    if n > 0 {
      var a, b := F.Row(s0, n - 1), F.Row(s1, n - 1);
      assert RowFits(a, b, n - 1);
      RequestsOrdered(s0, s1, n - 1);
      RowOrdered(a, b, n - 1, F.Width(a, b));
      OrderedJoin(F.Requests(s0, s1, n - 1), F.RowRequests(a, b, n - 1, F.Width(a, b)),
                  F.OFFSET, (n - 1) * 80 + F.OFFSET, n * 80 + F.OFFSET);
    }
  }

  lemma {:induction false} OrderedShort(qs: seq<F.Request>, lo: int, hi: int)
    requires Ordered(qs, lo, hi) && lo <= hi
    ensures |qs| <= hi - lo
    decreases |qs|
  {
    if qs != [] {
      var n := |qs| - 1;
      OrderedShort(qs[..n], lo, qs[n].location);
    }
  }

  // ------------------------------------------------------------ the driver after the adds

  /** Adding on free cells: the list holds the entries, newest first. */
  lemma {:induction false} AfterAdds(w: World, qs: seq<F.Request>)
    requires w.Valid() && w.entries == [] && Ordered(qs, 1, CELLS)
    ensures AllAllowed(Adds(qs)) && BT.AllHarmless(w, Adds(qs))
    ensures var es := Run(w, Adds(qs)).entries;
      |es| == |qs| && forall j :: 0 <= j < |es| ==> es[j] == Fresh(EntryOf(qs[|qs| - 1 - j]))
    decreases |qs|
  {
    hide Run, FindIndex, BT.Harmless, Step;
    var ops := Adds(qs);
    if qs == [] {
      RunNone(w);
    } else {
      var n := |qs| - 1;
      var front := qs[..n];
      AfterAdds(w, front);
      OrderedShort(qs, 1, CELLS);
      assert ops[..n] == Adds(front);
      RunSnoc(w, ops);
      var w' := Run(w, Adds(front));
      NoneThere(w'.entries, qs[n].location);
      AddOne(w', EntryOf(qs[n]));
      forall i | 0 <= i < |ops| ensures BT.Harmless(Run(w, ops[..i]), ops[i]) {
        if i < n { assert ops[..i] == Adds(front)[..i] && ops[i] == Adds(front)[i]; }
      }
    }
  }

  lemma RunNone(w: World)
    requires w.Valid()
    ensures Run(w, []) == w
  {
  }

  lemma RunSnoc(w: World, ops: seq<Op>)
    requires w.Valid() && AllAllowed(ops) && ops != []
    ensures Run(w, ops) == Step(Run(w, ops[..|ops| - 1]), ops[|ops| - 1])
  {
  }

  lemma NoneThere(es: seq<Entry>, loc: uint16)
    requires forall j :: 0 <= j < |es| ==> es[j].location != loc
    ensures FindIndex(es, loc) == |es|
  {
  }

  lemma AddOne(w: World, e: Entry)
    requires w.Valid() && 0 < e.location < CELLS && |w.entries| < CELLS
    requires FindIndex(w.entries, e.location) == |w.entries|
    ensures Step(w, AddOp(e)).entries == [Fresh(e)] + w.entries && BT.Harmless(w, AddOp(e))
  {
  }

  lemma {:induction false} RunSplit(w: World, a: seq<Op>, b: seq<Op>)
    requires w.Valid() && AllAllowed(a) && AllAllowed(b)
    ensures AllAllowed(a + b) && Run(w, a + b) == Run(Run(w, a), b)
    decreases |b|
  {
    if b == [] {
      assert a + b == a;
    } else {
      assert (a + b)[..|a + b| - 1] == a + b[..|b| - 1];
      RunSplit(w, a, b[..|b| - 1]);
    }
  }

  lemma {:induction false} TicksHarmless(w: World, n: nat)
    requires w.Valid() && BT.Shown(w)
    ensures AllAllowed(TickOps(n)) && BT.Shown(Run(w, TickOps(n)))
  {
    BT.ScreenAgrees(w, TickOps(n));
  }

  lemma {:induction false} CountTicks(a: seq<Op>, n: nat)
    requires forall i :: 0 <= i < |a| ==> !a[i].TickOp?
    ensures BT.TickCount(a + TickOps(n)) == n
    decreases n, |a|
  {
    var ops := a + TickOps(n);
    if n > 0 {
      assert ops[..|ops| - 1] == a + TickOps(n - 1);
      CountTicks(a, n - 1);
    } else if a != [] {
      assert ops == a && a[..|a| - 1] + TickOps(0) == a[..|a| - 1];
      CountTicks(a[..|a| - 1], 0);
    } else {
      assert ops == [];
    }
  }

  // ------------------------------------------------------------ the animation

  /** What follows the `k`-th add: the later ones and the ticks. */
  function Following(qs: seq<F.Request>, n: nat, k: nat): seq<Op>
    requires k < |qs|
  {
    Adds(qs[k + 1..]) + TickOps(n)
  }

  lemma CutAtAdd(qs: seq<F.Request>, n: nat, k: nat)
    requires k < |qs|
    ensures Adds(qs) + TickOps(n) == Adds(qs[..k]) + ([AddOp(EntryOf(qs[k]))] + Following(qs, n, k))
  {
    assert Adds(qs) == Adds(qs[..k]) + ([AddOp(EntryOf(qs[k]))] + Adds(qs[k + 1..]));
  }

  lemma AllowedParts(qs: seq<F.Request>, n: nat, k: nat)
    requires Ordered(qs, 1, CELLS) && k < |qs|
    ensures AllAllowed(Adds(qs)) && AllAllowed(Adds(qs[..k])) && AllAllowed(TickOps(n))
    ensures AllAllowed(Following(qs, n, k)) && AllAllowed([AddOp(EntryOf(qs[k]))])
    ensures AllAllowed([AddOp(EntryOf(qs[k]))] + Following(qs, n, k)) && Allowed(AddOp(EntryOf(qs[k])))
  {
  }

  /** The run seen from its `k`-th add. */
  lemma RunFromAdd(w: World, qs: seq<F.Request>, n: nat, k: nat)
    requires w.Valid() && Ordered(qs, 1, CELLS) && k < |qs|
    ensures AllAllowed(Adds(qs)) && AllAllowed(Adds(qs[..k])) && AllAllowed(Following(qs, n, k))
    ensures AllAllowed(Adds(qs) + TickOps(n)) && Allowed(AddOp(EntryOf(qs[k])))
    ensures Run(w, Adds(qs) + TickOps(n))
      == Run(Step(Run(w, Adds(qs[..k])), AddOp(EntryOf(qs[k]))), Following(qs, n, k))
    ensures Run(w, Adds(qs) + TickOps(n)) == Run(Run(w, Adds(qs)), TickOps(n))
  {
    hide Run, Step, AllAllowed, Ordered, Adds, TickOps, Following;
    var before, op, after := Adds(qs[..k]), AddOp(EntryOf(qs[k])), Following(qs, n, k);
    AllowedParts(qs, n, k);
    RunSplit(w, Adds(qs), TickOps(n));
    CutAtAdd(qs, n, k);
    RunSplit(w, before, [op] + after);
    RunSplit(Run(w, before), [op], after);
    RunOne(Run(w, before), op);
  }

  lemma LaterAddsElsewhere(qs: seq<F.Request>, n: nat, k: nat)
    requires Ordered(qs, 1, CELLS) && k < |qs|
    ensures BT.Undisturbed(Following(qs, n, k), qs[k].location)
    ensures BT.TickCount(Following(qs, n, k)) == n
  {
    var after := Following(qs, n, k);
    CountTicks(Adds(qs[k + 1..]), n);
    forall i | 0 <= i < |after| ensures !BT.Touches(after[i], qs[k].location) {
      if i < |qs| - k - 1 { assert after[i] == AddOp(EntryOf(qs[k + 1 + i])); }
    }
  }

  /** The screen agrees with the list at any time after the adds. */
  lemma ShownAfter(w: World, qs: seq<F.Request>, n: nat)
    requires w.Valid() && w.entries == [] && Ordered(qs, 1, CELLS)
    ensures AllAllowed(Adds(qs)) && BT.Shown(Run(Run(w, Adds(qs)), TickOps(n)))
  {
    hide Run, Step;
    AfterAdds(w, qs);
    assert BT.Shown(w);
    BT.ScreenAgrees(w, Adds(qs));
    TicksHarmless(Run(w, Adds(qs)), n);
  }

  /** `n` ticks after a set of requests on distinct cells, each cell shows its first character in
      the first half of every 30-tick period and its second character in the other half. */
  lemma RequestsAnimate(w: World, qs: seq<F.Request>, n: nat, k: nat)
    requires w.Valid() && w.entries == [] && Ordered(qs, 1, CELLS) && k < |qs|
    ensures AllAllowed(Adds(qs) + TickOps(n))
    ensures Run(w, Adds(qs) + TickOps(n)).video[2 * qs[k].location]
            == if n % (2 * HALF) < HALF then qs[k].onChar else qs[k].offChar
  {
    hide Run, Step, FindIndex, Following, BT.Shown, BT.Undisturbed;
    var e := EntryOf(qs[k]);
    RunFromAdd(w, qs, n, k);
    AfterAdds(w, qs[..k]);
    OrderedShort(qs[..k + 1], 1, CELLS);
    LaterAddsElsewhere(qs, n, k);
    BT.AddedEntryBlinks(Run(w, Adds(qs[..k])), e, Following(qs, n, k));
    ShownAfter(w, qs, n);
    ShownFound(Run(w, Adds(qs) + TickOps(n)), e.location);
    BT.Schedule(e, n);
  }

  lemma RunOne(w: World, op: Op)
    requires w.Valid() && Allowed(op)
    ensures Run(w, [op]) == Step(w, op)
  {
    RunSnoc(w, [op]);
    assert [op][..0] == [];
    RunNone(w);
  }

  lemma ShownFound(w: World, loc: uint16)
    requires w.Valid() && BT.Shown(w) && FindIndex(w.entries, loc) < |w.entries|
    ensures loc < CELLS && w.video[2 * loc] == BT.Face(BT.Found(w.entries, loc))
  {
    var k := FindIndex(w.entries, loc);
    assert w.entries[k].location == loc;
  }

  /** A visible cell of two pictures that fit is one of the requests, at its place on the screen. */
  lemma CellRequested(s0: seq<seq<byte>>, s1: seq<seq<byte>>, rows: nat, r: nat, c: nat) returns (k: nat)
    requires Fits(s0, s1, rows) && r < rows
    requires var a, b := F.Row(s0, r), F.Row(s1, r);
      c < F.Width(a, b) && F.Visible(a, b, c)
    ensures var qs, a, b := F.Requests(s0, s1, rows), F.Row(s0, r), F.Row(s1, r);
      && k < |qs| && qs[k].location == r * 80 + c + F.OFFSET < CELLS
      && qs[k].onChar == F.Pad(a, c) && qs[k].offChar == F.Pad(b, c)
  {
    hide F.Requests, F.Visible;
    var qs, a, b := F.Requests(s0, s1, rows), F.Row(s0, r), F.Row(s1, r);
    assert RowFits(a, b, r);
    var q := F.RequestAt(a, b, r, c);
    F.CellIff(s0, s1, q, r, c);
    F.RequestedIff(s0, s1, rows, q);
    k :| 0 <= k < |qs| && qs[k] == q;
  }

  /** The demonstration: on a free driver, the visible cells of two pictures whose first `rows`
      rows fit the screen alternate between the first file and the second, 15 ticks each, for
      ever. */
  lemma PicturesAnimate(w: World, s0: seq<seq<byte>>, s1: seq<seq<byte>>, rows: nat, n: nat, r: nat, c: nat)
    requires w.Valid() && w.entries == [] && Fits(s0, s1, rows) && r < rows
    requires var a, b := F.Row(s0, r), F.Row(s1, r);
      c < F.Width(a, b) && F.Visible(a, b, c)
    ensures var qs, a, b := F.Requests(s0, s1, rows), F.Row(s0, r), F.Row(s1, r);
      && AllAllowed(Adds(qs) + TickOps(n))
      && r * 80 + c + F.OFFSET < CELLS
      && Run(w, Adds(qs) + TickOps(n)).video[2 * (r * 80 + c + F.OFFSET)]
         == if n % 30 < 15 then F.Pad(a, c) else F.Pad(b, c)
  {
    hide Run, F.Requests, Fits, F.Visible, F.Pad, Adds, TickOps, Ordered;
    var k := CellRequested(s0, s1, rows, r, c);
    RequestsOrdered(s0, s1, rows);
    OrderedFrom1(F.Requests(s0, s1, rows));
    RequestsAnimate(w, F.Requests(s0, s1, rows), n, k);
  }

  lemma OrderedFrom1(qs: seq<F.Request>)
    requires Ordered(qs, F.OFFSET, CELLS)
    ensures Ordered(qs, 1, CELLS)
  {
  }
}
