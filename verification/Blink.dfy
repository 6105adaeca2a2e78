/** The blink driver as it is written (fish/blink.S with the pool allocator of
    fish/fish.c): an intrusive singly linked list threaded through a fixed array
    of slots, where a zero location is the only mark of a free slot. */
module Blink {
  import opened Machine
  import opened BlinkSpec

  const NULL := -1

  datatype Slot = Slot(e: Entry, next: int)

  const FREE_SLOT := Slot(Entry(0, 0, 0, 0, 0, 0, 0), NULL)

  // ------------------------------------------------------- pools as values

  /** `list` is the path of slot indices from `head`, and `rank` its inverse: every
      used slot is visited, once, and free slots are not. */
  ghost predicate Linked(pool: seq<Slot>, head: int, list: seq<nat>, rank: seq<int>) {
    && |pool| == |rank| == CELLS
    && head == LinkAt(list, 0)
    && (forall k :: 0 <= k < |list| ==> list[k] < CELLS && rank[list[k]] == k)
    && (forall k {:trigger pool[list[k]].next} :: 0 <= k < |list| ==> pool[list[k]].next == LinkAt(list, k + 1))
    && (forall i {:trigger pool[i].e.location} :: 0 <= i < CELLS ==> if rank[i] < 0 then pool[i].e.location == 0
                                       else OnList(pool, list, rank[i], i))
  }

  ghost predicate OnList(pool: seq<Slot>, list: seq<nat>, k: int, i: nat)
    requires i < |pool| && 0 <= k
  {
    k < |list| && list[k] == i && 0 < pool[i].e.location < CELLS
  }

  /** One node of the list. */
  lemma NodeAt(pool: seq<Slot>, head: int, list: seq<nat>, rank: seq<int>, k: nat)
    requires Linked(pool, head, list, rank) && k < |list|
    ensures |pool| == CELLS && list[k] < CELLS && list[0] == head
    ensures |rank| == CELLS && rank[list[k]] == k
    ensures pool[list[k]].next == LinkAt(list, k + 1)
    ensures 0 < pool[list[k]].e.location < CELLS
  {
    var i := list[k];
    assert pool[i].e.location == pool[i].e.location;
  }

  lemma ListInjective(pool: seq<Slot>, head: int, list: seq<nat>, rank: seq<int>, j: nat, k: nat)
    requires Linked(pool, head, list, rank) && j < |list| && k < |list| && list[j] == list[k]
    ensures j == k
  {
    assert rank[list[j]] == j && rank[list[k]] == k;
  }

  lemma CellAt(pool: seq<Slot>, head: int, list: seq<nat>, rank: seq<int>, i: nat)
    requires Linked(pool, head, list, rank) && i < CELLS
    ensures |pool| == |rank| == CELLS
    ensures if rank[i] < 0 then pool[i].e.location == 0 else OnList(pool, list, rank[i], i)
  {
    assert pool[i].e.location == pool[i].e.location;
  }

  lemma HeadAt(pool: seq<Slot>, head: int, list: seq<nat>, rank: seq<int>)
    requires Linked(pool, head, list, rank)
    ensures |pool| == |rank| == CELLS && head == LinkAt(list, 0)
    ensures forall k :: 0 <= k < |list| ==> list[k] < CELLS
  {
  }

  /** What `Linked` says, without the inverse. */
  lemma LinkedMeans(pool: seq<Slot>, head: int, list: seq<nat>, rank: seq<int>)
    requires Linked(pool, head, list, rank)
    ensures Distinct(list)
    ensures forall i :: 0 <= i < CELLS ==> (i in list <==> pool[i].e.location != 0)
  {
    hide Linked;
    HeadAt(pool, head, list, rank);
    forall i, j | 0 <= i < j < |list| ensures list[i] != list[j] {
      if list[i] == list[j] { ListInjective(pool, head, list, rank, i, j); }
    }
    forall i | 0 <= i < CELLS ensures i in list <==> pool[i].e.location != 0 {
      InListIff(pool, head, list, rank, i);
    }
  }

  lemma InListIff(pool: seq<Slot>, head: int, list: seq<nat>, rank: seq<int>, i: nat)
    requires Linked(pool, head, list, rank) && i < CELLS
    ensures i < |pool| && (i in list <==> pool[i].e.location != 0)
  {
    hide Linked;
    CellAt(pool, head, list, rank, i);
    if rank[i] < 0 {
      forall k | 0 <= k < |list| ensures list[k] != i {
        NodeAt(pool, head, list, rank, k);
      }
    } else {
      assert list[rank[i]] == i;
    }
  }

  ghost predicate IsList(pool: seq<Slot>, head: int) {
    exists list: seq<nat>, rank: seq<int> :: Linked(pool, head, list, rank)
  }

  ghost function LinkAt(list: seq<nat>, k: nat): int
    requires k <= |list|
  {
    if k < |list| then list[k] else NULL
  }

  ghost predicate FreeFirst(pool: seq<Slot>, i: nat) {
    && i <= |pool|
    && (forall j :: 0 <= j < i ==> pool[j].e.location != 0)
    && (i < |pool| ==> pool[i].e.location == 0)
  }

  lemma {:induction false} FreeFirstExists(pool: seq<Slot>)
    ensures exists i: nat :: FreeFirst(pool, i)
  {
    if pool == [] {
      assert FreeFirst(pool, 0);
    } else {
      var front := pool[..|pool| - 1];
      FreeFirstExists(front);
      var i: nat :| FreeFirst(front, i);
      assert FreeFirst(pool, if i < |front| || pool[i].e.location == 0 then i else |pool|);
    }
  }

  /** The first slot whose location is 0; `|pool|` when there is none. */
  ghost function FirstFree(pool: seq<Slot>): (i: nat)
    ensures FreeFirst(pool, i)
  {
    FreeFirstExists(pool);
    var i: nat :| FreeFirst(pool, i); i
  }

  ghost function EntriesOf(pool: seq<Slot>, list: seq<nat>): (es: seq<Entry>)
    requires forall k :: 0 <= k < |list| ==> list[k] < |pool|
    ensures |es| == |list|
    ensures forall k {:trigger es[k]} :: 0 <= k < |list| ==> es[k] == pool[list[k]].e
  {
    seq(|list|, k requires 0 <= k < |list| => pool[list[k]].e)
  }

  lemma {:induction false} DistinctBound(list: seq<nat>, n: nat)
    requires Distinct(list) && forall k :: 0 <= k < |list| ==> list[k] < n
    ensures |list| <= n
    ensures |list| == n ==> forall i :: 0 <= i < n ==> i in list
    decreases n
  {
    assert |list| > 0 ==> list[0] < n;
    if n == 0 {
    } else if n - 1 in list {
      var k :| 0 <= k < |list| && list[k] == n - 1;
      var rest := Without(list, k);
      WithoutDistinct(list, k);
      forall j | 0 <= j < |rest| ensures rest[j] < n - 1 && rest[j] in list {
        WithoutAt(list, k, j);
      }
      DistinctBound(rest, n - 1);
      forall i | |list| == n && 0 <= i < n ensures i in list {
        if i < n - 1 { InWithout(rest, list, i); }
      }
    } else {
      assert forall k :: 0 <= k < |list| ==> list[k] != n - 1;
      DistinctBound(list, n - 1);
    }
  }

  lemma InWithout(rest: seq<nat>, list: seq<nat>, i: nat)
    requires i in rest && forall j :: 0 <= j < |rest| ==> rest[j] in list
    ensures i in list
  {
    var j :| 0 <= j < |rest| && rest[j] == i;
  }

  lemma WithoutAt(list: seq<nat>, k: nat, j: nat)
    requires k < |list| && j < |list| - 1 && Distinct(list)
    ensures Without(list, k)[j] == list[if j < k then j else j + 1] != list[k]
    ensures Without(list, k)[j] in list
  {
  }

  lemma WithoutDistinct(list: seq<nat>, k: nat)
    requires k < |list| && Distinct(list)
    ensures Distinct(Without(list, k))
  {
    var rest := Without(list, k);
    forall i, j | 0 <= i < j < |rest| ensures rest[i] != rest[j] {
      assert list[if i < k then i else i + 1] != list[if j < k then j else j + 1];
    }
  }

  /** The pool is full exactly when the list holds every slot. */
  lemma FullIffNoFreeSlot(pool: seq<Slot>, head: int, list: seq<nat>, rank: seq<int>)
    requires Linked(pool, head, list, rank)
    ensures |list| <= CELLS
    ensures |list| == CELLS <==> FirstFree(pool) == CELLS
  {
    LinkedMeans(pool, head, list, rank);
    DistinctBound(list, CELLS);
    var i := FirstFree(pool);
    if i == CELLS {
      CoverBound(list, CELLS);
    }
  }

  lemma {:induction false} CoverBound(list: seq<nat>, n: nat)
    requires forall i :: 0 <= i < n ==> i in list
    ensures n <= |list|
    decreases n
  {
    if n > 0 {
      assert n - 1 in list;
      var k :| 0 <= k < |list| && list[k] == n - 1;
      var rest := list[..k] + list[k + 1..];
      forall i | 0 <= i < n - 1 ensures i in rest {
        assert i in list;
        var j :| 0 <= j < |list| && list[j] == i;
        assert j < k ==> rest[j] == i;
        assert j > k ==> rest[j - 1] == i;
      }
      CoverBound(rest, n - 1);
    }
  }

  // ------------------------------------------------------- the driver

  class Driver {
    const pool: array<Slot>
    const video: array<byte>
    var head: int
    ghost var list: seq<nat>
    ghost var rank: seq<int>

    ghost predicate Valid()
      reads this, pool, video
    {
      pool.Length == CELLS && video.Length == VIDEO_BYTES && Linked(pool[..], head, list, rank)
    }

    ghost function World(): (w: World)
      requires Valid()
      reads this, pool, video
      ensures w.Valid() && |w.entries| == |list|
    {
      FullIffNoFreeSlot(pool[..], head, list, rank);
      BlinkSpec.World(EntriesOf(pool[..], list), video[..])
    }

    constructor (vmem: array<byte>)
      requires vmem.Length == VIDEO_BYTES
      ensures Valid() && list == [] && video == vmem && fresh(pool)
    {
      pool := new Slot[CELLS](_ => FREE_SLOT);
      video := vmem;
      head := NULL;
      list := [];
      rank := seq(CELLS, _ => -1);
    }

    method Malloc() returns (i: int)
      requires pool.Length == CELLS
      ensures i == if FirstFree(pool[..]) == CELLS then NULL else FirstFree(pool[..])
    {
      i := 0;
      while i < CELLS
        invariant 0 <= i <= CELLS
        invariant forall j :: 0 <= j < i ==> pool[j].e.location != 0
      {
        if pool[i].e.location == 0 {
          return i;
        }
        i := i + 1;
      }
      i := NULL;
    }

    method FindHelper(arg: uint32) returns (p: int, ghost k: nat)
      requires Valid()
      ensures k == FindIndex(World().entries, Low(arg)) && k <= |list| && p == LinkAt(list, k)
      ensures k < |list| ==> World().entries[k].location == arg % 0x1_0000
      ensures forall i :: 0 <= i < k ==> World().entries[i].location != arg % 0x1_0000
    {
      var loc := Low(arg);
      p, k := head, 0;
      while p != NULL
        invariant k <= |list| && p == LinkAt(list, k)
        invariant forall j :: 0 <= j < k ==> World().entries[j].location != loc
        decreases |list| - k
      {
        assert World().entries[k] == pool[p].e;
        if pool[p].e.location == loc {
          return;
        }
        p, k := pool[p].next, k + 1;
      }
    }

    method Add(user: Entry) returns (r: int)
      requires Valid()
      modifies this`head, this`list, this`rank, pool, video
      ensures r == if user.location < 2000 && |old(list)| < 2000 then 0 else -1
      ensures user.location != 0 ==> Valid() && World() == Step(old(World()), AddOp(user))
      ensures r == 0 ==>
        var i := FirstFree(old(pool[..]));
        i < CELLS && head == i && pool[..] == old(pool[..])[i := Slot(Fresh(user), old(head))]
    {
      FullIffNoFreeSlot(pool[..], head, list, rank);
      if user.location >= CELLS {
        return -1;
      }
      var i := Malloc();
      if i == NULL {
        return -1;
      }
      ghost var before := pool[..];
      pool[i] := Slot(Fresh(user), head);
      assert pool[..] == before[i := Slot(Fresh(user), head)];
      list, rank := [i] + list, Pushed(rank, i);
      head := i;
      video[2 * user.location] := user.onChar;
      if user.location != 0 {
        LinkFront(before, old(head), old(list), old(rank), i, Fresh(user));
      }
      return 0;
    }

    /** Walks from the head again, to the link that points at `p`. */
    method FindPrev(p: int, ghost k: nat) returns (prev: int)
      requires Valid() && k < |list| && p == list[k]
      ensures prev == if k == 0 then NULL else list[k - 1]
    {
      hide Linked;
      var at := head;
      prev := NULL;
      ghost var j := 0;
      HeadAt(pool[..], head, list, rank);
      while at != p
        invariant j <= k && at == LinkAt(list, j)
        invariant prev == if j == 0 then NULL else list[j - 1]
        decreases k - j
      {
        NodeAt(pool[..], head, list, rank, j);
        prev, at, j := at, pool[at].next, j + 1;
      }
      assert j == k by { ListInjective(pool[..], head, list, rank, j, k); }
    }

    method Remove(arg: uint32) returns (r: int)
      requires Valid()
      modifies this`head, this`list, this`rank, pool
      ensures Valid() && World() == Step(old(World()), RemoveOp(arg))
      ensures var es := old(World()).entries;
        r == if exists i :: 0 <= i < |es| && es[i].location == arg % 0x1_0000 then 0 else -1
    {
      hide Linked;
      HeadAt(pool[..], head, list, rank);
      var p, k := FindHelper(arg);
      if p == NULL {
        return -1;
      }
      var prev := FindPrev(p, k);
      NodeAt(pool[..], head, list, rank, k);
      UnlinkAt(pool[..], head, list, rank, k);
      ghost var before := pool[..];
      if prev == NULL {
        head := pool[p].next;
      } else {
        pool[prev] := pool[prev].(next := pool[p].next);
      }
      pool[p] := FREE_SLOT;
      list, rank := Without(list, k), Dropped(rank, k);
      assert pool[..] == Unlinked(before, old(list), k);
      return 0;
    }

    method Find(loc: uint16) returns (r: int, found: Entry)
      requires Valid()
      ensures var k := FindIndex(World().entries, loc);
        if k < |list| then r == 0 && found == World().entries[k] else r == -1
    {
      hide Linked;
      HeadAt(pool[..], head, list, rank);
      var p, k := FindHelper(loc);
      if p == NULL {
        return -1, FREE_SLOT.e;
      }
      return 0, pool[p].e;
    }

    method Sync(arg: uint32) returns (r: int)
      requires Valid()
      modifies pool, video
      ensures Valid() && World() == Step(old(World()), SyncOp(arg))
      ensures var es := old(World()).entries;
        r == if (exists i :: 0 <= i < |es| && es[i].location == arg / 0x1_0000)
                && (exists j :: 0 <= j < |es| && es[j].location == arg % 0x1_0000) then 0 else -1
    {
      hide Linked, FirstAt, FindIndex, Step, SyncSucceeds, CopyTiming, Poke;
      SyncSucceedsIff(World().entries, arg);
      SyncStep(World(), arg);
      HeadAt(pool[..], head, list, rank);
      var from, i := FindHelper(High(arg));
      if from == NULL {
        return -1;
      }
      var to, j := FindHelper(Low(arg));
      if to == NULL {
        return -1;
      }
      CopyAndDraw(from, to, i, j);
      return 0;
    }

    method CopyAndDraw(from: int, to: int, ghost i: nat, ghost j: nat)
      requires Valid() && i < |list| && j < |list| && from == list[i] && to == list[j]
      modifies pool, video
      ensures Valid()
      ensures var es, v := old(World()).entries, old(video[..]);
        && World().entries == es[j := CopyTiming(es[j], es[i])]
        && World().video == Poke(v, es[j].location, es[j].offChar)
    {
      hide Linked, CopyTiming;
      HeadAt(pool[..], head, list, rank);
      NodeAt(pool[..], head, list, rank, i);
      NodeAt(pool[..], head, list, rank, j);
      TimingStays(pool[to].e, pool[from].e);
      Retimed(pool[..], head, list, rank, j, CopyTiming(pool[to].e, pool[from].e));
      video[2 * pool[to].e.location] := pool[to].e.offChar;
      Retime(to, CopyTiming(pool[to].e, pool[from].e));
    }

    method Retime(p: nat, e: Entry)
      requires p < pool.Length
      modifies pool
      ensures pool[..] == old(pool[..])[p := old(pool[p]).(e := e)]
    {
      pool[p] := pool[p].(e := e);
    }

    /** One visit of the tick handler. */
    method Visit(p: nat)
      requires p < pool.Length && video.Length == VIDEO_BYTES && pool[p].e.location < CELLS
      modifies pool, video
      ensures pool[..] == old(pool[..])[p := old(pool[p]).(e := Tick(old(pool[p].e)))]
      ensures var e := old(pool[p].e);
        video[..] == if !Expires(e) then old(video[..])
                     else Poke(old(video[..]), e.location, if Lit(e) then e.offChar else e.onChar)
    {
      var e := pool[p].e;
      e := e.(countdown := Dec16(e.countdown));
      if Signed16(e.countdown) <= 0 {
        if e.status % 2 == 1 {
          video[2 * e.location] := e.offChar;
          e := e.(countdown := e.offLength);
        } else {
          video[2 * e.location] := e.onChar;
          e := e.(countdown := e.onLength);
        }
        e := e.(status := Flip(e.status));
      }
      Retime(p, e);
    }

    method Tasklet()
      requires Valid()
      modifies pool, video
      ensures Valid() && World() == Step(old(World()), TickOp)
    {
      hide Linked;
      HeadAt(pool[..], head, list, rank);
      ghost var es, v := World().entries, video[..];
      var b := head;
      ghost var k := 0;
      while b != NULL
        invariant k <= |list| == |es| && b == LinkAt(list, k)
        invariant Linked(pool[..], head, list, rank)
        invariant EntriesOf(pool[..], list) == PartlyTicked(es, k)
        invariant video[..] == TickVideo(v, es, k)
        decreases |list| - k
      {
        b := VisitNext(b, k, es, v);
        k := k + 1;
      }
    }

    /** One turn of the tick handler's loop, at the `k`-th element of the list. */
    method VisitNext(b: int, ghost k: nat, ghost es: seq<Entry>, ghost v: seq<byte>) returns (b': int)
      requires Valid() && k < |list| == |es| && b == list[k] && Placed(es) && |v| == VIDEO_BYTES
      requires (forall j :: 0 <= j < |list| ==> list[j] < CELLS) && EntriesOf(pool[..], list) == PartlyTicked(es, k)
      requires video[..] == TickVideo(v, es, k)
      modifies pool, video
      ensures Valid() && b' == LinkAt(list, k + 1)
      ensures EntriesOf(pool[..], list) == PartlyTicked(es, k + 1)
      ensures video[..] == TickVideo(v, es, k + 1)
    {
      hide Linked, PartlyTicked, Expires, Lit, Tick;
      ghost var before := pool[..];
      NodeAt(before, head, list, rank, k);
      assert pool[b] == before[b] && pool[b].e == EntriesOf(before, list)[k] == es[k];
      TickStays(es[k]);
      Retimed(before, head, list, rank, k, Tick(es[k]));
      PartlyTickedNext(es, k);
      Visit(b);
      b' := pool[..][b].next;
    }

    method Perform(op: Op)
      requires Valid() && Allowed(op)
      modifies this`head, this`list, this`rank, pool, video
      ensures Valid() && World() == Step(old(World()), op)
    {
      match op {
        case AddOp(e) => var _ := Add(e);
        case RemoveOp(arg) => var _ := Remove(arg);
        case FindOp(loc) => var _, _ := Find(loc);
        case SyncOp(arg) => var _ := Sync(arg);
        case TickOp => Tasklet();
      }
    }

    /** Any sequence of entry points, interleaved with clock ticks. */
    method Drive(ops: seq<Op>)
      requires Valid() && AllAllowed(ops)
      modifies this`head, this`list, this`rank, pool, video
      ensures Valid() && World() == Run(old(World()), ops)
    {
      ghost var w := World();
      var i := 0;
      while i < |ops|
        invariant i <= |ops| && Valid()
        invariant World() == Run(w, ops[..i])
      {
        assert ops[..i + 1][..i] == ops[..i];
        Perform(ops[i]);
        i := i + 1;
      }
      assert ops[..i] == ops;
    }
  }

  lemma SyncStep(w: World, arg: uint32)
    requires w.Valid()
    ensures var es, i, j := w.entries, FindIndex(w.entries, High(arg)), FindIndex(w.entries, Low(arg));
      && (SyncSucceeds(es, arg) <==> i < |es| && j < |es|)
      && (i < |es| && j < |es| ==>
            && es[j].location < CELLS
            && Step(w, SyncOp(arg)) == World(es[j := CopyTiming(es[j], es[i])], Poke(w.video, es[j].location, es[j].offChar)))
      && (i == |es| || j == |es| ==> Step(w, SyncOp(arg)) == w)
  {
  }

  lemma SyncSucceedsIff(es: seq<Entry>, arg: uint32)
    ensures SyncSucceeds(es, arg) <==>
      && (exists i :: 0 <= i < |es| && es[i].location == arg / 0x1_0000)
      && (exists j :: 0 <= j < |es| && es[j].location == arg % 0x1_0000)
  {
    FoundIff(es, arg / 0x1_0000);
    FoundIff(es, arg % 0x1_0000);
  }

  lemma FoundIff(es: seq<Entry>, loc: uint16)
    ensures FindIndex(es, loc) < |es| <==> exists i :: 0 <= i < |es| && es[i].location == loc
  {
    var k := FindIndex(es, loc);
    assert k < |es| ==> es[k].location == loc;
  }

  lemma TimingStays(e: Entry, f: Entry)
    ensures CopyTiming(e, f).location == e.location
  {
  }

  lemma TickStays(e: Entry)
    ensures Tick(e).location == e.location
  {
  }

  lemma PartlyTickedNext(es: seq<Entry>, k: nat)
    requires k < |es|
    ensures PartlyTicked(es, k)[k := Tick(es[k])] == PartlyTicked(es, k + 1)
  {
  }

  ghost function PartlyTicked(es: seq<Entry>, k: nat): (r: seq<Entry>)
    requires k <= |es|
    ensures |r| == |es|
    ensures k == 0 ==> r == es
    ensures k == |es| ==> r == TickAll(es)
    ensures k < |es| ==> r[k] == es[k]
  {
    seq(|es|, i requires 0 <= i < |es| => if i < k then Tick(es[i]) else es[i])
  }

  // ------------------------------------------------------- list surgery

  ghost function Pushed(rank: seq<int>, i: nat): seq<int>
    requires i < |rank|
  {
    seq(|rank|, x requires 0 <= x < |rank| => if x == i then 0 else if rank[x] < 0 then rank[x] else rank[x] + 1)
  }

  ghost function Dropped(rank: seq<int>, k: nat): seq<int> {
    seq(|rank|, x requires 0 <= x < |rank| => if rank[x] < k then rank[x] else if rank[x] == k then -1 else rank[x] - 1)
  }

  lemma LinkFront(pool: seq<Slot>, head: int, list: seq<nat>, rank: seq<int>, i: nat, e: Entry)
    requires Linked(pool, head, list, rank) && i < CELLS && pool[i].e.location == 0
    requires 0 < e.location < CELLS
    ensures Linked(pool[i := Slot(e, head)], i, [i] + list, Pushed(rank, i))
    ensures EntriesOf(pool[i := Slot(e, head)], [i] + list) == [e] + EntriesOf(pool, list)
  {
    hide Linked;
    HeadAt(pool, head, list, rank);
    var p', l', r' := pool[i := Slot(e, head)], [i] + list, Pushed(rank, i);
    forall k | 0 <= k < |l'|
      ensures l'[k] < CELLS && r'[l'[k]] == k && p'[l'[k]].next == LinkAt(l', k + 1)
      ensures k > 0 ==> l'[k] == list[k - 1] != i
    {
      if k > 0 { NodeAt(pool, head, list, rank, k - 1); }
    }
    forall x | 0 <= x < CELLS
      ensures if r'[x] < 0 then p'[x].e.location == 0 else OnList(p', l', r'[x], x)
    {
      CellAt(pool, head, list, rank, x);
    }
    LinkedFromNodes(p', i, l', r');
  }

  /** The definition of `Linked`, read from right to left. */
  lemma LinkedFromNodes(pool: seq<Slot>, head: int, list: seq<nat>, rank: seq<int>)
    requires |pool| == |rank| == CELLS && head == LinkAt(list, 0)
    requires forall k :: 0 <= k < |list| ==>
      list[k] < CELLS && rank[list[k]] == k && pool[list[k]].next == LinkAt(list, k + 1)
    requires forall i :: 0 <= i < CELLS ==>
      if rank[i] < 0 then pool[i].e.location == 0 else OnList(pool, list, rank[i], i)
    ensures Linked(pool, head, list, rank)
  {
  }

  ghost function Unlinked(pool: seq<Slot>, list: seq<nat>, k: nat): seq<Slot>
    requires k < |list| && forall j :: 0 <= j < |list| ==> list[j] < |pool|
  {
    var p := list[k];
    (if k == 0 then pool else pool[list[k - 1] := pool[list[k - 1]].(next := pool[p].next)])[p := FREE_SLOT]
  }

  lemma UnlinkAt(pool: seq<Slot>, head: int, list: seq<nat>, rank: seq<int>, k: nat)
    requires Linked(pool, head, list, rank) && k < |list|
    ensures var l' := Without(list, k);
      && Linked(Unlinked(pool, list, k), LinkAt(l', 0), l', Dropped(rank, k))
      && EntriesOf(Unlinked(pool, list, k), l') == Without(EntriesOf(pool, list), k)
      && LinkAt(l', 0) == if k == 0 then pool[list[k]].next else head
  {
    hide Linked, Unlinked, Dropped;
    HeadAt(pool, head, list, rank);
    NodeAt(pool, head, list, rank, k);
    UnlinkedLinks(pool, head, list, rank, k);
    UnlinkedEntries(pool, head, list, rank, k);
  }

  lemma UnlinkedLinks(pool: seq<Slot>, head: int, list: seq<nat>, rank: seq<int>, k: nat)
    requires Linked(pool, head, list, rank) && k < |list|
    requires |pool| == CELLS && forall j :: 0 <= j < |list| ==> list[j] < CELLS
    ensures var l' := Without(list, k);
      Linked(Unlinked(pool, list, k), LinkAt(l', 0), l', Dropped(rank, k))
  {
    hide Linked, Unlinked, Dropped, OnList, Without;
    UnlinkedSizes(pool, head, list, rank, k);
    var q, l', r' := Unlinked(pool, list, k), Without(list, k), Dropped(rank, k);
    forall j | 0 <= j < |l'|
      ensures l'[j] < CELLS && q[l'[j]].next == LinkAt(l', j + 1) && r'[l'[j]] == j
    {
      UnlinkedNode(pool, head, list, rank, k, j);
    }
    forall i | 0 <= i < CELLS ensures if r'[i] < 0 then q[i].e.location == 0 else OnList(q, l', r'[i], i) {
      UnlinkedCell(pool, head, list, rank, k, i);
    }
    LinkedFromNodes(q, LinkAt(l', 0), l', r');
  }

  lemma UnlinkedSizes(pool: seq<Slot>, head: int, list: seq<nat>, rank: seq<int>, k: nat)
    requires Linked(pool, head, list, rank) && k < |list|
    requires |pool| == CELLS && forall j :: 0 <= j < |list| ==> list[j] < CELLS
    ensures |Unlinked(pool, list, k)| == |Dropped(rank, k)| == CELLS && |Without(list, k)| == |list| - 1
  {
  }

  lemma UnlinkedEntries(pool: seq<Slot>, head: int, list: seq<nat>, rank: seq<int>, k: nat)
    requires Linked(pool, head, list, rank) && k < |list|
    requires |pool| == CELLS && forall j :: 0 <= j < |list| ==> list[j] < CELLS
    ensures var q, l' := Unlinked(pool, list, k), Without(list, k);
      && |q| == CELLS && (forall j :: 0 <= j < |l'| ==> l'[j] < CELLS)
      && EntriesOf(q, l') == Without(EntriesOf(pool, list), k)
  {
    hide Linked, Unlinked, Dropped;
    UnlinkedSizes(pool, head, list, rank, k);
    var q, l' := Unlinked(pool, list, k), Without(list, k);
    forall j | 0 <= j < |l'| ensures l'[j] < CELLS && q[l'[j]].e == Without(EntriesOf(pool, list), k)[j] {
      UnlinkedNode(pool, head, list, rank, k, j);
    }
  }

  lemma UnlinkedNode(pool: seq<Slot>, head: int, list: seq<nat>, rank: seq<int>, k: nat, j: nat)
    requires Linked(pool, head, list, rank) && k < |list| && j < |list| - 1
    requires |pool| == CELLS && forall i :: 0 <= i < |list| ==> list[i] < CELLS
    ensures var q, i := Unlinked(pool, list, k), Without(list, k)[j];
      && |q| == |rank| == CELLS && i < CELLS && Dropped(rank, k)[i] == j
      && q[i] == pool[i].(next := LinkAt(Without(list, k), j + 1))
  {
    hide Linked;
    var i := if j < k then j else j + 1;
    NodeAt(pool, head, list, rank, i);
    NodeAt(pool, head, list, rank, k);
    if k > 0 { NodeAt(pool, head, list, rank, k - 1); }
    assert Without(list, k)[j] == list[i];
  }

  lemma UnlinkedCell(pool: seq<Slot>, head: int, list: seq<nat>, rank: seq<int>, k: nat, i: nat)
    requires Linked(pool, head, list, rank) && k < |list| && i < CELLS
    requires |pool| == CELLS && forall j :: 0 <= j < |list| ==> list[j] < CELLS
    ensures |rank| == CELLS
    ensures var q, l', r := Unlinked(pool, list, k), Without(list, k), Dropped(rank, k)[i];
      if r < 0 then q[i].e.location == 0 else OnList(q, l', r, i)
  {
    hide Linked;
    CellAt(pool, head, list, rank, i);
    NodeAt(pool, head, list, rank, k);
    if k > 0 { NodeAt(pool, head, list, rank, k - 1); }
  }

  lemma Retimed(pool: seq<Slot>, head: int, list: seq<nat>, rank: seq<int>, k: nat, e: Entry)
    requires Linked(pool, head, list, rank) && k < |list| && e.location == pool[list[k]].e.location
    ensures var q := pool[list[k] := pool[list[k]].(e := e)];
      Linked(q, head, list, rank) && EntriesOf(q, list) == EntriesOf(pool, list)[k := e]
  {
    var q := pool[list[k] := pool[list[k]].(e := e)];
    forall i | 0 <= i < CELLS
      ensures if rank[i] < 0 then q[i].e.location == 0 else OnList(q, list, rank[i], i)
    {
      assert pool[i].e.location == q[i].e.location;
    }
  }

  // ------------------------------------------------------- location 0

  /** Adding keeps the pool a list exactly when the location is not 0. */
  lemma AddKeepsListIff(pool: seq<Slot>, head: int, list: seq<nat>, rank: seq<int>, e: Entry)
    requires Linked(pool, head, list, rank) && FirstFree(pool) < CELLS && e.location < CELLS
    ensures IsList(pool[FirstFree(pool) := Slot(e, head)], FirstFree(pool)) <==> e.location != 0
  {
    var i := FirstFree(pool);
    var q := pool[i := Slot(e, head)];
    if e.location != 0 {
      LinkFront(pool, head, list, rank, i, e);
    } else {
      forall l: seq<nat>, r: seq<int> ensures !Linked(q, i, l, r) {
        if |l| > 0 && l[0] == i && |r| == CELLS {
          assert q[i].e.location == 0;
        }
      }
    }
  }

  /** A second add at location 0 takes the same slot and links it to itself. */
  lemma SecondAddAtZeroLoops(pool: seq<Slot>, head: int, e: Entry, f: Entry)
    requires FirstFree(pool) < |pool| && e.location == 0
    ensures var i := FirstFree(pool);
      var q := pool[i := Slot(e, head)];
      FirstFree(q) == i && q[i := Slot(f, i)][i].next == i
  {
    var i := FirstFree(pool);
    var q := pool[i := Slot(e, head)];
    assert q[i].e.location == 0;
    assert forall j :: 0 <= j < i ==> q[j].e.location != 0;
  }
}
