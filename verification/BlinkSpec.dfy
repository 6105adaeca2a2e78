/** The meaning of the blink driver (fish/blink.S): a newest-first list of blink
    entries, the text screen they draw on, and a clock tick. */
module BlinkSpec {
  import opened Machine

  const CELLS := 2000
  const VIDEO_BYTES := 4000

  datatype Entry = Entry(location: uint16, onChar: byte, offChar: byte,
                         onLength: uint16, offLength: uint16,
                         countdown: uint16, status: uint16)

  // ---------------------------------------------------------------- one entry

  predicate Lit(e: Entry) {
    e.status % 2 == 1
  }

  function Flip(status: uint16): uint16 {
    if status % 2 == 1 then status - 1 else status + 1
  }

  /** The 16-bit countdown is decremented, then compared as a signed word. */
  predicate Expires(e: Entry) {
    Signed16(Dec16(e.countdown)) <= 0
  }

  function Tick(e: Entry): Entry {
    if !Expires(e) then e.(countdown := Dec16(e.countdown))
    else if Lit(e) then e.(countdown := e.offLength, status := Flip(e.status))
    else e.(countdown := e.onLength, status := Flip(e.status))
  }

  function Fresh(e: Entry): Entry {
    e.(status := 1, countdown := e.onLength)
  }

  function Ticks(e: Entry, n: nat): Entry {
    if n == 0 then e else Tick(Ticks(e, n - 1))
  }

  // ---------------------------------------------------------------- the list

  predicate Placed(es: seq<Entry>) {
    forall i :: 0 <= i < |es| ==> 0 < es[i].location < CELLS
  }

  ghost predicate FirstAt(es: seq<Entry>, loc: uint16, k: nat) {
    && k <= |es|
    && (k < |es| ==> es[k].location == loc)
    && forall i :: 0 <= i < k ==> es[i].location != loc
  }

  lemma {:induction false} FirstExists(es: seq<Entry>, loc: uint16)
    ensures exists k: nat :: FirstAt(es, loc, k)
  {
    if es == [] {
      assert FirstAt(es, loc, 0);
    } else {
      var front := es[..|es| - 1];
      FirstExists(front, loc);
      var k: nat :| FirstAt(front, loc, k);
      assert FirstAt(es, loc, if k < |front| || es[k].location == loc then k else |es|);
    }
  }

  /** Index of the first (newest) entry at a location; `|es|` when there is none. */
  ghost function FindIndex(es: seq<Entry>, loc: uint16): (k: nat)
    ensures FirstAt(es, loc, k)
  {
    FirstExists(es, loc);
    var k: nat :| FirstAt(es, loc, k); k
  }

  function TickAll(es: seq<Entry>): (r: seq<Entry>)
    ensures |r| == |es|
    ensures forall i :: 0 <= i < |es| ==> r[i] == Tick(es[i])
  {
    seq(|es|, i requires 0 <= i < |es| => Tick(es[i]))
  }

  function Without<T>(s: seq<T>, k: nat): (r: seq<T>)
    requires k < |s|
  {
    seq(|s| - 1, j requires 0 <= j < |s| - 1 => if j < k then s[j] else s[j + 1])
  }

  function CopyTiming(to: Entry, from: Entry): Entry {
    to.(onLength := from.onLength, offLength := from.offLength,
        countdown := from.countdown, status := from.status)
  }

  // ---------------------------------------------------------------- the screen

  function Poke(v: seq<byte>, loc: uint16, c: byte): seq<byte>
    requires loc < CELLS && |v| == VIDEO_BYTES
  {
    v[2 * loc := c]
  }

  /** The screen after the tick handler has visited the first `k` entries. */
  function TickVideo(v: seq<byte>, es: seq<Entry>, k: nat): (r: seq<byte>)
    requires Placed(es) && |v| == VIDEO_BYTES && k <= |es|
    ensures |r| == |v|
  {
    if k == 0 then v
    else
      var r := TickVideo(v, es, k - 1);
      var e := es[k - 1];
      if !Expires(e) then r
      else Poke(r, e.location, if Lit(e) then e.offChar else e.onChar)
  }

  // ---------------------------------------------------------------- the driver

  datatype World = World(entries: seq<Entry>, video: seq<byte>) {
    ghost predicate Valid() {
      Placed(entries) && |entries| <= CELLS && |video| == VIDEO_BYTES
    }
  }

  /** The driver's entry points. `arg` is the 32-bit ioctl argument. */
  datatype Op =
    | AddOp(e: Entry)
    | RemoveOp(arg: uint32)
    | FindOp(loc: uint16)
    | SyncOp(arg: uint32)
    | TickOp

  function Low(arg: uint32): uint16 { arg % 0x1_0000 }
  function High(arg: uint32): uint16 { arg / 0x1_0000 }

  predicate AddSucceeds(es: seq<Entry>, e: Entry) {
    e.location < CELLS && |es| < CELLS
  }

  ghost predicate SyncSucceeds(es: seq<Entry>, arg: uint32) {
    FindIndex(es, High(arg)) < |es| && FindIndex(es, Low(arg)) < |es|
  }

  ghost function Removed(es: seq<Entry>, loc: uint16): seq<Entry> {
    var k := FindIndex(es, loc);
    if k == |es| then es else Without(es, k)
  }

  ghost function Synced(es: seq<Entry>, arg: uint32): seq<Entry>
    requires SyncSucceeds(es, arg)
  {
    var i, j := FindIndex(es, High(arg)), FindIndex(es, Low(arg));
    es[j := CopyTiming(es[j], es[i])]
  }

  /** Ioctls the list can hold: location 0 is the allocator's "free" mark. */
  predicate Allowed(op: Op) {
    op.AddOp? ==> op.e.location != 0
  }

  ghost function Step(w: World, op: Op): (r: World)
    requires w.Valid() && Allowed(op)
    ensures r.Valid()
  {
    match op
    case AddOp(e) =>
      if AddSucceeds(w.entries, e) then
        World([Fresh(e)] + w.entries, Poke(w.video, e.location, e.onChar))
      else w
    case RemoveOp(arg) => w.(entries := Removed(w.entries, Low(arg)))
    case FindOp(_) => w
    case SyncOp(arg) =>
      if SyncSucceeds(w.entries, arg) then
        // The conditional move after the status test never fires, so OFF_CHAR is drawn.
        var j := FindIndex(w.entries, Low(arg));
        World(Synced(w.entries, arg), Poke(w.video, Low(arg), w.entries[j].offChar))
      else w
    case TickOp =>
      World(TickAll(w.entries), TickVideo(w.video, w.entries, |w.entries|))
  }

  predicate AllAllowed(ops: seq<Op>) {
    forall i :: 0 <= i < |ops| ==> Allowed(ops[i])
  }

  ghost function Run(w: World, ops: seq<Op>): (r: World)
    requires w.Valid() && AllAllowed(ops)
    ensures r.Valid()
    decreases |ops|
  {
    if ops == [] then w
    else Step(Run(w, ops[..|ops| - 1]), ops[|ops| - 1])
  }
}
