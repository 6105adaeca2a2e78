/** The memory routines of student-distrib/lib.c on one flat memory, so that source and
    destination may overlap. */
module Memory {
  import opened Machine

  /** `n` bytes at `src`, as they are in `m`, placed at `dest`. */
  ghost function Moved(m: seq<byte>, dest: nat, src: nat, n: nat): (r: seq<byte>)
    requires dest + n <= |m| && src + n <= |m|
    ensures |r| == |m|
    ensures forall i :: dest <= i < dest + n ==> r[i] == m[src + (i - dest)]
    ensures forall i :: 0 <= i < dest || dest + n <= i < |m| ==> r[i] == m[i]
  {
    seq<byte>(|m|, i requires 0 <= i < |m| => if dest <= i < dest + n then m[src + (i - dest)] else m[i])
  }

  // ------------------------------------------------------------ memmove

  /** A byte loop that runs up when the source is not below the destination, else down. */
  method Memmove(mem: array<byte>, dest: nat, src: nat, n: nat)
    requires dest + n <= mem.Length && src + n <= mem.Length
    modifies mem
    ensures mem[..] == Moved(old(mem[..]), dest, src, n)
  {
    if src >= dest {
      var k := 0;
      while k < n
        invariant 0 <= k <= n
        invariant forall i :: dest <= i < dest + k ==> mem[i] == old(mem[src + (i - dest)])
        invariant forall i :: 0 <= i < dest || dest + k <= i < mem.Length ==> mem[i] == old(mem[i])
      {
        mem[dest + k] := mem[src + k];
        k := k + 1;
      }
    } else {
      var k := n;
      while k > 0
        invariant 0 <= k <= n
        invariant forall i :: dest + k <= i < dest + n ==> mem[i] == old(mem[src + (i - dest)])
        invariant forall i :: 0 <= i < dest + k || dest + n <= i < mem.Length ==> mem[i] == old(mem[i])
      {
        mem[dest + k - 1] := mem[src + k - 1];
        k := k - 1;
      }
    }
  }

  // ------------------------------------------------------------ memset

  /** Bytes up to a word boundary, then words, then the bytes that are left. */
  method Memset(mem: array<byte>, s: nat, c: byte, n: nat)
    requires s + n <= mem.Length
    modifies mem
    ensures forall i :: s <= i < s + n ==> mem[i] == c
    ensures forall i :: 0 <= i < s || s + n <= i < mem.Length ==> mem[i] == old(mem[i])
  {
    var k := 0;
    while k < n && (s + k) % 4 != 0
      invariant 0 <= k <= n
      invariant forall i :: s <= i < s + k ==> mem[i] == c
      invariant forall i :: 0 <= i < s || s + k <= i < mem.Length ==> mem[i] == old(mem[i])
      decreases n - k
    {
      mem[s + k] := c;
      k := k + 1;
    }
    var words, tail := (n - k) / 4, (n - k) % 4;
    while words > 0
      invariant 0 <= words && k + 4 * words + tail == n
      invariant forall i :: s <= i < s + k ==> mem[i] == c
      invariant forall i :: 0 <= i < s || s + k <= i < mem.Length ==> mem[i] == old(mem[i])
      decreases words
    {
      mem[s + k], mem[s + k + 1], mem[s + k + 2], mem[s + k + 3] := c, c, c, c;
      k, words := k + 4, words - 1;
    }
    while tail > 0
      invariant 0 <= tail && k + tail == n
      invariant forall i :: s <= i < s + k ==> mem[i] == c
      invariant forall i :: 0 <= i < s || s + k <= i < mem.Length ==> mem[i] == old(mem[i])
      decreases tail
    {
      mem[s + k] := c;
      k, tail := k + 1, tail - 1;
    }
  }

  // ------------------------------------------------------------ memcpy

  /** How much the copy moves at once at offset `k`: a word at aligned destinations while a
      whole word is left, else a byte. */
  function Unit(dest: nat, k: nat, n: nat): (w: nat)
    requires k < n
    ensures w == 1 || (w == 4 && k + 4 <= n)
  {
    if (dest + k) % 4 == 0 && n - k >= 4 then 4 else 1
  }

  /** The rest of the copy, from offset `k` on: each unit is read, then written. */
  ghost function CopyFrom(m: seq<byte>, dest: nat, src: nat, k: nat, n: nat): (r: seq<byte>)
    requires k <= n && dest + n <= |m| && src + n <= |m|
    ensures |r| == |m|
    decreases n - k
  {
    if k == n then m
    else
      var w := Unit(dest, k, n);
      CopyFrom(Moved(m, dest + k, src + k, w), dest, src, k + w, n)
  }

  lemma CopyStep(m: seq<byte>, dest: nat, src: nat, k: nat, n: nat)
    requires k <= n && dest + n <= |m| && src + n <= |m|
    ensures CopyFrom(m, dest, src, k, n) ==
      if k == n then m
      else
        var w := Unit(dest, k, n);
        CopyFrom(Moved(m, dest + k, src + k, w), dest, src, k + w, n)
  {
  }

  method MoveByte(mem: array<byte>, dest: nat, src: nat)
    requires dest < mem.Length && src < mem.Length
    modifies mem
    ensures mem[..] == Moved(old(mem[..]), dest, src, 1)
  {
    mem[dest] := mem[src];
  }

  method MoveWord(mem: array<byte>, dest: nat, src: nat)
    requires dest + 4 <= mem.Length && src + 4 <= mem.Length
    modifies mem
    ensures mem[..] == Moved(old(mem[..]), dest, src, 4)
  {
    var b0, b1, b2, b3 := mem[src], mem[src + 1], mem[src + 2], mem[src + 3];
    mem[dest], mem[dest + 1], mem[dest + 2], mem[dest + 3] := b0, b1, b2, b3;
  }

  method Memcpy(mem: array<byte>, dest: nat, src: nat, n: nat)
    requires dest + n <= mem.Length && src + n <= mem.Length
    modifies mem
    ensures mem[..] == CopyFrom(old(mem[..]), dest, src, 0, n)
  {
    hide CopyFrom, Moved;
    ghost var goal := CopyFrom(mem[..], dest, src, 0, n);
    var k := 0;
    while k < n && (dest + k) % 4 != 0
      invariant 0 <= k <= n && CopyFrom(mem[..], dest, src, k, n) == goal
      decreases n - k
    {
      CopyStep(mem[..], dest, src, k, n);
      MoveByte(mem, dest + k, src + k);
      k := k + 1;
    }
    var words, tail := (n - k) / 4, (n - k) % 4;
    while words > 0
      invariant 0 <= words && 0 <= tail < 4 && k + 4 * words + tail == n
      invariant words > 0 ==> (dest + k) % 4 == 0
      invariant CopyFrom(mem[..], dest, src, k, n) == goal
      decreases words
    {
      CopyStep(mem[..], dest, src, k, n);
      MoveWord(mem, dest + k, src + k);
      k, words := k + 4, words - 1;
    }
    while tail > 0
      invariant 0 <= tail < 4 && k + tail == n
      invariant CopyFrom(mem[..], dest, src, k, n) == goal
      decreases tail
    {
      CopyStep(mem[..], dest, src, k, n);
      MoveByte(mem, dest + k, src + k);
      k, tail := k + 1, tail - 1;
    }
    CopyStep(mem[..], dest, src, k, n);
  }

  /** Regions for which the copy is right whatever the bytes: apart, downward, or one aligned word. */
  predicate CopySafe(dest: nat, src: nat, n: nat) {
    dest <= src || src + n <= dest || (n == 4 && dest % 4 == 0)
  }

  lemma {:induction false} CopyRight(m0: seq<byte>, m: seq<byte>, dest: nat, src: nat, k: nat, n: nat)
    requires k <= n && |m0| == |m| && dest + n <= |m| && src + n <= |m|
    requires dest <= src || src + n <= dest
    requires m == Moved(m0, dest, src, k)
    ensures CopyFrom(m, dest, src, k, n) == Moved(m0, dest, src, n)
    decreases n - k
  {
    if k < n {
      var w := Unit(dest, k, n);
      assert Moved(m, dest + k, src + k, w) == Moved(m0, dest, src, k + w);
      CopyRight(m0, Moved(m, dest + k, src + k, w), dest, src, k + w, n);
    }
  }

  /** Offsets already written keep their bytes, and so does everything outside. */
  lemma {:induction false} CopyKeeps(m: seq<byte>, dest: nat, src: nat, k: nat, n: nat, p: nat)
    requires k <= n && dest + n <= |m| && src + n <= |m| && p < |m| && !(dest + k <= p < dest + n)
    ensures CopyFrom(m, dest, src, k, n)[p] == m[p]
    decreases n - k
  {
    if k < n {
      var w := Unit(dest, k, n);
      CopyKeeps(Moved(m, dest + k, src + k, w), dest, src, k + w, n, p);
    }
  }

  /** Copying byte by byte until offset `j`, which then takes the byte that is there. */
  lemma {:induction false} CopyReads(m: seq<byte>, dest: nat, src: nat, k: nat, n: nat, j: nat)
    requires k <= j < n && dest + n <= |m| && src + n <= |m|
    requires src + j < dest + k
    ensures CopyFrom(m, dest, src, k, n)[dest + j] == m[src + j]
    decreases n - k
  {
    var w := Unit(dest, k, n);
    var m' := Moved(m, dest + k, src + k, w);
    if j < k + w {
      CopyKeeps(m', dest, src, k + w, n, dest + j);
    } else {
      CopyReads(m', dest, src, k + w, n, j);
    }
  }

  ghost predicate CopiesRight(size: nat, dest: nat, src: nat, n: nat)
    requires dest + n <= size && src + n <= size
  {
    forall m: seq<byte> :: |m| == size ==> CopyFrom(m, dest, src, 0, n) == Moved(m, dest, src, n)
  }

  /** Exactly those regions. */
  lemma CopiesRightIff(size: nat, dest: nat, src: nat, n: nat)
    requires dest + n <= size && src + n <= size
    ensures CopiesRight(size, dest, src, n) <==> CopySafe(dest, src, n)
  {
    if dest <= src || src + n <= dest {
      forall m: seq<byte> | |m| == size ensures CopyFrom(m, dest, src, 0, n) == Moved(m, dest, src, n) {
        assert m == Moved(m, dest, src, 0);
        CopyRight(m, m, dest, src, 0, n);
      }
    } else if n == 4 && dest % 4 == 0 {
      forall m: seq<byte> | |m| == size ensures CopyFrom(m, dest, src, 0, n) == Moved(m, dest, src, n) {
        assert CopyFrom(Moved(m, dest, src, 4), dest, src, 4, 4) == Moved(m, dest, src, 4);
      }
    } else {
      var m := OverlapSpoils(size, dest, src, n);
    }
  }

  /** An upward overlap longer than one unit: the first unit overwrites a byte still to be read. */
  lemma OverlapSpoils(size: nat, dest: nat, src: nat, n: nat) returns (m: seq<byte>)
    requires dest + n <= size && src < dest < src + n && !(n == 4 && dest % 4 == 0)
    ensures |m| == size && CopyFrom(m, dest, src, 0, n) != Moved(m, dest, src, n)
  {
    var d, w := dest - src, Unit(dest, 0, n);
    // The first offset that is read after being overwritten, and the byte that overwrites it.
    var j := if d >= w then d else w;
    m := seq(size, i => if i == src + (j - d) then 1 else 0);
    var m' := Moved(m, dest, src, w);
    if w == 4 && d < 4 {
      assert n > 4;
    }
    assert m'[src + j] == 1;
    CopyReads(m', dest, src, w, n, j);
    assert Moved(m, dest, src, n)[dest + j] == m[src + j] == 0;
  }
}
