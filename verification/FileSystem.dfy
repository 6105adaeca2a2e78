/** The read-only file system of student-distrib/filesystem.c: files are chains of
    4 KB blocks named by an inode, read block by block into a caller's buffer. */
module FileSystem {
  import opened Machine
  import opened Buffers

  const BLOCK := 4096
  const SLOTS := 1023
  const DESCRIPTORS := 8
  const FD_MIN := 2

  type Block = b: seq<byte> | |b| == BLOCK witness seq(BLOCK, _ => 0)

  /** Memory as the reader's pointer arithmetic sees it. `length(n)` is the first word of
      inode block `n`, `slot(n, i)` the block number in word `i + 1` (beyond slot 1022, the
      words that follow it in memory), `block(k)` the 4 KB at data block `k`. */
  datatype Disk = Disk(numInodes: uint32, length: uint32 -> uint32, slot: (uint32, nat) -> nat, block: nat -> Block)

  /** Inodes `read_data` accepts; the last one is refused. */
  predicate Readable(d: Disk, inode: uint32) {
    inode < (d.numInodes + 0xFFFF_FFFF) % 0x1_0000_0000
  }

  /** An inode block has room for 1023 block numbers. */
  ghost predicate WellFormed(d: Disk) {
    forall n: uint32 :: Readable(d, n) ==> d.length(n) <= SLOTS * BLOCK
  }

  function BlockOf(d: Disk, inode: uint32, i: nat): Block {
    d.block(d.slot(inode, i))
  }

  // ------------------------------------------------------------ the flat file

  function FileByte(d: Disk, inode: uint32, p: nat): byte {
    BlockOf(d, inode, p / BLOCK)[p % BLOCK]
  }

  function Slice(d: Disk, inode: uint32, offset: nat, n: nat): (s: seq<byte>)
    ensures |s| == n
    ensures forall k :: 0 <= k < n ==> s[k] == FileByte(d, inode, offset + k)
  {
    seq<byte>(n, k requires 0 <= k < n => FileByte(d, inode, offset + k))
  }

  function File(d: Disk, inode: uint32): seq<byte> {
    Slice(d, inode, 0, d.length(inode))
  }

  /** A file byte: the block number stored in the word for its block, and the byte in that block. */
  lemma FileByteIs(d: Disk, inode: uint32, p: nat)
    requires p < d.length(inode)
    ensures |File(d, inode)| == d.length(inode)
    ensures File(d, inode)[p] == d.block(d.slot(inode, p / 4096))[p % 4096]
  {
  }

  // ------------------------------------------------------------ the copy loop as a function

  /** The passes after the first: block `i` goes to position `pos` of `out`. */
  ghost function Later(d: Disk, inode: uint32, index: nat, i: nat, pos: nat, out: seq<byte>): (r: seq<byte>)
    requires index < BLOCK && pos <= |out|
    ensures |r| == |out|
    decreases |out| - pos
  {
    var left := |out| - pos;
    var b := BlockOf(d, inode, i);
    if left == 0 then out
    else if left < BLOCK then Put(out, pos, b[..left])
    else
      var out' := Put(out, pos, b);
      var pos' := pos + (BLOCK - index);
      if |out| - pos' < BLOCK then Put(out', pos', b[..|out| - pos'])
      else Later(d, inode, index, i + 1, pos', out')
  }

  /** What the loop leaves in the first `n` bytes of the buffer. */
  ghost function Copied(d: Disk, inode: uint32, offset: nat, n: nat): (r: seq<byte>)
    ensures |r| == n
  {
    var i, index := offset / BLOCK, offset % BLOCK;
    var b := BlockOf(d, inode, i);
    if index + n <= BLOCK then b[index..index + n]
    else Later(d, inode, index, i + 1, BLOCK - index, Put(Zeros(n), 0, b[index..]))
  }

  // ------------------------------------------------------------ where the loop is exact

  /** The reads that come out as the flat-file slice, whatever the disk holds. */
  predicate Exact(offset: nat, n: nat) {
    var index := offset % BLOCK;
    index + n < 2 * BLOCK || (index == 0 && n % BLOCK == 0)
  }

  lemma {:induction false} WholeBlocksExact(d: Disk, inode: uint32, offset: nat, i: nat, pos: nat, out: seq<byte>)
    requires offset % BLOCK == 0 && offset + pos == i * BLOCK
    requires pos <= |out| && |out| % BLOCK == 0
    requires forall k :: 0 <= k < pos ==> out[k] == FileByte(d, inode, offset + k)
    ensures Later(d, inode, 0, i, pos, out) == Slice(d, inode, offset, |out|)
    decreases |out| - pos
  {
    var left := |out| - pos;
    assert left % BLOCK == 0;
    if left >= BLOCK {
      var out' := Put(out, pos, BlockOf(d, inode, i));
      forall k | 0 <= k < pos + BLOCK ensures out'[k] == FileByte(d, inode, offset + k) {
        if k >= pos {
          InBlock(offset + k, i, k - pos);
        }
      }
      WholeBlocksExact(d, inode, offset, i + 1, pos + BLOCK, out');
      if left == BLOCK {
        assert out' == Slice(d, inode, offset, |out|);
        assert Put(out', |out|, BlockOf(d, inode, i)[..0]) == out';
      }
    }
  }

  lemma InBlock(p: nat, i: nat, k: nat)
    requires p == i * BLOCK + k && k < BLOCK
    ensures p / BLOCK == i && p % BLOCK == k
  {
  }

  lemma ExactReads(d: Disk, inode: uint32, offset: nat, n: nat)
    requires Exact(offset, n)
    ensures Copied(d, inode, offset, n) == Slice(d, inode, offset, n)
  {
    var i, index := offset / BLOCK, offset % BLOCK;
    var b := BlockOf(d, inode, i);
    if index + n <= BLOCK {
      var r := b[index..index + n];
      forall k | 0 <= k < n ensures r[k] == FileByte(d, inode, offset + k) {
        InBlock(offset + k, i, index + k);
      }
    } else {
      var out := Put(Zeros(n), 0, b[index..]);
      forall k | 0 <= k < BLOCK - index ensures out[k] == FileByte(d, inode, offset + k) {
        InBlock(offset + k, i, index + k);
      }
      if index + n < 2 * BLOCK {
        var r := Later(d, inode, index, i + 1, BLOCK - index, out);
        forall k | BLOCK - index <= k < n ensures r[k] == FileByte(d, inode, offset + k) {
          InBlock(offset + k, i + 1, k - (BLOCK - index));
        }
      } else {
        WholeBlocksExact(d, inode, offset, i + 1, BLOCK, out);
      }
    }
  }

  // ------------------------------------------------------------ where it is not

  /** Once a position is behind the write pointer it keeps its byte. */
  lemma {:induction false} LaterKeeps(d: Disk, inode: uint32, index: nat, i: nat, pos: nat, out: seq<byte>, p: nat)
    requires index < BLOCK && p < pos <= |out|
    ensures Later(d, inode, index, i, pos, out)[p] == out[p]
    decreases |out| - pos
  {
    var left := |out| - pos;
    if left >= BLOCK {
      var out', pos' := Put(out, pos, BlockOf(d, inode, i)), pos + (BLOCK - index);
      if |out| - pos' >= BLOCK {
        LaterKeeps(d, inode, index, i + 1, pos', out', p);
      }
    }
  }

  /** Every later pass puts the first byte of some block at its own start position. */
  lemma LaterStarts(d: Disk, inode: uint32, index: nat, i: nat, pos: nat, out: seq<byte>)
    requires index < BLOCK && pos < |out|
    ensures Later(d, inode, index, i, pos, out)[pos] == BlockOf(d, inode, i)[0]
  {
    var b, left := BlockOf(d, inode, i), |out| - pos;
    if left >= BLOCK {
      var out', pos' := Put(out, pos, b), pos + (BLOCK - index);
      if |out| - pos' >= BLOCK {
        LaterKeeps(d, inode, index, i + 1, pos', out', pos);
      }
    }
  }

  /** A disk with one readable file, whose blocks carry their own number in byte 0 and
      1 elsewhere. */
  function MarkedBlock(k: nat): Block {
    seq(BLOCK, j requires 0 <= j < BLOCK => if j == 0 then 2 * (k % 2) else 1)
  }

  function MarkedDisk(length: uint32): Disk {
    Disk(2, _ => length, (_, i) => i, k => MarkedBlock(k))
  }

  /** Unaligned start: the second copied block begins inside the room of the first. */
  lemma UnalignedFails(length: uint32, offset: nat, n: nat)
    requires offset % BLOCK > 0 && offset % BLOCK + n >= 2 * BLOCK
    ensures Copied(MarkedDisk(length), 0, offset, n) != Slice(MarkedDisk(length), 0, offset, n)
  {
    var d := MarkedDisk(length);
    hide Copied, Later, Put;
    var i, index := offset / BLOCK, offset % BLOCK;
    var pos := BLOCK - index;
    var out := Put(Zeros(n), 0, BlockOf(d, 0, i)[index..]);
    FirstPass(d, 0, offset, n);
    SecondPassStarts(d, 0, index, i + 1, pos, out);
    assert FileByte(d, 0, offset + 2 * pos) == BlockOf(d, 0, i + 1)[pos] by {
      InBlock(offset + 2 * pos, i + 1, pos);
    }
    assert Slice(d, 0, offset, n)[2 * pos] == 1;
  }

  /** The pass after a full one starts `BLOCK - index` further, with the first byte of a block. */
  lemma SecondPassStarts(d: Disk, inode: uint32, index: nat, i: nat, pos: nat, out: seq<byte>)
    requires 0 < index < BLOCK && pos + BLOCK <= |out|
    ensures var r := Later(d, inode, index, i, pos, out)[pos + (BLOCK - index)];
      r == BlockOf(d, inode, i)[0] || r == BlockOf(d, inode, i + 1)[0]
  {
    var pos' := pos + (BLOCK - index);
    if |out| - pos' >= BLOCK {
      LaterStarts(d, inode, index, i + 1, pos', Put(out, pos, BlockOf(d, inode, i)));
    }
  }

  /** Aligned start, ragged end: the tail is taken from the block before it. */
  lemma {:induction false} RaggedTail(d: Disk, inode: uint32, i: nat, pos: nat, out: seq<byte>, m: nat, r: nat)
    requires 0 < m && 0 < r < BLOCK && |out| == pos + m * BLOCK + r
    ensures Later(d, inode, 0, i, pos, out)[pos + m * BLOCK] == BlockOf(d, inode, i + m - 1)[0]
    decreases m
  {
    if m > 1 {
      RaggedTail(d, inode, i + 1, pos + BLOCK, Put(out, pos, BlockOf(d, inode, i)), m - 1, r);
    }
  }

  lemma RaggedFails(length: uint32, offset: nat, n: nat)
    requires offset % BLOCK == 0 && n >= 2 * BLOCK && n % BLOCK > 0
    ensures Copied(MarkedDisk(length), 0, offset, n) != Slice(MarkedDisk(length), 0, offset, n)
  {
    hide Copied, Later, Put;
    var d := MarkedDisk(length);
    var i, q := offset / BLOCK, n / BLOCK;
    var out := Put(Zeros(n), 0, BlockOf(d, 0, i)[0..]);
    FirstPass(d, 0, offset, n);
    RaggedTail(d, 0, i + 1, BLOCK, out, q - 1, n % BLOCK);
    InBlock(offset + q * BLOCK, i + q, 0);
    assert Slice(d, 0, offset, n)[q * BLOCK] == MarkedBlock(i + q)[0];
    assert Copied(d, 0, offset, n)[q * BLOCK] == MarkedBlock(i + q - 1)[0];
  }

  // ------------------------------------------------------------ what it copies instead

  function Times(n: nat, s: nat): nat {
    n * s
  }

  lemma TimesNext(n: nat, s: nat)
    ensures Times(0, s) == 0 && Times(n + 1, s) == Times(n, s) + s
  {
  }

  /** From a full pass on, the passes advance by `stride`, each leaving the front of its block
      there. */
  lemma {:induction false} LaterStride(d: Disk, inode: uint32, index: nat, i: nat, pos: nat, out: seq<byte>, j: nat, x: nat)
    requires index < BLOCK && x < BLOCK - index && pos + BLOCK + Times(j, BLOCK - index) <= |out|
    ensures Later(d, inode, index, i, pos, out)[pos + Times(j, BLOCK - index) + x] == BlockOf(d, inode, i + j)[x]
    decreases j
  {
    hide Later, Put, BlockOf, Times;
    var stride, b := BLOCK - index, BlockOf(d, inode, i);
    var pos', out' := pos + stride, Put(out, pos, b);
    LaterPass(d, inode, index, i, pos, out);
    if j > 0 {
      TimesNext(j - 1, stride);
      LaterStride(d, inode, index, i + 1, pos', out', j - 1, x);
    } else {
      TimesNext(0, stride);
      if |out| - pos' >= BLOCK {
        LaterKeeps(d, inode, index, i + 1, pos', out', pos + x);
      }
    }
  }

  /** The rest behind the last full pass comes from the front of the same block. */
  lemma {:induction false} LaterRest(d: Disk, inode: uint32, index: nat, i: nat, pos: nat, out: seq<byte>, last: nat, x: nat)
    requires index < BLOCK && pos + BLOCK + Times(last, BLOCK - index) <= |out|
    requires |out| < pos + BLOCK + Times(last, BLOCK - index) + (BLOCK - index)
    requires pos + Times(last, BLOCK - index) + (BLOCK - index) + x < |out|
    ensures Later(d, inode, index, i, pos, out)[pos + Times(last, BLOCK - index) + (BLOCK - index) + x]
      == BlockOf(d, inode, i + last)[x]
    decreases last
  {
    hide Later, Put, BlockOf, Times;
    var stride, b := BLOCK - index, BlockOf(d, inode, i);
    LaterPass(d, inode, index, i, pos, out);
    if last > 0 {
      TimesNext(last - 1, stride);
      LaterRest(d, inode, index, i + 1, pos + stride, Put(out, pos, b), last - 1, x);
    } else {
      TimesNext(0, stride);
    }
  }

  /** Every byte of a read outside the region. With `stride` bytes left in the first block, the read
      is made of strides: the rest of the first block, then the first `stride` bytes of each block
      after it, and behind the `last` of them the front of that block once more. */
  lemma CopiedStrides(d: Disk, inode: uint32, offset: nat, n: nat, last: nat, j: nat, x: nat)
    requires var stride := 4096 - offset % 4096;
      stride + 4096 <= n && last * stride <= n - 4096 < (last + 1) * stride
    ensures var i, stride, r := offset / 4096, 4096 - offset % 4096, Copied(d, inode, offset, n);
      && (x < stride ==> r[x] == d.block(d.slot(inode, i))[offset % 4096 + x])
      && (1 <= j <= last && x < stride ==>
            j * stride + x < n && r[j * stride + x] == d.block(d.slot(inode, i + j))[x])
      && ((last + 1) * stride + x < n ==>
            x < 4096 && r[(last + 1) * stride + x] == d.block(d.slot(inode, i + last))[x])
  {
    hide Later, Copied, Put, Times;
    var i, index := offset / BLOCK, offset % BLOCK;
    var stride := BLOCK - index;
    var out := Put(Zeros(n), 0, BlockOf(d, inode, i)[index..]);
    FirstPass(d, inode, offset, n);
    assert last > 0;
    TimesIs(last, stride);
    if x < stride {
      LaterKeeps(d, inode, index, i + 1, stride, out, x);
      if 1 <= j <= last {
        TimesIs(j, stride);
        TimesUpTo(j, last, stride);
        LaterStride(d, inode, index, i + 1, stride, out, j - 1, x);
      }
    }
    if (last + 1) * stride + x < n {
      LaterRest(d, inode, index, i + 1, stride, out, last - 1, x);
    }
  }

  lemma TimesIs(n: nat, s: nat)
    requires n > 0
    ensures n * s == Times(n - 1, s) + s && (n + 1) * s == n * s + s
  {
  }

  lemma TimesUpTo(a: nat, b: nat, s: nat)
    requires a <= b
    ensures a * s <= b * s
  {
  }

  ghost predicate Covers(d: Disk, inode: uint32, offset: nat, n: nat) {
    WellFormed(d) && Readable(d, inode) && offset + n <= d.length(inode)
  }

  ghost predicate AlwaysExact(offset: nat, n: nat) {
    forall d: Disk, inode: uint32 :: Covers(d, inode, offset, n) ==>
      Copied(d, inode, offset, n) == Slice(d, inode, offset, n)
  }

  /** The exact region, both ways, over every read that some file can serve. */
  lemma AlwaysExactIff(offset: nat, n: nat)
    requires offset + n <= SLOTS * BLOCK
    ensures AlwaysExact(offset, n) <==> Exact(offset, n)
  {
    hide Copied;
    if Exact(offset, n) {
      forall d: Disk, inode: uint32 | Covers(d, inode, offset, n)
        ensures Copied(d, inode, offset, n) == Slice(d, inode, offset, n)
      {
        ExactReads(d, inode, offset, n);
      }
    } else {
      var d := MarkedDisk(offset + n);
      assert Covers(d, 0, offset, n);
      if offset % BLOCK > 0 {
        UnalignedFails(offset + n, offset, n);
      } else {
        RaggedFails(offset + n, offset, n);
      }
    }
  }

  /** A read of at most one block returns the next bytes of the file and zeros after them. */
  lemma SmallReadExact(d: Disk, inode: uint32, offset: uint32, length: uint32)
    requires length <= BLOCK
    ensures var r := Returned(d, inode, offset, length);
      Filled(d, inode, offset, length) ==
      if r <= 0 then Zeros(length) else Slice(d, inode, offset, r) + Zeros(length - r)
  {
    var r := Returned(d, inode, offset, length);
    if r > 0 {
      ExactReads(d, inode, offset, r);
    }
  }

  // ------------------------------------------------------------ read_data

  /** The end of the read, where one happens, is a 32-bit number: anything else takes a buffer
      of almost 4 GB. */
  predicate NoWrap(d: Disk, inode: uint32, offset: uint32, length: uint32) {
    offset < d.length(inode) && Readable(d, inode) ==> offset + length < 0x1_0000_0000
  }

  /** The value `read_data` returns. */
  function Returned(d: Disk, inode: uint32, offset: uint32, length: uint32): int {
    if offset >= d.length(inode) then 0
    else if !Readable(d, inode) then -1
    else Min(length, d.length(inode) - offset)
  }

  /** What it leaves in the `length` bytes of the buffer: the copied bytes, then zeros. */
  ghost function Filled(d: Disk, inode: uint32, offset: uint32, length: uint32): (s: seq<byte>)
    ensures |s| == length
  {
    var r := Returned(d, inode, offset, length);
    if r <= 0 then Zeros(length) else Copied(d, inode, offset, r) + Zeros(length - r)
  }

  /** Where the file position ends up. */
  function Advanced(d: Disk, inode: uint32, offset: uint32, length: uint32): nat {
    var r := Returned(d, inode, offset, length);
    if offset >= d.length(inode) || r == -1 then offset else offset + r
  }

  /** The four magic bytes of an executable. */
  predicate Executable(d: Disk, inode: uint32) {
    d.length(inode) >= 4 && BlockOf(d, inode, 0)[..4] == [0x7F, 0x45, 0x4C, 0x46]
  }

  function LittleEndian(b: seq<byte>): uint32
    requires |b| == 4
  {
    var b0: int, b1: int, b2: int, b3: int := b[0], b[1], b[2], b[3];
    b0 + 0x100 * b1 + 0x1_0000 * b2 + 0x100_0000 * b3
  }

  /** What the loader stages is the file exactly for files below 8192 bytes or of whole blocks. */
  lemma StagedExactIff(n: nat)
    requires n <= SLOTS * BLOCK
    ensures AlwaysExact(0, n) <==> n < 8192 || n % 4096 == 0
  {
    AlwaysExactIff(0, n);
  }

  /** `memcpy` into a window of the buffer that so far holds `out`. */
  method CopyWindow(buf: array<byte>, ghost base: seq<byte>, at: nat, ghost out: seq<byte>, pos: nat, src: seq<byte>)
    returns (ghost out': seq<byte>)
    requires at + |out| <= |base| && buf[..] == Put(base, at, out) && pos + |src| <= |out|
    modifies buf
    ensures out' == Put(out, pos, src) && buf[..] == Put(base, at, out')
  {
    PutPut(base, at, out, pos, src);
    CopyIn(buf, at + pos, src);
    out' := Put(out, pos, src);
  }

  /** A process's open regular files: for each descriptor the directory entry's inode, the file
      position, the flag and whether it has operations, and the two globals naming the
      descriptor last used and the one last opened. */
  class OpenFiles {
    const disk: Disk
    var inodeOf: seq<uint32>
    var fpos: seq<uint32>
    var inUse: seq<bool>
    var hasOps: seq<bool>
    var fdVal: nat
    var fdIndex: nat

    ghost predicate Valid()
      reads this
    {
      && WellFormed(disk) && |inodeOf| == |fpos| == |inUse| == |hasOps| == DESCRIPTORS
      && fdVal < DESCRIPTORS && fdIndex < DESCRIPTORS
    }

    constructor (d: Disk)
      requires WellFormed(d)
      ensures Valid() && disk == d && fpos == seq(DESCRIPTORS, _ => 0)
    {
      disk := d;
      inodeOf := seq(DESCRIPTORS, _ => 0);
      fpos := seq(DESCRIPTORS, _ => 0);
      inUse := seq(DESCRIPTORS, _ => false);
      hasOps := seq(DESCRIPTORS, _ => false);
      fdVal := 0;
      fdIndex := FD_MIN;
    }

    /** The loop of `read_data`: `left` bytes are still to come, at `holder`. */
    method CopyBlocks(inode: uint32, offset: nat, rval: nat, buf: array<byte>, at: nat)
      requires at + rval <= buf.Length && buf[at..at + rval] == Zeros(rval)
      modifies buf
      ensures buf[..] == Put(old(buf[..]), at, Copied(disk, inode, offset, rval))
    {
      hide Put, Later, Copied, Zeros;
      ghost var cleared, goal, out := buf[..], Copied(disk, inode, offset, rval), Zeros(rval);
      assert cleared == Put(cleared, at, out) by { PutSame(cleared, at, rval); }
      assert rval == 0 ==> out == goal;
      var left, i: nat, index, first, holder := rval, offset / BLOCK, offset % BLOCK, true, at;
      while left > 0
        invariant 0 <= left <= rval == |out| && holder + left == at + rval
        invariant buf[..] == Put(cleared, at, out)
        invariant first ==> left == rval && i == offset / BLOCK && out == Zeros(rval)
        invariant left == 0 ==> out == goal
        invariant left > 0 && !first ==> Later(disk, inode, index, i, rval - left, out) == goal
        decreases left
      {
        var b := BlockOf(disk, inode, i);
        if first {
          first := false;
          FirstPass(disk, inode, offset, rval);
          if index + left <= BLOCK {
            out := CopyWindow(buf, cleared, at, out, 0, b[index..index + left]);
            left := 0;
            holder := at + rval;
          } else {
            out := CopyWindow(buf, cleared, at, out, 0, b[index..]);
            left := left - (BLOCK - index);
            holder := holder + (BLOCK - index);
            i := i + 1;
          }
        } else {
          LaterPass(disk, inode, index, i, rval - left, out);
          if left >= BLOCK {
            out := CopyWindow(buf, cleared, at, out, rval - left, b);
            left := left - (BLOCK - index);
            holder := holder + (BLOCK - index);
            i := i + 1;
          }
          if left < BLOCK {
            out := CopyWindow(buf, cleared, at, out, rval - left, b[..left]);
            left := 0;
            holder := at + rval;
          }
        }
      }
    }

    /** `buf + at` is the caller's pointer. */
    method ReadData(inode: uint32, offset: uint32, buf: array<byte>, at: nat, nbytes: uint32) returns (r: int)
      requires Valid() && NoWrap(disk, inode, offset, nbytes) && at + nbytes <= buf.Length
      modifies this`fpos, buf
      ensures Valid() && r == Returned(disk, inode, offset, nbytes)
      ensures offset >= disk.length(inode) ==> r == 0
      ensures offset < disk.length(inode) ==>
        var last := if disk.numInodes == 0 then 0xFFFF_FFFF else disk.numInodes - 1;
        r == if inode >= last then -1
             else if nbytes <= disk.length(inode) - offset then nbytes else disk.length(inode) - offset
      ensures buf[..] == Put(old(buf[..]), at, Filled(disk, inode, offset, nbytes))
      ensures r > 0 ==> buf[at..at + r] == Copied(disk, inode, offset, r)
      ensures forall k :: at <= k < at + nbytes && k >= at + r ==> buf[k] == 0
      ensures forall k :: 0 <= k < at || at + nbytes <= k < buf.Length ==> buf[k] == old(buf[k])
      ensures fpos == if r == -1 || offset >= disk.length(inode) then old(fpos)
                      else old(fpos)[fdVal := offset + r]
    {
      hide Copied, Put;
      var length := nbytes;
      CopyIn(buf, at, Zeros(length));
      assert forall k :: at <= k < at + nbytes ==> buf[..][k] == 0;
      var dataLength := disk.length(inode);
      if offset >= dataLength {
        return 0;
      }
      if inode >= (disk.numInodes + 0xFFFF_FFFF) % 0x1_0000_0000 {
        return -1;
      }
      if (offset + length) % 0x1_0000_0000 > dataLength {
        length := dataLength - offset;
      }
      var rval := length;
      CopyBlocks(inode, offset, rval, buf, at);
      PutShorter(old(buf[..]), at, nbytes, Copied(disk, inode, offset, rval));
      fpos := fpos[fdVal := offset + rval];
      return rval;
    }

    /** The data part of `loader`: the image goes to the staging area, and the entry point is
        read back from it. */
    method StageProgram(inode: uint32, mem: array<byte>, at: nat) returns (ok: bool, eip: uint32)
      requires Valid() && at + disk.length(inode) <= mem.Length && at + 28 <= mem.Length
      modifies this`fpos, mem
      ensures Valid() && ok == Executable(disk, inode)
      ensures ok <==> disk.length(inode) >= 4 && (var b := disk.block(disk.slot(inode, 0));
        b[0] == 0x7F && b[1] == 0x45 && b[2] == 0x4C && b[3] == 0x46)
      ensures !ok ==> mem[..] == old(mem[..])
      // The read also moves the position of whichever descriptor was used last.
      ensures fpos == if ok && Readable(disk, inode) then old(fpos)[fdVal := disk.length(inode)] else old(fpos)
      ensures ok ==> mem[..] == Put(old(mem[..]), at, Filled(disk, inode, 0, disk.length(inode)))
      ensures ok && Readable(disk, inode) && Exact(0, disk.length(inode)) ==>
        && mem[at..at + disk.length(inode)] == File(disk, inode)
        && (disk.length(inode) >= 28 ==>
              var f := File(disk, inode);
              var b0: int, b1: int, b2: int, b3: int := f[24], f[25], f[26], f[27];
              eip == b0 + 0x100 * b1 + 0x1_0000 * b2 + 0x100_0000 * b3)
      ensures ok ==>
        var b0: int, b1: int, b2: int, b3: int := mem[at + 24], mem[at + 25], mem[at + 26], mem[at + 27];
        eip == b0 + 0x100 * b1 + 0x1_0000 * b2 + 0x100_0000 * b3
    {
      hide Filled, Copied, Put;
      var length := disk.length(inode);
      if length < 4 || BlockOf(disk, inode, 0)[..4] != [0x7F, 0x45, 0x4C, 0x46] {
        return false, 0;
      }
      ghost var before := mem[..];
      var _ := ReadData(inode, 0, mem, at, length);
      eip := LittleEndian(mem[at + 24..at + 28]);
      if Readable(disk, inode) && Exact(0, length) {
        WholeFileFilled(disk, inode);
        PutWindow(before, at, File(disk, inode));
        assert mem[at..at + length] == mem[..][at..at + length];
        assert length >= 28 ==> mem[at + 24..at + 28] == mem[at..at + length][24..28];
      }
      return true, eip;
    }

    /** `filesystem_read` on a regular file. */
    method Read(fd: nat, buf: array<byte>, at: nat, nbytes: uint32) returns (r: int)
      requires Valid() && fd < DESCRIPTORS && NoWrap(disk, inodeOf[fd], fpos[fd], nbytes)
      requires at + nbytes <= buf.Length
      modifies this`fpos, this`fdVal, buf
      ensures Valid() && fdVal == fd && r == Returned(disk, inodeOf[fd], old(fpos[fd]), nbytes)
      ensures buf[..] == Put(old(buf[..]), at, Filled(disk, inodeOf[fd], old(fpos[fd]), nbytes))
      ensures fpos == old(fpos)[fd := Advanced(disk, inodeOf[fd], old(fpos[fd]), nbytes)]
    {
      fdVal := fd;
      r := ReadData(inodeOf[fd], fpos[fd], buf, at, nbytes);
    }

    /** The `read` system call; `fault` says that it called through a missing operations table. */
    method SysRead(fd: int, buf: array<byte>, at: nat, nbytes: int) returns (r: int, fault: bool)
      requires Valid() && nbytes < 0x8000_0000 && at + nbytes <= buf.Length
      modifies this`fpos, this`fdVal, buf
      ensures Valid() && (fault <==> Accepts(fd, nbytes) && !hasOps[fd])
      ensures fault || !Accepts(fd, nbytes) ==>
        r == -1 && buf[..] == old(buf[..]) && fpos == old(fpos) && fdVal == old(fdVal)
      ensures !fault && Accepts(fd, nbytes) ==>
        && fdVal == fd && r == Returned(disk, inodeOf[fd], old(fpos)[fd], nbytes)
        && buf[..] == Put(old(buf[..]), at, Filled(disk, inodeOf[fd], old(fpos)[fd], nbytes))
        && fpos == old(fpos)[fd := Advanced(disk, inodeOf[fd], old(fpos)[fd], nbytes)]
    {
      if fd < 0 || fd >= DESCRIPTORS || !inUse[fd] || nbytes < 0 {
        return -1, false;
      }
      if !hasOps[fd] {
        return -1, true;
      }
      r := Read(fd, buf, at, nbytes);
      return r, false;
    }

    predicate Accepts(fd: int, nbytes: int)
      requires Valid()
      reads this
    {
      0 <= fd < DESCRIPTORS && inUse[fd] && nbytes >= 0
    }

    /** The `close` system call. It takes the operations from the descriptor opened last, which
        need not be the one it closes. */
    method Close(fd: int) returns (r: int)
      requires Valid()
      modifies this
      ensures Valid() && fdIndex == old(fdIndex)
      ensures r == if FD_MIN <= fd < DESCRIPTORS && old(inUse)[fd] then 0 else -1
      ensures r == 0 ==>
        && inUse == old(inUse)[fd := false] && hasOps == old(hasOps)[fdIndex := false]
        && inodeOf == old(inodeOf)[fd := 0] && fpos == old(fpos)[fd := 0] && fdVal == fd
      ensures r == -1 ==>
        inUse == old(inUse) && hasOps == old(hasOps) && inodeOf == old(inodeOf) && fpos == old(fpos) && fdVal == old(fdVal)
    {
      if fd >= DESCRIPTORS || fd < FD_MIN {
        return -1;
      }
      if !inUse[fd] {
        return -1;
      }
      fpos := fpos[fd := 0];
      inodeOf := inodeOf[fd := 0];
      hasOps := hasOps[fdIndex := false];
      fdVal := fd;
      inUse := inUse[fd := false];
      return 0;
    }
  }

  lemma WholeFileFilled(d: Disk, inode: uint32)
    requires Readable(d, inode) && Exact(0, d.length(inode))
    ensures Filled(d, inode, 0, d.length(inode)) == File(d, inode)
  {
    ExactReads(d, inode, 0, d.length(inode));
  }

  lemma PutSame(s: seq<byte>, at: nat, n: nat)
    requires at + n <= |s| && s[at..at + n] == Zeros(n)
    ensures s == Put(s, at, Zeros(n))
  {
    assert forall k :: at <= k < at + n ==> s[k] == s[at..at + n][k - at];
  }

  /** Clearing a window and then filling its front. */
  lemma PutShorter(s: seq<byte>, at: nat, n: nat, src: seq<byte>)
    requires at + n <= |s| && |src| <= n
    ensures Put(Put(s, at, Zeros(n)), at, src) == Put(s, at, src + Zeros(n - |src|))
  {
  }

  /** The first pass of the loop, and what remains of it. */
  lemma FirstPass(d: Disk, inode: uint32, offset: nat, n: nat)
    ensures var index, b := offset % BLOCK, BlockOf(d, inode, offset / BLOCK);
      if index + n <= BLOCK then Copied(d, inode, offset, n) == Put(Zeros(n), 0, b[index..index + n])
      else Copied(d, inode, offset, n)
           == Later(d, inode, index, offset / BLOCK + 1, BLOCK - index, Put(Zeros(n), 0, b[index..]))
  {
  }

  lemma LaterPass(d: Disk, inode: uint32, index: nat, i: nat, pos: nat, out: seq<byte>)
    requires index < BLOCK && pos < |out|
    ensures var b, left, pos' := BlockOf(d, inode, i), |out| - pos, pos + (BLOCK - index);
      Later(d, inode, index, i, pos, out) ==
      if left < BLOCK then Put(out, pos, b[..left])
      else if |out| - pos' < BLOCK then Put(Put(out, pos, b), pos', b[..|out| - pos'])
      else Later(d, inode, index, i + 1, pos', Put(out, pos, b))
  {
  }

  /** Writing into a window of the buffer, seen from the whole buffer. */
  lemma PutPut(s: seq<byte>, at: nat, out: seq<byte>, pos: nat, src: seq<byte>)
    requires at + |out| <= |s| && pos + |src| <= |out|
    ensures Put(Put(s, at, out), at + pos, src) == Put(s, at, Put(out, pos, src))
  {
  }
}
