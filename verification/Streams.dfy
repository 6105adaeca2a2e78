/** Sequential clients of the file system: runs of small reads on one descriptor, and cat. */
module Streams {
  import opened Machine
  import opened Buffers
  import opened FileSystem

  function Sum(sizes: seq<nat>): nat {
    if sizes == [] then 0 else Sum(sizes[..|sizes| - 1]) + sizes[|sizes| - 1]
  }

  /** The file from `a` to `b`. */
  ghost function Part(d: Disk, inode: uint32, a: nat, b: nat): (s: seq<byte>)
    requires a <= b
    ensures |s| == b - a
  {
    Slice(d, inode, a, b - a)
  }

  lemma PartsJoin(d: Disk, inode: uint32, a: nat, b: nat, c: nat)
    requires a <= b <= c
    ensures Part(d, inode, a, b) + Part(d, inode, b, c) == Part(d, inode, a, c)
  {
  }

  lemma WholeFile(d: Disk, inode: uint32)
    ensures Part(d, inode, 0, d.length(inode)) == File(d, inode)
  {
  }

  /** One read of at most a block: the next part of the file, which may be empty at its end. */
  method ReadPiece(files: OpenFiles, fd: nat, buf: array<byte>, n: uint32) returns (r: int, piece: seq<byte>)
    requires files.Valid() && fd < DESCRIPTORS && n <= BLOCK && n <= buf.Length
    modifies files`fpos, files`fdVal, buf
    ensures files.Valid()
    ensures var d, inode, pos := files.disk, files.inodeOf[fd], old(files.fpos[fd]);
      && r == Returned(d, inode, pos, n)
      && (r >= 0 ==> pos <= files.fpos[fd] && files.fpos[fd] == pos + r && piece == Part(d, inode, pos, pos + r))
      && (r < 0 ==> piece == [])
      && (files.fpos == old(files.fpos)[fd := files.fpos[fd]])
  {
    ghost var pos := files.fpos[fd];
    ghost var d, inode := files.disk, files.inodeOf[fd];
    SmallReadExact(d, inode, pos, n);
    r := files.Read(fd, buf, 0, n);
    piece := if r < 0 then [] else buf[..r];
    if r > 0 {
      assert buf[..r] == buf[..][..r];
    }
  }

  /** For every sequence of read sizes of at most a block, the pieces are consecutive parts
      of the file; once its end is reached they are empty. */
  method ReadMany(files: OpenFiles, fd: nat, buf: array<byte>, sizes: seq<nat>) returns (pieces: seq<seq<byte>>)
    requires files.Valid() && fd < DESCRIPTORS && Readable(files.disk, files.inodeOf[fd])
    requires buf.Length == BLOCK && forall i :: 0 <= i < |sizes| ==> sizes[i] <= BLOCK
    requires files.fpos[fd] == 0
    modifies files`fpos, files`fdVal, buf
    ensures files.Valid()
    ensures var d, inode := files.disk, files.inodeOf[fd];
      && |pieces| == |sizes|
      && files.fpos[fd] == Min(Sum(sizes), d.length(inode))
      && Concat(pieces) == File(d, inode)[..files.fpos[fd]]
  {
    hide Part;
    ghost var d, inode := files.disk, files.inodeOf[fd];
    pieces := [];
    assert Concat(pieces) == Part(d, inode, 0, 0);
    var i := 0;
    while i < |sizes|
      invariant i <= |sizes| && |pieces| == i
      invariant files.Valid() && files.inodeOf[fd] == inode
      invariant files.fpos[fd] == Min(Sum(sizes[..i]), d.length(inode))
      invariant Concat(pieces) == Part(d, inode, 0, files.fpos[fd])
    {
      ghost var pos := files.fpos[fd];
      var r, piece := ReadPiece(files, fd, buf, sizes[i]);
      PartsJoin(d, inode, 0, pos, files.fpos[fd]);
      ConcatSnoc(pieces, piece);
      assert sizes[..i + 1][..i] == sizes[..i];
      pieces := pieces + [piece];
      i := i + 1;
    }
    assert sizes[..i] == sizes;
    PartIsPrefix(d, inode, files.fpos[fd]);
  }

  lemma PartIsPrefix(d: Disk, inode: uint32, n: nat)
    requires n <= d.length(inode)
    ensures Part(d, inode, 0, n) == File(d, inode)[..n]
  {
  }

  const CHUNK := 1024

  /** The loop of cat: read 1024 bytes until nothing comes, writing what did. The writes succeed
      `writes` times and fail from then on. */
  method Cat(files: OpenFiles, fd: nat, buf: array<byte>, writes: nat) returns (status: int, out: seq<byte>)
    requires files.Valid() && fd < DESCRIPTORS && buf.Length == CHUNK && files.fpos[fd] == 0
    modifies files`fpos, files`fdVal, buf
    ensures var d, inode := files.disk, files.inodeOf[fd];
      if d.length(inode) == 0 || (Readable(d, inode) && d.length(inode) <= writes * CHUNK)
      then status == 0 && out == File(d, inode)
      else status == 3 && out == if Readable(d, inode) then File(d, inode)[..writes * CHUNK] else []
  {
    hide Part;
    ghost var d, inode := files.disk, files.inodeOf[fd];
    out := [];
    var done := 0;
    assert out == Part(d, inode, 0, 0);
    while true
      invariant files.Valid() && files.inodeOf[fd] == inode
      invariant 0 <= done <= writes && files.fpos[fd] == Min(done * CHUNK, d.length(inode))
      invariant out == Part(d, inode, 0, files.fpos[fd])
      invariant done > 0 ==> Readable(d, inode) && (done - 1) * CHUNK < d.length(inode)
      decreases d.length(inode) - files.fpos[fd]
    {
      ghost var pos := files.fpos[fd];
      var cnt, piece := ReadPiece(files, fd, buf, CHUNK);
      if cnt == 0 {
        break;
      }
      if cnt == -1 {
        return 3, out;
      }
      if done == writes {
        PartIsPrefix(d, inode, pos);
        return 3, out;
      }
      PartsJoin(d, inode, 0, pos, files.fpos[fd]);
      out := out + piece;
      done := done + 1;
    }
    WholeFile(d, inode);
    return 0, out;
  }
}
