/**
 Byte I/O on a block device node, src/kernel/fs/devfs.c:338-532: a head up to
 the next block boundary, whole blocks in the middle in runs of at most 128,
 and a tail. Each is shown to move exactly the next bytes of the flat device.
 */
module Devfs {
  import opened Errors
  import opened FlatBytes
  import opened BlockDevice

  class OpenFile {
    var pos: nat

    constructor (pos: nat)
      ensures this.pos == pos
    {
      this.pos := pos;
    }
  }

  /** The sizes the code's 32- and 64-bit arithmetic is exact for. */
  ghost predicate Transferable(dev: BlockDev, len: nat) {
    && dev.disk.bs < U32
    && Size(dev.nblocks, dev.disk.bs) < U64
    && (dev.disk.bs > 0 ==> Quot(len, dev.disk.bs) < U32)
  }

  /** How many of len bytes at pos a device of size bytes can move. */
  function Movable(size: int, pos: nat, len: nat): nat {
    if pos >= size then 0 else Min(len, size - pos)
  }

  /** Head and tail: one block through a scratch buffer, chunk bytes of it from the file position on. */
  method ReadPartial(dev: BlockDev, f: OpenFile, chunk: nat) returns (rc: int, out: Bytes)
    requires dev.Valid() && dev.disk.Works() && dev.disk.bs > 0 && Rem(f.pos, dev.disk.bs) + chunk <= dev.disk.bs
    requires f.pos < Size(dev.nblocks, dev.disk.bs)
    modifies f, dev.disk`fault
    ensures dev.disk.Works()
    ensures rc <= 0 && (rc < 0 ==> dev.disk.fault && f.pos == old(f.pos)) && (old(dev.disk.fault) ==> dev.disk.fault)
    ensures rc == 0 ==> f.pos == old(f.pos) + chunk <= |dev.Content()| && dev.disk.fault == old(dev.disk.fault)
    ensures rc == 0 ==> out == dev.Content()[old(f.pos)..f.pos]
  {
    var bs := dev.disk.bs;
    var lba, off := Quot(f.pos, bs), Rem(f.pos, bs);
    QuotBelow(f.pos, bs, dev.nblocks);
    out := [];
    var ok := dev.Scratch();
    if !ok {
      return VFS_ERR_NOMEM, out;
    }
    var tmp;
    rc, tmp := dev.ReadBlocks(lba, 1);
    if rc == 0 {
      assert Size(1, bs) == Size(0, bs) + bs;
      SliceOfSlice(dev.Content(), Size(lba, bs), bs, off, chunk);
      out := tmp[off..off + chunk];
      f.pos := f.pos + chunk;
    }
  }

  /** Middle: n whole blocks in runs of at most 128, stopping at the first error. */
  method ReadRuns(dev: BlockDev, f: OpenFile, n0: nat) returns (rc: int, out: Bytes)
    requires dev.Valid() && dev.disk.Works() && dev.disk.bs > 0 && Rem(f.pos, dev.disk.bs) == 0
    requires f.pos + Size(n0, dev.disk.bs) <= Size(dev.nblocks, dev.disk.bs)
    modifies f, dev.disk`fault
    ensures dev.disk.Works()
    ensures rc <= 0 && (rc < 0 ==> dev.disk.fault) && (old(dev.disk.fault) ==> dev.disk.fault)
    ensures rc == 0 ==> |out| == Size(n0, dev.disk.bs) && Rem(f.pos, dev.disk.bs) == 0 && dev.disk.fault == old(dev.disk.fault)
    ensures |out| <= Size(n0, dev.disk.bs) && f.pos == old(f.pos) + |out| <= |dev.Content()|
    ensures out == dev.Content()[old(f.pos)..f.pos]
  {
    hide Quot, Rem, Size, BlockDev.Valid, BlockDev.Content;
    var bs := dev.disk.bs;
    var lba, n := Quot(f.pos, bs), n0;
    SizeNext(0, bs);
    ghost var pos0, content := f.pos, dev.Content();
    rc, out := 0, [];
    while n > 0
      invariant 0 <= n && |out| + Size(n, bs) == Size(n0, bs)
      invariant f.pos == pos0 + |out| && Size(lba, bs) == f.pos
      invariant out == content[pos0..f.pos]
      invariant dev.disk.Works() && dev.disk.fault == old(dev.disk.fault) && rc == 0
    {
      var cur := if n > 128 then 128 else n;
      SizeAdd(cur, n - cur, bs);
      SizeAdd(lba, cur, bs);
      SizeCancel(lba + cur, dev.nblocks, bs);
      var data;
      rc, data := dev.ReadBlocks(lba, cur);
      if rc != 0 {
        return;
      }
      SliceAdjacent(content, pos0, f.pos, f.pos + Size(cur, bs));
      out := out + data;
      lba := lba + cur;
      f.pos := f.pos + Size(cur, bs);
      n := n - cur;
    }
    QuotUnique(lba, 0, bs);
  }

  /** Middle and tail of a read that starts on a block boundary. */
  method ReadAligned(dev: BlockDev, f: OpenFile, len: nat) returns (rc: int, out: Bytes)
    requires dev.Valid() && dev.disk.Works() && dev.disk.bs > 0 && Rem(f.pos, dev.disk.bs) == 0
    requires f.pos + len <= Size(dev.nblocks, dev.disk.bs) && Quot(len, dev.disk.bs) < U32
    modifies f, dev.disk`fault
    ensures dev.disk.Works()
    ensures rc <= 0 && (rc < 0 ==> dev.disk.fault) && (old(dev.disk.fault) ==> dev.disk.fault)
    ensures rc == 0 ==> |out| == len
    ensures |out| <= len && f.pos == old(f.pos) + |out| <= |dev.Content()|
    ensures out == dev.Content()[old(f.pos)..f.pos]
  {
    hide Quot, Rem, Size, BlockDev.Valid, BlockDev.Content;
    var bs := dev.disk.bs;
    ghost var content, pos0 := dev.Content(), f.pos;
    rc, out := 0, [];
    if len >= bs {
      var n := Quot(len, bs) % U32;
      rc, out := ReadRuns(dev, f, n);
      if rc != 0 || |out| == len {
        return;
      }
    }
    if len > |out| {
      var data;
      rc, data := ReadPartial(dev, f, len - |out|);
      if rc == 0 {
        SliceAdjacent(content, pos0, pos0 + |out|, f.pos);
        out := out + data;
      }
    }
  }

  /** devfs_block_read: out is what lands in the caller's buffer. */
  method BlockRead(dev: BlockDev, f: OpenFile, len0: nat) returns (ret: int, out: Bytes)
    requires dev.Valid() && dev.disk.Works() && Transferable(dev, len0)
    modifies f, dev.disk`fault
    ensures dev.disk.Works()
    ensures ret <= 0 ==> f.pos == old(f.pos) && out == []
    ensures ret > 0 ==> f.pos == old(f.pos) + ret && ret <= Movable(|dev.Content()|, old(f.pos), len0)
    ensures ret > 0 ==> out == dev.Content()[old(f.pos)..old(f.pos) + ret]
    ensures !dev.disk.fault && dev.disk.bs > 0 ==> ret == Movable(|dev.Content()|, old(f.pos), len0)
    ensures dev.disk.bs == 0 ==> ret == VFS_ERR_INVAL
  {
    hide Quot, Rem, Size, BlockDev.Valid, BlockDev.Content;
    var bs := dev.disk.bs;
    var size := Size(dev.nblocks, bs);
    var len := len0;
    ghost var content, pos0 := dev.Content(), f.pos;
    out := [];
    if bs == 0 {
      return VFS_ERR_INVAL, [];
    }
    if len == 0 || f.pos >= size {
      return 0, [];
    }
    if len > size - f.pos {
      len := size - f.pos;
    }
    var rc := 0;
    if Rem(f.pos, bs) != 0 {
      var chunk := if bs - Rem(f.pos, bs) > len then len else bs - Rem(f.pos, bs);
      rc, out := ReadPartial(dev, f, chunk);
      if rc != 0 {
        return rc, [];
      }
      len := len - chunk;
      if len == 0 {
        return |out|, out;
      }
      SizeNext(Quot(pos0, bs), bs);
      QuotUnique(Quot(pos0, bs) + 1, 0, bs);
    }
    QuotMono(len, len0, bs);
    var data;
    rc, data := ReadAligned(dev, f, len);
    SliceAdjacent(content, pos0, pos0 + |out|, f.pos);
    out := out + data;
    ret := if rc != 0 && |out| == 0 then rc else |out|;
  }

  /** Head and tail of a write: read one block, patch it, write it back. */
  method WritePartial(dev: BlockDev, f: OpenFile, data: Bytes) returns (rc: int)
    requires dev.Valid() && dev.disk.Works() && dev.writable && dev.disk.bs > 0 && Rem(f.pos, dev.disk.bs) + |data| <= dev.disk.bs
    requires f.pos < Size(dev.nblocks, dev.disk.bs)
    modifies f, dev.disk
    ensures dev.Valid() && dev.disk.Works() && dev.Outside() == old(dev.Outside()) && (old(dev.disk.fault) ==> dev.disk.fault)
    ensures rc <= 0 && (rc < 0 ==> (dev.disk.fault || !dev.disk.writes) && f.pos == old(f.pos) && dev.Content() == old(dev.Content()))
    ensures rc == 0 ==> f.pos == old(f.pos) + |data| <= |dev.Content()| && dev.disk.fault == old(dev.disk.fault)
    ensures rc == 0 ==> dev.Content() == Splice(old(dev.Content()), old(f.pos), data)
  {
    hide Quot, Rem, Size, Splice, BlockDev.Valid, BlockDev.Content, BlockDev.Outside;
    var bs := dev.disk.bs;
    var lba, off := Quot(f.pos, bs), Rem(f.pos, bs);
    QuotBelow(f.pos, bs, dev.nblocks);
    SizeNext(0, bs);
    var ok := dev.Scratch();
    if !ok {
      return VFS_ERR_NOMEM;
    }
    var tmp;
    rc, tmp := dev.ReadBlocks(lba, 1);
    if rc != 0 {
      return;
    }
    SpliceWithin(dev.Content(), Size(lba, bs), bs, off, data);
    tmp := Splice(tmp, off, data);
    rc := dev.WriteBlocks(lba, 1, tmp);
    if rc == 0 {
      f.pos := f.pos + |data|;
    }
  }

  /** Middle of a write: n whole blocks in runs of at most 128, stopping at the first error. */
  method WriteRuns(dev: BlockDev, f: OpenFile, data: Bytes, n0: nat) returns (rc: int, done: nat)
    requires dev.Valid() && dev.disk.Works() && dev.writable && dev.disk.bs > 0 && Rem(f.pos, dev.disk.bs) == 0
    requires Size(n0, dev.disk.bs) <= |data| && f.pos + Size(n0, dev.disk.bs) <= Size(dev.nblocks, dev.disk.bs)
    modifies f, dev.disk
    ensures dev.Valid() && dev.disk.Works() && dev.Outside() == old(dev.Outside()) && (old(dev.disk.fault) ==> dev.disk.fault)
    ensures rc <= 0 && (rc < 0 ==> (dev.disk.fault || !dev.disk.writes))
    ensures rc == 0 ==> done == Size(n0, dev.disk.bs) && Rem(f.pos, dev.disk.bs) == 0 && dev.disk.fault == old(dev.disk.fault)
    ensures done <= Size(n0, dev.disk.bs) && f.pos == old(f.pos) + done <= |old(dev.Content())|
    ensures dev.Content() == Splice(old(dev.Content()), old(f.pos), data[..done])
  {
    hide Quot, Rem, Size, Splice, BlockDev.Valid, BlockDev.Content, BlockDev.Outside;
    var bs := dev.disk.bs;
    var lba, n := Quot(f.pos, bs), n0;
    ghost var pos0, content := f.pos, dev.Content();
    SizeNext(0, bs);
    SpliceMore(content, pos0, data, 0, 0);
    assert data[..0] == [];
    rc, done := 0, 0;
    while n > 0
      invariant 0 <= n && done + Size(n, bs) == Size(n0, bs) && rc == 0
      invariant f.pos == pos0 + done && Size(lba, bs) == f.pos
      invariant dev.Valid() && dev.disk.Works() && dev.Outside() == old(dev.Outside()) && dev.disk.fault == old(dev.disk.fault)
      invariant dev.Content() == Splice(content, pos0, data[..done])
    {
      var cur := if n > 128 then 128 else n;
      SizeAdd(cur, n - cur, bs);
      SizeAdd(lba, cur, bs);
      SizeCancel(lba + cur, dev.nblocks, bs);
      var run := data[done..done + Size(cur, bs)];
      rc := dev.WriteBlocks(lba, cur, run);
      if rc != 0 {
        return;
      }
      SpliceMore(content, pos0, data, done, done + |run|);
      lba := lba + cur;
      f.pos := f.pos + Size(cur, bs);
      done := done + Size(cur, bs);
      n := n - cur;
    }
    QuotUnique(lba, 0, bs);
  }

  /** Middle and tail of a write that starts on a block boundary. */
  method WriteAligned(dev: BlockDev, f: OpenFile, data: Bytes) returns (rc: int, done: nat)
    requires dev.Valid() && dev.disk.Works() && dev.writable && dev.disk.bs > 0 && Rem(f.pos, dev.disk.bs) == 0
    requires f.pos + |data| <= Size(dev.nblocks, dev.disk.bs) && Quot(|data|, dev.disk.bs) < U32
    modifies f, dev.disk
    ensures dev.Valid() && dev.disk.Works() && dev.Outside() == old(dev.Outside()) && (old(dev.disk.fault) ==> dev.disk.fault)
    ensures rc <= 0 && (rc < 0 ==> (dev.disk.fault || !dev.disk.writes))
    ensures rc == 0 ==> done == |data|
    ensures done <= |data| && f.pos == old(f.pos) + done <= |old(dev.Content())|
    ensures dev.Content() == Splice(old(dev.Content()), old(f.pos), data[..done])
  {
    hide Quot, Rem, Size, Splice, BlockDev.Valid, BlockDev.Content, BlockDev.Outside;
    var bs := dev.disk.bs;
    ghost var content, pos0 := dev.Content(), f.pos;
    rc, done := 0, 0;
    SpliceMore(content, pos0, data, 0, 0);
    assert data[..0] == [];
    if |data| >= bs {
      rc, done := WriteRuns(dev, f, data, Quot(|data|, bs) % U32);
      if rc != 0 || done == |data| {
        return;
      }
    }
    if |data| > done {
      rc := WritePartial(dev, f, data[done..|data|]);
      if rc == 0 {
        SpliceMore(content, pos0, data, done, |data|);
        done := |data|;
      }
    }
  }

  /** devfs_block_write. */
  method BlockWrite(dev: BlockDev, f: OpenFile, buf: Bytes) returns (ret: int)
    requires dev.Valid() && dev.disk.Works() && Transferable(dev, |buf|)
    modifies f, dev.disk
    ensures dev.Valid() && dev.disk.Works() && dev.Outside() == old(dev.Outside())
    ensures ret <= 0 ==> f.pos == old(f.pos) && dev.Content() == old(dev.Content())
    ensures ret > 0 ==> f.pos == old(f.pos) + ret && ret <= Movable(|old(dev.Content())|, old(f.pos), |buf|)
    ensures ret > 0 ==> dev.Content() == Splice(old(dev.Content()), old(f.pos), buf[..ret])
    ensures !dev.disk.fault && dev.writable && dev.disk.writes && dev.disk.bs > 0 && old(f.pos) < |old(dev.Content())| ==>
              ret == Movable(|old(dev.Content())|, old(f.pos), |buf|)
    ensures !dev.writable ==> ret == VFS_ERR_NOTSUP
    ensures dev.writable && dev.disk.bs == 0 ==> ret == VFS_ERR_INVAL
    ensures dev.writable && dev.disk.bs > 0 && buf == [] ==> ret == 0
    ensures dev.writable && dev.disk.bs > 0 && buf != [] && old(f.pos) >= |old(dev.Content())| ==> ret == VFS_ERR_NOSPC
  {
    hide Quot, Rem, Size, BlockDev.Valid, BlockDev.Content, BlockDev.Outside;
    var bs := dev.disk.bs;
    var size := Size(dev.nblocks, bs);
    ghost var content, pos0 := dev.Content(), f.pos;
    if !dev.writable {
      return VFS_ERR_NOTSUP;
    }
    if bs == 0 {
      return VFS_ERR_INVAL;
    }
    if |buf| == 0 {
      return 0;
    }
    if f.pos >= size {
      return VFS_ERR_NOSPC;
    }
    var data := if |buf| > size - f.pos then buf[..size - f.pos] else buf;
    QuotMono(|data|, |buf|, bs);
    var rc, done := 0, 0;
    if Rem(f.pos, bs) != 0 {
      var chunk := if bs - Rem(f.pos, bs) > |data| then |data| else bs - Rem(f.pos, bs);
      rc := WritePartial(dev, f, data[..chunk]);
      if rc != 0 {
        return rc;
      }
      done := chunk;
      assert data[..done] == buf[..done];
      if done == |data| {
        return done;
      }
      SizeNext(Quot(pos0, bs), bs);
      QuotUnique(Quot(pos0, bs) + 1, 0, bs);
      QuotMono(|data[done..]|, |data|, bs);
    }
    ret := WriteRest(dev, f, data, done, content, pos0);
    assert ret > 0 ==> data[..ret] == buf[..ret];
  }

  /** The part of devfs_block_write after its head: done bytes of data are on the device already. */
  method WriteRest(dev: BlockDev, f: OpenFile, data: Bytes, done0: nat, ghost content: Bytes, ghost pos0: nat) returns (ret: int)
    requires dev.Valid() && dev.disk.Works() && dev.writable && dev.disk.bs > 0 && done0 < |data| && Rem(f.pos, dev.disk.bs) == 0
    requires |content| == |dev.Content()| && pos0 + |data| <= |content| && f.pos == pos0 + done0
    requires dev.Content() == Splice(content, pos0, data[..done0]) && Quot(|data| - done0, dev.disk.bs) < U32
    modifies f, dev.disk
    ensures dev.Valid() && dev.disk.Works() && dev.Outside() == old(dev.Outside()) && (old(dev.disk.fault) ==> dev.disk.fault)
    ensures ret <= 0 ==> done0 == 0 && (dev.disk.fault || !dev.disk.writes) && f.pos == pos0 && dev.Content() == content
    ensures ret > 0 ==> ret <= |data| && f.pos == pos0 + ret && dev.Content() == Splice(content, pos0, data[..ret])
    ensures !dev.disk.fault && dev.disk.writes ==> ret == |data|
  {
    hide Quot, Rem, Size, Splice, BlockDev.Valid, BlockDev.Content, BlockDev.Outside, Disk.Works;
    SpliceMore(content, pos0, data, 0, 0);
    var rest := data[done0..];
    var rc, more := WriteAligned(dev, f, rest);
    SpliceAdjacent(content, pos0, data[..done0], rest[..more]);
    assert data[..done0] + rest[..more] == data[..done0 + more];
    var done := done0 + more;
    ret := if rc != 0 && done == 0 then rc else done;
  }
}
