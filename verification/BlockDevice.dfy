/**
 A block device of src/inc/vdev.h and the partition devices of
 src/kernel/part/part.c: part [start, start + nblocks) of a disk. A whole disk
 is the part that starts at 0 and covers every block.
 */
module BlockDevice {
  import opened Errors
  import opened FlatBytes

  /** Cuts bytes into blocks of bs bytes; the last partial block is dropped. */
  ghost function Chunks(data: Bytes, bs: nat): (r: seq<Bytes>)
    requires bs > 0
  {
    if |data| < bs then [] else [data[..bs]] + Chunks(data[bs..], bs)
  }

  lemma {:induction false} ChunksInverse(data: Bytes, bs: nat, n: nat)
    requires bs > 0 && |data| == Size(n, bs)
    ensures Uniform(Chunks(data, bs), bs) && |Chunks(data, bs)| == n
    ensures Flat(Chunks(data, bs)) == data
  {
    if n > 0 {
      ChunksInverse(data[bs..], bs, n - 1);
      assert Chunks(data, bs)[1..] == Chunks(data[bs..], bs);
    }
  }

  class Disk {
    const bs: nat
    // Whether the driver has write_blocks at all.
    const writes: bool
    // Whether no transfer and no allocation ever fails.
    const sound: bool
    var blocks: seq<Bytes>
    // Set for good as soon as a transfer or an allocation fails.
    var fault: bool

    constructor (bs: nat, writes: bool, sound: bool, blocks: seq<Bytes>)
      requires Uniform(blocks, bs)
      ensures Valid() && Works() && this.bs == bs && this.writes == writes && this.sound == sound && this.blocks == blocks && !fault
    {
      this.bs, this.writes, this.sound := bs, writes, sound;
      this.blocks := blocks;
      fault := false;
    }

    ghost predicate Valid()
      reads this`blocks
    {
      Uniform(blocks, bs)
    }

    /** A sound device has no fault. */
    ghost predicate Works()
      reads this`fault
    {
      sound ==> !fault
    }

    /** The driver's read_blocks: moves all the blocks or reports an error. */
    method Read(lba: nat, count: nat) returns (rc: int, data: Bytes)
      requires Valid() && Works() && bs > 0
      modifies this`fault
      ensures Works() && rc <= 0 && (rc < 0 ==> fault || lba + count > |blocks|) && (old(fault) ==> fault)
      ensures lba + count > |blocks| ==> rc < 0
      ensures rc == 0 ==> lba + count <= |blocks| && data == Flat(blocks[lba..lba + count]) && fault == old(fault)
    {
      data := [];
      var error := *;
      if error && !sound {
        fault := true;
        rc := VFS_ERR_IO;
      } else if lba + count > |blocks| {
        rc := VFS_ERR_INVAL;
      } else {
        rc := 0;
        var i := lba;
        while i < lba + count
          invariant lba <= i <= lba + count
          invariant data == Flat(blocks[lba..i]) && fault == old(fault)
        {
          FlatConcat(blocks[lba..i], [blocks[i]]);
          assert blocks[lba..i + 1] == blocks[lba..i] + [blocks[i]];
          assert Flat([blocks[i]]) == blocks[i];
          data := data + blocks[i];
          i := i + 1;
        }
      }
    }

    /** The driver's write_blocks: a failing call changes nothing. */
    method Write(lba: nat, count: nat, data: Bytes) returns (rc: int)
      requires Valid() && Works() && bs > 0 && |data| == Size(count, bs)
      modifies this
      ensures Valid() && Works()
      ensures rc <= 0 && (rc < 0 ==> (fault || lba + count > |blocks|) && blocks == old(blocks)) && (old(fault) ==> fault)
      ensures rc == 0 ==> lba + count <= |old(blocks)| && fault == old(fault)
      ensures rc == 0 ==> blocks == old(blocks)[..lba] + Chunks(data, bs) + old(blocks)[lba + count..]
      ensures rc == 0 ==> |Chunks(data, bs)| == count
    {
      ChunksInverse(data, bs, count);
      var error := *;
      if error && !sound {
        fault := true;
        rc := VFS_ERR_IO;
      } else if lba + count > |blocks| {
        rc := VFS_ERR_INVAL;
      } else {
        rc := 0;
        var old' := blocks;
        var i := 0;
        while i < count
          invariant 0 <= i <= count && Uniform(blocks, bs) && fault == old(fault)
          invariant blocks == old'[..lba] + Chunks(data, bs)[..i] + old'[lba + i..]
        {
          SizeMono(i, count, bs);
          FlatBlock(Chunks(data, bs), bs, i);
          blocks := blocks[lba + i := data[Size(i, bs)..Size(i, bs) + bs]];
          i := i + 1;
        }
      }
    }
  }

  /** Replacing blocks inside a part splices the part's bytes and touches nothing else. */
  lemma PartReplaced(blocks: seq<Bytes>, start: nat, n: nat, lba: nat, repl: seq<Bytes>, bs: nat)
    requires Uniform(blocks, bs) && Uniform(repl, bs)
    requires start + n <= |blocks| && lba + |repl| <= n
    ensures Size(lba, bs) + Size(|repl|, bs) <= |Flat(blocks[start..start + n])| && |Flat(repl)| == Size(|repl|, bs)
    ensures var after := blocks[..start + lba] + repl + blocks[start + lba + |repl|..];
            && |after| == |blocks| && Uniform(after, bs)
            && after[..start] == blocks[..start] && after[start + n..] == blocks[start + n..]
            && Flat(after[start..start + n]) == Splice(Flat(blocks[start..start + n]), Size(lba, bs), Flat(repl))
  {
    var was := blocks[start..start + n];
    var after := blocks[..start + lba] + repl + blocks[start + lba + |repl|..];
    FlatReplace(was, bs, lba, repl);
    assert after[start..start + n] == was[..lba] + repl + was[lba + |repl|..];
  }

  class BlockDev {
    const disk: Disk
    const start: nat
    const nblocks: nat
    // Whether the device itself has write_blocks: true for every partition.
    const writable: bool

    constructor (disk: Disk, start: nat, nblocks: nat, writable: bool)
      requires disk.Valid() && start + nblocks <= |disk.blocks|
      ensures this.disk == disk && this.start == start && this.nblocks == nblocks
      ensures this.writable == writable && Valid()
    {
      this.disk, this.start, this.nblocks, this.writable := disk, start, nblocks, writable;
    }

    ghost predicate Valid()
      reads disk`blocks
    {
      disk.Valid() && start + nblocks <= |disk.blocks|
    }

    /** The bytes a user of the device sees. */
    ghost function Content(): (r: Bytes)
      reads disk`blocks
      requires Valid()
      ensures |r| == Size(nblocks, disk.bs)
    {
      FlatLength(disk.blocks[start..start + nblocks], disk.bs);
      Flat(disk.blocks[start..start + nblocks])
    }

    /** The blocks of the disk below and above the device. */
    ghost function Outside(): (seq<Bytes>, seq<Bytes>)
      reads disk`blocks
      requires Valid()
    {
      (disk.blocks[..start], disk.blocks[start + nblocks..])
    }

    /** A scratch buffer from kmalloc; failure is recorded as a fault. */
    method Scratch() returns (ok: bool)
      requires disk.Works()
      modifies disk`fault
      ensures disk.Works() && (!ok ==> disk.fault) && (ok ==> disk.fault == old(disk.fault))
    {
      ok := *;
      ok := ok || disk.sound;
      if !ok {
        disk.fault := true;
      }
    }

    method ReadBlocks(lba: nat, count: nat) returns (rc: int, data: Bytes)
      requires Valid() && disk.Works() && disk.bs > 0
      modifies disk`fault
      ensures disk.Works() && (old(disk.fault) ==> disk.fault)
      ensures rc == 0 ==> 0 < count && lba + count <= nblocks && disk.fault == old(disk.fault)
      ensures rc <= 0 && (rc < 0 && 0 < count && lba + count <= nblocks ==> disk.fault)
      ensures rc == 0 ==> data == Flat(disk.blocks[start + lba..start + lba + count])
      ensures rc == 0 ==> Size(lba, disk.bs) + Size(count, disk.bs) <= |Content()|
      ensures rc == 0 ==> data == Content()[Size(lba, disk.bs)..Size(lba, disk.bs) + Size(count, disk.bs)] && |data| == Size(count, disk.bs)
    {
      data := [];
      if count == 0 {
        return VFS_ERR_INVAL, [];
      }
      if lba >= nblocks || count > nblocks - lba {
        return VFS_ERR_INVAL, [];
      }
      rc, data := disk.Read(start + lba, count);
      if rc == 0 {
        var mine := disk.blocks[start..start + nblocks];
        FlatSlice(mine, disk.bs, lba, count);
        SliceOfSlice(disk.blocks, start, nblocks, lba, count);
      }
    }

    method WriteBlocks(lba: nat, count: nat, data: Bytes) returns (rc: int)
      requires Valid() && disk.Works() && disk.bs > 0 && |data| == Size(count, disk.bs)
      modifies disk
      ensures Valid() && disk.Works() && Outside() == old(Outside())
      ensures |disk.blocks| == |old(disk.blocks)|
      ensures forall i: nat :: i < |disk.blocks| && (rc < 0 || i < start + lba || start + lba + count <= i) ==>
                disk.blocks[i] == old(disk.blocks)[i]
      ensures rc <= 0 && (rc < 0 ==> Content() == old(Content())) && (old(disk.fault) ==> disk.fault)
      ensures rc < 0 && disk.writes && 0 < count && lba + count <= nblocks ==> disk.fault
      ensures rc == 0 ==> disk.writes && 0 < count && lba + count <= nblocks && disk.fault == old(disk.fault)
      ensures rc == 0 ==> Flat(disk.blocks[start + lba..start + lba + count]) == data
      ensures rc == 0 ==> Size(lba, disk.bs) + |data| <= |old(Content())|
      ensures rc == 0 ==> Content() == Splice(old(Content()), Size(lba, disk.bs), data)
    {
      if count == 0 {
        return VFS_ERR_INVAL;
      }
      if !disk.writes {
        return VFS_ERR_NOTSUP;
      }
      if lba >= nblocks || count > nblocks - lba {
        return VFS_ERR_INVAL;
      }
      rc := disk.Write(start + lba, count, data);
      if rc == 0 {
        ChunksInverse(data, disk.bs, count);
        PartReplaced(old(disk.blocks), start, nblocks, lba, Chunks(data, disk.bs), disk.bs);
        assert disk.blocks[start + lba..start + lba + count] == Chunks(data, disk.bs);
      }
    }
  }
}
