/**
 Reading an ext4 file: the extent walk over its one scratch block, and reads as a
 byte sequence (src/kernel/fs/ext4.c:78-87, 146-223, 631-691).
 */
module Ext4 {
  import opened Errors
  import opened FlatBytes
  import opened LittleEndian
  import opened Ext4Tree
  import opened Ext4Exact

  function Rd16(a: array<Byte>, at: nat): (v: nat)
    requires at + 2 <= a.Length
    reads a
    ensures v == Get16(a[..], at)
  {
    a[at] as nat + 0x100 * a[at + 1] as nat
  }

  function Rd32(a: array<Byte>, at: nat): (v: nat)
    requires at + 4 <= a.Length
    reads a
    ensures v == Get32(a[..], at)
  {
    a[at] as nat + 0x100 * a[at + 1] as nat + 0x1_0000 * a[at + 2] as nat + 0x100_0000 * a[at + 3] as nat
  }

  lemma Prefix16(s: Bytes, n: nat, at: nat)
    requires at + 2 <= n <= |s|
    ensures Get16(s[..n], at) == Get16(s, at)
  {
  }

  lemma Prefix32(s: Bytes, n: nat, at: nat)
    requires at + 4 <= n <= |s|
    ensures Get32(s[..n], at) == Get32(s, at)
  {
  }

  /** A mounted volume, which is only read. */
  class Volume {
    const bs: nat
    const disk: Disk
    // Whether no read and no allocation ever fails.
    const sound: bool
    var failed: bool

    /** A sound device has not failed. */
    ghost predicate Works()
      reads this`failed
    {
      sound ==> !failed
    }

    ghost predicate Valid() {
      HEAD <= bs && forall i :: 0 <= i < |disk| ==> |disk[i]| == bs
    }

    /** ext4_read_fs_blocks for one block: past the device or on an I/O error the buffer is not to be used. */
    method ReadBlock(blk: nat, buf: array<Byte>) returns (rc: int)
      requires Valid() && Works() && buf.Length == bs
      modifies buf, this`failed
      ensures Works()
      ensures rc == 0 || rc == VFS_ERR_IO
      ensures rc == 0 ==> blk < |disk| && buf[..] == disk[blk]
      ensures rc != 0 ==> failed || blk >= |disk|
      ensures old(failed) ==> failed
    {
      var error := *;
      if error && !sound {
        failed := true;
        return VFS_ERR_IO;
      }
      if blk >= |disk| {
        return VFS_ERR_IO;
      }
      forall i | 0 <= i < bs {
        buf[i] := disk[blk][i];
      }
      rc := 0;
    }
  }

  /** The leaf loop of ext4_map_walk. */
  method SearchLeaf(node: array<Byte>, nodeLen: nat, n: nat, lb: nat) returns (rc: int, phys: nat, uninit: bool)
    requires nodeLen <= node.Length && forall k: nat :: k < n ==> Has(node[..nodeLen], k)
    ensures rc == VFS_OK || rc == VFS_ERR_NOENT
    ensures Search(node[..nodeLen], n, 0, lb) == if rc == VFS_OK then Mapped(phys, uninit) else Hole
  {
    hide Search, Get16, Get32;
    ghost var s := node[..nodeLen];
    phys, uninit := 0, false;
    var i := 0;
    while i < n
      invariant 0 <= i <= n && Search(s, n, 0, lb) == Search(s, n, i, lb)
    {
      assert Has(s, i);
      Prefix32(node[..], nodeLen, Off(i));
      Prefix32(node[..], nodeLen, Off(i) + 8);
      Prefix16(node[..], nodeLen, Off(i) + 4);
      Prefix16(node[..], nodeLen, Off(i) + 6);
      assert node[..][..nodeLen] == s;
      var b := Rd32(node, Off(i));
      var len := Rd16(node, Off(i) + 4);
      var span := len % UNINIT;
      var start := Rd32(node, Off(i) + 8) + Rd16(node, Off(i) + 6) * 0x1_0000_0000;
      SearchStep(s, n, i, lb);
      if span != 0 && lb >= b && lb < (b + span) % U32 {
        return VFS_OK, start + (lb - b), len >= UNINIT;
      }
      i := i + 1;
    }
    SearchEnd(s, n, lb);
    rc := VFS_ERR_NOENT;
  }

  /** The index loop of ext4_map_walk: one past the entry to follow. */
  method FindIndex(node: array<Byte>, nodeLen: nat, n: nat, lb: nat) returns (best: nat)
    requires nodeLen <= node.Length && forall k: nat :: k < n ==> Has(node[..nodeLen], k)
    ensures best == Reach(node[..nodeLen], n, 0, lb)
  {
    hide Get16, Get32;
    ghost var s := node[..nodeLen];
    best := 0;
    var i := 0;
    while i < n
      invariant 0 <= i <= n && best == i && Reach(s, n, 0, lb) == Reach(s, n, i, lb)
    {
      assert Has(s, i);
      Prefix32(node[..], nodeLen, Off(i));
      assert node[..][..nodeLen] == s;
      if Rd32(node, Off(i)) <= lb {
        best := i + 1;
      } else {
        break;
      }
      i := i + 1;
    }
  }

  /** The header fields of a node as the code reads them. */
  lemma HeaderIs(s: Bytes, n: nat)
    requires HEAD <= n <= |s|
    ensures Get16(s, 0) == Get16(s[..n], 0) && Get16(s, 2) == Get16(s[..n], 2)
    ensures Get16(s, 4) == Get16(s[..n], 4) && Get16(s, 6) == Get16(s[..n], 6)
  {
    Prefix16(s, n, 0);
    Prefix16(s, n, 2);
    Prefix16(s, n, 4);
    Prefix16(s, n, 6);
  }

  /** ext4_map_walk; the node may be the scratch block that the next level overwrites. */
  method MapWalk(v: Volume, node: array<Byte>, nodeLen: nat, lb: nat, scratch: array<Byte>, left: nat)
    returns (rc: int, phys: nat, uninit: bool)
    requires v.Valid() && v.Works() && nodeLen <= node.Length && scratch.Length == v.bs
    modifies scratch, v`failed
    ensures v.Works()
    ensures Told(rc, phys, uninit, Walk(v.disk, old(node[..nodeLen]), lb, left), v.failed)
    ensures old(v.failed) ==> v.failed
    decreases left
  {
    hide Get16, Get32, Search, Reach, Walk;
    ghost var s := node[..nodeLen];
    phys, uninit := 0, false;
    WalkHead(v.disk, s, lb, left);
    if nodeLen < HEAD {
      return VFS_ERR_INVAL, phys, uninit;
    }
    HeaderIs(node[..], nodeLen);
    assert node[..][..nodeLen] == s;
    var magic, entries, max, depth := Rd16(node, 0), Rd16(node, 2), Rd16(node, 4), Rd16(node, 6);
    if magic != EH_MAGIC {
      return VFS_ERR_INVAL, phys, uninit;
    }
    if entries > max || max * HEAD + HEAD > nodeLen {
      return VFS_ERR_INVAL, phys, uninit;
    }
    if depth == 0 {
      rc, phys, uninit := SearchLeaf(node, nodeLen, entries, lb);
      return;
    }
    if left <= 0 || depth > MAX_DEPTH {
      return VFS_ERR_INVAL, phys, uninit;
    }
    var k := FindIndex(node, nodeLen, entries, lb);
    if k == 0 {
      return VFS_ERR_NOENT, phys, uninit;
    }
    var best := Off(k - 1);
    ReachWithin(s, entries, lb);
    assert Has(s, k - 1);
    Prefix32(node[..], nodeLen, best + 4);
    Prefix16(node[..], nodeLen, best + 6);
    var child := Rd32(node, best + 4) + Rd16(node, best + 6) * 0x1_0000_0000;
    rc := v.ReadBlock(child, scratch);
    if rc != 0 {
      return;
    }
    assert scratch[..v.bs] == v.disk[child];
    rc, phys, uninit := MapWalk(v, scratch, v.bs, lb, scratch, left - 1);
  }

  lemma ReachWithin(s: Bytes, n: nat, lb: nat)
    requires forall k: nat :: k < n ==> Has(s, k)
    ensures Reach(s, n, 0, lb) <= n
  {
  }

  /** The branches of the walk. */
  lemma WalkHead(disk: Disk, s: Bytes, lb: nat, left: nat)
    ensures !HeadOk(s) ==> Walk(disk, s, lb, left) == Invalid
    ensures HeadOk(s) ==> forall k: nat :: k < Count(s) ==> Has(s, k)
    ensures HeadOk(s) && Depth(s) == 0 ==> Walk(disk, s, lb, left) == Search(s, Count(s), 0, lb)
    ensures HeadOk(s) && Depth(s) > 0 && (left == 0 || Depth(s) > MAX_DEPTH) ==> Walk(disk, s, lb, left) == Invalid
    ensures HeadOk(s) && 0 < Depth(s) <= MAX_DEPTH && left > 0 ==>
              var k := Reach(s, Count(s), 0, lb);
              Walk(disk, s, lb, left)
              == if k == 0 then Hole
                 else if ReadChild(s, k - 1) >= |disk| then IoError
                 else Walk(disk, disk[ReadChild(s, k - 1)], lb, left - 1)
  {
  }

  /** A return code and its out-parameters tell a result; after an I/O error nothing is told. */
  ghost predicate Told(rc: int, phys: nat, uninit: bool, res: Res, failed: bool) {
    && (rc == VFS_OK || rc == VFS_ERR_NOENT || rc == VFS_ERR_INVAL || rc == VFS_ERR_IO)
    && (rc == VFS_OK ==> res == Mapped(phys, uninit))
    && (rc == VFS_ERR_NOENT ==> res == Hole)
    && (rc == VFS_ERR_INVAL ==> res == Invalid)
    && (rc == VFS_ERR_IO ==> failed || res == IoError)
  }

  // ----- Files -----

  /** The extents of a file whose tree has its root in the inode. */
  ghost function Extents(disk: Disk, root: Bytes): seq<Ext>
    requires HeadOk(root)
  {
    FlatList(disk, root, Depth(root), 0)
  }

  /** Byte k of a file: zero in a hole or an unwritten extent. */
  ghost function ByteAt(disk: Disk, bs: nat, es: seq<Ext>, k: nat): Byte
    requires bs > 0
  {
    var r := Lookup(es, Quot(k, bs));
    if r.Mapped? && !r.uninit && r.phys < |disk| && Rem(k, bs) < |disk[r.phys]| then disk[r.phys][Rem(k, bs)] else 0
  }

  /** Every written extent lies on the device. */
  /**
   Byte r of block lb: that byte of the block of the device that the first extent
   holding lb says, if it is written; zero in an unwritten extent and in a hole.
   */
  lemma ByteIsThere(disk: Disk, bs: nat, es: seq<Ext>, lb: nat, r: nat)
    requires r < bs
    ensures (forall i :: 0 <= i < |es| ==> !es[i].Holds(lb)) ==> ByteAt(disk, bs, es, lb * bs + r) == 0
    ensures forall i: nat :: FirstHolds(es, i, lb) && es[i].len > 0x8000 ==> ByteAt(disk, bs, es, lb * bs + r) == 0
    ensures forall i: nat :: FirstHolds(es, i, lb) && es[i].len <= 0x8000 ==>
              var p := es[i].start + (lb - es[i].b);
              p < |disk| && r < |disk[p]| ==> ByteAt(disk, bs, es, lb * bs + r) == disk[p][r]
  {
    hide Lookup, Quot, Rem, Size;
    SizeIsProduct(lb, bs);
    QuotUnique(lb, r, bs);
    LookupIs(es, lb);
  }

  ghost predicate OnDisk(disk: Disk, es: seq<Ext>) {
    forall lb: nat :: Lookup(es, lb).Mapped? && !Lookup(es, lb).uninit ==> Lookup(es, lb).phys < |disk|
  }

  class File {
    const v: Volume
    const blk: array<Byte>
    const size: nat
    const isDir: bool
    const extents: bool
    var pos: nat

    /** ext4_open's result. */
    constructor (v: Volume, blk: array<Byte>, size: nat, isDir: bool, extents: bool)
      ensures this.v == v && this.blk == blk && this.size == size && this.isDir == isDir && this.extents == extents && pos == 0
    {
      this.v, this.blk, this.size, this.isDir, this.extents, pos := v, blk, size, isDir, extents, 0;
    }

    /** A file of at most 2^32 blocks; what its inode holds may be anything. */
    ghost predicate Valid() {
      v.Valid() && blk.Length == 60 && (size > 0 ==> Quot(size - 1, v.bs) < U32)
    }

    /** Its inode holds the root of a readable tree of its extents. */
    ghost predicate Good()
      requires Valid()
      reads blk
    {
      && HeadOk(blk[..]) && Depth(blk[..]) <= MAX_DEPTH
      && Tree(v.disk, blk[..], Depth(blk[..]), 0, U32) && Readable(v.disk, blk[..], Depth(blk[..]))
      && OnDisk(v.disk, Extents(v.disk, blk[..]))
    }

    /** What the walk gives for a block. */
    ghost function Seen(lb: nat): Res
      reads blk
    {
      Walk(v.disk, blk[..], lb, MAX_DEPTH)
    }

    /** In a good file that is what the extents say. */
    lemma SeenIs(lb: nat)
      requires Valid() && Good() && lb < U32
      ensures Seen(lb) == Lookup(Extents(v.disk, blk[..]), lb)
    {
      hide Tree, Readable, FlatList, Walk, HeadOk, OnDisk, Lookup;
      WalkIsLookup(v.disk, blk[..], Depth(blk[..]), 0, U32, lb, MAX_DEPTH);
    }

    /** ext4_map. */
    method Map(lb: nat, scratch: array<Byte>) returns (rc: int, phys: nat, uninit: bool)
      requires Valid() && v.Works() && scratch.Length == v.bs && scratch != blk && lb < U32
      modifies scratch, v`failed
      ensures Valid() && v.Works() && (old(v.failed) ==> v.failed)
      ensures !extents ==> rc == VFS_ERR_NOTSUP
      ensures extents ==> Told(rc, phys, uninit, Seen(lb), v.failed)
      ensures extents && Good() ==> Told(rc, phys, uninit, Lookup(Extents(v.disk, blk[..]), lb), v.failed)
    {
      hide Tree, Readable, FlatList, Walk, HeadOk, OnDisk, Lookup, Good;
      phys, uninit := 0, false;
      if !extents {
        return VFS_ERR_NOTSUP, phys, uninit;
      }
      ghost var root := blk[..];
      if Good() {
        SeenIs(lb);
      }
      assert blk[..60] == root;
      rc, phys, uninit := MapWalk(v, blk, 60, lb, scratch, MAX_DEPTH);
      assert blk[..] == root;
    }

    /** Byte k of the file as the walk sees it. */
    ghost function ByteOf(k: nat): Byte
      requires Valid()
      reads blk
    {
      InBlock(Quot(k, v.bs), Rem(k, v.bs))
    }

    /** Byte k of a good file by its extents. */
    ghost function TrueByte(k: nat): Byte
      requires Valid() && Good()
      reads blk
    {
      ByteAt(v.disk, v.bs, Extents(v.disk, blk[..]), k)
    }

    lemma ByteIs(k: nat)
      requires Valid() && Good() && k < size
      ensures ByteOf(k) == TrueByte(k)
    {
      hide Tree, Readable, FlatList, Walk, HeadOk, OnDisk, Lookup, Quot, Rem, Good;
      QuotMono(k, size - 1, v.bs);
      SeenIs(Quot(k, v.bs));
    }

    /** n bytes of the file from k on. */
    ghost function Slice(k: nat, n: nat): (s: Bytes)
      requires Valid()
      reads blk
      ensures |s| == n && forall i: nat :: i < n ==> s[i] == ByteOf(k + i)
    {
      seq<Byte>(n, i requires 0 <= i && Valid() reads blk => ByteOf(k + i))
    }

    /** Bytes that agree with the file one by one. */
    lemma SliceIs(part: Bytes, lb: nat, inner: nat)
      requires Valid() && pos == Size(lb, v.bs) + inner && inner + |part| <= v.bs
      requires forall i: nat :: i < |part| ==> part[i] == InBlock(lb, inner + i)
      ensures part == Slice(pos, |part|)
    {
      hide Walk, Quot, Rem;
      forall i: nat | i < |part|
        ensures part[i] == Slice(pos, |part|)[i]
      {
        QuotUnique(lb, inner + i, v.bs);
      }
    }

    /** Byte r of logical block lb. */
    ghost function InBlock(lb: nat, r: nat): Byte
      requires Valid()
      reads blk
    {
      var m := Seen(lb);
      if m.Mapped? && !m.uninit && m.phys < |v.disk| && r < |v.disk[m.phys]| then v.disk[m.phys][r] else 0
    }

    /** The walk finds no block of the device for block lb of the file, nor a hole. */
    ghost predicate Stuck(lb: nat)
      reads blk
    {
      var m := Seen(lb);
      !extents || m.Invalid? || m.IoError? || (m.Mapped? && !m.uninit && m.phys >= |v.disk|)
    }

    /** One round of ext4_read's loop: some bytes at the position. */
    method ReadChunk(len: nat, scratch: array<Byte>) returns (rc: int, part: Bytes)
      requires Valid() && v.Works() && scratch.Length == v.bs && scratch != blk && 0 < len && pos + len <= size
      modifies scratch, v`failed
      ensures Valid() && v.Works() && (old(v.failed) ==> v.failed)
      ensures rc == VFS_OK ==> 0 < |part| <= len && part == Slice(pos, |part|)
      ensures rc != VFS_OK ==> v.failed || Stuck(Quot(pos, v.bs))
      ensures rc != VFS_OK && extents && Good() ==> v.failed
    {
      hide Tree, Readable, FlatList, Walk, HeadOk, Lookup, Quot, Rem, OnDisk, Good;
      ghost var root := blk[..];
      QuotMono(pos, size - 1, v.bs);
      var lb, inner := Quot(pos, v.bs) % U32, Rem(pos, v.bs);
      var chunk := v.bs - inner;
      if chunk > len {
        chunk := len;
      }
      part := [];
      var phys, uninit;
      rc, phys, uninit := Map(lb, scratch);
      assert blk[..] == root;
      if rc == VFS_ERR_NOENT || (rc == VFS_OK && uninit) {
        part := seq(chunk, _ => 0);
        rc := VFS_OK;
        SliceIs(part, lb, inner);

      } else if rc == VFS_OK {
        rc := v.ReadBlock(phys, scratch);
        if Good() {
          GoodBlock(lb);
        }
        if rc != 0 {
          return;
        }
        part := scratch[inner..inner + chunk];
        SliceIs(part, lb, inner);
      } else {
        if extents && Good() {
          GoodTells(lb);
        }
      }
    }

    lemma GoodTells(lb: nat)
      requires Valid() && Good() && lb < U32
      ensures Seen(lb).Mapped? || Seen(lb) == Hole
    {
      hide Tree, Readable, FlatList, Walk;
      SeenIs(lb);
      LookupTells(Extents(v.disk, blk[..]), lb);
    }

    lemma GoodBlock(lb: nat)
      requires Valid() && Good() && lb < U32 && Seen(lb).Mapped? && !Seen(lb).uninit
      ensures Seen(lb).phys < |v.disk|
    {
      hide Tree, Readable, FlatList, Walk, HeadOk, Lookup;
      SeenIs(lb);
    }

    lemma SliceMore(k: nat, n: nat, m: nat)
      requires Valid()
      ensures Slice(k, n) + Slice(k + n, m) == Slice(k, n + m)
    {
    }

    /**
     ext4_read: the bytes at the position, zeros for holes and unwritten extents, as the
     walk sees them; of a good file as many as there are, and as its extents say; if the
     device fails or the tree does, what was read before.
     */
    method Read(len0: nat) returns (rc: int, out: Bytes)
      requires Valid() && v.Works()
      modifies this`pos, v`failed
      ensures Valid() && v.Works() && (old(v.failed) ==> v.failed)
      ensures isDir ==> rc == VFS_ERR_ISDIR
      ensures v.sound ==> rc != VFS_ERR_NOMEM
      ensures !isDir && !v.failed && rc != VFS_ERR_NOMEM && 0 < len0 && old(pos) < size ==>
                && rc == (if out == [] then VFS_ERR_NOTSUP else |out|)
                && (|out| == Min(len0, size - old(pos)) || Stuck(Quot(old(pos) + |out|, v.bs)))
      ensures rc < 0 ==> pos == old(pos)
      ensures rc >= 0 ==> rc == |out| && pos == old(pos) + rc && rc <= len0 && out == Slice(old(pos), rc)
      ensures rc > 0 && Good() ==> forall i: nat :: i < rc ==> out[i] == TrueByte(old(pos) + i)
      ensures !isDir && !v.failed && rc != VFS_ERR_NOMEM && (Good() || old(pos) >= size || len0 == 0)
                && (extents || len0 == 0 || old(pos) >= size) ==>
                rc == if old(pos) >= size then 0 else Min(len0, size - old(pos))
    {
      hide File.Valid, Good, ByteOf, TrueByte, Stuck, Quot;
      out := [];
      if isDir {
        return VFS_ERR_ISDIR, out;
      }
      if len0 == 0 || pos >= size {
        return 0, out;
      }
      var len := if len0 > size - pos then size - pos else len0;
      var short := *;
      if short && !v.sound {
        return VFS_ERR_NOMEM, out;
      }
      var scratch := new Byte[v.bs];
      ghost var pos0, want := pos, len;
      while len > 0
        invariant 0 <= len && len + |out| == want <= len0 && pos == pos0 + |out| && pos0 + want <= size && Valid()
                  && v.Works() && (old(v.failed) ==> v.failed)
        invariant out == Slice(pos0, |out|)
      {
        var part;
        rc, part := ReadChunk(len, scratch);
        if rc != VFS_OK {
          break;
        }
        SliceMore(pos0, |out|, |part|);
        out := out + part;
        pos := pos + |part|;
        len := len - |part|;
      }
      if |out| > 0 {
        if Good() {
          forall i: nat | i < |out|
            ensures out[i] == TrueByte(pos0 + i)
          {
            ByteIs(pos0 + i);
          }
        }
        return |out|, out;
      }
      rc := VFS_ERR_NOTSUP;
    }
  }

  lemma {:induction false} LookupTells(es: seq<Ext>, lb: nat)
    ensures Lookup(es, lb).Mapped? || Lookup(es, lb) == Hole
  {
    if es != [] {
      LookupTells(es[1..], lb);
    }
  }
}
