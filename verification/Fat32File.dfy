/**
 Files: the directory entry's cluster and size, reading, writing with a
 zero-filled gap, and truncation (src/kernel/fs/fat32.c:986-1000, 1218-1231,
 1476-1563).
 */
module Fat32File {
  import opened Errors
  import opened FlatBytes
  import opened LittleEndian
  import opened FatMap
  import opened Fat32Layout
  import opened Fat32Data
  import opened Fat32Place
  import opened Fat32Volume
  import opened Fat32Chain
  import opened Fat32Slots

  // ----- The directory entry -----

  function SlotClus(e: Slot): nat {
    Get16(e, 20) * 0x1_0000 + Get16(e, 26)
  }

  function SlotSize(e: Slot): nat {
    Get32(e, 28)
  }

  /** fat32_update_entry's three writes. */
  function PatchedSlot(e: Slot, clus: nat, size: nat): Slot {
    var e1 := Splice(e, 20, Put16(clus / 0x1_0000 % 0x1_0000));
    var e2 := Splice(e1, 26, Put16(clus % 0x1_0000));
    Splice(e2, 28, Put32(size))
  }

  /** The directory after entry k took its cluster and size. */
  function SlotsPatched(slots: seq<Slot>, k: nat, clus: nat, size: nat): seq<Slot>
    requires k < |slots| && clus < U32 && size < U32
  {
    slots[k := PatchedSlot(slots[k], clus, size)]
  }

  /** The patched entry carries the cluster and the size, and the old name and attributes. */
  lemma PatchedSlotDecodes(e: Slot, clus: nat, size: nat)
    requires clus < U32 && size < U32
    ensures SlotClus(PatchedSlot(e, clus, size)) == clus
    ensures SlotSize(PatchedSlot(e, clus, size)) == size
    ensures PatchedSlot(e, clus, size)[..20] == e[..20] && PatchedSlot(e, clus, size)[22..26] == e[22..26]
  {
    var hi, lo := clus / 0x1_0000 % 0x1_0000, clus % 0x1_0000;
    var e1 := Splice(e, 20, Put16(hi));
    var e2 := Splice(e1, 26, Put16(lo));
    PatchedSlotKeeps(e, clus, size);
    hide Splice, Get16, Get32, Put16, Put32;
    Put16Get(e, 20, hi);
    Get16Outside(e1, 26, Put16(lo), 20);
    Get16Outside(e2, 28, Put32(size), 20);
    Put16Get(e1, 26, lo);
    Get16Outside(e2, 28, Put32(size), 26);
    Put32Get(e2, 28, size);
  }

  lemma PatchedSlotKeeps(e: Slot, clus: nat, size: nat)
    requires clus < U32 && size < U32
    ensures PatchedSlot(e, clus, size)[..20] == e[..20] && PatchedSlot(e, clus, size)[22..26] == e[22..26]
  {
    hide Put16, Put32;
  }

  /** Every live chain but s and d kept its clusters and their bytes, and no other chain appeared. */
  ghost predicate KeptBut(b0: Book, clus0: seq<Cluster>, b1: Book, clus1: seq<Cluster>, s: nat, d: nat) {
    && |clus1| == |clus0|
    && (forall h :: h in b0.chains && h != s && h != d ==> h in b1.chains && b1.chains[h] == b0.chains[h])
    && (forall h :: h in b1.chains && h != s && h != d ==> h in b0.chains)
    && (forall h, i :: h in b0.chains && h != s && h != d && 0 <= i < |b0.chains[h]| && b0.chains[h][i] < |clus0| ==>
          clus1[b0.chains[h][i]] == clus0[b0.chains[h][i]])
  }

  lemma KeptTwo(b0: Book, clus0: seq<Cluster>, b1: Book, clus1: seq<Cluster>, b2: Book, clus2: seq<Cluster>, s: nat, d: nat)
    requires Kept(b0, clus0, b1, clus1, s) && Kept(b1, clus1, b2, clus2, d)
    ensures KeptBut(b0, clus0, b2, clus2, s, d)
  {
  }

  /** A chain that is neither s nor d holds the bytes it held. */
  lemma KeptButData(b0: Book, clus0: seq<Cluster>, b1: Book, clus1: seq<Cluster>, s: nat, d: nat, h: nat)
    requires KeptBut(b0, clus0, b1, clus1, s, d) && h in b0.chains && h != s && h != d && InTable(clus0, b0.chains[h])
    ensures h in b1.chains && b1.chains[h] == b0.chains[h] && DataOf(clus1, b1.chains[h]) == DataOf(clus0, b0.chains[h])
  {
    DataSame(clus0, clus1, b0.chains[h]);
  }

  /** The bytes of the live chain that starts at h. */
  ghost function ChainBytes(b: Book, clus: seq<Cluster>, h: nat): Bytes {
    if h in b.chains && InTable(clus, b.chains[h]) then DataOf(clus, b.chains[h]) else []
  }

  /** A live chain other than the written one holds the bytes it held. */
  lemma OtherBytes(fat: Fat, n: nat, b0: Book, clus0: seq<Cluster>, b1: Book, clus1: seq<Cluster>, s: nat, d: nat)
    requires Wf(fat, n, b0) && |clus0| == n && Kept(b0, clus0, b1, clus1, s) && d in b0.chains && d != s
    ensures d in b1.chains && ChainBytes(b1, clus1, d) == ChainBytes(b0, clus0, d)
  {
    hide Wf, DataOf;
    LiveChain(fat, n, b0, d, clus0);
    KeptData(b0, clus0, b1, clus1, s, d);
  }

  /** fat32_update_entry: the slot at off32 takes the cluster and size; nothing else changes. */
  method UpdateEntry(sb: Volume, dirClus: nat, off32: nat, clus: nat, size: nat) returns (rc: int)
    requires sb.Valid() && sb.ChainsOk() && off32 + SLOT < U32 && clus < U32 && size < U32 && dirClus < U32
    requires !sb.failed ==> sb.ClusOk(dirClus) && dirClus in sb.book.chains
    requires !sb.failed ==> off32 / SLOT < |Slots(ChainBytes(sb.book, sb.clus, dirClus))|
    modifies sb`failed, sb`secs, sb`clus
    ensures sb.Valid() && sb.ChainsOk() && (old(sb.failed) ==> sb.failed)
    ensures !sb.failed ==> rc == FAT32_OK && Kept(sb.book, old(sb.clus), sb.book, sb.clus, dirClus)
    ensures !sb.failed ==>
              Slots(ChainBytes(sb.book, sb.clus, dirClus))
              == SlotsPatched(Slots(old(ChainBytes(sb.book, sb.clus, dirClus))), off32 / SLOT, clus, size)
  {
    hide Wf, Slots, Kept, PatchedSlot, Volume.Valid, DataOf;
    var ch := new Chain(sb, dirClus);
    var idx := off32 / SLOT;
    assert !sb.failed ==> ch.Content() == ChainBytes(sb.book, sb.clus, dirClus);
    var e;
    rc, e := EntRead(ch, idx);
    if rc != FAT32_OK {
      return FAT32_ERR_IO;
    }
    rc := EntWrite(ch, idx, PatchedSlot(e, clus, size));
    assert ch.start == dirClus;
  }

  // ----- Bytes of a file -----

  /** The chain's bytes before and after a write, cut to the file's size. */
  lemma WrittenPrefix(c1: Bytes, c2: Bytes, b: Bytes, pos: nat, data: Bytes)
    requires |c1| <= |c2| && pos + |data| <= |c2| && c2 == Splice(Grown(c1, |c2|), pos, data)
    requires |b| <= |c1| && pos <= |c1|
    requires if pos <= |b| then c1[..|b|] == b else c1[..pos] == b + Zeros(pos - |b|)
    ensures |Written(b, pos, data)| <= |c2| && c2[..|Written(b, pos, data)|] == Written(b, pos, data)
    ensures pos + |data| <= |b| ==> |Written(b, pos, data)| == |b|
  {
    var w := Written(b, pos, data);
    SpliceAt(Grown(c1, |c2|), pos, data);
    forall i | 0 <= i < |w|
      ensures c2[i] == w[i]
    {
      WrittenReads(b, pos, data, i);
      if i < pos {
        assert c2[i] == c1[i] && c1[..pos][i] == c1[i];
      } else if pos + |data| <= i {
        assert c2[i] == c1[i] && c1[..|b|][i] == c1[i];
      }
    }
  }

  lemma GapPrefix(c1: Bytes, c2: Bytes, b: Bytes, pos: nat, n: nat)
    requires |c1| <= |c2| && pos + n <= |c2| && c2 == Splice(Grown(c1, |c2|), pos, Zeros(n))
    requires |b| <= pos <= |c1| && c1[..pos] == b + Zeros(pos - |b|)
    ensures c2[..pos + n] == b + Zeros(pos + n - |b|)
  {
    assert forall i :: 0 <= i < pos ==> c2[i] == c1[..pos][i];
  }

  /** n bytes of b from i on. */
  function Part(b: Bytes, i: nat, n: nat): Bytes {
    if i + n <= |b| then b[i..i + n] else []
  }

  class FatFile {
    const chain: Chain
    const dirClus: nat
    const dirOff: nat
    var size: nat
    var pos: nat

    constructor (chain: Chain, size: nat, dirClus: nat, dirOff: nat)
      ensures this.chain == chain && this.size == size && this.dirClus == dirClus && this.dirOff == dirOff && pos == 0
    {
      this.chain, this.size, this.dirClus, this.dirOff, pos := chain, size, dirClus, dirOff, 0;
    }

    /** The one open handle of a live file whose entry is a slot of another live chain. */
    ghost predicate Valid()
      reads this, chain, chain.sb
    {
      && chain.Good() && size < U32 && dirOff + SLOT < U32 && dirClus < U32
      && (!chain.sb.failed ==> size <= |chain.Content()|)
      && (!chain.sb.failed ==> chain.sb.ClusOk(dirClus) && dirClus in chain.sb.book.chains && dirClus != chain.start)
      && (!chain.sb.failed ==> dirOff / SLOT < |Slots(DirBytes())|)
    }

    ghost function DirBytes(): Bytes
      reads chain.sb`book, chain.sb`clus
    {
      ChainBytes(chain.sb.book, chain.sb.clus, dirClus)
    }

    /** The file as a byte sequence. */
    ghost function Contents(): Bytes
      reads this`size, chain`start, chain.sb`book, chain.sb`clus
    {
      if size <= |chain.Content()| then chain.Content()[..size] else []
    }

    /**
     Byte k of the file, read off the device: the chain starts at the head in the
     entry and follows the table, and the byte lies in the sector that its place
     in the chain says.
     */
    lemma FileByte(k: nat)
      requires Valid() && !chain.sb.failed && k < size
      ensures chain.sb.ClusOk(chain.start)
      ensures var ch, fat := chain.Clusters(), chain.sb.fat;
              && ch != [] && ch[0] == chain.start && |fat| == chain.sb.g.N()
              && (forall i :: 0 <= i < |ch| ==> ch[i] < |fat|)
              && (forall i :: 0 <= i < |ch| - 1 ==> fat[ch[i]] == ch[i + 1]) && fat[ch[|ch| - 1]] >= 0x0fff_fff8
      ensures Contents()[k] == DeviceByte(chain.sb.g, chain.sb.secs, chain.Clusters(), k)
    {
      hide FatAgrees, ClusAgrees, SectorsOk, DataOf, Slots, ChainBytes;
      chain.Shape();
      assert chain.Clusters() != [];
      assert Linked(chain.sb.fat, chain.sb.g.N(), chain.Clusters());
      ChainOnDevice(chain.sb.g, chain.sb.secs, chain.sb.clus, chain.Clusters(), k);
    }

    /** fat32_read: the bytes at the position, as many as there are. */
    method Read(len0: nat) returns (rc: int, out: Bytes)
      requires Valid()
      modifies this`pos, chain`cacheClus, chain`cacheIndex, chain`cacheOk, chain.sb`failed
      ensures Valid() && (old(chain.sb.failed) ==> chain.sb.failed)
      ensures rc < 0 ==> pos == old(pos) && chain.sb.failed
      ensures rc >= 0 ==> rc == |out| && pos == old(pos) + rc
      ensures !chain.sb.failed ==> rc == if old(pos) >= size then 0 else Min(len0, size - old(pos))
      ensures !chain.sb.failed && rc > 0 ==> out == Part(Contents(), old(pos), rc)
      ensures !chain.sb.failed && rc > 0 ==>
                forall k: nat :: k < rc ==> out[k] == DeviceByte(chain.sb.g, chain.sb.secs, chain.Clusters(), old(pos) + k)
    {
      hide Chain.Good, Chain.Content, Slots, ChainBytes;
      out := [];
      if pos >= size {
        return 0, out;
      }
      var len := if len0 > size - pos then size - pos else len0;
      if len > 0xffff_ffff {
        len := 0xffff_ffff;
      }
      rc, out := chain.Read(pos, len);
      if rc != FAT32_OK {
        return;
      }
      if len > 0 && !chain.sb.failed {
        SliceOfSlice(chain.Content(), 0, size, pos, len);
        forall k: nat | k < len
          ensures out[k] == DeviceByte(chain.sb.g, chain.sb.secs, chain.Clusters(), pos + k)
        {
          FileByte(pos + k);
        }
      }
      pos := pos + len;
      rc := len;
    }

    /** Fills the gap between the size and the position with zeros, 128 bytes at a time. */
    method FillGap() returns (rc: int)
      requires Valid() && size < pos
      modifies chain, chain.sb
      ensures chain.Good() && (old(chain.sb.failed) ==> chain.sb.failed) && rc <= 0
      ensures !chain.sb.failed ==> rc == FAT32_OK || rc == VFS_ERR_NOSPC
      ensures !chain.sb.failed ==> |old(chain.Content())| <= |chain.Content()|
      ensures !chain.sb.failed ==> chain.Content()[..size] == old(Contents())
      ensures !chain.sb.failed && rc == FAT32_OK ==>
                pos <= |chain.Content()| && chain.Content()[..pos] == old(Contents()) + Zeros(pos - size)
      ensures !chain.sb.failed ==> Kept(old(chain.sb.book), old(chain.sb.clus), chain.sb.book, chain.sb.clus, chain.start)
      ensures !chain.sb.failed ==> StartKept(old(chain.start), old(chain.sb.book), chain.start)
      ensures !chain.sb.failed && old(chain.sb.FreeExact()) ==> chain.sb.FreeExact()
      ensures !chain.sb.failed && rc != FAT32_OK ==> Full(chain.sb.fat) && |chain.Content()| < pos
      ensures !chain.sb.failed ==> |chain.Content()| == |old(chain.Content())| || |chain.Content()| < pos + chain.sb.g.ClusBytes()
    {
      hide Chain.Good, Chain.Content, Slots, ChainBytes, Kept, Splice, Grown, Volume.FreeExact;
      ghost var sb, book0, clus0, b := chain.sb, chain.sb.book, chain.sb.clus, Contents();
      var gpos: nat, gap: nat := size, pos - size;
      chain.NotHead();
      KeptSame(book0, clus0, chain.start);
      rc := FAT32_OK;
      while gap > 0
        invariant gpos + gap == pos && size <= gpos && rc == FAT32_OK
        invariant chain.Good() && (old(chain.sb.failed) ==> chain.sb.failed)
        invariant !sb.failed ==> |old(chain.Content())| <= |chain.Content()| && gpos <= |chain.Content()|
        invariant !sb.failed ==> chain.Content()[..gpos] == b + Zeros(gpos - size)
        invariant !sb.failed ==> |chain.Content()| == |old(chain.Content())| || |chain.Content()| < gpos + sb.g.ClusBytes()
        invariant !sb.failed ==> Kept(book0, clus0, sb.book, sb.clus, chain.start)
        invariant !sb.failed ==> StartKept(old(chain.start), book0, chain.start)
        invariant !sb.failed && old(sb.FreeExact()) ==> sb.FreeExact()
      {
        var n := if gap > 128 then 128 else gap;
        ghost var book1, clus1, start1, data1 := sb.book, sb.clus, chain.start, chain.Content();
        chain.NotHead();
        ghost var done;
        rc, done := chain.Write(gpos, seq(n, _ => 0));
        if !sb.failed {
          KeptOn(book0, clus0, book1, clus1, sb.book, sb.clus, start1, chain.start);
          assert seq(n, _ => 0)[..done] == Zeros(done);
          GapPrefix(data1, chain.Content(), b, gpos, done);
          assert chain.Content()[..gpos + done][..size] == b;
        }
        if rc != FAT32_OK {
          return;
        }
        gpos := gpos + n;
        gap := gap - n;
      }
    }

    /** A chain keeps its head; an empty one may have got a new head. */
    ghost predicate StartKept(start0: nat, book0: Book, start1: nat) {
      if chain.sb.ClusOk(start0) then start1 == start0
      else start1 == start0 || (chain.sb.ClusOk(start1) && start1 !in book0.chains)
    }

    /** fat32_write's data part: the bytes go to the position, after the gap before it has been filled. */
    method WriteData(data: Bytes) returns (rc: int, ghost done: nat)
      requires Valid() && |data| < U32
      modifies chain, chain.sb
      ensures chain.Good() && (old(chain.sb.failed) ==> chain.sb.failed) && rc <= 0
      ensures done <= |data| && (rc == FAT32_OK ==> done == |data|)
      ensures !chain.sb.failed ==> rc == FAT32_OK || rc == VFS_ERR_NOSPC
      ensures !chain.sb.failed && rc == FAT32_OK ==> |Written(old(Contents()), pos, data)| <= |chain.Content()|
      ensures !chain.sb.failed && rc == FAT32_OK ==>
                chain.Content()[..|Written(old(Contents()), pos, data)|] == Written(old(Contents()), pos, data)
      ensures !chain.sb.failed && rc != FAT32_OK ==>
                size <= |chain.Content()| && chain.Content()[..size] == Written(old(Contents()), pos, data[..done])[..size]
      ensures !chain.sb.failed ==> Kept(old(chain.sb.book), old(chain.sb.clus), chain.sb.book, chain.sb.clus, chain.start)
      ensures !chain.sb.failed ==> StartKept(old(chain.start), old(chain.sb.book), chain.start)
      ensures !chain.sb.failed && old(chain.sb.FreeExact()) ==> chain.sb.FreeExact()
      ensures !chain.sb.failed && rc != FAT32_OK ==>
                && Full(chain.sb.fat) && |chain.Content()| < pos + |data|
                && done == if |chain.Content()| > pos then |chain.Content()| - pos else 0
      ensures !chain.sb.failed ==> |chain.Content()| == |old(chain.Content())| || |chain.Content()| < pos + |data| + chain.sb.g.ClusBytes()
    {
      hide Chain.Good, Chain.Content, Slots, ChainBytes, Kept, Splice, Grown, Volume.FreeExact;
      ghost var sb, book0, clus0, b := chain.sb, chain.sb.book, chain.sb.clus, Contents();
      chain.NotHead();
      KeptSame(book0, clus0, chain.start);
      if pos > size {
        rc := FillGap();
        if rc != FAT32_OK {
          done := 0;
          WrittenNone(b, pos);
          return;
        }
      }
      ghost var book1, clus1, start1, data1 := sb.book, sb.clus, chain.start, chain.Content();
      chain.NotHead();
      rc, done := chain.Write(pos, data);
      if !sb.failed {
        KeptOn(book0, clus0, book1, clus1, sb.book, sb.clus, start1, chain.start);
        WrittenPrefix(data1, chain.Content(), b, pos, data[..done]);
        assert rc == FAT32_OK ==> data[..done] == data;
        assert chain.Content()[..size] == chain.Content()[..|Written(b, pos, data[..done])|][..size];
      }
    }

    lemma ContentIsBytes()
      requires chain.Good() && !chain.sb.failed
      ensures chain.Content() == if chain.sb.ClusOk(chain.start) then ChainBytes(chain.sb.book, chain.sb.clus, chain.start) else []
    {
      hide Volume.Valid, Volume.ChainsOk;
    }

    /** The entry takes the chain's head and the size; the file's own bytes stay. */
    method PutEntry() returns (rc: int)
      requires chain.Good() && size < U32 && dirOff + SLOT < U32 && dirClus < U32
      requires !chain.sb.failed ==> chain.sb.ClusOk(dirClus) && dirClus in chain.sb.book.chains && dirClus != chain.start
      requires !chain.sb.failed ==> dirOff / SLOT < |Slots(DirBytes())|
      modifies chain.sb`failed, chain.sb`secs, chain.sb`clus
      ensures chain.Good() && (old(chain.sb.failed) ==> chain.sb.failed)
      ensures !chain.sb.failed ==>
                chain.Content() == old(chain.Content()) && Kept(chain.sb.book, old(chain.sb.clus), chain.sb.book, chain.sb.clus, dirClus)
      ensures !chain.sb.failed ==>
                Slots(DirBytes()) == SlotsPatched(Slots(old(DirBytes())), dirOff / SLOT, chain.start, size)
    {
      hide Wf, Chain.Content, Slots, Kept, ChainBytes, Volume.Valid, PatchedSlot;
      ghost var sb, clus0 := chain.sb, chain.sb.clus;
      if !sb.failed {
        ContentIsBytes();
        WfSizes();
      }
      rc := UpdateEntry(chain.sb, dirClus, dirOff, chain.start, size);
      if !sb.failed {
        if sb.ClusOk(chain.start) {
          OtherBytes(sb.fat, sb.g.N(), sb.book, clus0, sb.book, sb.clus, dirClus, chain.start);
        }
        ContentIsBytes();
      }
    }

    lemma WfSizes()
      requires chain.Good()
      ensures |chain.sb.clus| == chain.sb.g.N() && chain.sb.g.N() < U32
    {
    }

    /**
     fat32_write: the data at the position, zeros in a gap before it, the entry
     updated. The size is stored in 32 bits: it is the end of the data exactly
     when that end fits, otherwise the file is cut.
     */
    method Write(data0: Bytes) returns (rc: int, ghost done: nat)
      requires Valid()
      modifies this, chain, chain.sb
      ensures !chain.sb.failed ==> Valid()
      ensures old(chain.sb.failed) ==> chain.sb.failed
      ensures done <= |Clamped(data0)| && (rc >= 0 ==> rc == done == |Clamped(data0)| && pos == old(pos) + rc)
      ensures rc >= 0 ==> size == SizeAfter(old(size), pos)
      ensures rc < 0 ==> pos == old(pos) && size == old(size) && (!chain.sb.failed ==> rc == VFS_ERR_NOSPC)
      ensures !chain.sb.failed ==> size <= |Written(old(Contents()), old(pos), data0[..done])|
      ensures !chain.sb.failed ==> Contents() == Written(old(Contents()), old(pos), data0[..done])[..size]
      ensures !chain.sb.failed && rc >= 0 ==> (Contents() == Written(old(Contents()), old(pos), Clamped(data0)) <==> pos < U32)
      ensures !chain.sb.failed && rc >= 0 ==>
                Slots(DirBytes()) == SlotsPatched(Slots(old(DirBytes())), dirOff / SLOT, chain.start, size)
      ensures !chain.sb.failed && rc < 0 ==> DirBytes() == old(DirBytes())
      ensures !chain.sb.failed ==> KeptBut(old(chain.sb.book), old(chain.sb.clus), chain.sb.book, chain.sb.clus, chain.start, dirClus)
      ensures !chain.sb.failed && old(chain.sb.FreeExact()) ==> chain.sb.FreeExact()
      ensures chain.Good()
      ensures !chain.sb.failed && rc < 0 ==>
                && Full(chain.sb.fat) && |chain.Content()| < pos + |Clamped(data0)|
                && done == if |chain.Content()| > pos then |chain.Content()| - pos else 0
      ensures !chain.sb.failed ==>
                |chain.Content()| == |old(chain.Content())| || |chain.Content()| < old(pos) + |Clamped(data0)| + chain.sb.g.ClusBytes()
    {
      hide Wf, Chain.Content, Chain.Cursor, Slots, ChainBytes, Kept, KeptBut, Splice, Grown, Written, Volume.FreeExact, PatchedSlot;
      ghost var sb, fat0, book0, clus0, b := chain.sb, chain.sb.fat, chain.sb.book, chain.sb.clus, Contents();
      var data := Clamped(data0);
      ghost var live := !sb.failed;
      if live {
        SizeIs();
      }
      rc, done := WriteData(data);
      assert data[..done] == data0[..done];
      if !sb.failed {
        OtherBytes(fat0, sb.g.N(), book0, clus0, sb.book, sb.clus, chain.start, dirClus);
        KeptSame(sb.book, sb.clus, dirClus);
        KeptTwo(book0, clus0, sb.book, sb.clus, sb.book, sb.clus, chain.start, dirClus);
      }
      if rc != FAT32_OK {
        return;
      }
      ghost var clus1 := sb.clus;
      pos := pos + |data|;
      if pos > size {
        size := pos % U32;
      }
      ghost var data1 := chain.Content();
      var ignored := PutEntry();
      if !sb.failed {
        CutIs(b, pos - |data|, data, data1, size);
        KeptTwo(book0, clus0, sb.book, clus1, sb.book, sb.clus, chain.start, dirClus);
      }
      rc := |data|;
      done := |data|;
      assert data0[..done] == data;
    }

    /** fat32_seek for the base it computed: only the position moves, and not below zero. */
    method Seek(base: int) returns (rc: int)
      modifies this`pos
      ensures rc == if base < 0 then VFS_ERR_INVAL else base
      ensures pos == if base < 0 then old(pos) else base
      ensures Contents() == old(Contents()) && Valid() == old(Valid())
    {
      hide Chain.Content, Chain.Good, Slots, ChainBytes;
      if base < 0 {
        return VFS_ERR_INVAL;
      }
      pos := base;
      rc := base;
    }

    lemma ValidGood()
      requires Valid()
      ensures chain.Good()
    {
    }

    lemma SizeIs()
      requires Valid() && !chain.sb.failed
      ensures |Contents()| == size < U32
    {
      hide Chain.Content, Chain.Good, Slots, ChainBytes;
    }

    /** Reading back at the position of a write gives the data, whatever gap the write had to fill. */
    method WriteThenRead(data: Bytes) returns (rc: int, out: Bytes)
      requires Valid() && 0 < |data|
      modifies this, chain, chain.sb
      ensures !chain.sb.failed && rc >= 0 ==> Valid() && (out == data <==> old(pos) + |data| < U32)
      ensures chain.Good() && (!chain.sb.failed && rc < 0 ==> Full(chain.sb.fat))
    {
      hide *;
      var at := pos;
      ghost var b, done := Contents(), 0;
      out := [];
      rc, done := Write(data);
      ClampedSize(data);
      if rc < 0 || chain.sb.failed {
        return;
      }
      SizeIs();
      if at + |data| < U32 {
        PartWritten(b, at, data);
      } else {
        ReadShort(size, at, |data|);
      }
      var sought := Seek(at);
      rc, out := Read(|data|);
      ValidGood();
    }

    /** fat32_truncate: the chain is freed, the entry and the handle are those of an empty file. */
    method Truncate()
      requires Valid()
      modifies this, chain, chain.sb
      ensures !chain.sb.failed ==> Valid() && Contents() == [] && size == 0 && chain.start == 0
      ensures old(chain.sb.failed) ==> chain.sb.failed
      ensures !chain.sb.failed && old(chain.sb.ClusOk(chain.start)) ==> chain.sb.book == FreeBook(old(chain.sb.book), old(chain.start))
      ensures !chain.sb.failed ==>
                Slots(DirBytes()) == SlotsPatched(Slots(old(DirBytes())), dirOff / SLOT, 0, 0)
      ensures !chain.sb.failed ==> KeptBut(old(chain.sb.book), old(chain.sb.clus), chain.sb.book, chain.sb.clus, old(chain.start), dirClus)
      ensures !chain.sb.failed && old(chain.sb.FreeExact()) ==> chain.sb.FreeExact()
      ensures chain.Good()
    {
      hide Wf, Chain.Content, Slots, ChainBytes, Kept, KeptBut, Volume.Valid, Volume.FreeExact, PatchedSlot, FreeBook, Cleared;
      ghost var sb, fat0, book0, clus0, h := chain.sb, chain.sb.fat, chain.sb.book, chain.sb.clus, chain.start;
      if !sb.failed {
        WfSizes();
        KeptSame(book0, clus0, h);
        if sb.ClusOk(h) {
          KeptFree(book0, clus0, h);
        }
      }
      if chain.sb.ClusOk(chain.start) {
        chain.sb.FreeChain(chain.start);
      }
      if !sb.failed {
        OtherBytes(fat0, sb.g.N(), book0, clus0, sb.book, sb.clus, h, dirClus);
      }
      var ignored := UpdateEntry(chain.sb, dirClus, dirOff, 0, 0);
      if !sb.failed {
        KeptTwo(book0, clus0, sb.book, clus0, sb.book, sb.clus, h, dirClus);
      }
      chain.start := 0;
      chain.cacheOk := false;
      size := 0;
      if !sb.failed {
        EmptyChain();
      }
    }

    lemma EmptyChain()
      requires !chain.sb.ClusOk(chain.start) && size == 0
      ensures Contents() == []
    {
    }
  }

  /** The bytes a write takes: a length is cut to 32 bits. */
  function Clamped(data: Bytes): Bytes {
    if |data| < U32 then data else data[..U32 - 1]
  }

  /** A read past the last byte a file can have comes short. */
  lemma ReadShort(size: nat, at: nat, len: nat)
    requires size < U32 <= at + len && 0 < len
    ensures (if at >= size then 0 else Min(len, size - at)) < len
  {
  }

  lemma ClampedSize(data: Bytes)
    ensures |data| < U32 ==> Clamped(data) == data
    ensures |Clamped(data)| == Min(|data|, U32 - 1)
  {
  }

  /** The size after a write that ended at pos. */
  function SizeAfter(size: nat, pos: nat): nat {
    if pos > size then pos % U32 else size
  }

  /** The first bytes of the chain after a write, cut to the new size. */
  lemma CutIs(b: Bytes, pos: nat, data: Bytes, c: Bytes, size: nat)
    requires |b| < U32 && size == SizeAfter(|b|, pos + |data|)
    requires |Written(b, pos, data)| <= |c| && c[..|Written(b, pos, data)|] == Written(b, pos, data)
    ensures size <= |Written(b, pos, data)| && c[..size] == Written(b, pos, data)[..size]
    ensures c[..size] == Written(b, pos, data) <==> pos + |data| < U32
  {
    assert c[..size] == c[..|Written(b, pos, data)|][..size];
  }

  /** The last byte a file can have, written at offset 2^32 - 1: the size becomes 0 and every byte is gone. */
  lemma LastByteFails(b: Bytes, v: Byte)
    requires |b| == U32 - 1
    ensures |Written(b, |b|, [v])| == U32 && Written(b, |b|, [v])[..SizeAfter(|b|, |b| + 1)] == []
  {
  }

  lemma PartWritten(b: Bytes, pos: nat, data: Bytes)
    ensures pos + |data| <= |Written(b, pos, data)| && Part(Written(b, pos, data), pos, |data|) == data
    ensures data != [] ==> Min(|data|, |Written(b, pos, data)| - pos) == |data|
  {
    if data != [] {
      WrittenReads(b, pos, data, pos);
    }
  }

  lemma KeptFree(b: Book, clus: seq<Cluster>, h: nat)
    requires h in b.chains
    ensures Kept(b, clus, FreeBook(b, h), clus, h)
  {
  }

  lemma WrittenNone(b: Bytes, pos: nat)
    requires |b| <= pos
    ensures |b| <= |Written(b, pos, [])| && Written(b, pos, [])[..|b|] == b
  {
  }
}
