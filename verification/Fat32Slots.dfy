/**
 Directory entries as 32-byte slots of a directory's chain
 (src/kernel/fs/fat32.c:442-492, 986-1000).
 */
module Fat32Slots {
  import opened Errors
  import opened FlatBytes
  import opened LittleEndian
  import opened FatMap
  import opened Fat32Layout
  import opened Fat32Data
  import opened Fat32Volume
  import opened Fat32Chain

  const SLOT := 32
  const FAT32_ERR_EOF := -101

  type Slot = s: Bytes | |s| == SLOT witness seq(SLOT, _ => 0)

  /** The 32-byte slots of a directory's bytes. */
  ghost function Slots(content: Bytes): (r: seq<Slot>)
    ensures |r| == |content| / SLOT
    ensures forall k :: 0 <= k < |r| ==> r[k] == content[SLOT * k..SLOT * k + SLOT]
  {
    seq(|content| / SLOT, k requires 0 <= k < |content| / SLOT => content[SLOT * k..SLOT * k + SLOT])
  }

  lemma SlotsUpdated(content: Bytes, k: nat, e: Slot)
    requires SLOT * k + SLOT <= |content|
    ensures Slots(Splice(content, SLOT * k, e)) == Slots(content)[k := e]
  {
    var a, b := Slots(Splice(content, SLOT * k, e)), Slots(content)[k := e];
    forall i | 0 <= i < |a|
      ensures a[i] == b[i]
    {
      SlotOutside(content, k, e, i);
    }
  }

  lemma SlotOutside(content: Bytes, k: nat, e: Slot, i: nat)
    requires SLOT * k + SLOT <= |content| && SLOT * i + SLOT <= |content|
    ensures Splice(content, SLOT * k, e)[SLOT * i..SLOT * i + SLOT] == if i == k then e else content[SLOT * i..SLOT * i + SLOT]
  {
    var r := Splice(content, SLOT * k, e);
    if i < k {
      assert SLOT * i + SLOT <= SLOT * k;
    } else if k < i {
      assert SLOT * k + SLOT <= SLOT * i;
    }
  }

  lemma SlotsAppended(content: Bytes, more: Bytes)
    requires |content| % SLOT == 0
    ensures Slots(content + more) == Slots(content) + Slots(more)
  {
    var a, b := Slots(content + more), Slots(content) + Slots(more);
    var n := |content| / SLOT;
    assert |content| == SLOT * n;
    forall i | 0 <= i < |a|
      ensures a[i] == b[i]
    {
      if i < n {
        assert SLOT * i + SLOT <= |content|;
      } else {
        assert SLOT * i == |content| + SLOT * (i - n);
      }
    }
  }

  lemma SlotsOfZeros(n: nat)
    ensures forall k :: 0 <= k < |Slots(Zeros(n))| ==> Slots(Zeros(n))[k] == Zeros(SLOT)
  {
  }

  lemma Aligned(index: nat, j: nat, r: nat)
    requires SLOT * index == SECTOR * j + r && r < SECTOR
    ensures r + SLOT <= SECTOR
  {
    var q := index - 16 * j;
    assert r == SLOT * q;
  }

  /** Entry index lies in one sector. */
  lemma SlotInSector(index: nat, spc: nat)
    requires 0 < spc
    ensures 0 < Size(spc, SECTOR)
    ensures var within := Rem(index * SLOT, Size(spc, SECTOR));
            within % SECTOR + SLOT <= SECTOR && within / SECTOR < spc
            && index * SLOT == Size(Size(Quot(index * SLOT, Size(spc, SECTOR)), spc) + within / SECTOR, SECTOR) + within % SECTOR
    ensures Quot(index * SLOT, Size(spc, SECTOR)) <= index * SLOT
  {
    hide Quot, Rem, Size;
    var off := index * SLOT;
    Locate(off, spc);
    var within := Rem(off, Size(spc, SECTOR));
    var j := Size(Quot(off, Size(spc, SECTOR)), spc) + within / SECTOR;
    SizeIsProduct(j, SECTOR);
    Aligned(index, j, within % SECTOR);
  }

  /** A chain's bytes are whole slots. */
  lemma WholeSlots(ch: Chain)
    requires ch.Good() && !ch.sb.failed
    ensures |ch.Content()| % SLOT == 0
  {
    hide Volume.Valid, Volume.ChainsOk, Chain.Cursor, Chain.Content, Chain.Clusters;
    ch.Shape();
    SizeOfSizes(|ch.Clusters()|, ch.sb.g.secPerClus, SECTOR);
    SizeIsProduct(Size(|ch.Clusters()|, ch.sb.g.secPerClus), SECTOR);
  }

  /** fat32_ent_read: slot index of the directory, or EOF past its end. */
  method EntRead(ch: Chain, index: nat) returns (rc: int, out: Slot)
    requires ch.Good() && index * SLOT < U32
    modifies ch`cacheClus, ch`cacheIndex, ch`cacheOk, ch.sb`failed
    ensures ch.Good() && (old(ch.sb.failed) ==> ch.sb.failed) && (ch.sb.failed ==> rc != FAT32_OK)
    ensures !ch.sb.failed ==> (rc == FAT32_OK <==> index < |Slots(ch.Content())|)
    ensures !ch.sb.failed && rc != FAT32_OK ==> rc == FAT32_ERR_EOF
    ensures !ch.sb.failed && rc == FAT32_OK ==> out == Slots(ch.Content())[index]
  {
    hide Wf, Size, Quot, Rem, Chain.Content, Chain.Clusters, Volume.Valid, Slots;
    var sb := ch.sb;
    out := seq(SLOT, _ => 0);
    var byteoff := index * SLOT % U32;
    sb.Positive();
    SlotInSector(index, sb.g.secPerClus);
    var ci, within := Quot(byteoff, sb.g.ClusBytes()), Rem(byteoff, sb.g.ClusBytes());
    if !sb.failed {
      ch.SectorHere(byteoff, SLOT);
      WholeSlots(ch);
    }
    var c := ch.At(ci);
    if !sb.ClusOk(c) {
      return FAT32_ERR_EOF, out;
    }
    var sec;
    rc, sec := sb.ReadClus(c, within / SECTOR);
    if rc != 0 {
      return FAT32_ERR_IO, out;
    }
    var so := within % SECTOR;
    out := sec[so..so + SLOT];
    rc := FAT32_OK;
  }

  /** fat32_ent_write: replaces slot index; a slot the directory does not have is an error. */
  method EntWrite(ch: Chain, index: nat, entry: Slot) returns (rc: int)
    requires ch.Good() && index * SLOT < U32
    modifies ch`cacheClus, ch`cacheIndex, ch`cacheOk, ch.sb`failed, ch.sb`secs, ch.sb`clus
    ensures ch.Good() && (old(ch.sb.failed) ==> ch.sb.failed)
    ensures !ch.sb.failed ==> (rc == FAT32_OK <==> index < |Slots(old(ch.Content()))|)
    ensures !ch.sb.failed && rc == FAT32_OK ==> index * SLOT + SLOT <= |old(ch.Content())|
    ensures !ch.sb.failed && rc == FAT32_OK ==> ch.Content() == Splice(old(ch.Content()), index * SLOT, entry)
    ensures !ch.sb.failed && rc == FAT32_OK ==> Slots(ch.Content()) == Slots(old(ch.Content()))[index := entry]
    ensures !ch.sb.failed && rc != FAT32_OK ==> ch.Content() == old(ch.Content())
    ensures !ch.sb.failed ==> Kept(ch.sb.book, old(ch.sb.clus), ch.sb.book, ch.sb.clus, ch.start)
  {
    hide Wf, Size, Quot, Rem, Chain.Content, Chain.Clusters, Volume.Valid, Slots, Kept, Splice;
    var sb := ch.sb;
    var byteoff := index * SLOT % U32;
    sb.Positive();
    SlotInSector(index, sb.g.secPerClus);
    var ci, within := Quot(byteoff, sb.g.ClusBytes()), Rem(byteoff, sb.g.ClusBytes());
    if !sb.failed {
      ch.SectorHere(byteoff, SLOT);
      WholeSlots(ch);
      KeptSame(sb.book, sb.clus, ch.start);
    }
    var c := ch.At(ci);
    if !sb.ClusOk(c) {
      return FAT32_ERR_IO;
    }
    ghost var content := ch.Content();
    rc := ch.PutSector(c, ci, within / SECTOR, within % SECTOR, entry);
    if !sb.failed {
      SlotsUpdated(content, index, entry);
    }
  }
}
