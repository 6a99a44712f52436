/**
 The mounted volume of src/kernel/fs/fat32.c: sector I/O, table entries, the
 FSInfo sector, cluster allocation and chain freeing.
 */
module Fat32Volume {
  import opened Errors
  import opened FlatBytes
  import opened LittleEndian
  import opened FatMap
  import opened Fat32Layout

  const FAT32_OK := 0
  const FAT32_ERR_IO := -100

  const INFO_SIG0 := 0x41615252
  const INFO_SIG1 := 0x61417272
  const INFO_COUNT := 488
  const INFO_NEXT := 492

  /** Decoded FSInfo: the saved count, if known, and the hint. */
  datatype Info = NoInfo | Info(count: nat, next: nat)

  function DecodeInfo(sec: Bytes): Info
    requires |sec| == SECTOR
  {
    if Get32(sec, 0) != INFO_SIG0 || Get32(sec, 484) != INFO_SIG1 then NoInfo
    else Info(Get32(sec, INFO_COUNT), Get32(sec, INFO_NEXT))
  }

  class Volume {
    const g: Geometry
    /** Whether the device never fails. */
    const sound: bool
    /** The device's sectors. */
    var secs: seq<Bytes>
    /** Set for good by the first device error; nothing is claimed afterwards. */
    var failed: bool
    var nextFree: nat
    var freeCount: nat
    var freeKnown: bool

    /** The sectors at the mount; the table, the clusters and the live chains that the sectors encode. */
    ghost const mounted: seq<Bytes>
    ghost var fat: Fat
    ghost var clus: seq<Cluster>
    ghost var book: Book

    ghost predicate Valid()
      reads this`secs, this`failed, this`fat, this`clus, this`nextFree, this`freeCount
    {
      && g.Wf() && (sound ==> !failed)
      && nextFree < U32 && freeCount < U32
      && SectorsOk(g, secs) && OthersKept(g, mounted, secs)
      && Table(fat, g.N())
      && ClustersOk(g, clus)
      && (!failed ==> FatAgrees(g, secs, fat) && ClusAgrees(g, secs, clus))
    }

    /** Live chains are acyclic, disjoint and end-marked, and are all that is in use. */
    ghost predicate ChainsOk()
      reads this`fat, this`book, this`failed
    {
      !failed ==> Wf(fat, g.N(), book)
    }

    /** The free count, where the volume has one, is the number of zero entries. */
    ghost predicate FreeExact()
      reads this`fat, this`freeKnown, this`freeCount
    {
      freeKnown ==> |fat| == g.N() && freeCount == FreeCount(fat, g.N())
    }

    predicate ClusOk(c: nat) {
      ValidClus(g.N(), c)
    }

    lemma Positive()
      requires Valid()
      ensures 0 < g.secPerClus && g.ClusBytes() < U32
    {
      SizeIsProduct(g.secPerClus, SECTOR);
    }

    // ----- Sector I/O -----

    /** The device's read of one sector; a device that has failed stays failed. */
    method ReadSec(lba: nat) returns (rc: int, buf: Bytes)
      requires Uniform(secs, SECTOR) && (sound ==> !failed)
      modifies this`failed
      ensures |buf| == SECTOR && (rc == 0 ==> lba < |secs| && buf == secs[lba] && !failed && !old(failed))
      ensures (rc != 0 ==> failed) && (sound && lba < |secs| ==> !failed)
    {
      var error := *;
      if error && !sound {
        failed := true;
      }
      if failed {
        return FAT32_ERR_IO, seq(SECTOR, _ => 0);
      }
      if lba >= |secs| {
        failed := true;
        return FAT32_ERR_IO, seq(SECTOR, _ => 0);
      }
      return 0, secs[lba];
    }

    /** The device's write of one sector; a failing write changes nothing. */
    method WriteSec(lba: nat, buf: Bytes) returns (rc: int)
      requires Uniform(secs, SECTOR) && |buf| == SECTOR && (sound ==> !failed)
      modifies this`failed, this`secs
      ensures rc == 0 ==> lba < |old(secs)| && secs == old(secs)[lba := buf] && !failed && !old(failed)
      ensures (rc != 0 ==> failed && secs == old(secs)) && (sound && lba < |secs| ==> !failed)
    {
      var error := *;
      if error && !sound {
        failed := true;
      }
      if failed {
        return FAT32_ERR_IO;
      }
      if lba >= |secs| {
        failed := true;
        return FAT32_ERR_IO;
      }
      secs := secs[lba := buf];
      return 0;
    }

    /** Reads sector s of cluster c. */
    method ReadClus(c: nat, s: nat) returns (rc: int, buf: Bytes)
      requires Valid() && ClusOk(c) && s < g.secPerClus
      modifies this`failed
      ensures Valid() && |buf| == SECTOR && (rc != 0 <==> failed)
      ensures !failed ==> rc == 0 && !old(failed) && buf == clus[c][s]
    {
      ClusLbaInside(g, c, s);
      rc, buf := ReadSec(g.ClusLba(c) + s);
      assert rc == 0 ==> buf == ClusSector(g, secs, c, s);
    }

    /** Writes sector s of cluster c. */
    method WriteClus(c: nat, s: nat, buf: Bytes) returns (rc: int)
      requires Valid() && ClusOk(c) && s < g.secPerClus && |buf| == SECTOR
      modifies this`failed, this`secs, this`clus
      ensures Valid() && (rc != 0 ==> failed) && (rc == 0 ==> failed == old(failed))
      ensures !failed ==> rc == 0 && !old(failed)
      ensures clus == old(clus)[c := old(clus)[c][s := buf]]
    {
      ghost var secs0, clus0 := secs, clus;
      ClusLbaInside(g, c, s);
      ClusLbaIsOurs(g, c, s);
      rc := WriteSec(g.ClusLba(c) + s, buf);
      clus := clus[c := clus[c][s := buf]];
      if !failed {
        PatchCluster(g, secs0, fat, clus0, c, s, buf);
      }
    }

    // ----- Table entries -----

    /** fat32_fat_get: the low 28 bits of the entry; an end mark if the device fails. */
    method FatGet(c: nat) returns (v: nat)
      requires Valid() && ClusOk(c)
      modifies this`failed
      ensures Valid() && v < FAT_LIMIT
      ensures !failed ==> !old(failed) && v == fat[c]
      ensures old(failed) ==> failed
    {
      FatLbaInside(g, 0, c);
      var rc, sec := ReadSec(g.FatLba(0, c));
      if rc != 0 {
        return EOC;
      }
      v := Get32(sec, g.FatOff(c)) % FAT_LIMIT;
      assert v == Word(g, secs, 0, c) % FAT_LIMIT;
    }

    /** One round of fat32_fat_set: read the sector, patch the word's low 28 bits, write it back. */
    method FatSetCopy(k: nat, c: nat, val: nat) returns (rc: int)
      requires g.Wf() && SectorsOk(g, secs) && ClusOk(c) && val < FAT_LIMIT && k < g.Copies() && (sound ==> !failed)
      requires OthersKept(g, mounted, secs)
      modifies this`failed, this`secs
      ensures SectorsOk(g, secs) && OthersKept(g, mounted, secs) && (rc != 0 ==> failed) && (sound ==> !failed)
      ensures rc == 0 ==> !failed && !old(failed) && secs == WithEntry(g, old(secs), k, c, val)
    {
      FatLbaInside(g, k, c);
      FatLbaIsOurs(g, k, c);
      var sec;
      rc, sec := ReadSec(g.FatLba(k, c));
      if rc != 0 {
        return;
      }
      var off := g.FatOff(c);
      rc := WriteSec(g.FatLba(k, c), Splice(sec, off, Put32(NewWord(Get32(sec, off), val))));
    }

    /** fat32_fat_set: the entry takes the value in every live copy of the table; nothing else changes. */
    method FatSet(c: nat, val: nat) returns (rc: int)
      requires Valid() && ClusOk(c) && val < FAT_LIMIT
      modifies this`failed, this`secs, this`fat
      ensures Valid() && (rc != 0 <==> failed) && (old(failed) ==> failed)
      ensures fat == old(fat)[c := val]
    {
      hide Word, ClusSector, WithEntry, Halfway, FatAgrees, ClusAgrees, OthersKept;
      ghost var secs0, fat0 := secs, fat;
      var k := 0;
      assert Halfway(g, secs0, secs0, c, val, 0) by {
        HalfwayStart(g, secs0, c, val);
      }
      fat := fat[c := val];
      while k < g.Copies()
        invariant 0 <= k <= g.Copies() && fat == fat0[c := val]
        invariant SectorsOk(g, secs) && OthersKept(g, mounted, secs) && Halfway(g, secs0, secs, c, val, k)
        invariant failed == old(failed) && (k > 0 ==> !failed)
      {
        ghost var was := secs;
        rc := FatSetCopy(k, c, val);
        if rc != 0 {
          return;
        }
        HalfwayNext(g, secs0, was, c, val, k);
        k := k + 1;
      }
      rc := 0;
      if !failed {
        HalfwayDone(g, secs0, secs, c, val, fat0, clus);
      }
    }

    // ----- FSInfo -----

    /** A valid FSInfo sector, if there is one, carries the counters in memory. */
    ghost predicate InfoSaved()
      reads this`secs, this`nextFree, this`freeCount, this`freeKnown
      requires g.Wf() && SectorsOk(g, secs)
    {
      var info := DecodeInfo(secs[g.base + g.fsInfoSec]);
      g.fsInfoSec != 0 && info.Info? ==> info.next == nextFree && (freeKnown ==> info.count == freeCount)
    }

    /** fat32_fs_info_write: the counters go to FSInfo and, from sector 1, to its backup. */
    method FsInfoWrite() returns (rc: int)
      requires Valid()
      modifies this`failed, this`secs
      ensures Valid() && (old(failed) ==> failed) && (!failed ==> InfoSaved())
      ensures g.base + g.fsInfoSec < |secs| && g.base + 7 < |secs| == |old(secs)|
      ensures !failed && g.fsInfoSec != 0 && DecodeInfo(secs[g.base + g.fsInfoSec]).Info? ==>
                Get32(secs[g.base + g.fsInfoSec], 492) == nextFree
      ensures !failed && g.fsInfoSec != 0 && DecodeInfo(secs[g.base + g.fsInfoSec]).Info? && freeKnown ==>
                Get32(secs[g.base + g.fsInfoSec], 488) == freeCount
      ensures !failed && g.fsInfoSec == 1 && DecodeInfo(secs[g.base + 1]).Info? ==> secs[g.base + 7] == secs[g.base + 1]
      ensures forall i: nat :: i < |secs| && i != g.base + g.fsInfoSec && i != g.base + 7 ==> secs[i] == old(secs)[i]
    {
      hide Word, ClusSector, FatAgrees, ClusAgrees, Get32, Put32, OthersKept;
      if g.fsInfoSec == 0 {
        return FAT32_OK;
      }
      var sec;
      rc, sec := ReadSec(g.base + g.fsInfoSec);
      if rc != 0 {
        return FAT32_ERR_IO;
      }
      if Get32(sec, 0) != INFO_SIG0 || Get32(sec, 484) != INFO_SIG1 {
        return FAT32_OK;
      }
      var sec' := WithInfo(sec, if freeKnown then Info(freeCount, nextFree) else Info(Get32(sec, INFO_COUNT), nextFree));
      rc := WriteInfoSec(g.fsInfoSec, sec');
      if rc != 0 {
        return FAT32_ERR_IO;
      }
      if g.fsInfoSec == 1 {
        var ignored := WriteInfoSec(7, sec');
      }
      return FAT32_OK;
    }

    /** A write into the reserved area. */
    method WriteInfoSec(r: nat, sec: Bytes) returns (rc: int)
      requires Valid() && r < g.reserved && |sec| == SECTOR && g.Writes(g.base + r)
      modifies this`failed, this`secs
      ensures Valid() && (rc != 0 ==> failed && secs == old(secs)) && (old(failed) ==> failed)
      ensures g.base + r < |old(secs)|
      ensures rc == 0 ==> secs == old(secs)[g.base + r := sec]
    {
      hide Word, ClusSector, FatAgrees, ClusAgrees;
      if !failed {
        PatchReserved(g, secs, fat, clus, r, sec);
      }
      rc := WriteSec(g.base + r, sec);
    }

    // ----- Clusters -----

    /** fat32_zero_cluster. */
    method ZeroCluster(c: nat) returns (rc: int)
      requires Valid() && ClusOk(c)
      modifies this`failed, this`secs, this`clus
      ensures Valid() && (rc != 0 ==> failed)
      ensures !failed ==> rc == 0 && !old(failed) && clus == old(clus)[c := ZeroSectors(g.secPerClus)]
    {
      hide FatAgrees, ClusAgrees, SectorsOk, OthersKept;
      var zero := seq(SECTOR, _ => 0);
      ghost var clus0 := clus;
      var i := 0;
      assert clus0[c] == ZeroSectors(0) + clus0[c][0..];
      while i < g.secPerClus
        invariant 0 <= i <= g.secPerClus && Valid() && failed == old(failed)
        invariant clus == clus0[c := ZeroSectors(i) + clus0[c][i..]]
      {
        rc := WriteClus(c, i, zero);
        if rc != 0 {
          return FAT32_ERR_IO;
        }
        ZeroNext(clus0[c], i, zero);
        i := i + 1;
      }
      assert ZeroSectors(i) + clus0[c][i..] == ZeroSectors(i);
      rc := FAT32_OK;
    }

    lemma ZeroNext(was: Cluster, i: nat, zero: Bytes)
      requires i < |was| && zero == seq(SECTOR, _ => 0)
      ensures (ZeroSectors(i) + was[i..])[i := zero] == ZeroSectors(i + 1) + was[i + 1..]
    {
    }

    // ----- Allocation -----

    /** A cluster found free becomes a zeroed one-cluster chain. */
    method TakeCluster(c: nat) returns (r: nat)
      requires Valid() && ChainsOk() && ClusOk(c) && (!failed ==> fat[c] == 0)
      modifies this
      ensures Valid() && ChainsOk() && (old(failed) ==> failed) && (r == 0 || r == c)
      ensures !failed ==> r == c && fat == old(fat)[c := EOC] && book == AllocBook(old(book), c)
      ensures !failed ==> clus == old(clus)[c := ZeroSectors(g.secPerClus)]
      ensures !failed ==> InfoSaved() && freeKnown == old(freeKnown) && nextFree == c + 1
      ensures !failed ==> freeCount == if freeKnown && old(freeCount) > 0 then old(freeCount) - 1 else old(freeCount)
    {
      hide SectorsOk, FatAgrees, ClusAgrees, ClustersOk, Wf, AllocBook, InfoSaved;
      ghost var fat0 := fat;
      if !failed {
        AllocKeeps(fat, g.N(), book, c);
      }
      var rc := FatSet(c, EOC);
      book := AllocBook(book, c);
      if rc != FAT32_OK {
        return 0;
      }
      rc := ZeroCluster(c);
      if rc != FAT32_OK {
        return 0;
      }
      nextFree := c + 1;
      if freeKnown && freeCount > 0 {
        freeCount := freeCount - 1;
      }
      rc := FsInfoWrite();
      return c;
    }

    /** One scan of the allocator for a zero entry. */
    method ScanFree(start: nat) returns (c: nat)
      requires Valid() && 2 <= start <= g.N()
      modifies this`failed
      ensures Valid() && start <= c <= g.N() && (old(failed) ==> failed)
      ensures !failed ==> c == FirstZero(fat, start)
    {
      hide SectorsOk, FatAgrees, ClusAgrees, ClustersOk;
      c := start;
      while c < g.N()
        invariant start <= c <= g.N() && Valid() && (old(failed) ==> failed)
        invariant !failed ==> FirstZero(fat, start) == FirstZero(fat, c)
      {
        var v := FatGet(c);
        if v == 0 {
          return;
        }
        c := c + 1;
      }
    }

    /** fat32_alloc_cluster: two scans, the first from the hint. */
    method AllocCluster() returns (r: nat)
      requires Valid() && ChainsOk()
      modifies this
      ensures Valid() && ChainsOk() && (old(failed) ==> failed) && (r == 0 || ClusOk(r))
      ensures !failed ==> r == PickFree(old(fat), old(nextFree)) && freeKnown == old(freeKnown)
      ensures !failed && r == 0 ==> Full(fat)
      ensures !failed && r != 0 ==> nextFree == r + 1
      ensures !failed && r == 0 ==> fat == old(fat) && book == old(book) && clus == old(clus) && freeCount == old(freeCount)
      ensures !failed && r != 0 ==> old(fat)[r] == 0 && r !in old(book).chains && r !in old(book).own
      ensures !failed && r != 0 ==> fat == old(fat)[r := EOC] && book == AllocBook(old(book), r)
      ensures !failed && r != 0 ==> clus == old(clus)[r := ZeroSectors(g.secPerClus)] && InfoSaved()
      ensures !failed && old(FreeExact()) ==> FreeExact()
    {
      hide SectorsOk, FatAgrees, ClusAgrees, ClustersOk, Wf, AllocBook, InfoSaved, FreeCount, FirstZero;
      var start := nextFree;
      if !ClusOk(start) {
        start := 2;
      }
      var c := ScanFree(start);
      if c == g.N() {
        c := ScanFree(2);
      }
      if !failed {
        PickFreeFinds(fat, nextFree);
      }
      if c == g.N() {
        return 0;
      }
      if !failed {
        AllocKeeps(fat, g.N(), book, c);
        FreeCountSet(fat, g.N(), c, EOC);
        FreeCountPositive(fat, g.N(), c);
      }
      r := TakeCluster(c);
    }

    /** The table write that hangs the one-cluster chain nc behind the last cluster of chain h. */
    method Link(ghost h: nat, last: nat, nc: nat) returns (rc: int)
      requires Valid() && ChainsOk() && ClusOk(last) && ClusOk(nc)
      requires !failed ==> h in book.chains && nc in book.chains && h != nc && book.chains[nc] == [nc]
      requires !failed ==> book.chains[h] != [] && last == Last(book.chains[h])
      modifies this`failed, this`secs, this`fat, this`book
      ensures Valid() && ChainsOk() && (rc != 0 <==> failed)
      ensures !failed ==> !old(failed) && book == LinkBook(old(book), h, nc)
      ensures !failed && old(FreeExact()) ==> FreeExact()
    {
      hide SectorsOk, FatAgrees, ClusAgrees, ClustersOk, Wf, LinkBook, FreeCount;
      if !failed {
        LinkKeeps(fat, g.N(), book, h, nc);
        EntryNonzero(fat, g.N(), book, h, |book.chains[h]| - 1);
        FreeCountSet(fat, g.N(), last, nc);
      }
      ghost var live := !failed;
      rc := FatSet(last, nc);
      if live {
        book := LinkBook(book, h, nc);
      }
    }

    /** fat32_free_chain: every entry of the chain becomes zero. */
    method FreeChain(first: nat)
      requires Valid() && ChainsOk() && (!failed ==> first in book.chains || !ClusOk(first))
      modifies this`failed, this`secs, this`fat, this`book, this`freeCount
      ensures Valid() && ChainsOk() && (old(failed) ==> failed)
      ensures !failed && ClusOk(first) ==> book == FreeBook(old(book), first)
      ensures !failed && ClusOk(first) ==> forall i :: 0 <= i < |old(book).chains[first]| ==> old(book).chains[first][i] < g.N()
      ensures !failed && ClusOk(first) ==> fat == Cleared(old(fat), old(book).chains[first], |old(book).chains[first]|)
      ensures !failed && !ClusOk(first) ==> fat == old(fat) && book == old(book)
      ensures !failed ==> InfoSaved()
      ensures !failed && old(FreeExact()) ==> FreeExact()
    {
      hide SectorsOk, FatAgrees, ClusAgrees, ClustersOk, Wf, FreeBook, Cleared, InfoSaved, FreeCount;
      ghost var fat0, ch: seq<nat>, live := fat, [], !failed && ClusOk(first);
      if live {
        ch := book.chains[first];
        FreeKeeps(fat, g.N(), book, first);
        ChainLength(fat, g.N(), book, first);
        HeadOf(fat, g.N(), book, first);
        ClearedNext(fat, ch, 0);
      }
      var c: nat, guard: nat := first, 0;
      while ClusOk(c) && guard <= g.clusterCount
        invariant Valid() && (old(failed) ==> failed) && book == old(book) && (live ==> first in book.chains)
        invariant !failed && !live ==> !ClusOk(c) && fat == fat0 && (old(FreeExact()) ==> FreeExact())
        invariant !failed && live ==> Wf(fat0, g.N(), book) && ClusOk(c) && guard < |ch| && c == ch[guard] && ch == book.chains[first]
        invariant !failed && live ==> |fat| == |fat0| && fat == Cleared(fat0, ch, guard) && (old(FreeExact()) ==> FreeExact())
        decreases g.clusterCount + 1 - guard
      {
        if !failed {
          ClearedLink(fat0, g.N(), book, first, guard);
          ClearedNext(fat0, ch, guard);
          FreeCountSet(fat, g.N(), c, 0);
          FreeCountBound(fat[c := 0], g.N());
        }
        var next := FatGet(c);
        var rc := FatSet(c, 0);
        if rc != FAT32_OK {
          return;
        }
        if freeKnown {
          freeCount := (freeCount + 1) % U32;
        }
        guard := guard + 1;
        if next < 2 || next > g.clusterCount + 1 {
          break;
        }
        c := next;
      }
      if live {
        book := FreeBook(book, first);
      }
      var ignored := FsInfoWrite();
    }
  }

  ghost function ZeroSectors(n: nat): (r: seq<Bytes>)
    ensures |r| == n && Uniform(r, SECTOR)
  {
    seq(n, _ => Zeros(SECTOR))
  }

  /** An FSInfo sector with its two counters replaced. */
  function WithInfo(sec: Bytes, info: Info): (r: Bytes)
    requires |sec| == SECTOR && info.Info? && info.count < U32 && info.next < U32
    requires DecodeInfo(sec).Info?
    ensures |r| == SECTOR && DecodeInfo(r) == info && r[..INFO_COUNT] == sec[..INFO_COUNT] && r[496..] == sec[496..]
  {
    var r1 := Splice(sec, INFO_COUNT, Put32(info.count));
    var r2 := Splice(r1, INFO_NEXT, Put32(info.next));
    assert DecodeInfo(r2) == info by {
      hide Get32, Put32, Splice;
      Put32Get(sec, INFO_COUNT, info.count);
      Put32Get(r1, INFO_NEXT, info.next);
      Get32Outside(r1, INFO_NEXT, Put32(info.next), INFO_COUNT);
      Get32Outside(r1, INFO_NEXT, Put32(info.next), 0);
      Get32Outside(r1, INFO_NEXT, Put32(info.next), 484);
      Get32Outside(sec, INFO_COUNT, Put32(info.count), 0);
      Get32Outside(sec, INFO_COUNT, Put32(info.count), 484);
    }
    r2
  }
}
