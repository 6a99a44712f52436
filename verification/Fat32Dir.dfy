/**
 Directory operations: looking names up, choosing a short name, finding slots,
 growing and inserting (src/kernel/fs/fat32.c:612-693, 789-931, 1002-1216).
 */
module Fat32Dir {
  import opened Errors
  import opened FlatBytes
  import opened LittleEndian
  import opened FatMap
  import opened Fat32Layout
  import opened Fat32Data
  import opened Fat32Volume
  import opened Fat32Chain
  import opened Fat32Slots
  import opened Fat32File
  import opened Fat32Names
  import opened Fat32Scan
  import opened Fat32Visible

  /** The slots of the live directory that starts at d. */
  ghost function DirSlots(sb: Volume, d: nat): seq<Slot>
    reads sb`book, sb`clus
  {
    Slots(ChainBytes(sb.book, sb.clus, d))
  }

  /** A live directory of less than 2^32 bytes. */
  ghost predicate LiveDir(sb: Volume, d: nat)
    reads sb`book, sb`clus, sb`failed
  {
    d < U32 && (!sb.failed ==> sb.ClusOk(d) && d in sb.book.chains && |ChainBytes(sb.book, sb.clus, d)| < U32)
  }

  lemma ChainOfDir(ch: Chain)
    requires ch.Good() && !ch.sb.failed && LiveDir(ch.sb, ch.start)
    ensures ch.Content() == ChainBytes(ch.sb.book, ch.sb.clus, ch.start)
    ensures SLOT * |Slots(ch.Content())| == |ch.Content()| < U32
  {
    hide Wf, Slots, Volume.Valid;
    WholeSlots(ch);
  }

  /** fat32_dir_lookup; junk is what its uninitialised record buffer holds. */
  method DirLookup(sb: Volume, d: nat, name: Bytes, junk: seq<nat>) returns (rc: int, found: Found)
    requires sb.Valid() && sb.ChainsOk() && LiveDir(sb, d) && |junk| == UNITS * LFN_MAX
    modifies sb`failed
    ensures sb.Valid() && sb.ChainsOk() && (old(sb.failed) ==> sb.failed)
    ensures !sb.failed ==> rc == FAT32_OK && found == Find(Shown(DirSlots(sb, d), junk), name)
  {
    hide Wf, Slots, Entries, Display, Step, KindOf, ChainBytes, Volume.Valid, Chain.Content, Chain.Cursor;
    var ch := new Chain(sb, d);
    ghost var slots := DirSlots(sb, d);
    if !sb.failed {
      ChainOfDir(ch);
    }
    var st := Scan(false, 0, 0, 0, junk);
    var idx := 0;
    found := Missing;
    while true
      invariant ch.Good() && ch.start == d && ch.sb == sb && st.Ok() && (idx > 0 ==> !sb.failed) && (old(sb.failed) ==> sb.failed)
      invariant idx * SLOT < U32 && (!sb.failed ==> idx <= |slots| && SLOT * |slots| < U32 && slots == Slots(ch.Content()))
      invariant !sb.failed ==> Find(Shown(slots, junk), name) == Find(Entries(slots, idx, st), name) && slots == DirSlots(sb, d)
      invariant found == Missing
      decreases if sb.failed then 0 else |slots| - idx + 1
    {
      var e;
      rc, e := EntRead(ch, idx);
      if !sb.failed {
        ScanOn(slots, idx, st, name);
      }
      if rc == FAT32_ERR_EOF {
        break;
      }
      if rc != FAT32_OK {
        return;
      }
      if KindOf(e) == End {
        break;
      }
      var off := idx * SLOT % U32;
      if KindOf(e) == Record {
        st := TakeRecord(st, e, off);
      } else if KindOf(e) == Entry {
        var disp := DisplayOf(st, e);
        var eq := NameEqual(disp, name);
        if eq {
          found := Hit(LocOf(st, e, off));
          return FAT32_OK, found;
        }
        st := st.Off();
      } else {
        st := st.Off();
      }
      idx := idx + 1;
    }
    rc := FAT32_OK;
  }

  lemma NothingLeft(slots: seq<Slot>, idx: nat, st: Scan)
    requires idx <= |slots| && st.Ok()
    ensures idx == |slots| || KindOf(slots[idx]) == End ==> Entries(slots, idx, st) == []
  {
  }

  /** What one slot does to the rest of a lookup. */
  lemma ScanOn(slots: seq<Slot>, idx: nat, st: Scan, name: Bytes)
    requires idx <= |slots| && st.Ok()
    ensures idx == |slots| ==> Find(Entries(slots, idx, st), name) == Missing
    ensures idx < |slots| && KindOf(slots[idx]) == End ==> Find(Entries(slots, idx, st), name) == Missing
    ensures idx < |slots| && KindOf(slots[idx]) == Record ==>
              Find(Entries(slots, idx, st), name) == Find(Entries(slots, idx + 1, Step(st, slots[idx], idx * SLOT)), name)
    ensures idx < |slots| && (KindOf(slots[idx]) == Deleted || KindOf(slots[idx]) == Label) ==>
              Find(Entries(slots, idx, st), name) == Find(Entries(slots, idx + 1, st.Off()), name)
    ensures idx < |slots| && KindOf(slots[idx]) == Entry ==>
              Find(Entries(slots, idx, st), name)
              == if NameEq(Display(st, slots[idx]), name) then Hit(LocOf(st, slots[idx], idx * SLOT))
                 else Find(Entries(slots, idx + 1, st.Off()), name)
  {
    hide KindOf, OnRecord, Display, Entries;
    NothingLeft(slots, idx, st);
    if idx < |slots| && KindOf(slots[idx]) != End {
      StepEntries(slots, idx, st);
      assert [] + Entries(slots, idx + 1, Step(st, slots[idx], idx * SLOT)) == Entries(slots, idx + 1, Step(st, slots[idx], idx * SLOT));
      var rest := Entries(slots, idx + 1, Step(st, slots[idx], idx * SLOT));
      assert [LocOf(st, slots[idx], idx * SLOT)] + rest != [] && ([LocOf(st, slots[idx], idx * SLOT)] + rest)[1..] == rest;
    }
  }

  /** The lookup's handling of one long-name record. */
  method TakeRecord(st: Scan, e: Slot, off: nat) returns (r: Scan)
    requires st.Ok() && KindOf(e) == Record
    ensures r == Step(st, e, off)
  {
    var on, max, start, sum, units := st.on, st.max, st.start, st.sum, st.units;
    var n := e[0] as nat % 32;
    if !on {
      on, max, start := true, 0, off;
    }
    if n >= 1 && n <= LFN_MAX {
      units := LfnStore(units, n, e);
      if n > max {
        max := n;
      }
      sum := e[13];
    }
    r := Scan(on, max, start, sum, units);
  }

  /** The display name the lookup compares. */
  method DisplayOf(st: Scan, e: Slot) returns (disp: Bytes)
    requires st.Ok()
    ensures disp == Display(st, e)
  {
    var sum := ComputeSum(e);
    if st.on && st.max > 0 && sum == st.sum {
      disp := LfnNameOf(st.units, st.max);
    } else {
      disp := ShortName(e);
    }
    disp := CStr(disp);
  }

  /** fat32_short_exists. */
  method ShortExists(sb: Volume, d: nat, raw: Bytes) returns (found: bool)
    requires sb.Valid() && sb.ChainsOk() && LiveDir(sb, d) && |raw| == 11
    modifies sb`failed
    ensures sb.Valid() && sb.ChainsOk() && (old(sb.failed) ==> sb.failed)
    ensures !sb.failed ==> found == HasShort(DirSlots(sb, d), raw)
  {
    hide Wf, Slots, KindOf, ChainBytes, Volume.Valid, Chain.Content, Chain.Cursor;
    var ch := new Chain(sb, d);
    ghost var slots := DirSlots(sb, d);
    if !sb.failed {
      ChainOfDir(ch);
    }
    var idx := 0;
    while true
      invariant ch.Good() && ch.start == d && ch.sb == sb && (idx > 0 ==> !sb.failed) && (old(sb.failed) ==> sb.failed)
      invariant idx * SLOT < U32 && (!sb.failed ==> idx <= |slots| && SLOT * |slots| < U32 && slots == Slots(ch.Content()))
      invariant !sb.failed ==> slots == DirSlots(sb, d) && Open(slots, 0, idx)
      invariant !sb.failed ==> forall i: nat :: i < idx && LiveShort(slots, i) ==> RawOf(slots[i]) != raw
      decreases if sb.failed then 0 else |slots| - idx + 1
    {
      var rc, e := EntRead(ch, idx);
      if rc == FAT32_ERR_EOF {
        return false;
      }
      if rc != FAT32_OK {
        return false;
      }
      if KindOf(e) == End {
        return false;
      }
      if KindOf(e) != Deleted && e[11] != ATTR_LFN && RawOf(e) == raw {
        assert LiveShort(slots, idx);
        return true;
      }
      idx := idx + 1;
    }
  }

  /** The run slots before i are deleted ones, the one before them is not, and no run of need of them ends by i. */
  ghost predicate RunSo(slots: seq<Slot>, need: nat, i: nat, run: nat) {
    && run <= i <= |slots| && (forall j :: i - run <= j < i ==> KindOf(slots[j]) == Deleted)
    && (run < i ==> KindOf(slots[i - run - 1]) != Deleted)
    && forall j: nat :: j + need <= i ==> !FreeRun(slots, j, need)
  }

  lemma RunNone(slots: seq<Slot>, need: nat)
    requires 0 < need
    ensures RunSo(slots, need, 0, 0)
  {
  }

  /** Where the slots end, or the first end mark stands, no run came before. */
  lemma RunEnds(slots: seq<Slot>, need: nat, i: nat, run: nat)
    requires RunSo(slots, need, i, run) && run < need
    ensures i == |slots| ==> PlaceOf(slots, need, i, true)
    ensures i < |slots| && KindOf(slots[i]) == End ==> PlaceOf(slots, need, i, |slots| - i < need)
  {
    hide KindOf;
    forall j: nat | j < i && FreeRun(slots, j, need)
      ensures i < |slots| && KindOf(slots[i]) != End
    {
      assert KindOf(slots[j]) == Deleted;
    }
  }

  lemma Broken(slots: seq<Slot>, j: nat, need: nat, k: nat)
    requires j <= k < |slots| && KindOf(slots[k]) != Deleted
    ensures FreeRun(slots, j, need) ==> j + need <= k
  {
  }

  lemma RunGoesOn(slots: seq<Slot>, need: nat, i: nat, run: nat)
    requires RunSo(slots, need, i, run) && run < need && i < |slots|
    ensures KindOf(slots[i]) == Deleted && run + 1 < need ==> RunSo(slots, need, i + 1, run + 1)
    ensures KindOf(slots[i]) == Deleted && run + 1 == need ==> PlaceOf(slots, need, i - run, false)
    ensures KindOf(slots[i]) != Deleted ==> RunSo(slots, need, i + 1, 0)
  {
    hide KindOf;
    forall j: nat | j + need == i + 1
      ensures FreeRun(slots, j, need) ==> KindOf(slots[i]) == Deleted && run + 1 >= need
    {
      if j + run < i {
        Broken(slots, j, need, i - run - 1);
      }
    }
    if KindOf(slots[i]) == Deleted && run + 1 == need {
      forall j: nat | j + run < i
        ensures !FreeRun(slots, j, need)
      {
        Broken(slots, j, need, i - run - 1);
      }
    }
  }

  /** fat32_find_slots: deleted slots in a row, the end mark, or the end of the chain. */
  method FindSlots(ch: Chain, need: nat) returns (rc: int, idx: nat, grow: bool)
    requires ch.Good() && LiveDir(ch.sb, ch.start) && 0 < need
    modifies ch`cacheClus, ch`cacheIndex, ch`cacheOk, ch.sb`failed
    ensures ch.Good() && (old(ch.sb.failed) ==> ch.sb.failed)
    ensures !ch.sb.failed ==> rc == FAT32_OK && idx <= |Slots(ch.Content())| && Open(Slots(ch.Content()), 0, idx)
    ensures !ch.sb.failed ==> PlaceOf(Slots(ch.Content()), need, idx, grow)
  {
    hide Wf, Slots, KindOf, ChainBytes, Volume.Valid, Chain.Content, Chain.Cursor, RunSo, PlaceOf, FreeRun;
    ghost var slots := Slots(ch.Content());
    RunNone(slots, need);
    var n := ch.Count();
    var total := Size(n, ch.sb.g.ClusBytes()) % U32;
    if !ch.sb.failed {
      ChainOfDir(ch);
      ch.Shape();
      assert total == SLOT * |slots|;
    }
    var run, runStart: nat, i: nat := 0, 0, 0;
    while true
      invariant ch.Good() && (i > 0 ==> !ch.sb.failed) && (old(ch.sb.failed) ==> ch.sb.failed)
      invariant i * SLOT < U32 && (!ch.sb.failed ==> i <= |slots| && total == SLOT * |slots| < U32 && slots == Slots(ch.Content()))
      invariant !ch.sb.failed ==> Open(slots, 0, i) && 0 <= run < need && (run > 0 ==> runStart + run == i)
      invariant !ch.sb.failed ==> RunSo(slots, need, i, run)
      decreases if ch.sb.failed then 0 else |slots| - i + 1
    {
      var byteoff := i * SLOT % U32;
      if !ch.sb.failed {
        RunEnds(slots, need, i, run);
      }
      if byteoff >= total {
        return FAT32_OK, i, true;
      }
      var e;
      rc, e := EntRead(ch, i);
      if rc == FAT32_ERR_EOF {
        return FAT32_OK, i, true;
      }
      if rc != FAT32_OK {
        return rc, 0, false;
      }
      RunGoesOn(slots, need, i, run);
      if KindOf(e) == End {
        return FAT32_OK, i, total - byteoff < need * SLOT;
      }
      if KindOf(e) == Deleted {
        if run == 0 {
          runStart := i;
        }
        run := run + 1;
        if run >= need {
          return FAT32_OK, runStart, false;
        }
      } else {
        run := 0;
      }
      i := i + 1;
    }
  }

  /** fat32_dir_grow: one zeroed cluster more at the end of the directory. */
  method DirGrow(ch: Chain) returns (rc: int, total: nat)
    requires ch.Good() && LiveDir(ch.sb, ch.start)
    modifies ch, ch.sb
    ensures ch.Good() && ch.start == old(ch.start) && (old(ch.sb.failed) ==> ch.sb.failed) && rc <= 0
    ensures (rc == FAT32_OK ==> !ch.sb.failed) && (!ch.sb.failed ==> rc == FAT32_OK || rc == VFS_ERR_NOSPC)
    ensures !ch.sb.failed && rc == FAT32_OK ==> ch.Content() == old(ch.Content()) + Zeros(ch.sb.g.ClusBytes())
    ensures !ch.sb.failed && rc == FAT32_OK ==> total == |ch.Content()| % U32
    ensures !ch.sb.failed && rc != FAT32_OK ==> ch.Content() == old(ch.Content())
    ensures !ch.sb.failed ==> Kept(old(ch.sb.book), old(ch.sb.clus), ch.sb.book, ch.sb.clus, ch.start)
    ensures !ch.sb.failed && old(ch.sb.FreeExact()) ==> ch.sb.FreeExact()
    ensures !ch.sb.failed && rc != FAT32_OK ==> Full(ch.sb.fat)
  {
    hide Wf, SectorsOk, FatAgrees, ClusAgrees, Table, FreeCount, PickFree, DataOf, Kept, Size, ChainBytes, Chain.Content;
    ghost var sb, fat0, book0, clus0, ch0, start := ch.sb, ch.sb.fat, ch.sb.book, ch.sb.clus, ch.Clusters(), ch.start;
    total := 0;
    var n := ch.Count();
    if !ch.sb.failed {
      HeadOf(sb.fat, sb.g.N(), sb.book, start);
      ch.Shape();
      SameContent(ch, ch0, clus0);
    }
    var last := ch.At((n + U32 - 1) % U32);
    if !ch.sb.ClusOk(last) {
      return FAT32_ERR_IO, total;
    }
    KeptSame(book0, clus0, start);
    var nc := ch.sb.AllocCluster();
    if !ch.sb.ClusOk(nc) {
      if !sb.failed {
        SameContent(ch, ch0, clus0);
      }
      return VFS_ERR_NOSPC, total;
    }
    if !sb.failed {
      GrowData(fat0, sb.g.N(), book0, clus0, start, ch0, nc, sb.g.secPerClus);
      KeptLink(fat0, sb.g.N(), book0, clus0, start, nc, ZeroSectors(sb.g.secPerClus));
    }
    rc := Hang(ch, last, nc);
    total := Size(n + 1, ch.sb.g.ClusBytes()) % U32;
    if !sb.failed {
      ch.Shape();
      SameContent(ch, ch0 + [nc], sb.clus);
    }
  }

  /** The end of fat32_dir_grow: the new cluster is linked and the cursor cache dropped. */
  method Hang(ch: Chain, last: nat, nc: nat) returns (rc: int)
    requires ch.Good() && ch.sb.ClusOk(last) && ch.sb.ClusOk(nc)
    requires !ch.sb.failed ==> ch.sb.ClusOk(ch.start) && nc in ch.sb.book.chains && ch.sb.book.chains[nc] == [nc] && ch.start != nc
    requires !ch.sb.failed ==> ch.Clusters() != [] && last == Last(ch.Clusters())
    modifies ch`cacheOk, ch.sb`failed, ch.sb`secs, ch.sb`fat, ch.sb`book
    ensures ch.Good() && (old(ch.sb.failed) ==> ch.sb.failed) && (rc == FAT32_OK || rc == FAT32_ERR_IO)
    ensures rc == FAT32_OK ==> !ch.sb.failed
    ensures !ch.sb.failed ==> rc == FAT32_OK && ch.Clusters() == old(ch.Clusters()) + [nc]
    ensures !ch.sb.failed ==> ch.start in old(ch.sb.book).chains && ch.sb.book == LinkBook(old(ch.sb.book), ch.start, nc)
    ensures !ch.sb.failed && old(ch.sb.FreeExact()) ==> ch.sb.FreeExact()
  {
    hide Wf, SectorsOk, FatAgrees, ClusAgrees, ClustersOk, Table, FreeCount;
    rc := ch.sb.Link(ch.start, last, nc);
    ch.cacheOk := false;
    if rc != FAT32_OK {
      return FAT32_ERR_IO;
    }
  }

  lemma SameContent(ch: Chain, clusters: seq<nat>, clus: seq<Cluster>)
    requires ch.Good() && ch.Clusters() == clusters && ch.sb.clus == clus && InTable(clus, clusters)
    ensures ch.Content() == DataOf(clus, clusters)
  {
  }
}
