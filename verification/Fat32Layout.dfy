/**
 Where a FAT32 volume keeps its table and its clusters, and why no two of
 these places overlap (src/kernel/fs/fat32.c:141-189, 1320-1340).
 */
module Fat32Layout {
  import opened Errors
  import opened FlatBytes
  import opened LittleEndian
  import opened FatMap

  const SECTOR := 512
  const PER_SECTOR := 128

  /** The fields fat32_mount takes from the boot sector. */
  datatype Geometry = Geometry(base: nat, secPerClus: nat, reserved: nat, numFats: nat, fatSecs: nat,
                               fsInfoSec: nat, activeFat: nat, mirror: bool, clusterCount: nat)
  {
    /**
     What the driver takes for granted: a table with room for every cluster,
     numbers below the end marks, a backup FSInfo sector in the reserved area
     and sector numbers that fit 32 bits.
     */
    ghost predicate Wf() {
      && 0 < secPerClus < 0x100 && activeFat < numFats
      && fsInfoSec < reserved && 7 < reserved
      && 2 <= N() <= BAD && N() <= PER_SECTOR * fatSecs
      && DataStart() + Size(clusterCount, secPerClus) < U32
    }

    /** One past the highest cluster number. */
    function N(): nat {
      clusterCount + 2
    }

    function DataStart(): nat {
      reserved + Size(numFats, fatSecs)
    }

    function Copies(): nat {
      if mirror then numFats else 1
    }

    function CopyIndex(k: nat): nat {
      if mirror then k else activeFat
    }

    /** The sector of copy k of the table that holds the entry of cluster c. */
    function FatLba(k: nat, c: nat): nat {
      base + (reserved + Size(CopyIndex(k), fatSecs) + c * 4 / SECTOR)
    }

    function FatOff(c: nat): nat {
      c * 4 % SECTOR
    }

    /** The first sector of cluster c. */
    function ClusLba(c: nat): nat
      requires 2 <= c
    {
      base + (DataStart() + Size(c - 2, secPerClus))
    }

    function ClusBytes(): nat {
      Size(secPerClus, SECTOR)
    }

    function Sectors(): nat {
      base + (DataStart() + Size(clusterCount, secPerClus))
    }

    /** The sectors that are the driver's to write: FSInfo and its backup, the live tables, the clusters. */
    predicate Writes(i: nat) {
      || (fsInfoSec != 0 && i == base + fsInfoSec) || (fsInfoSec == 1 && i == base + 7)
      || (if mirror then base + reserved <= i < base + DataStart()
          else base + reserved + Size(activeFat, fatSecs) <= i < base + reserved + Size(activeFat, fatSecs) + fatSecs)
      || base + DataStart() <= i < Sectors()
    }
  }

  /** The boot sector, the other reserved sectors, dead tables and whatever lies outside the volume are as they were. */
  ghost predicate OthersKept(g: Geometry, secs0: seq<Bytes>, secs: seq<Bytes>) {
    |secs| == |secs0| && forall i: nat :: i < |secs| && !g.Writes(i) ==> secs[i] == secs0[i]
  }

  lemma FatLbaIsOurs(g: Geometry, k: nat, c: nat)
    requires g.Wf() && k < g.Copies() && c < g.N()
    ensures g.Writes(g.FatLba(k, c))
  {
    FatLbaInside(g, k, c);
    assert c * 4 / SECTOR < g.fatSecs;
  }

  lemma ClusLbaIsOurs(g: Geometry, c: nat, s: nat)
    requires g.Wf() && ValidClus(g.N(), c) && s < g.secPerClus
    ensures g.Writes(g.ClusLba(c) + s)
  {
    ClusLbaInside(g, c, s);
  }

  lemma FatLbaInside(g: Geometry, k: nat, c: nat)
    requires g.Wf() && k < g.Copies() && c < g.N()
    ensures g.base + g.reserved <= g.FatLba(k, c) < g.base + g.DataStart() <= g.Sectors()
    ensures g.FatOff(c) + 4 <= SECTOR
  {
    SizeMono(g.CopyIndex(k), g.numFats, g.fatSecs);
  }

  lemma FatLbaDistinct(g: Geometry, k: nat, c: nat, k': nat, c': nat)
    requires g.Wf() && k < g.Copies() && c < g.N() && k' < g.Copies() && c' < g.N()
    requires g.FatLba(k, c) == g.FatLba(k', c')
    ensures k == k' && (c != c' ==> g.FatOff(c') + 4 <= g.FatOff(c) || g.FatOff(c) + 4 <= g.FatOff(c'))
  {
    var i, i' := g.CopyIndex(k), g.CopyIndex(k');
    if i < i' {
      SizeMono(i, i', g.fatSecs);
    } else if i' < i {
      SizeMono(i', i, g.fatSecs);
    }
  }

  lemma ClusLbaInside(g: Geometry, c: nat, s: nat)
    requires g.Wf() && ValidClus(g.N(), c) && s < g.secPerClus
    ensures g.base + g.DataStart() <= g.ClusLba(c) + s < g.Sectors()
  {
    SizeMono(c - 2, g.clusterCount, g.secPerClus);
  }

  /** Distinct clusters have disjoint sector ranges. */
  lemma ClusLbaDistinct(g: Geometry, c: nat, s: nat, c': nat, s': nat)
    requires g.Wf() && ValidClus(g.N(), c) && s < g.secPerClus && ValidClus(g.N(), c') && s' < g.secPerClus
    requires g.ClusLba(c) + s == g.ClusLba(c') + s'
    ensures c == c' && s == s'
  {
    if c < c' {
      SizeMono(c - 2, c' - 2, g.secPerClus);
    } else if c' < c {
      SizeMono(c' - 2, c - 2, g.secPerClus);
    }
  }

  // ----- The device sectors and the table and clusters they encode -----

  type Sector = seq<Byte>
  type Cluster = seq<Bytes>

  ghost predicate SectorsOk(g: Geometry, secs: seq<Bytes>) {
    Uniform(secs, SECTOR) && g.Sectors() <= |secs|
  }

  /** The whole word of an entry; its top four bits are not the table's. */
  ghost function Word(g: Geometry, secs: seq<Bytes>, k: nat, c: nat): nat
    requires g.Wf() && SectorsOk(g, secs) && k < g.Copies() && c < g.N()
  {
    FatLbaInside(g, k, c);
    Get32(secs[g.FatLba(k, c)], g.FatOff(c))
  }

  ghost predicate FatAgrees(g: Geometry, secs: seq<Bytes>, fat: Fat)
    requires g.Wf() && SectorsOk(g, secs)
  {
    |fat| == g.N() && forall k: nat, c: nat :: k < g.Copies() && c < g.N() ==> Word(g, secs, k, c) % FAT_LIMIT == fat[c]
  }

  ghost predicate ClustersOk(g: Geometry, clus: seq<Cluster>) {
    |clus| == g.N() && forall c :: 0 <= c < |clus| ==> |clus[c]| == g.secPerClus && Uniform(clus[c], SECTOR)
  }

  ghost predicate ClusAgrees(g: Geometry, secs: seq<Bytes>, clus: seq<Cluster>)
    requires g.Wf() && SectorsOk(g, secs)
  {
    ClustersOk(g, clus) &&
    forall c: nat, s: nat :: ValidClus(g.N(), c) && s < g.secPerClus ==> ClusSector(g, secs, c, s) == clus[c][s]
  }

  ghost function ClusSector(g: Geometry, secs: seq<Bytes>, c: nat, s: nat): Bytes
    requires g.Wf() && SectorsOk(g, secs) && ValidClus(g.N(), c) && s < g.secPerClus
  {
    ClusLbaInside(g, c, s);
    secs[g.ClusLba(c) + s]
  }

  /** fat32_fat_set's new word: the entry's value under the old top four bits. */
  function NewWord(old': nat, val: nat): (w: nat)
    requires old' < U32
    ensures w < U32 && w % FAT_LIMIT == val % FAT_LIMIT && w / FAT_LIMIT == old' / FAT_LIMIT
  {
    old' / FAT_LIMIT * FAT_LIMIT + val % FAT_LIMIT
  }

  /** The sectors after fat32_fat_set wrote one copy of one entry. */
  ghost function WithEntry(g: Geometry, secs: seq<Bytes>, k: nat, c: nat, val: nat): (r: seq<Bytes>)
    requires g.Wf() && SectorsOk(g, secs) && k < g.Copies() && c < g.N()
    ensures SectorsOk(g, r)
  {
    FatLbaInside(g, k, c);
    secs[g.FatLba(k, c) := Splice(secs[g.FatLba(k, c)], g.FatOff(c), Put32(NewWord(Word(g, secs, k, c), val)))]
  }

  /** Writing one entry of one copy changes that word's low 28 bits and nothing else. */
  lemma PatchEntry(g: Geometry, secs: seq<Bytes>, k: nat, c: nat, val: nat)
    requires g.Wf() && SectorsOk(g, secs) && k < g.Copies() && c < g.N()
    ensures var secs' := WithEntry(g, secs, k, c, val);
            && Word(g, secs', k, c) == NewWord(Word(g, secs, k, c), val)
            && (forall k': nat, c': nat :: k' < g.Copies() && c' < g.N() && (k', c') != (k, c) ==>
                Word(g, secs', k', c') == Word(g, secs, k', c'))
            && (forall c': nat, s: nat :: ValidClus(g.N(), c') && s < g.secPerClus ==>
                ClusSector(g, secs', c', s) == ClusSector(g, secs, c', s))
  {
    FatLbaInside(g, k, c);
    var at, off := g.FatLba(k, c), g.FatOff(c);
    var word := Put32(NewWord(Word(g, secs, k, c), val));
    Put32Get(secs[at], off, NewWord(Word(g, secs, k, c), val));
    var secs' := secs[at := Splice(secs[at], off, word)];
    forall k': nat, c': nat | k' < g.Copies() && c' < g.N() && (k', c') != (k, c)
      ensures Word(g, secs', k', c') == Word(g, secs, k', c')
    {
      FatLbaInside(g, k', c');
      if g.FatLba(k', c') == at {
        FatLbaDistinct(g, k, c, k', c');
        Get32Outside(secs[at], off, word, g.FatOff(c'));
      }
    }
    forall c': nat, s: nat | ValidClus(g.N(), c') && s < g.secPerClus
      ensures ClusSector(g, secs', c', s) == ClusSector(g, secs, c', s)
    {
      ClusLbaInside(g, c', s);
    }
  }

  /** fat32_fat_set has written the first k copies of the entry of c, and nothing else. */
  ghost predicate Halfway(g: Geometry, secs0: seq<Bytes>, secs: seq<Bytes>, c: nat, val: nat, k: nat)
    requires g.Wf() && SectorsOk(g, secs0) && SectorsOk(g, secs) && c < g.N()
  {
    && (forall j: nat, d: nat :: j < g.Copies() && d < g.N() ==>
          Word(g, secs, j, d) == if j < k && d == c then NewWord(Word(g, secs0, j, d), val) else Word(g, secs0, j, d))
    && (forall d: nat, s: nat :: ValidClus(g.N(), d) && s < g.secPerClus ==> ClusSector(g, secs, d, s) == ClusSector(g, secs0, d, s))
  }

  lemma HalfwayStart(g: Geometry, secs: seq<Bytes>, c: nat, val: nat)
    requires g.Wf() && SectorsOk(g, secs) && c < g.N()
    ensures Halfway(g, secs, secs, c, val, 0)
  {
  }

  lemma HalfwayNext(g: Geometry, secs0: seq<Bytes>, secs: seq<Bytes>, c: nat, val: nat, k: nat)
    requires g.Wf() && SectorsOk(g, secs0) && SectorsOk(g, secs) && c < g.N() && k < g.Copies()
    requires Halfway(g, secs0, secs, c, val, k)
    ensures Halfway(g, secs0, WithEntry(g, secs, k, c, val), c, val, k + 1)
  {
    hide Word, ClusSector, WithEntry, SectorsOk, Geometry.Wf;
    PatchEntry(g, secs, k, c, val);
  }

  lemma HalfwayDone(g: Geometry, secs0: seq<Bytes>, secs: seq<Bytes>, c: nat, val: nat, fat: Fat, clus: seq<Cluster>)
    requires g.Wf() && SectorsOk(g, secs0) && SectorsOk(g, secs) && c < g.N() && val < FAT_LIMIT
    requires Halfway(g, secs0, secs, c, val, g.Copies()) && FatAgrees(g, secs0, fat) && ClusAgrees(g, secs0, clus)
    ensures FatAgrees(g, secs, fat[c := val]) && ClusAgrees(g, secs, clus)
  {
    hide Word, ClusSector, SectorsOk, Geometry.Wf;
  }

  /** Writing one sector of a cluster changes that sector and nothing else. */
  lemma PatchCluster(g: Geometry, secs: seq<Bytes>, fat: Fat, clus: seq<Cluster>, c: nat, s: nat, buf: Bytes)
    requires g.Wf() && SectorsOk(g, secs) && FatAgrees(g, secs, fat) && ClusAgrees(g, secs, clus)
    requires ValidClus(g.N(), c) && s < g.secPerClus && |buf| == SECTOR
    ensures g.ClusLba(c) + s < |secs|
    ensures var secs' := secs[g.ClusLba(c) + s := buf];
            && SectorsOk(g, secs') && FatAgrees(g, secs', fat)
            && ClusAgrees(g, secs', clus[c := clus[c][s := buf]])
  {
    ClusLbaInside(g, c, s);
    var at := g.ClusLba(c) + s;
    var secs', clus' := secs[at := buf], clus[c := clus[c][s := buf]];
    forall k: nat, d: nat | k < g.Copies() && d < g.N()
      ensures Word(g, secs', k, d) == Word(g, secs, k, d)
    {
      FatLbaInside(g, k, d);
    }
    forall d: nat, t: nat | ValidClus(g.N(), d) && t < g.secPerClus
      ensures ClusSector(g, secs', d, t) == clus'[d][t]
    {
      ClusLbaInside(g, d, t);
      if g.ClusLba(d) + t == at {
        ClusLbaDistinct(g, c, s, d, t);
      }
      assert ClusSector(g, secs, d, t) == clus[d][t];
    }
  }

  /** The reserved sectors hold neither table nor clusters. */
  lemma PatchReserved(g: Geometry, secs: seq<Bytes>, fat: Fat, clus: seq<Cluster>, r: nat, buf: Bytes)
    requires g.Wf() && SectorsOk(g, secs) && FatAgrees(g, secs, fat) && ClusAgrees(g, secs, clus)
    requires r < g.reserved && |buf| == SECTOR
    ensures g.base + r < |secs|
    ensures var secs' := secs[g.base + r := buf];
            SectorsOk(g, secs') && FatAgrees(g, secs', fat) && ClusAgrees(g, secs', clus)
  {
    var secs' := secs[g.base + r := buf];
    forall k: nat, d: nat | k < g.Copies() && d < g.N()
      ensures Word(g, secs', k, d) == Word(g, secs, k, d)
    {
      FatLbaInside(g, k, d);
    }
    forall d: nat, t: nat | ValidClus(g.N(), d) && t < g.secPerClus
      ensures ClusSector(g, secs', d, t) == ClusSector(g, secs, d, t)
    {
      ClusLbaInside(g, d, t);
    }
  }
}
