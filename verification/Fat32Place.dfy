/**
 Where everything lies on the volume: the tables one after the other behind the
 reserved sectors, the clusters in order of their numbers behind the last table,
 and each byte of a chain in its sector (src/kernel/fs/fat32.c:141-189, 1318-1341).
 */
module Fat32Place {
  import opened Errors
  import opened FlatBytes
  import opened LittleEndian
  import opened FatMap
  import opened Fat32Layout
  import opened Fat32Data

  /** The first sector of table number j. */
  function TableStart(g: Geometry, j: nat): nat {
    g.base + g.reserved + j * g.fatSecs
  }

  /** Cluster 2 lies right behind the last table, and each cluster right behind the one before. */
  lemma ClustersInOrder(g: Geometry, c: nat)
    requires g.Wf() && ValidClus(g.N(), c)
    ensures g.ClusLba(2) == TableStart(g, g.numFats - 1) + g.fatSecs
    ensures g.ClusLba(c + 1) == g.ClusLba(c) + g.secPerClus
    ensures g.N() == g.clusterCount + 2 && g.Sectors() == g.ClusLba(g.N())
  {
    SizeIsProduct(g.numFats, g.fatSecs);
    assert g.numFats * g.fatSecs == (g.numFats - 1) * g.fatSecs + g.fatSecs;
    SizeNext(c - 2, g.secPerClus);
  }

  lemma ClusLbaIs(g: Geometry, c: nat)
    requires 2 <= c
    ensures g.ClusLba(c) == g.base + g.reserved + g.numFats * g.fatSecs + (c - 2) * g.secPerClus
  {
    SizeIsProduct(g.numFats, g.fatSecs);
    SizeIsProduct(c - 2, g.secPerClus);
  }

  /** The clusters from number 2 on, laid end to end, are the sectors behind the tables. */
  lemma ClustersAreSectors(g: Geometry, secs: seq<Bytes>, clus: seq<Cluster>)
    requires g.Wf() && SectorsOk(g, secs) && ClusAgrees(g, secs, clus)
    ensures 2 <= |clus| && g.ClusLba(2) <= g.ClusLba(2) + g.clusterCount * g.secPerClus <= |secs|
    ensures Flat(clus[2..]) == secs[g.ClusLba(2)..g.ClusLba(2) + g.clusterCount * g.secPerClus]
  {
    var spc, lo, n := g.secPerClus, g.ClusLba(2), Size(g.clusterCount, g.secPerClus);
    var cs := clus[2..];
    SizeIsProduct(g.clusterCount, spc);
    FlatLength(cs, spc);
    forall j: nat | j < n
      ensures Flat(cs)[j] == secs[lo..lo + n][j]
    {
      ClusterSectorAt(g, secs, clus, j);
    }
  }

  lemma ClusterSectorAt(g: Geometry, secs: seq<Bytes>, clus: seq<Cluster>, j: nat)
    requires g.Wf() && SectorsOk(g, secs) && ClusAgrees(g, secs, clus) && j < Size(g.clusterCount, g.secPerClus)
    ensures j < |Flat(clus[2..])| && g.ClusLba(2) + j < |secs| && Flat(clus[2..])[j] == secs[g.ClusLba(2) + j]
  {
    hide Flat, Size, Quot, Rem;
    var spc, cs := g.secPerClus, clus[2..];
    var q, r := Quot(j, spc), Rem(j, spc);
    QuotBelow(j, spc, g.clusterCount);
    FlatBlock(cs, spc, q);
    ClusLbaInside(g, q + 2, r);
    SizeNext(0, spc);
    assert Flat(cs)[Size(q, spc)..Size(q, spc) + spc][r] == cs[q][r];
    assert ClusSector(g, secs, q + 2, r) == clus[q + 2][r];
  }

  /** In every live table, laid end to end, word number c is the entry of cluster c. */
  lemma TableWords(g: Geometry, secs: seq<Bytes>, fat: Fat, j: nat, c: nat)
    requires g.Wf() && SectorsOk(g, secs) && FatAgrees(g, secs, fat)
    requires j < g.numFats && (g.mirror || j == g.activeFat) && c < g.N()
    ensures TableStart(g, j) + g.fatSecs <= g.ClusLba(2) <= |secs|
    ensures var table := Flat(secs[TableStart(g, j)..TableStart(g, j) + g.fatSecs]);
            4 * c + 4 <= |table| && Get32(table, 4 * c) % FAT_LIMIT == fat[c]
  {
    var k := if g.mirror then j else 0;
    hide Flat, Size;
    SizeIsProduct(j, g.fatSecs);
    SizeMono(j, g.numFats, g.fatSecs);
    SizeNext(0, g.secPerClus);
    SizeMono(0, g.clusterCount, g.secPerClus);
    var start, i := TableStart(g, j), 4 * c / SECTOR;
    var tab := secs[start..start + g.fatSecs];
    FatLbaInside(g, k, c);
    FlatBlock(tab, SECTOR, i);
    SizeIsProduct(i, SECTOR);
    assert tab[i] == secs[g.FatLba(k, c)];
    WordInside(Flat(tab), tab[i], i * SECTOR, g.FatOff(c));
    assert Word(g, secs, k, c) % FAT_LIMIT == fat[c];
  }

  lemma WordInside(s: Bytes, sec: Bytes, at: nat, off: nat)
    requires at + |sec| <= |s| && s[at..at + |sec|] == sec && off + 4 <= |sec|
    ensures Get32(s, at + off) == Get32(sec, off)
  {
    var t := s[at..at + |sec|];
    assert t[off] == s[at + off] && t[off + 1] == s[at + off + 1] && t[off + 2] == s[at + off + 2] && t[off + 3] == s[at + off + 3];
  }

  /** Byte k of a chain, read off the device: sector and offset by plain division. */
  ghost function DeviceByte(g: Geometry, secs: seq<Bytes>, ch: seq<nat>, k: nat): Byte
  {
    var cb := if g.secPerClus > 0 then g.secPerClus * 512 else 512;
    var i: int, r: int := k / cb, k % cb;
    if 0 <= i < |ch| then
      var at: int := g.base + g.reserved + g.numFats * g.fatSecs + (ch[i] - 2) * g.secPerClus + r / 512;
      if 0 <= at < |secs| && r % 512 < |secs[at]| then secs[at][r % 512] else 0
    else 0
  }

  /** The bytes of a chain are the bytes of the sectors of its clusters. */
  lemma ChainOnDevice(g: Geometry, secs: seq<Bytes>, clus: seq<Cluster>, ch: seq<nat>, k: nat)
    requires g.Wf() && SectorsOk(g, secs) && ClusAgrees(g, secs, clus) && Sized(clus, g.secPerClus)
    requires InTable(clus, ch) && (forall i :: 0 <= i < |ch| ==> ValidClus(g.N(), ch[i])) && k < |DataOf(clus, ch)|
    ensures DataOf(clus, ch)[k] == DeviceByte(g, secs, ch, k)
  {
    hide Flat, Size, Quot, Rem, SectorsOf, DataOf, DeviceByte;
    var cb := g.ClusBytes();
    SizeIsProduct(g.secPerClus, SECTOR);
    QuotIsDivision(k, cb);
    DataLength(clus, ch, g.secPerClus);
    QuotBelow(k, cb, |ch|);
    ByteInCluster(clus, ch, g.secPerClus, k);
    OnDevice(g, secs, clus, ch, k, k / cb, k % cb);
  }

  lemma ByteInCluster(clus: seq<Cluster>, ch: seq<nat>, spc: nat, k: nat)
    requires 0 < spc && Sized(clus, spc) && InTable(clus, ch) && 0 < Size(spc, SECTOR) && Quot(k, Size(spc, SECTOR)) < |ch|
    ensures var i, r := Quot(k, Size(spc, SECTOR)), Rem(k, Size(spc, SECTOR));
            && r / SECTOR < spc && k < |DataOf(clus, ch)| && DataOf(clus, ch)[k] == clus[ch[i]][r / SECTOR][r % SECTOR]
  {
    hide Flat, Size, Quot, Rem, SectorsOf;
    var i, r := Quot(k, Size(spc, SECTOR)), Rem(k, Size(spc, SECTOR));
    Locate(k, spc);
    BytesAt(clus, ch, spc, i, r / SECTOR);
    var at := Size(Size(i, spc) + r / SECTOR, SECTOR);
    assert DataOf(clus, ch)[at..at + SECTOR][r % SECTOR] == DataOf(clus, ch)[k];
  }

  lemma OnDevice(g: Geometry, secs: seq<Bytes>, clus: seq<Cluster>, ch: seq<nat>, k: nat, i: nat, r: nat)
    requires g.Wf() && SectorsOk(g, secs) && ClusAgrees(g, secs, clus) && i < |ch| && ValidClus(g.N(), ch[i])
    requires i == k / (g.secPerClus * 512) && r == k % (g.secPerClus * 512) && r / 512 < g.secPerClus
    ensures DeviceByte(g, secs, ch, k) == clus[ch[i]][r / 512][r % 512]
  {
    hide Size;
    ClusLbaIs(g, ch[i]);
    ClusLbaInside(g, ch[i], r / 512);
    assert ClusSector(g, secs, ch[i], r / 512) == clus[ch[i]][r / 512];
  }
}
