/**
 The chain cursor of src/kernel/fs/fat32.c:277-439: walking to the index-th
 cluster through the one-entry cache, counting, reading and writing bytes.
 */
module Fat32Chain {
  import opened Errors
  import opened FlatBytes
  import opened FatMap
  import opened Fat32Layout
  import opened Fat32Data
  import Links
  import opened Fat32Volume

  /** A live chain's clusters are distinct entries of the table. */
  lemma LiveChain(fat: Fat, n: nat, b: Book, h: nat, clus: seq<Cluster>)
    requires Wf(fat, n, b) && h in b.chains && |clus| == n
    ensures Links.Distinct(b.chains[h]) && InTable(clus, b.chains[h])
    ensures b.chains[h] != [] && b.chains[h][0] == h && ValidClus(n, h)
    ensures forall i :: 0 <= i < |b.chains[h]| ==> ValidClus(n, b.chains[h][i])
  {
    ChainFacts(fat, n, b, h);
    forall i, j | 0 <= i < j < |b.chains[h]|
      ensures b.chains[h][i] != b.chains[h][j]
    {
      ChainsDisjoint(fat, n, b, h, i, h, j);
    }
  }

  /** One step of the table along a live chain. */
  lemma NextLink(fat: Fat, n: nat, b: Book, h: nat, i: nat)
    requires Wf(fat, n, b) && h in b.chains && i < |b.chains[h]|
    ensures ValidClus(n, b.chains[h][i])
    ensures i + 1 < |b.chains[h]| ==> fat[b.chains[h][i]] == b.chains[h][i + 1] && ValidClus(n, b.chains[h][i + 1])
    ensures i + 1 == |b.chains[h]| ==> !ValidClus(n, fat[b.chains[h][i]])
  {
    ChainFacts(fat, n, b, h);
    assert Linked(fat, n, b.chains[h]);
  }

  /** What a new zeroed cluster adds to the bytes of a chain (or of no chain). */
  lemma GrowData(fat: Fat, n: nat, b: Book, clus: seq<Cluster>, h: nat, ch: seq<nat>, c: nat, spc: nat)
    requires Wf(fat, n, b) && |clus| == n && ValidClus(n, c) && c !in b.own
    requires ch == if ValidClus(n, h) && h in b.chains then b.chains[h] else []
    ensures InTable(clus, ch) && InTable(clus, ch + [c])
    ensures DataOf(clus[c := ZeroSectors(spc)], ch + [c]) == DataOf(clus, ch) + Zeros(Size(spc, SECTOR))
  {
    hide Flat, Covered, DataOf, Size;
    if ch != [] {
      LiveChain(fat, n, b, h, clus);
    }
    forall i | 0 <= i < |ch|
      ensures ch[i] != c
    {
      OwnsItself(b, h, i);
    }
    var clus' := clus[c := ZeroSectors(spc)];
    DataSame(clus, clus', ch);
    DataAppend(clus', ch, c);
    FlatZeros(ZeroSectors(spc), SECTOR);
  }

  class Chain {
    const sb: Volume
    var start: nat
    var cacheClus: nat
    var cacheIndex: nat
    var cacheOk: bool

    /** fat32_chain_init. */
    constructor (sb: Volume, start: nat)
      requires sb.Valid() && sb.ChainsOk() && start < U32
      requires !sb.failed && sb.ClusOk(start) ==> start in sb.book.chains
      ensures this.sb == sb && this.start == start && Good()
    {
      this.sb, this.start := sb, start;
      cacheClus, cacheIndex, cacheOk := 0, 0, false;
    }

    /** The clusters the chain stands for: none while its start is no cluster. */
    ghost function Clusters(): seq<nat>
      reads this`start, sb`book
    {
      if sb.ClusOk(start) && start in sb.book.chains then sb.book.chains[start] else []
    }

    ghost function Content(): Bytes
      reads this`start, sb`book, sb`clus
    {
      if InTable(sb.clus, Clusters()) then DataOf(sb.clus, Clusters()) else []
    }

    /** The start is a live head and the cache agrees with an uncached walk from it. */
    ghost predicate Cursor()
      reads this, sb`book, sb`failed
    {
      && start < U32 && (cacheOk ==> sb.ClusOk(cacheClus))
      && (!sb.failed && sb.ClusOk(start) ==> start in sb.book.chains)
      && (!sb.failed && cacheOk ==> cacheIndex < |Clusters()| && cacheClus == Clusters()[cacheIndex])
    }

    ghost predicate Good()
      reads this, sb
    {
      sb.Valid() && sb.ChainsOk() && Cursor()
    }

    lemma Shape()
      requires Good() && !sb.failed
      ensures InTable(sb.clus, Clusters()) && Links.Distinct(Clusters()) && Sized(sb.clus, sb.g.secPerClus)
      ensures |Content()| == Size(|Clusters()|, sb.g.ClusBytes())
      ensures forall i :: 0 <= i < |Clusters()| ==> sb.ClusOk(Clusters()[i])
    {
      hide Wf, SectorsOk, FatAgrees, ClusAgrees, Size;
      if Clusters() != [] {
        LiveChain(sb.fat, sb.g.N(), sb.book, start, sb.clus);
      }
      DataLength(sb.clus, Clusters(), sb.g.secPerClus);
    }

    /** An index into the chain is a number of 32 bits. */
    lemma IndexFits()
      requires Good() && !sb.failed
      ensures |Clusters()| < U32
    {
      hide Wf, SectorsOk, FatAgrees, ClusAgrees;
      if Clusters() != [] {
        ChainLength(sb.fat, sb.g.N(), sb.book, start);
      }
    }

    /** fat32_chain_at2: the index-th cluster of the chain, whatever the cache held. */
    method At2(index: nat) returns (rc: int, out: nat)
      requires Good()
      modifies this`cacheClus, this`cacheIndex, this`cacheOk, sb`failed
      ensures Good() && (old(sb.failed) ==> sb.failed)
      ensures rc == FAT32_OK || rc == FAT32_ERR_IO
      ensures rc == FAT32_OK ==> sb.ClusOk(out) && sb.ClusOk(start)
      ensures !sb.failed ==> (rc == FAT32_OK <==> index < |Clusters()|)
      ensures !sb.failed && rc == FAT32_OK ==> out == Clusters()[index]
    {
      hide Wf, SectorsOk, FatAgrees, ClusAgrees, ClustersOk, Table;
      out := 0;
      if !sb.ClusOk(start) {
        return FAT32_ERR_IO, out;
      }
      var c: nat, i: nat := start, 0;
      if cacheOk && index >= cacheIndex {
        c, i := cacheClus, cacheIndex;
      } else if !sb.failed {
        HeadOf(sb.fat, sb.g.N(), sb.book, start);
      }
      while i < index
        invariant sb.ClusOk(c) && i <= index && Good() && (old(sb.failed) ==> sb.failed)
        invariant !sb.failed ==> i < |Clusters()| && c == Clusters()[i]
      {
        if !sb.failed {
          NextLink(sb.fat, sb.g.N(), sb.book, start, i);
        }
        var v := sb.FatGet(c);
        if !sb.ClusOk(v) {
          return FAT32_ERR_IO, out;
        }
        c := v;
        i := i + 1;
      }
      cacheClus, cacheIndex, cacheOk := c, i, true;
      return FAT32_OK, c;
    }

    /** fat32_chain_at: 0 where there is no such cluster. */
    method At(index: nat) returns (c: nat)
      requires Good()
      modifies this`cacheClus, this`cacheIndex, this`cacheOk, sb`failed
      ensures Good() && (old(sb.failed) ==> sb.failed)
      ensures c == 0 || (sb.ClusOk(c) && sb.ClusOk(start))
      ensures !sb.failed ==> c == if index < |Clusters()| then Clusters()[index] else 0
      ensures !sb.failed && index < |Clusters()| ==> sb.ClusOk(c)
    {
      hide Wf, SectorsOk, FatAgrees, ClusAgrees, ClustersOk, Table;
      var rc, out := At2(index);
      c := if rc == FAT32_OK then out else 0;
    }

    /** fat32_chain_count: the chain's length; the guard is never what stops it. */
    method Count() returns (n: nat)
      requires Good()
      modifies sb`failed
      ensures Good() && (old(sb.failed) ==> sb.failed) && n <= sb.g.clusterCount + 1
      ensures !sb.failed ==> n == |Clusters()| <= sb.g.clusterCount
    {
      hide Wf, SectorsOk, FatAgrees, ClusAgrees, ClustersOk, Table;
      var c: nat := start;
      n := 0;
      if !sb.failed && sb.ClusOk(start) {
        HeadOf(sb.fat, sb.g.N(), sb.book, start);
        ChainLength(sb.fat, sb.g.N(), sb.book, start);
      }
      while sb.ClusOk(c) && n <= sb.g.clusterCount
        invariant n <= sb.g.clusterCount + 1 && Good() && (old(sb.failed) ==> sb.failed)
        invariant !sb.failed && sb.ClusOk(start) ==> n < |Clusters()| && c == Clusters()[n] && sb.ClusOk(c)
        invariant !sb.failed && !sb.ClusOk(start) ==> !sb.ClusOk(c) && n == 0
        invariant !sb.failed ==> |Clusters()| <= sb.g.clusterCount
        decreases sb.g.clusterCount + 1 - n
      {
        if !sb.failed {
          NextLink(sb.fat, sb.g.N(), sb.book, start, n);
        }
        var v := sb.FatGet(c);
        n := n + 1;
        if !sb.ClusOk(v) {
          break;
        }
        c := v;
      }
    }

    /** What the sector that holds byte off yields, on a volume without device errors. */
    lemma SectorHere(off: nat, n: nat)
      requires Good() && !sb.failed && 0 < sb.g.ClusBytes() && Rem(off, sb.g.ClusBytes()) % SECTOR + n <= SECTOR
      ensures var ci, within := Quot(off, sb.g.ClusBytes()), Rem(off, sb.g.ClusBytes());
              && within / SECTOR < sb.g.secPerClus
              && (ci < |Clusters()| <==> off < |Content()|)
              && (ci < |Clusters()| ==> off + n <= |Content()| && sb.ClusOk(Clusters()[ci]) && Clusters()[ci] < |sb.clus|)
              && (ci < |Clusters()| ==> within / SECTOR < |sb.clus[Clusters()[ci]]| && |sb.clus[Clusters()[ci]][within / SECTOR]| == SECTOR)
              && (ci < |Clusters()| ==>
                    Content()[off..off + n] == sb.clus[Clusters()[ci]][within / SECTOR][within % SECTOR..within % SECTOR + n])
    {
      hide Wf, SectorsOk, FatAgrees, ClusAgrees, Size, Quot, Rem, DataOf;
      var spc, cb := sb.g.secPerClus, sb.g.ClusBytes();
      Shape();
      Locate(off, spc);
      var ci, within := Quot(off, cb), Rem(off, cb);
      if ci < |Clusters()| {
        SizeMono(ci, |Clusters()|, cb);
        BytesAt(sb.clus, Clusters(), spc, ci, within / SECTOR);
        SliceOfSlice(Content(), off - within % SECTOR, SECTOR, within % SECTOR, n);
      } else {
        SizeMono(|Clusters()|, ci, cb);
      }
    }

    /** One round of fat32_chain_read: the bytes up to the end of the sector. */
    method ReadSome(off: nat, len: nat) returns (rc: int, part: Bytes)
      requires Good() && off + len < U32 && 0 < len
      modifies this`cacheClus, this`cacheIndex, this`cacheOk, sb`failed
      ensures Good() && (old(sb.failed) ==> sb.failed) && (rc == FAT32_OK || rc == FAT32_ERR_IO)
      ensures rc == FAT32_OK ==> 0 < |part| <= len
      ensures !sb.failed ==> (rc == FAT32_OK <==> off < |Content()|)
      ensures !sb.failed && rc == FAT32_OK ==> off + |part| <= |Content()| && part == Content()[off..off + |part|]
    {
      hide Wf, Size, Quot, Rem, Content, Clusters, Volume.Valid;
      part := [];
      sb.Positive();
      Locate(off, sb.g.secPerClus);
      var ci, within := Quot(off, sb.g.ClusBytes()) % U32, Rem(off, sb.g.ClusBytes()) % U32;
      var so := within % SECTOR;
      var n := if SECTOR - so > len then len else SECTOR - so;
      if !sb.failed {
        SectorHere(off, n);
      }
      var c := At(ci);
      if !sb.ClusOk(c) {
        return FAT32_ERR_IO, part;
      }
      var sec;
      rc, sec := sb.ReadClus(c, within / SECTOR);
      if rc != 0 {
        return FAT32_ERR_IO, part;
      }
      part := sec[so..so + n];
    }

    /** fat32_chain_read: the chain's bytes from off on, or an error where the chain is too short. */
    method Read(off0: nat, len0: nat) returns (rc: int, out: Bytes)
      requires Good() && off0 + len0 < U32
      modifies this`cacheClus, this`cacheIndex, this`cacheOk, sb`failed
      ensures Good() && (old(sb.failed) ==> sb.failed) && (rc == FAT32_OK || rc == FAT32_ERR_IO)
      ensures rc == FAT32_OK ==> |out| == len0
      ensures !sb.failed ==> (rc == FAT32_OK <==> len0 == 0 || off0 + len0 <= |Content()|)
      ensures !sb.failed && rc == FAT32_OK && len0 > 0 ==> out == Content()[off0..off0 + len0]
    {
      hide Content, Good;
      var off, len := off0, len0;
      out := [];
      while len > 0
        invariant 0 <= len && off == off0 + |out| && |out| + len == len0
        invariant Good() && (old(sb.failed) ==> sb.failed)
        invariant !sb.failed && out != [] ==> off <= |Content()| && out == Content()[off0..off]
        decreases len
      {
        var part;
        rc, part := ReadSome(off, len);
        if rc != FAT32_OK {
          return;
        }
        if !sb.failed && out != [] {
          SliceAdjacent(Content(), off0, off, off + |part|);
        }
        out := out + part;
        off := off + |part|;
        len := len - |part|;
      }
      rc := FAT32_OK;
    }

    /** The fresh one-cluster chain nc becomes the end of the chain, or the chain itself if it was empty. */
    method Adopt(ci: nat, nc: nat) returns (rc: int)
      requires Good() && ci < U32 && sb.ClusOk(nc) && (!sb.failed ==> ci == |Clusters()|)
      requires !sb.failed ==> nc in sb.book.chains && sb.book.chains[nc] == [nc] && start != nc
      modifies this, sb`failed, sb`secs, sb`fat, sb`book
      ensures Good() && (old(sb.failed) ==> sb.failed)
      ensures rc == FAT32_OK || rc == FAT32_ERR_IO
      ensures !sb.failed ==> rc == FAT32_OK && sb.ClusOk(start) && Clusters() == old(Clusters()) + [nc]
      ensures !sb.failed && old(sb.ClusOk(start)) ==> start == old(start) && start in old(sb.book).chains
      ensures !sb.failed && old(sb.ClusOk(start)) ==> sb.book == LinkBook(old(sb.book), start, nc)
      ensures !sb.failed && !old(sb.ClusOk(start)) ==> start == nc && sb.book == old(sb.book)
      ensures !sb.failed && old(sb.FreeExact()) ==> sb.FreeExact()
    {
      hide Wf, SectorsOk, FatAgrees, ClusAgrees, ClustersOk, Table, FreeCount;
      if !sb.ClusOk(start) {
        if ci != 0 {
          return FAT32_ERR_IO;
        }
        start := nc;
      } else {
        ghost var h := start;
        if !sb.failed {
          HeadOf(sb.fat, sb.g.N(), sb.book, h);
        }
        var last := At((ci + U32 - 1) % U32);
        if !sb.ClusOk(last) {
          return FAT32_ERR_IO;
        }
        rc := sb.Link(h, last, nc);
        if rc != FAT32_OK {
          return FAT32_ERR_IO;
        }
      }
      cacheClus, cacheIndex, cacheOk := nc, ci, true;
      return FAT32_OK;
    }

    /** A new zeroed cluster at the end of the chain, for a write that has run past it. */
    method Grow(ci: nat) returns (rc: int, nc: nat)
      requires Good() && ci < U32 && (!sb.failed ==> ci == |Clusters()|)
      modifies this, sb
      ensures Good() && (old(sb.failed) ==> sb.failed) && rc <= 0
      ensures rc == FAT32_OK ==> sb.ClusOk(nc)
      ensures !sb.failed ==> rc == FAT32_OK || rc == VFS_ERR_NOSPC
      ensures !sb.failed && rc == FAT32_OK ==> sb.ClusOk(start) && Clusters() == old(Clusters()) + [nc]
      ensures !sb.failed && rc == FAT32_OK ==> Content() == old(Content()) + Zeros(sb.g.ClusBytes())
      ensures !sb.failed && old(sb.ClusOk(start)) ==> start == old(start)
      ensures !sb.failed && rc == FAT32_OK && !old(sb.ClusOk(start)) ==> start !in old(sb.book).chains
      ensures !sb.failed ==> Kept(old(sb.book), old(sb.clus), sb.book, sb.clus, start)
      ensures !sb.failed && rc != FAT32_OK ==> Clusters() == old(Clusters()) && Content() == old(Content()) && start == old(start)
      ensures !sb.failed && old(sb.FreeExact()) ==> sb.FreeExact()
      ensures !sb.failed && rc != FAT32_OK ==> Full(sb.fat)
    {
      hide Wf, SectorsOk, FatAgrees, ClusAgrees, Table, FreeCount, PickFree, DataOf, LinkBook, Kept;
      ghost var fat0, book0, clus0, ch0 := sb.fat, sb.book, sb.clus, Clusters();
      nc := sb.AllocCluster();
      if !sb.ClusOk(nc) {
        KeptSame(book0, clus0, start);
        return VFS_ERR_NOSPC, nc;
      }
      if !sb.failed {
        GrowData(fat0, sb.g.N(), book0, clus0, start, ch0, nc, sb.g.secPerClus);
        if sb.ClusOk(start) {
          KeptLink(fat0, sb.g.N(), book0, clus0, start, nc, ZeroSectors(sb.g.secPerClus));
        } else {
          KeptAlloc(fat0, sb.g.N(), book0, clus0, nc, ZeroSectors(sb.g.secPerClus));
        }
      }
      rc := Adopt(ci, nc);
    }

    /** Writes part into sector s of the ci-th cluster: whole sectors directly, others read-patch-write. */
    method PutSector(c: nat, ghost ci: nat, s: nat, so: nat, part: Bytes) returns (rc: int)
      requires Good() && sb.ClusOk(c) && s < sb.g.secPerClus && so + |part| <= SECTOR
      requires !sb.failed ==> ci < |Clusters()| && c == Clusters()[ci]
      modifies sb`failed, sb`secs, sb`clus
      ensures Good() && (old(sb.failed) ==> sb.failed)
      ensures rc == FAT32_OK || rc == FAT32_ERR_IO
      ensures !sb.failed ==> rc == FAT32_OK && Size(Size(ci, sb.g.secPerClus) + s, SECTOR) + so + |part| <= |old(Content())|
      ensures !sb.failed ==> Content() == Splice(old(Content()), Size(Size(ci, sb.g.secPerClus) + s, SECTOR) + so, part)
      ensures !sb.failed ==> Kept(sb.book, old(sb.clus), sb.book, sb.clus, start)
    {
      hide Wf, SectorsOk, FatAgrees, ClusAgrees, Table, DataOf, Kept, Size, Splice;
      ghost var clus0, spc := sb.clus, sb.g.secPerClus;
      ghost var ch := Clusters();
      var buf;
      if so == 0 && |part| == SECTOR {
        buf := part;
      } else {
        rc, buf := sb.ReadClus(c, s);
        if rc != 0 {
          return FAT32_ERR_IO;
        }
        buf := Splice(buf, so, part);
      }
      if !sb.failed {
        Shape();
        WholeSplice(clus0[c][s], part);
        BytesPatched(clus0, ch, spc, ci, s, so, part);
        KeptWrite(sb.fat, sb.g.N(), sb.book, clus0, start, ci, clus0[c][s := buf]);
      }
      rc := sb.WriteClus(c, s, buf);
      if rc != 0 {
        return FAT32_ERR_IO;
      }
    }

    /** The cluster for a write at off: the chain's own, or a new one at its end. */
    method Reach(off: nat) returns (rc: int, c: nat)
      requires Good() && 0 < sb.g.ClusBytes()
      requires !sb.failed ==> Quot(off, sb.g.ClusBytes()) <= |Clusters()|
      modifies this, sb
      ensures Good() && (old(sb.failed) ==> sb.failed) && rc <= 0
      ensures rc == FAT32_OK ==> sb.ClusOk(c)
      ensures !sb.failed ==> rc == FAT32_OK || rc == VFS_ERR_NOSPC
      ensures !sb.failed && rc == FAT32_OK ==> Quot(off, sb.g.ClusBytes()) < |Clusters()| && c == Clusters()[Quot(off, sb.g.ClusBytes())]
      ensures !sb.failed ==> |old(Content())| <= |Content()| && Content() == Grown(old(Content()), |Content()|)
      ensures !sb.failed && rc != FAT32_OK ==> Content() == old(Content()) && start == old(start)
      ensures !sb.failed ==> Kept(old(sb.book), old(sb.clus), sb.book, sb.clus, start)
      ensures !sb.failed && old(sb.ClusOk(start)) ==> start == old(start)
      ensures !sb.failed && !old(sb.ClusOk(start)) ==> start == old(start) || (sb.ClusOk(start) && start !in old(sb.book).chains)
      ensures !sb.failed && old(sb.FreeExact()) ==> sb.FreeExact()
      ensures !sb.failed && rc != FAT32_OK ==> Full(sb.fat) && Quot(off, sb.g.ClusBytes()) == |Clusters()|
      ensures !sb.failed && |Content()| != |old(Content())| ==>
                Quot(off, sb.g.ClusBytes()) == |old(Clusters())| && |Content()| == |old(Content())| + sb.g.ClusBytes()
    {
      hide Wf, FreeCount, Content, Clusters, Kept, Size, Quot, Splice, Grown, Volume.Valid;
      ghost var book0, clus0, data0 := sb.book, sb.clus, Content();
      if !sb.failed {
        IndexFits();
      }
      var ci := Quot(off, sb.g.ClusBytes()) % U32;
      rc := FAT32_OK;
      c := At(ci);
      KeptSame(book0, clus0, start);
      if !sb.ClusOk(c) {
        rc, c := Grow(ci);
      }
      if !sb.failed {
        assert Content() == data0 || Content() == data0 + Zeros(sb.g.ClusBytes());
        GrownBy(data0, Content());
      }
    }

    /** One round of fat32_chain_write: up to the end of the sector, on a new cluster if need be. */
    method WriteSome(off: nat, data: Bytes) returns (rc: int, n: nat)
      requires Good() && data != []
      requires !sb.failed ==> off <= |Content()|
      modifies this, sb
      ensures Good() && (old(sb.failed) ==> sb.failed) && rc <= 0
      ensures rc == FAT32_OK ==> 0 < n <= |data|
      ensures !sb.failed ==> rc == FAT32_OK || rc == VFS_ERR_NOSPC
      ensures !sb.failed && rc == FAT32_OK ==> |old(Content())| <= |Content()| && off + n <= |Content()|
      ensures !sb.failed && rc == FAT32_OK ==> Content() == Splice(Grown(old(Content()), |Content()|), off, data[..n])
      ensures !sb.failed && rc != FAT32_OK ==> Content() == old(Content()) && start == old(start)
      ensures !sb.failed ==> Kept(old(sb.book), old(sb.clus), sb.book, sb.clus, start)
      ensures !sb.failed && old(sb.ClusOk(start)) ==> start == old(start)
      ensures !sb.failed && !old(sb.ClusOk(start)) ==> start == old(start) || (sb.ClusOk(start) && start !in old(sb.book).chains)
      ensures !sb.failed && old(sb.FreeExact()) ==> sb.FreeExact()
      ensures !sb.failed && rc != FAT32_OK ==> Full(sb.fat) && off == |Content()|
      ensures !sb.failed ==> |Content()| == |old(Content())| || |Content()| == off + sb.g.ClusBytes()
    {
      hide Wf, FreeCount, Content, Clusters, Kept, Size, Quot, Rem, Splice, Grown, Cursor, Volume.Valid, Volume.ChainsOk;
      ghost var book0, clus0 := sb.book, sb.clus;
      sb.Positive();
      Locate(off, sb.g.secPerClus);
      var within := Rem(off, sb.g.ClusBytes()) % U32;
      var so := within % SECTOR;
      n := if SECTOR - so > |data| then |data| else SECTOR - so;
      if !sb.failed {
        EndsHere(off);
      }
      var c;
      rc, c := Reach(off);
      if rc != FAT32_OK {
        if !sb.failed {
          EndsHere(off);
        }
        return;
      }
      ghost var clus1 := sb.clus;
      rc := PutSector(c, Quot(off, sb.g.ClusBytes()), within / SECTOR, so, data[..n]);
      if !sb.failed {
        KeptTrans(book0, clus0, sb.book, clus1, sb.book, sb.clus, start);
      }
    }

    /**
     fat32_chain_write: splices data at off into the chain's bytes, which grow
     by zeroed clusters where needed; when space runs out a prefix of the data
     is in place. Every other live chain keeps its bytes.
     */
    method Write(off0: nat, data: Bytes) returns (rc: int, ghost done: nat)
      requires Good() && |data| < U32
      requires !sb.failed ==> off0 <= |Content()|
      modifies this, sb
      ensures Good() && (old(sb.failed) ==> sb.failed) && rc <= 0
      ensures !sb.failed ==> rc == FAT32_OK || rc == VFS_ERR_NOSPC
      ensures done <= |data| && (rc == FAT32_OK <==> done == |data|)
      ensures !sb.failed ==> |old(Content())| <= |Content()| && off0 + done <= |Content()|
      ensures !sb.failed ==> Content() == Splice(Grown(old(Content()), |Content()|), off0, data[..done])
      ensures !sb.failed ==> Kept(old(sb.book), old(sb.clus), sb.book, sb.clus, start)
      ensures !sb.failed && old(sb.ClusOk(start)) ==> start == old(start)
      ensures !sb.failed && !old(sb.ClusOk(start)) ==> start == old(start) || (sb.ClusOk(start) && start !in old(sb.book).chains)
      ensures !sb.failed && old(sb.FreeExact()) ==> sb.FreeExact()
      ensures !sb.failed && rc != FAT32_OK ==> Full(sb.fat) && off0 + done == |Content()|
      ensures !sb.failed ==> |Content()| == |old(Content())| || |Content()| < off0 + done + sb.g.ClusBytes()
    {
      hide Good, Content, Clusters, Kept, Splice, Grown, FreeCount, Volume.FreeExact;
      ghost var book0, clus0, start0, data0 := sb.book, sb.clus, start, Content();
      var off, len, rest := off0, |data|, data;
      done := 0;
      NotHead();
      KeptSame(book0, clus0, start);
      GrownMore(data0, |data0|, |data0|, 0, []);
      WriteNothing(data0, off0, data, !sb.failed);
      while len > 0
        invariant 0 <= len <= |data| && off == off0 + done && done + len == |data| && rest == data[done..]
        invariant Good() && (old(sb.failed) ==> sb.failed)
        invariant !sb.failed ==> |data0| <= |Content()| && off <= |Content()|
        invariant !sb.failed ==> |Content()| == |data0| || |Content()| < off + sb.g.ClusBytes()
        invariant !sb.failed ==> Content() == Splice(Grown(data0, |Content()|), off0, data[..done])
        invariant !sb.failed ==> Kept(book0, clus0, sb.book, sb.clus, start)
        invariant !sb.failed && sb.ClusOk(start0) ==> start == start0
        invariant !sb.failed && !sb.ClusOk(start0) ==> start == start0 || (sb.ClusOk(start) && start !in book0.chains)
        invariant !sb.failed && old(sb.FreeExact()) ==> sb.FreeExact()
        decreases len
      {
        ghost var book1, clus1, start1, data1 := sb.book, sb.clus, start, Content();
        var n;
        NotHead();
        rc, n := WriteSome(off, rest);
        if !sb.failed {
          KeptOn(book0, clus0, book1, clus1, sb.book, sb.clus, start1, start);
          if rc == FAT32_OK {
            GrownMore(data0, |data1|, |Content()|, off0, data[..done]);
            assert rest[..n] == data[done..done + n];
            SpliceMore(Grown(data0, |Content()|), off0, data, done, done + n);
          }
        }
        if rc != FAT32_OK {
          return;
        }
        off := off + n;
        rest := rest[n..];
        done := done + n;
        len := len - n;
      }
      rc := FAT32_OK;
    }

    /** What is no cluster heads no chain. */
    lemma NotHead()
      requires Good()
      ensures !sb.failed && !sb.ClusOk(start) ==> start !in sb.book.chains
    {
      if !sb.failed && start in sb.book.chains {
        HeadOf(sb.fat, sb.g.N(), sb.book, start);
      }
    }

    /** A position at or before the end that lies in no cluster is the end. */
    lemma EndsHere(off: nat)
      requires Good() && !sb.failed && 0 < sb.g.ClusBytes() && off <= |Content()|
      ensures Quot(off, sb.g.ClusBytes()) <= |Clusters()|
      ensures Quot(off, sb.g.ClusBytes()) == |Clusters()| ==> off == |Content()|
    {
      hide Wf, SectorsOk, FatAgrees, ClusAgrees, Size, Quot, Rem, DataOf;
      Shape();
      SizeCancel(Quot(off, sb.g.ClusBytes()), |Clusters()|, sb.g.ClusBytes());
    }
  }

  lemma WriteNothing(c: Bytes, off: nat, data: Bytes, live: bool)
    requires live ==> off <= |c|
    ensures live ==> Splice(c, off, data[..0]) == c
  {
  }

  /** Frames compose when the later round starts from the same chain, or from none. */
  lemma KeptOn(b0: Book, clus0: seq<Cluster>, b1: Book, clus1: seq<Cluster>, b2: Book, clus2: seq<Cluster>, s1: nat, s2: nat)
    requires Kept(b0, clus0, b1, clus1, s1) && Kept(b1, clus1, b2, clus2, s2)
    requires s1 == s2 || (s2 !in b1.chains && s1 !in b0.chains && s1 !in b1.chains)
    ensures Kept(b0, clus0, b2, clus2, s2)
    ensures s1 != s2 ==> s2 !in b0.chains
  {
  }

  lemma WholeSplice(s: Bytes, part: Bytes)
    requires |part| <= |s|
    ensures |part| == |s| ==> Splice(s, 0, part) == part
  {
  }

  lemma GrownBy(c: Bytes, d: Bytes)
    requires |c| <= |d| && d == c + Zeros(|d| - |c|)
    ensures d == Grown(c, |d|)
  {
  }
}
