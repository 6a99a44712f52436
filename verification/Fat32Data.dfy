/**
 The byte sequence a cluster chain holds, and what reading, writing and
 appending do to it. Clusters are sequences of sectors, chains are sequences
 of clusters, so the bytes are flattened twice.
 */
module Fat32Data {
  import opened FlatBytes
  import opened FatMap
  import opened Fat32Layout
  import Links

  ghost predicate InTable(clus: seq<Cluster>, ch: seq<nat>) {
    forall i :: 0 <= i < |ch| ==> ch[i] < |clus|
  }

  ghost predicate Sized(clus: seq<Cluster>, spc: nat) {
    forall c :: 0 <= c < |clus| ==> |clus[c]| == spc && Uniform(clus[c], SECTOR)
  }

  ghost function Pick(clus: seq<Cluster>, ch: seq<nat>): (r: seq<Cluster>)
    requires InTable(clus, ch)
    ensures |r| == |ch| && forall i :: 0 <= i < |ch| ==> r[i] == clus[ch[i]]
  {
    seq(|ch|, i requires 0 <= i < |ch| => clus[ch[i]])
  }

  ghost function SectorsOf(clus: seq<Cluster>, ch: seq<nat>): seq<Bytes>
    requires InTable(clus, ch)
  {
    Flat(Pick(clus, ch))
  }

  /** The bytes of the chain ch. */
  ghost function DataOf(clus: seq<Cluster>, ch: seq<nat>): Bytes
    requires InTable(clus, ch)
  {
    Flat(SectorsOf(clus, ch))
  }

  lemma {:induction false} SizeOfSizes(n: nat, spc: nat, bs: nat)
    ensures Size(n, Size(spc, bs)) == Size(Size(n, spc), bs)
  {
    if n > 0 {
      SizeOfSizes(n - 1, spc, bs);
      SizeAdd(Size(n - 1, spc), spc, bs);
    }
  }

  lemma {:induction false} FlatUniform<T>(blocks: seq<seq<seq<T>>>, bs: nat)
    requires forall i :: 0 <= i < |blocks| ==> Uniform(blocks[i], bs)
    ensures Uniform(Flat(blocks), bs)
  {
    if blocks != [] {
      FlatUniform(blocks[1..], bs);
    }
  }

  lemma SectorsShape(clus: seq<Cluster>, ch: seq<nat>, spc: nat)
    requires InTable(clus, ch) && Sized(clus, spc)
    ensures Uniform(Pick(clus, ch), spc) && Uniform(SectorsOf(clus, ch), SECTOR)
    ensures |SectorsOf(clus, ch)| == Size(|ch|, spc)
  {
    FlatUniform(Pick(clus, ch), SECTOR);
    FlatLength(Pick(clus, ch), spc);
  }

  lemma DataLength(clus: seq<Cluster>, ch: seq<nat>, spc: nat)
    requires InTable(clus, ch) && Sized(clus, spc)
    ensures |DataOf(clus, ch)| == Size(|ch|, Size(spc, SECTOR))
  {
    SectorsShape(clus, ch, spc);
    FlatLength(SectorsOf(clus, ch), SECTOR);
    SizeOfSizes(|ch|, spc, SECTOR);
  }

  /** Sector s of the i-th cluster is the chain's sector number Size(i, spc) + s. */
  lemma SectorAt(clus: seq<Cluster>, ch: seq<nat>, spc: nat, i: nat, s: nat)
    requires InTable(clus, ch) && Sized(clus, spc) && i < |ch| && s < spc
    ensures Size(i, spc) + s < |SectorsOf(clus, ch)|
    ensures SectorsOf(clus, ch)[Size(i, spc) + s] == clus[ch[i]][s]
  {
    hide Flat;
    SectorsShape(clus, ch, spc);
    FlatBlock(Pick(clus, ch), spc, i);
    assert SectorsOf(clus, ch)[Size(i, spc)..Size(i, spc) + spc][s] == clus[ch[i]][s];
  }

  lemma BytesAt(clus: seq<Cluster>, ch: seq<nat>, spc: nat, i: nat, s: nat)
    requires InTable(clus, ch) && Sized(clus, spc) && i < |ch| && s < spc
    ensures Size(Size(i, spc) + s, SECTOR) + SECTOR <= |DataOf(clus, ch)|
    ensures DataOf(clus, ch)[Size(Size(i, spc) + s, SECTOR)..Size(Size(i, spc) + s, SECTOR) + SECTOR] == clus[ch[i]][s]
  {
    hide Flat, SectorsOf, Size, Sized;
    SectorsShape(clus, ch, spc);
    SectorAt(clus, ch, spc, i, s);
    FlatBlock(SectorsOf(clus, ch), SECTOR, Size(i, spc) + s);
  }

  /** Writing a sector of the i-th cluster updates one sector of the chain. */
  lemma SectorsUpdated(clus: seq<Cluster>, ch: seq<nat>, spc: nat, i: nat, s: nat, buf: Bytes)
    requires InTable(clus, ch) && Sized(clus, spc) && Links.Distinct(ch) && i < |ch| && s < spc
    ensures Size(i, spc) + s < |SectorsOf(clus, ch)|
    ensures SectorsOf(clus[ch[i] := clus[ch[i]][s := buf]], ch) == SectorsOf(clus, ch)[Size(i, spc) + s := buf]
  {
    hide Flat, Size;
    SectorsShape(clus, ch, spc);
    var p, p' := Pick(clus, ch), Pick(clus[ch[i] := clus[ch[i]][s := buf]], ch);
    var cl := clus[ch[i]];
    assert p'[i] == cl[s := buf] == Splice(cl, s, [buf]);
    assert p' == p[i := Splice(p[i], s, [buf])];
    FlatPatch(p, spc, i, s, [buf]);
    SectorAt(clus, ch, spc, i, s);
    OneSplice(SectorsOf(clus, ch), Size(i, spc) + s, buf);
  }

  lemma OneSplice<T>(s: seq<T>, k: nat, x: T)
    requires k < |s|
    ensures Splice(s, k, [x]) == s[k := x]
  {
  }

  /** Patching bytes of a sector of a chain is a splice of the chain's bytes. */
  lemma BytesPatched(clus: seq<Cluster>, ch: seq<nat>, spc: nat, i: nat, s: nat, so: nat, data: Bytes)
    requires InTable(clus, ch) && Sized(clus, spc) && Links.Distinct(ch) && i < |ch| && s < spc && so + |data| <= SECTOR
    ensures |clus[ch[i]][s]| == SECTOR
    ensures Size(Size(i, spc) + s, SECTOR) + so + |data| <= |DataOf(clus, ch)|
    ensures var clus' := clus[ch[i] := clus[ch[i]][s := Splice(clus[ch[i]][s], so, data)]];
            DataOf(clus', ch) == Splice(DataOf(clus, ch), Size(Size(i, spc) + s, SECTOR) + so, data)
  {
    hide Flat, Size, SectorsOf, Splice;
    SectorsShape(clus, ch, spc);
    SectorAt(clus, ch, spc, i, s);
    SectorsUpdated(clus, ch, spc, i, s, Splice(clus[ch[i]][s], so, data));
    FlatPatch(SectorsOf(clus, ch), SECTOR, Size(i, spc) + s, so, data);
  }

  /** A chain's bytes depend on its own clusters only. */
  lemma DataSame(clus: seq<Cluster>, clus': seq<Cluster>, ch: seq<nat>)
    requires |clus| == |clus'| && InTable(clus, ch) && forall i :: 0 <= i < |ch| ==> clus'[ch[i]] == clus[ch[i]]
    ensures DataOf(clus', ch) == DataOf(clus, ch)
  {
    assert Pick(clus', ch) == Pick(clus, ch);
  }

  /** A cluster appended to a chain appends its bytes. */
  lemma DataAppend(clus: seq<Cluster>, ch: seq<nat>, c: nat)
    requires InTable(clus, ch) && c < |clus|
    ensures DataOf(clus, ch + [c]) == DataOf(clus, ch) + Flat(clus[c])
    ensures DataOf(clus, [c]) == Flat(clus[c])
  {
    hide Flat;
    assert Pick(clus, ch + [c]) == Pick(clus, ch) + [clus[c]];
    FlatConcat(Pick(clus, ch), [clus[c]]);
    FlatOne(clus[c]);
    FlatConcat(SectorsOf(clus, ch), clus[c]);
    assert Pick(clus, [c]) == [clus[c]];
  }

  lemma {:induction false} FlatZeros(blocks: seq<Bytes>, bs: nat)
    requires forall i :: 0 <= i < |blocks| ==> blocks[i] == Zeros(bs)
    ensures Flat(blocks) == Zeros(Size(|blocks|, bs))
  {
    if blocks != [] {
      FlatZeros(blocks[1..], bs);
      SizeNext(|blocks| - 1, bs);
    }
  }

  lemma {:induction false} AtLeast(q: nat, bs: nat)
    requires 0 < bs
    ensures q <= Size(q, bs)
  {
    if q > 0 {
      AtLeast(q - 1, bs);
    }
  }

  /** The cluster, sector and offset of byte off of a chain, as fat32_chain_read computes them. */
  lemma Locate(off: nat, spc: nat)
    requires 0 < spc
    ensures 0 < Size(spc, SECTOR) && Quot(off, Size(spc, SECTOR)) <= off
    ensures var ci, within := Quot(off, Size(spc, SECTOR)), Rem(off, Size(spc, SECTOR));
            && within / SECTOR < spc
            && off == Size(Size(ci, spc) + within / SECTOR, SECTOR) + within % SECTOR
            && off == Size(ci, Size(spc, SECTOR)) + within
  {
    SizeMono(1, spc, SECTOR);
    SizeNext(0, SECTOR);
    var cb := Size(spc, SECTOR);
    var ci, within := Quot(off, cb), Rem(off, cb);
    SizeOfSizes(ci, spc, SECTOR);
    SizeIsProduct(within / SECTOR, SECTOR);
    SizeIsProduct(spc, SECTOR);
    AtLeast(ci, cb);
    SizeAdd(Size(ci, spc), within / SECTOR, SECTOR);
  }

  // ----- Growth and frames -----

  lemma GrownMore(c: Bytes, m: nat, n: nat, pos: nat, data: Bytes)
    requires |c| <= m <= n && pos + |data| <= m
    ensures Grown(Splice(Grown(c, m), pos, data), n) == Splice(Grown(c, n), pos, data)
    ensures Grown(c, |c|) == c
  {
  }

  /** Every live chain but s kept its clusters and their bytes, and no other chain appeared. */
  ghost predicate Kept(b0: Book, clus0: seq<Cluster>, b1: Book, clus1: seq<Cluster>, s: nat) {
    && |clus1| == |clus0|
    && (forall h :: h in b0.chains && h != s ==> h in b1.chains && b1.chains[h] == b0.chains[h])
    && (forall h :: h in b1.chains && h != s ==> h in b0.chains)
    && (forall h, i :: h in b0.chains && h != s && 0 <= i < |b0.chains[h]| && b0.chains[h][i] < |clus0| ==>
          clus1[b0.chains[h][i]] == clus0[b0.chains[h][i]])
  }

  lemma KeptTrans(b0: Book, clus0: seq<Cluster>, b1: Book, clus1: seq<Cluster>, b2: Book, clus2: seq<Cluster>, s: nat)
    requires Kept(b0, clus0, b1, clus1, s) && Kept(b1, clus1, b2, clus2, s)
    ensures Kept(b0, clus0, b2, clus2, s)
  {
  }

  lemma KeptSame(b: Book, clus: seq<Cluster>, s: nat)
    ensures Kept(b, clus, b, clus, s)
  {
  }

  /** A kept chain holds the same bytes. */
  lemma KeptData(b0: Book, clus0: seq<Cluster>, b1: Book, clus1: seq<Cluster>, s: nat, h: nat)
    requires Kept(b0, clus0, b1, clus1, s) && h in b0.chains && h != s && InTable(clus0, b0.chains[h])
    ensures h in b1.chains && b1.chains[h] == b0.chains[h] && DataOf(clus1, b1.chains[h]) == DataOf(clus0, b0.chains[h])
  {
    DataSame(clus0, clus1, b0.chains[h]);
  }

  /** Writing a cluster of chain s keeps the others. */
  lemma KeptWrite(fat: Fat, n: nat, b: Book, clus: seq<Cluster>, s: nat, i: nat, cl: Cluster)
    requires Wf(fat, n, b) && |clus| == n && s in b.chains && i < |b.chains[s]| && b.chains[s][i] < n
    ensures Kept(b, clus, b, clus[b.chains[s][i] := cl], s)
  {
    hide Covered, AllLinked;
    forall h, j | h in b.chains && h != s && 0 <= j < |b.chains[h]|
      ensures b.chains[h][j] != b.chains[s][i]
    {
      ChainsDisjoint(fat, n, b, h, j, s, i);
    }
  }

  /** A new one-cluster chain keeps every chain there was. */
  lemma KeptAlloc(fat: Fat, n: nat, b: Book, clus: seq<Cluster>, c: nat, cl: Cluster)
    requires Wf(fat, n, b) && |clus| == n && ValidClus(n, c) && c !in b.own && c !in b.chains
    ensures Kept(b, clus, AllocBook(b, c), clus[c := cl], c)
  {
    hide Covered, AllLinked;
    forall h, j | h in b.chains && 0 <= j < |b.chains[h]|
      ensures b.chains[h][j] != c
    {
      OwnsItself(b, h, j);
    }
  }

  /** Growing chain s by a new cluster keeps the others. */
  lemma KeptLink(fat: Fat, n: nat, b: Book, clus: seq<Cluster>, s: nat, c: nat, cl: Cluster)
    requires Wf(fat, n, b) && |clus| == n && ValidClus(n, c) && c !in b.own && c !in b.chains && s in b.chains
    ensures Kept(b, clus, LinkBook(AllocBook(b, c), s, c), clus[c := cl], s)
  {
    hide Covered, AllLinked;
    KeptAlloc(fat, n, b, clus, c, cl);
  }
}
