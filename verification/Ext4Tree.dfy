/**
 Extent trees: the walk the driver makes, the flat list of extents a tree stands
 for, and when the two agree (src/kernel/fs/ext4.c:78-87, 146-223). The layout of
 extents and index entries is that of the ext4 disk format.
 */
module Ext4Tree {
  import opened Errors
  import opened FlatBytes
  import opened LittleEndian

  const EH_MAGIC := 0xf30a
  const MAX_DEPTH := 5
  const HEAD := 12
  const UNINIT := 0x8000

  datatype Res = Mapped(phys: nat, uninit: bool) | Hole | Invalid | IoError

  /** The blocks of the file system. */
  type Disk = seq<Bytes>

  // ----- Nodes -----

  function Count(node: Bytes): nat
    requires HEAD <= |node|
  {
    Get16(node, 2)
  }

  function Depth(node: Bytes): nat
    requires HEAD <= |node|
  {
    Get16(node, 6)
  }

  /** The checks of ext4_map_walk on a node's header. */
  predicate HeadOk(node: Bytes) {
    && HEAD <= |node| && Get16(node, 0) == EH_MAGIC
    && Get16(node, 2) <= Get16(node, 4) && Get16(node, 4) * HEAD + HEAD <= |node|
  }

  /** Where entry i lies. */
  function Off(i: nat): nat {
    HEAD + HEAD * i
  }

  predicate Has(node: Bytes, i: nat) {
    Off(i) + HEAD <= |node|
  }

  function Key(node: Bytes, i: nat): nat
    requires Has(node, i)
  {
    Get32(node, Off(i))
  }

  /** The block an index entry names: ei_leaf_lo at 4, ei_leaf_hi at 8. */
  function Child(node: Bytes, i: nat): nat
    requires Has(node, i)
  {
    Get32(node, Off(i) + 4) + Get16(node, Off(i) + 8) * 0x1_0000_0000
  }

  /** The block the driver reads for it: the upper half is taken from offset 6. */
  function ReadChild(node: Bytes, i: nat): nat
    requires Has(node, i)
  {
    Get32(node, Off(i) + 4) + Get16(node, Off(i) + 6) * 0x1_0000_0000
  }

  /** The driver reads the block named exactly when bits 32-47 of its number repeat bits 16-31. */
  lemma ChildRead(node: Bytes, i: nat)
    requires Has(node, i)
    ensures ReadChild(node, i) == Child(node, i) <==> Get16(node, Off(i) + 8) == Get32(node, Off(i) + 4) / 0x1_0000
  {
    UpperHalf(node, Off(i) + 4);
  }

  lemma UpperHalf(s: Bytes, at: nat)
    requires at + 4 <= |s|
    ensures Get32(s, at) / 0x1_0000 == Get16(s, at + 2)
  {
  }

  /** An extent: first block, raw length, first physical block. */
  datatype Ext = Ext(b: nat, len: nat, start: nat)
  {
    /** Up to 0x8000 a length is that of written blocks, above it of unwritten ones. */
    function Span(): nat {
      if len <= UNINIT then len else len - UNINIT
    }

    predicate Unwritten() {
      len > UNINIT
    }

    /** The driver masks the top bit in every case. */
    function ReadSpan(): nat {
      len % UNINIT
    }

    predicate Holds(lb: nat) {
      b <= lb < b + Span()
    }
  }

  function ExtAt(node: Bytes, i: nat): (e: Ext)
    requires Has(node, i)
    ensures e.b < U32 && e.len < 0x1_0000
  {
    Ext(Get32(node, Off(i)), Get16(node, Off(i) + 4), Get32(node, Off(i) + 8) + Get16(node, Off(i) + 6) * 0x1_0000_0000)
  }

  // ----- The driver's walk -----

  /** The leaf loop from entry i on. */
  function Search(node: Bytes, n: nat, i: nat, lb: nat): Res
    requires i <= n && forall k: nat :: k < n ==> Has(node, k)
    decreases n - i
  {
    if i == n then Hole
    else
      var e := ExtAt(node, i);
      if e.ReadSpan() != 0 && e.b <= lb < (e.b + e.ReadSpan()) % U32 then Mapped(e.start + (lb - e.b), e.len >= UNINIT)
      else Search(node, n, i + 1, lb)
  }

  /** The index loop: how many of the entries from i on have keys up to lb before the first that has not. */
  function Reach(node: Bytes, n: nat, i: nat, lb: nat): (k: nat)
    requires i <= n && forall k: nat :: k < n ==> Has(node, k)
    ensures i <= k <= n && (forall j :: i <= j < k ==> Key(node, j) <= lb) && (k < n ==> Key(node, k) > lb)
    decreases n - i
  {
    if i == n || Key(node, i) > lb then i else Reach(node, n, i + 1, lb)
  }

  /** ext4_map_walk. */
  function Walk(disk: Disk, node: Bytes, lb: nat, left: nat): Res
    decreases left
  {
    if !HeadOk(node) then Invalid
    else if Depth(node) == 0 then Search(node, Count(node), 0, lb)
    else if left == 0 || Depth(node) > MAX_DEPTH then Invalid
    else
      var k := Reach(node, Count(node), 0, lb);
      if k == 0 then Hole
      else if ReadChild(node, k - 1) >= |disk| then IoError
      else Walk(disk, disk[ReadChild(node, k - 1)], lb, left - 1)
  }

  lemma SearchStep(node: Bytes, n: nat, i: nat, lb: nat)
    requires i < n && forall k: nat :: k < n ==> Has(node, k)
    ensures var e := ExtAt(node, i);
            Search(node, n, i, lb) ==
              if e.ReadSpan() != 0 && e.b <= lb < (e.b + e.ReadSpan()) % U32 then Mapped(e.start + (lb - e.b), e.len >= UNINIT)
                                   else Search(node, n, i + 1, lb)
  {
  }

  lemma SearchEnd(node: Bytes, n: nat, lb: nat)
    requires forall k: nat :: k < n ==> Has(node, k)
    ensures Search(node, n, n, lb) == Hole
  {
  }

  // ----- The flat list -----

  function Lookup(es: seq<Ext>, lb: nat): Res {
    if es == [] then Hole
    else if es[0].Holds(lb) then Mapped(es[0].start + (lb - es[0].b), es[0].Unwritten())
    else Lookup(es[1..], lb)
  }

  /** The extents of a leaf from entry i on. */
  function Leaf(node: Bytes, n: nat, i: nat): seq<Ext>
    requires i <= n && forall k: nat :: k < n ==> Has(node, k)
    decreases n - i
  {
    if i == n then [] else [ExtAt(node, i)] + Leaf(node, n, i + 1)
  }

  /** A tree of the given depth below a node whose extents all lie in [lo, hi). */
  ghost predicate Tree(disk: Disk, node: Bytes, depth: nat, lo: nat, hi: nat)
    decreases depth
  {
    && HeadOk(node) && Depth(node) == depth && hi <= U32
    && if depth == 0 then forall i: nat :: i < Count(node) ==> lo <= ExtAt(node, i).b && ExtAt(node, i).b + ExtAt(node, i).Span() <= hi
       else forall i: nat :: i < Count(node) ==>
              && Child(node, i) < |disk| && lo <= Key(node, i) <= Upper(node, i, hi)
              && Tree(disk, disk[Child(node, i)], depth - 1, Key(node, i), Upper(node, i, hi))
  }

  /** Where the range of child i ends: at the next key, or at the node's own end. */
  function Upper(node: Bytes, i: nat, hi: nat): nat
    requires HeadOk(node) && i < Count(node)
  {
    if i + 1 < Count(node) then Key(node, i + 1) else hi
  }

  /** The extents below a node, from entry i on. */
  ghost function FlatList(disk: Disk, node: Bytes, depth: nat, i: nat): seq<Ext>
    requires HeadOk(node) && i <= Count(node)
    decreases depth, Count(node) - i
  {
    if depth == 0 then Leaf(node, Count(node), i)
    else if i == Count(node) then []
    else (if Child(node, i) < |disk| && HeadOk(disk[Child(node, i)]) then FlatList(disk, disk[Child(node, i)], depth - 1, 0) else [])
         + FlatList(disk, node, depth, i + 1)
  }

  /** The driver reads every block number and length below the node as the format means it. */
  ghost predicate Readable(disk: Disk, node: Bytes, depth: nat)
    requires HeadOk(node)
    decreases depth
  {
    if depth == 0 then forall i: nat :: i < Count(node) ==> ExtAt(node, i).len != UNINIT && ExtAt(node, i).b + ExtAt(node, i).Span() < U32
    else forall i: nat :: i < Count(node) ==>
           && ReadChild(node, i) == Child(node, i)
           && (Child(node, i) < |disk| && HeadOk(disk[Child(node, i)]) ==> Readable(disk, disk[Child(node, i)], depth - 1))
  }

  // ----- Agreement -----

  lemma {:induction false} LookupConcat(a: seq<Ext>, b: seq<Ext>, lb: nat)
    ensures Lookup(a + b, lb) == if Lookup(a, lb) == Hole then Lookup(b, lb) else Lookup(a, lb)
  {
    if a == [] {
      assert a + b == b;
    } else {
      assert (a + b)[1..] == a[1..] + b;
      LookupConcat(a[1..], b, lb);
    }
  }

  /** A leaf read the format's way: no length of exactly 0x8000, no range up to the last block. */
  lemma {:induction false} LeafAgrees(node: Bytes, n: nat, i: nat, lb: nat)
    requires i <= n && forall k: nat :: k < n ==> Has(node, k)
    requires forall k: nat :: i <= k < n ==> ExtAt(node, k).len != UNINIT && ExtAt(node, k).b + ExtAt(node, k).Span() < U32
    ensures Search(node, n, i, lb) == Lookup(Leaf(node, n, i), lb)
    decreases n - i
  {
    hide ExtAt;
    if i < n {
      LeafAgrees(node, n, i + 1, lb);
      assert ([ExtAt(node, i)] + Leaf(node, n, i + 1))[1..] == Leaf(node, n, i + 1);
    }
  }

  lemma {:induction false} LeafOutside(node: Bytes, n: nat, i: nat, lb: nat, lo: nat, hi: nat)
    requires i <= n && forall k: nat :: k < n ==> Has(node, k)
    requires forall k: nat :: i <= k < n ==> lo <= ExtAt(node, k).b && ExtAt(node, k).b + ExtAt(node, k).Span() <= hi
    requires lb < lo || hi <= lb
    ensures Lookup(Leaf(node, n, i), lb) == Hole
    decreases n - i
  {
    hide ExtAt;
    if i < n {
      LeafOutside(node, n, i + 1, lb, lo, hi);
      assert ([ExtAt(node, i)] + Leaf(node, n, i + 1))[1..] == Leaf(node, n, i + 1);
    }
  }

  /** What a tree says of child i. */
  lemma ChildTree(disk: Disk, node: Bytes, depth: nat, lo: nat, hi: nat, i: nat)
    requires depth > 0 && Tree(disk, node, depth, lo, hi) && i < Count(node)
    ensures Child(node, i) < |disk| && lo <= Key(node, i) <= Upper(node, i, hi)
    ensures Tree(disk, disk[Child(node, i)], depth - 1, Key(node, i), Upper(node, i, hi)) && HeadOk(disk[Child(node, i)])
  {
    hide Child, Key, Upper, HeadOk;
  }

  lemma FlatStep(disk: Disk, node: Bytes, depth: nat, lo: nat, hi: nat, i: nat)
    requires depth > 0 && Tree(disk, node, depth, lo, hi) && i <= Count(node)
    ensures i == Count(node) ==> FlatList(disk, node, depth, i) == []
    ensures i < Count(node) ==> Child(node, i) < |disk| && HeadOk(disk[Child(node, i)])
    ensures i < Count(node) ==>
              FlatList(disk, node, depth, i) == FlatList(disk, disk[Child(node, i)], depth - 1, 0) + FlatList(disk, node, depth, i + 1)
  {
    if i < Count(node) {
      ChildTree(disk, node, depth, lo, hi, i);
      hide Child, Key, Upper, HeadOk, Tree;
    }
  }

  /** The keys of an index node never fall. */
  lemma {:induction false} KeysRise(disk: Disk, node: Bytes, depth: nat, lo: nat, hi: nat, i: nat, j: nat)
    requires depth > 0 && Tree(disk, node, depth, lo, hi) && i <= j < Count(node)
    ensures Key(node, i) <= Key(node, j)
    decreases j - i
  {
    if i < j {
      KeysRise(disk, node, depth, lo, hi, i + 1, j);
      ChildTree(disk, node, depth, lo, hi, i);
      hide Tree, Key, Child, HeadOk;
    }
  }

  lemma {:induction false} KeysBelow(disk: Disk, node: Bytes, depth: nat, lo: nat, hi: nat, i: nat)
    requires depth > 0 && Tree(disk, node, depth, lo, hi) && i < Count(node)
    ensures Upper(node, i, hi) <= hi
    decreases Count(node) - i
  {
    if i + 1 < Count(node) {
      KeysBelow(disk, node, depth, lo, hi, i + 1);
      ChildTree(disk, node, depth, lo, hi, i + 1);
    }
  }

  /** Below a node nothing lies outside its range. */
  lemma {:induction false} Outside(disk: Disk, node: Bytes, depth: nat, i: nat, lo: nat, hi: nat, lb: nat)
    requires Tree(disk, node, depth, lo, hi) && i <= Count(node) && (lb < lo || hi <= lb)
    ensures Lookup(FlatList(disk, node, depth, i), lb) == Hole
    decreases depth, Count(node) - i
  {
    hide Tree, FlatList, Child, Key, Upper, Get16, Get32, Lookup;
    TreeHead(disk, node, depth, lo, hi);
    if depth == 0 {
      OutsideLeaf(disk, node, i, lo, hi, lb);
    } else {
      FlatStep(disk, node, depth, lo, hi, i);
      if i < Count(node) {
        ChildTree(disk, node, depth, lo, hi, i);
        KeysBelow(disk, node, depth, lo, hi, i);
        var c := disk[Child(node, i)];
        Outside(disk, c, depth - 1, 0, Key(node, i), Upper(node, i, hi), lb);
        Outside(disk, node, depth, i + 1, lo, hi, lb);
        LookupConcat(FlatList(disk, c, depth - 1, 0), FlatList(disk, node, depth, i + 1), lb);
      } else {
        LookupNone(lb);
      }
    }
  }

  lemma LookupNone(lb: nat)
    ensures Lookup([], lb) == Hole
  {
  }

  lemma TreeHead(disk: Disk, node: Bytes, depth: nat, lo: nat, hi: nat)
    requires Tree(disk, node, depth, lo, hi)
    ensures HeadOk(node) && Depth(node) == depth
  {
  }

  lemma OutsideLeaf(disk: Disk, node: Bytes, i: nat, lo: nat, hi: nat, lb: nat)
    requires Tree(disk, node, 0, lo, hi) && i <= Count(node) && (lb < lo || hi <= lb)
    ensures Lookup(FlatList(disk, node, 0, i), lb) == Hole
  {
    LeafOutside(node, Count(node), i, lb, lo, hi);
  }

  /** No child from i on holds a block below its key. */
  lemma {:induction false} HoleFrom(disk: Disk, node: Bytes, depth: nat, lo: nat, hi: nat, i: nat, lb: nat)
    requires depth > 0 && Tree(disk, node, depth, lo, hi) && i <= Count(node) && (i < Count(node) ==> lb < Key(node, i))
    ensures Lookup(FlatList(disk, node, depth, i), lb) == Hole
    decreases Count(node) - i
  {
    hide Tree, FlatList, Child, Key, Upper, Get16, Get32, Lookup;
    TreeHead(disk, node, depth, lo, hi);
    FlatStep(disk, node, depth, lo, hi, i);
    LookupNone(lb);
    if i < Count(node) {
      ChildTree(disk, node, depth, lo, hi, i);
      if i + 1 < Count(node) {
        KeysRise(disk, node, depth, lo, hi, i, i + 1);
      }
      var c := disk[Child(node, i)];
      Outside(disk, c, depth - 1, 0, Key(node, i), Upper(node, i, hi), lb);
      HoleFrom(disk, node, depth, lo, hi, i + 1, lb);
      LookupConcat(FlatList(disk, c, depth - 1, 0), FlatList(disk, node, depth, i + 1), lb);
    }
  }

  /** The child whose range holds the block decides. */
  lemma {:induction false} OneChild(disk: Disk, node: Bytes, depth: nat, lo: nat, hi: nat, i: nat, k: nat, lb: nat)
    requires depth > 0 && Tree(disk, node, depth, lo, hi) && i <= k < Count(node) && Key(node, k) <= lb < hi
    requires k + 1 < Count(node) ==> lb < Key(node, k + 1)
    ensures Child(node, k) < |disk| && HeadOk(disk[Child(node, k)])
    ensures Lookup(FlatList(disk, node, depth, i), lb) == Lookup(FlatList(disk, disk[Child(node, k)], depth - 1, 0), lb)
    decreases k - i
  {
    hide Tree, FlatList, Child, Key, Upper, Get16, Get32, Lookup;
    TreeHead(disk, node, depth, lo, hi);
    FlatStep(disk, node, depth, lo, hi, i);
    ChildTree(disk, node, depth, lo, hi, i);
    UpperIs(node, i, hi);
    if i < k {
      KeysRise(disk, node, depth, lo, hi, i + 1, k);
    }
    var c := disk[Child(node, i)];
    LookupConcat(FlatList(disk, c, depth - 1, 0), FlatList(disk, node, depth, i + 1), lb);
    if i == k {
      HoleFrom(disk, node, depth, lo, hi, i + 1, lb);
    } else {
      Outside(disk, c, depth - 1, 0, Key(node, i), Upper(node, i, hi), lb);
      OneChild(disk, node, depth, lo, hi, i + 1, k, lb);
    }
  }

  lemma UpperIs(node: Bytes, i: nat, hi: nat)
    requires HeadOk(node) && i < Count(node)
    ensures Upper(node, i, hi) == if i + 1 < Count(node) then Key(node, i + 1) else hi
  {
  }

  lemma ChildReadable(disk: Disk, node: Bytes, depth: nat, lo: nat, hi: nat, i: nat)
    requires depth > 0 && Tree(disk, node, depth, lo, hi) && Readable(disk, node, depth) && i < Count(node)
    ensures ReadChild(node, i) == Child(node, i) < |disk| && HeadOk(disk[Child(node, i)]) && Readable(disk, disk[Child(node, i)], depth - 1)
  {
    ChildTree(disk, node, depth, lo, hi, i);
    hide Tree, HeadOk, Child, Key, ReadChild, Upper;
  }

  /** In a tree that can be read, the walk is lookup in the flat list of extents. */
  lemma {:induction false} WalkIsLookup(disk: Disk, node: Bytes, depth: nat, lo: nat, hi: nat, lb: nat, left: nat)
    requires Tree(disk, node, depth, lo, hi) && Readable(disk, node, depth) && lb < hi && depth <= left && depth <= MAX_DEPTH
    ensures Walk(disk, node, lb, left) == Lookup(FlatList(disk, node, depth, 0), lb)
    decreases depth
  {
    hide Walk, Tree, FlatList, Readable, Child, ReadChild, Key, Upper, Get16, Get32, Reach, Lookup;
    TreeHead(disk, node, depth, lo, hi);
    if depth == 0 {
      WalkLeaf(disk, node, lo, hi, lb, left);
    } else {
      var k := Reach(node, Count(node), 0, lb);
      WalkStep(disk, node, lb, left, k);
      if k == 0 {
        HoleFrom(disk, node, depth, lo, hi, 0, lb);
      } else {
        ChildReadable(disk, node, depth, lo, hi, k - 1);
        ChildTree(disk, node, depth, lo, hi, k - 1);
        UpperIs(node, k - 1, hi);
        OneChild(disk, node, depth, lo, hi, 0, k - 1, lb);
        KeysBelow(disk, node, depth, lo, hi, k - 1);
        WalkIsLookup(disk, disk[Child(node, k - 1)], depth - 1, Key(node, k - 1), Upper(node, k - 1, hi), lb, left - 1);
      }
    }
  }

  lemma WalkLeaf(disk: Disk, node: Bytes, lo: nat, hi: nat, lb: nat, left: nat)
    requires Tree(disk, node, 0, lo, hi) && Readable(disk, node, 0)
    ensures Walk(disk, node, lb, left) == Lookup(FlatList(disk, node, 0, 0), lb)
  {
    LeafAgrees(node, Count(node), 0, lb);
  }

  lemma WalkStep(disk: Disk, node: Bytes, lb: nat, left: nat, k: nat)
    requires HeadOk(node) && 0 < Depth(node) <= MAX_DEPTH && left > 0 && k == Reach(node, Count(node), 0, lb)
    ensures k == 0 ==> Walk(disk, node, lb, left) == Hole
    ensures k > 0 && ReadChild(node, k - 1) < |disk| ==>
              Walk(disk, node, lb, left) == Walk(disk, disk[ReadChild(node, k - 1)], lb, left - 1)
  {
  }

  // ----- Where the driver and the format differ -----

  /** Extents of at least one block that do not overlap. */
  ghost predicate Separate(node: Bytes, n: nat) {
    && (forall k: nat :: k < n ==> Has(node, k) && ExtAt(node, k).Span() > 0 && ExtAt(node, k).b + ExtAt(node, k).Span() <= U32)
    && (forall j: nat, k: nat, lb: nat :: j < k < n && ExtAt(node, j).Holds(lb) ==> !ExtAt(node, k).Holds(lb))
  }

  lemma {:induction false} Found(node: Bytes, n: nat, i: nat, k: nat, lb: nat)
    requires Separate(node, n) && i <= k < n && ExtAt(node, k).Holds(lb)
    ensures Lookup(Leaf(node, n, i), lb).Mapped?
    decreases k - i
  {
    hide ExtAt;
    assert ([ExtAt(node, i)] + Leaf(node, n, i + 1))[1..] == Leaf(node, n, i + 1);
    if i < k {
      Found(node, n, i + 1, k, lb);
    }
  }

  lemma {:induction false} Missed(node: Bytes, n: nat, i: nat, k: nat)
    requires Separate(node, n) && i <= n && k < n && forall j: nat :: j < n ==> Has(node, j)
    requires ExtAt(node, k).len == UNINIT || ExtAt(node, k).b + ExtAt(node, k).Span() == U32
    ensures Search(node, n, i, ExtAt(node, k).b) == Hole
    decreases n - i
  {
    hide ExtAt, Search, Separate;
    var lb := ExtAt(node, k).b;
    if i < n {
      Missed(node, n, i + 1, k);
      SearchStep(node, n, i, lb);
      NotRead(node, n, i, k);
    } else {
      SearchEnd(node, n, lb);
    }
  }

  lemma NotRead(node: Bytes, n: nat, i: nat, k: nat)
    requires Separate(node, n) && i < n && k < n
    requires ExtAt(node, k).len == UNINIT || ExtAt(node, k).b + ExtAt(node, k).Span() == U32
    ensures var e, lb := ExtAt(node, i), ExtAt(node, k).b;
            !(e.ReadSpan() != 0 && e.b <= lb < (e.b + e.ReadSpan()) % U32)
  {
    hide ExtAt;
    var e, f := ExtAt(node, i), ExtAt(node, k);
    assert f.Holds(f.b) && (e.Holds(f.b) ==> i == k);
  }

  /** A leaf is read as the format means it exactly when no extent has the length 0x8000 and none ends at block 2^32. */
  lemma LeafExact(node: Bytes, n: nat)
    requires Separate(node, n)
    ensures (forall lb: nat :: lb < U32 ==> Search(node, n, 0, lb) == Lookup(Leaf(node, n, 0), lb))
            <==> forall k: nat :: k < n ==> ExtAt(node, k).len != UNINIT && ExtAt(node, k).b + ExtAt(node, k).Span() < U32
  {
    hide ExtAt;
    if forall k: nat :: k < n ==> ExtAt(node, k).len != UNINIT && ExtAt(node, k).b + ExtAt(node, k).Span() < U32 {
      forall lb: nat | lb < U32
        ensures Search(node, n, 0, lb) == Lookup(Leaf(node, n, 0), lb)
      {
        LeafAgrees(node, n, 0, lb);
      }
    } else {
      var k: nat :| k < n && !(ExtAt(node, k).len != UNINIT && ExtAt(node, k).b + ExtAt(node, k).Span() < U32);
      Missed(node, n, 0, k);
      Found(node, n, 0, k, ExtAt(node, k).b);
    }
  }
}
