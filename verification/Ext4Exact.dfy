/**
 Exactly which extent trees the driver reads as the format means them, and examples
 of trees that it does not (src/kernel/fs/ext4.c:146-213).
 */
module Ext4Exact {
  import opened Errors
  import opened FlatBytes
  import opened LittleEndian
  import opened Ext4Tree

  /** A tree whose key ranges and extents are not empty, and whose extents do not overlap. */
  ghost predicate Strict(disk: Disk, node: Bytes, depth: nat, hi: nat)
    requires HeadOk(node)
    decreases depth
  {
    if depth == 0 then Separate(node, Count(node))
    else forall i: nat :: i < Count(node) ==>
           Key(node, i) < Upper(node, i, hi) && Child(node, i) < |disk| && HeadOk(disk[Child(node, i)])
           && Strict(disk, disk[Child(node, i)], depth - 1, Upper(node, i, hi))
  }

  /** The blocks the driver reads on its way to logical block lb. */
  function Trail(disk: Disk, node: Bytes, lb: nat, left: nat): seq<nat>
    decreases left
  {
    if !HeadOk(node) || Depth(node) == 0 || left == 0 || Depth(node) > MAX_DEPTH then []
    else
      var k := Reach(node, Count(node), 0, lb);
      if k == 0 then []
      else
        var c := ReadChild(node, k - 1);
        [c] + if c < |disk| then Trail(disk, disk[c], lb, left - 1) else []
  }

  /** The blocks that the entries name on the way there. */
  function Route(disk: Disk, node: Bytes, depth: nat, lb: nat): seq<nat>
    decreases depth
  {
    if !HeadOk(node) || depth == 0 then []
    else
      var k := Reach(node, Count(node), 0, lb);
      if k == 0 then []
      else
        var c := Child(node, k - 1);
        [c] + if c < |disk| then Route(disk, disk[c], depth - 1, lb) else []
  }

  /** The driver goes where the tree points and finds what its extents say. */
  ghost predicate Follows(disk: Disk, node: Bytes, depth: nat, lb: nat, left: nat)
    requires HeadOk(node)
  {
    Trail(disk, node, lb, left) == Route(disk, node, depth, lb) && Walk(disk, node, lb, left) == Lookup(FlatList(disk, node, depth, 0), lb)
  }

  lemma ReachIs(disk: Disk, node: Bytes, depth: nat, lo: nat, hi: nat, i: nat, lb: nat)
    requires depth > 0 && Tree(disk, node, depth, lo, hi) && i < Count(node) && Key(node, i) <= lb
    requires i + 1 < Count(node) ==> lb < Key(node, i + 1)
    ensures Reach(node, Count(node), 0, lb) == i + 1
  {
    hide Tree, Key, HeadOk;
    TreeHead(disk, node, depth, lo, hi);
    var k := Reach(node, Count(node), 0, lb);
    if k <= i {
      KeysRise(disk, node, depth, lo, hi, k, i);
    }
  }

  /** Below the i-th entry, what holds of the node holds of the child. */
  lemma FollowsChild(disk: Disk, node: Bytes, depth: nat, lo: nat, hi: nat, i: nat, lb: nat, left: nat)
    requires depth > 0 && Tree(disk, node, depth, lo, hi) && i < Count(node) && Key(node, i) <= lb < Upper(node, i, hi)
    requires depth <= left && depth <= MAX_DEPTH && Child(node, i) < |disk| && HeadOk(disk[Child(node, i)])
    ensures Trail(disk, node, lb, left) == Route(disk, node, depth, lb) ==> ReadChild(node, i) == Child(node, i)
    ensures ReadChild(node, i) == Child(node, i) ==>
              (Follows(disk, node, depth, lb, left) <==> Follows(disk, disk[Child(node, i)], depth - 1, lb, left - 1))
  {
    hide Tree, Key, HeadOk, FlatList, Child, ReadChild, Trail, Route, Walk, Lookup, Upper, Reach;
    TreeHead(disk, node, depth, lo, hi);
    UpperIs(node, i, hi);
    KeysBelow(disk, node, depth, lo, hi, i);
    ReachIs(disk, node, depth, lo, hi, i, lb);
    OneChild(disk, node, depth, lo, hi, 0, i, lb);
    WalkStep(disk, node, lb, left, i + 1);
    TrailStep(disk, node, lb, left, i + 1);
    RouteStep(disk, node, depth, lb, i + 1);
    var c, r := Child(node, i), ReadChild(node, i);
    Heads(r, if r < |disk| then Trail(disk, disk[r], lb, left - 1) else [], c, Route(disk, disk[c], depth - 1, lb));
  }

  lemma Heads(a: nat, x: seq<nat>, b: nat, y: seq<nat>)
    ensures [a] + x == [b] + y <==> a == b && x == y
  {
    if [a] + x == [b] + y {
      assert a == ([a] + x)[0] == ([b] + y)[0] == b;
      assert x == ([a] + x)[1..] == ([b] + y)[1..] == y;
    }
  }

  lemma RouteStep(disk: Disk, node: Bytes, depth: nat, lb: nat, k: nat)
    requires HeadOk(node) && depth > 0 && 0 < k == Reach(node, Count(node), 0, lb)
    ensures var c := Child(node, k - 1);
            Route(disk, node, depth, lb) == [c] + if c < |disk| then Route(disk, disk[c], depth - 1, lb) else []
  {
  }

  lemma TrailStep(disk: Disk, node: Bytes, lb: nat, left: nat, k: nat)
    requires HeadOk(node) && 0 < Depth(node) <= MAX_DEPTH && left > 0 && 0 < k == Reach(node, Count(node), 0, lb)
    ensures var c := ReadChild(node, k - 1);
            Trail(disk, node, lb, left) == [c] + if c < |disk| then Trail(disk, disk[c], lb, left - 1) else []
  {
  }

  /** Before the first key there is nothing to follow. */
  lemma FollowsNothing(disk: Disk, node: Bytes, depth: nat, lo: nat, hi: nat, lb: nat, left: nat)
    requires depth > 0 && Tree(disk, node, depth, lo, hi) && depth <= left && depth <= MAX_DEPTH && HeadOk(node)
    requires Count(node) > 0 ==> lb < Key(node, 0)
    ensures Follows(disk, node, depth, lb, left)
  {
    hide Tree, Key, HeadOk, FlatList;
    TreeHead(disk, node, depth, lo, hi);
    HoleFrom(disk, node, depth, lo, hi, 0, lb);
    WalkStep(disk, node, lb, left, Reach(node, Count(node), 0, lb));
  }

  ghost predicate AllFollow(disk: Disk, node: Bytes, depth: nat, lo: nat, hi: nat, left: nat)
    requires HeadOk(node)
  {
    forall lb: nat :: lo <= lb < hi ==> Follows(disk, node, depth, lb, left)
  }

  lemma LeafFollows(disk: Disk, node: Bytes, lo: nat, hi: nat, left: nat)
    requires Tree(disk, node, 0, lo, hi) && HeadOk(node) && Strict(disk, node, 0, hi)
    ensures AllFollow(disk, node, 0, lo, hi, left) <==> Readable(disk, node, 0)
  {
    hide HeadOk, ExtAt, Search, Lookup, Leaf;
    TreeHead(disk, node, 0, lo, hi);
    var n := Count(node);
    forall lb: nat | Readable(disk, node, 0)
      ensures Search(node, n, 0, lb) == Lookup(Leaf(node, n, 0), lb)
    {
      LeafAgrees(node, n, 0, lb);
    }
    forall k: nat | k < n && (ExtAt(node, k).len == UNINIT || ExtAt(node, k).b + ExtAt(node, k).Span() == U32)
      ensures lo <= ExtAt(node, k).b < hi && !Follows(disk, node, 0, ExtAt(node, k).b, left)
    {
      Missed(node, n, 0, k);
      Found(node, n, 0, k, ExtAt(node, k).b);
    }
  }

  /** What a strict tree says of child i. */
  lemma ChildStrict(disk: Disk, node: Bytes, depth: nat, lo: nat, hi: nat, i: nat)
    requires depth > 0 && Tree(disk, node, depth, lo, hi) && HeadOk(node) && Strict(disk, node, depth, hi) && i < Count(node)
    ensures Child(node, i) < |disk| && HeadOk(disk[Child(node, i)]) && lo <= Key(node, i) < Upper(node, i, hi) <= hi
    ensures Tree(disk, disk[Child(node, i)], depth - 1, Key(node, i), Upper(node, i, hi))
    ensures Strict(disk, disk[Child(node, i)], depth - 1, Upper(node, i, hi))
  {
    ChildTree(disk, node, depth, lo, hi, i);
    KeysBelow(disk, node, depth, lo, hi, i);
    hide Tree, HeadOk, Child, Key, Upper;
  }

  /** If the driver follows the tree everywhere, it does so below each child. */
  lemma ChildFollows(disk: Disk, node: Bytes, depth: nat, lo: nat, hi: nat, i: nat, left: nat)
    requires depth > 0 && Tree(disk, node, depth, lo, hi) && HeadOk(node) && Strict(disk, node, depth, hi) && i < Count(node)
    requires depth <= left && depth <= MAX_DEPTH && AllFollow(disk, node, depth, lo, hi, left)
    ensures Child(node, i) < |disk| && HeadOk(disk[Child(node, i)]) && ReadChild(node, i) == Child(node, i)
    ensures AllFollow(disk, disk[Child(node, i)], depth - 1, Key(node, i), Upper(node, i, hi), left - 1)
  {
    hide Tree, Strict, Child, ReadChild, Key, Upper, Trail, Route, Walk, FlatList, Lookup, Get16, Get32;
    ChildStrict(disk, node, depth, lo, hi, i);
    assert Follows(disk, node, depth, Key(node, i), left);
    FollowsChild(disk, node, depth, lo, hi, i, Key(node, i), left);
    BelowFollows(disk, node, depth, lo, hi, i, left, disk[Child(node, i)], depth - 1, left - 1);
  }

  lemma BelowFollows(disk: Disk, node: Bytes, depth: nat, lo: nat, hi: nat, i: nat, left: nat, child: Bytes, below: nat, rest: nat)
    requires depth > 0 && Tree(disk, node, depth, lo, hi) && HeadOk(node)
    requires i < Count(node) && lo <= Key(node, i) && Upper(node, i, hi) <= hi
    requires depth <= left && depth <= MAX_DEPTH && AllFollow(disk, node, depth, lo, hi, left)
    requires ReadChild(node, i) == Child(node, i) < |disk| && child == disk[Child(node, i)] && HeadOk(child)
    requires below == depth - 1 && rest == left - 1
    ensures AllFollow(disk, child, below, Key(node, i), Upper(node, i, hi), rest)
  {
    hide Tree, Child, ReadChild, Key, Upper, Follows, Get16, Get32;
    forall lb: nat | Key(node, i) <= lb < Upper(node, i, hi)
      ensures Follows(disk, child, below, lb, rest)
    {
      assert Follows(disk, node, depth, lb, left);
      FollowsChild(disk, node, depth, lo, hi, i, lb, left);
    }
  }

  lemma {:induction false} FollowsReadable(disk: Disk, node: Bytes, depth: nat, lo: nat, hi: nat, left: nat)
    requires Tree(disk, node, depth, lo, hi) && HeadOk(node) && Strict(disk, node, depth, hi) && depth <= left && depth <= MAX_DEPTH
    requires AllFollow(disk, node, depth, lo, hi, left)
    ensures Readable(disk, node, depth)
    decreases depth
  {
    hide Tree, Strict, AllFollow, Child, ReadChild, Key, Upper, ExtAt;
    if depth == 0 {
      LeafFollows(disk, node, lo, hi, left);
    } else {
      forall i: nat | i < Count(node)
        ensures ReadChild(node, i) == Child(node, i) < |disk| && HeadOk(disk[Child(node, i)])
        ensures Readable(disk, disk[Child(node, i)], depth - 1)
      {
        ChildStrict(disk, node, depth, lo, hi, i);
        ChildFollows(disk, node, depth, lo, hi, i, left);
        FollowsReadable(disk, disk[Child(node, i)], depth - 1, Key(node, i), Upper(node, i, hi), left - 1);
      }
    }
  }

  lemma {:induction false} ReadableFollows(disk: Disk, node: Bytes, depth: nat, lo: nat, hi: nat, left: nat, lb: nat)
    requires Tree(disk, node, depth, lo, hi) && HeadOk(node) && Strict(disk, node, depth, hi) && depth <= left && depth <= MAX_DEPTH
    requires Readable(disk, node, depth) && lo <= lb < hi
    ensures Follows(disk, node, depth, lb, left)
    decreases depth
  {
    hide Tree, Strict, Follows, Readable, Child, ReadChild, Key, Upper;
    if depth == 0 {
      LeafFollows(disk, node, lo, hi, left);
    } else {
      var r := Reach(node, Count(node), 0, lb);
      if r == 0 {
        FollowsNothing(disk, node, depth, lo, hi, lb, left);
      } else {
        ChildStrict(disk, node, depth, lo, hi, r - 1);
        ChildReadable(disk, node, depth, lo, hi, r - 1);
        UpperIs(node, r - 1, hi);
        ReadableFollows(disk, disk[Child(node, r - 1)], depth - 1, Key(node, r - 1), Upper(node, r - 1, hi), left - 1, lb);
        FollowsChild(disk, node, depth, lo, hi, r - 1, lb, left);
      }
    }
  }

  /**
   On a strict tree of depth at most 5 the driver goes where the tree points, and finds
   what its extents say for every block, if and only if every pointer and every extent
   in it is one that the driver reads as the format means it.
   */
  lemma WalkExact(disk: Disk, node: Bytes, depth: nat, lo: nat, hi: nat, left: nat)
    requires Tree(disk, node, depth, lo, hi) && HeadOk(node) && Strict(disk, node, depth, hi) && depth <= left && depth <= MAX_DEPTH
    ensures AllFollow(disk, node, depth, lo, hi, left) <==> Readable(disk, node, depth)
  {
    hide Tree, Strict, Follows, Readable;
    if AllFollow(disk, node, depth, lo, hi, left) {
      FollowsReadable(disk, node, depth, lo, hi, left);
    }
    forall lb: nat | Readable(disk, node, depth) && lo <= lb < hi
      ensures Follows(disk, node, depth, lb, left)
    {
      ReadableFollows(disk, node, depth, lo, hi, left, lb);
    }
  }

  // ----- Examples -----

  /** A root of depth 1 whose one entry names block 0x10000. */
  function BigPointer(): (node: Bytes)
    ensures |node| == 60
  {
    [0x0a, 0xf3, 1, 0, 4, 0, 1, 0, 0, 0, 0, 0] + [0, 0, 0, 0, 0, 0, 1, 0, 0, 0, 0, 0] + seq(36, _ => 0)
  }

  lemma BigPointerFields()
    ensures var node := BigPointer();
            && HeadOk(node) && Depth(node) == 1 && Count(node) == 1 && Has(node, 0) && Key(node, 0) == 0
            && Child(node, 0) == 0x1_0000 && ReadChild(node, 0) == 0x1_0001_0000
  {
    var node := BigPointer();
    assert Get16(node, 0) == EH_MAGIC && Key(node, 0) == 0;
  }

  /**
   With any leaf at that block the tree is well formed and its extents are the leaf's, but
   on a device of up to 2^32 blocks the driver finds none of them: it reads block 0x100010000.
   */
  lemma BigPointerFails(disk: Disk, lb: nat)
    requires 0x1_0000 < |disk| <= U32 && Tree(disk, disk[0x1_0000], 0, 0, U32)
    ensures Tree(disk, BigPointer(), 1, 0, U32) && HeadOk(BigPointer())
    ensures HeadOk(disk[0x1_0000]) && FlatList(disk, BigPointer(), 1, 0) == FlatList(disk, disk[0x1_0000], 0, 0)
    ensures Walk(disk, BigPointer(), lb, MAX_DEPTH) == IoError
  {
    var node := BigPointer();
    BigPointerFields();
    hide BigPointer, Key, Child, ReadChild, Leaf;
    assert Tree(disk, node, 1, 0, U32);
    FlatStep(disk, node, 1, 0, U32, 0);
    FlatStep(disk, node, 1, 0, U32, 1);
    assert Reach(node, 1, 1, lb) == 1;
  }

  /** A leaf of one written extent: 0x8000 blocks from block 7 on. */
  function FullExtent(): (node: Bytes)
    ensures |node| == 24
  {
    [0x0a, 0xf3, 1, 0, 1, 0, 0, 0, 0, 0, 0, 0] + [0, 0, 0, 0, 0, 0x80, 0, 0, 7, 0, 0, 0]
  }

  /** The format has its block 5 at block 12 of the device; the driver finds a hole. */
  lemma FullExtentFails(disk: Disk)
    ensures var node := FullExtent();
            && Tree(disk, node, 0, 0, U32) && HeadOk(node) && Strict(disk, node, 0, U32)
            && Lookup(FlatList(disk, node, 0, 0), 5) == Mapped(12, false) && Walk(disk, node, 5, MAX_DEPTH) == Hole
  {
    var node := FullExtent();
    assert Get16(node, 0) == EH_MAGIC && Has(node, 0) && ExtAt(node, 0) == Ext(0, UNINIT, 7);
    assert Leaf(node, 1, 1) == [] && Leaf(node, 1, 0) == [ExtAt(node, 0)];
    hide FullExtent, ExtAt;
    SearchStep(node, 1, 0, 5);
    SearchEnd(node, 1, 5);
  }

  // ----- The format in bytes -----

  /** A leaf of two extents: five written blocks from block 3 of the file on, two unwritten ones from block 16 on. */
  function TwoExtents(): (node: Bytes)
    ensures |node| == 60
  {
    [0x0a, 0xf3, 2, 0, 4, 0, 0, 0, 0, 0, 0, 0] + [3, 0, 0, 0, 5, 0, 7, 0, 9, 0, 0, 0]
    + [16, 0, 0, 0, 2, 0x80, 0, 0, 1, 1, 0, 0] + seq(24, _ => 0)
  }

  lemma LeafBytes()
    ensures var node := TwoExtents();
            && HeadOk(node) && Depth(node) == 0 && Count(node) == 2 && Has(node, 0) && Has(node, 1)
            && ExtAt(node, 0) == Ext(3, 5, 0x7_0000_0009) && ExtAt(node, 1) == Ext(16, 0x8002, 0x101)
  {
  }

  /** Block 4 is written, block 17 is not, block 8 is a hole; the driver finds the same. */
  lemma LeafLookups(disk: Disk)
    ensures var node := TwoExtents();
            && Walk(disk, node, 4, MAX_DEPTH) == Mapped(0x7_0000_000a, false)
            && Walk(disk, node, 17, MAX_DEPTH) == Mapped(0x102, true)
            && Walk(disk, node, 8, MAX_DEPTH) == Hole
  {
    LeafBytes();
    hide TwoExtents, ExtAt, HeadOk, Depth, Count, Has;
    var node := TwoExtents();
    forall lb: nat
      ensures Search(node, 2, 2, lb) == Hole
    {
    }
    forall lb: nat
      ensures Search(node, 2, 1, lb) == if 16 <= lb < 18 then Mapped(0x101 + (lb - 16), true) else Hole
    {
    }
  }

  /** An index entry: its key, the block it names, and the block the driver reads. */
  lemma IndexBytes(node: Bytes)
    requires 24 <= |node| && node[12..24] == [7, 0, 0, 0, 0x34, 0x12, 0, 0, 1, 0, 0, 0]
    ensures Has(node, 0) && Key(node, 0) == 7 && Child(node, 0) == 0x1_0000_1234 && ReadChild(node, 0) == 0x1234
  {
    var e := node[12..24];
    assert e[0] == node[12] && e[1] == node[13] && e[2] == node[14] && e[3] == node[15];
    assert e[4] == node[16] && e[5] == node[17] && e[6] == node[18] && e[7] == node[19] && e[8] == node[20] && e[9] == node[21];
  }

  // ----- What a list of extents says -----

  /** Extent i is the first of the list that holds block lb. */
  ghost predicate FirstHolds(es: seq<Ext>, i: nat, lb: nat) {
    i < |es| && es[i].Holds(lb) && forall j :: 0 <= j < i ==> !es[j].Holds(lb)
  }

  /** A block in an extent lies as far behind its start as behind its first block; a length above 0x8000 says unwritten. */
  lemma {:induction false} LookupIs(es: seq<Ext>, lb: nat)
    ensures Lookup(es, lb) == Hole <==> forall i :: 0 <= i < |es| ==> !es[i].Holds(lb)
    ensures forall i: nat :: FirstHolds(es, i, lb) ==> Lookup(es, lb) == Mapped(es[i].start + (lb - es[i].b), es[i].len > 0x8000)
  {
    if es != [] {
      LookupIs(es[1..], lb);
      if !es[0].Holds(lb) {
        forall i: nat | FirstHolds(es, i, lb)
          ensures Lookup(es, lb) == Mapped(es[i].start + (lb - es[i].b), es[i].len > 0x8000)
        {
          assert FirstHolds(es[1..], i - 1, lb);
        }
        assert forall i :: 0 <= i < |es[1..]| ==> es[1..][i] == es[i + 1];
      }
    }
  }

  lemma HoldsIs(e: Ext, lb: nat)
    ensures e.Holds(lb) <==> e.b <= lb < e.b + if e.len <= 0x8000 then e.len else e.len - 0x8000
  {
  }
}
