/**
 The kernel heap: kmalloc and kfree over an address-ordered, coalescing free
 list (src/kernel/memory/heap.c).
 */
module KernelHeap {
  import opened Errors
  import opened HeapRuns
  import opened HeapList
  import opened HeapVacant

  /** align_up on 64-bit words; the alignment is a power of two. */
  function AlignUp(v: nat): (r: nat)
    requires v < U64
    ensures r % ALIGN == 0
    ensures v + 15 < U64 ==> v <= r < v + ALIGN
    ensures v + 15 >= U64 ==> r == 0
  {
    var w := (v + 15) % U64;
    w - w % ALIGN
  }

  /** kmalloc's block size for a payload. */
  function Need(size: nat): (n: nat)
    requires size < U64
    ensures n % ALIGN == 0 && MIN_TOTAL <= n < U64
  {
    var n := AlignUp((HEADER + size) % U64);
    if n < MIN_TOTAL then MIN_TOTAL else n
  }

  /** The payload of a block of that size holds the request exactly when the 64-bit sum does not wrap. */
  lemma NeedHolds(size: nat)
    requires 0 < size < U64
    ensures HEADER + size <= Need(size) <==> size + 47 < U64
    ensures size + 47 < U64 ==> Need(size) < HEADER + size + ALIGN
    ensures size + 47 >= U64 ==> Need(size) == MIN_TOTAL
  {
  }

  /** Live blocks are blocks and do not overlap. */
  ghost predicate LiveOk(live: map<nat, nat>) {
    && (forall b :: b in live ==> Block(Run(b, live[b])))
    && (forall b, c :: b in live && c in live && b < c ==> b + live[b] <= c)
  }

  /** The free list is a function of the pages and the live blocks. */
  lemma FreeIsFunction(pages: set<nat>, f: seq<Run>, g: seq<Run>, live: map<nat, nat>)
    requires Canon(f) && Canon(g) && Tiles(pages, f, live) && Tiles(pages, g, live)
    ensures f == g
  {
    assert forall a: int :: Covers(f, a) <==> InPages(pages, a) && !InLive(live, a);
    assert forall a: int :: Covers(g, a) <==> InPages(pages, a) && !InLive(live, a);
    Unique(f, g);
  }

  /** Runs with no byte in common lie apart. */
  lemma ApartByBytes(f: seq<Run>, r: Run)
    requires Canon(f) && Block(r) && forall a: int :: In(r, a) ==> !Covers(f, a)
    ensures Apart(f, r)
  {
    forall i | 0 <= i < |f|
      ensures f[i].End() <= r.at || r.End() <= f[i].at
    {
      var a := if f[i].at < r.at then r.at else f[i].at;
      assert Block(f[i]);
      if In(f[i], a) && In(r, a) {
        assert Covers(f, a);
        assert false;
      }
    }
  }

  lemma LiveApart(pages: set<nat>, f: seq<Run>, live: map<nat, nat>, b: nat)
    requires Canon(f) && LiveOk(live) && Tiles(pages, f, live) && b in live
    ensures Apart(f, Run(b, live[b])) && Away(f, b)
  {
    var r := Run(b, live[b]);
    forall a: int | In(r, a)
      ensures !Covers(f, a)
    {
      assert InLive(live, a);
    }
    ApartByBytes(f, r);
    forall i | 0 <= i < |f|
      ensures Clear(f[i].at, b)
    {
      assert Block(f[i]) && Block(r);
    }
  }

  /** A free run becomes a live block. */
  lemma TilesTaken(pages: set<nat>, f0: seq<Run>, f1: seq<Run>, live: map<nat, nat>, r: Run)
    requires LiveOk(live) && Tiles(pages, f0, live) && Block(r) && forall a: int :: In(r, a) ==> Covers(f0, a)
    requires forall a: int :: Covers(f1, a) <==> Covers(f0, a) && !In(r, a)
    ensures r.at !in live && Tiles(pages, f1, live[r.at := r.size]) && LiveOk(live[r.at := r.size])
  {
    hide Covers, InPages;
    var live' := live[r.at := r.size];
    NewApart(pages, f0, live, r);
    forall a: int
      ensures InLive(live', a) <==> InLive(live, a) || In(r, a)
    {
      if In(r, a) {
        assert In(Run(r.at, live'[r.at]), a);
      }
      if b :| b in live && In(Run(b, live[b]), a) {
        assert b in live' && live'[b] == live[b];
      }
    }
  }

  lemma NewApart(pages: set<nat>, f: seq<Run>, live: map<nat, nat>, r: Run)
    requires LiveOk(live) && Tiles(pages, f, live) && Block(r) && forall a: int :: In(r, a) ==> Covers(f, a)
    ensures forall b :: b in live ==> b + live[b] <= r.at || r.End() <= b
    ensures r.at !in live
  {
    hide Covers, InPages;
    forall b | b in live
      ensures b + live[b] <= r.at || r.End() <= b
    {
      var a := if b < r.at then r.at else b;
      assert Block(Run(b, live[b]));
      assert In(Run(b, live[b]), a) ==> InLive(live, a);
    }
    assert r.at in live ==> Block(Run(r.at, live[r.at]));
  }

  /** A live block becomes free. */
  lemma TilesGiven(pages: set<nat>, f0: seq<Run>, f1: seq<Run>, live: map<nat, nat>, b: nat)
    requires LiveOk(live) && Tiles(pages, f0, live) && b in live
    requires forall a: int :: Covers(f1, a) <==> Covers(f0, a) || In(Run(b, live[b]), a)
    ensures Tiles(pages, f1, live - {b}) && LiveOk(live - {b})
  {
    hide Covers, InPages;
    var live' := live - {b};
    forall a: int
      ensures InLive(live', a) <==> InLive(live, a) && !In(Run(b, live[b]), a)
    {
      if c :| c in live && In(Run(c, live[c]), a) {
        assert c != b ==> c in live' && live'[c] == live[c];
      }
    }
  }

  /** A new page becomes free. */
  lemma TilesGrown(pages: set<nat>, f0: seq<Run>, f1: seq<Run>, live: map<nat, nat>, p: nat)
    requires Tiles(pages, f0, live) && p % PAGE == 0 && p !in pages
    requires forall a: int :: Covers(f1, a) <==> Covers(f0, a) || In(Run(p, PAGE), a)
    ensures Tiles(pages + {p}, f1, live)
  {
    hide Covers, InLive;
    forall a: int
      ensures InPages(pages + {p}, a) <==> InPages(pages, a) || In(Run(p, PAGE), a)
    {
      PageOf(a, p);
    }
    forall a: int | In(Run(p, PAGE), a)
      ensures !InPages(pages, a)
    {
      PageOf(a, p);
    }
  }

  ghost predicate LiveRep(mem: Mem, live: map<nat, nat>) {
    forall b :: b in live ==> b in mem && mem[b].size == live[b] && mem[b].magic == MAGIC && mem[b].used == 1
  }

  class Heap {
    var mem: Mem
    var freeHead: nat
    /** The pages alloc_page will hand out; when they run out it returns a pointer that is no page. */
    var supply: seq<nat>
    var oom: bool
    ghost var free: seq<Run>
    ghost var live: map<nat, nat>
    ghost var pages: set<nat>

    /** The heap before init_heap. */
    constructor (supply: seq<nat>)
      requires forall i :: 0 <= i < |supply| ==> 0 < supply[i] && supply[i] % PAGE == 0 && supply[i] + PAGE < U64 - PAGE
      requires forall i, j :: 0 <= i < j < |supply| ==> supply[i] != supply[j]
      ensures Valid() && !oom && live == map[] && pages == {} && this.supply == supply
    {
      mem, freeHead, oom := map[], 0, false;
      this.supply := supply;
      free, live, pages := [], map[], {};
    }

    /** init_heap: four pages. */
    method Init()
      requires Valid() && !oom && pages == {} && live == map[]
      modifies this
      ensures oom == (|old(supply)| < 4)
      ensures !oom ==> Valid() && live == map[] && supply == old(supply)[4..] && pages == FirstPages(old(supply), 4)
      ensures !oom ==> forall a: int :: Covers(free, a) <==> InPages(pages, a)
    {
      hide Tiles, LiveOk, LiveRep, IsList, Covers, Canon;
      ghost var supply0 := supply;
      NoPages(supply0);
      for i := 0 to 4
        invariant !oom && Valid() && live == map[] && i <= |supply0| && supply == supply0[i..] && pages == FirstPages(supply0, i)
      {
        if i < |supply0| {
          MorePages(supply0, i);
        }
        var ok := AddPage();
        if !ok {
          return;
        }
      }
      AllVacant(pages, free, live);
    }

    ghost predicate SupplyOk()
      reads this`supply, this`pages
    {
      && (forall i :: 0 <= i < |supply| ==> 0 < supply[i] && supply[i] % PAGE == 0 && supply[i] + PAGE < U64 - PAGE && supply[i] !in pages)
      && (forall i, j :: 0 <= i < j < |supply| ==> supply[i] != supply[j])
    }

    /** The list in memory holds the free runs. */
    ghost predicate ListOk()
      reads this`mem, this`freeHead, this`free
    {
      Canon(free) && IsList(mem, freeHead, free)
    }

    ghost predicate PagesOk()
      reads this`pages
    {
      forall p :: p in pages ==> 0 < p && p % PAGE == 0 && p + PAGE < U64 - PAGE
    }

    ghost predicate Valid()
      reads this
    {
      ListOk() && LiveOk(live) && LiveRep(mem, live) && Tiles(pages, free, live) && PagesOk() && SupplyOk()
    }

    /** freelist_insert's two merges: the header at a absorbs the next run's. */
    method Absorb(a: nat, b: nat, ghost i: nat)
      requires IsList(mem, freeHead, free) && Spread(free) && i + 1 < |free| && a == free[i].at && b == free[i + 1].at
      modifies this`mem, this`free
      ensures IsList(mem, freeHead, free) && Spread(free) && free == Merged(old(free), i)
      ensures b in mem && mem[b].used == 0 && mem[b].magic == 0
      ensures forall x :: x in old(mem) && Clear(a, x) && Clear(b, x) ==> x in mem && mem[x] == old(mem)[x]
    {
      assert NodeOk(mem, free, i) && NodeOk(mem, free, i + 1);
      MergedList(mem, freeHead, free, i);
      mem := Put(mem, a, mem[a].(size := mem[a].size + mem[b].size, next := mem[b].next));
      mem := Put(mem, b, mem[b].(magic := 0));
      free := Merged(free, i);
    }

    /** The search of freelist_insert: the last run before b and the first behind it. */
    method Search(b: nat) returns (prev: nat, cur: nat, ghost k: nat)
      requires ListOk() && forall i :: 0 <= i < |free| ==> free[i].at != b
      ensures k <= |free| && cur == Addr(free, k) && prev == (if k == 0 then 0 else free[k - 1].at)
      ensures (forall i :: 0 <= i < k ==> free[i].at < b) && (forall i :: k <= i < |free| ==> b < free[i].at)
    {
      prev, cur, k := 0, freeHead, 0;
      while cur != 0 && cur < b
        invariant k <= |free| && cur == Addr(free, k) && prev == (if k == 0 then 0 else free[k - 1].at)
        invariant forall i :: 0 <= i < k ==> free[i].at < b
        decreases |free| - k
      {
        assert NodeOk(mem, free, k);
        prev := cur;
        cur := mem[cur].next;
        k := k + 1;
      }
      if k < |free| {
        assert NodeOk(mem, free, k);
        forall i | k < i < |free|
          ensures b < free[i].at
        {
          assert free[k].End() < free[i].at;
        }
      }
    }

    /** freelist_insert's linking of b between its neighbours. */
    method LinkAt(b: nat, prev: nat, cur: nat, ghost k: nat, ghost r: Run)
      requires IsList(mem, freeHead, free) && Spread(free) && Away(free, b) && k <= |free| && 0 < b && r.at == b
      requires b in mem && mem[b] == Hdr(r.size, MAGIC, 0, 0)
      requires cur == Addr(free, k) && prev == (if k == 0 then 0 else free[k - 1].at)
      modifies this`mem, this`freeHead, this`free
      ensures IsList(mem, freeHead, free) && Spread(free)
      ensures free == old(free)[..k] + [r] + old(free)[k..] && b in mem && mem[b].used == 0
      ensures KeptAway(old(mem), mem, old(free), b)
    {
      LinkedIn(mem, freeHead, free, k, r);
      if k > 0 {
        assert NodeOk(mem, free, k - 1);
      }
      if prev == 0 {
        freeHead := b;
      } else {
        mem := Put(mem, prev, mem[prev].(next := b));
      }
      mem := Put(mem, b, mem[b].(next := cur));
      free := free[..k] + [r] + free[k..];
    }

    /** freelist_insert: the run at b goes to its place and is joined with the runs it touches. */
    method FreeInsert(b: nat)
      requires ListOk() && b in mem && mem[b].magic == MAGIC && Block(Run(b, mem[b].size)) && Apart(free, Run(b, mem[b].size))
      modifies this`mem, this`freeHead, this`free
      ensures ListOk()
      ensures forall a: int :: Covers(free, a) <==> Covers(old(free), a) || In(Run(b, old(mem)[b].size), a)
      ensures KeptAway(old(mem), mem, old(free), b)
      ensures b in mem && mem[b].used == 0
    {
      hide Covers, Placed, Block, Put, Merged, Apart, Canon, IsList, Away, Spread, KeptAway, Clear;
      ghost var f0, r, mem0 := free, Run(b, mem[b].size), mem;
      RunAway(f0, r);
      CanonSpread(f0);
      PutKeeps(mem, b, mem[b].(used := 0, next := 0), f0);
      PutAway(mem, freeHead, free, b, mem[b].(used := 0, next := 0));
      mem := Put(mem, b, mem[b].(used := 0, next := 0));
      ghost var mem1 := mem;
      var prev, cur;
      ghost var k;
      prev, cur, k := Search(b);
      PlacedCanon(f0, k, r);
      forall a: int
        ensures Covers(Placed(f0, k, r), a) <==> Covers(f0, a) || In(r, a)
      {
        PlacedCovers(f0, k, r, a);
      }
      Addresses(f0, k);
      LinkAt(b, prev, cur, k, r);
      KeptOn(mem0, mem1, mem, f0, b);
      ghost var mem2 := mem;
      Join(b, prev, cur, f0, k, r);
      KeptOn(mem0, mem2, mem, f0, b);
    }

    lemma KeptOn(m0: Mem, m1: Mem, m2: Mem, f: seq<Run>, b: nat)
      requires KeptAway(m0, m1, f, b) && KeptAway(m1, m2, f, b)
      ensures KeptAway(m0, m2, f, b)
    {
    }

    /** The two merges at the end of freelist_insert. */
    method Join(b: nat, prev: nat, cur: nat, ghost f0: seq<Run>, ghost k: nat, ghost r: Run)
      requires IsList(mem, freeHead, free) && Spread(free) && k <= |f0| && free == f0[..k] + [r] + f0[k..] && r.at == b
      requires cur == Addr(f0, k) && prev == (if k == 0 then 0 else f0[k - 1].at)
      requires (cur != 0 <==> k < |f0|) && (prev != 0 <==> k > 0) && b in mem && mem[b].used == 0
      modifies this`mem, this`free
      ensures IsList(mem, freeHead, free) && free == Placed(f0, k, r)
      ensures b in mem && mem[b].used == 0
      ensures KeptAway(old(mem), mem, f0, b)
    {
      hide Put, Placed, Merged, KeptAway;
      KeptNone(f0, b);
      OneMerge(f0, k, r);
      assert NodeOk(mem, free, k) && (k < |f0| ==> NodeOk(mem, free, k + 1)) && (k > 0 ==> NodeOk(mem, free, k - 1));
      ghost var m0 := mem;
      if cur != 0 && b + mem[b].size == cur {
        Absorb(b, cur, k);
        KeptMerge(m0, mem, f0, k, r);
        assert NodeOk(mem, free, k) && (k > 0 ==> NodeOk(mem, free, k - 1));
      }
      ghost var m1 := mem;
      if prev != 0 && prev + mem[prev].size == b {
        Absorb(prev, b, k - 1);
        KeptMerge(m1, mem, f0, k, r);
      }
      KeptOn(m0, m1, mem, f0, b);
    }

    lemma KeptNone(f: seq<Run>, b: nat)
      ensures KeptAway(mem, mem, f, b)
    {
    }

    /** Headers away from the list and from the block are clear of the headers a merge changes. */
    lemma KeptMerge(m0: Mem, m1: Mem, f: seq<Run>, k: nat, r: Run)
      requires k <= |f|
      requires (k < |f| && forall x :: x in m0 && Clear(r.at, x) && Clear(f[k].at, x) ==> x in m1 && m1[x] == m0[x])
               || (k > 0 && forall x :: x in m0 && Clear(f[k - 1].at, x) && Clear(r.at, x) ==> x in m1 && m1[x] == m0[x])
      ensures KeptAway(m0, m1, f, r.at)
    {
    }

    /** The list with r put in at k, then with the next run merged, then with the one before. */
    lemma OneMerge(f: seq<Run>, k: nat, r: Run)
      requires k <= |f|
      ensures var g := f[..k] + [r] + f[k..];
              var g1 := if TouchesNext(f, k, r) then Merged(g, k) else g;
              && g[k] == r && (k < |f| ==> g[k + 1] == f[k]) && (k > 0 ==> g[k - 1] == f[k - 1]) && k < |g1|
              && g1[k] == Run(r.at, if TouchesNext(f, k, r) then r.size + f[k].size else r.size) && (k > 0 ==> g1[k - 1] == f[k - 1])
              && Placed(f, k, r) == if TouchesPrev(f, k, r) then Merged(g1, k - 1) else g1
    {
      var g := f[..k] + [r] + f[k..];
      assert k < |f| ==> g[k + 2..] == f[k + 1..];
      var g1 := if TouchesNext(f, k, r) then Merged(g, k) else g;
      assert g[..k] == f[..k] && g[k + 1..] == f[k..];
      if TouchesNext(f, k, r) {
        assert g1[..k] == g[..k];
        assert g1[k + 1..] == f[k + 1..];
      }
      assert k > 0 ==> g1[..k - 1] == f[..k - 1];
      assert g1 == g1[..k] + [g1[k]] + g1[k + 1..];
    }

    lemma Addresses(f: seq<Run>, k: nat)
      requires Canon(f) && k <= |f|
      ensures Addr(f, k) != 0 <==> k < |f|
      ensures k > 0 ==> f[k - 1].at > 0
    {
      if k < |f| {
        assert Block(f[k]);
      }
      if k > 0 {
        assert Block(f[k - 1]);
      }
    }

    lemma PutKeeps(m: Mem, b: nat, h: Hdr, f: seq<Run>)
      ensures KeptAway(m, Put(m, b, h), f, b)
      ensures b in Put(m, b, h) && Put(m, b, h)[b] == h
    {
    }

    lemma RunAway(f: seq<Run>, r: Run)
      requires Canon(f) && Apart(f, r) && Block(r)
      ensures 0 < r.at && Away(f, r.at) && forall i :: 0 <= i < |f| ==> f[i].at != r.at
    {
      forall i | 0 <= i < |f|
        ensures Clear(f[i].at, r.at)
      {
        assert Block(f[i]);
      }
    }

    // ----- Growing, finding, taking -----

    /** heap_add_page. */
    method AddPage() returns (ok: bool)
      requires Valid() && !oom
      modifies this
      ensures oom == (old(supply) == []) && ok == !oom
      ensures !oom ==> Valid() && live == old(live) && old(supply)[0] !in old(pages) && pages == old(pages) + {old(supply)[0]}
      ensures !oom ==> supply == old(supply)[1..]
    {
      if supply == [] {
        oom := true;
        return false;
      }
      hide Covers, Canon, IsList, Tiles, LiveOk, Put;
      var page := supply[0];
      ghost var f0 := free;
      PageApart(page);
      RunAway(free, Run(page, PAGE));
      PutKeeps(mem, page, Hdr(PAGE, MAGIC, 0, 0), free);
      PutAway(mem, freeHead, free, page, Hdr(PAGE, MAGIC, 0, 0));
      PageClear(page);
      mem := Put(mem, page, Hdr(PAGE, MAGIC, 0, 0));
      supply := supply[1..];
      FreeInsert(page);
      TilesGrown(pages, f0, free, live, page);
      pages := pages + {page};
      ok := true;
    }

    lemma PageApart(p: nat)
      requires Canon(free) && Tiles(pages, free, live) && p !in pages && p % PAGE == 0 && 0 < p
      ensures Apart(free, Run(p, PAGE)) && Block(Run(p, PAGE))
    {
      forall a: int | In(Run(p, PAGE), a)
        ensures !Covers(free, a)
      {
        PageOf(a, p);
      }
      ApartByBytes(free, Run(p, PAGE));
    }

    /** The headers of live blocks are clear of the list and of a new page's header. */
    lemma PageClear(p: nat)
      requires Canon(free) && LiveOk(live) && Tiles(pages, free, live) && p !in pages && p % PAGE == 0
      ensures forall b :: b in live ==> Away(free, b) && Clear(p, b)
    {
      forall b | b in live
        ensures Away(free, b) && Clear(p, b)
      {
        LiveApart(pages, free, live, b);
        assert Block(Run(b, live[b]));
        var a := if b < p then p else b;
        PageOf(a, p);
        assert In(Run(b, live[b]), a) ==> InLive(live, a);
      }
    }

    /** freelist_find_fit: the first run, and so the lowest address, that is large enough. */
    method FindFit(need: nat) returns (cur: nat, ghost i: nat)
      requires ListOk()
      ensures FirstFit(free, need, i) && cur == Addr(free, i) && (cur == 0 <==> i == |free|)
      ensures cur != 0 ==> cur in mem && mem[cur].size >= need
      ensures forall j :: 0 <= j < |free| && free[j].size >= need ==> cur != 0 && cur <= free[j].at
    {
      cur, i := freeHead, 0;
      while cur != 0
        invariant i <= |free| && cur == Addr(free, i)
        invariant forall j :: 0 <= j < i ==> free[j].size < need
        decreases |free| - i
      {
        assert NodeOk(mem, free, i);
        if mem[cur].used == 0 && mem[cur].size >= need {
          assert forall j :: i < j < |free| ==> cur < free[j].at;
          return;
        }
        cur := mem[cur].next;
        i := i + 1;
      }
      Addresses(free, i);
    }

    /** freelist_remove. */
    method Remove(b: nat, ghost i: nat)
      requires ListOk() && i < |free| && b == free[i].at
      modifies this`mem, this`freeHead, this`free
      ensures ListOk() && free == Without(old(free), i)
      ensures b in mem && mem[b] == Hdr(old(free)[i].size, MAGIC, 0, 0)
      ensures forall x :: x in old(mem) && Away(old(free), x) ==> x in mem && mem[x] == old(mem)[x]
    {
      var prev, cur := 0, freeHead;
      ghost var j := 0;
      assert NodeOk(mem, free, i);
      while cur != 0 && cur != b
        invariant j <= i && cur == Addr(free, j) && prev == if j == 0 then 0 else free[j - 1].at
        decreases i - j
      {
        assert NodeOk(mem, free, j);
        prev := cur;
        cur := mem[cur].next;
        j := j + 1;
        assert j < i ==> free[j].End() < free[i].at;
      }
      SameAddress(free, j, i);
      Unlink(b, prev, i);
    }

    /** The end of freelist_remove. */
    method Unlink(b: nat, prev: nat, ghost i: nat)
      requires ListOk() && i < |free| && b == free[i].at && prev == if i == 0 then 0 else free[i - 1].at
      modifies this`mem, this`freeHead, this`free
      ensures ListOk() && free == Without(old(free), i)
      ensures b in mem && mem[b] == Hdr(old(free)[i].size, MAGIC, 0, 0)
      ensures forall x :: x in old(mem) && Away(old(free), x) ==> x in mem && mem[x] == old(mem)[x]
    {
      hide Canon;
      CanonSpread(free);
      LinkedOut(mem, freeHead, free, i);
      WithoutCanon(free, i);
      Addresses(free, i);
      ghost var out := Without(free, i);
      assert NodeOk(mem, free, i) && (i > 0 ==> NodeOk(mem, free, i - 1));
      assert Away(out, b) by {
        assert forall j :: 0 <= j < |out| ==> out[j] == free[if j < i then j else j + 1];
      }
      if prev == 0 {
        freeHead := mem[b].next;
      } else {
        mem := Put(mem, prev, mem[prev].(next := mem[b].next));
      }
      PutAway(mem, freeHead, out, b, mem[b].(next := 0));
      mem := Put(mem, b, mem[b].(next := 0));
      free := out;
    }

    lemma SameAddress(f: seq<Run>, j: nat, i: nat)
      requires Canon(f) && j <= i < |f| && Addr(f, j) in {0, f[i].at}
      ensures j == i
    {
      Addresses(f, j);
    }

    /** The bytes of what Split gives back: behind need if that leaves a block. */
    function Tail(b: nat, n: nat, need: nat): Run {
      if n < need + MIN_TOTAL then Run(b + n, 0) else Run(b + need, n - need)
    }

    /** block_split: a block keeps need bytes if the rest makes a block, which becomes free. */
    method Split(b: nat, need: nat)
      requires ListOk() && b in mem && mem[b].magic == MAGIC && mem[b].used == 0 && mem[b].next == 0
      requires Block(Run(b, mem[b].size)) && Apart(free, Run(b, mem[b].size)) && b + mem[b].size < U64 - PAGE
      requires need % ALIGN == 0 && MIN_TOTAL <= need <= mem[b].size
      modifies this`mem, this`freeHead, this`free
      ensures ListOk() && b in mem && mem[b].magic == MAGIC
      ensures mem[b].size == old(mem)[b].size - Tail(b, old(mem)[b].size, need).size
      ensures forall a: int :: Covers(free, a) <==> Covers(old(free), a) || In(Tail(b, old(mem)[b].size, need), a)
      ensures forall x :: x in old(mem) && Away(old(free), x) && ClearOf(Run(b, old(mem)[b].size), x) ==> x in mem && mem[x] == old(mem)[x]
    {
      hide Canon, IsList, Covers, Put;
      if mem[b].size < (need + MIN_TOTAL) % U64 {
        return;
      }
      ghost var f0, mem0, r := free, mem, Run(b, mem[b].size);
      RunAway(free, r);
      var remain := mem[b].size - need;
      var rest := b + need;
      TailApart(free, r, Run(rest, remain));
      PutAway(mem, freeHead, free, b, mem[b].(size := need));
      PutKeeps(mem, b, mem[b].(size := need), free);
      mem := Put(mem, b, mem[b].(size := need));
      PutAway(mem, freeHead, free, rest, Hdr(remain, MAGIC, 0, 0));
      PutKeeps(mem, rest, Hdr(remain, MAGIC, 0, 0), free);
      mem := Put(mem, rest, Hdr(remain, MAGIC, 0, 0));
      FreeInsert(rest);
    }

    lemma TailApart(f: seq<Run>, r: Run, tail: Run)
      requires Canon(f) && Block(r) && Apart(f, r) && r.at + MIN_TOTAL <= tail.at && tail.End() == r.End() && Block(tail)
      ensures Apart(f, tail) && Away(f, tail.at) && Clear(r.at, tail.at)
    {
      RunAway(f, tail);
    }

    // ----- kmalloc and kfree -----

    /** heap_expand: as many pages as hold need bytes come in, from the front of the supply. */
    method Expand(need: nat) returns (ok: bool)
      requires Valid() && !oom && need < U64
      modifies this
      ensures oom == (|old(supply)| < PagesFor(need)) && ok == !oom
      ensures !oom ==> Valid() && live == old(live) && supply == old(supply)[PagesFor(need)..]
      ensures !oom ==> pages == old(pages) + FirstPages(old(supply), PagesFor(need))
      ensures !oom && need <= PAGE ==> Roomy(pages, live, need)
    {
      hide Tiles, LiveOk, LiveRep, IsList, Covers, Canon, InLive, Vacant, Roomy;
      ghost var supply0, pages0, free0 := supply, pages, free;
      NoPages(supply);
      var n := (need + PAGE - 1) % U64 / PAGE;
      if n == 0 {
        n := 1;
      }
      assert n == PagesFor(need);
      for i := 0 to n
        invariant !oom && Valid() && live == old(live) && i <= |supply0| && supply == supply0[i..]
        invariant pages == pages0 + FirstPages(supply0, i)
      {
        if i < |supply0| {
          MorePages(supply0, i);
        }
        ok := AddPage();
        if !ok {
          return;
        }
      }
      ok := true;
      if need <= PAGE {
        NewPage(pages0, free0, live, pages, supply0[0], need);
      }
    }

    /** Every free run ends inside a page. */
    lemma RunBounded(i: nat)
      requires Valid() && i < |free|
      ensures free[i].End() < U64 - PAGE
    {
      var a := free[i].End() - 1;
      assert Block(free[i]) && In(free[i], a) && Covers(free, a) && InPages(pages, a);
    }

    /** The end of kmalloc: run i gives a block of need bytes, or all of it. */
    method Carve(b: nat, need: nat, ghost i: nat)
      requires Valid() && i < |free| && b == free[i].at && free[i].size >= need && need % ALIGN == 0 && MIN_TOTAL <= need
      modifies this`mem, this`freeHead, this`free, this`live
      ensures Valid() && b !in old(live) && forall a: int :: In(Run(b, Given(old(free)[i].size, need)), a) ==> Covers(old(free), a)
      ensures live == old(live)[b := Given(old(free)[i].size, need)]
    {
      hide Covers, Canon, IsList, Tiles, LiveOk, Put, InLive, InPages;
      ghost var f0, r, sz := free, free[i], Given(free[i].size, need);
      RunBounded(i);
      WithoutCanon(free, i);
      CanonBlock(free, i);
      forall c | c in live
        ensures Away(free, c) && Away(Without(free, i), c) && ClearOf(r, c) && Clear(b, c)
      {
        LiveClear(i, c);
      }
      Remove(b, i);
      ghost var f1 := free;
      Split(b, need);
      CarvedCovers(f0, f1, free, i, need);
      GivenBlock(r, need);
      RunAway(free, Run(b, sz));
      PutAway(mem, freeHead, free, b, mem[b].(used := 1, next := 0));
      PutKeeps(mem, b, mem[b].(used := 1, next := 0), []);
      TilesTaken(pages, f0, free, live, Run(b, sz));
      mem := Put(mem, b, mem[b].(used := 1, next := 0));
      live := live[b := sz];
    }

    lemma CanonBlock(f: seq<Run>, i: nat)
      requires Canon(f) && i < |f|
      ensures Block(f[i])
    {
    }

    lemma LiveClear(i: nat, c: nat)
      requires Valid() && i < |free| && c in live
      ensures Away(free, c) && Away(Without(free, i), c) && ClearOf(free[i], c) && Clear(free[i].at, c)
    {
      LiveApart(pages, free, live, c);
      assert Block(Run(c, live[c])) && Block(free[i]);
      var out := Without(free, i);
      assert forall j :: 0 <= j < |out| ==> out[j] == free[if j < i then j else j + 1];
    }

    lemma GivenBlock(r: Run, need: nat)
      requires Block(r) && need % ALIGN == 0 && MIN_TOTAL <= need <= r.size
      ensures Block(Run(r.at, Given(r.size, need))) && need <= Given(r.size, need) <= need + 32
    {
    }

    lemma CarvedCovers(f0: seq<Run>, f1: seq<Run>, f2: seq<Run>, i: nat, need: nat)
      requires Canon(f0) && i < |f0| && f1 == Without(f0, i) && Canon(f2) && need % ALIGN == 0 && MIN_TOTAL <= need <= f0[i].size
      requires forall a: int :: Covers(f2, a) <==> Covers(f1, a) || In(Tail(f0[i].at, f0[i].size, need), a)
      ensures var r := Run(f0[i].at, Given(f0[i].size, need));
              && (forall a: int :: Covers(f2, a) <==> Covers(f0, a) && !In(r, a))
              && (forall a: int :: In(r, a) ==> Covers(f0, a)) && Apart(f2, r)
    {
      var r := Run(f0[i].at, Given(f0[i].size, need));
      forall a: int
        ensures Covers(f2, a) <==> Covers(f0, a) && !In(r, a)
        ensures In(r, a) ==> Covers(f0, a)
      {
        WithoutCovers(f0, i, a);
        assert In(f0[i], a) ==> Covers(f0, a);
      }
      GivenBlock(f0[i], need);
      ApartByBytes(f2, r);
    }

    /**
     kmalloc: a 16-byte aligned payload in a new live block of at least the
     request rounded up and at most 32 bytes more, at the lowest address from
     which so many bytes are free in a row. Pages come in only if nowhere are,
     and then as many as the request fills; NULL means that still nowhere are.
     */
    method Kmalloc(size: nat) returns (ptr: nat)
      requires Valid() && !oom && size < U64
      modifies this
      ensures oom == (size > 0 && !Roomy(old(pages), old(live), Need(size)) && |old(supply)| < PagesFor(Need(size)))
      ensures !oom ==> Valid() && if size == 0 || Roomy(old(pages), old(live), Need(size))
                                  then pages == old(pages) && supply == old(supply)
                                  else pages == old(pages) + FirstPages(old(supply), PagesFor(Need(size)))
                                       && supply == old(supply)[PagesFor(Need(size))..]
      ensures !oom ==> (ptr == 0 <==> size == 0 || !Roomy(pages, old(live), Need(size)))
      ensures !oom && 0 < size && Need(size) <= PAGE ==> ptr != 0
      ensures !oom && ptr == 0 ==> live == old(live)
      ensures size == 0 ==> mem == old(mem) && free == old(free)
      ensures !oom && ptr != 0 ==>
                var b := ptr - HEADER;
                && HEADER < ptr && ptr % ALIGN == 0 && b !in old(live) && b in live && live == old(live)[b := live[b]]
                && Need(size) <= live[b] <= Need(size) + 32
                && Vacant(pages, old(live), b, Need(size))
                && forall a: int :: Vacant(pages, old(live), a, Need(size)) ==> b <= a
      ensures forall i: nat :: size > 0 && FirstFit(old(free), Need(size), i) && i < |old(free)| ==>
                !oom && ptr == old(free)[i].at + HEADER && pages == old(pages)
    {
      hide Tiles, LiveOk, LiveRep, IsList, Covers, InLive, Need, Vacant, Roomy;
      if size == 0 {
        return 0;
      }
      var need := Need(size);
      var b;
      ghost var i;
      b, i := FindFit(need);
      OneFit(free, need, i);
      FitIsLowest(pages, free, live, need, i);
      if b == 0 {
        var ok := Expand(need);
        if !ok {
          return 0;
        }
        b, i := FindFit(need);
        FitIsLowest(pages, free, live, need, i);
        if b == 0 {
          return 0;
        }
      }
      CanonBlock(free, i);
      GivenBlock(free[i], need);
      Carve(b, need, i);
      ptr := b + HEADER;
    }

    lemma OneFit(f: seq<Run>, need: nat, i: nat)
      requires FirstFit(f, need, i)
      ensures forall j: nat :: FirstFit(f, need, j) ==> j == i
    {
    }

    /** kfree: a live block becomes free; a pointer whose header is not that of a used block is ignored. */
    method Kfree(ptr: nat)
      requires Valid() && (ptr == 0 || (HEADER <= ptr && ptr - HEADER in mem))
      requires ptr != 0 && Used(mem[ptr - HEADER]) ==> ptr - HEADER in live
      modifies this`mem, this`freeHead, this`free, this`live
      ensures Valid()
      ensures ptr == 0 || !Used(old(mem)[ptr - HEADER]) ==>
                mem == old(mem) && freeHead == old(freeHead) && free == old(free) && live == old(live)
      ensures ptr != 0 && Used(old(mem)[ptr - HEADER]) ==>
                && live == old(live) - {ptr - HEADER}
                && (forall a: int :: Covers(free, a) <==> Covers(old(free), a) || In(Run(ptr - HEADER, old(live)[ptr - HEADER]), a))
                && ptr - HEADER in mem && !Used(mem[ptr - HEADER])
    {
      if ptr == 0 {
        return;
      }
      var b := ptr - HEADER;
      if !Used(mem[b]) {
        return;
      }
      hide Covers, Canon, IsList, Tiles, LiveOk, InLive, InPages;
      LiveApart(pages, free, live, b);
      LiveBlock(b);
      forall c | c in live && c != b
        ensures Away(free, c) && Clear(b, c)
      {
        LiveApart(pages, free, live, c);
        LiveBlock(c);
        TwoLive(b, c);
      }
      ghost var f0 := free;
      FreeInsert(b);
      TilesGiven(pages, f0, free, live, b);
      live := live - {b};
    }

    lemma LiveBlock(b: nat)
      requires LiveOk(live) && b in live
      ensures Block(Run(b, live[b]))
    {
    }

    lemma TwoLive(b: nat, c: nat)
      requires LiveOk(live) && b in live && c in live && b != c
      ensures Clear(b, c)
    {
      assert Block(Run(b, live[b])) && Block(Run(c, live[c]));
    }

    /** A kmalloc that needs no new page, then kfree, gives back the same free list; a second kfree changes nothing. */
    method MallocFree(size: nat, ghost i: nat)
      requires Valid() && !oom && 0 < size < U64 && FirstFit(free, Need(size), i) && i < |free|
      modifies this
      ensures Valid() && !oom && free == old(free) && live == old(live) && pages == old(pages) && freeHead == old(freeHead)
    {
      hide Tiles, LiveOk, IsList, Covers, InLive, Need, Canon;
      ghost var f0, l0 := free, live;
      SameHead(f0);
      var p := Kmalloc(size);
      ghost var l1 := live;
      Kfree(p);
      assert live == l0;
      FreeIsFunction(pages, f0, free, live);
      SameHead(f0);
      ghost var m := mem;
      Kfree(p);
      assert mem == m && free == f0;
    }

    lemma SameHead(f: seq<Run>)
      requires ListOk() && free == f
      ensures freeHead == Addr(f, 0)
    {
    }

    /** The owner of a live block writes bytes into its payload: nothing the heap relies on changes. */
    method Scribble(b: nat, now: Mem)
      requires Valid() && b in live
      requires forall x :: Untouched(b, x) ==> (x in now <==> x in mem) && (x in mem ==> now[x] == mem[x])
      modifies this`mem
      ensures Valid() && mem == now
    {
      hide Covers, Canon, Tiles, InLive, InPages;
      LiveApart(pages, free, live, b);
      forall i | 0 <= i < |free|
        ensures NodeOk(now, free, i)
      {
        FreeUntouched(free, b, i);
        assert NodeOk(mem, free, i);
      }
      forall c | c in live
        ensures Untouched(b, c)
      {
        assert Block(Run(b, live[b])) && Block(Run(c, live[c]));
      }
      mem := now;
    }

    /** A header that shares no byte with the payload of the block at b. */
    ghost predicate Untouched(b: nat, x: nat)
      requires b in live
      reads this`live
    {
      x + HEADER <= b + HEADER || b + live[b] <= x
    }

    lemma FreeUntouched(f: seq<Run>, b: nat, i: nat)
      requires b in live && Apart(f, Run(b, live[b])) && Canon(f) && i < |f|
      ensures Untouched(b, f[i].at)
    {
      assert Block(f[i]);
    }
  }

  /** block_valid and in use. */
  predicate Used(h: Hdr) {
    h.magic == MAGIC && h.size >= MIN_TOTAL && h.used != 0
  }

  /** What a request of need bytes gets from a run of n. */
  function Given(n: nat, need: nat): nat {
    if n < need + MIN_TOTAL then n else need
  }

  /** A header clear of every byte of a block. */
  predicate ClearOf(r: Run, x: nat) {
    x + HEADER <= r.at || r.End() <= x
  }
}
