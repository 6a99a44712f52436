/**
 What kmalloc is for, said in bytes: where n free bytes in a row are, and how
 many pages a request brings in (src/kernel/memory/heap.c:110-122, 146-162, 205-233).
 */
module HeapVacant {
  import opened Errors
  import opened HeapRuns

  const PAGE := 4096

  /** Byte a lies in one of the pages. */
  ghost predicate InPages(pages: set<nat>, a: int) {
    0 <= a && a - a % PAGE in pages
  }

  ghost predicate InLive(live: map<nat, nat>, a: int) {
    exists b :: b in live && In(Run(b, live[b]), a)
  }

  /** The free runs and the live blocks tile the pages. */
  ghost predicate Tiles(pages: set<nat>, f: seq<Run>, live: map<nat, nat>) {
    && (forall a: int :: InPages(pages, a) <==> Covers(f, a) || InLive(live, a))
    && (forall a: int :: !(Covers(f, a) && InLive(live, a)))
  }

  /** The n bytes from a on are bytes of the heap that belong to no live block. */
  ghost predicate Vacant(pages: set<nat>, live: map<nat, nat>, a: int, n: int) {
    forall x: int :: a <= x < a + n ==> InPages(pages, x) && !InLive(live, x)
  }

  /** Somewhere n such bytes follow one another. */
  ghost predicate Roomy(pages: set<nat>, live: map<nat, nat>, n: int) {
    exists a: int :: Vacant(pages, live, a, n)
  }

  /** i is the first run of at least need bytes, or the number of runs. */
  ghost predicate FirstFit(f: seq<Run>, need: nat, i: nat) {
    i <= |f| && (forall j :: 0 <= j < i ==> f[j].size < need) && (i < |f| ==> f[i].size >= need)
  }

  /** Bytes that are free in a row lie in one run of the free list. */
  lemma OneRun(pages: set<nat>, f: seq<Run>, live: map<nat, nat>, a: int, n: int) returns (i: nat)
    requires Canon(f) && Tiles(pages, f, live) && Vacant(pages, live, a, n) && 0 < n
    ensures i < |f| && f[i].at <= a && a + n <= f[i].End()
  {
    assert InPages(pages, a) && !InLive(live, a);
    assert Covers(f, a);
    i :| 0 <= i < |f| && In(f[i], a);
    Maximal(f, i);
    var x: int := f[i].End();
    assert !(InPages(pages, x) && !InLive(live, x));
  }

  lemma RunVacant(pages: set<nat>, f: seq<Run>, live: map<nat, nat>, i: nat, n: nat)
    requires Canon(f) && Tiles(pages, f, live) && i < |f| && n <= f[i].size
    ensures Vacant(pages, live, f[i].at, n)
  {
    forall x: int | f[i].at <= x < f[i].at + n
      ensures InPages(pages, x) && !InLive(live, x)
    {
      assert In(f[i], x);
      assert Covers(f, x);
    }
  }

  /** The first run that fits starts at the lowest address from which so many bytes are free; there is none exactly if no run fits. */
  lemma FitIsLowest(pages: set<nat>, f: seq<Run>, live: map<nat, nat>, need: nat, i: nat)
    requires Canon(f) && Tiles(pages, f, live) && 0 < need && FirstFit(f, need, i)
    ensures Roomy(pages, live, need) <==> i < |f|
    ensures i < |f| ==> Vacant(pages, live, f[i].at, need)
    ensures i < |f| ==> forall a: int :: Vacant(pages, live, a, need) ==> f[i].at <= a
  {
    hide Vacant, Tiles, Covers;
    if i < |f| {
      RunVacant(pages, f, live, i, need);
    }
    forall a: int | Vacant(pages, live, a, need)
      ensures i < |f| && f[i].at <= a
    {
      var j := OneRun(pages, f, live, a, need);
      assert f[j].size >= need;
      assert i < j ==> f[i].End() < f[j].at;
    }
  }

  /** How many pages a request for need bytes brings in: as many as hold them, and one where the sum wraps. */
  function PagesFor(need: nat): (n: nat)
    requires need < U64
    ensures 1 <= n && (need + PAGE <= U64 ==> need <= n * PAGE && (n == 1 || (n - 1) * PAGE < need))
    ensures need + PAGE > U64 ==> n == 1
  {
    var n := (need + PAGE - 1) % U64 / PAGE;
    if n == 0 then 1 else n
  }

  /** The first n pages of the supply. */
  ghost function FirstPages(supply: seq<nat>, n: nat): (s: set<nat>)
    requires n <= |supply|
    ensures forall p :: p in s <==> exists i :: 0 <= i < n && supply[i] == p
  {
    set p | p in supply[..n]
  }

  lemma MorePages(supply: seq<nat>, n: nat)
    requires n < |supply|
    ensures FirstPages(supply, n + 1) == FirstPages(supply, n) + {supply[n]}
  {
    assert supply[..n + 1] == supply[..n] + [supply[n]];
  }

  lemma NoPages(supply: seq<nat>)
    ensures FirstPages(supply, 0) == {}
  {
  }

  /** With nothing live every byte of the pages is free. */
  lemma AllVacant(pages: set<nat>, f: seq<Run>, live: map<nat, nat>)
    requires Tiles(pages, f, live) && live == map[]
    ensures forall a: int :: Covers(f, a) <==> InPages(pages, a)
  {
  }

  /** A page of which nothing is live has room for a page. */
  lemma PageVacant(pages: set<nat>, live: map<nat, nat>, p: nat)
    requires p in pages && p % PAGE == 0 && forall x: int :: p <= x < p + PAGE ==> !InLive(live, x)
    ensures Vacant(pages, live, p, PAGE)
  {
    forall x: int | p <= x < p + PAGE
      ensures InPages(pages, x)
    {
      PageOf(x, p);
    }
  }

  lemma PageOf(a: int, p: nat)
    requires p % PAGE == 0
    ensures In(Run(p, PAGE), a) <==> 0 <= a && a - a % PAGE == p
  {
  }

  /** A page that has just come in holds no live block. */
  lemma NewPage(pages: set<nat>, f: seq<Run>, live: map<nat, nat>, pages': set<nat>, p: nat, need: nat)
    requires Tiles(pages, f, live) && p !in pages && p in pages' && p % PAGE == 0 && need <= PAGE
    ensures Roomy(pages', live, need)
  {
    forall x: int | p <= x < p + PAGE
      ensures !InLive(live, x)
    {
      PageOf(x, p);
      assert !InPages(pages, x);
    }
    PageVacant(pages', live, p);
    assert Vacant(pages', live, p, need);
  }
}
