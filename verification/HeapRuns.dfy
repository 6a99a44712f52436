/**
 Lists of free runs: sorted, with a gap between any two, so that a list is
 determined by the bytes it covers (src/kernel/memory/heap.c:51-88, 124-184).
 */
module HeapRuns {
  const ALIGN := 16
  const HEADER := 32
  const MIN_TOTAL := 48

  datatype Run = Run(at: nat, size: nat)
  {
    function End(): nat {
      at + size
    }
  }

  /** A block starts and ends on 16 bytes and holds a header and a payload. */
  predicate Block(r: Run) {
    0 < r.at && r.at % ALIGN == 0 && r.size % ALIGN == 0 && r.size >= MIN_TOTAL
  }

  /** Blocks in address order, no two of them touching. */
  ghost predicate Canon(f: seq<Run>) {
    && (forall i :: 0 <= i < |f| ==> Block(f[i]))
    && (forall i, j :: 0 <= i < j < |f| ==> f[i].End() < f[j].at)
  }

  predicate In(r: Run, a: int) {
    r.at <= a < r.End()
  }

  ghost predicate Covers(f: seq<Run>, a: int) {
    exists i :: 0 <= i < |f| && In(f[i], a)
  }

  ghost predicate SameCover(f: seq<Run>, g: seq<Run>) {
    forall a: int :: Covers(f, a) <==> Covers(g, a)
  }

  lemma FirstCovered(f: seq<Run>)
    requires Canon(f) && f != []
    ensures Covers(f, f[0].at)
    ensures forall a: int :: Covers(f, a) ==> f[0].at <= a
    ensures !Covers(f, f[0].End())
  {
    assert In(f[0], f[0].at);
  }

  lemma RestCovers(f: seq<Run>, a: int)
    requires Canon(f) && f != []
    ensures Covers(f[1..], a) <==> Covers(f, a) && f[0].End() <= a
  {
    if Covers(f, a) && f[0].End() <= a {
      var i :| 0 <= i < |f| && In(f[i], a);
      assert f[1..][i - 1] == f[i];
    }
    if Covers(f[1..], a) {
      var i :| 0 <= i < |f| - 1 && In(f[1..][i], a);
      assert f[i + 1] == f[1..][i];
    }
  }

  lemma SameFirst(f: seq<Run>, g: seq<Run>)
    requires Canon(f) && Canon(g) && f != [] && g != [] && SameCover(f, g)
    ensures f[0] == g[0]
  {
    FirstCovered(f);
    FirstCovered(g);
    assert Covers(g, f[0].at) && Covers(f, g[0].at);
    if f[0].End() < g[0].End() {
      assert In(g[0], f[0].End());
      assert false;
    } else if g[0].End() < f[0].End() {
      assert In(f[0], g[0].End());
      assert false;
    }
  }

  /** Two free lists that cover the same bytes are the same list. */
  lemma {:induction false} Unique(f: seq<Run>, g: seq<Run>)
    requires Canon(f) && Canon(g) && SameCover(f, g)
    ensures f == g
    decreases |f|
  {
    if f == [] {
      if g != [] {
        FirstCovered(g);
        assert false;
      }
    } else if g == [] {
      FirstCovered(f);
      assert false;
    } else {
      SameFirst(f, g);
      forall a: int
        ensures Covers(f[1..], a) <==> Covers(g[1..], a)
      {
        RestCovers(f, a);
        RestCovers(g, a);
        assert Covers(f, a) <==> Covers(g, a);
      }
      Unique(f[1..], g[1..]);
      assert f == [f[0]] + f[1..] && g == [g[0]] + g[1..];
    }
  }

  /** The runs of a free list are maximal: the byte before and the byte behind each is not free. */
  lemma Maximal(f: seq<Run>, i: nat)
    requires Canon(f) && i < |f|
    ensures !Covers(f, f[i].at - 1) && !Covers(f, f[i].End()) && forall a: int :: In(f[i], a) ==> Covers(f, a)
  {
    forall j | 0 <= j < |f|
      ensures !In(f[j], f[i].at - 1) && !In(f[j], f[i].End())
    {
      assert Block(f[i]) && Block(f[j]);
    }
  }

  // ----- Putting a run back -----

  /** r has no byte in common with a run of f. */
  ghost predicate Apart(f: seq<Run>, r: Run) {
    forall i :: 0 <= i < |f| ==> f[i].End() <= r.at || r.End() <= f[i].at
  }

  /** The first k runs lie before r and the others behind it. */
  ghost predicate Between(f: seq<Run>, k: nat, r: Run) {
    k <= |f| && (forall i :: 0 <= i < k ==> f[i].at < r.at) && (forall i :: k <= i < |f| ==> r.at < f[i].at)
  }

  predicate TouchesNext(f: seq<Run>, k: nat, r: Run) {
    k < |f| && r.End() == f[k].at
  }

  predicate TouchesPrev(f: seq<Run>, k: nat, r: Run) {
    0 < k <= |f| && f[k - 1].End() == r.at
  }

  /** r joined with the runs it touches. */
  function Joined(f: seq<Run>, k: nat, r: Run): (m: Run)
    requires k <= |f|
  {
    var size := if TouchesNext(f, k, r) then r.size + f[k].size else r.size;
    if TouchesPrev(f, k, r) then Run(f[k - 1].at, f[k - 1].size + size) else Run(r.at, size)
  }

  /** f with r put in at its place and joined with its neighbours. */
  function Placed(f: seq<Run>, k: nat, r: Run): seq<Run>
    requires k <= |f|
  {
    f[..if TouchesPrev(f, k, r) then k - 1 else k] + [Joined(f, k, r)] + f[if TouchesNext(f, k, r) then k + 1 else k..]
  }

  lemma ConcatCovers(f: seq<Run>, g: seq<Run>, a: int)
    ensures Covers(f + g, a) <==> Covers(f, a) || Covers(g, a)
  {
    if i :| 0 <= i < |f| && In(f[i], a) {
      assert In((f + g)[i], a);
    }
    if i :| 0 <= i < |g| && In(g[i], a) {
      assert In((f + g)[|f| + i], a);
    }
    if i :| 0 <= i < |f + g| && In((f + g)[i], a) {
      assert if i < |f| then In(f[i], a) else In(g[i - |f|], a);
    }
  }

  lemma OneCovers(r: Run, a: int)
    ensures Covers([r], a) <==> In(r, a)
  {
    assert In(r, a) ==> In([r][0], a);
  }

  /** The runs from lo to hi replaced by m. */
  function Replaced(f: seq<Run>, lo: nat, hi: nat, m: Run): seq<Run>
    requires lo <= hi <= |f|
  {
    f[..lo] + [m] + f[hi..]
  }

  lemma ReplacedCovers(f: seq<Run>, lo: nat, hi: nat, m: Run, a: int)
    requires lo <= hi <= |f|
    ensures Covers(f, a) <==> Covers(f[..lo], a) || Covers(f[lo..hi], a) || Covers(f[hi..], a)
    ensures Covers(Replaced(f, lo, hi, m), a) <==> Covers(f[..lo], a) || In(m, a) || Covers(f[hi..], a)
  {
    assert f == f[..lo] + f[lo..hi] + f[hi..];
    ConcatCovers(f[..lo] + f[lo..hi], f[hi..], a);
    ConcatCovers(f[..lo], f[lo..hi], a);
    ConcatCovers(f[..lo] + [m], f[hi..], a);
    ConcatCovers(f[..lo], [m], a);
    OneCovers(m, a);
  }

  lemma ReplacedCanon(f: seq<Run>, lo: nat, hi: nat, m: Run)
    requires Canon(f) && lo <= hi <= |f| && Block(m)
    requires (lo > 0 ==> f[lo - 1].End() < m.at) && (hi < |f| ==> m.End() < f[hi].at)
    ensures Canon(Replaced(f, lo, hi, m))
  {
    hide Block;
    var g := Replaced(f, lo, hi, m);
    assert forall i :: 0 <= i < |g| ==> g[i] == if i < lo then f[i] else if i == lo then m else f[i - lo - 1 + hi];
    forall i, j | 0 <= i < j < |g|
      ensures g[i].End() < g[j].at
    {
      if j == lo {
        assert f[i].End() <= f[lo - 1].End();
      } else if i == lo {
        assert f[hi].at <= f[j - lo - 1 + hi].at;
      }
    }
  }

  lemma PlacedCanon(f: seq<Run>, k: nat, r: Run)
    requires Canon(f) && Block(r) && Apart(f, r) && Between(f, k, r)
    ensures Canon(Placed(f, k, r))
  {
    var lo, hi := if TouchesPrev(f, k, r) then k - 1 else k, if TouchesNext(f, k, r) then k + 1 else k;
    JoinedBlock(f, k, r);
    ReplacedCanon(f, lo, hi, Joined(f, k, r));
  }

  lemma JoinedBlock(f: seq<Run>, k: nat, r: Run)
    requires Canon(f) && Block(r) && k <= |f|
    ensures Block(Joined(f, k, r))
  {
    if 0 < k {
      assert Block(f[k - 1]);
    }
    if k < |f| {
      assert Block(f[k]);
    }
  }

  lemma PlacedCovers(f: seq<Run>, k: nat, r: Run, a: int)
    requires k <= |f|
    ensures Covers(Placed(f, k, r), a) <==> Covers(f, a) || In(r, a)
  {
    var lo, hi := if TouchesPrev(f, k, r) then k - 1 else k, if TouchesNext(f, k, r) then k + 1 else k;
    ReplacedCovers(f, lo, hi, Joined(f, k, r), a);
    MiddleCovers(f, k, r, lo, hi, a);
  }

  lemma MiddleCovers(f: seq<Run>, k: nat, r: Run, lo: nat, hi: nat, a: int)
    requires k <= |f|
    requires lo == (if TouchesPrev(f, k, r) then k - 1 else k) && hi == (if TouchesNext(f, k, r) then k + 1 else k)
    ensures In(Joined(f, k, r), a) <==> Covers(f[lo..hi], a) || In(r, a)
  {
    assert f[lo..hi] == f[lo..k] + f[k..hi];
    ConcatCovers(f[lo..k], f[k..hi], a);
    if lo < k {
      assert f[lo..k] == [f[lo]];
      OneCovers(f[lo], a);
    }
    if k < hi {
      assert f[k..hi] == [f[k]];
      OneCovers(f[k], a);
    }
  }

  // ----- Taking a run out -----

  function Without(f: seq<Run>, k: nat): seq<Run>
    requires k < |f|
  {
    f[..k] + f[k + 1..]
  }

  lemma WithoutCanon(f: seq<Run>, k: nat)
    requires Canon(f) && k < |f|
    ensures Canon(Without(f, k)) && Apart(Without(f, k), f[k])
  {
    var g := Without(f, k);
    assert forall i :: 0 <= i < |g| ==> g[i] == f[if i < k then i else i + 1];
  }

  lemma WithoutCovers(f: seq<Run>, k: nat, a: int)
    requires Canon(f) && k < |f|
    ensures Covers(Without(f, k), a) <==> Covers(f, a) && !In(f[k], a)
  {
    assert f == f[..k] + [f[k]] + f[k + 1..];
    ConcatCovers(f[..k] + [f[k]], f[k + 1..], a);
    ConcatCovers(f[..k], [f[k]], a);
    OneCovers(f[k], a);
    ConcatCovers(f[..k], f[k + 1..], a);
    if In(f[k], a) {
      OthersApart(f, k, a);
    }
  }

  lemma OthersApart(f: seq<Run>, k: nat, a: int)
    requires Canon(f) && k < |f| && In(f[k], a)
    ensures !Covers(f[..k], a) && !Covers(f[k + 1..], a)
  {
    var before, after := f[..k], f[k + 1..];
    forall i | 0 <= i < |before|
      ensures !In(before[i], a)
    {
      assert f[i].End() < f[k].at;
    }
    forall i | 0 <= i < |after|
      ensures !In(after[i], a)
    {
      assert f[k].End() < f[k + 1 + i].at;
    }
  }
}
