/**
 The heap's free list in memory: block headers linked through next_free
 (src/kernel/memory/heap.c:13-20, 51-88, 110-145). Memory is the headers written
 so far by address; writing one drops what overlaps it.
 */
module HeapList {
  import opened HeapRuns

  const MAGIC := 0x48454150

  /** A block header. */
  datatype Hdr = Hdr(size: nat, magic: nat, used: nat, next: nat)

  type Mem = map<nat, Hdr>

  /** A header written at an address; the words around it no longer form headers of their own. */
  function Put(mem: Mem, at: nat, h: Hdr): Mem {
    (map x | x in mem && (x + HEADER <= at || at + HEADER <= x) :: mem[x])[at := h]
  }

  predicate Clear(x: nat, y: nat) {
    x + HEADER <= y || y + HEADER <= x
  }

  /** x is a header clear of the headers of f. */
  ghost predicate Away(f: seq<Run>, x: nat) {
    forall i :: 0 <= i < |f| ==> Clear(f[i].at, x)
  }

  /** The headers of f do not overlap. */
  ghost predicate Spread(f: seq<Run>) {
    forall i, j :: 0 <= i < j < |f| ==> Clear(f[i].at, f[j].at)
  }

  /** The address of the i-th run, NULL behind the last. */
  function Addr(f: seq<Run>, i: nat): nat {
    if i < |f| then f[i].at else 0
  }

  ghost predicate NodeOk(mem: Mem, f: seq<Run>, i: nat)
    requires i < |f|
  {
    0 < f[i].at && f[i].at in mem && mem[f[i].at] == Hdr(f[i].size, MAGIC, 0, Addr(f, i + 1))
  }

  /** The list that starts at head holds the runs f. */
  ghost predicate IsList(mem: Mem, head: nat, f: seq<Run>) {
    head == Addr(f, 0) && forall i :: 0 <= i < |f| ==> NodeOk(mem, f, i)
  }

  /** Headers clear of f and of r keep their value. */
  ghost predicate KeptAway(mem: Mem, mem': Mem, f: seq<Run>, r: nat) {
    forall x :: x in mem && Away(f, x) && Clear(r, x) ==> x in mem' && mem'[x] == mem[x]
  }

  lemma PutOther(mem: Mem, at: nat, h: Hdr, x: nat)
    ensures Clear(at, x) && x in mem ==> x in Put(mem, at, h) && Put(mem, at, h)[x] == mem[x]
    ensures at in Put(mem, at, h) && Put(mem, at, h)[at] == h
    ensures x != at && !Clear(at, x) ==> x !in Put(mem, at, h)
  {
  }

  lemma CanonSpread(f: seq<Run>)
    requires Canon(f)
    ensures Spread(f)
  {
    forall i, j | 0 <= i < j < |f|
      ensures Clear(f[i].at, f[j].at)
    {
      assert Block(f[i]);
    }
  }

  /** Setting a node's next pointer and inserting the node b behind it. */
  lemma LinkedIn(mem: Mem, head: nat, f: seq<Run>, k: nat, r: Run)
    requires IsList(mem, head, f) && Spread(f) && k <= |f| && Away(f, r.at) && 0 < r.at
    ensures var g := f[..k] + [r] + f[k..];
            var mem1 := if k == 0 then mem else Put(mem, f[k - 1].at, Hdr(f[k - 1].size, MAGIC, 0, r.at));
            IsList(Put(mem1, r.at, Hdr(r.size, MAGIC, 0, Addr(f, k))), if k == 0 then r.at else head, g) && Spread(g)
  {
    var g := f[..k] + [r] + f[k..];
    var mem1 := if k == 0 then mem else Put(mem, f[k - 1].at, Hdr(f[k - 1].size, MAGIC, 0, r.at));
    var mem2 := Put(mem1, r.at, Hdr(r.size, MAGIC, 0, Addr(f, k)));
    assert forall i :: 0 <= i < |g| ==> g[i] == if i < k then f[i] else if i == k then r else f[i - 1];
    hide Put;
    forall i: nat | i < |g|
      ensures NodeOk(mem2, g, i)
    {
      PutOther(mem1, r.at, Hdr(r.size, MAGIC, 0, Addr(f, k)), g[i].at);
      if i != k {
        assert NodeOk(mem, f, if i < k then i else i - 1);
        if k > 0 {
          PutOther(mem, f[k - 1].at, Hdr(f[k - 1].size, MAGIC, 0, r.at), g[i].at);
        }
      }
    }
  }

  /** f with runs i and i + 1 made one. */
  function Merged(f: seq<Run>, i: nat): seq<Run>
    requires i + 1 < |f|
  {
    f[..i] + [Run(f[i].at, f[i].size + f[i + 1].size)] + f[i + 2..]
  }

  lemma MergedList(mem: Mem, head: nat, f: seq<Run>, i: nat)
    requires IsList(mem, head, f) && Spread(f) && i + 1 < |f|
    ensures var mem1 := Put(mem, f[i].at, Hdr(f[i].size + f[i + 1].size, MAGIC, 0, Addr(f, i + 2)));
            var mem2 := Put(mem1, f[i + 1].at, Hdr(f[i + 1].size, 0, 0, Addr(f, i + 2)));
            IsList(mem2, head, Merged(f, i)) && Spread(Merged(f, i))
  {
    var g := Merged(f, i);
    var mem1 := Put(mem, f[i].at, Hdr(f[i].size + f[i + 1].size, MAGIC, 0, Addr(f, i + 2)));
    var mem2 := Put(mem1, f[i + 1].at, Hdr(f[i + 1].size, 0, 0, Addr(f, i + 2)));
    assert forall j :: 0 <= j < |g| && j != i ==> g[j] == f[if j < i then j else j + 1];
    hide Put;
    forall j: nat | j < |g|
      ensures NodeOk(mem2, g, j)
    {
      PutOther(mem, f[i].at, Hdr(f[i].size + f[i + 1].size, MAGIC, 0, Addr(f, i + 2)), g[j].at);
      PutOther(mem1, f[i + 1].at, Hdr(f[i + 1].size, 0, 0, Addr(f, i + 2)), g[j].at);
      assert NodeOk(mem, f, if j <= i then j else j + 1);
    }
  }

  /** Unlinking run k. */
  lemma LinkedOut(mem: Mem, head: nat, f: seq<Run>, k: nat)
    requires IsList(mem, head, f) && Spread(f) && k < |f|
    ensures var mem1 := if k == 0 then mem else Put(mem, f[k - 1].at, Hdr(f[k - 1].size, MAGIC, 0, Addr(f, k + 1)));
            IsList(mem1, if k == 0 then Addr(f, 1) else head, Without(f, k)) && Spread(Without(f, k))
  {
    var g := Without(f, k);
    assert forall j :: 0 <= j < |g| ==> g[j] == f[if j < k then j else j + 1];
    var mem1 := if k == 0 then mem else Put(mem, f[k - 1].at, Hdr(f[k - 1].size, MAGIC, 0, Addr(f, k + 1)));
    hide Put;
    forall j: nat | j < |g|
      ensures NodeOk(mem1, g, j)
    {
      assert NodeOk(mem, f, if j < k then j else j + 1);
      if k > 0 {
        PutOther(mem, f[k - 1].at, Hdr(f[k - 1].size, MAGIC, 0, Addr(f, k + 1)), g[j].at);
      }
    }
  }

  /** A header away from the list may be overwritten. */
  lemma PutAway(mem: Mem, head: nat, f: seq<Run>, at: nat, h: Hdr)
    requires IsList(mem, head, f) && Away(f, at)
    ensures IsList(Put(mem, at, h), head, f)
  {
    hide Put;
    var mem' := Put(mem, at, h);
    forall i: nat | i < |f|
      ensures NodeOk(mem', f, i)
    {
      assert NodeOk(mem, f, i);
      PutOther(mem, at, h, f[i].at);
    }
  }
}
