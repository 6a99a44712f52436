/**
 Four-level page tables and the flat map they stand for
 (src/kernel/memory/vmm.c:12-15, 70-95, 125-164; Intel SDM Vol. 3A, section 4.5).
 */
module PageTables {
  import opened Options

  const ENTRIES := 512
  const PAGE := 4096
  const VIRT := 0x1_0000_0000_0000
  const PHYS := 0x10_0000_0000_0000

  /** The rights a page-table entry carries; rest holds its other attribute bits. */
  datatype Flags = Flags(writable: bool, user: bool, rest: nat)

  datatype Entry = Entry(present: bool, huge: bool, flags: Flags, addr: nat)

  const NO_ENTRY := Entry(false, false, Flags(false, false, 0), 0)

  /** The table indices of a virtual address. */
  datatype Path = Path(i4: nat, i3: nat, i2: nat, i1: nat)
  {
    predicate Ok() {
      i4 < ENTRIES && i3 < ENTRIES && i2 < ENTRIES && i1 < ENTRIES
    }
  }

  function PathOf(v: nat): (p: Path)
    ensures p.Ok()
  {
    Path(v / 0x80_0000_0000 % ENTRIES, v / 0x4000_0000 % ENTRIES, v / 0x20_0000 % ENTRIES, v / PAGE % ENTRIES)
  }

  /** Page-aligned addresses have the same indices exactly when their low 48 bits agree. */
  lemma PathsDiffer(v: nat, w: nat)
    requires v % PAGE == 0 && w % PAGE == 0
    ensures PathOf(v) == PathOf(w) <==> v % VIRT == w % VIRT
  {
    PathDigits(v);
    PathDigits(w);
  }

  lemma PathDigits(v: nat)
    requires v % PAGE == 0
    ensures var p := PathOf(v);
            v % VIRT == p.i4 * 0x80_0000_0000 + p.i3 * 0x4000_0000 + p.i2 * 0x20_0000 + p.i1 * PAGE
  {
    var n1 := v / PAGE;
    var n2 := n1 / ENTRIES;
    var n3 := n2 / ENTRIES;
    var n4 := n3 / ENTRIES;
    Shifts(v);
    assert v == PAGE * n1 && n1 == ENTRIES * n2 + n1 % ENTRIES && n2 == ENTRIES * n3 + n2 % ENTRIES && n3 == ENTRIES * n4 + n3 % ENTRIES;
    RemIs(v, n4 / ENTRIES, (n4 % ENTRIES) * 0x80_0000_0000 + (n3 % ENTRIES) * 0x4000_0000 + (n2 % ENTRIES) * 0x20_0000
        + (n1 % ENTRIES) * PAGE);
  }

  lemma Shifts(v: nat)
    ensures v / PAGE / ENTRIES == v / 0x20_0000
    ensures v / PAGE / ENTRIES / ENTRIES == v / 0x4000_0000
    ensures v / PAGE / ENTRIES / ENTRIES / ENTRIES == v / 0x80_0000_0000
  {
    Shift1(v);
    Shift2(v);
    Shift3(v);
  }

  lemma Shift1(v: nat)
    ensures v / PAGE / ENTRIES == v / 0x20_0000
  {
  }

  lemma Shift2(v: nat)
    ensures v / 0x20_0000 / ENTRIES == v / 0x4000_0000
  {
  }

  lemma Shift3(v: nat)
    ensures v / 0x4000_0000 / ENTRIES == v / 0x80_0000_0000
  {
  }

  lemma RemIs(v: nat, k: nat, x: nat)
    requires v == VIRT * k + x && x < VIRT
    ensures v % VIRT == x
  {
  }

  type Tables = map<nat, seq<Entry>>

  function Get(tables: Tables, t: nat, i: nat): Entry {
    if t in tables && i < |tables[t]| then tables[t][i] else NO_ENTRY
  }

  /** A translation with its effective rights. */
  datatype Page = Page(addr: nat, flags: Flags)

  /** The processor's walk: a page is writable, or open to user code, only if every level says so. */
  function Walk(tables: Tables, root: nat, p: Path): Option<Page> {
    var e4 := Get(tables, root, p.i4);
    var e3 := Get(tables, e4.addr, p.i3);
    var e2 := Get(tables, e3.addr, p.i2);
    var e1 := Get(tables, e2.addr, p.i1);
    if !e4.present || !e3.present || !e2.present || !e1.present then None
    else Some(Page(e1.addr, Flags(e4.flags.writable && e3.flags.writable && e2.flags.writable && e1.flags.writable,
                                  e4.flags.user && e3.flags.user && e2.flags.user && e1.flags.user, e1.flags.rest)))
  }

  /** A page is reached exactly if every level has its entry, and each right needs every level to grant it. */
  lemma EveryLevel(tables: Tables, root: nat, p: Path, e4: Entry, e3: Entry, e2: Entry, e1: Entry)
    requires e4 == Get(tables, root, p.i4) && e3 == Get(tables, e4.addr, p.i3)
    requires e2 == Get(tables, e3.addr, p.i2) && e1 == Get(tables, e2.addr, p.i1)
    ensures Walk(tables, root, p).Some? <==> forall e :: e in {e4, e3, e2, e1} ==> e.present
    ensures var w := Walk(tables, root, p);
            w.Some? ==> && w.value.addr == e1.addr && w.value.flags.rest == e1.flags.rest
                        && (w.value.flags.writable <==> forall e :: e in {e4, e3, e2, e1} ==> e.flags.writable)
                        && (w.value.flags.user <==> forall e :: e in {e4, e3, e2, e1} ==> e.flags.user)
  {
  }

  // ----- The tree of tables -----

  /** The indices that lead to a table. */
  datatype Prefix = P0 | P1(i4: nat) | P2(i4: nat, i3: nat) | P3(i4: nat, i3: nat, i2: nat)

  function Child(q: Prefix, i: nat): Prefix
    requires !q.P3?
  {
    match q
    case P0 => P1(i)
    case P1(a) => P2(a, i)
    case P2(a, b) => P3(a, b, i)
  }

  function Parent(q: Prefix): (r: Prefix)
    requires !q.P0?
    ensures !r.P3? && Child(r, Last(q)) == q
  {
    match q
    case P1(a) => P0
    case P2(a, b) => P1(a)
    case P3(a, b, c) => P2(a, b)
  }

  function Last(q: Prefix): nat
    requires !q.P0?
  {
    match q
    case P1(a) => a
    case P2(a, b) => b
    case P3(a, b, c) => c
  }

  /** at says where the table of each prefix lies: no table is shared. */
  ghost predicate Tree(tables: Tables, root: nat, at: map<Prefix, nat>) {
    && P0 in at && at[P0] == root
    && (forall q :: q in at ==> at[q] in tables && |tables[at[q]]| == ENTRIES)
    && (forall q, r :: q in at && r in at && q != r ==> at[q] != at[r])
    && (forall q :: q in at && !q.P0? ==> Last(q) < ENTRIES && Parent(q) in at)
    && (forall q, i: nat :: q in at && !q.P3? && i < ENTRIES ==> EntryOk(tables, at, q, i))
  }

  /** An upper entry is present exactly when its table is in the tree, and then it is a writable link to it. */
  ghost predicate EntryOk(tables: Tables, at: map<Prefix, nat>, q: Prefix, i: nat)
    requires q in at && !q.P3?
  {
    var e := Get(tables, at[q], i);
    && (e.present <==> Child(q, i) in at)
    && (e.present ==> !e.huge && e.flags.writable && e.addr == at[Child(q, i)])
  }

  /** A table with an entry open to user code hangs on an entry that is. */
  ghost predicate UserOk(tables: Tables, at: map<Prefix, nat>) {
    forall q, i: nat :: q in at && !q.P0? && Parent(q) in at ==> UserEntry(tables, at, q, i)
  }

  ghost predicate UserEntry(tables: Tables, at: map<Prefix, nat>, q: Prefix, i: nat)
    requires q in at && !q.P0? && Parent(q) in at
  {
    Get(tables, at[q], i).present && Get(tables, at[q], i).flags.user ==> Get(tables, at[Parent(q)], Last(q)).flags.user
  }

  lemma ChildInjective(q: Prefix, i: nat, r: Prefix, j: nat)
    requires !q.P3? && !r.P3? && Child(q, i) == Child(r, j)
    ensures q == r && i == j
  {
  }

  lemma ChildParent(q: Prefix, i: nat)
    requires !q.P3?
    ensures !Child(q, i).P0? && Parent(Child(q, i)) == q && Last(Child(q, i)) == i
  {
  }

  /** The leaf entry of a path. */
  ghost function Leaf(tables: Tables, at: map<Prefix, nat>, p: Path): Entry {
    if P3(p.i4, p.i3, p.i2) in at then Get(tables, at[P3(p.i4, p.i3, p.i2)], p.i1) else NO_ENTRY
  }

  /** In such a tree the walk gives the leaf with the leaf's own rights. */
  lemma WalkIsLeaf(tables: Tables, root: nat, at: map<Prefix, nat>, p: Path)
    requires Tree(tables, root, at) && UserOk(tables, at) && p.Ok()
    ensures var e := Leaf(tables, at, p);
            Walk(tables, root, p) == if e.present then Some(Page(e.addr, e.flags)) else None
  {
    var q1, q2, q3 := P1(p.i4), P2(p.i4, p.i3), P3(p.i4, p.i3, p.i2);
    assert EntryOk(tables, at, P0, p.i4);
    if q1 in at {
      assert EntryOk(tables, at, q1, p.i3);
      if q2 in at {
        assert EntryOk(tables, at, q2, p.i2);
      }
    }
    if q3 in at {
      assert Parent(q3) == q2 && Parent(q2) == q1 && Parent(q1) == P0;
      assert UserEntry(tables, at, q3, p.i1) && UserEntry(tables, at, q2, p.i2) && UserEntry(tables, at, q1, p.i3);
    } else if q2 in at {
      assert Parent(q2) == q1;
    }
  }

  // ----- Changing an entry -----

  function Set(tables: Tables, t: nat, i: nat, e: Entry): Tables
    requires t in tables && i < |tables[t]|
  {
    tables[t := tables[t][i := e]]
  }

  function Blank(): (r: seq<Entry>)
    ensures |r| == ENTRIES
  {
    seq(ENTRIES, _ => NO_ENTRY)
  }

  predicate SameLeaf(e: Entry, e': Entry) {
    e == e' || (!e.present && !e'.present)
  }

  /** A zeroed table is hung on an absent entry: the tree grows and no leaf changes. */
  lemma TableAdded(tables: Tables, root: nat, at: map<Prefix, nat>, q: Prefix, i: nat, page: nat)
    requires Tree(tables, root, at) && UserOk(tables, at) && q in at && !q.P3? && i < ENTRIES
    requires !Get(tables, at[q], i).present && page !in tables
    ensures var tables1 := tables[page := Blank()];
            var tables2 := Set(tables1, at[q], i, Entry(true, false, Flags(true, false, 0), page));
            var at2 := at[Child(q, i) := page];
            && Tree(tables2, root, at2) && UserOk(tables2, at2)
            && forall p: Path :: SameLeaf(Leaf(tables, at, p), Leaf(tables2, at2, p))
  {
    var tables2 := Set(tables[page := Blank()], at[q], i, Entry(true, false, Flags(true, false, 0), page));
    var at2 := at[Child(q, i) := page];
    assert EntryOk(tables, at, q, i);
    forall r, j: nat | r in at2 && !r.P3? && j < ENTRIES
      ensures EntryOk(tables2, at2, r, j)
    {
      if r in at {
        assert EntryOk(tables, at, r, j);
        if Child(r, j) == Child(q, i) {
          ChildInjective(q, i, r, j);
        }
      } else {
        ChildParent(r, j);
      }
    }
    ChildParent(q, i);
    forall r, j: nat | r in at2 && !r.P0? && Parent(r) in at2
      ensures UserEntry(tables2, at2, r, j)
    {
      if r in at {
        assert UserEntry(tables, at, r, j);
      }
    }
  }

  /** A leaf is replaced. */
  lemma LeafSet(tables: Tables, root: nat, at: map<Prefix, nat>, p: Path, e: Entry)
    requires Tree(tables, root, at) && UserOk(tables, at) && p.Ok() && P3(p.i4, p.i3, p.i2) in at
    requires e.present && e.flags.user ==> Get(tables, at[Parent(P3(p.i4, p.i3, p.i2))], p.i2).flags.user
    ensures var tables2 := Set(tables, at[P3(p.i4, p.i3, p.i2)], p.i1, e);
            Tree(tables2, root, at) && UserOk(tables2, at)
            && forall p': Path :: Leaf(tables2, at, p') == if p' == p then e else Leaf(tables, at, p')
  {
    var q := P3(p.i4, p.i3, p.i2);
    var tables2 := Set(tables, at[q], p.i1, e);
    forall r, j: nat | r in at && !r.P3? && j < ENTRIES
      ensures EntryOk(tables2, at, r, j)
    {
      assert EntryOk(tables, at, r, j);
    }
    forall r, j: nat | r in at && !r.P0? && Parent(r) in at
      ensures UserEntry(tables2, at, r, j)
    {
      assert UserEntry(tables, at, r, j);
    }
  }

  /** An upper entry is opened to user code. */
  lemma Opened(tables: Tables, root: nat, at: map<Prefix, nat>, q: Prefix, i: nat)
    requires Tree(tables, root, at) && UserOk(tables, at) && q in at && !q.P3? && i < ENTRIES && Child(q, i) in at
    requires !q.P0? ==> Get(tables, at[Parent(q)], Last(q)).flags.user
    ensures var e := Get(tables, at[q], i);
            var tables2 := Set(tables, at[q], i, e.(flags := e.flags.(user := true)));
            Tree(tables2, root, at) && UserOk(tables2, at) && forall p: Path :: Leaf(tables2, at, p) == Leaf(tables, at, p)
  {
    var e := Get(tables, at[q], i);
    var tables2 := Set(tables, at[q], i, e.(flags := e.flags.(user := true)));
    forall r, j: nat | r in at && !r.P3? && j < ENTRIES
      ensures EntryOk(tables2, at, r, j)
    {
      assert EntryOk(tables, at, r, j);
    }
    forall r, j: nat | r in at && !r.P0? && Parent(r) in at
      ensures UserEntry(tables2, at, r, j)
    {
      assert UserEntry(tables, at, r, j);
    }
  }
}
