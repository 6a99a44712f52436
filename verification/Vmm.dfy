/**
 Mapping pages: map_page updates one page of the flat map, and its loops give
 the kernel its address space (src/kernel/memory/vmm.c:32-46, 62-207).

 The kernel reads and writes a page of memory at the virtual address that equals
 its physical one. From the moment the tables are the processor's own that goes
 through the very map that map_page changes: an access that does not reach its
 page is recorded, and nothing is claimed from then on.
 */
module Vmm {
  import opened Errors
  import opened Options
  import opened PageTables
  import FlatBytes

  /** The end of the lower half of the address space. */
  const LOW_END := 0x8000_0000_0000

  /** Every walk gives what it gave. */
  ghost predicate SameMap(t0: Tables, t1: Tables, root: nat) {
    forall p: Path :: p.Ok() ==> Walk(t1, root, p) == Walk(t0, root, p)
  }

  /** One page is mapped anew; every other keeps its translation and rights. */
  ghost predicate OneMapped(t0: Tables, t1: Tables, root: nat, p: Path, page: Page) {
    forall p': Path :: p'.Ok() ==> Walk(t1, root, p') == if p' == p then Some(page) else Walk(t0, root, p')
  }

  lemma SameByLeaves(t0: Tables, at0: map<Prefix, nat>, t1: Tables, at1: map<Prefix, nat>, root: nat)
    requires Tree(t0, root, at0) && UserOk(t0, at0) && Tree(t1, root, at1) && UserOk(t1, at1)
    requires forall p: Path :: SameLeaf(Leaf(t0, at0, p), Leaf(t1, at1, p))
    ensures SameMap(t0, t1, root)
  {
    forall p: Path | p.Ok()
      ensures Walk(t1, root, p) == Walk(t0, root, p)
    {
      WalkIsLeaf(t0, root, at0, p);
      WalkIsLeaf(t1, root, at1, p);
      assert SameLeaf(Leaf(t0, at0, p), Leaf(t1, at1, p));
    }
  }

  lemma OneByLeaves(t0: Tables, t1: Tables, at: map<Prefix, nat>, root: nat, p: Path, e: Entry)
    requires Tree(t0, root, at) && UserOk(t0, at) && Tree(t1, root, at) && UserOk(t1, at) && e.present
    requires forall p': Path :: Leaf(t1, at, p') == if p' == p then e else Leaf(t0, at, p')
    ensures OneMapped(t0, t1, root, p, Page(e.addr, e.flags))
  {
    forall p': Path | p'.Ok()
      ensures Walk(t1, root, p') == if p' == p then Some(Page(e.addr, e.flags)) else Walk(t0, root, p')
    {
      WalkIsLeaf(t0, root, at, p');
      WalkIsLeaf(t1, root, at, p');
    }
  }

  /** Virtual address x is physical address x, and may be written. */
  predicate ToSelf(t: Tables, root: nat, x: nat) {
    var w := Walk(t, root, PathOf(x));
    w.Some? && w.value.addr == x && w.value.flags.writable
  }

  /** A translation to the page itself, for the kernel only. */
  predicate Own(w: Option<Page>, a: nat) {
    w.Some? && w.value.addr == a && w.value.flags.writable && !w.value.flags.user
  }

  /** The identity map of the first physEnd bytes is whole. */
  ghost predicate WholeMap(t: Tables, root: nat, physEnd: nat) {
    forall a: nat :: a < physEnd && a % PAGE == 0 ==> Own(Walk(t, root, PathOf(a)), a)
  }

  lemma SameTwo(t0: Tables, t1: Tables, t2: Tables, root: nat)
    ensures SameMap(t0, t1, root) && SameMap(t1, t2, root) ==> SameMap(t0, t2, root)
  {
    hide Walk;
  }

  lemma SelfSame(t0: Tables, t1: Tables, root: nat)
    requires SameMap(t0, t1, root)
    ensures forall x: nat :: ToSelf(t1, root, x) == ToSelf(t0, root, x)
    ensures forall v: nat :: Walk(t1, root, PathOf(v)) == Walk(t0, root, PathOf(v))
  {
    hide Walk;
  }

  lemma WholeSelf(t: Tables, root: nat, physEnd: nat, x: nat)
    requires WholeMap(t, root, physEnd) && x < physEnd && x % PAGE == 0
    ensures ToSelf(t, root, x)
  {
    hide Walk, PathOf;
  }

  /** Mapping a page keeps the identity map whole exactly when it lies outside it or is mapped to itself for the kernel. */
  lemma WholeAfter(t0: Tables, t1: Tables, root: nat, v: nat, page: Page, physEnd: nat)
    requires OneMapped(t0, t1, root, PathOf(v), page) && WholeMap(t0, root, physEnd) && v % PAGE == 0 && physEnd <= VIRT
    ensures WholeMap(t1, root, physEnd) <==> v % VIRT >= physEnd || Own(Some(page), v % VIRT)
  {
    hide Walk, PathOf;
    LowPage(v);
    PathsDiffer(v % VIRT, v);
    forall a: nat | a < physEnd && a % PAGE == 0 && a != v % VIRT
      ensures Own(Walk(t1, root, PathOf(a)), a)
    {
      PathsDiffer(a, v);
      SmallRem(a);
    }
  }

  lemma LowPage(v: nat)
    requires v % PAGE == 0
    ensures v % VIRT % PAGE == 0 && v % VIRT % VIRT == v % VIRT < VIRT
  {
  }

  /** Pages become tables only by being taken from the front of the supply. */
  ghost predicate Drawn(t0: Tables, supply0: seq<nat>, t1: Tables, supply1: seq<nat>) {
    && (exists n :: 0 <= n <= |supply0| && supply1 == supply0[n..])
    && (forall x :: x in t0 ==> x in t1)
    && (forall x :: x in t1 ==> x in t0 || (x in supply0 && x !in supply1))
  }

  lemma DrawnNone(t: Tables, supply: seq<nat>)
    ensures Drawn(t, supply, t, supply)
  {
    assert supply == supply[0..];
  }

  lemma DrawnOne(t0: Tables, supply: seq<nat>, t1: Tables)
    requires supply != [] && t1.Keys == t0.Keys + {supply[0]} && supply[0] !in supply[1..]
    ensures Drawn(t0, supply, t1, supply[1..])
  {
  }

  lemma DrawnMore(t0: Tables, s0: seq<nat>, t1: Tables, s1: seq<nat>, t2: Tables, s2: seq<nat>)
    requires Drawn(t0, s0, t1, s1) && (Drawn(t1, s1, t2, s2) || (t2.Keys == t1.Keys && s2 == s1))
    ensures Drawn(t0, s0, t2, s2)
  {
    if s2 != s1 || t2.Keys != t1.Keys {
      var n :| 0 <= n <= |s0| && s1 == s0[n..];
      var m :| 0 <= m <= |s1| && s2 == s1[m..];
      assert s2 == s0[n + m..];
    }
  }

  class AddressSpace {
    /** The memory the page allocator manages ends here. */
    const physEnd: nat
    var tables: Tables
    /** kernel_pml4, 0 before init_vmm. */
    var pml4: nat
    /** The pages alloc_page will hand out; when they run out it returns a pointer that is no page. */
    var supply: seq<nat>
    var oom: bool
    /** CR3 holds the root: the kernel works under its own tables. */
    var active: bool
    /** Set for good when the kernel's access to a page misses it. */
    var astray: bool
    ghost var at: map<Prefix, nat>

    predicate PageOk(x: nat) {
      0 < x < physEnd && x % PAGE == 0
    }

    ghost predicate Valid()
      reads this
    {
      && physEnd <= LOW_END && physEnd % PAGE == 0
      && (pml4 != 0 ==> Tree(tables, pml4, at) && UserOk(tables, at))
      && (forall x :: x in tables ==> PageOk(x))
      && (forall i :: 0 <= i < |supply| ==> PageOk(supply[i]) && supply[i] !in tables)
      && (forall i, j :: 0 <= i < j < |supply| ==> supply[i] != supply[j])
    }

    /** Neither has memory run out nor an access missed its page. */
    predicate Fine()
      reads this`oom, this`astray
    {
      !oom && !astray
    }

    /** An access at the address of page x reaches page x. */
    predicate Reaches(x: nat)
      reads this`active, this`tables, this`pml4
    {
      !active || ToSelf(tables, pml4, x)
    }

    /** Every table can be reached. */
    ghost predicate Firm()
      reads this`active, this`tables, this`pml4
    {
      forall x :: x in tables ==> Reaches(x)
    }

    /** So can every page still to be handed out. */
    ghost predicate Stocked()
      reads this`active, this`tables, this`pml4, this`supply
    {
      forall x :: x in supply ==> Reaches(x)
    }

    ghost predicate Whole()
      reads this`tables, this`pml4
    {
      WholeMap(tables, pml4, physEnd)
    }

    /** Under a whole identity map every page of the allocator is reached. */
    lemma WholeReaches()
      requires Valid() && Whole()
      ensures Firm() && Stocked() && forall x :: PageOk(x) ==> Reaches(x)
    {
      hide ToSelf, WholeMap, Tree, UserOk;
      forall x | PageOk(x)
        ensures Reaches(x)
      {
        WholeSelf(tables, pml4, physEnd, x);
      }
    }

    /** Before the CR3 load every access reaches its page. */
    lemma BeforeLoad()
      requires !active
      ensures Firm() && Stocked()
    {
    }

    /** The address space before init_vmm. */
    constructor (physEnd: nat, supply: seq<nat>)
      requires physEnd <= LOW_END && physEnd % PAGE == 0
      requires forall i :: 0 <= i < |supply| ==> 0 < supply[i] < physEnd && supply[i] % PAGE == 0
      requires forall i, j :: 0 <= i < j < |supply| ==> supply[i] != supply[j]
      ensures Valid() && pml4 == 0 && Fine() && !active && this.physEnd == physEnd && this.supply == supply
    {
      this.physEnd, tables, pml4, oom, active, astray, this.supply, at := physEnd, map[], 0, false, false, false, supply, map[];
    }

    /** An access to page x. */
    method Touch(x: nat)
      modifies this`astray
      ensures astray == (old(astray) || !Reaches(x))
    {
      if !Reaches(x) {
        astray := true;
      }
    }

    /** The making of a table: the first page of the supply is zeroed and hung on the absent entry. */
    method Hang(parent: nat, index: nat, ghost q: Prefix) returns (t: nat)
      requires Valid() && Fine() && pml4 != 0 && q in at && !q.P3? && parent == at[q] && index < ENTRIES
      requires Child(q, index) !in at && supply != [] && Reaches(parent)
      modifies this`tables, this`supply, this`astray, this`at
      ensures astray == !old(Reaches(supply[0]))
      ensures !astray ==> Valid() && Child(q, index) in at && t == at[Child(q, index)] && t != 0
      ensures !astray ==> SameMap(old(tables), tables, pml4) && forall r :: r in old(at) ==> r in at && at[r] == old(at)[r]
      ensures !astray ==> tables.Keys == old(tables).Keys + {t} && t == old(supply)[0] && supply == old(supply)[1..]
      ensures astray ==> tables == old(tables) && supply == old(supply)
    {
      hide Tree, UserOk, EntryOk, Walk, SameLeaf, ToSelf;
      ghost var t0, at0 := tables, at;
      AtEntry(q, index);
      t := supply[0];
      Touch(t);
      if astray {
        return;
      }
      TableAdded(tables, pml4, at, q, index, t);
      supply := supply[1..];
      tables := tables[t := Blank()];
      tables := tables[parent := tables[parent][index := Entry(true, false, Flags(true, false, 0), t)]];
      at := at[Child(q, index) := t];
      SameByLeaves(t0, at0, tables, at, pml4);
    }

    /** get_or_alloc_table: the table behind an entry, made if the entry is absent. */
    method GetOrAlloc(parent: nat, index: nat, ghost q: Prefix) returns (t: nat)
      requires Valid() && Fine() && pml4 != 0 && q in at && !q.P3? && parent == at[q] && index < ENTRIES
      modifies this`tables, this`supply, this`oom, this`astray, this`at
      ensures Fine() ==> Valid() && Child(q, index) in at && t == at[Child(q, index)] && t != 0
      ensures Fine() ==> SameMap(old(tables), tables, pml4) && forall r :: r in old(at) ==> r in at && at[r] == old(at)[r]
      ensures Drawn(old(tables), old(supply), tables, supply)
      ensures Child(q, index) in old(at) ==> supply == old(supply) && !oom
      ensures old(Firm()) && (Child(q, index) in old(at) || old(Stocked())) ==> !astray
      ensures Fine() ==> (old(Firm()) ==> Firm()) && (old(Stocked()) ==> Stocked())
    {
      hide Tree, UserOk, EntryOk, Walk, ToSelf, Drawn;
      ghost var t0 := tables;
      AtEntry(q, index);
      DrawnNone(tables, supply);
      t := 0;
      Touch(parent);
      if astray {
        return;
      }
      var e := tables[parent][index];
      if e.present {
        if !e.huge {
          t := e.addr;
        }
        return;
      }
      if supply == [] {
        oom := true;
        return;
      }
      t := Hang(parent, index, q);
      if !astray {
        SelfSame(t0, tables, pml4);
        DrawnOne(t0, old(supply), tables);
        assert forall x: nat :: Reaches(x) == old(Reaches(x));
      }
    }

    lemma AtEntry(q: Prefix, i: nat)
      requires pml4 != 0 && Tree(tables, pml4, at) && q in at && !q.P3? && i < ENTRIES
      ensures at[q] in tables && |tables[at[q]]| == ENTRIES
      ensures var e := tables[at[q]][i];
              && e == Get(tables, at[q], i) && (e.present <==> Child(q, i) in at)
              && (e.present ==> !e.huge && e.addr == at[Child(q, i)] && at[Child(q, i)] in tables)
    {
      assert EntryOk(tables, at, q, i);
    }

    /** parent[index] |= PTE_USER. */
    method Open(parent: nat, index: nat, ghost q: Prefix)
      requires Valid() && pml4 != 0 && q in at && !q.P3? && parent == at[q] && index < ENTRIES && Child(q, index) in at
      requires !q.P0? ==> Parent(q) in at && Get(tables, at[Parent(q)], Last(q)).flags.user
      modifies this`tables, this`astray
      ensures Valid() && SameMap(old(tables), tables, pml4) && Get(tables, parent, index).flags.user
      ensures tables.Keys == old(tables).Keys && astray == (old(astray) || !old(Reaches(parent)))
    {
      hide Tree, UserOk, EntryOk, Walk, ToSelf;
      ghost var t0 := tables;
      AtEntry(q, index);
      Touch(parent);
      Opened(tables, pml4, at, q, index);
      var e := tables[parent][index];
      tables := tables[parent := tables[parent][index := e.(flags := e.flags.(user := true))]];
      SameByLeaves(t0, at, tables, at, pml4);
    }

    /** The upper entries of a path are opened to user code, from the root down. */
    method OpenPath(p: Path, pdpt: nat, pd: nat)
      requires Valid() && pml4 != 0 && p.Ok() && P1(p.i4) in at && P2(p.i4, p.i3) in at && P3(p.i4, p.i3, p.i2) in at
      requires pdpt == at[P1(p.i4)] && pd == at[P2(p.i4, p.i3)] && P0 in at && pml4 == at[P0]
      modifies this`tables, this`astray
      ensures Valid() && SameMap(old(tables), tables, pml4) && Get(tables, pd, p.i2).flags.user
      ensures tables.Keys == old(tables).Keys && (old(Firm()) ==> astray == old(astray)) && (old(astray) ==> astray)
    {
      hide Tree, UserOk, EntryOk, Walk, ToSelf;
      ghost var t0 := tables;
      InTables(P0);
      InTables(P1(p.i4));
      InTables(P2(p.i4, p.i3));
      Open(pml4, p.i4, P0);
      SelfSame(t0, tables, pml4);
      Open(pdpt, p.i3, P1(p.i4));
      SelfSame(t0, tables, pml4);
      Open(pd, p.i2, P2(p.i4, p.i3));
    }

    lemma InTables(q: Prefix)
      requires pml4 != 0 && Tree(tables, pml4, at) && q in at
      ensures at[q] in tables
    {
    }

    /** pt[i1] = ... */
    method SetLeaf(p: Path, pt: nat, e: Entry)
      requires Valid() && pml4 != 0 && p.Ok() && P3(p.i4, p.i3, p.i2) in at && pt == at[P3(p.i4, p.i3, p.i2)] && e.present
      requires P2(p.i4, p.i3) in at && (e.flags.user ==> Get(tables, at[P2(p.i4, p.i3)], p.i2).flags.user)
      modifies this`tables, this`astray
      ensures Valid() && OneMapped(old(tables), tables, pml4, p, Page(e.addr, e.flags))
      ensures tables.Keys == old(tables).Keys && astray == (old(astray) || !old(Reaches(pt)))
    {
      hide UserOk, EntryOk, Walk, ToSelf;
      ghost var t0 := tables;
      Touch(pt);
      LeafSet(tables, pml4, at, p, e);
      tables := tables[pt := tables[pt][p.i1 := e]];
      OneByLeaves(t0, tables, at, pml4, p, e);
    }

    /** The three table lookups of map_page. */
    method Descend(p: Path) returns (pdpt: nat, pd: nat, pt: nat)
      requires Valid() && Fine() && pml4 != 0 && p.Ok()
      modifies this`tables, this`supply, this`oom, this`astray, this`at
      ensures Fine() ==> Valid() && SameMap(old(tables), tables, pml4)
      ensures Fine() ==> pt != 0 && P0 in at && pml4 == at[P0] && P1(p.i4) in at && P2(p.i4, p.i3) in at && P3(p.i4, p.i3, p.i2) in at
      ensures Fine() ==> pdpt == at[P1(p.i4)] && pd == at[P2(p.i4, p.i3)] && pt == at[P3(p.i4, p.i3, p.i2)]
      ensures Drawn(old(tables), old(supply), tables, supply)
      ensures P3(p.i4, p.i3, p.i2) in old(at) ==> supply == old(supply) && !oom
      ensures old(Firm()) && (P3(p.i4, p.i3, p.i2) in old(at) || old(Stocked())) ==> !astray
      ensures Fine() && old(Firm()) ==> Firm()
    {
      hide Valid, Firm, Stocked, SameMap, Drawn;
      ghost var t0, s0 := tables, supply;
      pt := 0;
      Above(p);
      pdpt, pd := UpperTwo(p);
      if pd == 0 || oom || astray {
        return;
      }
      ghost var t2, s2 := tables, supply;
      pt := GetOrAlloc(pd, p.i2, P2(p.i4, p.i3));
      DrawnMore(t0, s0, t2, s2, tables, supply);
      SameTwo(t0, t2, tables, pml4);
    }

    /** The first two of them. */
    method UpperTwo(p: Path) returns (pdpt: nat, pd: nat)
      requires Valid() && Fine() && pml4 != 0 && p.Ok()
      modifies this`tables, this`supply, this`oom, this`astray, this`at
      ensures Fine() ==> Valid() && SameMap(old(tables), tables, pml4) && pd != 0
      ensures Fine() ==> P0 in at && pml4 == at[P0] && P1(p.i4) in at && P2(p.i4, p.i3) in at
      ensures Fine() ==> pdpt == at[P1(p.i4)] && pd == at[P2(p.i4, p.i3)]
      ensures Fine() ==> forall r :: r in old(at) ==> r in at && at[r] == old(at)[r]
      ensures Drawn(old(tables), old(supply), tables, supply)
      ensures P1(p.i4) in old(at) && P2(p.i4, p.i3) in old(at) ==> supply == old(supply) && !oom
      ensures old(Firm()) && ((P1(p.i4) in old(at) && P2(p.i4, p.i3) in old(at)) || old(Stocked())) ==> !astray
      ensures Fine() ==> (old(Firm()) ==> Firm()) && (old(Stocked()) ==> Stocked())
    {
      hide Valid, Firm, Stocked, SameMap, Drawn;
      ghost var t0, s0 := tables, supply;
      pdpt, pd := 0, 0;
      Above(p);
      pdpt := GetOrAlloc(pml4, p.i4, P0);
      if pdpt == 0 || oom || astray {
        return;
      }
      ghost var t1, s1 := tables, supply;
      pd := GetOrAlloc(pdpt, p.i3, P1(p.i4));
      DrawnMore(t0, s0, t1, s1, tables, supply);
      SameTwo(t0, t1, tables, pml4);
    }

    /** Above a table of the tree there are all its ancestors. */
    lemma Above(p: Path)
      requires Valid() && pml4 != 0
      ensures P0 in at && pml4 == at[P0]
      ensures P3(p.i4, p.i3, p.i2) in at ==> P2(p.i4, p.i3) in at && P1(p.i4) in at
    {
      if P3(p.i4, p.i3, p.i2) in at {
        assert Parent(P3(p.i4, p.i3, p.i2)) == P2(p.i4, p.i3) && Parent(P2(p.i4, p.i3)) == P1(p.i4);
      }
    }

    /** A page that is mapped has its table. */
    lemma HasTable(p: Path)
      requires Valid() && pml4 != 0 && p.Ok() && Walk(tables, pml4, p).Some?
      ensures P3(p.i4, p.i3, p.i2) in at
    {
      hide Walk;
      WalkIsLeaf(tables, pml4, at, p);
    }

    /**
     map_page: with a root table and page-aligned addresses exactly one page gets
     the given translation and rights, whatever tables had to be made; else nothing
     changes. No access goes astray while every table, and every page that may
     become one, can be reached; a whole identity map stays whole exactly when the
     page lies outside it or goes to itself for the kernel.
     */
    method MapPage(vaddr: nat, paddr: nat, flags: Flags) returns (rc: int)
      requires Valid() && Fine()
      modifies this`tables, this`supply, this`oom, this`astray, this`at
      ensures Fine() ==> Valid() && (rc == 0 <==> pml4 != 0 && vaddr % PAGE == 0 && paddr % PAGE == 0)
      ensures Fine() && rc == 0 ==> OneMapped(old(tables), tables, pml4, PathOf(vaddr), Page(paddr % PHYS, flags))
      ensures rc != 0 && Fine() ==> tables == old(tables) && rc == -1
      ensures Drawn(old(tables), old(supply), tables, supply)
      ensures pml4 != 0 && Walk(old(tables), pml4, PathOf(vaddr)).Some? ==> supply == old(supply) && !oom
      ensures old(Firm()) && (old(Stocked()) || (pml4 != 0 && Walk(old(tables), pml4, PathOf(vaddr)).Some?)) ==> !astray
      ensures Fine() && rc == 0 && old(Whole()) ==>
                (Whole() <==> vaddr % VIRT >= physEnd || Own(Some(Page(paddr % PHYS, flags)), vaddr % VIRT))
    {
      hide UserOk, EntryOk, Walk, Tree, ToSelf, WholeMap, Own, Drawn;
      DrawnNone(tables, supply);
      if pml4 == 0 {
        return -1;
      }
      if vaddr % PAGE != 0 || paddr % PAGE != 0 {
        return -1;
      }
      var p := PathOf(vaddr);
      ghost var t0 := tables;
      if Walk(tables, pml4, p).Some? {
        HasTable(p);
      }
      var pdpt, pd, pt := Descend(p);
      if pt == 0 || oom || astray {
        return -1;
      }
      ghost var t1, s1 := tables, supply;
      InTables(P3(p.i4, p.i3, p.i2));
      if flags.user {
        OpenPath(p, pdpt, pd);
        SelfSame(t1, tables, pml4);
      }
      SetLeaf(p, pt, Entry(true, false, flags, paddr % PHYS));
      DrawnMore(t0, old(supply), t1, s1, tables, supply);
      rc := 0;
      if WholeMap(t0, pml4, physEnd) {
        WholeAfter(t0, tables, pml4, vaddr, Page(paddr % PHYS, flags), physEnd);
      }
    }
  }

  // ----- Ranges of pages -----

  const KERNEL := Flags(true, false, 0)
  /** PTE_WRITE_THROUGH among the other bits. */
  const DEVICE := Flags(true, false, 8)

  /** The len bytes at v0 (below 2^48) are mapped to p0 on; every other page is as it was. */
  ghost predicate Ranged(t0: Tables, t1: Tables, root: nat, v0: nat, len: nat, p0: nat, flags: Flags) {
    forall a: nat :: a < VIRT && a % PAGE == 0 ==>
      Walk(t1, root, PathOf(a)) == if v0 <= a < v0 + len then Some(Page((p0 + (a - v0)) % PHYS, flags)) else Walk(t0, root, PathOf(a))
  }

  lemma RangedOne(t0: Tables, t1: Tables, t2: Tables, root: nat, v0: nat, len: nat, p0: nat, v: nat, flags: Flags)
    requires Ranged(t0, t1, root, v0, len, p0, flags) && OneMapped(t1, t2, root, PathOf(v), Page((p0 + len) % PHYS, flags))
    requires v0 % PAGE == 0 && len % PAGE == 0 && v0 + len < VIRT && v % PAGE == 0 && v % VIRT == v0 + len
    ensures Ranged(t0, t2, root, v0, len + PAGE, p0, flags)
  {
    hide Walk, PathOf;
    forall a: nat | a < VIRT && a % PAGE == 0
      ensures Walk(t2, root, PathOf(a)) == if v0 <= a < v0 + len + PAGE then Some(Page((p0 + (a - v0)) % PHYS, flags))
                else Walk(t0, root, PathOf(a))
    {
      PathsDiffer(a, v);
      SmallRem(a);
      OnePage(v0 + len, a);
    }
  }

  lemma OnePage(b: nat, a: nat)
    requires b % PAGE == 0 && a % PAGE == 0
    ensures b <= a < b + PAGE <==> a == b
  {
  }

  lemma SmallRem(a: nat)
    requires a < VIRT
    ensures a % VIRT == a
  {
  }

  lemma RangedNone(t: Tables, root: nat, v0: nat, p0: nat, flags: Flags)
    ensures Ranged(t, t, root, v0, 0, p0, flags)
  {
  }

  /** The bytes from base to end, rounded up to pages. */
  function Span(base: nat, end: nat): (n: nat)
    ensures n % PAGE == 0 && (base < end ==> end - base <= n < end - base + PAGE) && (base >= end ==> n == 0)
  {
    if base < end then (end - base + PAGE - 1) / PAGE * PAGE else 0
  }

  /** init_vmm's loop: the first physEnd bytes are mapped to themselves. */
  method MapIdentity(s: AddressSpace) returns (ok: bool)
    requires s.Valid() && s.Fine() && s.pml4 != 0 && !s.active
    modifies s`tables, s`supply, s`oom, s`astray, s`at
    ensures !s.astray && (!s.oom ==> s.Valid() && ok && Ranged(old(s.tables), s.tables, s.pml4, 0, s.physEnd, 0, KERNEL))
  {
    hide Walk, AddressSpace.Valid, PathOf, Ranged, WholeMap, Drawn, OneMapped, AddressSpace.Firm, AddressSpace.Stocked, Own;
    RangedNone(s.tables, s.pml4, 0, 0, KERNEL);
    var pa := 0;
    SpaceBounds(s);
    while pa < s.physEnd
      invariant pa % PAGE == 0 && pa <= s.physEnd && s.Fine() && s.Valid()
      invariant Ranged(old(s.tables), s.tables, s.pml4, 0, pa, 0, KERNEL)
    {
      ghost var t1 := s.tables;
      SmallRem(pa);
      s.BeforeLoad();
      var rc := s.MapPage(pa, pa, KERNEL);
      if rc != 0 || s.oom {
        return false;
      }
      RangedOne(old(s.tables), t1, s.tables, s.pml4, 0, pa, 0, pa, KERNEL);
      pa := pa + PAGE;
    }
    ok := true;
  }

  lemma SpaceBounds(s: AddressSpace)
    requires s.Valid()
    ensures s.physEnd <= LOW_END && s.physEnd % PAGE == 0
  {
  }

  /** map_kernel_image: the kernel's physical range at its virtual address. */
  method MapKernelImage(s: AddressSpace, phys0: nat, virt0: nat, end: nat) returns (rc: int)
    requires s.Valid() && s.Fine() && s.pml4 != 0 && !s.active && virt0 % VIRT + Span(phys0, end) <= VIRT
    modifies s`tables, s`supply, s`oom, s`astray, s`at
    ensures !s.astray
    ensures !s.oom ==> s.Valid() && (rc == 0 <==> phys0 >= end || (phys0 % PAGE == 0 && virt0 % PAGE == 0))
    ensures !s.oom && rc == 0 ==> Ranged(old(s.tables), s.tables, s.pml4, virt0 % VIRT, Span(phys0, end), phys0, KERNEL)
  {
    hide Walk, AddressSpace.Valid, PathOf, Ranged, Span, WholeMap, Drawn, OneMapped, AddressSpace.Firm, AddressSpace.Stocked, Own;
    var phys, virt := phys0, virt0;
    ghost var len: nat := 0;
    SpanStart(phys0, end);
    RangedNone(s.tables, s.pml4, virt0 % VIRT, phys0, KERNEL);
    while phys < end
      invariant phys == phys0 + len && virt == virt0 + len && len % PAGE == 0 && s.Fine() && s.Valid()
      invariant len <= Span(phys0, end) && (len > 0 ==> phys0 < end && phys0 % PAGE == 0 && virt0 % PAGE == 0)
      invariant Ranged(old(s.tables), s.tables, s.pml4, virt0 % VIRT, len, phys0, KERNEL)
    {
      ghost var t1 := s.tables;
      StillAligned(phys0, len);
      StillAligned(virt0, len);
      s.BeforeLoad();
      rc := s.MapPage(virt, phys, KERNEL);
      if rc != 0 {
        return;
      }
      if s.oom {
        return;
      }
      SpanStep(phys0, end, len);
      RemAdd(virt0, len);
      RangedOne(old(s.tables), t1, s.tables, s.pml4, virt0 % VIRT, len, phys0, virt, KERNEL);
      phys := phys + PAGE;
      virt := virt + PAGE;
      len := len + PAGE;
    }
    SpanEnd(phys0, end, len);
    rc := 0;
  }

  lemma StillAligned(v: nat, len: nat)
    requires len % PAGE == 0
    ensures (v + len) % PAGE == 0 <==> v % PAGE == 0
    ensures v % PAGE == 0 ==> v % VIRT % PAGE == 0
  {
  }

  lemma SpanStart(base: nat, end: nat)
    ensures base >= end ==> Span(base, end) == 0
  {
  }

  lemma SpanEnd(base: nat, end: nat, len: nat)
    requires len % PAGE == 0 && base + len >= end && len <= Span(base, end)
    ensures len == Span(base, end)
  {
  }

  lemma SpanStep(base: nat, end: nat, len: nat)
    requires base + len < end && len % PAGE == 0
    ensures len + PAGE <= Span(base, end)
  {
  }

  lemma RemAdd(v: nat, len: nat)
    requires v % VIRT + len < VIRT
    ensures (v + len) % VIRT == v % VIRT + len
  {
  }

  /** The framebuffer as the boot information describes it. */
  datatype Framebuffer = Framebuffer(base: nat, width: nat, height: nat, scan: nat)
  {
    /** It ends below 2^48, so that no 64-bit sum wraps. */
    predicate Ok() {
      width < U32 && height < U32 && scan < U32 && base + Bytes() + PAGE <= VIRT
    }

    predicate Absent() {
      base == 0 || width == 0 || height == 0
    }

    function Bytes(): nat {
      scan * height * 4
    }

    function Start(): nat {
      base - base % PAGE
    }

    /** The code's 64-bit rounding up of the end. */
    function End(): nat {
      var e := (base + Bytes() % U64 + PAGE - 1) % U64;
      e - e % PAGE
    }

    /** The pages that hold a byte of it. */
    function Span(): nat {
      if Absent() || End() < Start() then 0 else End() - Start()
    }
  }

  lemma FramebufferSpan(fb: Framebuffer)
    requires fb.Ok()
    ensures fb.Start() % PAGE == 0 && fb.End() % PAGE == 0 && fb.Start() <= fb.base && fb.base + fb.Bytes() <= fb.End() <= VIRT
    ensures fb.Start() <= fb.End() < fb.base + fb.Bytes() + PAGE
    ensures fb.Span() == if fb.base == 0 || fb.width == 0 || fb.height == 0 then 0 else fb.End() - fb.Start()
  {
    hide Framebuffer.Bytes;
  }

  /** Every byte of every pixel lies in the span. */
  lemma PixelInside(fb: Framebuffer, x: nat, y: nat, b: nat)
    requires fb.Ok() && 0 < fb.base && 0 < fb.width && x < fb.scan && y < fb.height && b < 4
    ensures fb.base + (y * fb.scan + x) * 4 + b < fb.Start() + fb.Span() <= VIRT
  {
    FramebufferSpan(fb);
    PixelCount(x, y, fb.scan, fb.height);
    BytesIs(fb);
    hide Framebuffer.Bytes, Framebuffer.Start, Framebuffer.End, Framebuffer.Span;
  }

  lemma BytesIs(fb: Framebuffer)
    ensures fb.Bytes() == fb.height * fb.scan * 4
  {
  }

  lemma PixelCount(x: nat, y: nat, scan: nat, height: nat)
    requires x < scan && y < height
    ensures 0 <= y * scan + x < height * scan
  {
    FlatBytes.ProductGap(y, height, scan);
  }

  /** map_framebuffer: its pages, mapped to themselves and written through. */
  method MapFramebuffer(s: AddressSpace, fb: Framebuffer) returns (rc: int)
    requires s.Valid() && s.Fine() && s.pml4 != 0 && !s.active && fb.Ok()
    modifies s`tables, s`supply, s`oom, s`astray, s`at
    ensures !s.astray
    ensures !s.oom ==> s.Valid() && rc == 0 && Ranged(old(s.tables), s.tables, s.pml4, fb.Start(), fb.Span(), fb.Start(), DEVICE)
  {
    hide Walk, AddressSpace.Valid, PathOf, Ranged, Framebuffer.Start, Framebuffer.End, Framebuffer.Bytes, Framebuffer.Span, WholeMap,
        Drawn, OneMapped, AddressSpace.Firm, AddressSpace.Stocked, Own;
    FramebufferSpan(fb);
    if fb.Absent() {
      RangedNone(s.tables, s.pml4, fb.Start(), fb.Start(), DEVICE);
      return 0;
    }
    var base, end := fb.Start(), fb.End();
    RangedNone(s.tables, s.pml4, base, base, DEVICE);
    var pa := base;
    while pa < end
      invariant base <= pa <= end && pa % PAGE == 0 && s.Fine() && s.Valid()
      invariant Ranged(old(s.tables), s.tables, s.pml4, base, pa - base, base, DEVICE)
    {
      ghost var t1, len := s.tables, pa - base;
      SmallRem(pa);
      s.BeforeLoad();
      rc := s.MapPage(pa, pa, DEVICE);
      if rc != 0 || s.oom {
        return -1;
      }
      RangedOne(old(s.tables), t1, s.tables, s.pml4, base, len, base, pa, DEVICE);
      pa := pa + PAGE;
    }
    rc := 0;
  }

  /** The kernel image's place. */
  datatype Image = Image(phys: nat, virt: nat, end: nat)
  {
    predicate Ok() {
      phys % PAGE == 0 && virt % PAGE == 0 && virt % VIRT + Span(phys, end) <= VIRT
    }

    /** It lies above the identity map, or on its own frames. */
    predicate Clear(physEnd: nat) {
      Span(phys, end) == 0 || virt % VIRT >= physEnd || phys % PHYS == virt % VIRT
    }
  }

  /** What address a (of the low 48 bits) translates to after init_vmm. */
  function Wanted(physEnd: nat, fb: Framebuffer, image: Image, a: nat): Option<Page> {
    var v := image.virt % VIRT;
    if v <= a < v + Span(image.phys, image.end) then Some(Page((image.phys + (a - v)) % PHYS, KERNEL))
    else if fb.Start() <= a < fb.Start() + fb.Span() then Some(Page(a % PHYS, DEVICE))
    else if a < physEnd then Some(Page(a % PHYS, KERNEL))
    else None
  }

  /**
   init_vmm: the identity map of physical memory, the framebuffer and the
   higher-half kernel, the later over the earlier, and no other page. The
   identity map is whole if and only if the kernel image is kept clear of it.
   */
  method InitVmm(s: AddressSpace, fb: Framebuffer, image: Image) returns (ok: bool)
    requires s.Valid() && s.Fine() && s.pml4 == 0 && !s.active && fb.Ok() && image.Ok()
    modifies s
    ensures !s.astray && (!s.oom ==> s.Valid() && (ok <==> s.physEnd != 0) && s.active == ok && (ok ==> s.pml4 != 0))
    ensures !s.oom && ok ==>
              forall a: nat :: a < VIRT && a % PAGE == 0 ==> Walk(s.tables, s.pml4, PathOf(a)) == Wanted(s.physEnd, fb, image, a)
    ensures !s.oom && ok ==> (s.Whole() <==> image.Clear(s.physEnd))
  {
    hide Walk, PathOf, Ranged, Wanted, WholeMap, Image.Clear;
    if s.physEnd == 0 {
      return false;
    }
    if s.supply == [] {
      s.oom := true;
      return false;
    }
    var page := s.supply[0];
    s.supply := s.supply[1..];
    s.tables := s.tables[page := Blank()];
    s.pml4 := page;
    s.at := map[P0 := page];
    BlankTree(s.tables, page, s.at);
    ghost var t0 := s.tables;
    ok := MapIdentity(s);
    if !ok || s.oom {
      return;
    }
    ghost var t1 := s.tables;
    var rc := MapFramebuffer(s, fb);
    if rc != 0 || s.oom {
      return false;
    }
    ghost var t2 := s.tables;
    rc := MapKernelImage(s, image.phys, image.virt, image.end);
    if rc != 0 || s.oom {
      return false;
    }
    AllMapped(t0, t1, t2, s.tables, page, s.at, s.physEnd, fb, image);
    WholeWanted(s.tables, page, s.physEnd, fb, image);
    s.active := true;
    ok := true;
  }

  /** In the map that init_vmm makes, every byte of every pixel is its own, outside the kernel image. */
  lemma PixelWanted(physEnd: nat, fb: Framebuffer, image: Image, x: nat, y: nat, b: nat, page: nat)
    requires fb.Ok() && 0 < fb.base && 0 < fb.width && x < fb.scan && y < fb.height && b < 4
    requires page % PAGE == 0 && page <= fb.base + (y * fb.scan + x) * 4 + b < page + PAGE
    requires !(image.virt % VIRT <= page < image.virt % VIRT + Span(image.phys, image.end))
    ensures Wanted(physEnd, fb, image, page) == Some(Page(page, Flags(true, false, 8)))
  {
    hide Framebuffer.Bytes, Framebuffer.End, Framebuffer.Span;
    PixelInside(fb, x, y, b);
    PixelCount(x, y, fb.scan, fb.height);
    SamePage(fb.base, fb.base + (y * fb.scan + x) * 4 + b, page);
  }

  lemma SamePage(base: nat, a: nat, page: nat)
    requires base <= a && page % PAGE == 0 && page <= a < page + PAGE
    ensures base - base % PAGE <= page
  {
  }

  /** The map of init_vmm outright: the pages of the kernel image, then those with a byte of the framebuffer, then memory, then none. */
  lemma WantedIs(physEnd: nat, fb: Framebuffer, image: Image, a: nat)
    requires fb.Ok() && image.Ok() && physEnd <= LOW_END && a % PAGE == 0 && a < VIRT
    ensures var v, w := image.virt % VIRT, Wanted(physEnd, fb, image, a);
            var inImage := v <= a < v + (image.end - image.phys);
            var inFrame := 0 < fb.base && 0 < fb.width && 0 < fb.height && fb.base < a + PAGE && a < fb.base + fb.Bytes();
            && (inImage ==> w == Some(Page((image.phys + (a - v)) % PHYS, Flags(true, false, 0))))
            && (!inImage && inFrame ==> w == Some(Page(a, Flags(true, false, 8))))
            && (!inImage && !inFrame && a < physEnd ==> w == Some(Page(a, Flags(true, false, 0))))
            && (!inImage && !inFrame && a >= physEnd ==> w == None)
  {
    hide Framebuffer.Bytes, Framebuffer.Start, Framebuffer.End, Framebuffer.Span, Span, Framebuffer.Ok;
    FrameMeets(fb, a);
    LowPage(image.virt);
    PageInSpan(image.virt % VIRT, image.phys, image.end, a);
    SmallAddress(a);
  }

  lemma SmallAddress(a: nat)
    requires a < VIRT
    ensures a % PHYS == a
  {
  }

  lemma FrameMeets(fb: Framebuffer, a: nat)
    requires fb.Ok() && a % PAGE == 0
    ensures fb.Start() <= a < fb.Start() + fb.Span()
            <==> 0 < fb.base && 0 < fb.width && 0 < fb.height && fb.base < a + PAGE && a < fb.base + fb.Bytes()
  {
    hide Framebuffer.Bytes, Framebuffer.End, Framebuffer.Span;
    FramebufferSpan(fb);
    PageInRange(fb.base, fb.base + fb.Bytes(), fb.End(), a);
  }

  /** A page meets a range of bytes exactly if it lies between the range's ends rounded outward. */
  lemma PageInRange(base: nat, last: nat, end: nat, a: nat)
    requires a % PAGE == 0 && end % PAGE == 0 && base <= last <= end < last + PAGE
    ensures base - base % PAGE <= a < end <==> base < a + PAGE && a < last
  {
  }

  lemma PageInSpan(v: nat, phys: nat, end: nat, a: nat)
    requires a % PAGE == 0 && v % PAGE == 0
    ensures v <= a < v + Span(phys, end) <==> v <= a < v + (end - phys)
  {
  }

  lemma WholeWanted(t: Tables, root: nat, physEnd: nat, fb: Framebuffer, image: Image)
    requires physEnd <= LOW_END && image.Ok() && fb.Ok()
    requires forall a: nat :: a < VIRT && a % PAGE == 0 ==> Walk(t, root, PathOf(a)) == Wanted(physEnd, fb, image, a)
    ensures WholeMap(t, root, physEnd) <==> image.Clear(physEnd)
  {
    hide Walk, PathOf, Span, Framebuffer.Start, Framebuffer.Span;
    var v := image.virt % VIRT;
    LowPage(image.virt);
    if !image.Clear(physEnd) {
      assert v < physEnd && Walk(t, root, PathOf(v)) == Wanted(physEnd, fb, image, v);
      assert !Own(Walk(t, root, PathOf(v)), v);
    } else {
      forall a: nat | a < physEnd && a % PAGE == 0
        ensures Own(Walk(t, root, PathOf(a)), a)
      {
        assert Walk(t, root, PathOf(a)) == Wanted(physEnd, fb, image, a);
        SumRem(image.phys, a - v);
      }
    }
  }

  lemma SumRem(p: nat, d: int)
    ensures p % PHYS + d < PHYS && 0 <= d ==> (p + d) % PHYS == p % PHYS + d
    ensures forall a: nat :: a < PHYS ==> a % PHYS == a
  {
  }

  lemma BlankTree(t: Tables, root: nat, at: map<Prefix, nat>)
    requires root in t && t[root] == Blank() && at == map[P0 := root]
    ensures Tree(t, root, at) && UserOk(t, at) && forall p: Path :: Walk(t, root, p) == None
  {
  }

  lemma AllMapped(t0: Tables, t1: Tables, t2: Tables, t3: Tables, root: nat, at: map<Prefix, nat>, physEnd: nat, fb: Framebuffer,
      image: Image)
    requires forall p: Path :: Walk(t0, root, p) == None
    requires Ranged(t0, t1, root, 0, physEnd, 0, KERNEL)
    requires Ranged(t1, t2, root, fb.Start(), fb.Span(), fb.Start(), DEVICE)
    requires Ranged(t2, t3, root, image.virt % VIRT, Span(image.phys, image.end), image.phys, KERNEL)
    ensures forall a: nat :: a < VIRT && a % PAGE == 0 ==> Walk(t3, root, PathOf(a)) == Wanted(physEnd, fb, image, a)
  {
    hide Walk, PathOf, Framebuffer.Start, Framebuffer.Span, Span;
  }
}
