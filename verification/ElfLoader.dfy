/**
 Loading a program: map_one_segment fills pages and maps them, map_elf_image does
 so for every LOAD segment (src/kernel/user.c:33-107, 258-344).

 A page is filled at its own address, under the tables that are being changed. The
 log of the rounds says where that leads; LoadLog draws the conclusions.
 */
module ElfLoader {
  import opened Errors
  import opened Options
  import opened FlatBytes
  import opened PageTables
  import opened Vmm
  import opened ElfImage
  import opened LoadLog

  class Loader {
    const s: AddressSpace
    /** The pages in use while a program is loaded: the file's buffer, the heap, the stack. */
    const held: set<nat>
    /** The contents of the frames written for programs, by physical address. */
    var frames: map<nat, Bytes>

    constructor (s: AddressSpace, held: set<nat>)
      requires s.Valid() && forall x :: x in held ==> s.PageOk(x) && x !in s.supply && x !in s.tables
      ensures this.s == s && this.held == held && frames == map[] && Valid()
    {
      this.s, this.held, frames := s, held, map[];
    }

    /** Frames, tables, pages in use and pages still to be handed out are different pages. */
    ghost predicate Valid()
      reads this, s
    {
      && s.Valid()
      && (forall x :: x in held ==> s.PageOk(x) && x !in s.supply && x !in s.tables)
      && (forall x :: x in frames ==> Spare(x))
    }

    ghost predicate Spare(x: nat)
      reads s`supply, s`tables
    {
      x !in s.supply && x !in s.tables && x !in held
    }

    /** The kernel works under its own tables, and nothing has gone wrong yet. */
    ghost predicate Ready()
      reads this, s
    {
      Valid() && s.Fine() && s.active && s.pml4 != 0
    }

    /** The rounds so far, with their pages handed out for good, explain tables and frames. */
    ghost predicate Traced(img: Bytes, log: seq<Round>)
      reads this, s
    {
      && Agrees(s.tables, s.pml4, s.physEnd, log) && Contents(frames, img, log)
      && PagesDiffer(log) && forall k :: 0 <= k < |log| ==> s.PageOk(log[k].page) && Spare(log[k].page)
    }

    ghost predicate HeldOk()
      reads s`active, s`tables, s`pml4
    {
      forall x :: x in held ==> s.Reaches(x)
    }

    /** The pages in use are used. */
    method UseHeld()
      modifies s`astray
      ensures s.astray == (old(s.astray) || !HeldOk())
    {
      if exists x :: x in held && !s.Reaches(x) {
        s.astray := true;
      }
    }

    /** The bytes map_one_segment puts into the page at va. */
    method Fill(img: Bytes, g: Seg, va: nat) returns (page: Bytes)
      requires SegOk(img, g) && va % PAGE == 0
      ensures |page| == PAGE && forall k :: 0 <= k < PAGE ==> page[k] == ByteAt(img, g, va + k)
    {
      page := seq(PAGE, _ => 0);
      var fileEnd := g.vaddr + g.filesz;
      var start := if va > g.vaddr then va else g.vaddr;
      var end := if va + PAGE < fileEnd then va + PAGE else fileEnd;
      if end > start {
        var imgOff := g.off + (start - g.vaddr);
        var pageOff := start - va;
        page := page[..pageOff] + img[imgOff..imgOff + (end - start)] + page[pageOff + (end - start)..];
      }
    }

    /** alloc_page: the next page of the supply. */
    method AllocPage() returns (page: nat)
      requires Valid() && s.Fine()
      modifies s`supply, s`oom
      ensures Valid() && s.oom == (old(s.supply) == [])
      ensures !s.oom ==> page == old(s.supply)[0] && s.supply == old(s.supply)[1..] && s.PageOk(page) && Spare(page)
      ensures s.oom ==> s.supply == old(s.supply)
    {
      page := 0;
      if s.supply == [] {
        s.oom := true;
        return;
      }
      page := s.supply[0];
      assert forall x :: x in s.supply[1..] ==> x in s.supply && x != page;
      s.supply := s.supply[1..];
    }

    /** The frame that a write at page address p reaches is none of the tables, the pages in use or the supply. */
    predicate Lands(p: nat)
      reads s`tables, s`pml4, s`supply
    {
      var w := Walk(s.tables, s.pml4, PathOf(p));
      w.Some? && w.value.flags.writable && w.value.addr !in s.supply && w.value.addr !in s.tables && w.value.addr !in held
    }

    /** kernel_memset and raw_copy at the page's own address. */
    method Put(page: nat, bytes: Bytes)
      requires Valid()
      modifies this`frames, s`astray
      ensures Valid() && s.astray == (old(s.astray) || !Lands(page))
      ensures Lands(page) ==> frames == old(frames)[Walk(s.tables, s.pml4, PathOf(page)).value.addr := bytes]
    {
      hide Walk, PathOf;
      if Lands(page) {
        frames := frames[Walk(s.tables, s.pml4, PathOf(page)).value.addr := bytes];
      } else {
        s.astray := true;
      }
    }

    /** What keeps a round for va from going astray. */
    ghost predicate CanGo(va: nat)
      reads s
    {
      && s.supply != [] && HeldOk() && s.Firm() && va !in held && Landing(s.supply[0])
      && (s.Stocked() || Walk(s.tables, s.pml4, PathOf(va)).Some?)
    }

    /** Page p, once taken from the front of the supply, can be written at its address. */
    ghost predicate Landing(p: nat)
      requires s.supply != []
      reads s`tables, s`pml4, s`supply
    {
      var w := Walk(s.tables, s.pml4, PathOf(p));
      w.Some? && w.value.flags.writable && w.value.addr !in s.supply[1..] && w.value.addr !in s.tables && w.value.addr !in held
    }

    /** The first half of a round: a page is taken and filled at its address. */
    method Draw(img: Bytes, g: Seg, va: nat, ghost log: seq<Round>) returns (page: nat)
      requires Ready() && Traced(img, log) && SegOk(img, g) && va % PAGE == 0
      modifies this`frames, s`supply, s`oom, s`astray
      ensures s.oom == (old(s.supply) == []) && (old(s.supply) == [] || old(Landing(s.supply[0])) ==> !s.astray)
      ensures s.Fine() ==> Ready() && page == old(s.supply)[0] && s.supply == old(s.supply)[1..] && s.PageOk(page) && Spare(page)
      ensures s.Fine() ==> Agrees(s.tables, s.pml4, s.physEnd, log) && Contents(frames, img, log + [Round(g, va, page)])
    {
      hide Walk, PathOf, SegOk, ByteAt, Agrees, Contents, Seg.Writable;
      ghost var f0 := frames;
      page := AllocPage();
      if s.oom {
        return;
      }
      var bytes := Fill(img, g, va);
      Put(page, bytes);
      if s.astray {
        return;
      }
      TransIs(s.tables, s.pml4, s.physEnd, log, page);
      ContentsNext(f0, img, log, Round(g, va, page), bytes);
    }

    /** One round of map_one_segment: the page at va is filled and mapped. */
    method MapOne(img: Bytes, g: Seg, va: nat, ghost log: seq<Round>) returns (rc: int, ghost log': seq<Round>)
      requires Ready() && Traced(img, log) && SegOk(img, g) && va % PAGE == 0 && va < LOW_END
      modifies this`frames, s`tables, s`supply, s`oom, s`astray, s`at
      ensures s.Fine() ==> Ready() && rc == 0 && Traced(img, log')
      ensures s.Fine() ==> old(s.supply) != [] && log' == log + [Round(g, va, old(s.supply)[0])]
      ensures s.Fine() ==>
                OneMapped(old(s.tables), s.tables, s.pml4, PathOf(va), Page(old(s.supply)[0], Flags(g.Writable(), true, 0)))
      ensures old(s.supply) != [] && Walk(old(s.tables), s.pml4, PathOf(va)).Some? ==> !s.oom
      ensures s.Fine() && Walk(old(s.tables), s.pml4, PathOf(va)).Some? ==>
                s.supply == old(s.supply)[1..] && s.tables.Keys == old(s.tables).Keys
      ensures old(CanGo(va)) || old(s.supply) == [] ==> !s.astray
      ensures s.Fine() && old(s.Whole()) ==> (s.Whole() <==> va >= s.physEnd)
    {
      hide Walk, PathOf, AddressSpace.Valid, AddressSpace.Firm, SegOk, ByteAt, Agrees, Contents, WholeMap, ToSelf, Seg.Writable;
      log' := log;
      ghost var t0, supply0 := s.tables, s.supply;
      var page := Draw(img, g, va, log);
      if s.oom || s.astray {
        return -1, log';
      }
      ghost var r, supply1 := Round(g, va, page), s.supply;
      SmallPages(page, va);
      Popped(supply0);
      rc := s.MapPage(va, page, Flags(g.Writable(), true, 0));
      if rc != 0 || s.oom || s.astray {
        return -1, log';
      }
      StillSpare(t0, supply1, s.tables, s.supply);
      AgreesNext(t0, s.tables, s.pml4, s.physEnd, log, r);
      log' := log + [r];
      HeldAfter(t0, va, Page(page, Flags(g.Writable(), true, 0)));
      UseHeld();
      if s.astray {
        return -1, log';
      }
    }

    lemma Popped(supply0: seq<nat>)
      requires supply0 != [] && s.supply == supply0[1..]
      ensures (forall x :: x in supply0 ==> s.Reaches(x)) ==> s.Stocked()
    {
      hide ToSelf;
    }

    lemma SmallPages(page: nat, va: nat)
      requires s.Valid() && s.PageOk(page) && va < LOW_END
      ensures page % PHYS == page < s.physEnd <= LOW_END && va % VIRT == va && page % PAGE == 0
    {
    }

    /** What is no table and not in the supply stays so. */
    lemma StillSpare(t0: Tables, supply0: seq<nat>, t1: Tables, supply1: seq<nat>)
      requires Drawn(t0, supply0, t1, supply1)
      ensures forall x :: x !in t0 && x !in supply0 ==> x !in t1 && x !in supply1
    {
    }

    /** Mapping va changes no other page's own address. */
    lemma HeldAfter(t0: Tables, va: nat, page: Page)
      requires s.Valid() && s.active && OneMapped(t0, s.tables, s.pml4, PathOf(va), page) && va < LOW_END && va % PAGE == 0
      ensures forall x :: s.PageOk(x) && x != va ==> ToSelf(s.tables, s.pml4, x) == ToSelf(t0, s.pml4, x)
    {
      hide Walk, PathOf;
      forall x | s.PageOk(x) && x != va
        ensures ToSelf(s.tables, s.pml4, x) == ToSelf(t0, s.pml4, x)
      {
        PathsDiffer(x, va);
        SmallPages(x, va);
      }
    }

    // ----- Segments -----

    /** All the pages of the segment are the identity map's, but none that the kernel is using. */
    ghost predicate Inner(g: Seg)
      reads s`tables
    {
      InnerTo(g, s.tables.Keys)
    }

    ghost predicate InnerTo(g: Seg, tables: set<nat>) {
      && g.End() <= s.physEnd && g.Writable()
      && forall va: nat :: g.Base() <= va < g.End() && va % PAGE == 0 ==> va !in held && va !in tables
    }

    /** Tables and pages in use are reached, and so is every page an earlier round mapped. */
    ghost predicate Steady(log: seq<Round>)
      reads s`active, s`tables, s`pml4
    {
      HeldOk() && s.Firm() && forall k :: 0 <= k < |log| ==> log[k].g.Writable()
    }

    lemma CanGoAbove(va: nat)
      requires Ready() && s.Whole() && va >= s.physEnd && s.supply != []
      ensures CanGo(va)
    {
      hide Walk, PathOf, ToSelf;
      s.WholeReaches();
      var p := s.supply[0];
      assert s.PageOk(p) && Own(Walk(s.tables, s.pml4, PathOf(p)), p);
    }

    lemma CanGoInside(img: Bytes, log: seq<Round>, va: nat)
      requires Ready() && Traced(img, log) && Steady(log) && va < s.physEnd && va % PAGE == 0 && va !in held
      ensures Walk(s.tables, s.pml4, PathOf(va)).Some? && (s.supply != [] ==> CanGo(va))
    {
      hide Walk, PathOf, ToSelf, Agrees, Contents, AddressSpace.Firm, Seg.Writable;
      SpaceBounds(s);
      TransIs(s.tables, s.pml4, s.physEnd, log, va);
      if s.supply != [] {
        var p := s.supply[0];
        SmallPages(p, 0);
        TransIs(s.tables, s.pml4, s.physEnd, log, p);
        assert forall x :: x in s.supply[1..] ==> x in s.supply && x != p;
      }
    }

    lemma SteadyAfter(t0: Tables, log: seq<Round>, r: Round)
      requires s.Valid() && s.active && r.va < LOW_END && r.va % PAGE == 0 && r.g.Writable()
      requires OneMapped(t0, s.tables, s.pml4, PathOf(r.va), Page(r.page, Flags(r.g.Writable(), true, 0)))
      requires forall x :: x in held ==> s.PageOk(x) && x != r.va && ToSelf(t0, s.pml4, x)
      requires forall x :: x in s.tables ==> x != r.va && ToSelf(t0, s.pml4, x)
      requires forall k :: 0 <= k < |log| ==> log[k].g.Writable()
      ensures Steady(log + [r])
    {
      hide Walk, PathOf, ToSelf, Seg.Writable, OneMapped;
      HeldAfter(t0, r.va, Page(r.page, Flags(r.g.Writable(), true, 0)));
    }

    /** A round, with what keeps it on course above the identity map and inside it. */
    method MapRound(img: Bytes, g: Seg, va: nat, ghost log: seq<Round>) returns (rc: int, ghost log': seq<Round>)
      requires Ready() && Traced(img, log) && SegOk(img, g) && va % PAGE == 0 && va < LOW_END
      modifies this`frames, s`tables, s`supply, s`oom, s`astray, s`at
      ensures s.Fine() ==> Ready() && rc == 0 && Traced(img, log')
      ensures s.Fine() ==> old(s.supply) != [] && log' == log + [Round(g, va, old(s.supply)[0])]
      ensures old(s.Whole()) && va >= s.physEnd ==> !s.astray && (s.Fine() ==> s.Whole())
      ensures old(Steady(log)) && va < s.physEnd && va !in held && va !in old(s.tables) && g.Writable() ==>
                !s.astray && (s.Fine() ==> Steady(log'))
      ensures va < s.physEnd ==> (old(s.supply) != [] ==> !s.oom)
      ensures va < s.physEnd && s.Fine() ==> s.supply == old(s.supply)[1..] && s.tables.Keys == old(s.tables).Keys
    {
      hide Walk, PathOf, AddressSpace.Valid, SegOk, Agrees, Contents, WholeMap, ToSelf, Seg.Writable, OneMapped;
      ghost var t0, steady := s.tables, Steady(log) && va < s.physEnd && va !in held && va !in s.tables && g.Writable();
      SpaceBounds(s);
      if s.Whole() && va >= s.physEnd && s.supply != [] {
        CanGoAbove(va);
      }
      if steady {
        CanGoInside(img, log, va);
      }
      if va < s.physEnd {
        TransIs(s.tables, s.pml4, s.physEnd, log, va);
      }
      rc, log' := MapOne(img, g, va, log);
      if s.Fine() && steady {
        SteadyAfter(t0, log, Round(g, va, old(s.supply)[0]));
      }
    }

    /** map_one_segment. */
    method MapSegment(img: Bytes, g: Seg, ghost log: seq<Round>) returns (rc: int, ghost log': seq<Round>)
      requires Ready() && Traced(img, log) && SegOk(img, g)
      modifies this`frames, s`tables, s`supply, s`oom, s`astray, s`at
      ensures s.Fine() ==> Ready() && rc == 0 && Traced(img, log') && Grew(log, log', g, g.Pages())
      ensures old(s.Whole()) && g.Base() >= s.physEnd ==> !s.astray && (s.Fine() ==> s.Whole())
      ensures old(Steady(log) && Inner(g)) ==> !s.astray && (s.Fine() ==> Steady(log'))
      ensures g.End() <= s.physEnd && g.Pages() <= |old(s.supply)| ==> !s.oom
      ensures g.End() <= s.physEnd && s.Fine() ==> s.tables.Keys == old(s.tables).Keys && Took(old(s.supply), s.supply, |log|, log')
    {
      hide Walk, PathOf, AddressSpace.Valid, Traced, WholeMap, Steady, InnerTo, SegOk, Seg.Writable, Seg.End, Seg.Base, Grew, Took;
      ghost var above, inner, below := s.Whole() && g.Base() >= s.physEnd, Steady(log) && Inner(g), g.End() <= s.physEnd;
      ghost var supply0, keys := s.supply, s.tables.Keys;
      OkBounds(img, g);
      log' := log;
      ghost var n := 0;
      var va, end := g.Base(), g.End();
      PageCount(g, 0);
      GrewNone(log, g);
      TookNone(supply0, log);
      InnerBelow(g);
      while va < end
        invariant n <= g.Pages() && va == g.At(n) && va % PAGE == 0 && (va < end <==> n < g.Pages()) && g.Base() <= va
        invariant Ready() && Traced(img, log') && Grew(log, log', g, n) && |log'| == |log| + n
        invariant (above ==> s.Whole()) && (inner ==> Steady(log') && below && Inner(g))
        invariant below ==> s.tables.Keys == keys && Took(supply0, s.supply, |log|, log')
      {
        ghost var log1, supply1 := log', s.supply;
        if below {
          TookLeft(supply0, supply1, |log|, log1);
        }
        if inner {
          InnerAt(g, va);
        }
        rc, log' := MapRound(img, g, va, log');
        if rc != 0 || s.oom || s.astray {
          return -1, log';
        }
        GrewNext(log, log1, g, n, supply1[0]);
        if below {
          TookNext(supply0, supply1, |log|, log1, Round(g, va, supply1[0]));
        }
        n := n + 1;
        PageCount(g, n);
        va := va + PAGE;
      }
      rc := 0;
    }

    lemma OkBounds(img: Bytes, g: Seg)
      requires SegOk(img, g)
      ensures g.Base() % PAGE == 0 && g.End() % PAGE == 0 && g.Base() < g.End() <= LOW_END
    {
      SegBounds(g);
    }

    lemma InnerBelow(g: Seg)
      ensures Inner(g) ==> g.End() <= s.physEnd
    {
    }

    lemma InnerAt(g: Seg, va: nat)
      requires Inner(g) && g.Base() <= va < g.End() && va % PAGE == 0
      ensures va !in held && va !in s.tables && g.Writable() && va < s.physEnd
    {
    }

    // ----- Images -----

    lemma TwoPages(img: Bytes, g: Seg)
      requires SegOk(img, g) && g.kind == PT_LOAD && g.vaddr % PAGE == 0 && g.filesz == g.memsz == 2 * PAGE
      ensures g.Base() == g.vaddr && g.End() == g.vaddr + 2 * PAGE && g.Pages() == 2 && g.At(0) == g.vaddr && g.At(1) == g.vaddr + PAGE
      ensures Total([g]) == 2 && Total([g][..0]) == 0 && g.off + 2 * PAGE <= |img| && g.vaddr + 2 * PAGE <= LOW_END
      ensures forall va: nat :: g.Base() <= va < g.End() && va % PAGE == 0 ==> va == g.vaddr || va == g.vaddr + PAGE
    {
      SegBounds(g);
      assert [g][..0] == [];
    }

    ghost predicate AllInner(ss: seq<Seg>)
      reads s`tables
    {
      forall i :: 0 <= i < |ss| && ss[i].kind == PT_LOAD ==> Inner(ss[i])
    }

    /** The first i segments are accepted and their pages are the log's. */
    ghost predicate Upto(img: Bytes, ss: seq<Seg>, i: nat, log: seq<Round>, supply0: seq<nat>)
      reads this, s
    {
      && i <= |ss| && Ready() && Traced(img, log) && |log| == Total(ss[..i])
      && (forall j :: 0 <= j < i && ss[j].kind == PT_LOAD ==> SegOk(img, ss[j]) && Covered(ss[j], log) && InOrder(ss, j, log))
      && (forall k :: 0 <= k < |log| ==> Belongs(ss[..i], log[k]))
      && (Apart(ss) ==> VasDiffer(log)) && (NoneBelow(ss, s.physEnd) ==> s.Whole())
      && (AllBelow(ss, s.physEnd) ==> Took(supply0, s.supply, 0, log)) && (AllInner(ss) ==> Steady(log))
    }

    lemma UptoPass(img: Bytes, ss: seq<Seg>, i: nat, log: seq<Round>, supply0: seq<nat>)
      requires Upto(img, ss, i, log, supply0) && i < |ss| && ss[i].kind != PT_LOAD
      ensures Upto(img, ss, i + 1, log, supply0)
    {
      hide Traced, WholeMap, Steady, Seg.End, Seg.Base, Took, Belongs, Covered, InOrder, VasDiffer, SegOk, Inner, Ready;
      TotalNext(ss, i);
      forall k | 0 <= k < |log|
        ensures Belongs(ss[..i + 1], log[k])
      {
        BelongsStill(ss, i, log[k]);
      }
    }

    /** The rounds of one LOAD segment. */
    method MapLoad(img: Bytes, ss: seq<Seg>, i: nat, ghost log: seq<Round>, ghost supply0: seq<nat>)
      returns (rc: int, ghost log': seq<Round>)
      requires i < |ss| && Upto(img, ss, i, log, supply0) && ss[i].kind == PT_LOAD && SegOk(img, ss[i])
      modifies this`frames, s`tables, s`supply, s`oom, s`astray, s`at
      ensures s.Fine() ==> rc == 0 && Upto(img, ss, i + 1, log', supply0) && (old(AllInner(ss)) ==> AllInner(ss))
      ensures NoneBelow(ss, s.physEnd) || old(AllInner(ss)) ==> !s.astray
      ensures AllBelow(ss, s.physEnd) && Total(ss) <= |supply0| ==> !s.oom
    {
      hide Walk, PathOf, AddressSpace.Valid, Traced, WholeMap, Steady, Seg.Writable, Seg.End, Seg.Base, Seg.Pages, Grew, Took,
        Belongs, Covered, InOrder, VasDiffer, Agrees, Contents;
      TotalNext(ss, i);
      TotalRises(ss, i + 1);
      ghost var t0, supply1 := s.tables, s.supply;
      if AllBelow(ss, s.physEnd) {
        TookLeft(supply0, supply1, 0, log);
      }
      rc, log' := MapSegment(img, ss[i], log);
      if rc != 0 || s.oom || s.astray {
        return -1, log';
      }
      GrewBelongs(ss, i, log, log');
      GrewCovered(log, log', ss[i]);
      GrewInOrder(ss, i, log, log');
      forall j | 0 <= j < i && ss[j].kind == PT_LOAD
        ensures Covered(ss[j], log') && InOrder(ss, j, log')
      {
        GrewPrefix(log, log', ss[i], ss[i].Pages());
        InOrderStill(ss, j, log, log');
        CoveredStill(log, log', ss[j]);
      }
      GrewPrefix(log, log', ss[i], ss[i].Pages());
      if Apart(ss) {
        GrewVas(ss, i, log, log');
      }
      if AllBelow(ss, s.physEnd) {
        TookOn(supply0, supply1, s.supply, log, log');
      }
    }

    /**
     map_elf_image, on the whole identity map of init_vmm: the entry point, or 0 if
     the image is refused. The log tells what was mapped, and LoadLog what can be read
     after it. No access goes astray and the identity map stays whole if and only if
     every LOAD page lies above it, and then every segment is loaded.
     */
    method MapImage(img: Bytes) returns (entry: nat, ghost log: seq<Round>)
      requires Ready() && s.Whole() && TableFits(img)
      modifies this`frames, s`tables, s`supply, s`oom, s`astray, s`at
      ensures s.Fine() ==> Ready() && (entry != 0 <==> Accepted(img))
      ensures s.Fine() && entry != 0 ==> entry == EntryOf(img) && InLoad(Segs(img), entry)
      ensures s.Fine() && entry != 0 ==> Traced(img, log) && Described(Segs(img), log) && (Apart(Segs(img)) ==> VasDiffer(log))
      ensures s.Fine() && entry != 0 ==>
                |log| == Total(Segs(img)) && forall j :: 0 <= j < |Segs(img)| && Segs(img)[j].kind == PT_LOAD ==> InOrder(Segs(img), j, log)
      ensures s.Fine() && entry != 0 && Apart(Segs(img)) ==> RightsGiven(s.tables, s.pml4, Segs(img))
      ensures s.Fine() && entry != 0 && Apart(Segs(img)) && NoneBelow(Segs(img), s.physEnd) ==>
                AllLoaded(s.tables, s.pml4, frames, img, Segs(img)) && SeesAll(s.tables, s.pml4, frames, img, Segs(img))
      ensures HeaderOk(img) && NoneBelow(Segs(img), s.physEnd) ==> !s.astray && (s.Fine() ==> s.Whole())
      ensures Accepted(img) && !s.oom ==> (!s.astray && s.Whole() <==> NoneBelow(Segs(img), s.physEnd))
      ensures HeaderOk(img) && old(AllInner(Segs(img))) ==> !s.astray
      ensures HeaderOk(img) && AllBelow(Segs(img), s.physEnd) && Total(Segs(img)) <= |old(s.supply)| ==> !s.oom
      ensures HeaderOk(img) && AllBelow(Segs(img), s.physEnd) && s.Fine() ==> Took(old(s.supply), s.supply, 0, log)
    {
      hide Walk, PathOf, AddressSpace.Valid, Traced, WholeMap, Upto, Took, Described, InOrder, VasDiffer, AllLoaded, SegOk, Segs,
          Inner, Apart, SeesAll, RightsGiven;
      entry, log := 0, [];
      if !HeaderOk(img) {
        return;
      }
      var ss := Segs(img);
      var loads := 0;
      var i := 0;
      AtFirst(img, ss);
      while i < |ss|
        invariant 0 <= i <= |ss| && Upto(img, ss, i, log, old(s.supply)) && (old(AllInner(ss)) ==> AllInner(ss))
        invariant 0 <= loads && (loads > 0 <==> exists j :: 0 <= j < i && ss[j].kind == PT_LOAD)
      {
        UptoFine(img, ss, i, log, old(s.supply));
        if ss[i].kind == PT_LOAD {
          loads := loads + 1;
          if !SegOk(img, ss[i]) {
            return;
          }
          var rc;
          rc, log := MapLoad(img, ss, i, log, old(s.supply));
          if rc != 0 || s.oom || s.astray {
            return;
          }
        } else {
          UptoPass(img, ss, i, log, old(s.supply));
        }
        i := i + 1;
      }
      UptoEnd(img, ss, log, old(s.supply));
      if loads == 0 {
        return;
      }
      var ok := FindEntry(ss, EntryOf(img));
      if !ok {
        return;
      }
      entry := EntryOf(img);
    }

    lemma AtFirst(img: Bytes, ss: seq<Seg>)
      requires Ready() && s.Whole()
      ensures Upto(img, ss, 0, [], s.supply)
    {
      hide Walk, PathOf, ToSelf, WholeMap;
      AgreesAtFirst(s.tables, s.pml4, s.physEnd);
      s.WholeReaches();
      TookNone(s.supply, []);
    }

    lemma UptoFine(img: Bytes, ss: seq<Seg>, i: nat, log: seq<Round>, supply0: seq<nat>)
      requires Upto(img, ss, i, log, supply0)
      ensures Ready() && (NoneBelow(ss, s.physEnd) ==> s.Whole()) && (AllBelow(ss, s.physEnd) ==> Took(supply0, s.supply, 0, log))
    {
    }

    /** What holds when all segments are mapped. */
    lemma UptoEnd(img: Bytes, ss: seq<Seg>, log: seq<Round>, supply0: seq<nat>)
      requires Upto(img, ss, |ss|, log, supply0)
      ensures Ready() && Traced(img, log) && Described(ss, log) && (Apart(ss) ==> VasDiffer(log))
      ensures |log| == Total(ss) && forall j :: 0 <= j < |ss| && ss[j].kind == PT_LOAD ==> SegOk(img, ss[j]) && InOrder(ss, j, log)
      ensures Apart(ss) ==> RightsGiven(s.tables, s.pml4, ss)
      ensures Apart(ss) && NoneBelow(ss, s.physEnd) ==> AllLoaded(s.tables, s.pml4, frames, img, ss)
      ensures Apart(ss) && NoneBelow(ss, s.physEnd) ==> SeesAll(s.tables, s.pml4, frames, img, ss)
      ensures s.Whole() <==> NoneBelow(ss, s.physEnd)
      ensures AllBelow(ss, s.physEnd) ==> Took(supply0, s.supply, 0, log)
    {
      hide Walk, PathOf, WholeMap, Agrees, Contents, Seg.End, Seg.Base, Seg.Writable, Steady, Took, AllLoaded, Inner, Covered,
          InOrder, Belongs, VasDiffer, SeesAll, RightsGiven;
      assert ss[..|ss|] == ss;
      forall j | 0 <= j < |ss| && ss[j].kind == PT_LOAD
        ensures ss[j].Base() < ss[j].End() <= LOW_END && ss[j].Base() % PAGE == 0
      {
        SegBounds(ss[j]);
      }
      SpaceBounds(s);
      if Apart(ss) {
        RightsHold(s.tables, s.pml4, s.physEnd, ss, log);
      }
      if NoneBelow(ss, s.physEnd) && Apart(ss) {
        AboveUnclashed(ss, log, s.physEnd);
        UnclashedLoads(s.tables, s.pml4, s.physEnd, frames, img, ss, log);
        LoadedSees(s.tables, s.pml4, frames, img, ss);
      }
      if !NoneBelow(ss, s.physEnd) {
        var j :| 0 <= j < |ss| && ss[j].kind == PT_LOAD && ss[j].Base() < s.physEnd;
        var k := RoundOf(ss[j], log, ss[j].Base());
        NotWhole(s.tables, s.pml4, s.physEnd, log, k);
      }
    }

    /** The last loop of map_elf_image. */
    method FindEntry(ss: seq<Seg>, entry: nat) returns (ok: bool)
      ensures ok == InLoad(ss, entry)
    {
      var i := 0;
      while i < |ss|
        invariant 0 <= i <= |ss| && forall j :: 0 <= j < i ==> !Within(ss[j], entry)
      {
        if ss[i].kind == PT_LOAD && entry >= ss[i].vaddr && entry < ss[i].vaddr + ss[i].memsz {
          return true;
        }
        i := i + 1;
      }
      return false;
    }

    /**
     Where the load fails: an accepted image with one writable segment of two pages,
     the first of them at the address of the second page to be handed out. Nothing
     goes astray, and yet the first page reads the bytes of the second.
     */
    method Overlay(img: Bytes, ghost g: Seg) returns (entry: nat, ghost log: seq<Round>)
      requires Ready() && s.Whole() && TableFits(img) && Accepted(img) && Segs(img) == [g]
      requires g.kind == PT_LOAD && g.Writable() && g.vaddr % PAGE == 0 && g.filesz == g.memsz == 2 * PAGE
      requires 2 <= |s.supply| && s.supply[1] == g.vaddr && g.vaddr + 2 * PAGE <= s.physEnd
      requires g.vaddr + PAGE !in held && g.vaddr + PAGE !in s.tables
      modifies this`frames, s`tables, s`supply, s`oom, s`astray, s`at
      ensures s.Fine() && entry == EntryOf(img) && g.off + 2 * PAGE <= |img|
      ensures forall a: nat :: g.vaddr <= a < g.vaddr + PAGE ==>
                UserByte(s.tables, s.pml4, frames, a) == Some(img[g.off + PAGE + (a - g.vaddr)])
      ensures img[g.off..g.off + PAGE] != img[g.off + PAGE..g.off + 2 * PAGE] ==> !AllLoaded(s.tables, s.pml4, frames, img, Segs(img))
    {
      hide Walk, PathOf, Segs, ToSelf, WholeMap, Agrees, Contents, AllLoaded, Seg.Writable, Seg.Base, Seg.End, Seg.At, Seg.Pages,
          Total, Described, InLoad, UserByte;
      ghost var pages := s.supply;
      assert Segs(img)[0] == g;
      TwoPages(img, g);
      assert Inner(g);
      entry, log := MapImage(img);
      assert InOrder([g], 0, log) && Total([g][..0]) == 0;
      Overlaid(s.tables, s.pml4, s.physEnd, frames, img, g, log);
    }

    /** The same for the example image: the byte at 0x201000 is a one in the file, and reads as a two. */
    method OverlaySample()
      requires Ready() && s.Whole() && 2 <= |s.supply| && s.supply[0] == 0x200000 && s.supply[1] == 0x201000
      requires 0x203000 <= s.physEnd && 0x202000 !in held && 0x202000 !in s.tables
      modifies this`frames, s`tables, s`supply, s`oom, s`astray, s`at
      ensures s.Fine() && UserByte(s.tables, s.pml4, frames, 0x201000) == Some(2) && Sample()[120] == 1
      ensures !AllLoaded(s.tables, s.pml4, frames, Sample(), [Seg(PT_LOAD, 6, 120, 0x201000, 2 * PAGE, 2 * PAGE)])
    {
      hide Sample, Segs, HeaderOk, TableFits, Accepted, Ready, AddressSpace.Whole, AllLoaded, UserByte;
      SampleSegs();
      SampleAccepted();
      SampleParts();
      ghost var img, g := Sample(), Segs(Sample())[0];
      assert img[120] == img[120..120 + PAGE][0] && img[120 + PAGE] == img[120 + PAGE..120 + 2 * PAGE][0];
      var entry;
      ghost var log;
      entry, log := Overlay(Sample(), g);
      assert UserByte(s.tables, s.pml4, frames, 0x201000) == Some(img[120 + PAGE]);
    }
  }

  // ----- The log of a segment -----

  /** log' is log with rounds for the first n pages of the segment. */
  ghost predicate Grew(log: seq<Round>, log': seq<Round>, g: Seg, n: nat) {
    && |log'| == |log| + n && log'[..|log|] == log
    && forall k :: |log| <= k < |log| + n ==> log'[k].g == g && log'[k].va == g.At(k - |log|)
  }

  /** The rounds from number m on took their pages from the front of the supply. */
  ghost predicate Took(supply0: seq<nat>, supply1: seq<nat>, m: nat, log: seq<Round>) {
    && m <= |log| <= m + |supply0| && supply1 == supply0[|log| - m..]
    && forall k :: m <= k < |log| ==> log[k].page == supply0[k - m]
  }

  lemma GrewNone(log: seq<Round>, g: Seg)
    ensures Grew(log, log, g, 0)
  {
  }

  lemma GrewNext(log: seq<Round>, log': seq<Round>, g: Seg, n: nat, page: nat)
    requires Grew(log, log', g, n)
    ensures Grew(log, log' + [Round(g, g.At(n), page)], g, n + 1)
  {
    hide Seg.At;
    var l := log' + [Round(g, g.At(n), page)];
    assert l[..|log|] == log'[..|log|];
    assert forall k :: 0 <= k < |log'| ==> l[k] == log'[k];
  }

  lemma GrewBelongs(ss: seq<Seg>, i: nat, log: seq<Round>, log': seq<Round>)
    requires i < |ss| && ss[i].kind == PT_LOAD && RangeOk(ss[i].vaddr, ss[i].memsz) && Grew(log, log', ss[i], ss[i].Pages())
    requires forall k :: 0 <= k < |log| ==> Belongs(ss[..i], log[k])
    ensures forall k :: 0 <= k < |log'| ==> Belongs(ss[..i + 1], log'[k])
  {
    hide Seg.Base, Seg.End, Seg.At;
    SegBounds(ss[i]);
    forall k | 0 <= k < |log'|
      ensures Belongs(ss[..i + 1], log'[k])
    {
      if k < |log| {
        assert log'[k] == log'[..|log|][k];
        BelongsStill(ss, i, log[k]);
      } else {
        assert log'[k].va == ss[i].At(k - |log|);
        PageCount(ss[i], k - |log|);
        assert ss[..i + 1][i] == ss[i];
      }
    }
  }

  lemma BelongsStill(ss: seq<Seg>, i: nat, r: Round)
    requires i < |ss|
    ensures Belongs(ss[..i], r) ==> Belongs(ss[..i + 1], r)
  {
    hide Seg.Base, Seg.End;
    if Belongs(ss[..i], r) {
      var j :| 0 <= j < i && ss[..i][j].kind == PT_LOAD && r.g == ss[..i][j] && ss[..i][j].Base() <= r.va < ss[..i][j].End();
      assert ss[..i + 1][j] == ss[..i][j];
    }
  }

  lemma GrewCovered(log: seq<Round>, log': seq<Round>, g: Seg)
    requires RangeOk(g.vaddr, g.memsz) && Grew(log, log', g, g.Pages())
    ensures Covered(g, log')
  {
    SegBounds(g);
    hide Seg.Base, Seg.End;
    forall va: nat | g.Base() <= va < g.End() && va % PAGE == 0
      ensures InLog(log', g, va)
    {
      var i := PageIndex(g, va);
      assert log'[|log| + i].g == g && log'[|log| + i].va == va;
    }
  }

  lemma PageIndex(g: Seg, va: nat) returns (i: nat)
    requires g.Base() <= va < g.End() && va % PAGE == 0 && g.Base() % PAGE == 0 && g.End() % PAGE == 0
    ensures i < g.Pages() && g.At(i) == va
  {
    hide Seg.Base, Seg.End;
    i := (va - g.Base()) / PAGE;
  }

  lemma CoveredStill(log: seq<Round>, log': seq<Round>, g: Seg)
    requires Covered(g, log) && |log| <= |log'| && log'[..|log|] == log
    ensures Covered(g, log')
  {
    hide Seg.Base, Seg.End;
    forall va: nat | g.Base() <= va < g.End() && va % PAGE == 0
      ensures InLog(log', g, va)
    {
      assert InLog(log, g, va);
      var k :| 0 <= k < |log| && log[k].g == g && log[k].va == va;
      assert log'[k] == log'[..|log|][k];
    }
  }

  /** Segments that share no page are mapped at different addresses. */
  lemma GrewVas(ss: seq<Seg>, i: nat, log: seq<Round>, log': seq<Round>)
    requires Apart(ss) && VasDiffer(log) && i < |ss| && ss[i].kind == PT_LOAD && RangeOk(ss[i].vaddr, ss[i].memsz)
    requires Grew(log, log', ss[i], ss[i].Pages()) && forall k :: 0 <= k < |log| ==> Belongs(ss[..i], log[k])
    ensures VasDiffer(log')
  {
    var g := ss[i];
    SegBounds(g);
    hide Seg.Base, Seg.End, Seg.At;
    forall m, k | 0 <= m < k < |log'|
      ensures log'[m].va != log'[k].va
    {
      if k < |log| {
        assert log'[m] == log'[..|log|][m] && log'[k] == log'[..|log|][k];
      } else {
        assert log'[k].va == g.At(k - |log|);
        PageCount(g, k - |log|);
        if m < |log| {
          assert log'[m] == log'[..|log|][m] && Belongs(ss[..i], log[m]);
          var j :| 0 <= j < i && ss[..i][j].kind == PT_LOAD && ss[..i][j].Base() <= log[m].va < ss[..i][j].End();
          assert ss[j] == ss[..i][j];
        } else {
          assert log'[m].va == g.At(m - |log|);
          AtDiffer(g, m - |log|, k - |log|);
        }
      }
    }
  }

  lemma AtDiffer(g: Seg, m: nat, k: nat)
    requires m < k
    ensures g.At(m) < g.At(k)
  {
    hide Seg.Base;
  }

  /** A program's page in the identity map has broken it. */
  lemma NotWhole(t: Tables, root: nat, physEnd: nat, log: seq<Round>, k: nat)
    requires Agrees(t, root, physEnd, log) && k < |log| && log[k].va < physEnd <= LOW_END && log[k].va % PAGE == 0
    ensures !WholeMap(t, root, physEnd)
  {
    hide Walk, PathOf, Agrees;
    TransIs(t, root, physEnd, log, log[k].va);
    assert Latest(log, log[k].va).Some?;
    assert !Own(Walk(t, root, PathOf(log[k].va)), log[k].va);
  }

  ghost predicate AllBelow(ss: seq<Seg>, physEnd: nat) {
    forall i :: 0 <= i < |ss| && ss[i].kind == PT_LOAD ==> ss[i].End() <= physEnd
  }

  lemma TookNone(supply: seq<nat>, log: seq<Round>)
    ensures Took(supply, supply, |log|, log)
  {
  }

  lemma TookLeft(supply0: seq<nat>, supply1: seq<nat>, m: nat, log: seq<Round>)
    requires Took(supply0, supply1, m, log)
    ensures m <= |log| && |supply1| == |supply0| - (|log| - m)
  {
  }

  lemma TookNext(supply0: seq<nat>, supply1: seq<nat>, m: nat, log: seq<Round>, r: Round)
    requires Took(supply0, supply1, m, log) && supply1 != [] && r.page == supply1[0]
    ensures Took(supply0, supply1[1..], m, log + [r])
  {
  }

  /** The rounds of segment j follow those of the segments before it, in address order. */
  ghost predicate InOrder(ss: seq<Seg>, j: nat, log: seq<Round>)
    requires j < |ss|
  {
    var m := Total(ss[..j]);
    && m + ss[j].Pages() <= |log|
    && forall k :: m <= k < m + ss[j].Pages() ==> log[k].g == ss[j] && log[k].va == ss[j].At(k - m)
  }

  lemma GrewInOrder(ss: seq<Seg>, i: nat, log: seq<Round>, log': seq<Round>)
    requires i < |ss| && |log| == Total(ss[..i]) && Grew(log, log', ss[i], ss[i].Pages())
    ensures InOrder(ss, i, log')
  {
    hide Seg.At, Seg.Pages;
  }

  lemma InOrderStill(ss: seq<Seg>, j: nat, log: seq<Round>, log': seq<Round>)
    requires j < |ss| && InOrder(ss, j, log) && |log| <= |log'| && log'[..|log|] == log
    ensures InOrder(ss, j, log')
  {
    hide Seg.At, Seg.Pages, Total;
    assert forall k :: 0 <= k < |log| ==> log'[..|log|][k] == log[k];
  }

  lemma GrewPrefix(log: seq<Round>, log': seq<Round>, g: Seg, n: nat)
    requires Grew(log, log', g, n)
    ensures |log'| == |log| + n && log'[..|log|] == log
  {
  }

  lemma TookOn(supply0: seq<nat>, supply1: seq<nat>, supply2: seq<nat>, log: seq<Round>, log': seq<Round>)
    requires Took(supply0, supply1, 0, log) && Took(supply1, supply2, |log|, log') && |log| <= |log'| && log'[..|log|] == log
    ensures Took(supply0, supply2, 0, log')
  {
    forall k | 0 <= k < |log'|
      ensures k < |supply0| && log'[k].page == supply0[k]
    {
      if k < |log| {
        assert log'[k] == log'[..|log|][k];
      }
    }
  }

  lemma RoundOf(g: Seg, log: seq<Round>, va: nat) returns (k: nat)
    requires Covered(g, log) && g.Base() <= va < g.End() && va % PAGE == 0
    ensures k < |log| && log[k].g == g && log[k].va == va
  {
    hide Seg.Base, Seg.End;
    assert InLog(log, g, va);
    k :| 0 <= k < |log| && log[k].g == g && log[k].va == va;
  }

  lemma PageCount(g: Seg, n: nat)
    requires g.Base() % PAGE == 0 && g.End() % PAGE == 0 && g.Base() < g.End() && n <= g.Pages()
    ensures g.At(n) < g.End() <==> n < g.Pages()
    ensures g.At(n) % PAGE == 0 && g.At(n) <= g.End() && g.At(n + 1) == g.At(n) + PAGE && g.At(0) == g.Base() <= g.At(n)
  {
    hide Seg.Base, Seg.End;
  }
}
