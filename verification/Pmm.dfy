/**
 The physical page allocator: which pages are free after start-up, the free
 counter, and that a page is not handed out twice
 (src/kernel/memory/pmm_allocator_bitmap.c:15-116; src/kernel/memory/pmm.c:18-110).
 */
module Pmm {
  import opened Errors
  import opened Bitmap

  const PAGE := 4096
  const MAX_PHYS := 512 * 1024 * 1024
  const MAX_PAGES := MAX_PHYS / PAGE
  const INVALID := U64 - 1
  const BOOT_INFO := 0x40000

  /** The clear bits: the free pages. */
  ghost function Free(v: seq<bool>): nat {
    if v == [] then 0 else Free(v[..|v| - 1]) + if v[|v| - 1] then 0 else 1
  }

  lemma {:induction false} FreeSet(v: seq<bool>, i: nat, b: bool)
    requires i < |v|
    ensures Free(v[i := b]) == Free(v) + (if b then 0 else 1) - (if v[i] then 0 else 1)
  {
    var w := v[i := b];
    if i == |v| - 1 {
      assert w[..i] == v[..i];
    } else {
      assert w[..|v| - 1] == v[..|v| - 1][i := b];
      FreeSet(v[..|v| - 1], i, b);
    }
  }

  lemma {:induction false} FreeNone(v: seq<bool>)
    requires forall i :: 0 <= i < |v| ==> v[i]
    ensures Free(v) == 0
  {
    if v != [] {
      FreeNone(v[..|v| - 1]);
    }
  }

  function AlignUp(a: nat): nat {
    var w := (a + PAGE - 1) % U64;
    w - w % PAGE
  }

  function AlignDown(a: nat): nat {
    a - a % PAGE
  }

  /** Page p has a byte in [start, end). */
  predicate Meets(p: nat, start: nat, end: nat) {
    start < (p + 1) * PAGE && p * PAGE < end
  }

  /** Page p lies in [start, end). */
  predicate Inside(p: nat, start: nat, end: nat) {
    start <= p * PAGE && (p + 1) * PAGE <= end
  }

  /** In bytes: a page meets a range that has a byte in it, and lies inside one that has all of its bytes. */
  lemma PageBytes(p: nat, start: nat, end: nat)
    ensures Meets(p, start, end) && start < end <==> exists a: nat :: a / PAGE == p && start <= a < end
    ensures Inside(p, start, end) <==> forall a: nat :: a / PAGE == p ==> start <= a < end
  {
    if Meets(p, start, end) && start < end {
      var a := if start <= p * PAGE then p * PAGE else start;
      assert a / PAGE == p && start <= a < end;
    }
    assert p * PAGE / PAGE == p && (p * PAGE + PAGE - 1) / PAGE == p;
  }

  /** An address that rounds up to the next page without wrapping to 0. */
  predicate Rounds(a: nat) {
    a + PAGE <= U64
  }

  /** Page p has a byte in the range, which rounding outward finds. */
  predicate Marks(p: nat, start: nat, end: nat) {
    Rounds(end) && Meets(p, start, end)
  }

  /** Where rounding up sees an address: one in the last page counts as 0. */
  function From(a: nat): nat {
    if Rounds(a) then a else 0
  }

  /** Rounding outward takes the pages that meet a range, none if its end is in the last page below 2^64. */
  lemma RoundingOut(p: nat, start: nat, end: nat)
    requires end < U64
    ensures AlignDown(start) / PAGE <= p < AlignUp(end) / PAGE <==> Marks(p, start, end)
  {
    if !Rounds(end) {
      assert (end + PAGE - 1) % U64 == end + PAGE - 1 - U64 && AlignUp(end) == 0;
    }
  }

  /** Rounding inward takes the pages inside a range, from 0 if its start is in the last page below 2^64. */
  lemma RoundingIn(p: nat, start: nat, end: nat)
    requires start < U64
    ensures AlignUp(start) / PAGE <= p < AlignDown(end) / PAGE <==> Inside(p, From(start), end)
  {
    if !Rounds(start) {
      assert (start + PAGE - 1) % U64 == start + PAGE - 1 - U64 && AlignUp(start) == 0;
    }
  }

  class Allocator {
    var bitmap: Bits
    var managed: nat
    var freePages: nat

    ghost predicate Valid()
      reads this, bitmap
      reads bitmap.bits
    {
      bitmap.Valid() && managed == bitmap.size <= MAX_PAGES && freePages == Free(bitmap.View())
    }

    /** used()[p]: page p is not free. */
    ghost function Used(): (v: seq<bool>)
      requires Valid()
      reads this, bitmap, bitmap.bits
      ensures |v| == managed
    {
      bitmap.View()
    }

    /** bitmap_allocator_init for a number of pages within the limit: every page is used. */
    constructor (pages: nat)
      requires pages <= MAX_PAGES
      ensures Valid() && managed == pages && forall p :: 0 <= p < pages ==> Used()[p]
      ensures fresh(bitmap) && fresh(bitmap.bits)
    {
      bitmap := new Bits(pages);
      managed, freePages := pages, 0;
      new;
      FreeNone(bitmap.View());
    }

    /** The body of bitmap_mark_used's loop. */
    method UseOne(page: nat)
      requires Valid() && page < managed
      modifies this`freePages, bitmap.bits
      ensures Valid() && bitmap == old(bitmap) && managed == old(managed) && Used() == old(Used())[page := true]
    {
      var used := bitmap.Test(page);
      if !used {
        FreeSet(bitmap.View(), page, true);
        bitmap.Set(page);
        if freePages > 0 {
          freePages := freePages - 1;
        }
      }
    }

    /** The body of bitmap_mark_free's loop. */
    method FreeOne(page: nat)
      requires Valid() && page < managed
      modifies this`freePages, bitmap.bits
      ensures Valid() && bitmap == old(bitmap) && managed == old(managed) && Used() == old(Used())[page := false]
    {
      var used := bitmap.Test(page);
      if used {
        FreeSet(bitmap.View(), page, false);
        bitmap.Clear(page);
        freePages := freePages + 1;
      }
    }

    /** bitmap_mark_used. */
    method MarkUsed(start: nat, end: nat)
      requires Valid() && start < U64 && end < U64
      modifies this`freePages, bitmap.bits
      ensures Valid() && bitmap == old(bitmap) && managed == old(managed)
      ensures forall p: nat :: p < managed ==> Used()[p] == (old(Used())[p] || Marks(p, start, end))
    {
      hide AlignUp, AlignDown, Marks;
      var first := AlignDown(start) / PAGE;
      var last := AlignUp(end) / PAGE;
      forall p: nat
        ensures first <= p < last <==> Marks(p, start, end)
      {
        RoundingOut(p, start, end);
      }
      if last > managed {
        last := managed;
      }
      var page := first;
      while page < last
        invariant Valid() && bitmap == old(bitmap) && managed == old(managed) && (page <= first || page <= last)
        invariant forall p: nat :: p < managed ==> Used()[p] == (old(Used())[p] || first <= p < page)
      {
        UseOne(page);
        page := page + 1;
      }
    }

    /** bitmap_mark_free. */
    method MarkFree(start: nat, end: nat)
      requires Valid() && start < U64 && end < U64
      modifies this`freePages, bitmap.bits
      ensures Valid() && bitmap == old(bitmap) && managed == old(managed)
      ensures forall p: nat :: p < managed ==> Used()[p] == (old(Used())[p] && !Inside(p, From(start), end))
    {
      hide AlignUp, AlignDown, Inside, From;
      var first := AlignUp(start) / PAGE;
      var last := AlignDown(end) / PAGE;
      forall p: nat
        ensures first <= p < last <==> Inside(p, From(start), end)
      {
        RoundingIn(p, start, end);
      }
      if last > managed {
        last := managed;
      }
      var page := first;
      while page < last
        invariant Valid() && bitmap == old(bitmap) && managed == old(managed) && (page <= first || page <= last)
        invariant forall p: nat :: p < managed ==> Used()[p] == (old(Used())[p] && !(first <= p < page))
      {
        FreeOne(page);
        page := page + 1;
      }
    }

    /** bitmap_alloc_page: the lowest free page, or an address that is no page when there is none. */
    method AllocPage() returns (addr: nat)
      requires Valid()
      modifies this`freePages, bitmap.bits
      ensures Valid() && bitmap == old(bitmap) && managed == old(managed)
      ensures Used() == After(old(Used()), Alloc) && addr == Result(old(Used()))
      ensures addr == INVALID <==> old(freePages) == 0
      ensures addr == INVALID ==> Used() == old(Used()) && forall p :: 0 <= p < managed ==> Used()[p]
      ensures addr != INVALID ==>
                && addr % PAGE == 0 && addr / PAGE < managed && !old(Used())[addr / PAGE]
                && (forall p :: 0 <= p < addr / PAGE ==> old(Used())[p])
                && Used() == old(Used())[addr / PAGE := true] && freePages == old(freePages) - 1
    {
      hide First, Free, Bit, ViewOf;
      var page := bitmap.FindFirstClear();
      FirstIs(bitmap.View(), page);
      if page == bitmap.size {
        FreeNone(bitmap.View());
        return INVALID;
      }
      FreeSet(bitmap.View(), page, true);
      bitmap.Set(page);
      freePages := freePages - 1;
      addr := page * PAGE;
    }

    /** bitmap_free_page: a used page becomes free; anything else is ignored. */
    method FreePage(addr: nat)
      requires Valid() && addr < U64
      modifies this`freePages, bitmap.bits
      ensures Valid() && bitmap == old(bitmap) && managed == old(managed)
      ensures Used() == After(old(Used()), Release(addr))
      ensures addr % PAGE == 0 && addr / PAGE < managed ==> Used() == old(Used())[addr / PAGE := false]
      ensures freePages == old(freePages) + if addr % PAGE == 0 && addr / PAGE < managed && old(Used())[addr / PAGE] then 1 else 0
    {
      if addr == INVALID {
        return;
      }
      if addr % PAGE != 0 {
        return;
      }
      var idx := addr / PAGE;
      if idx >= managed {
        return;
      }
      FreeSet(Used(), idx, false);
      FreeOne(idx);
    }
  }

  // ----- Runs of allocations and releases -----

  datatype Op = Alloc | Release(addr: nat)

  /** The lowest free page. */
  function First(v: seq<bool>): (p: nat)
    ensures p <= |v| && (forall j :: 0 <= j < p ==> v[j]) && (p < |v| ==> !v[p])
  {
    if v == [] || !v[0] then 0 else 1 + First(v[1..])
  }

  lemma FirstIs(v: seq<bool>, p: nat)
    requires p <= |v| && (forall j :: 0 <= j < p ==> v[j]) && (p < |v| ==> !v[p])
    ensures p == First(v)
  {
    var q := First(v);
  }

  function Result(v: seq<bool>): nat {
    if First(v) == |v| then INVALID else First(v) * PAGE
  }

  function After(v: seq<bool>, op: Op): (v': seq<bool>)
    ensures |v'| == |v|
  {
    match op
    case Alloc => if First(v) == |v| then v else v[First(v) := true]
    case Release(addr) => if addr % PAGE == 0 && addr / PAGE < |v| then v[addr / PAGE := false] else v
  }

  function Run(v: seq<bool>, ops: seq<Op>): (v': seq<bool>)
    ensures |v'| == |v|
    decreases |ops|
  {
    if ops == [] then v else Run(After(v, ops[0]), ops[1..])
  }

  lemma {:induction false} StaysUsed(v: seq<bool>, ops: seq<Op>, p: nat)
    requires p < |v| && v[p] && Release(p * PAGE) !in ops
    ensures Run(v, ops)[p]
    decreases |ops|
  {
    if ops != [] {
      var op := ops[0];
      assert op in ops;
      assert op != Release(p * PAGE);
      StaysUsed(After(v, op), ops[1..], p);
    }
  }

  /** A page handed out is not handed out again until it is released. */
  lemma NotTwice(v: seq<bool>, ops: seq<Op>)
    requires |v| <= MAX_PAGES && Result(v) != INVALID && Release(Result(v)) !in ops
    ensures Result(Run(After(v, Alloc), ops)) != Result(v)
  {
    var p := First(v);
    StaysUsed(After(v, Alloc), ops, p);
  }

  /** A page given back is handed out again before any page above it. */
  lemma FreedAgain(v: seq<bool>, p: nat)
    requires p < |v| <= MAX_PAGES
    ensures Result(After(v, Release(p * PAGE))) <= p * PAGE
    ensures (forall j :: 0 <= j < p ==> v[j]) ==> Result(After(v, Release(p * PAGE))) == p * PAGE
  {
    assert p * PAGE % PAGE == 0 && p * PAGE / PAGE == p;
    var w := After(v, Release(p * PAGE));
    assert !w[p];
    assert First(w) <= p;
  }

  // ----- Start-up -----

  /** A memory descriptor of the boot map. */
  datatype Desc = Desc(kind: nat, start: nat, pages: nat)
  {
    /** EfiBootServicesCode, EfiBootServicesData and EfiConventionalMemory. */
    predicate Usable() {
      kind == 3 || kind == 4 || kind == 7
    }

    function End(): nat {
      (start + pages * PAGE) % U64
    }

    /** The range starts at least a page below 2^64, as every page-aligned one does. */
    predicate Ok() {
      Rounds(start)
    }
  }

  /** The end of the highest usable range. */
  function MaxEnd(descs: seq<Desc>): (end: nat)
    ensures forall k :: 0 <= k < |descs| && descs[k].Usable() ==> descs[k].End() <= end
    ensures end == 0 || exists k :: 0 <= k < |descs| && descs[k].Usable() && descs[k].End() == end
  {
    if descs == [] then 0
    else
      var m, d := MaxEnd(descs[..|descs| - 1]), descs[|descs| - 1];
      if d.Usable() && d.End() > m then d.End() else m
  }

  /** Of the UEFI memory types, boot-services code is 3, boot-services data 4 and conventional memory 7. */
  lemma UsableKinds(d: Desc)
    ensures d.Usable() <==> d.kind in {3, 4, 7}
  {
  }

  /** A page-aligned descriptor below 2^64 holds its pages. */
  lemma DescPages(d: Desc, p: nat)
    requires d.start % PAGE == 0 && d.start + d.pages * PAGE < U64
    ensures Inside(p, d.start, d.End()) <==> d.start / PAGE <= p < d.start / PAGE + d.pages
  {
  }

  /** Page p lies wholly in one usable descriptor. */
  ghost predicate InUsable(descs: seq<Desc>, p: nat) {
    exists k :: 0 <= k < |descs| && descs[k].Usable() && Inside(p, descs[k].start, descs[k].End())
  }

  /** The pages the second pass frees. */
  ghost predicate Freed(descs: seq<Desc>, p: nat) {
    exists k :: 0 <= k < |descs| && descs[k].Usable() && Inside(p, From(descs[k].start), descs[k].End())
  }

  /** They are the usable ones when every usable descriptor starts a page below 2^64. */
  lemma FreedUsable(descs: seq<Desc>, p: nat)
    requires forall k :: 0 <= k < |descs| && descs[k].Usable() ==> descs[k].Ok()
    ensures Freed(descs, p) <==> InUsable(descs, p)
  {
    assert forall k :: 0 <= k < |descs| && descs[k].Usable() ==> From(descs[k].start) == descs[k].start;
  }

  /** A usable descriptor in the last page below 2^64 frees pages from 0 on, though none is in its range. */
  lemma LastPageFails(p: nat)
    requires p <= 1
    ensures var descs := [Desc(7, U64 - 1, 3)]; Freed(descs, p) && !InUsable(descs, p)
  {
    var descs := [Desc(7, U64 - 1, 3)];
    assert descs[0].End() == 3 * PAGE - 1 && Inside(p, From(descs[0].start), descs[0].End());
  }

  lemma FreedNext(descs: seq<Desc>, k: nat, p: nat)
    requires k < |descs|
    ensures Freed(descs[..k + 1], p) <==>
            Freed(descs[..k], p) || (descs[k].Usable() && Inside(p, From(descs[k].start), descs[k].End()))
  {
    var a, b := descs[..k], descs[..k + 1];
    assert forall i :: 0 <= i < k ==> a[i] == b[i];
    assert b[k] == descs[k];
  }

  /** The ranges init_pmm keeps: page 0, the kernel image, the boot information and the memory map. */
  predicate Reserved(p: nat, kStart: nat, kEnd: nat, map_: nat, mapSize: nat) {
    || p == 0 || Meets(p, kStart, kEnd) || p == BOOT_INFO / PAGE || Meets(p, map_, map_ + mapSize)
  }

  /** What it does keep: a range that ends in the last page below 2^64 is not kept. */
  predicate Held(p: nat, kStart: nat, kEnd: nat, map_: nat, mapSize: nat) {
    || p == 0 || Marks(p, kStart, kEnd) || p == BOOT_INFO / PAGE
    || Marks(p, map_, (map_ + mapSize) % U64)
  }

  lemma HeldReserved(p: nat, kStart: nat, kEnd: nat, map_: nat, mapSize: nat)
    requires Rounds(kEnd) && Rounds(map_ + mapSize)
    ensures Held(p, kStart, kEnd, map_, mapSize) <==> Reserved(p, kStart, kEnd, map_, mapSize)
  {
  }

  lemma HeldParts(p: nat, kStart: nat, kEnd: nat)
    requires kStart < U64 && kEnd < U64
    ensures Marks(p, 0, PAGE) <==> p == 0
    ensures Marks(p, BOOT_INFO, BOOT_INFO + PAGE) <==> p == BOOT_INFO / PAGE
    ensures Marks(p, AlignDown(kStart), AlignUp(kEnd)) <==> Marks(p, kStart, kEnd)
    ensures AlignDown(kStart) < U64 && AlignUp(kEnd) < U64
  {
  }

  lemma FreedNone(descs: seq<Desc>, p: nat)
    ensures !Freed(descs[..0], p)
  {
  }

  /** init_pmm's first pass. */
  method FindEnd(descs: seq<Desc>) returns (maxEnd: nat)
    ensures maxEnd == MaxEnd(descs)
    ensures forall k :: 0 <= k < |descs| && descs[k].Usable() ==> descs[k].End() <= maxEnd
    ensures maxEnd == 0 || exists k :: 0 <= k < |descs| && descs[k].Usable() && descs[k].End() == maxEnd
  {
    maxEnd := 0;
    for k := 0 to |descs|
      invariant maxEnd == MaxEnd(descs[..k])
    {
      assert descs[..k + 1][..k] == descs[..k];
      if descs[k].Usable() && descs[k].End() > maxEnd {
        maxEnd := descs[k].End();
      }
    }
    assert descs[..|descs|] == descs;
  }

  /** init_pmm's second pass. */
  method FreeUsable(a: Allocator, descs: seq<Desc>)
    requires a.Valid() && (forall k :: 0 <= k < |descs| ==> descs[k].start < U64) && forall p :: 0 <= p < a.managed ==> a.Used()[p]
    modifies a`freePages, a.bitmap.bits
    ensures a.Valid() && a.bitmap == old(a.bitmap) && a.managed == old(a.managed)
    ensures forall p: nat :: p < a.managed ==> (!a.Used()[p] <==> Freed(descs, p))
  {
    hide Freed, Inside;
    forall p: nat | p < a.managed
      ensures !Freed(descs[..0], p)
    {
      FreedNone(descs, p);
    }
    for k := 0 to |descs|
      invariant a.Valid() && a.bitmap == old(a.bitmap) && a.managed == old(a.managed)
      invariant forall p: nat :: p < a.managed ==> (!a.Used()[p] <==> Freed(descs[..k], p))
    {
      forall p: nat | p < a.managed
        ensures Freed(descs[..k + 1], p) <==>
                Freed(descs[..k], p) || (descs[k].Usable() && Inside(p, From(descs[k].start), descs[k].End()))
      {
        FreedNext(descs, k, p);
      }
      if descs[k].Usable() {
        a.MarkFree(descs[k].start, descs[k].End());
      }
    }
    assert descs[..|descs|] == descs;
  }

  /** What init_pmm marks used at its end. */
  method Reserve(a: Allocator, kStart: nat, kEnd: nat, map_: nat, mapSize: nat)
    requires a.Valid() && kStart < U64 && kEnd < U64 && map_ < U64
    modifies a`freePages, a.bitmap.bits
    ensures a.Valid() && a.bitmap == old(a.bitmap) && a.managed == old(a.managed)
    ensures forall p: nat :: p < a.managed ==> a.Used()[p] == (old(a.Used())[p] || Held(p, kStart, kEnd, map_, mapSize))
  {
    hide Marks, Meets, AlignUp, AlignDown;
    forall p: nat
      ensures Marks(p, 0, PAGE) <==> p == 0
      ensures Marks(p, BOOT_INFO, BOOT_INFO + PAGE) <==> p == BOOT_INFO / PAGE
      ensures Marks(p, AlignDown(kStart), AlignUp(kEnd)) <==> Marks(p, kStart, kEnd)
    {
      HeldParts(p, kStart, kEnd);
    }
    HeldParts(0, kStart, kEnd);
    a.MarkUsed(0, PAGE);
    a.MarkUsed(AlignDown(kStart), AlignUp(kEnd));
    a.MarkUsed(BOOT_INFO, BOOT_INFO + PAGE);
    a.MarkUsed(map_, (map_ + mapSize) % U64);
  }

  /** No usable range starts, and no reserved range ends, in the last page below 2^64. */
  ghost predicate Ordinary(descs: seq<Desc>, kEnd: nat, map_: nat, mapSize: nat) {
    (forall k :: 0 <= k < |descs| && descs[k].Usable() ==> descs[k].Ok()) && Rounds(kEnd) && Rounds(map_ + mapSize)
  }

  /**
   init_pmm: the pages below the highest usable address, and below the cap, are
   managed; a page is free exactly when it lies wholly in one usable descriptor
   and meets no reserved range, provided no usable range starts, and no reserved
   range ends, in the last page below 2^64; the free counter counts them.
   */
  method InitPmm(descs: seq<Desc>, kStart: nat, kEnd: nat, map_: nat, mapSize: nat) returns (a: Allocator)
    requires (forall k :: 0 <= k < |descs| ==> descs[k].start < U64) && kStart < U64 && kEnd < U64 && map_ < U64
    ensures fresh(a) && a.Valid() && a.managed == (if MaxEnd(descs) > MAX_PHYS then MAX_PHYS else MaxEnd(descs)) / PAGE
    ensures forall p: nat :: p < a.managed ==> (!a.Used()[p] <==> Freed(descs, p) && !Held(p, kStart, kEnd, map_, mapSize))
    ensures Ordinary(descs, kEnd, map_, mapSize) ==>
              forall p: nat :: p < a.managed ==> (!a.Used()[p] <==> InUsable(descs, p) && !Reserved(p, kStart, kEnd, map_, mapSize))
    ensures forall p: nat :: InUsable(descs, p) && p < MAX_PAGES ==> p < a.managed
    ensures a.managed in {0, MAX_PAGES} || exists k :: 0 <= k < |descs| && descs[k].Usable() && descs[k].End() / PAGE == a.managed
    ensures a.freePages == Free(a.Used())
  {
    hide Freed, InUsable, Held, Reserved, Ordinary;
    var maxEnd := FindEnd(descs);
    if maxEnd > MAX_PHYS {
      maxEnd := MAX_PHYS;
    }
    a := new Allocator(maxEnd / PAGE);
    forall p: nat | InUsable(descs, p) && p < MAX_PAGES
      ensures p < a.managed
    {
      UsableBelow(descs, p);
    }
    FreeUsable(a, descs);
    Reserve(a, kStart, kEnd, map_, mapSize);
    if Ordinary(descs, kEnd, map_, mapSize) {
      forall p: nat
        ensures Freed(descs, p) && !Held(p, kStart, kEnd, map_, mapSize) <==>
                InUsable(descs, p) && !Reserved(p, kStart, kEnd, map_, mapSize)
      {
        OrdinaryMap(descs, p, kStart, kEnd, map_, mapSize);
      }
    }
  }

  lemma UsableBelow(descs: seq<Desc>, p: nat)
    requires InUsable(descs, p) && p < MAX_PAGES
    ensures p < (if MaxEnd(descs) > MAX_PHYS then MAX_PHYS else MaxEnd(descs)) / PAGE
  {
    hide MaxEnd;
    var k :| 0 <= k < |descs| && descs[k].Usable() && Inside(p, descs[k].start, descs[k].End());
    assert (p + 1) * PAGE <= MaxEnd(descs);
  }

  lemma OrdinaryMap(descs: seq<Desc>, p: nat, kStart: nat, kEnd: nat, map_: nat, mapSize: nat)
    requires Ordinary(descs, kEnd, map_, mapSize)
    ensures Freed(descs, p) <==> InUsable(descs, p)
    ensures Held(p, kStart, kEnd, map_, mapSize) <==> Reserved(p, kStart, kEnd, map_, mapSize)
  {
    FreedUsable(descs, p);
    HeldReserved(p, kStart, kEnd, map_, mapSize);
  }
}
