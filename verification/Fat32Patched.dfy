/**
 Updating an entry in place: a directory slot that takes a new cluster and size
 leaves the directory sound, its short names unique and every lookup as it was,
 but for the cluster and size of that entry (src/kernel/fs/fat32.c:612-693, 986-1000).
 */
module Fat32Patched {
  import opened Errors
  import opened FlatBytes
  import opened LittleEndian
  import opened Fat32Slots
  import opened Fat32File
  import opened Fat32Names
  import opened Fat32Scan

  lemma {:induction false} FieldSame(e: Slot, f: Slot, i: nat, end: nat, lower: bool)
    requires i <= end <= SLOT && forall j :: i <= j < end ==> e[j] == f[j]
    ensures Field(e, i, end, lower) == Field(f, i, end, lower)
    decreases end - i
  {
    if i < end {
      FieldSame(e, f, i + 1, end, lower);
    }
  }

  /** The patched slot is of the same kind and shows the same name. */
  lemma PatchedSlotShows(e: Slot, clus: nat, size: nat, st: Scan)
    requires clus < U32 && size < U32 && st.Ok()
    ensures var f := PatchedSlot(e, clus, size);
            && KindOf(f) == KindOf(e) && RawOf(f) == RawOf(e) && f[11] == e[11] && f[0] == e[0]
            && Display(st, f) == Display(st, e) && SlotClus(f) == clus && SlotSize(f) == size
  {
    var f := PatchedSlot(e, clus, size);
    PatchedSlotDecodes(e, clus, size);
    assert forall j :: 0 <= j < 20 ==> f[j] == f[..20][j] && e[j] == e[..20][j];
    hide PatchedSlot, SlotClus, SlotSize, LfnName;
    assert f[..11] == e[..11];
    SumPrefix(f, e, 11);
    FieldSame(f, e, 0, 8, e[12] as int / 8 % 2 == 1);
    FieldSame(f, e, 8, 11, e[12] as int / 16 % 2 == 1);
  }

  /** A list of entries in which the one at byte off has a new cluster and size. */
  function Patched(es: seq<Loc>, off: nat, clus: nat, size: nat): (r: seq<Loc>)
    ensures |r| == |es|
  {
    if es == [] then []
    else [PatchedLoc(es[0], off, clus, size)] + Patched(es[1..], off, clus, size)
  }

  function PatchedLoc(l: Loc, off: nat, clus: nat, size: nat): Loc {
    if l.off == off then l.(clus := clus, size := size) else l
  }

  function PatchedHit(f: Found, off: nat, clus: nat, size: nat): Found {
    match f
    case Missing => Missing
    case Hit(l) => Hit(PatchedLoc(l, off, clus, size))
  }

  lemma {:induction false} PatchedFind(es: seq<Loc>, off: nat, clus: nat, size: nat, name: Bytes)
    ensures Find(Patched(es, off, clus, size), name) == PatchedHit(Find(es, name), off, clus, size)
  {
    hide NameEq;
    if es != [] {
      PatchedFind(es[1..], off, clus, size, name);
      assert Patched(es, off, clus, size)[1..] == Patched(es[1..], off, clus, size);
    }
  }

  lemma PatchedCons(x: seq<Loc>, es: seq<Loc>, off: nat, clus: nat, size: nat)
    requires |x| <= 1
    ensures Patched(x + es, off, clus, size)
            == (if x == [] then [] else [PatchedLoc(x[0], off, clus, size)]) + Patched(es, off, clus, size)
  {
    if x == [] {
      assert x + es == es;
    } else {
      assert (x + es)[1..] == es;
    }
  }

  lemma {:induction false} PatchedEntries(slots: seq<Slot>, at: nat, clus: nat, size: nat, k: nat, st: Scan)
    requires at < |slots| && KindOf(slots[at]) == Entry && clus < U32 && size < U32 && k <= |slots| && st.Ok()
    ensures Entries(SlotsPatched(slots, at, clus, size), k, st) == Patched(Entries(slots, k, st), at * SLOT, clus, size)
    decreases |slots| - k
  {
    hide KindOf, PatchedSlot, OnRecord, Display;
    if k < |slots| {
      PatchedSlotShows(slots[at], clus, size, st);
      if KindOf(slots[k]) != End {
        var x := if KindOf(slots[k]) == Entry then [LocOf(st, slots[k], k * SLOT)] else [];
        PatchedEntries(slots, at, clus, size, k + 1, Step(st, slots[k], k * SLOT));
        PatchedCons(x, Entries(slots, k + 1, Step(st, slots[k], k * SLOT)), at * SLOT, clus, size);
      }
    }
  }

  lemma {:induction false} PatchedSound(slots: seq<Slot>, at: nat, f: Slot, k: nat, p: Pending)
    requires at < |slots| && KindOf(slots[at]) == Entry && KindOf(f) == Entry && k <= |slots|
    ensures Sound(slots[at := f], k, p) == Sound(slots, k, p)
    decreases |slots| - k
  {
    hide KindOf, PendingStep;
    if k < |slots| {
      PatchedSound(slots, at, f, k + 1, Onward(p, slots[k]));
    }
  }

  lemma PatchedUnique(slots: seq<Slot>, at: nat, f: Slot)
    requires at < |slots| && KindOf(slots[at]) == Entry && KindOf(f) == Entry && RawOf(f) == RawOf(slots[at]) && f[11] == slots[at][11]
    ensures UniqueShorts(slots[at := f]) <==> UniqueShorts(slots)
  {
    hide KindOf, RawOf, LiveShort;
    forall i: nat
      ensures LiveShort(slots[at := f], i) == LiveShort(slots, i) && (LiveShort(slots, i) ==> i < |slots|)
    {
      PatchedLive(slots, at, f, i);
    }
    SameUnique(slots, slots[at := f]);
    SameUnique(slots[at := f], slots);
  }

  lemma SameUnique(a: seq<Slot>, b: seq<Slot>)
    requires |a| == |b| && forall i: nat :: LiveShort(a, i) == LiveShort(b, i)
    requires forall i :: 0 <= i < |a| ==> RawOf(a[i]) == RawOf(b[i])
    ensures UniqueShorts(a) ==> UniqueShorts(b)
  {
    hide KindOf, RawOf;
    if UniqueShorts(a) {
      forall i: nat, j: nat | i < j && LiveShort(b, i) && LiveShort(b, j)
        ensures RawOf(b[i]) != RawOf(b[j])
      {
        assert LiveShort(a, i) && LiveShort(a, j);
      }
    }
  }

  lemma PatchedLive(slots: seq<Slot>, at: nat, f: Slot, i: nat)
    requires at < |slots| && KindOf(slots[at]) == Entry && KindOf(f) == Entry && f[11] == slots[at][11]
    ensures LiveShort(slots[at := f], i) == LiveShort(slots, i) && (LiveShort(slots, i) ==> i < |slots|)
  {
    hide KindOf;
    var after := slots[at := f];
    assert forall j :: 0 <= j < |slots| ==> KindOf(after[j]) == KindOf(slots[j]);
    assert Open(after, 0, i) == Open(slots, 0, i);
  }

  /**
   A directory whose entry was updated is as sound as before and its short names as
   unique; a lookup of any name finds what it found, the updated entry with its new
   cluster and size.
   */
  lemma PatchedKeeps(slots: seq<Slot>, at: nat, clus: nat, size: nat, junk: seq<nat>, name: Bytes)
    requires at < |slots| && KindOf(slots[at]) == Entry && clus < U32 && size < U32 && |junk| == UNITS * LFN_MAX
    ensures var after := SlotsPatched(slots, at, clus, size);
            && (SoundDir(after) <==> SoundDir(slots)) && (UniqueShorts(after) <==> UniqueShorts(slots))
            && Find(Shown(after, junk), name) == PatchedHit(Find(Shown(slots, junk), name), at * SLOT, clus, size)
  {
    hide KindOf, PatchedSlot, Entries, Find;
    PatchedSlotShows(slots[at], clus, size, Fresh(junk));
    PatchedSound(slots, at, PatchedSlot(slots[at], clus, size), 0, NONE);
    PatchedUnique(slots, at, PatchedSlot(slots[at], clus, size));
    PatchedEntries(slots, at, clus, size, 0, Fresh(junk));
    PatchedFind(Shown(slots, junk), at * SLOT, clus, size, name);
  }
}
