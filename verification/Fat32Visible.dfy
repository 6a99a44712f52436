/**
 What a directory shows after fat32_dir_insert: exactly when the new entry is
 found, and that nothing else changes (src/kernel/fs/fat32.c:612-693, 1010-1136).
 */
module Fat32Visible {
  import opened FlatBytes
  import opened LittleEndian
  import opened Fat32Slots
  import opened Fat32Names
  import opened Fat32Scan
  import opened Fat32Short

  /** Where a new entry of need slots goes, and whether the directory must grow for it. */
  ghost predicate PlaceOf(slots: seq<Slot>, need: nat, idx: nat, grow: bool) {
    idx <= |slots| && (forall j: nat :: j < idx ==> !FreeRun(slots, j, need)) &&
    if idx == |slots| then grow
    else if KindOf(slots[idx]) == End then grow == (|slots| - idx < need)
    else !grow && FreeRun(slots, idx, need)
  }

  /** From j on, need slots in a row are deleted ones. */
  ghost predicate FreeRun(slots: seq<Slot>, j: nat, need: nat) {
    j + need <= |slots| && forall k :: j <= k < j + need ==> KindOf(slots[k]) == Deleted
  }

  /** n unused slots, as a zeroed cluster holds them. */
  ghost function Ends(n: nat): (r: seq<Slot>)
    ensures |r| == n && forall j :: 0 <= j < n ==> r[j] == Zeros(SLOT) && KindOf(r[j]) == End
  {
    seq(n, _ => Zeros(SLOT))
  }

  /** The short name chosen for a name: the plain one if it fits and is free, else the first free numbered one. */
  ghost predicate Chosen(slots: seq<Slot>, name: Bytes, raw: Bytes, needLfn: bool)
    requires name != []
  {
    var base, ext := Split(name).0, Split(name).1;
    if Fits(base, ext) && !HasShort(slots, PlainRaw(base, ext)) then raw == PlainRaw(base, ext) && needLfn == HasLower(name)
    else needLfn && exists i: nat :: 1 <= i < 1000 && FirstFree(slots, base, ext, i) && raw == TildeRaw(base, ext, i)
  }

  ghost predicate Taken(slots: seq<Slot>, base: Bytes, ext: Bytes, n: nat)
    requires base != [] && n <= 1000
  {
    forall j: nat :: 1 <= j < n ==> HasShort(slots, TildeRaw(base, ext, j))
  }

  ghost predicate FirstFree(slots: seq<Slot>, base: Bytes, ext: Bytes, i: nat)
    requires base != [] && 1 <= i < 1000
  {
    !HasShort(slots, TildeRaw(base, ext, i)) && Taken(slots, base, ext, i)
  }

  /** The first free number is the least from 1 on whose name is not in use; if all are taken there is none below 1000. */
  lemma FirstFreeIs(slots: seq<Slot>, base: Bytes, ext: Bytes)
    requires base != []
    ensures forall i: nat, j: nat :: 1 <= i < 1000 && 1 <= j < 1000 && FirstFree(slots, base, ext, i) ==>
              !HasShort(slots, TildeRaw(base, ext, i)) && (HasShort(slots, TildeRaw(base, ext, j)) || i <= j)
    ensures Taken(slots, base, ext, 1000) <==> forall j: nat :: 1 <= j < 1000 ==> HasShort(slots, TildeRaw(base, ext, j))
  {
    hide HasShort, TildeRaw;
  }

  lemma ChosenGood(slots: seq<Slot>, name: Bytes, raw: Bytes, needLfn: bool)
    requires name != [] && Chosen(slots, name, raw, needLfn)
    ensures GoodRaw(raw) && !HasShort(slots, raw)
    ensures !needLfn ==> !HasLower(name) && Fits(Split(name).0, Split(name).1) && raw == PlainRaw(Split(name).0, Split(name).1)
  {
    hide AllValid, PlainRaw, TildeRaw, HasShort, HasLower, GoodRaw;
    var base, ext := Split(name).0, Split(name).1;
    RawsAreGood(base, ext, 0);
    if !(Fits(base, ext) && !HasShort(slots, PlainRaw(base, ext))) {
      var i: nat :| 1 <= i < 1000 && FirstFree(slots, base, ext, i) && raw == TildeRaw(base, ext, i);
      RawsAreGood(base, ext, i);
    }
  }

  /** Where an insertion put its entry, how many unused slots it appended, and what it wrote. */
  datatype Insertion = Insertion(place: nat, grow: bool, ends: nat, idx: nat, recs: seq<Slot>, short: Slot)

  /** fat32_dir_insert turned slots s0 into s1. */
  ghost predicate Inserted(s0: seq<Slot>, s1: seq<Slot>, name: Bytes, ins: Insertion) {
    && LeafName(name) && |ins.recs| <= LFN_MAX
    && PlaceOf(s0, |ins.recs| + 1, ins.place, ins.grow) && Open(s0, 0, ins.place)
    && ins.idx == (if ins.grow then |s0| else ins.place)
    && ins.idx + |ins.recs| + 1 <= |s0| + ins.ends
    && NewEntry(ins.recs, ins.short, name)
    && Chosen(s0, name, RawOf(ins.short), ins.recs != [])
    && s1 == WithNew(s0 + Ends(ins.ends), ins.idx, ins.recs, ins.short)
  }

  /** The branch that leaves an end mark behind: it has too few slots after it and the entry goes past them. */
  ghost predicate Skips(s0: seq<Slot>, ins: Insertion) {
    ins.grow && ins.place < |s0|
  }

  /** Unused slots at the end change nothing. */
  lemma {:induction false} EndsShowNothing(a: seq<Slot>, b: seq<Slot>, k: nat, s: Scan, p: Pending)
    requires k <= |a| <= |b| && b[..|a|] == a && (forall j :: |a| <= j < |b| ==> KindOf(b[j]) == End)
    requires s.Ok() && Sound(a, k, p)
    ensures Sound(b, k, p) && Entries(b, k, s) == Entries(a, k, s)
    decreases |a| - k
  {
    hide KindOf, Step, LocOf, PendingStep;
    if k < |a| {
      assert a[k] == b[k];
      if KindOf(a[k]) != End {
        EndsShowNothing(a, b, k + 1, Step(s, a[k], k * SLOT), Onward(p, a[k]));
      } else {
        assert forall j :: k <= j < |a| ==> b[j] == a[j];
      }
    }
  }

  lemma EndsAppended(s0: seq<Slot>, n: nat, junk: seq<nat>)
    requires SoundDir(s0) && |junk| == UNITS * LFN_MAX
    ensures SoundDir(s0 + Ends(n)) && Shown(s0 + Ends(n), junk) == Shown(s0, junk)
  {
    hide KindOf, Sound, Entries;
    EndsShowNothing(s0, s0 + Ends(n), 0, Fresh(junk), NONE);
  }

  lemma LiveWithEnds(s0: seq<Slot>, n: nat, i: nat)
    ensures LiveShort(s0 + Ends(n), i) <==> LiveShort(s0, i)
    ensures LiveShort(s0, i) ==> (s0 + Ends(n))[i] == s0[i]
  {
    hide KindOf;
    var b := s0 + Ends(n);
    assert forall j :: 0 <= j < |s0| ==> b[j] == s0[j];
    assert forall j :: |s0| <= j < |b| ==> KindOf(b[j]) == End;
  }

  lemma ShortsWithEnds(s0: seq<Slot>, n: nat, raw: Bytes)
    ensures HasShort(s0 + Ends(n), raw) <==> HasShort(s0, raw)
    ensures UniqueShorts(s0) ==> UniqueShorts(s0 + Ends(n))
  {
    hide LiveShort;
    var b := s0 + Ends(n);
    forall i: nat
      ensures LiveShort(b, i) <==> LiveShort(s0, i)
      ensures LiveShort(s0, i) ==> i < |s0| && b[i] == s0[i]
    {
      LiveWithEnds(s0, n, i);
      LiveInside(s0, i);
    }
  }

  lemma LiveInside(s: seq<Slot>, i: nat)
    ensures LiveShort(s, i) ==> i < |s|
  {
  }

  /** Behind an end mark of a sound directory there are only end marks. */
  lemma {:induction false} EndsAfter(s: seq<Slot>, k: nat, e: nat, p: Pending)
    requires k <= e < |s| && Sound(s, k, p) && Open(s, k, e) && KindOf(s[e]) == End
    ensures forall j :: e <= j < |s| ==> KindOf(s[j]) == End
    decreases e - k
  {
    hide KindOf, PendingStep;
    if k < e {
      EndsAfter(s, k + 1, e, Onward(p, s[k]));
    }
  }

  /** Unless an end mark is skipped, the new slots go where the scan can reach them. */
  lemma InsertedRoom(s0: seq<Slot>, s1: seq<Slot>, name: Bytes, ins: Insertion)
    requires Inserted(s0, s1, name, ins) && SoundDir(s0) && !Skips(s0, ins)
    ensures Room(s0 + Ends(ins.ends), ins.idx, |ins.recs| + 1) && Open(s0 + Ends(ins.ends), 0, ins.idx)
  {
    hide KindOf, Sound, NewEntry, Chosen, WithNew;
    var b := s0 + Ends(ins.ends);
    if ins.idx < |s0| && KindOf(s0[ins.idx]) == End {
      EndsAfter(s0, 0, ins.idx, NONE);
    }
  }

  lemma RecordKinds(recs: seq<Slot>, short: Slot, name: Bytes)
    requires NewEntry(recs, short, name) && |recs| <= LFN_MAX
    ensures forall i :: 0 <= i < |recs| ==> KindOf(recs[i]) == Record
  {
    forall i | 0 <= i < |recs|
      ensures KindOf(recs[i]) == Record
    {
      RecordKind(recs[i], name, ShortSum(short), |recs|, |recs| - i);
    }
  }

  /** Without the skip, the directory stays sound, its short names stay unique and one entry is added to its list. */
  lemma InsertedShows(s0: seq<Slot>, s1: seq<Slot>, name: Bytes, ins: Insertion, junk: seq<nat>, other: Bytes)
    requires Inserted(s0, s1, name, ins) && SoundDir(s0) && UniqueShorts(s0) && !Skips(s0, ins) && |junk| == UNITS * LFN_MAX
    requires Find(Shown(s0, junk), name).Missing?
    ensures SoundDir(s1) && UniqueShorts(s1)
    ensures var loc := NewLoc(ins.recs, ins.short, name, ins.idx);
            && (NameEq(loc.name, name) ==> Find(Shown(s1, junk), name) == Hit(loc))
            && (!NameEq(loc.name, other) ==> Find(Shown(s1, junk), other) == Find(Shown(s0, junk), other))
  {
    hide KindOf, Sound, Entries, NewEntry, NewLoc, Room, Open, Chosen, PlaceOf, HasShort, UniqueShorts, WithNew;
    var b := s0 + Ends(ins.ends);
    InsertedRoom(s0, s1, name, ins);
    EndsAppended(s0, ins.ends, junk);
    InsertFinds(b, ins.idx, ins.recs, ins.short, name, junk, other);
    ShortsWithEnds(s0, ins.ends, RawOf(ins.short));
    ChosenGood(s0, name, RawOf(ins.short), ins.recs != []);
    RecordKinds(ins.recs, ins.short, name);
    InsertUnique(b, ins.idx, ins.recs, ins.short);
  }

  /** With the skip, no lookup sees the new entry and the directory has an end mark before it. */
  lemma SkippedHides(s0: seq<Slot>, s1: seq<Slot>, name: Bytes, ins: Insertion, junk: seq<nat>)
    requires Inserted(s0, s1, name, ins) && SoundDir(s0) && Skips(s0, ins) && |junk| == UNITS * LFN_MAX
    ensures Shown(s1, junk) == Shown(s0, junk) && !SoundDir(s1)
  {
    hide KindOf, Sound, Entries, NewEntry, Chosen, Open;
    var b := s0 + Ends(ins.ends);
    EndsAppended(s0, ins.ends, junk);
    assert forall j :: 0 <= j <= ins.place ==> s1[j] == b[j] == s0[j];
    HiddenBehindEnd(b, s1, 0, ins.place, Fresh(junk));
    if SoundDir(s1) {
      SameOpen(s0, s1, ins.place);
      EndsAfter(s1, 0, ins.place, NONE);
      assert s1[ins.idx + |ins.recs|] == ins.short;
      EntryIsNoEnd(ins.recs, ins.short, name);
    }
  }

  lemma EntryIsNoEnd(recs: seq<Slot>, short: Slot, name: Bytes)
    requires NewEntry(recs, short, name)
    ensures KindOf(short) != End
  {
  }

  lemma SameOpen(a: seq<Slot>, b: seq<Slot>, e: nat)
    requires Open(a, 0, e) && e < |a| && e < |b| && forall j :: 0 <= j <= e ==> b[j] == a[j]
    ensures Open(b, 0, e)
  {
    hide KindOf;
  }

  lemma NewName(ins: Insertion, name: Bytes)
    ensures NameEq(NewLoc(ins.recs, ins.short, name, ins.idx).name, name) <==> ins.recs == [] || SevenBit(name)
  {
    MaskedFound(name);
  }

  /**
   After an insertion a lookup of the name finds the new entry exactly when no
   end mark was skipped and the name is stored whole: by a short entry alone, or
   by records of seven-bit characters.
   */
  lemma InsertedFound(s0: seq<Slot>, s1: seq<Slot>, name: Bytes, ins: Insertion, junk: seq<nat>)
    requires Inserted(s0, s1, name, ins) && SoundDir(s0) && UniqueShorts(s0) && |junk| == UNITS * LFN_MAX
    requires Find(Shown(s0, junk), name).Missing?
    ensures Find(Shown(s1, junk), name) == Hit(NewLoc(ins.recs, ins.short, name, ins.idx))
            <==> !Skips(s0, ins) && (ins.recs == [] || SevenBit(name))
    ensures Find(Shown(s1, junk), name).Missing? <==> Skips(s0, ins) || (ins.recs != [] && !SevenBit(name))
  {
    hide Inserted, Skips, Sound, Entries, NewLoc, UniqueShorts;
    NewName(ins, name);
    if Skips(s0, ins) {
      SkippedHides(s0, s1, name, ins, junk);
    } else {
      InsertedShows(s0, s1, name, ins, junk, name);
    }
  }
}
