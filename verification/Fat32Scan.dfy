/**
 What a directory shows: the entries that a scan of its slots yields, when a
 directory is sound, and what writing a new entry into it does
 (src/kernel/fs/fat32.c:570-693, 789-811, 1002-1136).
 */
module Fat32Scan {
  import opened FlatBytes
  import opened LittleEndian
  import opened Fat32Slots
  import opened Fat32Names

  const FREE := 0xe5

  /** fat32_short_name: base and extension up to the padding, lower case by the NT bits. */
  function ShortName(e: Slot): Bytes {
    var base := Field(e, 0, 8, e[12] as int / 8 % 2 == 1);
    var ext := Field(e, 8, 11, e[12] as int / 16 % 2 == 1);
    if ext == [] then base else base + ['.' as int] + ext
  }

  /** The characters from i to end, up to the first blank. */
  function Field(e: Slot, i: nat, end: nat, lower: bool): (r: Bytes)
    requires i <= end <= SLOT
    ensures |r| <= end - i
    decreases end - i
  {
    if i == end || e[i] == ' ' as int then []
    else
      var c := if i == 0 && e[i] == 0x05 then FREE else e[i];
      [if lower then Lower(c) else c] + Field(e, i + 1, end, lower)
  }

  /** The scan's state between two slots: the long-name records seen since the last entry. */
  datatype Scan = Scan(on: bool, max: nat, start: nat, sum: Byte, units: seq<nat>)
  {
    predicate Ok() {
      |units| == UNITS * LFN_MAX && max <= LFN_MAX && (!on ==> max == 0)
    }

    function Off(): Scan {
      this.(on := false, max := 0)
    }
  }

  /** What a lookup returns of an entry. */
  datatype Loc = Loc(off: nat, lfnOff: nat, clus: nat, size: nat, attr: Byte, name: Bytes)

  /** A long-name record at byte offset off. */
  function OnRecord(st: Scan, e: Slot, off: nat): (r: Scan)
    requires st.Ok()
    ensures r.Ok() && r.on
  {
    var s := if st.on then st else st.(on := true, max := 0, start := off);
    var n := e[0] as nat % 32;
    if 1 <= n <= LFN_MAX then s.(units := Store(s.units, n, e), max := if n > s.max then n else s.max, sum := e[13]) else s
  }

  /** The name an entry is found under: its long name if the records before it are its own. */
  function Display(st: Scan, e: Slot): Bytes
    requires st.Ok()
  {
    CStr(if st.on && st.max > 0 && ShortSum(e) == st.sum then LfnName(st.units, 0, st.max * UNITS, 0) else ShortName(e))
  }

  function LocOf(st: Scan, e: Slot, off: nat): Loc
    requires st.Ok()
  {
    Loc(off, if st.on then st.start else off, Get16(e, 20) * 0x1_0000 + Get16(e, 26), Get32(e, 28), e[11], Display(st, e))
  }

  datatype Kind = End | Deleted | Record | Label | Entry

  function KindOf(e: Slot): Kind {
    if e[0] == 0 then End
    else if e[0] == FREE then Deleted
    else if e[11] == ATTR_LFN then Record
    else if e[11] as int / ATTR_VOL % 2 == 1 then Label
    else Entry
  }

  function Step(st: Scan, e: Slot, off: nat): (r: Scan)
    requires st.Ok()
    ensures r.Ok()
  {
    if KindOf(e) == Record then OnRecord(st, e, off) else st.Off()
  }

  /** The entries of the slots from k on. */
  ghost function Entries(slots: seq<Slot>, k: nat, st: Scan): seq<Loc>
    requires k <= |slots| && st.Ok()
    decreases |slots| - k
  {
    if k == |slots| || KindOf(slots[k]) == End then []
    else (if KindOf(slots[k]) == Entry then [LocOf(st, slots[k], k * SLOT)] else [])
         + Entries(slots, k + 1, Step(st, slots[k], k * SLOT))
  }

  datatype Found = Missing | Hit(loc: Loc)

  /** The first entry of that name. */
  function Find(es: seq<Loc>, name: Bytes): Found {
    if es == [] then Missing
    else if NameEq(es[0].name, name) then Hit(es[0])
    else Find(es[1..], name)
  }

  /** The entry found is the first of that name; nothing is found exactly if no entry has it. */
  lemma {:induction false} FindIs(es: seq<Loc>, name: Bytes)
    ensures Find(es, name).Missing? <==> forall i :: 0 <= i < |es| ==> !NameEq(es[i].name, name)
    ensures Find(es, name).Hit? ==>
              exists i :: 0 <= i < |es| && es[i] == Find(es, name).loc && NameEq(es[i].name, name)
                          && forall j :: 0 <= j < i ==> !NameEq(es[j].name, name)
  {
    if es != [] && !NameEq(es[0].name, name) {
      FindIs(es[1..], name);
      if Find(es, name).Hit? {
        var i :| 0 <= i < |es[1..]| && es[1..][i] == Find(es, name).loc && NameEq(es[1..][i].name, name)
                 && forall j :: 0 <= j < i ==> !NameEq(es[1..][j].name, name);
        assert es[i + 1] == es[1..][i];
        assert forall j :: 0 <= j < i ==> es[j + 1] == es[1..][j];
      }
    }
  }

  lemma {:induction false} FindSplit(a: seq<Loc>, b: seq<Loc>, name: Bytes)
    ensures Find(a + b, name) == if Find(a, name).Hit? then Find(a, name) else Find(b, name)
  {
    if a == [] {
      assert a + b == b;
    } else {
      assert (a + b)[0] == a[0] && (a + b)[1..] == a[1..] + b;
      FindSplit(a[1..], b, name);
    }
  }

  // ----- Sound directories -----

  /** The records collected so far and whether any slot of theirs is still to come. */
  datatype Pending = Pending(on: bool, max: nat, have: set<nat>)

  const NONE := Pending(false, 0, {})

  function PendingStep(p: Pending, e: Slot): Pending {
    var n := e[0] as nat % 32;
    var q := if p.on then p else Pending(true, 0, {});
    if 1 <= n <= LFN_MAX then Pending(true, if n > q.max then n else q.max, q.have + {n}) else q
  }

  /**
   From slot k on: no record run is left without its entry, every entry's
   records are complete, and behind the first end mark there are only end marks.
   */
  ghost predicate Sound(slots: seq<Slot>, k: nat, p: Pending)
    requires k <= |slots|
    decreases |slots| - k
  {
    if k == |slots| then !p.on
    else match KindOf(slots[k])
      case End => !p.on && forall j :: k <= j < |slots| ==> KindOf(slots[j]) == End
      case Deleted => !p.on && Sound(slots, k + 1, NONE)
      case Record => Sound(slots, k + 1, PendingStep(p, slots[k]))
      case Label => Sound(slots, k + 1, NONE)
      case Entry => (p.on && p.max > 0 ==> forall n :: 1 <= n <= p.max ==> n in p.have) && Sound(slots, k + 1, NONE)
  }

  /** Two scan states that a sound rest of the directory cannot tell apart. */
  ghost predicate Agree(s: Scan, t: Scan, p: Pending) {
    && s.Ok() && t.Ok()
    && s.on == t.on == p.on && s.max == t.max == p.max
    && (s.on ==> s.start == t.start) && (s.max > 0 ==> s.sum == t.sum)
    && (forall n :: n in p.have ==> 1 <= n <= LFN_MAX)
    && (forall n :: n in p.have ==> SameRecord(s.units, t.units, n))
  }

  ghost predicate SameRecord(a: seq<nat>, b: seq<nat>, n: nat)
    requires 1 <= n <= LFN_MAX && |a| == |b| == UNITS * LFN_MAX
  {
    forall k :: (n - 1) * UNITS <= k < n * UNITS ==> a[k] == b[k]
  }

  lemma AgreeStep(s: Scan, t: Scan, p: Pending, e: Slot, off: nat)
    requires Agree(s, t, p)
    ensures Agree(OnRecord(s, e, off), OnRecord(t, e, off), PendingStep(p, e))
  {
    var s', t', p' := OnRecord(s, e, off), OnRecord(t, e, off), PendingStep(p, e);
    forall n | n in p'.have
      ensures SameRecord(s'.units, t'.units, n)
    {
      var r := e[0] as nat % 32;
      if n == r {
        SameStored(s.units, t.units, r, e);
      } else if 1 <= r <= LFN_MAX {
        assert SameRecord(s.units, t.units, n);
        StoredElsewhere(s.units, t.units, r, e, n);
      } else {
        assert SameRecord(s.units, t.units, n);
      }
    }
  }

  lemma SameStored(a: seq<nat>, b: seq<nat>, r: nat, e: Slot)
    requires 1 <= r <= LFN_MAX && |a| == |b| == UNITS * LFN_MAX
    ensures SameRecord(Store(a, r, e), Store(b, r, e), r)
  {
  }

  lemma StoredElsewhere(a: seq<nat>, b: seq<nat>, r: nat, e: Slot, n: nat)
    requires 1 <= r <= LFN_MAX && 1 <= n <= LFN_MAX && n != r && |a| == |b| == UNITS * LFN_MAX && SameRecord(a, b, n)
    ensures SameRecord(Store(a, r, e), Store(b, r, e), n)
  {
  }

  lemma {:induction false} SameName(a: seq<nat>, b: seq<nat>, i: nat, total: nat, j: nat)
    requires i <= total <= |a| && total <= |b| && forall k :: i <= k < total ==> a[k] == b[k]
    ensures LfnName(a, i, total, j) == LfnName(b, i, total, j)
    decreases total - i
  {
    if i < total {
      SameName(a, b, i + 1, total, j);
      SameName(a, b, i + 1, total, j + 1);
    }
  }

  /** The name an entry displays does not depend on stale records. */
  lemma AgreeDisplay(s: Scan, t: Scan, p: Pending, e: Slot)
    requires Agree(s, t, p) && (p.on && p.max > 0 ==> forall n :: 1 <= n <= p.max ==> n in p.have)
    ensures Display(s, e) == Display(t, e)
  {
    if s.on && s.max > 0 {
      forall k | 0 <= k < s.max * UNITS
        ensures s.units[k] == t.units[k]
      {
        var n := k / UNITS + 1;
        assert n in p.have && SameRecord(s.units, t.units, n);
      }
      SameName(s.units, t.units, 0, s.max * UNITS, 0);
    }
  }

  /** What the pending records become after slot e. */
  function Onward(p: Pending, e: Slot): Pending {
    if KindOf(e) == Record then PendingStep(p, e) else NONE
  }

  lemma AgreeOnward(s: Scan, t: Scan, p: Pending, e: Slot, off: nat)
    requires Agree(s, t, p)
    ensures Agree(Step(s, e, off), Step(t, e, off), Onward(p, e))
  {
    if KindOf(e) == Record {
      AgreeStep(s, t, p, e, off);
    }
  }

  /** A sound rest of a directory shows the same entries whatever stale records the scan carries. */
  lemma {:induction false} AgreeEntries(slots: seq<Slot>, k: nat, s: Scan, t: Scan, p: Pending)
    requires k <= |slots| && Sound(slots, k, p) && Agree(s, t, p)
    ensures Entries(slots, k, s) == Entries(slots, k, t)
    decreases |slots| - k
  {
    hide Display, Step, Onward, KindOf, SameRecord, PendingStep;
    if k < |slots| && KindOf(slots[k]) != End {
      AgreeOnward(s, t, p, slots[k], k * SLOT);
      OnwardSound(slots, k, p);
      AgreeEntries(slots, k + 1, Step(s, slots[k], k * SLOT), Step(t, slots[k], k * SLOT), Onward(p, slots[k]));
      if KindOf(slots[k]) == Entry {
        AgreeDisplay(s, t, p, slots[k]);
      }
    }
  }

  lemma OnwardSound(slots: seq<Slot>, k: nat, p: Pending)
    requires k < |slots| && Sound(slots, k, p) && KindOf(slots[k]) != End
    ensures Sound(slots, k + 1, Onward(p, slots[k]))
    ensures KindOf(slots[k]) == Deleted ==> !p.on
    ensures KindOf(slots[k]) == Entry ==> (p.on && p.max > 0 ==> forall n :: 1 <= n <= p.max ==> n in p.have)
  {
  }

  // ----- Writing a new entry -----

  ghost predicate SameFrom(a: seq<Slot>, b: seq<Slot>, k: nat) {
    |a| == |b| && forall j :: k <= j < |a| ==> a[j] == b[j]
  }

  lemma {:induction false} SuffixOnly(a: seq<Slot>, b: seq<Slot>, k: nat, s: Scan, p: Pending)
    requires k <= |a| && SameFrom(a, b, k) && s.Ok()
    ensures Entries(a, k, s) == Entries(b, k, s) && Sound(a, k, p) == Sound(b, k, p)
    decreases |a| - k
  {
    hide KindOf, Step, LocOf, PendingStep;
    if k < |a| {
      SuffixOnly(a, b, k + 1, Step(s, a[k], k * SLOT), Onward(p, a[k]));
      if KindOf(a[k]) == End {
        assert forall j :: k <= j < |a| ==> KindOf(a[j]) == KindOf(b[j]);
      }
    }
  }

  /** The scan and the pending records after i of the records of one entry. */
  ghost function ScanIn(s: Scan, recs: seq<Slot>, sum: Byte, start: nat, i: nat): (r: Scan)
    requires s.Ok() && i <= |recs| <= LFN_MAX
    ensures r.Ok()
  {
    if i == 0 then s else Scan(true, |recs|, start, sum, StoreAll(s.units, recs, i))
  }

  ghost function PendingIn(r: nat, i: nat): Pending
    requires i <= r
  {
    if i == 0 then NONE else Pending(true, r, Top(r, i))
  }

  /** The i highest of the numbers up to r. */
  ghost function Top(r: nat, i: nat): set<nat>
    requires i <= r
  {
    if i == 0 then {} else Top(r, i - 1) + {r - i + 1}
  }

  lemma {:induction false} TopHas(r: nat, i: nat, n: nat)
    requires i <= r
    ensures n in Top(r, i) <==> r - i < n <= r
  {
    if i > 0 {
      TopHas(r, i - 1, n);
    }
  }

  lemma RecordKind(e: Slot, name: Bytes, sum: Byte, n: nat, q: nat)
    requires 1 <= q <= n <= LFN_MAX && IsRecord(e, name, sum, n, q)
    ensures KindOf(e) == Record && e[0] as nat % 32 == q && e[13] == sum
  {
  }

  lemma StoreNone(units: seq<nat>, recs: seq<Slot>)
    requires |recs| <= LFN_MAX && |units| == UNITS * LFN_MAX
    ensures StoreAll(units, recs, 0) == units
  {
  }

  lemma StepIn(s: Scan, recs: seq<Slot>, name: Bytes, sum: Byte, start: nat, i: nat, off: nat)
    requires s.Ok() && !s.on && i < |recs| <= LFN_MAX && AreRecords(recs, name, sum) && (i == 0 ==> off == start)
    ensures KindOf(recs[i]) == Record
    ensures Step(ScanIn(s, recs, sum, start, i), recs[i], off) == ScanIn(s, recs, sum, start, i + 1)
    ensures Onward(PendingIn(|recs|, i), recs[i]) == PendingIn(|recs|, i + 1)
  {
    RecordKind(recs[i], name, sum, |recs|, |recs| - i);
    hide KindOf, IsRecord, AreRecords;
    assert StoreAll(s.units, recs, i + 1) == Store(StoreAll(s.units, recs, i), |recs| - i, recs[i]);
    hide Store, StoreAll;
    assert ScanIn(s, recs, sum, start, i).units == StoreAll(s.units, recs, i) by {
      StoreNone(s.units, recs);
    }
    assert Top(|recs|, i + 1) == Top(|recs|, i) + {|recs| - i};
  }

  lemma AtRecord(slots: seq<Slot>, k: nat, s: Scan, p: Pending)
    requires k < |slots| && s.Ok() && KindOf(slots[k]) == Record
    ensures Entries(slots, k, s) == Entries(slots, k + 1, Step(s, slots[k], k * SLOT))
    ensures Sound(slots, k, p) == Sound(slots, k + 1, Onward(p, slots[k]))
  {
    hide KindOf, Step, PendingStep;
  }

  lemma AtEntry(slots: seq<Slot>, k: nat, s: Scan, p: Pending)
    requires k < |slots| && s.Ok() && KindOf(slots[k]) == Entry
    requires p.on && p.max > 0 ==> forall n :: 1 <= n <= p.max ==> n in p.have
    ensures Entries(slots, k, s) == [LocOf(s, slots[k], k * SLOT)] + Entries(slots, k + 1, s.Off())
    ensures Sound(slots, k, p) == Sound(slots, k + 1, NONE)
  {
    hide KindOf, LocOf;
  }

  lemma AllPending(r: nat)
    ensures var p := PendingIn(r, r);
            p.on && p.max > 0 ==> forall n :: 1 <= n <= p.max ==> n in p.have
  {
    forall n | 1 <= n <= r
      ensures n in Top(r, r)
    {
      TopHas(r, r, n);
    }
  }

  /** A run of records followed by an entry: nothing shows before the entry at end. */
  lemma {:induction false} RunIn(slots: seq<Slot>, at: nat, end: nat, recs: seq<Slot>, name: Bytes, sum: Byte, s: Scan, start: nat, i: nat)
    requires s.Ok() && !s.on && i <= |recs| <= LFN_MAX && (|recs| > 0 ==> AreRecords(recs, name, sum))
    requires end <= |slots| && at + |recs| == end + i && (i == 0 ==> start == at * SLOT)
    requires forall k :: at <= k < end ==> slots[k] == recs[k - at + i]
    ensures Entries(slots, at, ScanIn(s, recs, sum, start, i)) == Entries(slots, end, ScanIn(s, recs, sum, start, |recs|))
    ensures Sound(slots, end, PendingIn(|recs|, |recs|)) ==> Sound(slots, at, PendingIn(|recs|, i))
    decreases |recs| - i
  {
    hide KindOf, Step, AreRecords, PendingStep, ScanIn, PendingIn, Sound, Entries, Onward;
    if i < |recs| {
      assert slots[at] == recs[i];
      StepIn(s, recs, name, sum, start, i, at * SLOT);
      AtRecord(slots, at, ScanIn(s, recs, sum, start, i), PendingIn(|recs|, i));
      RunIn(slots, at + 1, end, recs, name, sum, s, start, i + 1);
    }
  }

  /** The new slots of an entry: its records, if any, then its short entry that displays the name. */
  ghost predicate NewEntry(recs: seq<Slot>, short: Slot, name: Bytes) {
    && KindOf(short) == Entry && LeafName(name)
    && (if recs == [] then ShortName(short) == name else AreRecords(recs, name, ShortSum(short)))
  }

  ghost function NewLoc(recs: seq<Slot>, short: Slot, name: Bytes, idx: nat): Loc {
    Loc((idx + |recs|) * SLOT, idx * SLOT, Get16(short, 20) * 0x1_0000 + Get16(short, 26), Get32(short, 28), short[11],
        if recs == [] then name else Masked(name))
  }

  lemma NewDisplays(recs: seq<Slot>, short: Slot, name: Bytes, idx: nat, s: Scan)
    requires NewEntry(recs, short, name) && s.Ok() && !s.on && |recs| <= LFN_MAX
    ensures LocOf(ScanIn(s, recs, ShortSum(short), idx * SLOT, |recs|), short, (idx + |recs|) * SLOT) == NewLoc(recs, short, name, idx)
  {
    if recs != [] {
      LfnRoundTrip(s.units, recs, name, ShortSum(short));
    }
  }

  /** slots with the new entry written at idx. */
  ghost function WithNew(slots: seq<Slot>, idx: nat, recs: seq<Slot>, short: Slot): (r: seq<Slot>)
    requires idx + |recs| + 1 <= |slots|
    ensures |r| == |slots|
    ensures forall j :: 0 <= j < |slots| ==> r[j] == if j < idx then slots[j] else if j < idx + |recs| then recs[j - idx]
                                                     else if j == idx + |recs| then short else slots[j]
  {
    slots[..idx] + recs + [short] + slots[idx + |recs| + 1..]
  }

  /** The place fat32_find_slots offers: deleted slots, or an end mark with only end marks behind it. */
  ghost predicate Room(slots: seq<Slot>, idx: nat, need: nat) {
    && idx + need <= |slots|
    && ((forall j :: idx <= j < idx + need ==> KindOf(slots[j]) == Deleted) || (forall j :: idx <= j < |slots| ==> KindOf(slots[j]) == End))
  }

  lemma AtDeleted(slots: seq<Slot>, k: nat, s: Scan)
    requires k < |slots| && s.Ok() && !s.on && KindOf(slots[k]) == Deleted
    ensures Entries(slots, k, s) == Entries(slots, k + 1, s)
    ensures Sound(slots, k, NONE) ==> Sound(slots, k + 1, NONE)
  {
    hide KindOf;
    assert s.Off() == s;
  }

  lemma AtEnd(slots: seq<Slot>, k: nat, s: Scan)
    requires k <= |slots| && s.Ok() && forall j :: k <= j < |slots| ==> KindOf(slots[j]) == End
    ensures Entries(slots, k, s) == [] && Sound(slots, k, NONE)
  {
    hide KindOf;
  }

  /** Deleted slots show nothing. */
  lemma {:induction false} DeletedShowNothing(slots: seq<Slot>, k: nat, end: nat, s: Scan)
    requires k <= end <= |slots| && s.Ok() && !s.on && forall j :: k <= j < end ==> KindOf(slots[j]) == Deleted
    ensures Entries(slots, k, s) == Entries(slots, end, s)
    ensures Sound(slots, k, NONE) ==> Sound(slots, end, NONE)
    decreases end - k
  {
    hide KindOf, Entries, Sound;
    if k < end {
      AtDeleted(slots, k, s);
      DeletedShowNothing(slots, k + 1, end, s);
    }
  }

  /** Free slots show nothing. */
  lemma RoomShowsNothing(slots: seq<Slot>, idx: nat, need: nat, s: Scan)
    requires Room(slots, idx, need) && Sound(slots, idx, NONE) && s.Ok() && !s.on
    ensures Entries(slots, idx, s) == Entries(slots, idx + need, s) && Sound(slots, idx + need, NONE)
  {
    hide KindOf, Entries, Sound;
    if forall j :: idx <= j < |slots| ==> KindOf(slots[j]) == End {
      AtEnd(slots, idx, s);
      AtEnd(slots, idx + need, s);
    } else {
      DeletedShowNothing(slots, idx, idx + need, s);
    }
  }

  lemma InsertHere(slots: seq<Slot>, idx: nat, recs: seq<Slot>, short: Slot, name: Bytes, s: Scan)
    requires NewEntry(recs, short, name) && |recs| <= LFN_MAX && Room(slots, idx, |recs| + 1)
    requires Sound(slots, idx, NONE) && s.Ok() && !s.on
    ensures var slots' := WithNew(slots, idx, recs, short);
            Sound(slots', idx, NONE) && Entries(slots', idx, s) == [NewLoc(recs, short, name, idx)] + Entries(slots, idx, s)
  {
    hide KindOf, Display, ShortSum, Room, AreRecords, PendingStep, ScanIn, PendingIn, Sound, Entries, LocOf, NewLoc;
    RoomFits(slots, idx, |recs| + 1);
    var slots' := WithNew(slots, idx, recs, short);
    var sum, at := ShortSum(short), idx + |recs|;
    var t := ScanIn(s, recs, sum, idx * SLOT, |recs|);
    RunIn(slots', idx, at, recs, name, sum, s, idx * SLOT, 0);
    StartIn(s, recs, sum, idx * SLOT);
    NewDisplays(recs, short, name, idx, s);
    RoomShowsNothing(slots, idx, |recs| + 1, s);
    assert slots'[at] == short;
    SuffixOnly(slots', slots, at + 1, t.Off(), NONE);
    assert Agree(t.Off(), s, NONE);
    AgreeEntries(slots, at + 1, t.Off(), s, NONE);
    AllPending(|recs|);
    AtEntry(slots', at, t, PendingIn(|recs|, |recs|));
  }

  lemma StartIn(s: Scan, recs: seq<Slot>, sum: Byte, start: nat)
    requires s.Ok() && |recs| <= LFN_MAX
    ensures ScanIn(s, recs, sum, start, 0) == s && PendingIn(|recs|, 0) == NONE
  {
  }

  lemma RoomFits(slots: seq<Slot>, idx: nat, need: nat)
    requires Room(slots, idx, need)
    ensures idx + need <= |slots|
  {
  }

  /** The scan when it reaches slot idx, and the entries it has shown by then. */
  ghost function ScanAt(slots: seq<Slot>, k: nat, idx: nat, s: Scan): (r: Scan)
    requires k <= idx <= |slots| && s.Ok()
    ensures r.Ok()
    decreases idx - k
  {
    if k == idx then s else ScanAt(slots, k + 1, idx, Step(s, slots[k], k * SLOT))
  }

  ghost function Before(slots: seq<Slot>, k: nat, idx: nat, s: Scan): seq<Loc>
    requires k <= idx <= |slots| && s.Ok()
    decreases idx - k
  {
    if k == idx then []
    else (if KindOf(slots[k]) == Entry then [LocOf(s, slots[k], k * SLOT)] else [])
         + Before(slots, k + 1, idx, Step(s, slots[k], k * SLOT))
  }

  /** The slots up to idx hold no end mark. */
  ghost predicate Open(slots: seq<Slot>, k: nat, idx: nat) {
    k <= idx <= |slots| && forall j :: k <= j < idx ==> KindOf(slots[j]) != End
  }

  lemma StepEntries(slots: seq<Slot>, k: nat, s: Scan)
    requires k < |slots| && s.Ok() && KindOf(slots[k]) != End
    ensures Entries(slots, k, s) == (if KindOf(slots[k]) == Entry then [LocOf(s, slots[k], k * SLOT)] else [])
                                    + Entries(slots, k + 1, Step(s, slots[k], k * SLOT))
  {
    hide KindOf, LocOf, Step;
  }

  lemma StepSound(slots: seq<Slot>, slots': seq<Slot>, k: nat, p: Pending)
    requires k < |slots| == |slots'| && slots'[k] == slots[k] && KindOf(slots[k]) != End && Sound(slots, k, p)
    requires Sound(slots', k + 1, Onward(p, slots[k]))
    ensures Sound(slots', k, p)
  {
    hide KindOf, PendingStep;
  }

  /** The new entry appears in the list of entries at its place; the others stay, and the directory stays sound. */
  lemma {:induction false} InsertFrom(slots: seq<Slot>, idx: nat, recs: seq<Slot>, short: Slot, name: Bytes, k: nat, s: Scan, p: Pending)
    requires NewEntry(recs, short, name) && |recs| <= LFN_MAX && Room(slots, idx, |recs| + 1) && idx + |recs| + 1 <= |slots|
    requires Open(slots, k, idx) && Sound(slots, k, p) && s.Ok() && s.on == p.on && (!p.on ==> p == NONE)
    ensures Sound(WithNew(slots, idx, recs, short), k, p)
    ensures Entries(slots, k, s) == Before(slots, k, idx, s) + Entries(slots, idx, ScanAt(slots, k, idx, s))
    ensures Entries(WithNew(slots, idx, recs, short), k, s)
            == Before(slots, k, idx, s) + [NewLoc(recs, short, name, idx)] + Entries(slots, idx, ScanAt(slots, k, idx, s))
    decreases idx - k
  {
    hide KindOf, Step, NewEntry, NewLoc, LocOf, PendingStep, Sound, Entries;
    if k == idx {
      RoomIsOff(slots, idx, |recs| + 1, p);
      InsertHere(slots, idx, recs, short, name, s);
    } else {
      var slots' := WithNew(slots, idx, recs, short);
      assert slots'[k] == slots[k] && KindOf(slots[k]) != End;
      OnwardSound(slots, k, p);
      OnwardOn(s, p, slots[k], k * SLOT);
      InsertFrom(slots, idx, recs, short, name, k + 1, Step(s, slots[k], k * SLOT), Onward(p, slots[k]));
      StepEntries(slots, k, s);
      StepEntries(slots', k, s);
      StepSound(slots, slots', k, p);
    }
  }

  lemma OnwardOn(s: Scan, p: Pending, e: Slot, off: nat)
    requires s.Ok() && s.on == p.on
    ensures Step(s, e, off).on == Onward(p, e).on && (!Onward(p, e).on ==> Onward(p, e) == NONE)
  {
  }

  lemma RoomIsOff(slots: seq<Slot>, idx: nat, need: nat, p: Pending)
    requires need > 0 && Room(slots, idx, need) && Sound(slots, idx, p)
    ensures !p.on
  {
    hide KindOf;
    assert KindOf(slots[idx]) == Deleted || KindOf(slots[idx]) == End;
  }

  /** A scan before its first slot; the records' buffer holds whatever it held. */
  ghost function Fresh(junk: seq<nat>): (r: Scan)
    requires |junk| == UNITS * LFN_MAX
    ensures r.Ok()
  {
    Scan(false, 0, 0, 0, junk)
  }

  /** The entries a lookup sees. */
  ghost function Shown(slots: seq<Slot>, junk: seq<nat>): seq<Loc>
    requires |junk| == UNITS * LFN_MAX
  {
    Entries(slots, 0, Fresh(junk))
  }

  ghost predicate SoundDir(slots: seq<Slot>) {
    Sound(slots, 0, NONE)
  }

  /** What a sound directory shows does not depend on the scan's uninitialised buffer. */
  lemma ShownSame(slots: seq<Slot>, junk: seq<nat>, junk': seq<nat>)
    requires SoundDir(slots) && |junk| == |junk'| == UNITS * LFN_MAX
    ensures Shown(slots, junk) == Shown(slots, junk')
  {
    AgreeEntries(slots, 0, Fresh(junk), Fresh(junk'), NONE);
  }

  /**
   After a new entry is written where there is room, a lookup of its name finds
   it, every other name resolves as before, and the directory is still sound.
   */
  lemma InsertFinds(slots: seq<Slot>, idx: nat, recs: seq<Slot>, short: Slot, name: Bytes, junk: seq<nat>, other: Bytes)
    requires NewEntry(recs, short, name) && |recs| <= LFN_MAX && Room(slots, idx, |recs| + 1) && idx + |recs| + 1 <= |slots|
    requires Open(slots, 0, idx) && SoundDir(slots) && |junk| == UNITS * LFN_MAX
    requires Find(Shown(slots, junk), name).Missing?
    ensures SoundDir(WithNew(slots, idx, recs, short))
    ensures NameEq(NewLoc(recs, short, name, idx).name, name) ==>
              Find(Shown(WithNew(slots, idx, recs, short), junk), name) == Hit(NewLoc(recs, short, name, idx))
    ensures !NameEq(NewLoc(recs, short, name, idx).name, other) ==>
              Find(Shown(WithNew(slots, idx, recs, short), junk), other) == Find(Shown(slots, junk), other)
  {
    hide NewLoc, NameEq, NewEntry, Room, Sound, Entries, Before, ScanAt;
    var s := Fresh(junk);
    InsertFrom(slots, idx, recs, short, name, 0, s, NONE);
    var a, b, x := Before(slots, 0, idx, s), Entries(slots, idx, ScanAt(slots, 0, idx, s)), NewLoc(recs, short, name, idx);
    FindSplit(a, b, name);
    FindSplit(a, b, other);
    FindSplit(a + [x], b, name);
    FindSplit(a + [x], b, other);
    FindSplit(a, [x], name);
    FindSplit(a, [x], other);
  }

  /** Slots behind an end mark are never shown: an entry written there changes no lookup. */
  lemma {:induction false} HiddenBehindEnd(a: seq<Slot>, b: seq<Slot>, k: nat, e: nat, s: Scan)
    requires k <= e < |a| == |b| && KindOf(a[e]) == End && s.Ok()
    requires forall j :: k <= j <= e ==> a[j] == b[j]
    ensures Entries(a, k, s) == Entries(b, k, s)
    decreases e - k
  {
    hide KindOf, Step, LocOf;
    if k < e && KindOf(a[k]) != End {
      HiddenBehindEnd(a, b, k + 1, e, Step(s, a[k], k * SLOT));
    }
  }

  // ----- Short names -----

  function RawOf(e: Slot): Bytes {
    e[..11]
  }

  /** Slot i is a live entry or label before the first end mark. */
  ghost predicate LiveShort(slots: seq<Slot>, i: nat) {
    i < |slots| && Open(slots, 0, i) && KindOf(slots[i]) != End && KindOf(slots[i]) != Deleted && slots[i][11] != ATTR_LFN
  }

  ghost predicate UniqueShorts(slots: seq<Slot>) {
    forall i: nat, j: nat :: i < j && LiveShort(slots, i) && LiveShort(slots, j) ==> RawOf(slots[i]) != RawOf(slots[j])
  }

  ghost predicate HasShort(slots: seq<Slot>, raw: Bytes) {
    exists i: nat :: LiveShort(slots, i) && RawOf(slots[i]) == raw
  }

  /** Short names stay unique when the new one is not in use. */
  lemma InsertUnique(slots: seq<Slot>, idx: nat, recs: seq<Slot>, short: Slot)
    requires UniqueShorts(slots) && !HasShort(slots, RawOf(short)) && Room(slots, idx, |recs| + 1) && idx + |recs| + 1 <= |slots|
    requires Open(slots, 0, idx) && forall i :: 0 <= i < |recs| ==> KindOf(recs[i]) == Record
    ensures UniqueShorts(WithNew(slots, idx, recs, short))
  {
    hide KindOf;
    var slots' := WithNew(slots, idx, recs, short);
    forall i: nat | LiveShort(slots', i)
      ensures i == idx + |recs| || (LiveShort(slots, i) && slots'[i] == slots[i])
    {
      if i < idx {
        assert slots'[i] == slots[i];
        assert forall j :: 0 <= j < i ==> slots'[j] == slots[j];
      } else if i < idx + |recs| {
        assert KindOf(slots'[i]) == Record;
        RecordAttr(slots'[i]);
      } else if i > idx + |recs| {
        LiveBehind(slots, idx, recs, short, i);
      }
    }
  }

  lemma RecordAttr(e: Slot)
    requires KindOf(e) == Record
    ensures e[11] == ATTR_LFN
  {
  }

  lemma LiveBehind(slots: seq<Slot>, idx: nat, recs: seq<Slot>, short: Slot, i: nat)
    requires Room(slots, idx, |recs| + 1) && idx + |recs| + 1 <= |slots| && Open(slots, 0, idx)
    requires i > idx + |recs| && LiveShort(WithNew(slots, idx, recs, short), i)
    ensures LiveShort(slots, i) && WithNew(slots, idx, recs, short)[i] == slots[i]
  {
    hide KindOf;
    var slots' := WithNew(slots, idx, recs, short);
    assert slots'[i] == slots[i];
    assert KindOf(slots[i]) != End;
    assert KindOf(slots[idx]) == Deleted;
    forall j | 0 <= j < i
      ensures KindOf(slots[j]) != End
    {
      if j >= idx + |recs| + 1 {
        assert slots'[j] == slots[j] && KindOf(slots'[j]) != End;
      } else if j >= idx {
        assert KindOf(slots[j]) == Deleted;
      }
    }
  }
}
