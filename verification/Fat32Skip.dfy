/**
 An insertion that is lost: a sound directory in which a new name is put behind the
 end mark, where no lookup finds it (src/kernel/fs/fat32.c:1101-1102).
 */
module Fat32Skip {
  import opened FlatBytes
  import opened LittleEndian
  import opened Fat32Slots
  import opened Fat32Names
  import opened Fat32Scan
  import opened Fat32Short
  import opened Fat32Visible

  /** Fifteen entries A to O and one end mark: a full one-sector directory but for its last slot. */
  ghost function Fifteen(i: nat): Slot {
    MakeSlot(Pad([65 + i % 15], 11), ATTR_ARCH, 0, 0, 0)
  }

  ghost function NearlyFull(): (r: seq<Slot>)
    ensures |r| == 16 && (forall i :: 0 <= i < 15 ==> r[i] == Fifteen(i)) && r[15] == Zeros(SLOT)
  {
    seq(15, i requires 0 <= i < 15 => Fifteen(i)) + [Zeros(SLOT)]
  }

  lemma {:induction false} NearlySound(slots: seq<Slot>, k: nat)
    requires |slots| == 16 && k <= 15 && KindOf(slots[15]) == End && forall i :: 0 <= i < 15 ==> KindOf(slots[i]) == Entry
    ensures Sound(slots, k, NONE)
    decreases 15 - k
  {
    hide KindOf;
    if k < 15 {
      NearlySound(slots, k + 1);
    }
  }

  /** It is sound with unique names, and an entry that needs two slots is put past its end mark. */
  lemma SkipHappens()
    ensures SoundDir(NearlyFull()) && UniqueShorts(NearlyFull()) && Open(NearlyFull(), 0, 15)
    ensures PlaceOf(NearlyFull(), 2, 15, true)
  {
    var s := NearlyFull();
    forall i: nat | i < 15
      ensures KindOf(s[i]) == Entry && s[i][0] == 65 + i
    {
      FifteenKind(i);
    }
    hide KindOf, Fifteen, MakeSlot, RawOf;
    NearlySound(s, 0);
    NearlyUnique(s);
  }

  lemma FifteenKind(i: nat)
    requires i < 15
    ensures KindOf(Fifteen(i)) == Entry && Fifteen(i)[0] == 65 + i
  {
    var raw := Pad([65 + i % 15], 11);
    assert raw[0] == raw[..1][0];
  }

  lemma NearlyUnique(s: seq<Slot>)
    requires |s| == 16 && forall i: nat :: i < 15 ==> s[i][0] == 65 + i
    requires KindOf(s[15]) == End
    ensures UniqueShorts(s)
  {
    hide KindOf;
    forall i: nat, j: nat | i < j && LiveShort(s, i) && LiveShort(s, j)
      ensures RawOf(s[i]) != RawOf(s[j])
    {
      assert RawOf(s[i])[0] != RawOf(s[j])[0];
    }
  }

  /** The name z, which needs a long-name record for its lower case. */
  const LETTER: Bytes := [122]

  function Record(sum: Byte): (e: Slot) {
    [0x41, 122, 0, 0, 0, 255, 255, 255, 255, 255, 255, 15, 0, sum, 255, 255]
        + [255, 255, 255, 255, 255, 255, 255, 255, 255, 255, 0, 0, 255, 255, 255, 255]
  }

  lemma RecordIs(sum: Byte)
    ensures IsRecord(Record(sum), LETTER, sum, 1, 1) && AreRecords([Record(sum)], LETTER, sum)
  {
    var e := Record(sum);
    forall k | 0 <= k < UNITS
      ensures Get16(e, LfnOff(k)) == Unit(LETTER, k)
    {
      if k < 5 {
      } else if k < 11 {
      }
    }
  }

  function Raw(): (r: Bytes)
    ensures |r| == 11 && r[0] == 90
  {
    PlainRaw(LETTER, [])
  }

  function Short(): Slot {
    MakeSlot(Raw(), ATTR_ARCH, 0, 0, 0)
  }

  /** The insertion that fat32_dir_insert makes for it: past the end mark, in a new cluster of one sector. */
  ghost function Lost(): Insertion {
    Insertion(15, true, 16, 16, [Record(ShortSum(Short()))], Short())
  }

  ghost function AfterLost(): seq<Slot> {
    WithNew(NearlyFull() + Ends(16), 16, Lost().recs, Lost().short)
  }

  lemma LostChosen()
    ensures Chosen(NearlyFull(), LETTER, Raw(), true)
  {
    var s := NearlyFull();
    assert Split(LETTER) == (LETTER, []);
    assert HasLower(LETTER) by {
      assert 97 <= LETTER[0] <= 122;
    }
    forall i: nat | LiveShort(s, i)
      ensures RawOf(s[i]) != Raw()
    {
      assert i < 15;
      FifteenKind(i);
      assert RawOf(s[i])[0] == 65 + i;
    }
  }

  lemma LostNew()
    ensures NewEntry([Record(ShortSum(Short()))], Short(), LETTER) && RawOf(Short()) == Raw()
  {
    hide MakeSlot, Record, ShortSum, AreRecords, Raw, KindOf;
    assert GoodRaw(Raw()) by {
      RawsAreGood(LETTER, [], 1);
      assert Fits(LETTER, []);
    }
    MakeSlotDecodes(Raw(), ATTR_ARCH, 0, 0);
    RecordIs(ShortSum(Short()));
  }

  lemma LostInserted()
    ensures Inserted(NearlyFull(), AfterLost(), LETTER, Lost()) && Skips(NearlyFull(), Lost())
  {
    hide NearlyFull, Record, Short, Raw, NewEntry, KindOf, Open, PlaceOf, Chosen, MakeSlot, ShortSum, Sound, WithNew;
    SkipHappens();
    LostChosen();
    LostNew();
  }

  /** The entries of the directory are named by one capital each. */
  lemma {:induction false} NoLetter(k: nat, st: Scan)
    requires k <= 15 && st.Ok() && !st.on
    ensures Find(Entries(NearlyFull(), k, st), LETTER).Missing?
    decreases 15 - k
  {
    var s := NearlyFull();
    if k < 15 {
      FifteenKind(k);
      FifteenName(k, st);
      NoLetter(k + 1, Step(st, s[k], k * SLOT));
      hide NearlyFull, Fifteen, KindOf, Display;
      StepEntries(s, k, st);
    }
  }

  lemma FifteenName(i: nat, st: Scan)
    requires i < 15 && st.Ok() && !st.on
    ensures !NameEq(Display(st, Fifteen(i)), LETTER)
  {
    var raw := Pad([65 + i % 15], 11);
    var e := Fifteen(i);
    assert raw[0] == raw[..1][0] && e[0] == 65 + i && RawOf(e) == raw && e[8] == RawOf(e)[8] && e[1] == RawOf(e)[1];
    assert Field(e, 8, 11, false) == [] && Field(e, 1, 8, false) == [];
  }

  /** A lookup of the inserted name misses. */
  lemma SkipMisses(junk: seq<nat>)
    requires |junk| == UNITS * LFN_MAX
    ensures SoundDir(NearlyFull()) && UniqueShorts(NearlyFull()) && Find(Shown(NearlyFull(), junk), LETTER).Missing?
    ensures Inserted(NearlyFull(), AfterLost(), LETTER, Lost()) && Find(Shown(AfterLost(), junk), LETTER).Missing?
  {
    hide NearlyFull, Lost, AfterLost, Inserted, Skips, Find, Entries;
    SkipHappens();
    LostInserted();
    NoLetter(0, Fresh(junk));
    InsertedFound(NearlyFull(), AfterLost(), LETTER, Lost(), junk);
  }
}
