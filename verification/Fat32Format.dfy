/**
 The on-disk format in examples, written out in bytes: entries, long-name
 records, checksums, short names, FSInfo (Microsoft FAT32 File System
 Specification, version 1.03; src/kernel/fs/fat32.c:192-210, 495-693, 789-984).
 */
module Fat32Format {
  import opened FlatBytes
  import opened LittleEndian
  import opened Fat32Layout
  import opened Fat32Volume
  import opened Fat32Slots
  import opened Fat32Names
  import opened Fat32Scan
  import opened Fat32Short
  import opened Fat32File

  // ----- A short entry -----

  /** HELLO.TXT, displayed in the case that byte 12 says, with its cluster in bytes 26, 27, 20, 21 and its size in 28 to 31. */
  function Hello(nt: Byte): (e: Slot) {
    [72, 69, 76, 76, 79, 32, 32, 32, 84, 88, 84] + [0x20, nt, 0, 0, 0, 0, 0, 0, 0]
    + [2, 0, 0, 0, 0, 0, 0x34, 0x12, 0x78, 0x56, 0x34, 0x12]
  }

  lemma HelloFields(nt: Byte)
    ensures var e := Hello(nt);
            && KindOf(e) == Entry && SlotClus(e) == 0x2_1234 && SlotSize(e) == 0x1234_5678 && e[11] == ATTR_ARCH
            && RawOf(e) == [72, 69, 76, 76, 79, 32, 32, 32, 84, 88, 84]
  {
  }

  lemma HelloNames()
    ensures ShortName(Hello(0)) == [72, 69, 76, 76, 79, 46, 84, 88, 84]
    ensures ShortName(Hello(0x08)) == [104, 101, 108, 108, 111, 46, 84, 88, 84]
    ensures ShortName(Hello(0x10)) == [72, 69, 76, 76, 79, 46, 116, 120, 116]
  {
    hide Hello, ShortName;
    HelloName(0, false, false);
    HelloName(0x08, true, false);
    HelloName(0x10, false, true);
  }

  lemma HelloName(nt: Byte, lowBase: bool, lowExt: bool)
    requires lowBase == (nt / 8 % 2 == 1) && lowExt == (nt / 16 % 2 == 1)
    ensures ShortName(Hello(nt)) == (if lowBase then [104, 101, 108, 108, 111] else [72, 69, 76, 76, 79]) + [46]
                                    + if lowExt then [116, 120, 116] else [84, 88, 84]
  {
    HelloField(nt);
    assert Hello(nt)[12] == nt;
    hide Hello, Field;
  }

  lemma HelloField(nt: Byte)
    ensures Field(Hello(nt), 0, 8, false) == [72, 69, 76, 76, 79] && Field(Hello(nt), 8, 11, false) == [84, 88, 84]
    ensures Field(Hello(nt), 0, 8, true) == [104, 101, 108, 108, 111] && Field(Hello(nt), 8, 11, true) == [116, 120, 116]
  {
    var e := Hello(nt);
    forall lower: bool
      ensures Field(e, 5, 8, lower) == [] && Field(e, 11, 11, lower) == []
      ensures Field(e, 3, 8, lower) == (if lower then [108, 111] else [76, 79])
      ensures Field(e, 0, 8, lower) == if lower then [104, 101, 108, 108, 111] else [72, 69, 76, 76, 79]
      ensures Field(e, 8, 11, lower) == if lower then [116, 120, 116] else [84, 88, 84]
    {
      assert Field(e, 4, 8, lower) == [if lower then 111 else 79];
      assert Field(e, 2, 8, lower) == [if lower then 108 else 76] + Field(e, 3, 8, lower);
      assert Field(e, 1, 8, lower) == [if lower then 101 else 69] + Field(e, 2, 8, lower);
      assert Field(e, 10, 11, lower) == [if lower then 116 else 84];
      assert Field(e, 9, 11, lower) == [if lower then 120 else 88] + Field(e, 10, 11, lower);
    }
  }

  lemma HelloLoc(junk: seq<nat>)
    requires |junk| == UNITS * LFN_MAX
    ensures KindOf(Hello(0)) == Entry
    ensures LocOf(Fresh(junk), Hello(0), 0) == Loc(0, 0, 0x2_1234, 0x1234_5678, ATTR_ARCH, [72, 69, 76, 76, 79, 46, 84, 88, 84])
  {
    hide Hello, ShortName, CStr;
    HelloFields(0);
    HelloNames();
  }

  /** A directory that holds only that entry shows it. */
  lemma HelloShown(junk: seq<nat>)
    requires |junk| == UNITS * LFN_MAX
    ensures Shown([Hello(0), Zeros(SLOT)], junk)
            == [Loc(0, 0, 0x2_1234, 0x1234_5678, ATTR_ARCH, [72, 69, 76, 76, 79, 46, 84, 88, 84])]
  {
    hide Hello, LocOf, KindOf;
    HelloLoc(junk);
    Kinds(Zeros(SLOT));
    var s := [Hello(0), Zeros(SLOT)];
    assert Entries(s, 1, Fresh(junk).Off()) == [];
  }

  /** The kinds of slots: by the first byte, then by the attribute. */
  lemma Kinds(e: Slot)
    ensures e[0] == 0 ==> KindOf(e) == End
    ensures e[0] == 0xe5 ==> KindOf(e) == Deleted
    ensures e[0] !in {0, 0xe5} && e[11] == 0x0f ==> KindOf(e) == Record
    ensures e[0] !in {0, 0xe5} && e[11] in {0x08, 0x28} ==> KindOf(e) == Label
    ensures e[0] !in {0, 0xe5} && e[11] in {0, 0x01, 0x02, 0x04, 0x10, 0x20, 0x30} ==> KindOf(e) == Entry
  {
  }

  // ----- A long name -----

  /** abcdefghijklmnop: sixteen characters, so two records. */
  const LONG: Bytes := [97, 98, 99, 100, 101, 102, 103, 104, 105, 106, 107, 108, 109, 110, 111, 112]

  function SecondRecord(sum: Byte): (e: Slot) {
    [0x42, 110, 0, 111, 0, 112, 0, 0, 0, 255, 255, 15, 0, sum, 255, 255]
    + [255, 255, 255, 255, 255, 255, 255, 255, 255, 255, 0, 0, 255, 255, 255, 255]
  }

  function FirstRecord(sum: Byte): (e: Slot) {
    [1, 97, 0, 98, 0, 99, 0, 100, 0, 101, 0, 15, 0, sum, 102, 0]
    + [103, 0, 104, 0, 105, 0, 106, 0, 107, 0, 0, 0, 108, 0, 109, 0]
  }

  lemma LongRecords(sum: Byte)
    ensures AreRecords([SecondRecord(sum), FirstRecord(sum)], LONG, sum)
  {
    FirstIs(sum);
    SecondIs(sum);
    hide FirstRecord, SecondRecord, IsRecord;
  }

  lemma FirstIs(sum: Byte)
    ensures IsRecord(FirstRecord(sum), LONG, sum, 2, 1)
  {
    forall k | 0 <= k < UNITS
      ensures Get16(FirstRecord(sum), LfnOff(k)) == Unit(LONG, k)
    {
      if k < 5 {
      } else if k < 11 {
      }
    }
  }

  lemma SecondIs(sum: Byte)
    ensures IsRecord(SecondRecord(sum), LONG, sum, 2, 2)
  {
    forall k | 0 <= k < UNITS
      ensures Get16(SecondRecord(sum), LfnOff(k)) == Unit(LONG, UNITS + k)
    {
      if k < 5 {
      } else if k < 11 {
      }
    }
  }

  lemma SumFirst(raw: Bytes)
    ensures SumTo(raw, 0) == 0
  {
  }

  /** One byte more: the sum rotates right by one bit, and the byte is added. */
  lemma SumNext(raw: Bytes, i: nat)
    requires i < |raw|
    ensures SumTo(raw, i + 1) == (SumTo(raw, i) % 2 * 128 + SumTo(raw, i) / 2 + raw[i]) % 256
  {
  }

  lemma SumStep(raw: Bytes, i: nat, sum: nat, b: nat, next: nat)
    requires i < |raw| && SumTo(raw, i) == sum && raw[i] == b && next == (sum % 2 * 128 + sum / 2 + b) % 256
    ensures SumTo(raw, i + 1) == next
  {
    SumNext(raw, i);
  }

  /** The checksum of HELLO   TXT. */
  lemma HelloSum()
    ensures ShortSum(Hello(0)) == 241
  {
    hide SumTo;
    var e := Hello(0);
    SumFirst(e);
    SumStep(e, 0, 0, 72, 72);
    SumStep(e, 1, 72, 69, 105);
    SumStep(e, 2, 105, 76, 0);
    SumStep(e, 3, 0, 76, 76);
    SumStep(e, 4, 76, 79, 117);
    SumStep(e, 5, 117, 32, 218);
    SumStep(e, 6, 218, 32, 141);
    SumStep(e, 7, 141, 32, 230);
    SumStep(e, 8, 230, 84, 199);
    SumStep(e, 9, 199, 88, 59);
    SumStep(e, 10, 59, 84, 241);
  }

  /** Records belong to the entry behind them exactly if they carry its checksum; else the short name is displayed. */
  lemma WhoseRecords(st: Scan, e: Slot)
    requires st.Ok()
    ensures !st.on || st.max == 0 || st.sum != ShortSum(e) ==> Display(st, e) == CStr(ShortName(e))
    ensures st.on && st.max > 0 && st.sum == ShortSum(e) ==> Display(st, e) == CStr(LfnName(st.units, 0, st.max * UNITS, 0))
  {
  }

  /** Records in front of a deleted slot, a label or another entry are forgotten: what follows shows its short name. */
  lemma Forgotten(slots: seq<Slot>, k: nat, st: Scan)
    requires k + 1 < |slots| && st.Ok() && KindOf(slots[k]) in {Deleted, Label, Entry} && KindOf(slots[k + 1]) == Entry
    ensures var es := Entries(slots, k, st);
            var n := if KindOf(slots[k]) == Entry then 1 else 0;
            n < |es| && es[n].name == CStr(ShortName(slots[k + 1])) && es[n].lfnOff == es[n].off == (k + 1) * SLOT
  {
    hide ShortName, KindOf;
  }

  // ----- Choosing a short name -----

  /** The number goes behind as many characters of the base as leave room for it. */
  lemma TildeExample()
    ensures TildeRaw([109, 121, 32, 102, 105, 108, 101, 115], [116, 101, 120, 116], 12)
            == [77, 89, 95, 70, 73, 126, 49, 50, 84, 69, 88]
  {
    var base: Bytes, ext: Bytes := [109, 121, 32, 102, 105, 108, 101, 115], [116, 101, 120, 116];
    hide Clean, Digits, ValidChar, Upper, Pad;
    CleanExample();
    Twelve();
    TildeParts(Clean(base, 31), Clean(ext, 7), Digits(12));
  }

  lemma CleanExample()
    ensures Clean([109, 121, 32, 102, 105, 108, 101, 115], 31) == [77, 89, 95, 70, 73, 76, 69, 83]
    ensures Clean([116, 101, 120, 116], 7) == [84, 69, 88, 84]
  {
    hide Clean, ValidChar, Upper;
    CleanIs([109, 121, 32, 102, 105, 108, 101, 115], 31);
    CleanIs([116, 101, 120, 116], 7);
    forall c: Byte
      ensures 97 <= c <= 122 ==> Upper(c) == c - 32 && ValidChar(Upper(c))
      ensures c == 32 ==> !ValidChar(Upper(c))
    {
      CaseOf(c);
      ShortChars(Upper(c));
    }
  }

  lemma Twelve()
    ensures Digits(12) == [49, 50]
  {
    assert Digits(12) == Digits(1) + [50];
  }

  lemma TildeParts(cb: Bytes, ce: Bytes, num: Bytes)
    requires cb == [77, 89, 95, 70, 73, 76, 69, 83] && ce == [84, 69, 88, 84] && num == [49, 50]
    ensures Pad(cb[..5] + [TILDE] + num, 8) + Pad(ce[..3], 3) == [77, 89, 95, 70, 73, 126, 49, 50, 84, 69, 88]
  {
    assert Pad(cb[..5] + [TILDE] + num, 8) == [77, 89, 95, 70, 73, 126, 49, 50];
    assert Pad(ce[..3], 3) == [84, 69, 88];
  }

  /** A name is split at its last dot, unless that is its first or last character. */
  lemma SplitExamples()
    ensures Split([97, 46, 98, 46, 99]) == ([97, 46, 98], [99])
    ensures Split([46, 97]) == ([46, 97], []) && Split([97, 46]) == ([97, 46], [])
  {
    var n := [97, 46, 98, 46, 99];
    assert DotAt(n, 4) == 3 && n[..3] == [97, 46, 98] && n[4..] == [99];
    assert DotAt([46, 97], 1) == 0;
  }

  /** The characters a short name can hold: letters, digits and sixteen others. */
  lemma ShortChars(c: Byte)
    ensures 65 <= c <= 90 || 97 <= c <= 122 || 48 <= c <= 57 ==> ValidChar(c)
    ensures c in MARKS ==> ValidChar(c)
    ensures c < 33 || c > 126 || c in NOT_MARKS ==> !ValidChar(c)
  {
  }

  // $ % ' - _ @ ~ ` ! ( ) { } ^ # &
  const MARKS := {36, 37, 39, 45, 95, 64, 126, 96, 33, 40, 41, 123, 125, 94, 35, 38}
  // " * + , . / : ; < = > ? [ backslash ] |
  const NOT_MARKS := {34, 42, 43, 44, 46, 47, 58, 59, 60, 61, 62, 63, 91, 92, 93, 124}

  /** A new entry, byte by byte: name, attribute, three stamps of one date, cluster and size. */
  lemma NewEntryBytes()
    ensures MakeSlot([72, 69, 76, 76, 79, 32, 32, 32, 84, 88, 84], ATTR_ARCH, 0, 0x2_1234, 0x1234_5678)
            == [72, 69, 76, 76, 79, 32, 32, 32, 84, 88, 84, 0x20, 0, 0] + [0, 0, 0x21, 0x5c, 0x21, 0x5c]
               + [2, 0, 0, 0, 0x21, 0x5c, 0x34, 0x12] + [0x78, 0x56, 0x34, 0x12]
  {
  }

  // ----- FSInfo -----

  /** RRaA at 0 and rrAa at 484 make an FSInfo sector; its counts are the words at 488 and 492. */
  lemma InfoBytes(sec: Bytes)
    requires |sec| == SECTOR
    ensures DecodeInfo(sec).Info? <==>
            sec[0..4] == [0x52, 0x52, 0x61, 0x41] && sec[484..488] == [0x72, 0x72, 0x41, 0x61]
    ensures DecodeInfo(sec).Info? && sec[488..496] == [1, 2, 0, 0, 3, 4, 0, 0] ==> DecodeInfo(sec) == Info(0x201, 0x403)
  {
    assert sec[0..4] == [sec[0], sec[1], sec[2], sec[3]];
    assert sec[484..488] == [sec[484], sec[485], sec[486], sec[487]];
    assert sec[488..496] == [sec[488], sec[489], sec[490], sec[491], sec[492], sec[493], sec[494], sec[495]];
  }
}
