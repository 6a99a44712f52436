/**
 Short names: the 8.3 form of a name, the numbered forms, and the short entry
 itself (src/kernel/fs/fat32.c:517-528, 570-609, 813-931, 969-984).
 */
module Fat32Short {
  import opened Errors
  import opened FlatBytes
  import opened LittleEndian
  import opened Fat32Slots
  import opened Fat32File
  import opened Fat32Names
  import opened Fat32Scan

  const BLANK: Byte := 32
  const DOT: Byte := 46
  const TILDE: Byte := 126
  const UNDERSCORE: Byte := 95
  const DATE := 0x5c21

  /** fat32_valid_char: letters, digits and $%'-_@~`!(){}^#& */
  predicate ValidChar(c: Byte) {
    || 65 <= c <= 90 || 97 <= c <= 122 || 48 <= c <= 57
    || c in {36, 37, 39, 45, 95, 64, 126, 96, 33, 40, 41, 123, 125, 94, 35, 38}
  }

  /** The last dot at or before i, or 0: a leading dot does not count. */
  function DotAt(name: Bytes, i: nat): (dot: nat)
    requires i < |name|
    ensures dot <= i && (dot > 0 ==> name[dot] == DOT)
    ensures forall k :: dot < k <= i ==> name[k] != DOT
  {
    if i == 0 then 0 else if name[i] == DOT then i else DotAt(name, i - 1)
  }

  /** Base and extension: split at the last dot unless it is the first or last character. */
  function Split(name: Bytes): (r: (Bytes, Bytes))
    requires name != []
    ensures r.1 == [] ==> r.0 == name
    ensures r.1 != [] ==> name == r.0 + [DOT] + r.1 && r.0 != [] && DOT !in r.1
    ensures r.1 == [] <==> name[|name| - 1] == DOT || forall k :: 0 < k < |name| ==> name[k] != DOT
  {
    var dot := DotAt(name, |name| - 1);
    if 0 < dot < |name| - 1 then (name[..dot], name[dot + 1..]) else (name, [])
  }

  predicate AllValid(s: Bytes) {
    forall i :: 0 <= i < |s| ==> ValidChar(s[i])
  }

  predicate Fits(base: Bytes, ext: Bytes) {
    1 <= |base| <= 8 && |ext| <= 3 && AllValid(base) && AllValid(ext)
  }

  predicate HasLower(name: Bytes) {
    exists i :: 0 <= i < |name| && 97 <= name[i] <= 122
  }

  function UpperAll(s: Bytes): (r: Bytes)
    ensures |r| == |s| && forall i :: 0 <= i < |s| ==> r[i] == Upper(s[i])
  {
    seq(|s|, i requires 0 <= i < |s| => Upper(s[i]))
  }

  /** Names are the same exactly if they are in upper case. */
  lemma NameEqIs(a: Bytes, b: Bytes)
    ensures NameEq(a, b) <==> UpperAll(a) == UpperAll(b)
  {
    if UpperAll(a) == UpperAll(b) {
      forall i | 0 <= i < |a|
        ensures Upper(a[i]) == Upper(b[i])
      {
        assert UpperAll(a)[i] == UpperAll(b)[i];
      }
    }
  }

  function Pad(s: Bytes, n: nat): (r: Bytes)
    requires |s| <= n
    ensures |r| == n && r[..|s|] == s && forall i :: |s| <= i < n ==> r[i] == BLANK
  {
    s + seq(n - |s|, _ => BLANK)
  }

  function PlainRaw(base: Bytes, ext: Bytes): (r: Bytes)
    requires |base| <= 8 && |ext| <= 3
    ensures |r| == 11
  {
    Pad(UpperAll(base), 8) + Pad(UpperAll(ext), 3)
  }

  /** Upper case, with an underscore for what a short name cannot hold; at most max characters. */
  function Clean(s: Bytes, max: nat): (r: Bytes)
    ensures |r| <= |s| && |r| <= max && AllValid(r) && (s != [] && max > 0 ==> r != [])
  {
    if s == [] || max == 0 then []
    else [if ValidChar(Upper(s[0])) then Upper(s[0]) else UNDERSCORE] + Clean(s[1..], max - 1)
  }

  /** The decimal digits of i. */
  /** The number a row of decimal digits stands for. */
  function Value(d: Bytes): nat {
    if d == [] then 0 else 10 * Value(d[..|d| - 1]) + if d[|d| - 1] >= 48 then d[|d| - 1] - 48 else 0
  }

  /** The digits are those of the number, and the first is not 0. */
  lemma {:induction false} DigitsValue(i: nat)
    ensures Value(Digits(i)) == i && (forall k :: 0 <= k < |Digits(i)| ==> 48 <= Digits(i)[k] <= 57)
    ensures i > 0 ==> Digits(i)[0] != 48
  {
    var d := Digits(i);
    if i >= 10 {
      DigitsValue(i / 10);
      assert d[..|d| - 1] == Digits(i / 10);
    } else {
      assert d[..0] == [];
    }
  }

  /** Cleaning takes the first max characters, in upper case, with an underscore for each that a short name cannot hold. */
  lemma {:induction false} CleanIs(s: Bytes, max: nat)
    ensures |Clean(s, max)| == Min(|s|, max)
    ensures forall i :: 0 <= i < |Clean(s, max)| ==> Clean(s, max)[i] == if ValidChar(Upper(s[i])) then Upper(s[i]) else UNDERSCORE
  {
    if s != [] && max > 0 {
      CleanIs(s[1..], max - 1);
    }
  }

  function Digits(i: nat): (r: Bytes)
    ensures r != [] && AllValid(r)
    ensures i < 10 ==> |r| == 1
    ensures i < 1000 ==> |r| <= 3
  {
    if i < 10 then [48 + i] else Digits(i / 10) + [48 + i % 10]
  }

  /** The i-th numbered short name. */
  function TildeRaw(base: Bytes, ext: Bytes, i: nat): (r: Bytes)
    requires base != [] && 1 <= i < 1000
    ensures |r| == 11
  {
    var num := Digits(i);
    var cb, ce := Clean(base, 31), Clean(ext, 7);
    var use := if |cb| < 7 - |num| then |cb| else 7 - |num|;
    Pad(cb[..use] + [TILDE] + num, 8) + Pad(ce[..Min(|ce|, 3)], 3)
  }

  /** A short name whose first byte marks neither an end nor a deleted slot. */
  predicate GoodRaw(raw: Bytes) {
    |raw| == 11 && ValidChar(raw[0])
  }

  lemma RawsAreGood(base: Bytes, ext: Bytes, i: nat)
    requires base != []
    ensures Fits(base, ext) ==> GoodRaw(PlainRaw(base, ext))
    ensures 1 <= i < 1000 ==> GoodRaw(TildeRaw(base, ext, i))
  {
    if Fits(base, ext) {
      assert PlainRaw(base, ext)[0] == UpperAll(base)[0] == Upper(base[0]);
    }
    if 1 <= i < 1000 {
      var cb := Clean(base, 31);
      assert TildeRaw(base, ext, i)[0] == cb[0];
    }
  }

  // ----- The short entry -----

  /** fat32_make_slot. */
  function MakeSlot(raw: Bytes, attr: Byte, nt: Byte, clus: nat, size: nat): (e: Slot)
    requires |raw| == 11
    ensures RawOf(e) == raw && e[0] == raw[0] && e[11] == attr && e[12] == nt
  {
    raw + [attr, nt, 0] + Put16(0) + Put16(DATE) + Put16(DATE) + Put16(clus / 0x1_0000 % 0x1_0000)
    + Put16(0) + Put16(DATE) + Put16(clus % 0x1_0000) + Put32(size)
  }

  lemma MakeSlotBytes(raw: Bytes, attr: Byte, nt: Byte, clus: nat, size: nat)
    requires |raw| == 11
    ensures var e, hi, lo, len := MakeSlot(raw, attr, nt, clus, size), Put16(clus / 0x1_0000 % 0x1_0000),
              Put16(clus % 0x1_0000), Put32(size);
            && e[20] == hi[0] && e[21] == hi[1] && e[26] == lo[0] && e[27] == lo[1]
            && e[28] == len[0] && e[29] == len[1] && e[30] == len[2] && e[31] == len[3]
  {
    hide Put16, Put32;
  }

  /** The entry carries its cluster and size. */
  lemma MakeSlotDecodes(raw: Bytes, attr: Byte, clus: nat, size: nat)
    requires GoodRaw(raw) && (attr == ATTR_DIR || attr == ATTR_ARCH) && clus < U32 && size < U32
    ensures var e := MakeSlot(raw, attr, 0, clus, size);
            SlotClus(e) == clus && SlotSize(e) == size && KindOf(e) == Entry && ShortSum(e) == ShortSum(raw)
  {
    hide MakeSlot, Put16, Put32, ShortSum, SlotClus;
    MakeSlotBytes(raw, attr, 0, clus, size);
    LittleEndian.Bytes4(size);
    PutIs(size);
    ClusIs(MakeSlot(raw, attr, 0, clus, size), clus);
    SumIs(MakeSlot(raw, attr, 0, clus, size), raw);
  }

  lemma SumIs(e: Slot, raw: Bytes)
    requires |raw| == 11 && RawOf(e) == raw
    ensures ShortSum(e) == ShortSum(raw)
  {
    SumPrefix(e, raw, 11);
  }

  lemma PutIs(v: nat)
    ensures Put32(v) == [v % 0x100, v / 0x100 % 0x100, v / 0x1_0000 % 0x100, v / 0x100_0000 % 0x100]
  {
  }

  lemma ClusIs(e: Slot, clus: nat)
    requires clus < U32
    requires e[20] == Put16(clus / 0x1_0000 % 0x1_0000)[0] && e[21] == Put16(clus / 0x1_0000 % 0x1_0000)[1]
    requires e[26] == Put16(clus % 0x1_0000)[0] && e[27] == Put16(clus % 0x1_0000)[1]
    ensures SlotClus(e) == clus
  {
    assert Get16(e, 20) == clus / 0x1_0000;
    assert Get16(e, 26) == clus % 0x1_0000;
  }

  /** A field that holds s, padded with blanks, displays s. */
  lemma {:induction false} FieldIs(e: Slot, i: nat, end: nat, s: Bytes)
    requires i + |s| <= end <= SLOT && e[i..i + |s|] == s && (i + |s| < end ==> e[i + |s|] == BLANK)
    requires BLANK !in s && (i == 0 && s != [] ==> s[0] != 5)
    ensures Field(e, i, end, false) == s
    decreases |s|
  {
    if s != [] {
      assert e[i] == e[i..i + |s|][0] && e[i] in s;
      FieldIs(e, i + 1, end, s[1..]);
    }
  }

  /** An upper-case 8.3 name is its own short entry's display name. */
  lemma PlainShows(name: Bytes, attr: Byte, clus: nat, size: nat)
    requires LeafName(name) && !HasLower(name) && Fits(Split(name).0, Split(name).1)
    ensures ShortName(MakeSlot(PlainRaw(Split(name).0, Split(name).1), attr, 0, clus, size)) == name
  {
    hide Split, AllValid, MakeSlot, PlainRaw, HasLower, Field;
    var base, ext := Split(name).0, Split(name).1;
    var e := MakeSlot(PlainRaw(base, ext), attr, 0, clus, size);
    PlainFields(name, e, base, ext);
    FieldIs(e, 0, 8, base);
    FieldIs(e, 8, 11, ext);
  }

  lemma PlainFields(name: Bytes, e: Slot, base: Bytes, ext: Bytes)
    requires LeafName(name) && !HasLower(name) && (base, ext) == Split(name) && Fits(base, ext) && RawOf(e) == PlainRaw(base, ext)
    ensures |base| <= 8 && |ext| <= 3 && e[0..|base|] == base && e[8..8 + |ext|] == ext
    ensures (|base| < 8 ==> e[|base|] == BLANK) && (8 + |ext| < 11 ==> e[8 + |ext|] == BLANK)
    ensures BLANK !in base && BLANK !in ext && (base != [] ==> base[0] != 5)
  {
    hide Split, HasLower, UpperAll, PlainRaw;
    NoLower(name, base, ext);
    RawBytes(e, base, ext);
  }

  lemma RawBytes(e: Slot, base: Bytes, ext: Bytes)
    requires |base| <= 8 && |ext| <= 3 && UpperAll(base) == base && UpperAll(ext) == ext && RawOf(e) == PlainRaw(base, ext)
    ensures e[0..|base|] == base && e[8..8 + |ext|] == ext
    ensures (|base| < 8 ==> e[|base|] == BLANK) && (8 + |ext| < 11 ==> e[8 + |ext|] == BLANK)
  {
    hide PlainRaw, UpperAll;
    RawFields(base, ext);
    assert forall i :: 0 <= i < 11 ==> e[i] == RawOf(e)[i];
  }

  lemma RawFields(base: Bytes, ext: Bytes)
    requires |base| <= 8 && |ext| <= 3
    ensures var raw := PlainRaw(base, ext);
            && (forall i :: 0 <= i < |base| ==> raw[i] == UpperAll(base)[i])
            && (forall i :: 0 <= i < |ext| ==> raw[8 + i] == UpperAll(ext)[i])
            && (|base| < 8 ==> raw[|base|] == BLANK) && (|ext| < 3 ==> raw[8 + |ext|] == BLANK)
  {
    var a, b := Pad(UpperAll(base), 8), Pad(UpperAll(ext), 3);
    assert forall i :: 0 <= i < |base| ==> a[i] == a[..|base|][i];
    assert forall i :: 0 <= i < |ext| ==> b[i] == b[..|ext|][i];
  }

  lemma NoLower(name: Bytes, base: Bytes, ext: Bytes)
    requires name != [] && (base, ext) == Split(name) && !HasLower(name) && Fits(base, ext)
    ensures UpperAll(base) == base && UpperAll(ext) == ext
    ensures BLANK !in base && BLANK !in ext && base[0] != 5
  {
    forall i | 0 <= i < |base|
      ensures Upper(base[i]) == base[i]
    {
      assert name[i] == base[i];
    }
    forall i | 0 <= i < |ext|
      ensures Upper(ext[i]) == ext[i]
    {
      assert name[|base| + 1 + i] == ext[i];
    }
  }
}
