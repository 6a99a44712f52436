/**
 Inserting into a directory and making one: choosing a short name, growing the
 directory, writing the slots (src/kernel/fs/fat32.c:813-931, 1073-1136, 1187-1216).
 */
module Fat32Insert {
  import opened Errors
  import opened FlatBytes
  import opened LittleEndian
  import opened FatMap
  import opened Fat32Layout
  import opened Fat32Data
  import opened Fat32Volume
  import opened Fat32Chain
  import opened Fat32Slots
  import opened Fat32File
  import opened Fat32Names
  import opened Fat32Scan
  import opened Fat32Short
  import opened Fat32Visible
  import opened Fat32Dir

  // ----- Choosing a short name -----

  /** The loops of fat32_make_short that split the name. */
  method SplitName(name: Bytes) returns (base: Bytes, ext: Bytes)
    requires name != []
    ensures (base, ext) == Split(name)
  {
    var i, dot := |name| - 1, 0;
    while i > 0
      invariant 0 <= i < |name| && dot == 0 && DotAt(name, |name| - 1) == DotAt(name, i)
    {
      if name[i] == DOT {
        dot := i;
        break;
      }
      i := i - 1;
    }
    if dot > 0 && dot < |name| - 1 {
      base, ext := name[..dot], name[dot + 1..];
    } else {
      base, ext := name, [];
    }
  }

  method AnyLower(name: Bytes) returns (lower: bool)
    ensures lower == HasLower(name)
  {
    lower := false;
    for i := 0 to |name|
      invariant lower <==> exists j :: 0 <= j < i && 97 <= name[j] <= 122
    {
      if name[i] >= 97 && name[i] <= 122 {
        lower := true;
      }
    }
  }

  method CheckValid(s: Bytes) returns (ok: bool)
    ensures ok == AllValid(s)
  {
    for i := 0 to |s|
      invariant forall j :: 0 <= j < i ==> ValidChar(s[j])
    {
      if !ValidChar(s[i]) {
        return false;
      }
    }
    return true;
  }

  /** The copy that keeps what a short name can hold. */
  method Cleaned(s: Bytes, max: nat) returns (r: Bytes)
    ensures r == Clean(s, max)
  {
    hide Clean, ValidChar, Upper;
    CleanNone(s, max);
    r := [];
    var i := 0;
    while i < |s| && |r| < max
      invariant 0 <= i <= |s| && |r| == i <= max
      invariant r + Clean(s[i..], max - i) == Clean(s, max)
    {
      var c := Upper(s[i]);
      CleanStep(s, i, max);
      r := r + [if ValidChar(c) then c else UNDERSCORE];
      i := i + 1;
    }
    CleanNone(s[i..], max - i);
  }

  lemma CleanNone(s: Bytes, max: nat)
    ensures s == [] || max == 0 ==> Clean(s, max) == []
    ensures s[0..] == s
  {
  }

  lemma CleanStep(s: Bytes, i: nat, max: nat)
    requires i < |s| && i < max
    ensures Clean(s[i..], max - i) == [if ValidChar(Upper(s[i])) then Upper(s[i]) else UNDERSCORE] + Clean(s[i + 1..], max - (i + 1))
  {
    hide ValidChar, Upper;
    assert s[i..][1..] == s[i + 1..];
  }

  /** The digits of a number, collected backwards and then reversed. */
  method Decimal(i: nat) returns (num: Bytes)
    requires i > 0
    ensures num == Digits(i)
  {
    num := [];
    var t: nat := i;
    while t > 0
      invariant t > 0 ==> Digits(t) + num == Digits(i)
      invariant t == 0 ==> num == Digits(i)
    {
      num := [48 + t % 10] + num;
      t := t / 10;
    }
  }

  /** fat32_make_short: the short name, and whether the name needs long-name records too. */
  method MakeShort(sb: Volume, d: nat, name: Bytes) returns (rc: int, raw: Bytes, needLfn: bool)
    requires sb.Valid() && sb.ChainsOk() && LiveDir(sb, d) && name != []
    modifies sb`failed
    ensures sb.Valid() && sb.ChainsOk() && (old(sb.failed) ==> sb.failed) && |raw| == 11
    ensures !sb.failed ==> rc == FAT32_OK || rc == VFS_ERR_NOSPC
    ensures !sb.failed && rc == FAT32_OK ==> Chosen(DirSlots(sb, d), name, raw, needLfn)
    ensures !sb.failed && rc != FAT32_OK ==> Taken(DirSlots(sb, d), Split(name).0, Split(name).1, 1000)
  {
    hide Volume.Valid, Volume.ChainsOk, HasShort, HasLower, AllValid, PlainRaw, TildeRaw, ChainBytes;
    ghost var slots := DirSlots(sb, d);
    var base, ext := SplitName(name);
    needLfn := AnyLower(name);
    var fit := 1 <= |base| <= 8 && |ext| <= 3;
    if fit {
      fit := CheckValid(base);
    }
    if fit {
      fit := CheckValid(ext);
    }
    if fit {
      raw := PlainRaw(base, ext);
      var used := ShortExists(sb, d, raw);
      if !used {
        return FAT32_OK, raw, needLfn;
      }
    }
    rc, raw := NumberedShort(sb, d, base, ext);
    needLfn := needLfn || rc == FAT32_OK;
  }

  /** The second half of fat32_make_short: the first numbered name that is free. */
  method NumberedShort(sb: Volume, d: nat, base: Bytes, ext: Bytes) returns (rc: int, raw: Bytes)
    requires sb.Valid() && sb.ChainsOk() && LiveDir(sb, d) && base != []
    modifies sb`failed
    ensures sb.Valid() && sb.ChainsOk() && (old(sb.failed) ==> sb.failed) && |raw| == 11
    ensures rc == FAT32_OK || rc == VFS_ERR_NOSPC
    ensures !sb.failed && rc == FAT32_OK ==>
              exists i: nat :: 1 <= i < 1000 && FirstFree(DirSlots(sb, d), base, ext, i) && raw == TildeRaw(base, ext, i)
    ensures !sb.failed && rc != FAT32_OK ==> Taken(DirSlots(sb, d), base, ext, 1000)
  {
    hide Volume.Valid, Volume.ChainsOk, HasShort, TildeRaw, ChainBytes;
    var cb := Cleaned(base, 31);
    var ce := Cleaned(ext, 7);
    raw := seq(11, _ => BLANK);
    var i: nat := 1;
    while i < 1000
      invariant 1 <= i <= 1000 && |raw| == 11 && sb.Valid() && sb.ChainsOk() && LiveDir(sb, d) && (old(sb.failed) ==> sb.failed)
      invariant !sb.failed ==> Taken(DirSlots(sb, d), base, ext, i)
    {
      raw := Numbered(base, ext, cb, ce, i);
      var used := ShortExists(sb, d, raw);
      if !used {
        return FAT32_OK, raw;
      }
      i := i + 1;
    }
    rc := VFS_ERR_NOSPC;
  }

  method Numbered(ghost base: Bytes, ghost ext: Bytes, cb: Bytes, ce: Bytes, i: nat) returns (raw: Bytes)
    requires base != [] && 1 <= i < 1000 && cb == Clean(base, 31) && ce == Clean(ext, 7)
    ensures raw == TildeRaw(base, ext, i)
  {
    var num := Decimal(i);
    var head := 8 - 1 - |num|;
    if head < 1 {
      head := 1;
    }
    var use := if |cb| < head then |cb| else head;
    raw := Pad(cb[..use] + [TILDE] + num, 8) + Pad(ce[..Min(|ce|, 3)], 3);
  }

  // ----- Inserting -----

  lemma DirIsLive(ch: Chain)
    requires ch.Good() && !ch.sb.failed && ch.sb.ClusOk(ch.start) && |ch.Content()| < U32
    ensures LiveDir(ch.sb, ch.start) && ch.Content() == ChainBytes(ch.sb.book, ch.sb.clus, ch.start)
    ensures SLOT * |Slots(ch.Content())| == |ch.Content()|
  {
    hide Slots, Volume.Valid, Volume.ChainsOk;
    WholeSlots(ch);
  }

  lemma ZerosAdd(n: nat, m: nat)
    ensures Zeros(n) + Zeros(m) == Zeros(n + m)
  {
  }

  lemma SlotsGrown(b: Bytes, n: nat)
    requires |b| % SLOT == 0
    ensures Slots(b + Zeros(n)) == Slots(b) + Ends(n / SLOT)
  {
    hide Slots;
    SlotsAppended(b, Zeros(n));
    SlotsOfZeros(n);
  }

  /** The growing loop of fat32_dir_insert. */
  method GrowTo(ch: Chain, upto: nat, total0: nat) returns (rc: int, ghost z: nat)
    requires ch.Good() && LiveDir(ch.sb, ch.start) && total0 < U32
    requires !ch.sb.failed ==> total0 == |ch.Content()| && upto * SLOT + ch.sb.g.ClusBytes() < U32
    modifies ch, ch.sb
    ensures ch.Good() && ch.start == old(ch.start) && (old(ch.sb.failed) ==> ch.sb.failed) && rc <= 0
    ensures !ch.sb.failed ==> rc == FAT32_OK || rc == VFS_ERR_NOSPC
    ensures !ch.sb.failed ==> ch.Content() == old(ch.Content()) + Zeros(z) && LiveDir(ch.sb, ch.start)
    ensures !ch.sb.failed && rc == FAT32_OK ==> upto * SLOT <= |ch.Content()|
    ensures rc == FAT32_OK ==> upto * SLOT < U32
    ensures !ch.sb.failed ==> Kept(old(ch.sb.book), old(ch.sb.clus), ch.sb.book, ch.sb.clus, ch.start)
    ensures !ch.sb.failed && old(ch.sb.FreeExact()) ==> ch.sb.FreeExact()
    ensures !ch.sb.failed && rc != FAT32_OK ==> Full(ch.sb.fat)
    ensures !ch.sb.failed ==> z == 0 || |ch.Content()| < upto * SLOT + ch.sb.g.ClusBytes()
  {
    hide Wf, Volume.Valid, Volume.ChainsOk, Chain.Content, Kept, ChainBytes, Volume.FreeExact, Size, Slots;
    ghost var sb, book0, clus0, content0 := ch.sb, ch.sb.book, ch.sb.clus, ch.Content();
    sb.Positive();
    SlotInSector(0, sb.g.secPerClus);
    var total := total0;
    z := 0;
    rc := FAT32_OK;
    KeptSame(book0, clus0, ch.start);
    while upto * SLOT > total
      invariant ch.Good() && ch.start == old(ch.start) && (old(sb.failed) ==> sb.failed) && LiveDir(sb, ch.start)
      invariant !sb.failed ==> total == |ch.Content()| && ch.Content() == content0 + Zeros(z)
      invariant z == 0 || total < upto * SLOT + ch.sb.g.ClusBytes()
      invariant !sb.failed ==> Kept(book0, clus0, sb.book, sb.clus, ch.start)
      invariant !sb.failed && old(sb.FreeExact()) ==> sb.FreeExact()
      invariant rc == FAT32_OK && (total != total0 ==> !sb.failed)
      decreases upto * SLOT + ch.sb.g.ClusBytes() - total
    {
      ghost var book1, clus1, was := sb.book, sb.clus, total;
      rc, total := DirGrow(ch);
      if !sb.failed {
        KeptTrans(book0, clus0, book1, clus1, sb.book, sb.clus, ch.start);
        ZerosAdd(z, if rc == FAT32_OK then sb.g.ClusBytes() else 0);
        z := z + if rc == FAT32_OK then sb.g.ClusBytes() else 0;
        DirIsLive(ch);
      }
      if rc != FAT32_OK {
        return;
      }
    }
  }

  /** The directory has room for one more name in 32 bits. */
  ghost predicate CanGrow(ch: Chain)
    reads ch`start, ch.sb`book, ch.sb`clus, ch.sb`failed
  {
    !ch.sb.failed ==> |ch.Content()| + 21 * SLOT + ch.sb.g.ClusBytes() < U32
  }

  /** The middle of fat32_dir_insert: where the slots go, with the directory grown for them. */
  method PlaceSlots(ch: Chain, need: nat) returns (rc: int, idx: nat, ghost place: nat, ghost grow: bool, ghost z: nat)
    requires ch.Good() && LiveDir(ch.sb, ch.start) && 0 < need <= 21 && CanGrow(ch)
    modifies ch, ch.sb
    ensures ch.Good() && ch.start == old(ch.start) && (old(ch.sb.failed) ==> ch.sb.failed)
    ensures !ch.sb.failed ==> rc == FAT32_OK || rc == VFS_ERR_NOSPC
    ensures !ch.sb.failed ==> LiveDir(ch.sb, ch.start) && Slots(ch.Content()) == Slots(old(ch.Content())) + Ends(z)
    ensures !ch.sb.failed && rc == FAT32_OK ==>
              var s0 := Slots(old(ch.Content()));
              && PlaceOf(s0, need, place, grow) && Open(s0, 0, place)
              && idx == (if grow then |s0| else place) && idx + need <= |s0| + z
    ensures rc == FAT32_OK ==> (idx + need) * SLOT < U32
    ensures !ch.sb.failed ==> Kept(old(ch.sb.book), old(ch.sb.clus), ch.sb.book, ch.sb.clus, ch.start)
    ensures !ch.sb.failed && old(ch.sb.FreeExact()) ==> ch.sb.FreeExact()
    ensures !ch.sb.failed && rc != FAT32_OK ==> Full(ch.sb.fat)
    ensures !ch.sb.failed ==> z == 0 || |ch.Content()| < (idx + need) * SLOT + ch.sb.g.ClusBytes()
  {
    hide Wf, Volume.Valid, Volume.ChainsOk, Chain.Content, Kept, ChainBytes, Volume.FreeExact, Size, Slots, Open, PlaceOf, Ends, Full;
    ghost var content0 := ch.Content();
    KeptSame(ch.sb.book, ch.sb.clus, ch.start);
    z := 0;
    if !ch.sb.failed {
      ChainOfDir(ch);
      NoEnds(Slots(content0));
    }
    var g;
    rc, idx, g := FindSlots(ch, need);
    place, grow := idx, g;
    if rc != FAT32_OK {
      return;
    }
    var n := ch.Count();
    var total := Size(n, ch.sb.g.ClusBytes()) % U32;
    if !ch.sb.failed {
      ch.Shape();
    }
    if g {
      idx := total / SLOT;
    }
    rc, z := GrowTo(ch, idx + need, total);
    if !ch.sb.failed {
      SlotsGrown(content0, z);
      ChainOfDir(ch);
      z := z / SLOT;
    }
  }

  /** The writing part of fat32_dir_insert: the records in order, then the short entry. */
  method WriteSlots(ch: Chain, idx: nat, recs: seq<Slot>, short: Slot) returns (rc: int)
    requires ch.Good() && (idx + |recs| + 1) * SLOT < U32
    requires !ch.sb.failed ==> idx + |recs| + 1 <= |Slots(ch.Content())|
    modifies ch`cacheClus, ch`cacheIndex, ch`cacheOk, ch.sb`failed, ch.sb`secs, ch.sb`clus
    ensures ch.Good() && (old(ch.sb.failed) ==> ch.sb.failed)
    ensures !ch.sb.failed ==> rc == FAT32_OK && idx + |recs| + 1 <= |Slots(old(ch.Content()))|
    ensures !ch.sb.failed ==> Slots(ch.Content()) == WithNew(Slots(old(ch.Content())), idx, recs, short)
    ensures !ch.sb.failed ==> |ch.Content()| == |old(ch.Content())|
    ensures !ch.sb.failed ==> Kept(ch.sb.book, old(ch.sb.clus), ch.sb.book, ch.sb.clus, ch.start)
  {
    hide Wf, Volume.Valid, Volume.ChainsOk, Chain.Content, Kept, Slots, Splice;
    ghost var sb, clus0, s0 := ch.sb, ch.sb.clus, Slots(ch.Content());
    KeptSame(sb.book, clus0, ch.start);
    if !sb.failed {
      WholeSlots(ch);
    }
    var i := 0;
    while i < |recs|
      invariant 0 <= i <= |recs| && ch.Good() && (old(sb.failed) ==> sb.failed)
      invariant !sb.failed ==> idx + |recs| + 1 <= |s0| && Slots(ch.Content()) == s0[..idx] + recs[..i] + s0[idx + i..]
      invariant !sb.failed ==> Kept(sb.book, clus0, sb.book, sb.clus, ch.start)
    {
      ghost var clus1 := sb.clus;
      rc := EntWrite(ch, idx + i, recs[i]);
      if !sb.failed {
        KeptTrans(sb.book, clus0, sb.book, clus1, sb.book, sb.clus, ch.start);
        OneMore(s0, idx, recs, i);
      }
      if rc != FAT32_OK {
        return;
      }
      i := i + 1;
    }
    ghost var clus1 := sb.clus;
    rc := EntWrite(ch, idx + |recs|, short);
    if !sb.failed {
      KeptTrans(sb.book, clus0, sb.book, clus1, sb.book, sb.clus, ch.start);
      LastOne(s0, idx, recs, short);
      WholeSlots(ch);
    }
  }

  lemma OneMore(s: seq<Slot>, idx: nat, recs: seq<Slot>, i: nat)
    requires i < |recs| && idx + |recs| + 1 <= |s|
    ensures (s[..idx] + recs[..i] + s[idx + i..])[idx + i := recs[i]] == s[..idx] + recs[..i + 1] + s[idx + i + 1..]
  {
  }

  lemma LastOne(s: seq<Slot>, idx: nat, recs: seq<Slot>, short: Slot)
    requires idx + |recs| + 1 <= |s|
    ensures (s[..idx] + recs[..|recs|] + s[idx + |recs|..])[idx + |recs| := short] == WithNew(s, idx, recs, short)
  {
  }

  ghost predicate RoomInDir(sb: Volume, d: nat)
    reads sb`book, sb`clus, sb`failed
  {
    !sb.failed ==> |ChainBytes(sb.book, sb.clus, d)| + 21 * SLOT + sb.g.ClusBytes() < U32
  }

  lemma NoEnds(s: seq<Slot>)
    ensures s + Ends(0) == s
  {
  }

  /** The slots went where PlaceOf says, behind the unused slots the directory grew by. */
  ghost predicate PutAt(s0: seq<Slot>, s1: seq<Slot>, ins: Insertion) {
    && PlaceOf(s0, |ins.recs| + 1, ins.place, ins.grow) && Open(s0, 0, ins.place)
    && ins.idx == (if ins.grow then |s0| else ins.place)
    && ins.idx + |ins.recs| + 1 <= |s0| + ins.ends
    && s1 == WithNew(s0 + Ends(ins.ends), ins.idx, ins.recs, ins.short)
  }

  /** The second half of fat32_dir_insert: finds the place and writes the slots. */
  method PutSlots(sb: Volume, d: nat, recs: seq<Slot>, short: Slot) returns (rc: int, idx: nat, ghost ins: Insertion)
    requires sb.Valid() && sb.ChainsOk() && LiveDir(sb, d) && RoomInDir(sb, d) && |recs| <= LFN_MAX
    modifies sb
    ensures sb.Valid() && sb.ChainsOk() && (old(sb.failed) ==> sb.failed)
    ensures ins.recs == recs && ins.short == short && ins.idx == idx
    ensures !sb.failed ==> rc == FAT32_OK || rc == VFS_ERR_NOSPC
    ensures !sb.failed ==> LiveDir(sb, d) && Kept(old(sb.book), old(sb.clus), sb.book, sb.clus, d)
    ensures !sb.failed && rc == FAT32_OK ==> PutAt(old(DirSlots(sb, d)), DirSlots(sb, d), ins)
    ensures !sb.failed && rc != FAT32_OK ==> DirSlots(sb, d) == old(DirSlots(sb, d)) + Ends(ins.ends)
    ensures !sb.failed && old(sb.FreeExact()) ==> sb.FreeExact()
    ensures !sb.failed && rc != FAT32_OK ==> Full(sb.fat)
    ensures !sb.failed ==> ins.ends == 0 || |DirSlots(sb, d)| * SLOT < (idx + |recs| + 1) * SLOT + sb.g.ClusBytes()
  {
    hide Wf, Volume.Valid, Volume.ChainsOk, Chain.Content, Kept, ChainBytes, Volume.FreeExact, Size, Slots, PlaceOf, Open;
    ghost var book0, clus0 := sb.book, sb.clus;
    var ch := new Chain(sb, d);
    if !sb.failed {
      ChainOfDir(ch);
    }
    ghost var place, grow, z;
    rc, idx, place, grow, z := PlaceSlots(ch, |recs| + 1);
    ins := Insertion(place, grow, z, idx, recs, short);
    if rc != FAT32_OK {
      if !sb.failed {
        ChainOfDir(ch);
      }
      return;
    }
    ghost var book1, clus1 := sb.book, sb.clus;
    if !sb.failed {
      ChainOfDir(ch);
    }
    rc := WriteSlots(ch, idx, recs, short);
    if !sb.failed {
      KeptTrans(book0, clus0, book1, clus1, sb.book, sb.clus, d);
      DirIsLive(ch);
    }
  }

  lemma PutIsInserted(s0: seq<Slot>, s1: seq<Slot>, name: Bytes, ins: Insertion)
    requires PutAt(s0, s1, ins) && LeafName(name) && NewEntry(ins.recs, ins.short, name) && |ins.recs| <= LFN_MAX
    requires Chosen(s0, name, RawOf(ins.short), ins.recs != [])
    ensures Inserted(s0, s1, name, ins)
  {
    hide KindOf, Chosen, NewEntry, LeafName, Open;
  }

  lemma NewSlots(s: seq<Slot>, name: Bytes, raw: Bytes, needLfn: bool, recs: seq<Slot>, attr: Byte, clus: nat, size: nat)
    requires LeafName(name) && |raw| == 11 && Chosen(s, name, raw, needLfn)
    requires (attr == ATTR_DIR || attr == ATTR_ARCH) && clus < U32 && size < U32
    requires if needLfn then AreRecords(recs, name, ShortSum(raw)) else recs == []
    ensures var short := MakeSlot(raw, attr, 0, clus, size);
            && NewEntry(recs, short, name) && RawOf(short) == raw && (recs != [] <==> needLfn)
            && Get16(short, 20) * 0x1_0000 + Get16(short, 26) == clus && Get32(short, 28) == size && short[11] == attr
  {
    hide Chosen, MakeSlot, ShortSum, IsRecord, KindOf, ShortName;
    ChosenGood(s, name, raw, needLfn);
    MakeSlotDecodes(raw, attr, clus, size);
    if !needLfn {
      PlainShows(name, attr, clus, size);
    }
  }

  /** fat32_dir_insert. */
  method DirInsert(sb: Volume, d: nat, name: Bytes, isDir: bool, firstClus: nat, size: nat)
    returns (rc: int, loc: Loc, ghost ins: Insertion)
    requires sb.Valid() && sb.ChainsOk() && LiveDir(sb, d) && LeafName(name) && firstClus < U32 && size < U32
    requires RoomInDir(sb, d)
    modifies sb
    ensures sb.Valid() && sb.ChainsOk() && (old(sb.failed) ==> sb.failed)
    ensures !sb.failed ==> rc == FAT32_OK || rc == VFS_ERR_NOSPC
    ensures !sb.failed ==> LiveDir(sb, d) && Kept(old(sb.book), old(sb.clus), sb.book, sb.clus, d)
    ensures !sb.failed && rc == FAT32_OK ==> Inserted(old(DirSlots(sb, d)), DirSlots(sb, d), name, ins)
    ensures !sb.failed && rc == FAT32_OK ==> loc == NewLoc(ins.recs, ins.short, name, ins.idx).(name := name)
    ensures !sb.failed && rc == FAT32_OK ==> loc.clus == firstClus && loc.size == size && loc.attr == if isDir then ATTR_DIR else ATTR_ARCH
    ensures !sb.failed && rc != FAT32_OK ==> DirSlots(sb, d) == old(DirSlots(sb, d)) + Ends(ins.ends)
    ensures !sb.failed && old(sb.FreeExact()) ==> sb.FreeExact()
    ensures !sb.failed && rc != FAT32_OK ==> Full(sb.fat) || Taken(old(DirSlots(sb, d)), Split(name).0, Split(name).1, 1000)
    ensures !sb.failed && rc == FAT32_OK ==>
              ins.ends == 0 || |DirSlots(sb, d)| * SLOT < (ins.idx + |ins.recs| + 1) * SLOT + sb.g.ClusBytes()
  {
    hide Wf, Volume.Valid, Volume.ChainsOk, Chain.Content, Kept, ChainBytes, Volume.FreeExact, Size, Slots, Inserted, MakeSlot,
        Ends, PutAt, NewEntry, Chosen, KindOf, RawOf, IsRecord, Get16, Get32;
    ghost var s0 := DirSlots(sb, d);
    var raw, needLfn;
    rc, raw, needLfn := MakeShort(sb, d, name);
    loc := Loc(0, 0, 0, 0, 0, []);
    ins := Insertion(0, false, 0, 0, [], seq(SLOT, _ => 0));
    NoEnds(s0);
    KeptSame(sb.book, sb.clus, d);
    if rc != FAT32_OK {
      return;
    }
    var recs: seq<Slot> := [];
    if needLfn {
      recs := BuildLfn(name, raw);
    }
    var short := MakeSlot(raw, if isDir then ATTR_DIR else ATTR_ARCH, 0, firstClus, size);
    if !sb.failed {
      NewSlots(s0, name, raw, needLfn, recs, if isDir then ATTR_DIR else ATTR_ARCH, firstClus, size);
    }
    var idx;
    rc, idx, ins := PutSlots(sb, d, recs, short);
    if !sb.failed && rc == FAT32_OK {
      PutIsInserted(s0, DirSlots(sb, d), name, ins);
    }
    loc := Loc((idx + |recs|) * SLOT, idx * SLOT, firstClus, size, if isDir then ATTR_DIR else ATTR_ARCH, name);
  }

  // ----- Making a directory -----

  /** The short name of n dots. */
  function Dots(n: nat): (r: Bytes)
    requires 1 <= n <= 2
    ensures |r| == 11
  {
    Pad(seq(n, _ => DOT), 11)
  }

  /** The two entries every directory but the root starts with. */
  function DotSlots(self: nat, up: nat): (r: seq<Slot>)
    ensures |r| == 2
  {
    [MakeSlot(Dots(1), ATTR_DIR, 0, self, 0), MakeSlot(Dots(2), ATTR_DIR, 0, up, 0)]
  }

  /** The slots of a new directory of n unused slots. */
  ghost function NewDirSlots(self: nat, up: nat, n: nat): seq<Slot>
    requires n >= 2
  {
    DotSlots(self, up) + Ends(n - 2)
  }

  /** fat32_create_dir's last part: the two dot entries of the zeroed cluster c. */
  method WriteDots(sb: Volume, c: nat, up: nat)
    requires sb.Valid() && sb.ChainsOk() && LiveDir(sb, c)
    requires !sb.failed ==> ChainBytes(sb.book, sb.clus, c) == Zeros(sb.g.ClusBytes()) && sb.g.ClusBytes() >= SECTOR
    modifies sb`failed, sb`secs, sb`clus
    ensures sb.Valid() && sb.ChainsOk() && (old(sb.failed) ==> sb.failed)
    ensures !sb.failed ==> LiveDir(sb, c) && Kept(sb.book, old(sb.clus), sb.book, sb.clus, c)
    ensures !sb.failed ==> DirSlots(sb, c) == NewDirSlots(c, up, sb.g.ClusBytes() / SLOT)
  {
    hide Wf, Volume.Valid, Volume.ChainsOk, Chain.Content, Kept, ChainBytes, Size, Slots, MakeSlot, Dots, Splice, KindOf;
    ghost var clus0, n := sb.clus, sb.g.ClusBytes() / SLOT;
    var ch := new Chain(sb, c);
    if !sb.failed {
      ChainOfDir(ch);
      SlotsGrown([], sb.g.ClusBytes());
      assert [] + Zeros(sb.g.ClusBytes()) == Zeros(sb.g.ClusBytes());
      assert Slots([]) == [] && [] + Ends(n) == Ends(n);
    }
    var rc := EntWrite(ch, 0, MakeSlot(Dots(1), ATTR_DIR, 0, c, 0));
    ghost var clus1 := sb.clus;
    if !sb.failed {
      SpliceLength(Zeros(sb.g.ClusBytes()), 0, MakeSlot(Dots(1), ATTR_DIR, 0, c, 0));
      DirIsLive(ch);
    }
    var again := new Chain(sb, c);
    if !sb.failed {
      ChainOfDir(again);
    }
    rc := EntWrite(again, 1, MakeSlot(Dots(2), ATTR_DIR, 0, up, 0));
    if !sb.failed {
      KeptTrans(sb.book, clus0, sb.book, clus1, sb.book, sb.clus, c);
      WholeSlots(again);
      DirIsLive(again);
      TwoDots(c, up, n);
    }
  }

  lemma SpliceLength(s: Bytes, at: nat, d: Bytes)
    requires at + |d| <= |s|
    ensures |Splice(s, at, d)| == |s|
  {
  }

  lemma TwoDots(self: nat, up: nat, n: nat)
    requires n >= 2
    ensures Ends(n)[0 := DotSlots(self, up)[0]][1 := DotSlots(self, up)[1]] == NewDirSlots(self, up, n)
  {
    hide MakeSlot;
  }

  lemma KeptThree(b0: Book, clus0: seq<Cluster>, b1: Book, clus1: seq<Cluster>, b2: Book, clus2: seq<Cluster>,
      clus3: seq<Cluster>, c: nat, p: nat)
    requires Kept(b0, clus0, b1, clus1, c) && Kept(b1, clus1, b2, clus2, p) && Kept(b2, clus2, b2, clus3, c)
    ensures KeptBut(b0, clus0, b2, clus3, c, p)
  {
  }

  lemma KeptUndone(b0: Book, clus0: seq<Cluster>, b1: Book, clus1: seq<Cluster>, b2: Book, clus2: seq<Cluster>, c: nat, p: nat)
    requires Kept(b0, clus0, b1, clus1, c) && Kept(b1, clus1, b2, clus2, p) && c !in b0.chains && c in b2.chains
    ensures Kept(b0, clus0, FreeBook(b2, c), clus2, p)
  {
  }

  /** The facts about a cluster just allocated for a directory. */
  lemma NewCluster(fat: Fat, n: nat, b: Book, clus: seq<Cluster>, c: nat, spc: nat, parent: nat)
    requires Wf(fat, n, b) && |clus| == n && ValidClus(n, c) && c !in b.own && c !in b.chains && parent in b.chains
    ensures var b1, clus1 := AllocBook(b, c), clus[c := ZeroSectors(spc)];
            && Kept(b, clus, b1, clus1, c) && ChainBytes(b1, clus1, c) == Zeros(Size(spc, SECTOR))
            && parent in b1.chains && ChainBytes(b1, clus1, parent) == ChainBytes(b, clus, parent)
  {
    hide Wf, DataOf, Kept, Size;
    var b1, clus1 := AllocBook(b, c), clus[c := ZeroSectors(spc)];
    KeptAlloc(fat, n, b, clus, c, ZeroSectors(spc));
    OtherBytes(fat, n, b, clus, b1, clus1, c, parent);
    GrowData(fat, n, b, clus, 0, [], c, spc);
    DataEmpty(clus);
    assert [] + [c] == [c];
    assert DataOf(clus, []) + Zeros(Size(spc, SECTOR)) == Zeros(Size(spc, SECTOR));
  }

  lemma DataEmpty(clus: seq<Cluster>)
    ensures InTable(clus, []) && DataOf(clus, []) == []
  {
  }

  /** fat32_create_dir: a new directory under the parent, with its dot entries. */
  method CreateDir(sb: Volume, parent: nat, leaf: Bytes, root: nat) returns (rc: int, loc: Loc, ghost ins: Insertion)
    requires sb.Valid() && sb.ChainsOk() && LiveDir(sb, parent) && LeafName(leaf) && RoomInDir(sb, parent)
    modifies sb
    ensures sb.Valid() && sb.ChainsOk() && (old(sb.failed) ==> sb.failed)
    ensures !sb.failed ==> rc == FAT32_OK || rc == VFS_ERR_NOSPC
    ensures !sb.failed && rc == FAT32_OK ==> loc.clus !in old(sb.book).chains && LiveDir(sb, loc.clus) && loc.attr == ATTR_DIR
    ensures !sb.failed && rc == FAT32_OK ==> loc.clus in sb.book.chains && sb.book.chains[loc.clus] == [loc.clus]
    ensures sb.g.ClusBytes() / SLOT >= 2
    ensures !sb.failed && rc == FAT32_OK ==>
              DirSlots(sb, loc.clus) == NewDirSlots(loc.clus, if parent == root then 0 else parent, sb.g.ClusBytes() / SLOT)
    ensures !sb.failed && rc == FAT32_OK ==> Inserted(old(DirSlots(sb, parent)), DirSlots(sb, parent), leaf, ins)
    ensures !sb.failed && rc == FAT32_OK ==> KeptBut(old(sb.book), old(sb.clus), sb.book, sb.clus, loc.clus, parent)
    ensures !sb.failed && rc != FAT32_OK ==> DirSlots(sb, parent) == old(DirSlots(sb, parent)) + Ends(ins.ends)
    ensures !sb.failed && rc != FAT32_OK ==> Kept(old(sb.book), old(sb.clus), sb.book, sb.clus, parent)
    ensures !sb.failed && old(sb.FreeExact()) ==> sb.FreeExact()
    ensures !sb.failed && rc != FAT32_OK ==>
              OneLeft(sb.fat) || Taken(old(DirSlots(sb, parent)), Split(leaf).0, Split(leaf).1, 1000)
  {
    hide Wf, SectorsOk, FatAgrees, ClusAgrees, ClustersOk, Kept, KeptBut, ChainBytes, Volume.FreeExact, Size, Slots, Inserted,
        Ends, MakeSlot, AllocBook, FreeBook, PickFree, Cleared, NewLoc;
    ghost var fat0, book0, clus0 := sb.fat, sb.book, sb.clus;
    loc := Loc(0, 0, 0, 0, 0, []);
    ins := Insertion(0, false, 0, 0, [], seq(SLOT, _ => 0));
    NoEnds(DirSlots(sb, parent));
    KeptSame(book0, clus0, parent);
    VolumeSizes(sb);
    var clus := sb.AllocCluster();
    if !sb.ClusOk(clus) {
      return VFS_ERR_NOSPC, loc, ins;
    }
    ghost var fat1, book1, clus1 := sb.fat, sb.book, sb.clus;
    if !sb.failed {
      NewCluster(fat0, sb.g.N(), book0, clus0, clus, sb.g.secPerClus, parent);
      Allocated(book0, clus);
    }
    rc, loc, ins := DirInsert(sb, parent, leaf, true, clus, 0);
    ghost var book2, clus2 := sb.book, sb.clus;
    if !sb.failed {
      OtherBytes(fat1, sb.g.N(), book1, clus1, book2, clus2, parent, clus);
      KeptChain(book1, clus1, book2, clus2, parent, clus);
    }
    if rc != FAT32_OK {
      if !sb.failed {
        KeptUndone(book0, clus0, book1, clus1, book2, clus2, clus, parent);
        FreedBytes(book2, clus2, clus, parent);
        FreedOne(sb.fat, clus);
      }
      sb.FreeChain(clus);
      return;
    }
    VolumeSizes(sb);
    WriteDots(sb, clus, if parent == root then 0 else parent);
    if !sb.failed {
      OtherBytes(sb.fat, sb.g.N(), book2, clus2, sb.book, sb.clus, clus, parent);
      KeptThree(book0, clus0, book1, clus1, book2, clus2, sb.clus, clus, parent);
    }
    rc := FAT32_OK;
  }

  lemma FreedOne(fat: Fat, c: nat)
    requires c < |fat|
    ensures Full(fat) ==> OneLeft(Cleared(fat, [c], 1))
  {
    assert Cleared(fat, [c], 0) == fat;
  }

  lemma Allocated(b: Book, c: nat)
    ensures c in AllocBook(b, c).chains && AllocBook(b, c).chains[c] == [c]
  {
  }

  lemma KeptChain(b0: Book, clus0: seq<Cluster>, b1: Book, clus1: seq<Cluster>, s: nat, h: nat)
    requires Kept(b0, clus0, b1, clus1, s) && h in b0.chains && h != s
    ensures h in b1.chains && b1.chains[h] == b0.chains[h]
  {
  }

  lemma FreedBytes(b: Book, clus: seq<Cluster>, c: nat, d: nat)
    requires c in b.chains && d != c
    ensures ChainBytes(FreeBook(b, c), clus, d) == ChainBytes(b, clus, d)
  {
  }

  lemma VolumeSizes(sb: Volume)
    requires sb.Valid()
    ensures |sb.clus| == |sb.fat| == sb.g.N() && sb.g.ClusBytes() >= SECTOR
  {
    hide SectorsOk, FatAgrees, ClusAgrees;
    sb.Positive();
  }

  /** A new directory is sound, its short names are unique, and it shows its dot entries only. */
  lemma NewDirShows(self: nat, up: nat, n: nat, junk: seq<nat>)
    requires n >= 2 && self < U32 && up < U32 && |junk| == UNITS * LFN_MAX
    ensures var s := NewDirSlots(self, up, n);
            && SoundDir(s) && UniqueShorts(s)
            && Shown(s, junk) == [Loc(0, 0, self, 0, ATTR_DIR, [DOT]), Loc(SLOT, SLOT, up, 0, ATTR_DIR, [DOT, DOT])]
  {
    var s := NewDirSlots(self, up, n);
    var st := Fresh(junk);
    DotShows(1, self, st, 0);
    DotShows(2, up, st.Off(), SLOT);
    assert s[0] == DotSlots(self, up)[0] && s[1] == DotSlots(self, up)[1];
    assert forall j :: 2 <= j < n ==> KindOf(s[j]) == End;
    hide MakeSlot, KindOf, LocOf;
    AtEnd(s, 2, st.Off());
    AtEntry(s, 1, st.Off(), NONE);
    AtEntry(s, 0, st, NONE);
    DotsDiffer(self, up);
    forall i: nat | LiveShort(s, i)
      ensures i < 2
    {
    }
  }

  lemma DotsDiffer(self: nat, up: nat)
    ensures RawOf(DotSlots(self, up)[0]) != RawOf(DotSlots(self, up)[1])
  {
    var a, b := Dots(1), Dots(2);
    assert a[1] == BLANK;
    assert b[1] == b[..2][1] == DOT;
    hide MakeSlot;
  }

  /** A dot entry displays its dots. */
  lemma DotShows(n: nat, clus: nat, st: Scan, off: nat)
    requires 1 <= n <= 2 && clus < U32 && st.Ok() && !st.on
    ensures var e := MakeSlot(Dots(n), ATTR_DIR, 0, clus, 0);
            && KindOf(e) == Entry && LocOf(st, e, off) == Loc(off, off, clus, 0, ATTR_DIR, if n == 1 then [DOT] else [DOT, DOT])
  {
    var raw := Dots(n);
    var e := MakeSlot(raw, ATTR_DIR, 0, clus, 0);
    assert raw[0] == raw[..n][0] == DOT;
    DotDecodes(raw, clus);
    hide MakeSlot, Get16, Get32;
    DotFields(raw, e, n);
    var s: Bytes := seq(n, _ => DOT);
    FieldIs(e, 0, 8, s);
    FieldIs(e, 8, 11, []);
    hide KindOf;
    assert 0 !in s && s == if n == 1 then [DOT] else [DOT, DOT];
  }

  lemma DotFields(raw: Bytes, e: Slot, n: nat)
    requires 1 <= n <= 2 && raw == Dots(n) && RawOf(e) == raw
    ensures e[0..n] == seq(n, _ => DOT) && e[n] == BLANK && e[8] == BLANK
  {
    assert raw[..n] == seq(n, _ => DOT);
    assert forall i :: 0 <= i < 11 ==> e[i] == RawOf(e)[i];
  }

  lemma DotDecodes(raw: Bytes, clus: nat)
    requires |raw| == 11 && raw[0] == DOT && clus < U32
    ensures var e := MakeSlot(raw, ATTR_DIR, 0, clus, 0);
            KindOf(e) == Entry && SlotClus(e) == clus && SlotSize(e) == 0
  {
    MakeSlotBytes(raw, ATTR_DIR, 0, clus, 0);
    ClusIs(MakeSlot(raw, ATTR_DIR, 0, clus, 0), clus);
    hide MakeSlot;
  }
}
