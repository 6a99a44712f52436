/**
 ELF images as the loader reads them: its checks of the file header and of each
 segment, and the bytes a segment puts at an address (src/kernel/user.c:41-155,
 258-344; ELF-64 Object File Format, section 8).
 */
module ElfImage {
  import opened Errors
  import opened FlatBytes
  import opened LittleEndian
  import opened PageTables
  import opened Vmm

  const EHDR := 64
  const PHDR := 56
  const MAX_SEGS := 16
  const MAX_MEMSZ := 16 * 1024 * 1024
  const PT_LOAD := 1

  function Get64(s: Bytes, at: nat): (v: nat)
    requires at + 8 <= |s|
    ensures v < U64
  {
    Get32(s, at) + Get32(s, at + 4) * U32
  }

  /** A program header. */
  datatype Seg = Seg(kind: nat, flags: nat, off: nat, vaddr: nat, filesz: nat, memsz: nat)
  {
    /** PF_W. */
    predicate Writable() {
      flags / 2 % 2 == 1
    }

    function Base(): nat {
      vaddr - vaddr % PAGE
    }

    function End(): nat {
      var w := (vaddr + memsz + PAGE - 1) % U64;
      w - w % PAGE
    }

    /** How many pages it takes. */
    function Pages(): nat {
      if Base() < End() then (End() - Base()) / PAGE else 0
    }

    /** The address of its page number i. */
    function At(i: nat): nat {
      Base() + i * PAGE
    }
  }

  /** PF_W is bit 1 of the flag word: of the eight combinations of R, W and X those with a W are writable. */
  lemma WriteFlag(g: Seg)
    ensures g.Writable() <==> g.flags % 4 == 2 || g.flags % 4 == 3
    ensures g.flags < 8 ==> (g.Writable() <==> g.flags in {2, 3, 6, 7})
  {
  }

  function SegAt(img: Bytes, at: nat): (s: Seg)
    requires at + PHDR <= |img|
    ensures s.off < U64 && s.vaddr < U64 && s.filesz < U64 && s.memsz < U64
  {
    Seg(Get32(img, at), Get32(img, at + 4), Get64(img, at + 8), Get64(img, at + 16), Get64(img, at + 32), Get64(img, at + 40))
  }

  /** check_ehdr. */
  predicate HeaderOk(img: Bytes) {
    && EHDR <= |img|
    && img[0] == 0x7f && img[1] == 'E' as int && img[2] == 'L' as int && img[3] == 'F' as int
    && img[4] == 2 && img[5] == 1 && img[6] == 1
    && Get16(img, 16) == 2 && Get16(img, 18) == 62 && Get16(img, 54) == PHDR
    && 0 < Count(img) <= MAX_SEGS
    && (TableAt(img) + Count(img) * PHDR) % U64 <= |img|
    && PAGE <= EntryOf(img) < LOW_END
  }

  function EntryOf(img: Bytes): nat
    requires EHDR <= |img|
  {
    Get64(img, 24)
  }

  function TableAt(img: Bytes): nat
    requires EHDR <= |img|
  {
    Get64(img, 32)
  }

  function Count(img: Bytes): nat
    requires EHDR <= |img|
  {
    Get16(img, 56)
  }

  /** The file headers that pass, byte by byte. */
  lemma HeaderExact(img: Bytes)
    ensures HeaderOk(img) <==>
            && 64 <= |img| && img[0..7] == [0x7f, 0x45, 0x4c, 0x46, 2, 1, 1]
            && img[16..20] == [2, 0, 62, 0] && img[54..58] == [56, 0, img[56], 0] && 1 <= img[56] <= 16
            && (Get64(img, 32) + (img[56] as int) * 56) % U64 <= |img| && 0x1000 <= Get64(img, 24) < 0x8000_0000_0000
  {
    if 64 <= |img| {
      assert img[0..7] == [img[0], img[1], img[2], img[3], img[4], img[5], img[6]];
      assert img[16..20] == [img[16], img[17], img[18], img[19]];
      assert img[54..58] == [img[54], img[55], img[56], img[57]];
    }
  }

  /** The 64-bit end of the program headers does not wrap if the file header passes. */
  predicate TableFits(img: Bytes) {
    HeaderOk(img) ==> TableAt(img) + Count(img) * PHDR < U64
  }

  /** The check of the file header puts the program headers inside the file exactly when their end does not wrap. */
  lemma TableChecked(img: Bytes)
    requires HeaderOk(img) && |img| < U64
    ensures TableAt(img) + Count(img) * PHDR <= |img| <==> TableFits(img)
  {
    var end := TableAt(img) + Count(img) * PHDR;
    if end < U64 {
      assert end % U64 == end;
    }
  }

  /** The program headers. */
  function Segs(img: Bytes): (ss: seq<Seg>)
    requires HeaderOk(img) && TableFits(img)
    ensures |ss| == Count(img)
  {
    seq(Count(img), i requires 0 <= i < Count(img) => SegAt(img, TableAt(img) + i * PHDR))
  }

  /** user_range_ok. */
  predicate RangeOk(vaddr: nat, size: nat) {
    size != 0 && vaddr >= PAGE && vaddr + size < U64 && vaddr + size <= LOW_END
  }

  /** The checks map_elf_image makes of a LOAD segment. */
  predicate SegOk(img: Bytes, s: Seg) {
    && s.filesz <= s.memsz <= MAX_MEMSZ
    && (s.off + s.filesz) % U64 <= |img| && (s.off + s.filesz) % U64 >= s.off
    && RangeOk(s.vaddr, s.memsz)
  }

  /** In whole numbers: what is accepted lies inside the file and inside the lower half above its first page. */
  lemma SegOkExact(img: Bytes, s: Seg)
    requires |img| < U64 && s.off < U64 && s.vaddr < U64
    ensures SegOk(img, s) <==>
            && s.filesz <= s.memsz <= 0x100_0000 && s.off + s.filesz <= |img|
            && 0 < s.memsz && 0x1000 <= s.vaddr && s.vaddr + s.memsz <= 0x8000_0000_0000
  {
  }

  /** What a byte of a segment's pages holds: the file's byte, or zero. */
  function ByteAt(img: Bytes, s: Seg, a: nat): Byte {
    if s.vaddr <= a < s.vaddr + s.filesz && s.off + (a - s.vaddr) < |img| then img[s.off + (a - s.vaddr)] else 0
  }

  lemma SegBounds(s: Seg)
    requires RangeOk(s.vaddr, s.memsz)
    ensures s.Base() % PAGE == 0 && s.End() % PAGE == 0 && s.Base() <= s.vaddr && s.vaddr + s.memsz <= s.End() <= LOW_END
    ensures s.Base() < s.End() && s.vaddr < s.Base() + PAGE && s.End() < s.vaddr + s.memsz + PAGE
  {
  }

  predicate Within(g: Seg, a: nat) {
    g.kind == PT_LOAD && g.vaddr <= a < g.vaddr + g.memsz
  }

  ghost predicate InLoad(ss: seq<Seg>, a: nat) {
    exists j :: 0 <= j < |ss| && Within(ss[j], a)
  }

  /** The images that are loaded. */
  ghost predicate Accepted(img: Bytes)
    requires TableFits(img)
  {
    && HeaderOk(img)
    && (forall j :: 0 <= j < |Segs(img)| && Segs(img)[j].kind == PT_LOAD ==> SegOk(img, Segs(img)[j]))
    && InLoad(Segs(img), EntryOf(img))
  }

  /** The LOAD segments share no page. */
  ghost predicate Apart(ss: seq<Seg>) {
    forall i, j :: 0 <= i < j < |ss| && ss[i].kind == PT_LOAD && ss[j].kind == PT_LOAD ==>
        ss[i].End() <= ss[j].Base() || ss[j].End() <= ss[i].Base()
  }

  /** The pages the LOAD segments take. */
  function Total(ss: seq<Seg>): nat {
    if ss == [] then 0
    else Total(ss[..|ss| - 1]) + if ss[|ss| - 1].kind == PT_LOAD then ss[|ss| - 1].Pages() else 0
  }

  lemma TotalNext(ss: seq<Seg>, i: nat)
    requires i < |ss|
    ensures Total(ss[..i + 1]) == Total(ss[..i]) + if ss[i].kind == PT_LOAD then ss[i].Pages() else 0
  {
    assert ss[..i + 1][..i] == ss[..i];
  }

  lemma {:induction false} TotalRises(ss: seq<Seg>, i: nat)
    requires i <= |ss|
    ensures Total(ss[..i]) <= Total(ss)
    decreases |ss| - i
  {
    if i < |ss| {
      TotalNext(ss, i);
      TotalRises(ss, i + 1);
    } else {
      assert ss[..i] == ss;
    }
  }

  /** No LOAD segment has a page below the end of the identity map. */
  ghost predicate NoneBelow(ss: seq<Seg>, physEnd: nat) {
    forall i :: 0 <= i < |ss| && ss[i].kind == PT_LOAD ==> ss[i].Base() >= physEnd
  }

  // ----- Examples -----

  /** A file header with one program header at offset phoff and its entry at 0x201000. */
  function Header(phoff: seq<Byte>): (h: Bytes)
    requires |phoff| == 8
    ensures |h| == EHDR
  {
    [0x7f, 0x45, 0x4c, 0x46, 2, 1, 1, 0, 0, 0, 0, 0, 0, 0, 0, 0] + [2, 0, 62, 0, 1, 0, 0, 0, 0, 0x10, 0x20, 0, 0, 0, 0, 0]
    + phoff + [0, 0, 0, 0, 0, 0, 0, 0] + [0, 0, 0, 0, 64, 0, 56, 0, 1, 0, 0, 0, 0, 0, 0, 0]
  }

  lemma HeaderBytes(phoff: seq<Byte>)
    requires |phoff| == 8
    ensures var h := Header(phoff);
            && h[0] == 0x7f && h[1] == 0x45 && h[2] == 0x4c && h[3] == 0x46 && h[4] == 2 && h[5] == 1 && h[6] == 1
            && Get16(h, 16) == 2 && Get16(h, 18) == 62 && Get16(h, 54) == PHDR && Get16(h, 56) == 1
            && Get64(h, 24) == 0x201000 && (forall k :: 0 <= k < 8 ==> h[32 + k] == phoff[k])
  {
  }

  /** A header whose program header would end at 2^64: the sum wraps to 0 and passes the check. */
  lemma WrappingTable()
    ensures var img := Header([0xc8, 0xff, 0xff, 0xff, 0xff, 0xff, 0xff, 0xff]);
            HeaderOk(img) && !TableFits(img) && TableAt(img) == U64 - PHDR
  {
    HeaderBytes([0xc8, 0xff, 0xff, 0xff, 0xff, 0xff, 0xff, 0xff]);
  }

  /** A program header written out: a LOAD segment for reading and executing. */
  lemma HeaderFields()
    ensures var ph := [1, 0, 0, 0, 5, 0, 0, 0] + [0, 0x10, 0, 0, 0, 0, 0, 0] + [0, 0, 0x40, 0, 0, 0, 0, 0] + [9, 9, 9, 9, 9, 9, 9, 9]
                      + [0x34, 2, 0, 0, 1, 0, 0, 0] + [0x67, 5, 0, 0, 2, 0, 0, 0] + [0, 0x10, 0, 0, 0, 0, 0, 0];
            && |ph| == PHDR && SegAt(ph, 0) == Seg(PT_LOAD, 5, 0x1000, 0x40_0000, 0x1_0000_0234, 0x2_0000_0567)
            && !SegAt(ph, 0).Writable()
  {
  }

  /** The program header of a writable LOAD segment of two pages at 0x201000. */
  function SampleHeader(): (h: Bytes)
    ensures |h| == PHDR
  {
    [1, 0, 0, 0, 6, 0, 0, 0] + [120, 0, 0, 0, 0, 0, 0, 0] + [0, 0x10, 0x20, 0, 0, 0, 0, 0] + [0, 0, 0, 0, 0, 0, 0, 0]
    + [0, 0x20, 0, 0, 0, 0, 0, 0] + [0, 0x20, 0, 0, 0, 0, 0, 0] + [0, 0x10, 0, 0, 0, 0, 0, 0]
  }

  /** An image of two pages: ones, then twos. */
  function Sample(): (img: Bytes)
    ensures |img| == EHDR + PHDR + 2 * PAGE
  {
    Header([64, 0, 0, 0, 0, 0, 0, 0]) + SampleHeader() + seq(2 * PAGE, k => if k < PAGE then 1 else 2)
  }

  lemma SampleField()
    ensures SegAt(SampleHeader(), 0) == Seg(PT_LOAD, 6, 120, 0x201000, 2 * PAGE, 2 * PAGE)
  {
  }

  /** Fields of a header that follows n other bytes. */
  lemma SegBehind(img: Bytes, ph: Bytes, n: nat)
    requires |ph| == PHDR && n + PHDR <= |img| && img[n..n + PHDR] == ph
    ensures SegAt(img, n) == SegAt(ph, 0)
  {
    assert forall k :: 0 <= k < PHDR ==> ph[k] == img[n + k];
  }

  lemma SampleParts()
    ensures var img := Sample();
            && img[..EHDR] == Header([64, 0, 0, 0, 0, 0, 0, 0]) && img[EHDR..EHDR + PHDR] == SampleHeader()
            && img[120..120 + PAGE] == seq(PAGE, _ => 1) && img[120 + PAGE..120 + 2 * PAGE] == seq(PAGE, _ => 2)
  {
    hide Header, SampleHeader;
  }

  /** A header in front of other bytes. */
  lemma HeaderFront(img: Bytes, phoff: seq<Byte>)
    requires |phoff| == 8 && EHDR <= |img| && img[..EHDR] == Header(phoff)
    ensures var h := Header(phoff);
            && img[0] == 0x7f && img[1] == 0x45 && img[2] == 0x4c && img[3] == 0x46 && img[4] == 2 && img[5] == 1 && img[6] == 1
            && Get16(img, 16) == 2 && Get16(img, 18) == 62 && Get16(img, 54) == PHDR && Count(img) == 1
            && EntryOf(img) == 0x201000 && TableAt(img) == Get64(phoff, 0)
  {
    HeaderBytes(phoff);
    hide Header;
    assert forall k :: 0 <= k < EHDR ==> img[k] == img[..EHDR][k];
  }

  lemma SampleSegs()
    ensures HeaderOk(Sample()) && TableFits(Sample()) && Segs(Sample()) == [Seg(PT_LOAD, 6, 120, 0x201000, 2 * PAGE, 2 * PAGE)]
    ensures EntryOf(Sample()) == 0x201000
  {
    hide Header, SampleHeader, Sample, SegAt, EntryOf, TableAt, Count;
    SampleParts();
    HeaderFront(Sample(), [64, 0, 0, 0, 0, 0, 0, 0]);
    SegBehind(Sample(), SampleHeader(), EHDR);
    SampleField();
  }

  /** The example meets every check of the loader. */
  lemma SampleAccepted()
    ensures TableFits(Sample()) && Accepted(Sample()) && Sample()[120..120 + PAGE] != Sample()[120 + PAGE..120 + 2 * PAGE]
  {
    hide Sample, HeaderOk, TableFits, Segs;
    SampleSegs();
    SampleParts();
    assert Sample()[120..120 + PAGE][0] == 1 && Sample()[120 + PAGE..120 + 2 * PAGE][0] == 2;
    var g := Segs(Sample())[0];
    assert Within(g, 0x201000);
  }
}
