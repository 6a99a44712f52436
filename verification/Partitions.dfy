/**
 The partition table: every partition registered lies inside the disk, so its block
 device reaches no sector outside it (src/kernel/part/part.c:162-241, 380-431, 447-469).
 */
module Partitions {
  import opened Errors
  import opened FlatBytes
  import opened LittleEndian
  import opened BlockDevice

  const MAX_PER_DRIVE := 16

  const SECTOR := 512
  const SIGNATURE := 0xaa55
  const TABLE := 446
  const ENTRY := 16
  const EXT_GUARD := 64
  const GPT_PROTECT := 0xee
  const EXTENDED := {0x05, 0x0f}

  datatype Part = Part(start: nat, sectors: nat)

  function Kind(sec: Bytes, i: nat): Byte
    requires |sec| == SECTOR && i < 4
  {
    sec[TABLE + i * ENTRY + 4]
  }

  function Start(sec: Bytes, i: nat): (v: nat)
    requires |sec| == SECTOR && i < 4
    ensures v < U32
  {
    Get32(sec, TABLE + i * ENTRY + 8)
  }

  function Sectors(sec: Bytes, i: nat): (v: nat)
    requires |sec| == SECTOR && i < 4
    ensures v < U32
  {
    Get32(sec, TABLE + i * ENTRY + 12)
  }

  /** The table after part_add of a range whose end does not wrap. */
  function Added(parts: seq<Part>, diskSectors: nat, start: nat, sectors: nat): seq<Part> {
    if |parts| < MAX_PER_DRIVE && 0 < start && 0 < sectors && start + sectors <= diskSectors then parts + [Part(start, sectors)] else parts
  }

  /** The logical partitions of the chain of EBRs from sector ebr on, at most n of them; offsets count from base or from the EBR. */
  ghost function ExtParts(blocks: seq<Bytes>, size: nat, base: nat, ebr: nat, n: nat, parts: seq<Part>): seq<Part>
    requires Uniform(blocks, SECTOR)
    decreases n
  {
    if n == 0 || ebr >= |blocks| || Get16(blocks[ebr], 510) != SIGNATURE then parts
    else
      var sec := blocks[ebr];
      var more := if Kind(sec, 0) != 0 then Added(parts, size, ebr + Start(sec, 0), Sectors(sec, 0)) else parts;
      if Kind(sec, 1) !in EXTENDED || Start(sec, 1) == 0 then more
      else ExtParts(blocks, size, base, base + Start(sec, 1), n - 1, more)
  }

  /** The partitions of the first i entries of an MBR. */
  ghost function MbrParts(mbr: Bytes, blocks: seq<Bytes>, size: nat, i: nat, parts: seq<Part>): seq<Part>
    requires |mbr| == SECTOR && Uniform(blocks, SECTOR) && i <= 4
  {
    if i == 0 then parts
    else
      var before := MbrParts(mbr, blocks, size, i - 1, parts);
      var kind, lba, count := Kind(mbr, i - 1), Start(mbr, i - 1), Sectors(mbr, i - 1);
      if kind == 0 || count == 0 || kind == GPT_PROTECT then before
      else if kind in EXTENDED then ExtParts(blocks, size, lba, lba, EXT_GUARD, before)
      else Added(before, size, lba, count)
  }

  class Table {
    const diskSectors: nat
    var parts: seq<Part>

    /** Every partition is a non-empty range above sector 0 and inside the disk. */
    ghost predicate Valid()
      reads this
    {
      diskSectors < U64 && |parts| <= MAX_PER_DRIVE
      && forall i :: 0 <= i < |parts| ==> 0 < parts[i].start && 0 < parts[i].sectors && parts[i].start + parts[i].sectors <= diskSectors
    }

    constructor (diskSectors: nat)
      requires diskSectors < U64
      ensures Valid() && this.diskSectors == diskSectors && parts == []
    {
      this.diskSectors, parts := diskSectors, [];
    }

    /** part_add: the table stays inside the disk exactly when no range is added or its 64-bit sum does not wrap. */
    method Add(start: nat, sectors: nat)
      requires Valid() && start < U64 && sectors < U64
      modifies this
      ensures parts == if |old(parts)| < MAX_PER_DRIVE && 0 < start && 0 < sectors && (start + sectors) % U64 <= diskSectors
                       then old(parts) + [Part(start, sectors)] else old(parts)
      ensures Valid() <==> parts == old(parts) || start + sectors < U64
      ensures start + sectors < U64 ==> parts == Added(old(parts), diskSectors, start, sectors)
    {
      if |parts| >= MAX_PER_DRIVE {
        return;
      }
      if sectors == 0 || start == 0 || (start + sectors) % U64 > diskSectors {
        return;
      }
      AddChecks(diskSectors, start, sectors);
      parts := parts + [Part(start, sectors)];
      assert parts[|parts| - 1] == Part(start, sectors);
    }

    /** part_scan_ext: of 32-bit offsets no sum wraps, so the table stays inside the disk whatever the EBRs say. */
    method ScanExt(disk: Disk, base: nat)
      requires Valid() && disk.Valid() && disk.Works() && disk.bs == SECTOR && base < U32
      modifies this, disk`fault
      ensures Valid() && disk.Works() && (old(disk.fault) ==> disk.fault)
      ensures !disk.fault ==> parts == ExtParts(disk.blocks, diskSectors, base, base, EXT_GUARD, old(parts))
    {
      hide Kind, Start, Sectors, Get16, Get32, ExtParts, Added, Valid;
      var ebr: nat, guard := base, 0;
      while guard < EXT_GUARD
        invariant 0 <= guard <= EXT_GUARD && ebr < 2 * U32 && Valid() && disk.Works() && (old(disk.fault) ==> disk.fault)
        invariant !disk.fault ==> ExtParts(disk.blocks, diskSectors, base, base, EXT_GUARD, old(parts))
                                  == ExtParts(disk.blocks, diskSectors, base, ebr, EXT_GUARD - guard, parts)
      {
        var rc, sec := disk.Read(ebr, 1);
        ExtStep(disk.blocks, diskSectors, base, ebr, EXT_GUARD - guard, parts);
        if rc != 0 {
          return;
        }
        OneBlock(disk.blocks, ebr, sec);
        if Get16(sec, 510) != SIGNATURE {
          return;
        }
        if Kind(sec, 0) != 0 && Sectors(sec, 0) != 0 {
          Add(ebr + Start(sec, 0), Sectors(sec, 0));
        }
        if Kind(sec, 1) !in EXTENDED || Start(sec, 1) == 0 {
          return;
        }
        ebr := base + Start(sec, 1);
        guard := guard + 1;
      }
      ExtStep(disk.blocks, diskSectors, base, ebr, 0, parts);
    }

    /** part_scan_mbr: the primary partitions and the chains of the extended ones. */
    method ScanMbr(disk: Disk, mbr: Bytes)
      requires Valid() && disk.Valid() && disk.Works() && disk.bs == SECTOR && |mbr| == SECTOR
      modifies this, disk`fault
      ensures Valid() && disk.Works() && (old(disk.fault) ==> disk.fault)
      ensures !disk.fault ==> parts == MbrParts(mbr, disk.blocks, diskSectors, 4, old(parts))
    {
      hide Kind, Start, Sectors, Get16, Get32, ExtParts, Added, Valid;
      var i := 0;
      while i < 4
        invariant 0 <= i <= 4 && Valid() && disk.Works() && (old(disk.fault) ==> disk.fault)
        invariant !disk.fault ==> parts == MbrParts(mbr, disk.blocks, diskSectors, i, old(parts))
      {
        var kind, lba, count := Kind(mbr, i), Start(mbr, i), Sectors(mbr, i);
        if kind != 0 && count != 0 && kind != GPT_PROTECT {
          if kind in EXTENDED {
            ScanExt(disk, lba);
          } else {
            Add(lba, count);
          }
        }
        i := i + 1;
      }
    }

    /** The check of a GPT entry before part_add_gpt: whatever the entry says, no sum wraps. */
    method AddGpt(first: nat, last: nat)
      requires Valid() && first < U64 && last < U64
      modifies this
      ensures Valid()
      ensures parts == if |old(parts)| < MAX_PER_DRIVE && 0 < first <= last < diskSectors
                       then old(parts) + [Part(first, last - first + 1)] else old(parts)
    {
      if first == 0 || last < first || last >= diskSectors {
        return;
      }
      Add(first, last - first + 1);
    }

    /** The device of a registered partition; the disk holds as many sectors as the table says. */
    method Device(disk: Disk, i: nat) returns (dev: BlockDev)
      requires Valid() && i < |parts| && disk.Valid() && diskSectors <= |disk.blocks|
      ensures dev.Valid() && dev.disk == disk && dev.start == parts[i].start && dev.nblocks == parts[i].sectors && 0 < dev.start
    {
      dev := new BlockDev(disk, parts[i].start, parts[i].sectors, true);
    }
  }

  /** Entry i of a sector, byte by byte: the type, the first sector, the number of sectors. */
  lemma EntryBytes(sec: Bytes, i: nat, kind: Byte)
    requires |sec| == SECTOR && i < 4
    requires sec[446 + 16 * i..462 + 16 * i] == [0x80, 1, 1, 0, kind, 254, 255, 255, 0, 8, 0, 0, 0x34, 0x12, 0, 0]
    ensures Kind(sec, i) == kind && Start(sec, i) == 0x800 && Sectors(sec, i) == 0x1234
  {
    var at := 446 + 16 * i;
    var e := sec[at..at + 16];
    assert TABLE + i * ENTRY == at && sec[at + 4] == e[4];
    assert sec[at + 8] == e[8] && sec[at + 9] == e[9] && sec[at + 10] == e[10] && sec[at + 11] == e[11];
    assert sec[at + 12] == e[12] && sec[at + 13] == e[13] && sec[at + 14] == e[14] && sec[at + 15] == e[15];
  }

  /**
   A disk with one primary partition and a chain of two extended boot records.
   The logical partitions count from their own record, the link to the next record
   from the first one.
   */
  lemma ScanExample(mbr: Bytes, blocks: seq<Bytes>, first: Bytes, second: Bytes, size: nat)
    requires |mbr| == SECTOR && Uniform(blocks, SECTOR) && |blocks| > 5200 && blocks[5000] == first && blocks[5200] == second
    requires |first| == |second| == SECTOR && 6000 <= size
    requires Kind(mbr, 0) == 0x83 && Start(mbr, 0) == 2048 && Sectors(mbr, 0) == 1000
    requires Kind(mbr, 1) == 0x05 && Start(mbr, 1) == 5000 && Sectors(mbr, 1) == 900
    requires Kind(mbr, 2) == 0 && Kind(mbr, 3) == 0xee
    requires first[510] == 0x55 && first[511] == 0xaa && second[510] == 0x55 && second[511] == 0xaa
    requires Kind(first, 0) == 0x83 && Start(first, 0) == 63 && Sectors(first, 0) == 100
    requires Kind(first, 1) == 0x0f && Start(first, 1) == 200
    requires Kind(second, 0) == 0x83 && Start(second, 0) == 63 && Sectors(second, 0) == 50 && Kind(second, 1) == 0
    ensures MbrParts(mbr, blocks, size, 4, []) == [Part(2048, 1000), Part(5063, 100), Part(5263, 50)]
  {
    hide Kind, Start, Sectors, ExtParts;
    var p1 := [Part(2048, 1000)];
    var p2 := p1 + [Part(5063, 100)];
    var p3 := p2 + [Part(5263, 50)];
    ExtStep(blocks, size, 5000, 5000, EXT_GUARD, p1);
    ExtStep(blocks, size, 5000, 5200, EXT_GUARD - 1, p2);
    assert ExtParts(blocks, size, 5000, 5200, EXT_GUARD - 1, p2) == p3;
    assert ExtParts(blocks, size, 5000, 5000, EXT_GUARD, p1) == p3;
    assert MbrParts(mbr, blocks, size, 0, []) == [];
    assert MbrParts(mbr, blocks, size, 1, []) == p1;
    assert MbrParts(mbr, blocks, size, 2, []) == p3;
    assert MbrParts(mbr, blocks, size, 3, []) == p3;
  }

  lemma ExtStep(blocks: seq<Bytes>, size: nat, base: nat, ebr: nat, n: nat, parts: seq<Part>)
    requires Uniform(blocks, SECTOR)
    ensures n == 0 || ebr >= |blocks| ==> ExtParts(blocks, size, base, ebr, n, parts) == parts
    ensures n > 0 && ebr < |blocks| ==>
              var sec := blocks[ebr];
              var more :=
                if Kind(sec, 0) != 0 && Sectors(sec, 0) != 0 then Added(parts, size, ebr + Start(sec, 0), Sectors(sec, 0)) else parts;
              ExtParts(blocks, size, base, ebr, n, parts)
              == if Get16(sec, 510) != SIGNATURE then parts
                 else if Kind(sec, 1) !in EXTENDED || Start(sec, 1) == 0 then more
                 else ExtParts(blocks, size, base, base + Start(sec, 1), n - 1, more)
  {
  }

  lemma OneBlock(blocks: seq<Bytes>, k: nat, data: Bytes)
    requires Uniform(blocks, SECTOR) && k + 1 <= |blocks| && data == Flat(blocks[k..k + 1])
    ensures data == blocks[k] && |data| == SECTOR
  {
    assert blocks[k..k + 1] == [blocks[k]];
    FlatOne(blocks[k]);
  }

  /** The check of part_add accepts a range outside the disk exactly when the 64-bit sum wraps into it. */
  lemma AddChecks(diskSectors: nat, start: nat, sectors: nat)
    requires diskSectors < U64 && start < U64 && sectors < U64 && (start + sectors) % U64 <= diskSectors
    ensures start + sectors <= diskSectors <==> start + sectors < U64
  {
    if start + sectors >= U64 {
      assert (start + sectors) % U64 == start + sectors - U64;
    }
  }
}
