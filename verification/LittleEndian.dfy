/** The little-endian accessors of src/kernel/fs/fat32.c:31-53. */
module LittleEndian {
  import opened Errors
  import opened FlatBytes

  function Get16(s: Bytes, at: nat): (v: nat)
    requires at + 2 <= |s|
    ensures v < 0x1_0000
  {
    s[at] as nat + 0x100 * s[at + 1] as nat
  }

  function Get32(s: Bytes, at: nat): (v: nat)
    requires at + 4 <= |s|
    ensures v < U32
  {
    s[at] as nat + 0x100 * s[at + 1] as nat + 0x1_0000 * s[at + 2] as nat + 0x100_0000 * s[at + 3] as nat
  }

  function Put16(v: nat): (r: Bytes)
    ensures |r| == 2
  {
    [v % 0x100, v / 0x100 % 0x100]
  }

  function Put32(v: nat): (r: Bytes)
    ensures |r| == 4
  {
    [v % 0x100, v / 0x100 % 0x100, v / 0x1_0000 % 0x100, v / 0x100_0000 % 0x100]
  }

  lemma Put16Get(s: Bytes, at: nat, v: nat)
    requires at + 2 <= |s| && v < 0x1_0000
    ensures Get16(Splice(s, at, Put16(v)), at) == v
  {
  }

  lemma Put32Get(s: Bytes, at: nat, v: nat)
    requires at + 4 <= |s| && v < U32
    ensures Get32(Splice(s, at, Put32(v)), at) == v
  {
    SpliceAt(s, at, Put32(v));
    hide Splice;
    var r := Splice(s, at, Put32(v));
    var d := Put32(v);
    assert r[at + 0] == d[0] && r[at + 1] == d[1] && r[at + 2] == d[2] && r[at + 3] == d[3];
    Bytes4(v);
  }

  /** The byte at the address counts ones, each later one 256 times as much. */
  lemma LeastFirst(s: Bytes, at: nat, v: Byte)
    ensures at + 2 <= |s| ==> Get16(s[at := v], at) == Get16(s, at) + v - s[at]
    ensures at + 2 <= |s| ==> Get16(s[at + 1 := v], at) == Get16(s, at) + 0x100 * (v - s[at + 1])
    ensures at + 4 <= |s| ==> Get32(s, at) == Get16(s, at) + 0x1_0000 * Get16(s, at + 2)
    ensures Get16([0, 0], 0) == 0
  {
  }

  lemma Bytes4(v: nat)
    requires v < U32
    ensures v == v % 0x100 + 0x100 * (v / 0x100 % 0x100) + 0x1_0000 * (v / 0x1_0000 % 0x100) + 0x100_0000 * (v / 0x100_0000 % 0x100)
  {
  }

  /** A word outside the spliced range reads as before. */
  lemma Get32Outside(s: Bytes, at: nat, data: Bytes, other: nat)
    requires at + |data| <= |s| && other + 4 <= |s| && (other + 4 <= at || at + |data| <= other)
    ensures Get32(Splice(s, at, data), other) == Get32(s, other)
  {
    var r := Splice(s, at, data);
    assert forall i :: 0 <= i < |s| && (i < at || at + |data| <= i) ==> r[i] == s[i];
  }

  lemma Get16Outside(s: Bytes, at: nat, data: Bytes, other: nat)
    requires at + |data| <= |s| && other + 2 <= |s| && (other + 2 <= at || at + |data| <= other)
    ensures Get16(Splice(s, at, data), other) == Get16(s, other)
  {
  }
}
