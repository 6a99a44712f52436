/**
 Names in directory entries: the short-name checksum, long-name records and
 the names they display (src/kernel/fs/fat32.c:495-609, 933-967).
 A C string is its bytes up to the terminator.
 */
module Fat32Names {
  import opened FlatBytes
  import opened LittleEndian
  import opened Fat32Slots

  const ATTR_VOL := 0x08
  const ATTR_DIR := 0x10
  const ATTR_ARCH := 0x20
  const ATTR_LFN := 0x0f

  const UNITS := 13
  const LFN_MAX := 20
  const NAME_MAX := 64

  /** The bytes of a C string: those before the first NUL. */
  function CStr(s: Bytes): (r: Bytes)
    ensures |r| <= |s| && (0 !in s ==> r == s) && 0 !in r
  {
    if s == [] || s[0] == 0 then [] else [s[0]] + CStr(s[1..])
  }

  function Upper(c: Byte): Byte {
    if 'a' as int <= c <= 'z' as int then c - 32 else c
  }

  function Lower(c: Byte): Byte {
    if 'A' as int <= c <= 'Z' as int then c + 32 else c
  }

  /** The 26 letters and nothing else change case. */
  lemma CaseOf(c: Byte)
    ensures 97 <= c <= 122 ==> 65 <= Upper(c) <= 90 && Lower(Upper(c)) == c && Upper(c) - 65 == c - 97
    ensures 65 <= c <= 90 ==> 97 <= Lower(c) <= 122 && Upper(Lower(c)) == c
    ensures !(97 <= c <= 122) ==> Upper(c) == c
    ensures !(65 <= c <= 90) ==> Lower(c) == c
  {
  }

  /** Names are equal up to the case of ASCII letters. */
  predicate NameEq(a: Bytes, b: Bytes) {
    |a| == |b| && forall i :: 0 <= i < |a| ==> Upper(a[i]) == Upper(b[i])
  }

  /** fat32_name_eq. */
  method NameEqual(a: Bytes, b: Bytes) returns (eq: bool)
    ensures eq == NameEq(a, b)
  {
    var i := 0;
    while i < |a| && i < |b|
      invariant 0 <= i <= |a| && i <= |b|
      invariant forall j :: 0 <= j < i ==> Upper(a[j]) == Upper(b[j])
    {
      if Upper(a[i]) != Upper(b[i]) {
        return false;
      }
      i := i + 1;
    }
    return i == |a| && i == |b|;
  }

  // ----- Checksum -----

  /** The checksum after the first i bytes: rotate right, then add. */
  function SumTo(raw: Bytes, i: nat): Byte
    requires i <= |raw|
  {
    if i == 0 then 0
    else
      var sum := SumTo(raw, i - 1);
      ((sum as int % 2) * 128 + sum as int / 2 + raw[i - 1] as int) % 256
  }

  function ShortSum(e: Bytes): Byte
    requires |e| >= 11
  {
    SumTo(e, 11)
  }

  /** fat32_short_sum. */
  method ComputeSum(e: Bytes) returns (sum: Byte)
    requires |e| >= 11
    ensures sum == ShortSum(e)
  {
    sum := 0;
    for i := 0 to 11
      invariant sum == SumTo(e, i)
    {
      var v := (sum as int % 2) * 128 + sum as int / 2;
      sum := (v + e[i] as int) % 256;
    }
  }

  lemma {:induction false} SumPrefix(a: Bytes, b: Bytes, i: nat)
    requires i <= |a| && i <= |b| && a[..i] == b[..i]
    ensures SumTo(a, i) == SumTo(b, i)
  {
    if i > 0 {
      assert a[i - 1] == a[..i][i - 1] && b[i - 1] == b[..i][i - 1];
      assert a[..i - 1] == a[..i][..i - 1] && b[..i - 1] == b[..i][..i - 1];
      SumPrefix(a, b, i - 1);
    }
  }

  // ----- Long-name records -----

  /** The byte offset of the k-th code unit in a record. */
  function LfnOff(k: nat): nat
    requires k < UNITS
  {
    if k < 5 then 1 + 2 * k else if k < 11 then 4 + 2 * k else 6 + 2 * k
  }

  /** The code unit number idx of a name: characters, one terminator, padding. */
  function Unit(name: Bytes, idx: nat): nat {
    if idx < |name| then name[idx] as nat else if idx == |name| then 0 else 0xffff
  }

  /** The records a name needs. */
  function Records(name: Bytes): nat {
    var n := (|name| + 12) / 13;
    if n < 1 then 1 else if n > LFN_MAX then LFN_MAX else n
  }

  /** As many records as the characters fill, thirteen in each: the last one holds at least one. */
  lemma RecordsIs(name: Bytes)
    requires 1 <= |name| <= UNITS * LFN_MAX
    ensures (Records(name) - 1) * 13 < |name| <= Records(name) * 13
  {
  }

  /** Record seq of n of a name under a checksum. */
  ghost predicate IsRecord(e: Slot, name: Bytes, sum: Byte, n: nat, seq_: nat)
    requires 1 <= seq_ <= n <= LFN_MAX
  {
    && e[0] as nat == (if seq_ == n then 0x40 + seq_ else seq_)
    && e[11] == ATTR_LFN && e[13] == sum
    && forall k :: 0 <= k < UNITS ==> Get16(e, LfnOff(k)) == Unit(name, (seq_ - 1) * UNITS + k)
  }

  /** The inner loop of fat32_build_lfn: one record. */
  method BuildRecord(name: Bytes, sum: Byte, n: nat, seq_: nat) returns (e: Slot)
    requires 1 <= seq_ <= n <= LFN_MAX
    ensures IsRecord(e, name, sum, n, seq_)
  {
    e := seq(SLOT, _ => 0);
    var k := 0;
    while k < UNITS
      invariant 0 <= k <= UNITS
      invariant forall j :: 0 <= j < k ==> Get16(e, LfnOff(j)) == Unit(name, (seq_ - 1) * UNITS + j)
    {
      var u := Unit(name, (seq_ - 1) * UNITS + k);
      ghost var e0 := e;
      e := Splice(e, LfnOff(k), Put16(u));
      Put16Get(e0, LfnOff(k), u);
      forall j | 0 <= j < k
        ensures Get16(e, LfnOff(j)) == Get16(e0, LfnOff(j))
      {
        Get16Outside(e0, LfnOff(k), Put16(u), LfnOff(j));
      }
      k := k + 1;
    }
    ghost var e0 := e;
    e := e[0 := if seq_ == n then 0x40 + seq_ else seq_][11 := ATTR_LFN][13 := sum];
    assert forall j :: 0 <= j < UNITS ==> e[LfnOff(j)] == e0[LfnOff(j)] && e[LfnOff(j) + 1] == e0[LfnOff(j) + 1];
  }

  /** The records of a name in slot order: the last one first. */
  ghost predicate AreRecords(recs: seq<Slot>, name: Bytes, sum: Byte) {
    |recs| == Records(name) &&
    forall i :: 0 <= i < |recs| ==> IsRecord(recs[i], name, sum, |recs|, |recs| - i)
  }

  /** fat32_build_lfn. */
  method BuildLfn(name: Bytes, raw: Bytes) returns (recs: seq<Slot>)
    requires |raw| == 11
    ensures AreRecords(recs, name, ShortSum(raw))
  {
    var n := Records(name);
    var sum := ComputeSum(raw);
    recs := [];
    var seq_ := n;
    while seq_ >= 1
      invariant 0 <= seq_ <= n && |recs| == n - seq_
      invariant forall i :: 0 <= i < |recs| ==> IsRecord(recs[i], name, sum, n, n - i)
    {
      var e := BuildRecord(name, sum, n, seq_);
      recs := recs + [e];
      seq_ := seq_ - 1;
    }
  }

  /** fat32_lfn_store's effect: the units of record seq are replaced. */
  ghost predicate Stored(units: seq<nat>, units': seq<nat>, seq_: nat, e: Slot)
    requires 1 <= seq_ <= LFN_MAX && |units| == UNITS * LFN_MAX
  {
    && |units'| == |units|
    && (forall j :: 0 <= j < UNITS ==> units'[(seq_ - 1) * UNITS + j] == Get16(e, LfnOff(j)))
    && (forall j :: 0 <= j < |units| && !((seq_ - 1) * UNITS <= j < seq_ * UNITS) ==> units'[j] == units[j])
  }

  function Store(units: seq<nat>, seq_: nat, e: Slot): (r: seq<nat>)
    requires 1 <= seq_ <= LFN_MAX && |units| == UNITS * LFN_MAX
    ensures Stored(units, r, seq_, e)
  {
    var b := (seq_ - 1) * UNITS;
    var mine := seq(UNITS, (j: nat) requires j < UNITS => Get16(e, LfnOff(j)));
    var r := units[..b] + mine + units[b + UNITS..];
    assert forall j :: 0 <= j < UNITS ==> r[b + j] == mine[j];
    r
  }

  /** fat32_lfn_store. */
  method LfnStore(units: seq<nat>, seq_: nat, e: Slot) returns (r: seq<nat>)
    requires 1 <= seq_ <= LFN_MAX && |units| == UNITS * LFN_MAX
    ensures r == Store(units, seq_, e)
  {
    var b := (seq_ - 1) * UNITS;
    r := units;
    for i := 0 to UNITS
      invariant |r| == |units|
      invariant forall j :: 0 <= j < |units| ==> r[j] == if b <= j < b + i then Get16(e, LfnOff(j - b)) else units[j]
    {
      r := r[b + i := Get16(e, LfnOff(i))];
    }
  }

  /** fat32_lfn_name from unit i on, with j bytes already out. */
  function LfnName(units: seq<nat>, i: nat, total: nat, j: nat): Bytes
    requires i <= total <= |units|
    decreases total - i
  {
    if i == total || j + 1 >= NAME_MAX || units[i] == 0 then []
    else if units[i] == 0xffff then LfnName(units, i + 1, total, j)
    else [if units[i] < 0x80 then units[i] else '?' as int] + LfnName(units, i + 1, total, j + 1)
  }

  /** fat32_lfn_name. */
  method LfnNameOf(units: seq<nat>, maxSeq: nat) returns (out: Bytes)
    requires maxSeq * UNITS <= |units|
    ensures out == LfnName(units, 0, maxSeq * UNITS, 0)
  {
    hide LfnName;
    var total := maxSeq * UNITS;
    out := [];
    var i := 0;
    while i < total && |out| + 1 < NAME_MAX
      invariant 0 <= i <= total
      invariant out + LfnName(units, i, total, |out|) == LfnName(units, 0, total, 0)
    {
      var u := units[i];
      NameStep(units, i, total, |out|);
      if u == 0 {
        break;
      }
      if u != 0xffff {
        Associate(out, [if u < 0x80 then u else '?' as int], LfnName(units, i + 1, total, |out| + 1));
        out := out + [if u < 0x80 then u else '?' as int];
      }
      i := i + 1;
    }
    NameEnds(units, i, total, |out|);
  }

  lemma NameStep(units: seq<nat>, i: nat, total: nat, j: nat)
    requires i < total <= |units| && j + 1 < NAME_MAX
    ensures units[i] == 0 ==> LfnName(units, i, total, j) == []
    ensures units[i] == 0xffff ==> LfnName(units, i, total, j) == LfnName(units, i + 1, total, j)
    ensures units[i] != 0 && units[i] != 0xffff ==>
              LfnName(units, i, total, j) == [if units[i] < 0x80 then units[i] else '?' as int] + LfnName(units, i + 1, total, j + 1)
  {
  }

  lemma NameEnds(units: seq<nat>, i: nat, total: nat, j: nat)
    requires i <= total <= |units|
    ensures i == total || j + 1 >= NAME_MAX ==> LfnName(units, i, total, j) == []
  {
  }

  /** A leaf name the driver accepts: 1 to 63 characters, none NUL. */
  predicate LeafName(name: Bytes) {
    1 <= |name| < NAME_MAX && 0 !in name
  }

  predicate SevenBit(name: Bytes) {
    forall i :: 0 <= i < |name| ==> name[i] < 0x80
  }

  /** What a long name comes back as: other than seven-bit characters are lost. */
  function Masked(name: Bytes): (r: Bytes)
    ensures |r| == |name| && (forall i :: 0 <= i < |name| ==> r[i] == if name[i] < 0x80 then name[i] else '?' as int)
    ensures SevenBit(name) ==> r == name
    ensures 0 !in name ==> 0 !in r
  {
    seq(|name|, i requires 0 <= i < |name| => if name[i] < 0x80 then name[i] else '?' as Byte)
  }

  /** A long name is found under itself exactly when it is seven-bit. */
  lemma MaskedFound(name: Bytes)
    ensures NameEq(Masked(name), name) <==> SevenBit(name)
  {
    if i :| 0 <= i < |name| && name[i] >= 0x80 {
      assert Upper(Masked(name)[i]) != Upper(name[i]);
    }
  }

  /** The units hold the name's records 1..n. */
  ghost predicate Holds(units: seq<nat>, name: Bytes, n: nat) {
    UNITS * n <= |units| && forall idx :: 0 <= idx < UNITS * n ==> units[idx] == Unit(name, idx)
  }

  lemma {:induction false} LfnNameFrom(units: seq<nat>, name: Bytes, n: nat, i: nat)
    requires LeafName(name) && n == Records(name) && Holds(units, name, n) && i <= |name|
    ensures i <= n * UNITS && LfnName(units, i, n * UNITS, i) == Masked(name)[i..]
    decreases |name| - i
  {
    if i < |name| {
      assert units[i] == Unit(name, i);
      LfnNameFrom(units, name, n, i + 1);
      assert name[i] in name;
      assert Masked(name)[i..] == [Masked(name)[i]] + Masked(name)[i + 1..];
    } else if i < n * UNITS {
      assert units[i] == Unit(name, i);
    }
  }

  /** The units after storing records n, n - 1, ... down to n - k + 1 in slot order. */
  ghost function StoreAll(units: seq<nat>, recs: seq<Slot>, k: nat): (r: seq<nat>)
    requires k <= |recs| <= LFN_MAX && |units| == UNITS * LFN_MAX
    ensures |r| == |units|
  {
    if k == 0 then units else Store(StoreAll(units, recs, k - 1), |recs| - k + 1, recs[k - 1])
  }

  lemma {:induction false} StoreAllHolds(units: seq<nat>, recs: seq<Slot>, name: Bytes, sum: Byte, k: nat)
    requires k <= |recs| <= LFN_MAX && |units| == UNITS * LFN_MAX && AreRecords(recs, name, sum)
    ensures forall idx :: (|recs| - k) * UNITS <= idx < |recs| * UNITS ==> StoreAll(units, recs, k)[idx] == Unit(name, idx)
  {
    if k > 0 {
      StoreAllHolds(units, recs, name, sum, k - 1);
      hide Store, Unit;
      var seq_ := |recs| - k + 1;
      var before, after := StoreAll(units, recs, k - 1), StoreAll(units, recs, k);
      assert IsRecord(recs[k - 1], name, sum, |recs|, seq_);
      forall idx | (|recs| - k) * UNITS <= idx < |recs| * UNITS
        ensures after[idx] == Unit(name, idx)
      {
        if idx < seq_ * UNITS {
          var j := idx - (seq_ - 1) * UNITS;
          assert after[(seq_ - 1) * UNITS + j] == Get16(recs[k - 1], LfnOff(j));
        }
      }
    }
  }

  /**
   Long names round-trip: storing a name's records in slot order and decoding
   gives a seven-bit name back, and every record carries the checksum.
   */
  lemma LfnRoundTrip(units: seq<nat>, recs: seq<Slot>, name: Bytes, sum: Byte)
    requires LeafName(name) && AreRecords(recs, name, sum) && |units| == UNITS * LFN_MAX
    ensures LfnName(StoreAll(units, recs, |recs|), 0, |recs| * UNITS, 0) == Masked(name)
    ensures SevenBit(name) ==> LfnName(StoreAll(units, recs, |recs|), 0, |recs| * UNITS, 0) == name
    ensures forall i :: 0 <= i < |recs| ==> recs[i][13] == sum && recs[i][11] == ATTR_LFN
  {
    StoreAllHolds(units, recs, name, sum, |recs|);
    LfnNameFrom(StoreAll(units, recs, |recs|), name, |recs|, 0);
    assert Masked(name)[0..] == Masked(name);
    forall i | 0 <= i < |recs|
      ensures recs[i][13] == sum && recs[i][11] == ATTR_LFN
    {
      assert IsRecord(recs[i], name, sum, |recs|, |recs| - i);
    }
  }
}
