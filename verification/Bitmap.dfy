/** Bits in a byte array (src/kernel/memory/bitmap.c). */
module Bitmap {
  /** b >> k. */
  function Shr(b: bv8, k: nat): bv8
    requires k < 8
  {
    if k == 0 then b else if k == 1 then b >> 1 else if k == 2 then b >> 2 else if k == 3 then b >> 3
    else if k == 4 then b >> 4 else if k == 5 then b >> 5 else if k == 6 then b >> 6 else b >> 7
  }

  /** 1u << k. */
  function Mask(k: nat): bv8
    requires k < 8
  {
    if k == 0 then 1 else if k == 1 then 2 else if k == 2 then 4 else if k == 3 then 8
    else if k == 4 then 16 else if k == 5 then 32 else if k == 6 then 64 else 128
  }

  predicate Bit(b: bv8, k: nat)
    requires k < 8
  {
    Shr(b, k) & 1 == 1
  }

  function WithBit(b: bv8, k: nat): bv8
    requires k < 8
  {
    b | Mask(k)
  }

  function WithoutBit(b: bv8, k: nat): bv8
    requires k < 8
  {
    b & !Mask(k)
  }

  lemma SetBit(b: bv8, k: nat, j: nat)
    requires k < 8 && j < 8
    ensures Bit(WithBit(b, k), j) <==> j == k || Bit(b, j)
  {
  }

  lemma ClearBit(b: bv8, k: nat, j: nat)
    requires k < 8 && j < 8
    ensures Bit(WithoutBit(b, k), j) <==> j != k && Bit(b, j)
  {
  }

  /** Bit k is the one that 1 << k masks. */
  lemma BitIsMask(b: bv8, k: nat)
    requires k < 8
    ensures Mask(k) == (1 as bv8) << k
    ensures Bit(b, k) <==> b & Mask(k) != 0
  {
  }

  lemma AllOnes(j: nat)
    requires j < 8
    ensures Bit(0xff, j)
  {
  }

  /** The first size bits of the bytes. */
  ghost function ViewOf(s: seq<bv8>, size: nat): (v: seq<bool>)
    requires size <= 8 * |s|
    ensures |v| == size && forall i :: 0 <= i < size ==> v[i] == Bit(s[i / 8], i % 8)
  {
    seq(size, i requires 0 <= i < size <= 8 * |s| => Bit(s[i / 8], i % 8))
  }

  lemma OneBit(s: seq<bv8>, size: nat, index: nat, b: bv8, value: bool)
    requires size <= 8 * |s| && index < size
    requires forall j :: 0 <= j < 8 ==> (Bit(b, j) <==> if j == index % 8 then value else Bit(s[index / 8], j))
    ensures ViewOf(s[index / 8 := b], size) == ViewOf(s, size)[index := value]
  {
    hide Bit;
    var v, w := ViewOf(s[index / 8 := b], size), ViewOf(s, size)[index := value];
    forall i | 0 <= i < size
      ensures v[i] == w[i]
    {
      if i / 8 == index / 8 {
        assert i == index <==> i % 8 == index % 8;
      }
    }
  }

  class Bits {
    const bits: array<bv8>
    var size: nat

    ghost predicate Valid()
      reads this
    {
      size <= 8 * bits.Length
    }

    /** The bits as truth values. */
    ghost function View(): (v: seq<bool>)
      requires Valid()
      reads this, bits
      ensures |v| == size && forall i :: 0 <= i < size ==> v[i] == Bit(bits[i / 8], i % 8)
    {
      ViewOf(bits[..], size)
    }

    /** bitmap_init and bitmap_set_all(1). */
    constructor (count: nat)
      ensures Valid() && fresh(this) && fresh(bits) && size == count && forall i :: 0 <= i < count ==> View()[i]
    {
      bits := new bv8[(count + 7) / 8](_ => 0xff);
      size := count;
      new;
      forall i | 0 <= i < count
        ensures View()[i]
      {
        AllOnes(i % 8);
      }
    }

    /** bitmap_set: an index past the end is ignored. */
    method Set(index: nat)
      requires Valid()
      modifies bits
      ensures View() == if index < size then old(View())[index := true] else old(View())
    {
      hide Bit, Mask, Shr, WithBit, WithoutBit;
      if index >= size {
        return;
      }
      ghost var b, s := bits[index / 8], bits[..];
      forall j | 0 <= j < 8
        ensures Bit(WithBit(b, index % 8), j) <==> if j == index % 8 then true else Bit(b, j)
      {
        SetBit(b, index % 8, j);
      }
      OneBit(s, size, index, WithBit(b, index % 8), true);
      bits[index / 8] := WithBit(bits[index / 8], index % 8);
      assert bits[..] == s[index / 8 := WithBit(b, index % 8)];
    }

    /** bitmap_clear: an index past the end is ignored. */
    method Clear(index: nat)
      requires Valid()
      modifies bits
      ensures View() == if index < size then old(View())[index := false] else old(View())
    {
      hide Bit, Mask, Shr, WithBit, WithoutBit;
      if index >= size {
        return;
      }
      ghost var b, s := bits[index / 8], bits[..];
      forall j | 0 <= j < 8
        ensures Bit(WithoutBit(b, index % 8), j) <==> if j == index % 8 then false else Bit(b, j)
      {
        ClearBit(b, index % 8, j);
      }
      OneBit(s, size, index, WithoutBit(b, index % 8), false);
      bits[index / 8] := WithoutBit(bits[index / 8], index % 8);
      assert bits[..] == s[index / 8 := WithoutBit(b, index % 8)];
    }

    /** bitmap_test: an index past the end reads as used. */
    method Test(index: nat) returns (set_: bool)
      requires Valid()
      ensures set_ == (index >= size || View()[index])
    {
      if index >= size {
        return true;
      }
      return Shr(bits[index / 8], index % 8) & 1 == 1;
    }

    /** bitmap_find_first_clear: the lowest clear bit, or size if there is none. */
    method FindFirstClear() returns (i: nat)
      requires Valid()
      ensures i <= size && (forall j :: 0 <= j < i ==> View()[j]) && (i < size ==> !View()[i])
    {
      i := 0;
      while i < size
        invariant i <= size && forall j :: 0 <= j < i ==> View()[j]
      {
        var used := Test(i);
        if !used {
          return;
        }
        i := i + 1;
      }
    }
  }
}
