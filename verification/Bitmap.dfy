/** The allocation bitmap: bits packed eight to a byte, changed in place. */
module Bitmaps {
  import opened Wrappers

  function Mask(k: nat): (m: bv8)
    requires k < 8
  {
    (1 as bv8) << k
  }

  predicate BitOf(b: bv8, k: nat)
    requires k < 8
  {
    b & Mask(k) != 0
  }

  /** Or-ing a mask sets exactly its own bit. */
  lemma SetBit(b: bv8, k: nat, j: nat)
    requires k < 8 && j < 8
    ensures BitOf(b | Mask(k), j) <==> j == k || BitOf(b, j)
  {
    MaskCases(k);
    MaskCases(j);
  }

  /** And-ing the complement of a mask clears exactly its own bit. */
  lemma ClearBit(b: bv8, k: nat, j: nat)
    requires k < 8 && j < 8
    ensures BitOf(b & !Mask(k), j) <==> j != k && BitOf(b, j)
  {
    MaskCases(k);
    MaskCases(j);
  }

  lemma MaskCases(k: nat)
    requires k < 8
    ensures Mask(k) == [1, 2, 4, 8, 16, 32, 64, 128][k]
  {
    if
    case k == 0 => assert Mask(0) == 1;
    case k == 1 => assert Mask(1) == 2;
    case k == 2 => assert Mask(2) == 4;
    case k == 3 => assert Mask(3) == 8;
    case k == 4 => assert Mask(4) == 16;
    case k == 5 => assert Mask(5) == 32;
    case k == 6 => assert Mask(6) == 64;
    case k == 7 => assert Mask(7) == 128;
  }

  /** The number of set bits. */
  function Ones(bits: seq<bool>): nat
  {
    if bits == [] then 0 else Ones(bits[..|bits| - 1]) + if bits[|bits| - 1] then 1 else 0
  }

  /** Setting a clear bit adds one to the count; clearing a set bit takes one away. */
  lemma {:induction false} OnesUpdate(bits: seq<bool>, i: nat, v: bool)
    requires i < |bits|
    ensures Ones(bits[i := v]) == Ones(bits) - (if bits[i] then 1 else 0) + (if v then 1 else 0)
  {
    var n := |bits| - 1;
    if i == n {
      assert bits[i := v][..n] == bits[..n];
    } else {
      assert bits[i := v][..n] == bits[..n][i := v];
      OnesUpdate(bits[..n], i, v);
    }
  }

  lemma OnesPrefix(bits: seq<bool>, i: nat)
    ensures Ones(bits[..0]) == 0
    ensures i < |bits| ==> Ones(bits[..i + 1]) == Ones(bits[..i]) + if bits[i] then 1 else 0
  {
    if i < |bits| {
      assert bits[..i + 1][..i] == bits[..i];
    }
  }

  /** The first bits of some bytes, in order. */
  ghost function BitSeq(bytes: seq<bv8>, size: nat): (s: seq<bool>)
    requires size <= |bytes| * 8
    ensures |s| == size
  {
    seq(size, i requires 0 <= i < size => BitOf(bytes[i / 8], i % 8))
  }

  /** Changing one bit of one byte changes one bit of the sequence. */
  lemma UpdateBit(bytes: seq<bv8>, size: nat, index: nat, byte: bv8, value: bool)
    requires index < size <= |bytes| * 8
    requires forall j: nat :: j < 8 ==> BitOf(byte, j) == if j == index % 8 then value else BitOf(bytes[index / 8], j)
    ensures BitSeq(bytes[index / 8 := byte], size) == BitSeq(bytes, size)[index := value]
  {
    hide Mask, BitOf;
    var after := BitSeq(bytes[index / 8 := byte], size);
    forall j | 0 <= j < size
      ensures after[j] == BitSeq(bytes, size)[index := value][j]
    {
      SameBit(index, j);
    }
  }

  class Bitmap {
    const data: array<bv8>
    const size: nat

    ghost predicate Valid()
    {
      size <= data.Length * 8
    }

    /** The bitmap as a sequence of booleans. */
    ghost function Bits(): (s: seq<bool>)
      requires Valid()
      reads data
      ensures |s| == size
    {
      BitSeq(data[..], size)
    }

    constructor (storage: array<bv8>, bits: nat)
      requires (bits + 7) / 8 <= storage.Length
      modifies storage
      ensures Valid() && data == storage && size == bits
      ensures Bits() == seq(bits, i => false)
    {
      data, size := storage, bits;
      new;
      var required := (bits + 7) / 8;
      for k := 0 to required
        invariant forall j :: 0 <= j < k ==> data[j] == 0
      {
        data[k] := 0;
      }
      forall i | 0 <= i < size
        ensures !BitOf(data[i / 8], i % 8)
      {
        MaskCases(i % 8);
      }
    }

    method Set(index: nat)
      requires Valid() && index < size
      modifies data
      ensures Bits() == old(Bits())[index := true]
    {
      hide Mask, BitOf, BitSeq;
      var byte := data[index / 8] | Mask(index % 8);
      forall j: nat | j < 8
        ensures BitOf(byte, j) == if j == index % 8 then true else BitOf(data[index / 8], j)
      {
        SetBit(data[index / 8], index % 8, j);
      }
      UpdateBit(data[..], size, index, byte, true);
      data[index / 8] := byte;
      assert data[..] == old(data[..])[index / 8 := byte];
    }

    method Clear(index: nat)
      requires Valid() && index < size
      modifies data
      ensures Bits() == old(Bits())[index := false]
    {
      hide Mask, BitOf, BitSeq;
      var byte := data[index / 8] & !Mask(index % 8);
      forall j: nat | j < 8
        ensures BitOf(byte, j) == if j == index % 8 then false else BitOf(data[index / 8], j)
      {
        ClearBit(data[index / 8], index % 8, j);
      }
      UpdateBit(data[..], size, index, byte, false);
      data[index / 8] := byte;
      assert data[..] == old(data[..])[index / 8 := byte];
    }

    method IsSet(index: nat) returns (r: bool)
      requires Valid() && index < size
      ensures r == Bits()[index]
    {
      r := data[index / 8] & Mask(index % 8) != 0;
    }

    /** Takes the lowest clear bit, and fails only when there is none. */
    method FindAndSet() returns (r: Option<nat>)
      requires Valid()
      modifies data
      ensures r.None? ==> Bits() == old(Bits()) && forall i :: 0 <= i < size ==> Bits()[i]
      ensures r.Some? ==> r.value < size && !old(Bits())[r.value]
                          && Bits() == old(Bits())[r.value := true]
                          && forall i :: 0 <= i < r.value ==> old(Bits())[i]
    {
      for i := 0 to size
        invariant Bits() == old(Bits())
        invariant forall j :: 0 <= j < i ==> Bits()[j]
      {
        var b := IsSet(i);
        if !b {
          Set(i);
          return Some(i);
        }
      }
      r := None;
    }

    method CountSet() returns (count: nat)
      requires Valid()
      ensures count == Ones(Bits())
    {
      hide Bits, Ones;
      count := 0;
      ghost var bits := Bits();
      OnesPrefix(bits, 0);
      for i := 0 to size
        invariant count == Ones(bits[..i])
      {
        var b := IsSet(i);
        OnesPrefix(bits, i);
        if b {
          count := count + 1;
        }
      }
      assert bits[..size] == bits;
    }
  }

  /** A bit is fixed by its byte and its place in the byte. */
  lemma SameBit(i: nat, j: nat)
    ensures i / 8 == j / 8 && i % 8 == j % 8 <==> i == j
  {
  }
}
