// The bit-packed free maps of block.c, bit i of the map standing in byte i / 8.
module Bitmap {
  function Mask(k: nat): bv8
    requires k < 8
  {
    1 << k
  }

  // The bit is set: number i is in use.
  predicate Used(bits: seq<bv8>, i: nat)
    requires i < 8 * |bits|
  {
    bits[i / 8] & Mask(i % 8) != 0
  }

  function Members(bits: seq<bv8>, len: nat): set<nat>
    requires len <= 8 * |bits|
  {
    set i: nat | i < len && Used(bits, i)
  }

  // Setting or clearing one bit of a byte touches no other bit.
  lemma MaskBits(b: bv8, j: nat, k: nat)
    requires j < 8 && k < 8
    ensures (b | Mask(j)) & Mask(k) != 0 <==> j == k || b & Mask(k) != 0
    ensures b & !Mask(j) & Mask(k) != 0 <==> j != k && b & Mask(k) != 0
  {
    SingleBit(j);
    SingleBit(k);
  }

  lemma SingleBit(k: nat)
    requires k < 8
    ensures Mask(k) == [1, 2, 4, 8, 16, 32, 64, 128][k]
  {
  }

  function WithBit(bits: seq<bv8>, num: nat): (r: seq<bv8>)
    requires num < 8 * |bits|
    ensures |r| == |bits|
  {
    bits[num / 8 := bits[num / 8] | Mask(num % 8)]
  }

  function WithoutBit(bits: seq<bv8>, num: nat): (r: seq<bv8>)
    requires num < 8 * |bits|
    ensures |r| == |bits|
  {
    bits[num / 8 := bits[num / 8] & !Mask(num % 8)]
  }

  lemma OneBit(bits: seq<bv8>, num: nat, i: nat)
    requires num < 8 * |bits| && i < 8 * |bits|
    ensures Used(WithBit(bits, num), i) <==> i == num || Used(bits, i)
    ensures Used(WithoutBit(bits, num), i) <==> i != num && Used(bits, i)
  {
    if i / 8 == num / 8 {
      MaskBits(bits[num / 8], num % 8, i % 8);
      SameBit(i, num);
    } else {
      assert WithBit(bits, num)[i / 8] == bits[i / 8] && WithoutBit(bits, num)[i / 8] == bits[i / 8];
    }
  }

  lemma SameBit(i: nat, num: nat)
    ensures i == num <==> i / 8 == num / 8 && i % 8 == num % 8
  {
  }

  lemma OneMember(bits: seq<bv8>, num: nat, len: nat)
    requires num < len <= 8 * |bits|
    ensures Members(WithBit(bits, num), len) == Members(bits, len) + {num}
    ensures Members(WithoutBit(bits, num), len) == Members(bits, len) - {num}
  {
    hide Used, WithBit, WithoutBit;
    forall i: nat | i < len
      ensures i in Members(WithBit(bits, num), len) <==> i == num || i in Members(bits, len)
      ensures i in Members(WithoutBit(bits, num), len) <==> i != num && i in Members(bits, len)
    {
      OneBit(bits, num, i);
    }
  }

  method SetUsed(bitmap: array<bv8>, num: nat, len: nat)
    requires len <= 8 * bitmap.Length
    modifies bitmap
    ensures Members(bitmap[..], len) == old(Members(bitmap[..], len)) + if num < len then {num} else {}
    ensures bitmap[..] == if num < len then WithBit(old(bitmap[..]), num) else old(bitmap[..])
  {
    if num < len {
      OneMember(bitmap[..], num, len);
      bitmap[num / 8] := bitmap[num / 8] | Mask(num % 8);
      assert bitmap[..] == WithBit(old(bitmap[..]), num);
    }
  }

  method SetFree(bitmap: array<bv8>, num: nat, len: nat)
    requires len <= 8 * bitmap.Length
    modifies bitmap
    ensures Members(bitmap[..], len) == old(Members(bitmap[..], len)) - {num}
    ensures bitmap[..] == if num < len then WithoutBit(old(bitmap[..]), num) else old(bitmap[..])
  {
    if num < len {
      OneMember(bitmap[..], num, len);
      bitmap[num / 8] := bitmap[num / 8] & !Mask(num % 8);
      assert bitmap[..] == WithoutBit(old(bitmap[..]), num);
    }
  }

  // malloc and memset of a map for len numbers.
  method Clear(len: nat) returns (bitmap: array<bv8>)
    ensures fresh(bitmap) && bitmap.Length == (len + 7) / 8 && Members(bitmap[..], len) == {}
  {
    bitmap := new bv8[(len + 7) / 8](_ => 0);
  }

  // -1 for a number outside the map.
  function IsFree(bits: seq<bv8>, num: nat, len: nat): (r: int)
    requires len <= 8 * |bits|
    ensures r == 1 <==> num < len && num !in Members(bits, len)
    ensures r == 0 <==> num in Members(bits, len)
    ensures r == -1 <==> num >= len
  {
    if num < len then (if bits[num / 8] & Mask(num % 8) == 0 then 1 else 0) else -1
  }

  method FindFree(bitmap: array<bv8>, len: nat) returns (r: int)
    requires len <= 8 * bitmap.Length
    ensures r == -1 <==> forall i: nat :: i < len ==> i in Members(bitmap[..], len)
    ensures r != -1 ==> 0 <= r < len && r !in Members(bitmap[..], len)
    ensures r != -1 ==> forall i: nat :: i < r ==> i in Members(bitmap[..], len)
  {
    for i := 0 to len
      invariant forall j: nat :: j < i ==> Used(bitmap[..], j)
    {
      if bitmap[i / 8] & Mask(i % 8) == 0 {
        assert i !in Members(bitmap[..], len);
        return i;
      }
    }
    return -1;
  }

  // The numbers below len that are not in use.
  function Free(used: set<nat>, len: nat): set<nat> {
    set i: nat | i < len && i !in used
  }

  // Taking what find_free found lowers the free count by exactly one.
  lemma TakeOne(used: set<nat>, len: nat, num: nat)
    requires num < len && num !in used
    ensures |Free(used + {num}, len)| == |Free(used, len)| - 1
  {
    assert Free(used + {num}, len) == Free(used, len) - {num};
  }
}
