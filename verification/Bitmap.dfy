// Bits of a char buffer (bitmap.c).
module Bitmap {

  function BitAt(data: seq<bv8>, bit: nat): bool
    requires bit < 8 * |data|
  {
    data[bit / 8] & ((1 as bv8) << (bit % 8)) != 0
  }

  /** Bits are numbered byte by byte, from the least significant bit of each. */
  lemma BitOrder(d: seq<bv8>, i: nat, j: nat)
    requires i < |d| && j < 8
    ensures BitAt(d, 8 * i + j) <==> (d[i] >> j) & 1 == 1
  {
    var x := d[i];
    assert (8 * i + j) / 8 == i && (8 * i + j) % 8 == j;
    assert x & ((1 as bv8) << j) != 0 <==> (x >> j) & 1 == 1;
  }

  method BitGet(data: array<bv8>, bit: nat) returns (r: int)
    requires bit < 8 * data.Length
    ensures r == if BitAt(data[..], bit) then 1 else 0
  {
    var pos, b := bit / 8, bit % 8;
    if data[pos] & ((1 as bv8) << b) != 0 {
      return 1;
    } else {
      return 0;
    }
  }

  function WithBit(x: bv8, b: nat, value: int): bv8
    requires b < 8
  {
    if value == 0 then x & !((1 as bv8) << b) else if value == 1 then x | ((1 as bv8) << b) else x
  }

  lemma WithBitAt(x: bv8, b: nat, value: int, j: nat)
    requires b < 8 && j < 8
    ensures WithBit(x, b, value) & ((1 as bv8) << j) != 0
            <==> if j == b && (value == 0 || value == 1) then value == 1 else x & ((1 as bv8) << j) != 0
  {
    MasksApart(b, j);
    MaskedBits(x, (1 as bv8) << b, (1 as bv8) << j);
  }

  lemma MasksApart(b: nat, j: nat)
    requires b < 8 && j < 8
    ensures (1 as bv8) << b != 0 && (b != j ==> ((1 as bv8) << b) & ((1 as bv8) << j) == 0)
  {
  }

  lemma MaskedBits(x: bv8, p: bv8, q: bv8)
    ensures (x & !p) & p == 0 && (x | p) & p == p
    ensures p & q == 0 ==> (x & !p) & q == x & q && (x | p) & q == x & q
  {
  }

  lemma StoredBit(d: seq<bv8>, bit: nat, value: int, j: nat)
    requires bit < 8 * |d| && j < 8 * |d|
    ensures BitAt(d[bit / 8 := WithBit(d[bit / 8], bit % 8, value)], j)
            == if j == bit && (value == 0 || value == 1) then value == 1 else BitAt(d, j)
  {
    if j / 8 == bit / 8 {
      WithBitAt(d[bit / 8], bit % 8, value, j % 8);
    }
  }

  /** Set one bit to 0 or 1 and leave every other bit alone; other values do nothing. */
  method BitSet(data: array<bv8>, bit: nat, value: int)
    requires bit < 8 * data.Length
    modifies data
    ensures forall j :: 0 <= j < 8 * data.Length ==>
              BitAt(data[..], j) == if j == bit && (value == 0 || value == 1) then value == 1
                else old(BitAt(data[..], j))
  {
    var pos, b := bit / 8, bit % 8;
    if value == 0 {
      data[pos] := data[pos] & !((1 as bv8) << b);
    } else if value == 1 {
      data[pos] := data[pos] | ((1 as bv8) << b);
    }
    assert data[..] == old(data[..])[pos := WithBit(old(data[pos]), b, value)];
    forall j | 0 <= j < 8 * data.Length
      ensures BitAt(data[..], j) == if j == bit && (value == 0 || value == 1) then value == 1
                else old(BitAt(data[..], j))
    {
      StoredBit(old(data[..]), bit, value, j);
    }
  }
}
