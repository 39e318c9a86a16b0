/** The bit array that rehash uses to see which link numbers are taken. */
module IdMask {

  predicate BitOf(byte: bv8, k: nat)
    requires k < 8
  {
    byte & (1 << k) != 0
  }

  predicate Isset(mask: seq<bv8>, bit: nat)
    requires bit / 8 < |mask|
  {
    BitOf(mask[bit / 8], bit % 8)
  }

  /** Or-ing one bit into a byte sets that bit and no other. */
  lemma {:induction false} OrSetsOneBit(byte: bv8, j: nat, k: nat)
    requires j < 8 && k < 8
    ensures BitOf(byte | (1 << j), k) <==> j == k || BitOf(byte, k)
  {
    var m: bv8 := 1 << j;
    assert m == if j == 0 then 1 else if j == 1 then 2 else if j == 2 then 4 else if j == 3 then 8
                else if j == 4 then 16 else if j == 5 then 32 else if j == 6 then 64 else 128;
    var w: bv8 := 1 << k;
    assert w == if k == 0 then 1 else if k == 1 then 2 else if k == 2 then 4 else if k == 3 then 8
                else if k == 4 then 16 else if k == 5 then 32 else if k == 6 then 64 else 128;
  }

  method BitSet(mask: array<bv8>, bit: nat)
    requires bit / 8 < mask.Length
    modifies mask
    ensures forall j: nat :: j / 8 < mask.Length ==> (Isset(mask[..], j) <==> j == bit || Isset(old(mask[..]), j))
  {
    mask[bit / 8] := mask[bit / 8] | (1 << (bit % 8));
    forall j: nat | j / 8 < mask.Length
      ensures Isset(mask[..], j) <==> j == bit || Isset(old(mask[..]), j)
    {
      if j / 8 == bit / 8 {
        OrSetsOneBit(old(mask[bit / 8]), bit % 8, j % 8);
      }
    }
  }

  method BitIsset(mask: array<bv8>, bit: nat) returns (r: bool)
    requires bit / 8 < mask.Length
    ensures r <==> Isset(mask[..], bit)
  {
    r := mask[bit / 8] & (1 << (bit % 8)) != 0;
  }

  /** memset(mask, 0, bytes) */
  method Clear(mask: array<bv8>, bytes: nat)
    requires bytes <= mask.Length
    modifies mask
    ensures forall j: nat :: j < 8 * bytes ==> !Isset(mask[..], j)
    ensures mask[bytes..] == old(mask[bytes..])
  {
    for i := 0 to bytes
      invariant forall j :: 0 <= j < i ==> mask[j] == 0
      invariant mask[bytes..] == old(mask[bytes..])
    {
      mask[i] := 0;
    }
    forall j: nat | j < 8 * bytes ensures !Isset(mask[..], j) {
      assert mask[..][j / 8] == 0;
    }
  }
}
