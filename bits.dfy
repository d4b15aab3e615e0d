/** Single bits of a 64-bit mask. Value num (1 <= num <= 31) owns bit num-1,
    set by OR-ing in `1 << (num-1)`; a bit is tested by shifting the mask
    down: `(mask >> (num-1)) & 1`. */
module Bits {

  /** The shift amount num-1 of value num, as a 6-bit count (ShiftValue
      shows it is num-1). */
  function Shift(num: int): bv6
    requires 1 <= num <= 31
  {
    if num == 1 then 0 else Shift(num - 1) + 1
  }

  /** `1 << (num-1)`: the mask of value num. */
  function Bit(num: int): bv64
    requires 1 <= num <= 31
  {
    1 << Shift(num)
  }

  /** Bit num-1 of mask is set. */
  predicate Has(mask: bv64, num: int)
    requires 1 <= num <= 31
  {
    (mask >> Shift(num)) & 1 == 1
  }

  lemma {:induction false} ShiftValue(num: int)
    requires 1 <= num <= 31
    ensures Shift(num) as int == num - 1
  {
    if num > 1 {
      ShiftValue(num - 1);
    }
  }

  /** Distinct values own distinct bits. */
  lemma ShiftInjective(v: int, w: int)
    requires 1 <= v <= 31 && 1 <= w <= 31
    ensures Shift(v) == Shift(w) <==> v == w
  {
    ShiftValue(v);
    ShiftValue(w);
  }

  /** OR-ing in bit a sets bit a and no other. */
  lemma OrBits(mask: bv64, a: bv6, b: bv6)
    ensures ((mask | (1 << a)) >> b) & 1 == 1 <==> (mask >> b) & 1 == 1 || a == b
  {
  }

  /** XOR-ing in bit a flips bit a and no other. */
  lemma XorBits(mask: bv64, a: bv6, b: bv6)
    ensures ((mask ^ (1 << a)) >> b) & 1 == 1 <==> ((mask >> b) & 1 == 1) != (a == b)
  {
  }

  /** OR-ing in the bit of v sets that bit and no other. */
  lemma HasOr(mask: bv64, v: int, w: int)
    requires 1 <= v <= 31 && 1 <= w <= 31
    ensures Has(mask | Bit(v), w) <==> Has(mask, w) || v == w
  {
    OrBits(mask, Shift(v), Shift(w));
    ShiftInjective(v, w);
  }

  /** XOR-ing in the bit of v flips that bit and no other. */
  lemma HasXor(mask: bv64, v: int, w: int)
    requires 1 <= v <= 31 && 1 <= w <= 31
    ensures Has(mask ^ Bit(v), w) <==> (Has(mask, w) != (v == w))
  {
    XorBits(mask, Shift(v), Shift(w));
    ShiftInjective(v, w);
  }

  lemma AbsorbsWhenSet(mask: bv64, v: int)
    requires 1 <= v <= 31
    ensures Has(mask, v) ==> (mask | Bit(v)) == mask
  {
  }

  lemma SetWhenAbsorbs(mask: bv64, v: int)
    requires 1 <= v <= 31
    ensures (mask | Bit(v)) == mask ==> Has(mask, v)
  {
  }

  /** OR-ing in a bit leaves a mask unchanged exactly when the bit is set. */
  lemma OrAbsorbs(mask: bv64, v: int)
    requires 1 <= v <= 31
    ensures (mask | Bit(v)) == mask <==> Has(mask, v)
  {
    AbsorbsWhenSet(mask, v);
    SetWhenAbsorbs(mask, v);
  }

  /** XOR after OR on a clear bit gives the mask back. */
  lemma OrThenXor(mask: bv64, v: int)
    requires 1 <= v <= 31 && !Has(mask, v)
    ensures (mask | Bit(v)) ^ Bit(v) == mask
  {
  }

  /** The zero mask holds no value. */
  lemma HasZero(v: int)
    requires 1 <= v <= 31
    ensures !Has(0, v)
  {
  }

  /** The mask of v holds v and no other value. */
  lemma BitOnly(v: int, w: int)
    requires 1 <= v <= 31 && 1 <= w <= 31
    ensures Has(Bit(v), w) <==> v == w
  {
    HasOr(0, v, w);
    HasZero(w);
    assert 0 | Bit(v) == Bit(v);
  }
}
