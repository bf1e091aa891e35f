/** The standard-library adapters for `id128_t`: `std::hash`,
    `std::equal_to`, `std::less` and `std::greater`.

    `std::hash<uint64_t>` is implementation-defined, so the word hash is a
    parameter `h`.  `size_t` is taken to be 64 bits wide, so `<< 1` drops the
    top bit. */
module Adapters {
  import opened Words
  import opened Ids

  const TWO63: nat := 0x8000_0000_0000_0000

  /** `w << 1` on a 64-bit `size_t`: the top bit falls off. */
  function ShiftLeft1(w: u64): (r: u64)
    ensures r == 2 * (w % TWO63)
  {
    if w < TWO63 then
      DivModUnique(w, TWO63, 0, w);
      DivModUnique(w * 2, TWO64, 0, w * 2);
      (w * 2) % TWO64
    else
      DivModUnique(w, TWO63, 1, w - TWO63);
      DivModUnique(w * 2, TWO64, 1, 2 * (w - TWO63));
      (w * 2) % TWO64
  }

  /** Bit `k` of `w << 1` is bit `k - 1` of `w`; bit 0 is clear. */
  lemma ShiftBit(w: u64, k: nat)
    requires k < 64
    ensures Bit(ShiftLeft1(w), k) == (k > 0 && Bit(w, k - 1))
  {
    DoubleBit(w % TWO63, k);
    if k > 0 {
      assert Pow(2, 63) == TWO63 by { PowBits(); }
      ModBit(w, k - 1, 63);
    }
  }

  /** Every bit of `(a << 1) ^ b` on 64 bits. */
  lemma XorShiftBits(a: u64, b: u64)
    ensures forall k :: 0 <= k < 64 ==>
      Bit(Bitwise(Xor, ShiftLeft1(a), b, 64), k) == ((k > 0 && Bit(a, k - 1)) != Bit(b, k))
  {
    forall k | 0 <= k < 64
      ensures Bit(Bitwise(Xor, ShiftLeft1(a), b, 64), k) == ((k > 0 && Bit(a, k - 1)) != Bit(b, k))
    {
      BitwiseBit(Xor, ShiftLeft1(a), b, 64, k);
      ShiftBit(a, k);
    }
  }

  /** `std::hash<id128_t>`: `(hash(hi) << 1) ^ hash(lo)` on a 64-bit `size_t`.
      Bit 0 is bit 0 of `hash(lo)`; every higher bit `k` is bit `k - 1` of
      `hash(hi)` XORed with bit `k` of `hash(lo)`. */
  function Hash(h: u64 -> u64, x: Id128): (r: u64)
    ensures Bit(r, 0) == Bit(h(x.lo), 0)
    ensures forall k :: 0 < k < 64 ==> Bit(r, k) == (Bit(h(x.hi), k - 1) != Bit(h(x.lo), k))
  {
    PowBits();
    XorShiftBits(h(x.hi), h(x.lo));
    Bitwise(Xor, ShiftLeft1(h(x.hi)), h(x.lo), 64)
  }

  /** `std::equal_to<id128_t>`: `equals`. */
  function EqualTo(a: Id128, b: Id128): (r: bool)
    ensures r <==> Value(a) == Value(b)
  {
    Equals(a, b)
  }

  /** `std::less<id128_t>`: `lt`. */
  function Less(a: Id128, b: Id128): (r: bool)
    ensures r <==> Value(a) < Value(b)
  {
    Lt(a, b)
  }

  /** `std::greater<id128_t>`: `gt`. */
  function Greater(a: Id128, b: Id128): (r: bool)
    ensures r <==> Value(a) > Value(b)
  {
    Gt(a, b)
  }

  /** `less` is a strict weak order whose equivalence is `equal_to`, and
      `greater` is `less` reversed: what ordered containers keyed on
      identifiers need. */
  lemma LessOrdersKeys(a: Id128, b: Id128, c: Id128)
    ensures !Less(a, a)
    ensures Less(a, b) && Less(b, c) ==> Less(a, c)
    ensures !Less(a, b) && !Less(b, a) <==> EqualTo(a, b)
    ensures EqualTo(a, b) <==> a == b
    ensures Greater(a, b) <==> Less(b, a)
  {
    ValueInjective(a, b);
  }

  /** Equal identifiers hash equally, for any word hash. */
  lemma HashAgreesWithEqualTo(h: u64 -> u64, a: Id128, b: Id128)
    requires EqualTo(a, b)
    ensures Hash(h, a) == Hash(h, b)
  {
    ValueInjective(a, b);
  }

  /** `<< 1` on 64 bits drops the top bit of `hash(hi)`: identifiers whose
      `hi` hashes differ only there hash equally. */
  lemma HashDropsTopBit(h: u64 -> u64, x: Id128, y: Id128)
    requires x.lo == y.lo && h(x.hi) % TWO63 == h(y.hi) % TWO63
    ensures Hash(h, x) == Hash(h, y)
  {
    assert ShiftLeft1(h(x.hi)) == ShiftLeft1(h(y.hi));
  }
}
