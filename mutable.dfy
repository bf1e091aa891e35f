/** An `id128_t` object: the two words it stores, updated in place by
    `incr`, `decr`, the prefix and postfix `++`/`--` operators and `flip`. */
module Mutable {
  import opened Words
  import Ids

  /** `std::swap(octets[i], octets[15 - i])` for `i` from 0 to 7. */
  method ReverseOctets(octets: array<u8>)
    requires octets.Length == 16
    modifies octets
    ensures octets[..] == Ids.Reverse(old(octets[..]))
  {
    for i := 0 to 8
      invariant forall k :: 0 <= k < i ==> octets[k] == old(octets[15 - k]) && octets[15 - k] == old(octets[k])
      invariant forall k :: i <= k < 16 - i ==> octets[k] == old(octets[k])
    {
      octets[i], octets[15 - i] := octets[15 - i], octets[i];
    }
  }

  class Id128 {
    var lo: u64
    var hi: u64

    /** The identifier this object currently holds. */
    function Model(): Ids.Id128
      reads this
    {
      Ids.Id128(hi, lo)
    }

    /** `id128_t(hi, lo)` */
    constructor (hi: u64, lo: u64)
      ensures this.hi == hi && this.lo == lo
      ensures Ids.Value(Model()) == hi * TWO64 + lo
    {
      this.hi, this.lo := hi, lo;
    }

    /** `id128_t(lo)`: the upper word is zero. */
    constructor FromLo(lo: u64)
      ensures this.hi == 0 && this.lo == lo
      ensures Ids.Value(Model()) == lo
    {
      this.hi, this.lo := 0, lo;
    }

    /** `id128_t()`: the zero identifier, `min()`. */
    constructor Zero()
      ensures Model() == Ids.Min()
    {
      hi, lo := 0, 0;
    }

    /** The copy constructor. */
    constructor Copy(id: Id128)
      ensures Model() == id.Model()
    {
      hi, lo := id.hi, id.lo;
    }

    /** `operator =`: copies both words. */
    method Assign(id: Id128)
      modifies this
      ensures Model() == old(id.Model())
    {
      lo := id.lo;
      hi := id.hi;
    }

    /** `incr`: add one to `lo`; when `lo` was all ones, wrap it to zero and
        carry into `hi`, which itself wraps modulo 2^64. */
    method Incr()
      modifies this
      ensures old(lo) == MAX64 ==> lo == 0 && hi == (old(hi) + 1) % TWO64
      ensures old(lo) != MAX64 ==> lo == old(lo) + 1 && hi == old(hi)
      ensures Model() == Ids.Succ(old(Model()))
      ensures Ids.Value(Model()) == (Ids.Value(old(Model())) + 1) % TWO128
    {
      if lo == MAX64 {
        lo := 0;
        hi := (hi + 1) % TWO64;
      } else {
        lo := lo + 1;
      }
    }

    /** `decr`: subtract one from `lo`; when `lo` was zero, wrap it to all
        ones and borrow from `hi`, which itself wraps modulo 2^64. */
    method Decr()
      modifies this
      ensures old(lo) == 0 ==> lo == MAX64 && hi == (old(hi) - 1) % TWO64
      ensures old(lo) != 0 ==> lo == old(lo) - 1 && hi == old(hi)
      ensures Model() == Ids.Pred(old(Model()))
      ensures Ids.Value(Model()) == (Ids.Value(old(Model())) - 1) % TWO128
    {
      if lo == 0 {
        lo := MAX64;
        hi := (hi - 1) % TWO64;
      } else {
        lo := lo - 1;
      }
    }

    /** Prefix `++`: increments this object and returns nothing. */
    method PreIncrement()
      modifies this
      ensures Model() == Ids.Succ(old(Model()))
    {
      Incr();
    }

    /** Prefix `--`: decrements this object and returns nothing. */
    method PreDecrement()
      modifies this
      ensures Model() == Ids.Pred(old(Model()))
    {
      Decr();
    }

    /** Postfix `++`: increments a copy and returns it; this object keeps
        its old value. */
    method PostIncrement() returns (tmp: Id128)
      ensures fresh(tmp)
      ensures tmp.Model() == Ids.Succ(Model())
      ensures Model() == old(Model())
    {
      tmp := new Id128.Copy(this);
      tmp.Incr();
    }

    /** Postfix `--`: decrements a copy and returns it; this object keeps
        its old value. */
    method PostDecrement() returns (tmp: Id128)
      ensures fresh(tmp)
      ensures tmp.Model() == Ids.Pred(Model())
      ensures Model() == old(Model())
    {
      tmp := new Id128.Copy(this);
      tmp.Decr();
    }

    /** `flip`: reverses the sixteen octets of the object's storage in place. */
    method Flip()
      modifies this
      ensures Model() == Ids.Flipped(old(Model()))
      ensures forall i :: 0 <= i < 16 ==> Ids.Octet(Model(), i) == Ids.Octet(old(Model()), 15 - i)
    {
      var m := Model();
      var octets := new u8[16](k requires 0 <= k < 16 => Ids.Octet(m, k));
      assert octets[..] == Ids.Octets(m);
      ReverseOctets(octets);
      var flipped := Ids.FromOctets(octets[..]);
      lo, hi := flipped.lo, flipped.hi;
    }
  }
}
