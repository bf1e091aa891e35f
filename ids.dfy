/** The value of a 128-bit identifier `id128_t`: two 64-bit words, `hi`
    (most significant) and `lo`, and the sixteen octets they occupy on the
    little-endian x86 layout the header targets. */
module Ids {
  import opened Words

  datatype Id128 = Id128(hi: u64, lo: u64)

  /** The 128-bit unsigned number an identifier stands for. */
  function Value(x: Id128): (v: nat)
    ensures v < TWO128
  {
    x.hi * TWO64 + x.lo
  }

  /** The identifier holding a given 128-bit number. */
  function FromValue(v: nat): (x: Id128)
    requires v < TWO128
    ensures Value(x) == v
  {
    DivModUnique(v, TWO64, v / TWO64, v % TWO64);
    Id128(v / TWO64, v % TWO64)
  }

  lemma ValueInjective(x: Id128, y: Id128)
    ensures Value(x) == Value(y) <==> x == y
  {
    if Value(x) == Value(y) {
      DivModUnique(Value(x), TWO64, x.hi, x.lo);
      DivModUnique(Value(y), TWO64, y.hi, y.lo);
    }
  }

  /** `id128_t::min()`: every bit clear. */
  function Min(): (x: Id128)
    ensures Value(x) == 0
  {
    Id128(0, 0)
  }

  /** `id128_t::max()`: every bit set. */
  function Max(): (x: Id128)
    ensures Value(x) == TWO128 - 1
  {
    Id128(MAX64, MAX64)
  }

  // ---------------------------------------------------------------------------
  // Comparison: `equals`, `lt`, `gt`
  // ---------------------------------------------------------------------------

  /** `equals`: both words bitwise equal. */
  function Equals(a: Id128, b: Id128): (r: bool)
    ensures r <==> a == b
    ensures r <==> Value(a) == Value(b)
  {
    ValueInjective(a, b);
    a.hi == b.hi && a.lo == b.lo
  }

  /** `lt`: compare `hi`, then `lo`; the order of the 128-bit numbers. */
  function Lt(a: Id128, b: Id128): (r: bool)
    ensures r <==> Value(a) < Value(b)
  {
    if a.hi < b.hi then true
    else if a.hi > b.hi then false
    else a.lo < b.lo
  }

  /** `gt`: compare `hi`, then `lo`, the other way round. */
  function Gt(a: Id128, b: Id128): (r: bool)
    ensures r <==> Value(a) > Value(b)
  {
    if a.hi > b.hi then true
    else if a.hi < b.hi then false
    else a.lo > b.lo
  }

  /** Exactly one of `equals`, `lt` and `gt` holds, and `gt` is `lt` reversed. */
  lemma Trichotomy(a: Id128, b: Id128)
    ensures Equals(a, b) || Lt(a, b) || Gt(a, b)
    ensures !(Equals(a, b) && Lt(a, b)) && !(Equals(a, b) && Gt(a, b)) && !(Lt(a, b) && Gt(a, b))
    ensures Gt(a, b) <==> Lt(b, a)
  {}

  /** `lt` is a strict total order. */
  lemma LtStrictOrder(a: Id128, b: Id128, c: Id128)
    ensures !Lt(a, a)
    ensures Lt(a, b) && Lt(b, c) ==> Lt(a, c)
    ensures a != b ==> Lt(a, b) || Lt(b, a)
  {
    ValueInjective(a, b);
  }

  /** `min()` and `max()` are the least and the greatest identifiers. */
  lemma MinMaxBound(x: Id128)
    ensures !Lt(x, Min()) && !Gt(x, Max())
    ensures x != Min() ==> Lt(Min(), x)
    ensures x != Max() ==> Lt(x, Max())
  {
    ValueInjective(x, Min());
    ValueInjective(x, Max());
  }

  // ---------------------------------------------------------------------------
  // Increment and decrement with carry and borrow
  // ---------------------------------------------------------------------------

  /** The value `incr` leaves: `lo + 1`, carrying into `hi` (which wraps)
      when `lo` was all ones. */
  function Succ(x: Id128): (r: Id128)
    ensures Value(r) == (Value(x) + 1) % TWO128
  {
    if x.lo == MAX64 then Id128((x.hi + 1) % TWO64, 0)
    else Id128(x.hi, x.lo + 1)
  }

  /** The value `decr` leaves: `lo - 1`, borrowing from `hi` (which wraps)
      when `lo` was zero. */
  function Pred(x: Id128): (r: Id128)
    ensures Value(r) == (Value(x) - 1) % TWO128
  {
    if x.lo == 0 then Id128((x.hi - 1) % TWO64, MAX64)
    else Id128(x.hi, x.lo - 1)
  }

  /** Decrement undoes increment and the other way round, across the
      `max()`/`min()` wrap as well. */
  lemma SuccPredInverse(x: Id128)
    ensures Pred(Succ(x)) == x
    ensures Succ(Pred(x)) == x
  {
    var v := Value(x);
    if v == TWO128 - 1 {
      DivModUnique(v + 1, TWO128, 1, 0);
      DivModUnique(-1, TWO128, -1, v);
    } else {
      DivModUnique(v + 1, TWO128, 0, v + 1);
      DivModUnique(v, TWO128, 0, v);
    }
    if v == 0 {
      DivModUnique(-1, TWO128, -1, TWO128 - 1);
      DivModUnique(TWO128, TWO128, 1, 0);
    } else {
      DivModUnique(v - 1, TWO128, 0, v - 1);
      DivModUnique(v, TWO128, 0, v);
    }
    ValueInjective(Pred(Succ(x)), x);
    ValueInjective(Succ(Pred(x)), x);
  }

  /** `incr` and `decr` are the 128-bit successor and predecessor modulo
      2^128: stepping the number and storing it back in two words gives
      what the carry and borrow code computes. */
  lemma StepsByValue(x: Id128)
    ensures Succ(x) == FromValue((Value(x) + 1) % TWO128)
    ensures Pred(x) == FromValue((Value(x) - 1) % TWO128)
  {
    ValueInjective(Succ(x), FromValue((Value(x) + 1) % TWO128));
    ValueInjective(Pred(x), FromValue((Value(x) - 1) % TWO128));
  }

  lemma SuccWraps()
    ensures Succ(Max()) == Min()
    ensures Pred(Min()) == Max()
  {}

  /** Below `max()`, increment moves to the next identifier in `lt` order:
      nothing lies strictly between `x` and `Succ(x)`. */
  lemma SuccIsNext(x: Id128, y: Id128)
    requires x != Max()
    ensures Lt(x, Succ(x))
    ensures !(Lt(x, y) && Lt(y, Succ(x)))
  {
    ValueInjective(x, Max());
  }

  // ---------------------------------------------------------------------------
  // The octet view
  // ---------------------------------------------------------------------------

  /** `octets[k]`: bytes 0..7 are `lo`, bytes 8..15 are `hi`, least
      significant first. */
  function Octet(x: Id128, k: nat): u8
    requires k < 16
  {
    if k < 8 then ByteOf(x.lo, k) else ByteOf(x.hi, k - 8)
  }

  function Octets(x: Id128): (s: seq<u8>)
    ensures |s| == 16
  {
    seq(16, k requires 0 <= k < 16 => Octet(x, k))
  }

  /** The identifier whose storage holds the sixteen octets `b`. */
  function FromOctets(b: seq<u8>): (x: Id128)
    requires |b| == 16
  {
    PowOctets();
    Id128(LittleEndian(b[8..]), LittleEndian(b[..8]))
  }

  /** Storing octets and reading them back gives the same octets. */
  lemma OctetsOfFromOctets(b: seq<u8>)
    requires |b| == 16
    ensures Octets(FromOctets(b)) == b
  {
    var x := FromOctets(b);
    forall k | 0 <= k < 16 ensures Octets(x)[k] == b[k] {
      if k < 8 {
        ByteOfLittleEndian(b[..8], k);
      } else {
        ByteOfLittleEndian(b[8..], k - 8);
      }
    }
  }

  /** Reading the octets of an identifier and storing them back gives the
      same identifier. */
  lemma FromOctetsOfOctets(x: Id128)
    ensures FromOctets(Octets(x)) == x
  {
    var s := Octets(x);
    assert s[..8] == Bytes(x.lo, 8);
    assert s[8..] == Bytes(x.hi, 8);
    LittleEndianOfWord(x.lo);
    LittleEndianOfWord(x.hi);
  }

  /** Octet `k` is byte `k` of the 128-bit number: the union's storage is
      little-endian across both words. */
  lemma OctetOfValue(x: Id128, k: nat)
    requires k < 16
    ensures Octet(x, k) == ByteOf(Value(x), k)
  {
    PowOctets();
    if k < 8 {
      LowOctetOfValue(x, k);
    } else {
      PowAdd(256, 8, k - 8);
      DivDiv(Value(x), TWO64, Pow(256, k - 8));
      DivModUnique(Value(x), TWO64, x.hi, x.lo);
    }
  }

  lemma LowOctetOfValue(x: Id128, k: nat)
    requires k < 8
    ensures ByteOf(x.lo, k) == ByteOf(Value(x), k)
  {
    var p := Pow(256, k);
    var e := Pow(256, 7 - k);
    var c := x.hi * e;
    PowOctets();
    PowAdd(256, k, 8 - k);
    assert TWO64 == p * (256 * e);
    assert x.hi * TWO64 == p * (256 * c) by {
      assert x.hi * (p * (256 * e)) == p * (256 * (x.hi * e));
    }
    ModAddMultiple(x.lo, 256 * c, p);
    assert Value(x) / p == 256 * c + x.lo / p;
    ModAddMultiple(x.lo / p, c, 256);
  }

  // ---------------------------------------------------------------------------
  // flip: byte-order reversal
  // ---------------------------------------------------------------------------

  function Reverse(s: seq<u8>): (r: seq<u8>)
    ensures |r| == |s|
  {
    seq(|s|, i requires 0 <= i < |s| => s[|s| - 1 - i])
  }

  /** The value `flip` leaves: the same sixteen octets in reverse order. */
  function Flipped(x: Id128): (r: Id128)
    ensures forall i :: 0 <= i < 16 ==> Octet(r, i) == Octet(x, 15 - i)
  {
    var r := FromOctets(Reverse(Octets(x)));
    OctetsOfFromOctets(Reverse(Octets(x)));
    assert forall i :: 0 <= i < 16 ==> Octet(r, i) == Octets(r)[i];
    r
  }

  /** Flipping twice restores the identifier. */
  lemma FlipInvolution(x: Id128)
    ensures Flipped(Flipped(x)) == x
  {
    var y := Flipped(Flipped(x));
    assert Octets(y) == Octets(x);
    FromOctetsOfOctets(y);
    FromOctetsOfOctets(x);
  }

  lemma ByteOfAllOnes(k: nat)
    requires k < 8
    ensures ByteOf(MAX64, k) == 255
  {
    var p := Pow(256, k);
    PowOctets();
    PowAdd(256, k, 8 - k);
    var e := Pow(256, 8 - k);
    assert MAX64 == p * (e - 1) + (p - 1);
    DivModUnique(MAX64, p, e - 1, p - 1);
    assert e == 256 * Pow(256, 7 - k);
    DivModUnique(e - 1, 256, Pow(256, 7 - k) - 1, 255);
  }

  /** `min()` reads the same in either byte order. */
  lemma FlipFixesMin()
    ensures Flipped(Min()) == Min()
  {
    assert Octets(Flipped(Min())) == Octets(Min());
    FromOctetsOfOctets(Flipped(Min()));
    FromOctetsOfOctets(Min());
  }

  /** `max()` reads the same in either byte order. */
  lemma FlipFixesMax()
    ensures Flipped(Max()) == Max()
  {
    forall k | 0 <= k < 8 ensures ByteOf(MAX64, k) == 255 {
      ByteOfAllOnes(k);
    }
    assert Octets(Flipped(Max())) == Octets(Max());
    FromOctetsOfOctets(Flipped(Max()));
    FromOctetsOfOctets(Max());
  }
}
