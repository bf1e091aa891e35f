/** Fixed-width unsigned words and the integer arithmetic that stands for the
    shifts, masks and bitwise operators of the identifier header.

    A `uint64_t` is an integer below 2^64.  A right shift by `8*k` followed by
    `& 0xff` is `ByteOf`, a left shift by `n` that stays inside the word is a
    multiplication by `Pow(2, n)`, and `|` / `^` are `Bitwise`, defined one
    bit at a time from the least significant end. */
module Words {

  const TWO16: nat := 0x1_0000
  const TWO48: nat := 0x1_0000_0000_0000
  const TWO64: nat := 0x1_0000_0000_0000_0000
  const TWO128: nat := TWO64 * TWO64
  /** `std::numeric_limits<uint64_t>::max()` */
  const MAX64: nat := TWO64 - 1

  type u8 = x: int | 0 <= x < 0x100
  type u16 = x: int | 0 <= x < 0x1_0000
  type u64 = x: int | 0 <= x < 0x1_0000_0000_0000_0000

  function Pow(b: nat, n: nat): (r: nat)
    ensures b > 0 ==> r > 0
  {
    if n == 0 then 1 else b * Pow(b, n - 1)
  }

  // ---------------------------------------------------------------------------
  // Division and remainder facts used throughout
  // ---------------------------------------------------------------------------

  lemma MulAtLeast(e: int, d: int)
    requires e >= 1 && d > 0
    ensures e * d >= d
  {}

  /** Quotient and remainder are determined by any decomposition with a
      remainder in range. */
  lemma DivModUnique(v: int, d: int, q: int, r: int)
    requires d > 0 && 0 <= r < d && v == q * d + r
    ensures v / d == q && v % d == r
  {
    var q0, r0 := v / d, v % d;
    if q > q0 {
      MulAtLeast(q - q0, d);
    } else if q < q0 {
      MulAtLeast(q0 - q, d);
    }
  }

  lemma DivDiv(v: nat, a: nat, b: nat)
    requires a > 0 && b > 0
    ensures v / a / b == v / (a * b)
  {
    var q, r := v / a, v % a;
    var q2, r2 := q / b, q % b;
    assert a * r2 <= a * (b - 1);
    assert v == q2 * (a * b) + (a * r2 + r);
    DivModUnique(v, a * b, q2, a * r2 + r);
  }

  /** The remainder modulo `d*m` splits into the remainder modulo `d` and the
      next digit group. */
  lemma ModSplit(w: nat, d: nat, m: nat)
    requires d > 0 && m > 0
    ensures w % (d * m) == w % d + d * ((w / d) % m)
  {
    var q := w / d;
    assert d * (q % m) <= d * (m - 1);
    assert w == (q / m) * (d * m) + (w % d + d * (q % m));
    DivModUnique(w, d * m, q / m, w % d + d * (q % m));
  }

  lemma ModMulDiv(w: nat, d: nat, m: nat)
    requires d > 0 && m > 0
    ensures (w % (d * m)) / d == (w / d) % m
    ensures (w % (d * m)) % d == w % d
  {
    ModSplit(w, d, m);
    DivModUnique(w % (d * m), d, (w / d) % m, w % d);
  }

  lemma ModAddMultiple(a: nat, c: nat, d: nat)
    requires d > 0
    ensures (d * c + a) % d == a % d
    ensures (d * c + a) / d == c + a / d
  {
    DivModUnique(d * c + a, d, c + a / d, a % d);
  }

  // ---------------------------------------------------------------------------
  // Powers
  // ---------------------------------------------------------------------------

  lemma {:induction false} PowAdd(b: nat, m: nat, n: nat)
    ensures Pow(b, m + n) == Pow(b, m) * Pow(b, n)
    decreases m
  {
    if m > 0 {
      PowAdd(b, m - 1, n);
      assert Pow(b, m + n) == b * Pow(b, m - 1 + n);
    }
  }

  lemma {:induction false} PowSquare(b: nat, k: nat)
    ensures Pow(b * b, k) == Pow(b, 2 * k)
    decreases k
  {
    if k > 0 {
      PowSquare(b, k - 1);
      assert Pow(b, 2 * k) == b * (b * Pow(b, 2 * (k - 1)));
    }
  }

  /** The octet powers behind the word sizes. */
  lemma PowOctets()
    ensures Pow(256, 6) == TWO48 && Pow(256, 8) == TWO64
  {}

  /** The bit powers behind the word sizes: `1 << 16`, `1 << 48`, `1 << 64`. */
  lemma PowBits()
    ensures Pow(2, 16) == TWO16 && Pow(2, 48) == TWO48 && Pow(2, 64) == TWO64
  {
    PowOctets();
    assert Pow(256, 2) == TWO16;
    PowSquare(2, 8);
    PowSquare(4, 4);
    PowSquare(16, 2);
    PowSquare(2, 24);
    PowSquare(4, 12);
    PowSquare(16, 6);
    PowSquare(2, 32);
    PowSquare(4, 16);
    PowSquare(16, 8);
  }

  /** Thirty-two hex digits span 128 bits. */
  lemma PowDigits()
    ensures Pow(16, 32) == TWO128
  {
    PowOctets();
    PowAdd(256, 8, 8);
    PowSquare(16, 16);
  }

  // ---------------------------------------------------------------------------
  // Bytes of a word: `(w >> 8*k) & 0xff`
  // ---------------------------------------------------------------------------

  function ByteOf(w: nat, k: nat): u8 {
    (w / Pow(256, k)) % 256
  }

  /** The first `n` bytes of `w`, least significant first. */
  function Bytes(w: nat, n: nat): (s: seq<u8>)
    ensures |s| == n
  {
    seq(n, k requires 0 <= k < n => ByteOf(w, k))
  }

  /** The number whose bytes, least significant first, are `s`. */
  function LittleEndian(s: seq<u8>): (v: nat)
    ensures v < Pow(256, |s|)
  {
    if s == [] then 0 else s[0] + 256 * LittleEndian(s[1..])
  }

  lemma ByteOfShift(w: nat, k: nat)
    ensures ByteOf(w, k + 1) == ByteOf(w / 256, k)
  {
    DivDiv(w, 256, Pow(256, k));
  }

  /** Reading byte `k` back out of a little-endian number gives the `k`-th
      byte it was built from. */
  lemma {:induction false} ByteOfLittleEndian(s: seq<u8>, k: nat)
    requires k < |s|
    ensures ByteOf(LittleEndian(s), k) == s[k]
    decreases k
  {
    var v := LittleEndian(s);
    ModAddMultiple(s[0], LittleEndian(s[1..]), 256);
    if k > 0 {
      ByteOfShift(v, k - 1);
      ByteOfLittleEndian(s[1..], k - 1);
    }
  }

  /** Reassembling the first `n` bytes of `w` gives `w` modulo `256^n`. */
  lemma {:induction false} LittleEndianOfBytes(w: nat, n: nat)
    ensures LittleEndian(Bytes(w, n)) == w % Pow(256, n)
    decreases n
  {
    if n > 0 {
      var s := Bytes(w, n);
      forall k | 0 <= k < n - 1 ensures s[1..][k] == Bytes(w / 256, n - 1)[k] {
        ByteOfShift(w, k);
      }
      assert s[1..] == Bytes(w / 256, n - 1);
      LittleEndianOfBytes(w / 256, n - 1);
      ModSplit(w, 256, Pow(256, n - 1));
    }
  }

  /** The eight bytes of a word reassemble to the word. */
  lemma LittleEndianOfWord(w: u64)
    ensures LittleEndian(Bytes(w, 8)) == w
  {
    LittleEndianOfBytes(w, 8);
    PowOctets();
    DivModUnique(w, TWO64, 0, w);
  }

  // ---------------------------------------------------------------------------
  // Bitwise operators on the low `n` bits
  // ---------------------------------------------------------------------------

  datatype BitOp = Or | Xor

  function Apply(op: BitOp, x: bool, y: bool): bool {
    match op
    case Or => x || y
    case Xor => x != y
  }

  /** `a op b` on the low `n` bits of `a` and `b` (`|` for `Or`, `^` for `Xor`). */
  function Bitwise(op: BitOp, a: nat, b: nat, n: nat): (r: nat)
    ensures r < Pow(2, n)
  {
    if n == 0 then 0
    else (if Apply(op, a % 2 == 1, b % 2 == 1) then 1 else 0) + 2 * Bitwise(op, a / 2, b / 2, n - 1)
  }

  /** Prepending one bit to a number. */
  lemma PushBit(bit: nat, r: nat, m: nat)
    requires bit < 2 && m > 0
    ensures (bit + 2 * r) % (2 * m) == bit + 2 * (r % m)
    ensures (bit + 2 * r) / (2 * m) == r / m
  {
    assert 2 * (r % m) <= 2 * (m - 1);
    assert bit + 2 * r == (r / m) * (2 * m) + (bit + 2 * (r % m));
    DivModUnique(bit + 2 * r, 2 * m, r / m, bit + 2 * (r % m));
  }

  /** The low `k` bits of a bitwise result are the bitwise result on the low
      `k` bits, and the rest is the bitwise result on the shifted operands. */
  lemma {:induction false} BitwiseSplit(op: BitOp, a: nat, b: nat, n: nat, k: nat)
    requires k <= n
    ensures Bitwise(op, a, b, n) % Pow(2, k) == Bitwise(op, a, b, k)
    ensures Bitwise(op, a, b, n) / Pow(2, k) == Bitwise(op, a / Pow(2, k), b / Pow(2, k), n - k)
    decreases k
  {
    if k > 0 {
      var bit := if Apply(op, a % 2 == 1, b % 2 == 1) then 1 else 0;
      var r := Bitwise(op, a / 2, b / 2, n - 1);
      BitwiseSplit(op, a / 2, b / 2, n - 1, k - 1);
      PushBit(bit, r, Pow(2, k - 1));
      DivDiv(a, 2, Pow(2, k - 1));
      DivDiv(b, 2, Pow(2, k - 1));
    }
  }

  /** A bitwise result on `n` bits reads only the low `n` bits of its operands. */
  lemma {:induction false} BitwiseLow(op: BitOp, a: nat, b: nat, n: nat)
    ensures Bitwise(op, a, b, n) == Bitwise(op, a % Pow(2, n), b % Pow(2, n), n)
    decreases n
  {
    if n > 0 {
      ModMulDiv(a, 2, Pow(2, n - 1));
      ModMulDiv(b, 2, Pow(2, n - 1));
      BitwiseLow(op, a / 2, b / 2, n - 1);
    }
  }

  /** Zero is the identity of `|` and `^`. */
  lemma {:induction false} BitwiseZero(op: BitOp, a: nat, n: nat)
    ensures Bitwise(op, a, 0, n) == a % Pow(2, n)
    ensures Bitwise(op, 0, a, n) == a % Pow(2, n)
    decreases n
  {
    if n > 0 {
      BitwiseZero(op, a / 2, n - 1);
      assert Apply(op, a % 2 == 1, false) == Apply(op, false, a % 2 == 1) == (a % 2 == 1);
      ModSplit(a, 2, Pow(2, n - 1));
    }
  }

  /** Bit `k` of `w` is set. */
  predicate Bit(w: nat, k: nat) {
    (w / Pow(2, k)) % 2 == 1
  }

  /** Bit `k` of `a op b` is `op` applied to bit `k` of `a` and of `b`. */
  lemma BitwiseBit(op: BitOp, a: nat, b: nat, n: nat, k: nat)
    requires k < n
    ensures Bit(Bitwise(op, a, b, n), k) == Apply(op, Bit(a, k), Bit(b, k))
  {
    var p := Pow(2, k);
    assert p > 0;
    var ak: nat, bk: nat := a / p, b / p;
    BitwiseLowBit(op, ak, bk, n - k);
    BitwiseSplit(op, a, b, n, k);
  }

  lemma BitwiseLowBit(op: BitOp, a: nat, b: nat, n: nat)
    requires n > 0
    ensures Bitwise(op, a, b, n) % 2 == if Apply(op, a % 2 == 1, b % 2 == 1) then 1 else 0
  {
    var bit := if Apply(op, a % 2 == 1, b % 2 == 1) then 1 else 0;
    DivModUnique(bit + 2 * Bitwise(op, a / 2, b / 2, n - 1), 2, Bitwise(op, a / 2, b / 2, n - 1), bit);
  }

  /** Doubling moves every bit up by one and clears bit 0. */
  lemma DoubleBit(m: nat, k: nat)
    ensures Bit(2 * m, k) == (k > 0 && Bit(m, k - 1))
  {
    if k == 0 {
      DivModUnique(2 * m, 2, m, 0);
    } else {
      var p := Pow(2, k - 1);
      DivDiv(2 * m, 2, p);
      DivModUnique(2 * m, 2, m, 0);
    }
  }

  /** Reducing modulo `2^n` keeps the bits below `n`. */
  lemma ModBit(a: nat, j: nat, n: nat)
    requires j < n
    ensures Bit(a % Pow(2, n), j) == Bit(a, j)
  {
    BitwiseZero(Or, a, n);
    BitwiseBit(Or, a, 0, n, j);
    assert 0 / Pow(2, j) == 0;
  }

  /** Setting a bit that is clear adds its weight. */
  lemma {:induction false} OrBit(a: nat, k: nat, n: nat)
    requires k < n && a < Pow(2, n) && (a / Pow(2, k)) % 2 == 0
    ensures Bitwise(Or, Pow(2, k), a, n) == a + Pow(2, k)
    decreases k
  {
    if k == 0 {
      OrLowBit(a, n);
    } else {
      var h := Pow(2, k - 1);
      DivModUnique(Pow(2, k), 2, h, 0);
      DivDiv(a, 2, h);
      DivModUnique(a, 2, a / 2, a % 2);
      OrBit(a / 2, k - 1, n - 1);
      assert Bitwise(Or, Pow(2, k), a, n) == a % 2 + 2 * Bitwise(Or, h, a / 2, n - 1);
    }
  }

  lemma OrLowBit(a: nat, n: nat)
    requires 0 < n && a < Pow(2, n) && a % 2 == 0
    ensures Bitwise(Or, 1, a, n) == a + 1
  {
    BitwiseZero(Or, a / 2, n - 1);
    DivModUnique(a / 2, Pow(2, n - 1), 0, a / 2);
  }

  /** `a | a == a` */
  lemma {:induction false} OrSelf(a: nat, n: nat)
    ensures Bitwise(Or, a, a, n) == a % Pow(2, n)
    decreases n
  {
    if n > 0 {
      OrSelf(a / 2, n - 1);
      ModSplit(a, 2, Pow(2, n - 1));
    }
  }
}
