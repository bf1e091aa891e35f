/** Hexadecimal rendering of an identifier: `print` and `toString`.

    `print` walks the octets from 15 down to 0, writing each as two lowercase
    zero-padded hex digits, and with separators on writes a `-` before octets
    9, 7, 5 and 3.  The groups are therefore 12-4-4-4-8 hex digits. */
module Format {
  import opened Words
  import opened Ids

  /** A lowercase hexadecimal digit. */
  function HexDigit(d: nat): char
    requires d < 16
  {
    if d < 10 then ('0' as int + d) as char else ('a' as int + d - 10) as char
  }

  /** One octet as `std::hex << std::setw(2) << std::setfill('0')` writes it. */
  function HexByte(b: u8): string {
    [HexDigit(b / 16), HexDigit(b % 16)]
  }

  /** `v >> 8 * j`: the number above the low `j` octets of `v`. */
  function Above(v: nat, j: nat): nat {
    v / Pow(256, j)
  }

  /** The `n` low-order hexadecimal digits of `v`, most significant first. */
  function Hex(v: nat, n: nat): (s: string)
    ensures |s| == n
  {
    if n == 0 then "" else Hex(v / 16, n - 1) + [HexDigit(v % 16)]
  }

  /** The number of octets, and of hex digits, in an identifier. */
  const OCTETS: nat := 16
  const DIGITS: nat := 32

  /** A 32-digit string cut into groups of 12, 4, 4, 4 and 8 digits. */
  function Hyphenate(d: string): string
    requires |d| == DIGITS
  {
    d[..12] + ("-" + (d[12..16] + ("-" + (d[16..20] + ("-" + (d[20..24] + ("-" + d[24..])))))))
  }

  /** The string without its `-` separators. */
  function Strip(s: string): string {
    if s == [] then [] else (if s[0] == '-' then [] else [s[0]]) + Strip(s[1..])
  }

  predicate HyphenBefore(idx: nat) {
    idx == 4 || idx == 6 || idx == 8 || idx == 10
  }

  /** No separator is written before any of the octets `i - 1` down to `j`. */
  predicate Quiet(i: nat, j: nat) {
    !(j < 4 <= i) && !(j < 6 <= i) && !(j < 8 <= i) && !(j < 10 <= i)
  }

  /** What `print` still writes once its counter has come down to `idx`:
      octets `idx - 1` down to 0. */
  function RenderFrom(x: Id128, idx: nat, hyphens: bool): (s: string)
    requires idx <= OCTETS
  {
    if idx == 0 then ""
    else (if hyphens && HyphenBefore(idx) then "-" else "") + (HexByte(Octet(x, idx - 1)) + RenderFrom(x, idx - 1, hyphens))
  }

  /** Everything `print` writes. */
  function Rendered(x: Id128, hyphens: bool): string {
    RenderFrom(x, OCTETS, hyphens)
  }

  // ---------------------------------------------------------------------------
  // The loop of `print` and `toString`
  // ---------------------------------------------------------------------------

  /** `print(os, guidHyphens)`: the 32 hex digits of the 128-bit number, cut
      12-4-4-4-8 when `guidHyphens` is set. */
  method Print(x: Id128, guidHyphens: bool) returns (s: string)
    ensures s == Rendered(x, guidHyphens)
    ensures !guidHyphens ==> s == Hex(Value(x), DIGITS)
    ensures guidHyphens ==> s == Hyphenate(Hex(Value(x), DIGITS))
  {
    s := "";
    var idx: nat := OCTETS;
    while idx > 0
      invariant idx <= OCTETS
      invariant s + RenderFrom(x, idx, guidHyphens) == Rendered(x, guidHyphens)
    {
      ghost var before := s;
      if guidHyphens && (idx == 4 || idx == 6 || idx == 8 || idx == 10) {
        s := s + "-";
      }
      s := s + HexByte(Octet(x, idx - 1));
      RenderStep(x, idx, guidHyphens, before, s);
      idx := idx - 1;
    }
    RenderedHex(x);
    RenderedGroups(x);
  }

  /** One turn of the loop of `print`: appending the separator and the octet
      written for `idx` moves that output from the remainder to the prefix. */
  lemma RenderStep(x: Id128, idx: nat, hyphens: bool, before: string, after: string)
    requires 0 < idx <= OCTETS
    requires after == before + (if hyphens && HyphenBefore(idx) then "-" else "") + HexByte(Octet(x, idx - 1))
    ensures after + RenderFrom(x, idx - 1, hyphens) == before + RenderFrom(x, idx, hyphens)
  {}

  /** `toString()`: `print` with separators. */
  method ToString(x: Id128) returns (s: string)
    ensures |s| == 36
    ensures s == Hyphenate(Hex(Value(x), DIGITS))
    ensures Strip(s) == Hex(Value(x), DIGITS)
  {
    s := Print(x, true);
    StripRendered(x);
  }

  // ---------------------------------------------------------------------------
  // What the rendering means
  // ---------------------------------------------------------------------------

  /** Two hex digits of `u` are the octet `u % 256` written out. */
  lemma HexTwo(u: nat)
    ensures Hex(u, 2) == HexByte(u % 256)
  {
    ModMulDiv(u, 16, 16);
  }

  /** The low `a + b` digits are the `a` digits above the low `b`, then the
      low `b`. */
  lemma {:induction false} HexSplit(v: nat, a: nat, b: nat)
    ensures Hex(v, a + b) == Hex(v / Pow(16, b), a) + Hex(v, b)
    decreases b
  {
    if b > 0 {
      HexSplit(v / 16, a, b - 1);
      DivDiv(v, 16, Pow(16, b - 1));
      assert Hex(v, a + b) == Hex(v / 16, a + b - 1) + [HexDigit(v % 16)];
    }
  }

  /** The hex digits of bytes `j + m` down to `j` of `v` start with byte
      `j + m`. */
  lemma HexByteStep(v: nat, j: nat, m: nat)
    ensures Hex(Above(v, j), 2 * m + 2) == HexByte(ByteOf(v, j + m)) + Hex(Above(v, j), 2 * m)
  {
    DigitsAbove(v, j, m);
    HexTopByte(Above(v, j), Above(v, j + m), 2 * m);
  }

  /** Two more hex digits above the low `n` are the octet above them. */
  lemma HexTopByte(w: nat, u: nat, n: nat)
    requires w / Pow(16, n) == u
    ensures Hex(w, n + 2) == HexByte(u % 256) + Hex(w, n)
  {
    HexSplit(w, 2, n);
    HexTwo(u);
  }

  /** Dropping `2 * m` hex digits from the number above byte `j` leaves the
      number above byte `j + m`. */
  lemma DigitsAbove(v: nat, j: nat, m: nat)
    ensures Above(v, j) / Pow(16, 2 * m) == Above(v, j + m)
  {
    PowSquare(16, m);
    DivDiv(v, Pow(256, j), Pow(256, m));
    PowAdd(256, j, m);
  }

  /** Octets `i - 1` down to `j`, each as two hex digits, without
      separators. */
  function HexOctets(x: Id128, i: nat, j: nat): (s: string)
    requires j <= i <= OCTETS
    ensures |s| == 2 * (i - j)
    decreases i
  {
    if i == j then "" else HexByte(Octet(x, i - 1)) + HexOctets(x, i - 1, j)
  }

  /** Without separators `print` writes the run of all octets. */
  lemma {:induction false} RenderPlain(x: Id128, i: nat)
    requires i <= OCTETS
    ensures RenderFrom(x, i, false) == HexOctets(x, i, 0)
    decreases i
  {
    if i > 0 {
      RenderPlain(x, i - 1);
    }
  }

  /** Octets `i - 1` down to `j`, when no separator is written before any of
      them, come out as one run of hex digits. */
  lemma {:induction false} RenderRun(x: Id128, i: nat, j: nat)
    requires j <= i <= OCTETS && Quiet(i, j)
    ensures RenderFrom(x, i, true) == HexOctets(x, i, j) + RenderFrom(x, j, true)
    decreases i
  {
    if i > j {
      RenderRun(x, i - 1, j);
      var b, h, r := HexByte(Octet(x, i - 1)), HexOctets(x, i - 1, j), RenderFrom(x, j, true);
      assert RenderFrom(x, i, true) == "" + (b + (h + r));
      Regroup(b, h, r);
    }
  }

  /** A separator before octet `i - 1`, then the run down to `j`. */
  lemma RenderGroup(x: Id128, i: nat, j: nat)
    requires j < i <= OCTETS && HyphenBefore(i) && Quiet(i - 1, j)
    ensures RenderFrom(x, i, true) == "-" + (HexOctets(x, i, j) + RenderFrom(x, j, true))
  {
    RenderRun(x, i - 1, j);
    var b, h, r := HexByte(Octet(x, i - 1)), HexOctets(x, i - 1, j), RenderFrom(x, j, true);
    assert RenderFrom(x, i, true) == "-" + (b + (h + r));
    Regroup(b, h, r);
  }

  lemma Regroup(a: string, b: string, c: string)
    ensures "" + (a + (b + c)) == a + (b + c) == (a + b) + c
  {}

  /** A run of octets written in hex is the hex of the number above octet `j`. */
  lemma {:induction false} HexOctetsValue(x: Id128, i: nat, j: nat)
    requires j <= i <= OCTETS
    ensures HexOctets(x, i, j) == Hex(Above(Value(x), j), 2 * (i - j))
    decreases i
  {
    if i > j {
      HexOctetsValue(x, i - 1, j);
      HexOctetStep(x, i, j);
    }
  }

  lemma HexOctetStep(x: Id128, i: nat, j: nat)
    requires j < i <= OCTETS
    ensures Hex(Above(Value(x), j), 2 * (i - j))
         == HexByte(Octet(x, i - 1)) + Hex(Above(Value(x), j), 2 * (i - 1 - j))
  {
    HexByteStep(Value(x), j, i - 1 - j);
    OctetOfValue(x, i - 1);
  }

  /** Without separators `print` writes the 32-digit hex of the number. */
  lemma RenderedHex(x: Id128)
    ensures Rendered(x, false) == Hex(Value(x), DIGITS)
  {
    RenderedHexAt(x, OCTETS);
  }

  lemma RenderedHexAt(x: Id128, n: nat)
    requires n <= OCTETS
    ensures RenderFrom(x, n, false) == HexOctets(x, n, 0) == Hex(Value(x), 2 * n)
  {
    RenderPlain(x, n);
    HexOctetsValue(x, n, 0);
    assert Above(Value(x), 0) == Value(x);
  }

  /** A run of octets is the run above octet `k` followed by the run below. */
  lemma {:induction false} HexOctetsSplit(x: Id128, i: nat, k: nat, j: nat)
    requires j <= k <= i <= OCTETS
    ensures HexOctets(x, i, j) == HexOctets(x, i, k) + HexOctets(x, k, j)
    decreases i
  {
    if i > k {
      HexOctetsSplit(x, i - 1, k, j);
    }
  }

  /** With separators `print` writes the same digits cut 12-4-4-4-8. */
  lemma RenderedGroups(x: Id128)
    ensures Rendered(x, true) == Hyphenate(Hex(Value(x), DIGITS))
  {
    RenderedGroupsAt(x, 10, 8, 6, 4);
  }

  /** `RenderedGroups`, with the octets before which `print` writes a
      separator (10, 8, 6 and 4) passed in as parameters fixed by the
      `requires`.  Written with literals, the recursive `RenderFrom` and
      `HexOctets` terms unfold at every constant and the proof no longer
      fits the solver's budget. */
  lemma RenderedGroupsAt(x: Id128, h1: nat, h2: nat, h3: nat, h4: nat)
    requires h1 == 10 && h2 == 8 && h3 == 6 && h4 == 4
    ensures Rendered(x, true) == Hyphenate(Hex(Value(x), DIGITS))
  {
    var g1, g2, g3, g4, g5 := HexOctets(x, OCTETS, h1), HexOctets(x, h1, h2), HexOctets(x, h2, h3), HexOctets(x, h3, h4), HexOctets(x, h4, 0);
    RenderedCut(x, h1, h2, h3, h4);
    HexOctetsCut(x, h1, h2, h3, h4);
    RenderedHexAt(x, OCTETS);
    HyphenateParts(g1, g2, g3, g4, g5);
  }

  /** `Hyphenate` puts a separator between groups of 12, 4, 4, 4 and 8 digits. */
  lemma HyphenateParts(a: string, b: string, c: string, d: string, e: string)
    requires |a| == 12 && |b| == 4 && |c| == 4 && |d| == 4 && |e| == 8
    ensures Hyphenate(a + (b + (c + (d + e)))) == a + ("-" + (b + ("-" + (c + ("-" + (d + ("-" + e)))))))
  {
    var s := a + (b + (c + (d + e)));
    assert s[..12] == a;
    assert s[12..16] == b;
    assert s[16..20] == c;
    assert s[20..24] == d;
    assert s[24..] == e;
  }

  /** The separators cut `print`'s output into five runs of octets.  The
      separator positions are parameters fixed by the `requires`, for the
      same reason as in `RenderedGroupsAt`. */
  lemma RenderedCut(x: Id128, h1: nat, h2: nat, h3: nat, h4: nat)
    requires h1 == 10 && h2 == 8 && h3 == 6 && h4 == 4
    ensures Rendered(x, true)
         == HexOctets(x, OCTETS, h1) + ("-" + (HexOctets(x, h1, h2) + ("-" + (HexOctets(x, h2, h3)
            + ("-" + (HexOctets(x, h3, h4) + ("-" + HexOctets(x, h4, 0))))))))
  {
    RenderRun(x, OCTETS, h1);
    RenderGroup(x, h1, h2);
    RenderGroup(x, h2, h3);
    RenderGroup(x, h3, h4);
    RenderGroup(x, h4, 0);
    assert HexOctets(x, h4, 0) + RenderFrom(x, 0, true) == HexOctets(x, h4, 0);
  }

  lemma HexOctetsCut(x: Id128, h1: nat, h2: nat, h3: nat, h4: nat)
    requires h4 <= h3 <= h2 <= h1 <= OCTETS
    ensures HexOctets(x, OCTETS, 0)
         == HexOctets(x, OCTETS, h1) + (HexOctets(x, h1, h2) + (HexOctets(x, h2, h3) + (HexOctets(x, h3, h4) + HexOctets(x, h4, 0))))
  {
    HexOctetsSplit(x, OCTETS, h1, 0);
    HexOctetsSplit(x, h1, h2, 0);
    HexOctetsSplit(x, h2, h3, 0);
    HexOctetsSplit(x, h3, h4, 0);
  }

  lemma {:induction false} StripConcat(a: string, b: string)
    ensures Strip(a + b) == Strip(a) + Strip(b)
  {
    if a == [] {
      assert a + b == b;
    } else {
      assert (a + b)[0] == a[0];
      assert (a + b)[1..] == a[1..] + b;
      StripConcat(a[1..], b);
    }
  }

  lemma StripHexByte(b: u8)
    ensures Strip(HexByte(b)) == HexByte(b)
  {
    var s := HexByte(b);
    assert s[0] != '-' && s[1] != '-';
    assert s[1..] == [s[1]];
    assert [s[1]][1..] == [];
    assert Strip([s[1]]) == [s[1]];
    assert Strip(s) == [s[0]] + Strip(s[1..]);
  }

  lemma {:induction false} StripRenderFrom(x: Id128, idx: nat)
    requires idx <= OCTETS
    ensures Strip(RenderFrom(x, idx, true)) == RenderFrom(x, idx, false)
    decreases idx
  {
    if idx > 0 {
      var sep := if HyphenBefore(idx) then "-" else "";
      var b := HexByte(Octet(x, idx - 1));
      assert RenderFrom(x, idx, true) == sep + b + RenderFrom(x, idx - 1, true);
      StripConcat(sep + b, RenderFrom(x, idx - 1, true));
      StripConcat(sep, b);
      StripHexByte(Octet(x, idx - 1));
      assert Strip(sep) == [];
      StripRenderFrom(x, idx - 1);
    }
  }

  /** Removing the separators leaves the 32-digit hex of the number. */
  lemma StripRendered(x: Id128)
    ensures Strip(Rendered(x, true)) == Hex(Value(x), DIGITS)
  {
    StripRenderFrom(x, OCTETS);
    RenderedHex(x);
  }

  lemma HexDigitInjective(a: nat, b: nat)
    requires a < 16 && b < 16 && HexDigit(a) == HexDigit(b)
    ensures a == b
  {
    assert HexDigit(a) as int == if a < 10 then '0' as int + a else 'a' as int + a - 10;
    assert HexDigit(b) as int == if b < 10 then '0' as int + b else 'a' as int + b - 10;
  }

  /** `n` hex digits determine a number below `16^n`. */
  lemma {:induction false} HexInjective(u: nat, v: nat, n: nat)
    requires u < Pow(16, n) && v < Pow(16, n) && Hex(u, n) == Hex(v, n)
    ensures u == v
    decreases n
  {
    if n > 0 {
      var hu, hv := Hex(u, n), Hex(v, n);
      assert hu[n - 1] == HexDigit(u % 16) && hv[n - 1] == HexDigit(v % 16);
      HexDigitInjective(u % 16, v % 16);
      assert hu[..n - 1] == Hex(u / 16, n - 1) && hv[..n - 1] == Hex(v / 16, n - 1);
      DivDiv(u, 16, Pow(16, n - 1));
      DivDiv(v, 16, Pow(16, n - 1));
      DivModUnique(u, Pow(16, n), 0, u);
      DivModUnique(v, Pow(16, n), 0, v);
      HexInjective(u / 16, v / 16, n - 1);
    }
  }

  /** Different identifiers print differently, with or without separators. */
  lemma RenderedInjective(x: Id128, y: Id128, hyphens: bool)
    requires Rendered(x, hyphens) == Rendered(y, hyphens)
    ensures x == y
  {
    if hyphens {
      StripRendered(x);
      StripRendered(y);
    } else {
      RenderedHex(x);
      RenderedHex(y);
    }
    PowDigits();
    HexInjective(Value(x), Value(y), DIGITS);
    ValueInjective(x, y);
  }

  lemma {:induction false} HexZero(n: nat)
    ensures Hex(0, n) == seq(n, _ => '0')
  {
    if n > 0 {
      HexZero(n - 1);
    }
  }

  lemma {:induction false} HexAllOnes(n: nat)
    ensures Hex(Pow(16, n) - 1, n) == seq(n, _ => 'f')
  {
    if n > 0 {
      var p := Pow(16, n - 1);
      DivModUnique(Pow(16, n) - 1, 16, p - 1, 15);
      HexAllOnes(n - 1);
    }
  }

  lemma HyphenateRepeated(c: char)
    ensures Hyphenate(seq(32, _ => c))
         == seq(12, _ => c) + "-" + seq(4, _ => c) + "-" + seq(4, _ => c) + "-" + seq(4, _ => c) + "-" + seq(8, _ => c)
  {
    var d := seq(32, _ => c);
    assert d[..12] == seq(12, _ => c);
    assert d[12..16] == d[16..20] == d[20..24] == seq(4, _ => c);
    assert d[24..] == seq(8, _ => c);
  }

  /** Thirty-two copies of one character, grouped 12-4-4-4-8.  The grouped
      string is a parameter fixed by the `requires`, so that one lemma serves
      both `'0'` and `'f'` and the caller matches it against its literal
      without unfolding `Hyphenate` there. */
  lemma HyphenateConstant(c: char, expected: string)
    requires expected == [c, c, c, c, c, c, c, c, c, c, c, c, '-', c, c, c, c, '-', c, c, c, c, '-',
                          c, c, c, c, '-', c, c, c, c, c, c, c, c]
    ensures Hyphenate(seq(32, _ => c)) == expected
  {
    HyphenateRepeated(c);
  }

  /** `min()` prints as all zeros in the 12-4-4-4-8 grouping. */
  lemma RenderedMin()
    ensures Rendered(Min(), true) == "000000000000-0000-0000-0000-00000000"
  {
    assert Rendered(Min(), true) == Hyphenate(seq(32, _ => '0')) by {
      RenderedGroups(Min());
      HexZero(DIGITS);
    }
    HyphenateConstant('0', "000000000000-0000-0000-0000-00000000");
  }

  /** `max()` prints as all `f` in the 12-4-4-4-8 grouping. */
  lemma RenderedMax()
    ensures Rendered(Max(), true) == "ffffffffffff-ffff-ffff-ffff-ffffffff"
  {
    assert Rendered(Max(), true) == Hyphenate(seq(32, _ => 'f')) by {
      RenderedGroups(Max());
      PowDigits();
      HexAllOnes(DIGITS);
    }
    HyphenateConstant('f', "ffffffffffff-ffff-ffff-ffff-ffffffff");
  }
}
