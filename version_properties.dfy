/**
 * Properties of the version type: `BitOr` is the bitwise OR, the packed
 * number is lossless and order-preserving while every field fits in eight
 * bits and drops the high bits otherwise, and the dotted rendering can be
 * split and read back.
 */
module VersionProperties {
  import opened Core
  import StringUtils

  // ---------------------------------------------------------------------
  // Arithmetic helpers
  // ---------------------------------------------------------------------

  lemma MulAtLeast(a: int, d: int)
    requires a >= 1 && d > 0
    ensures a * d >= d
  {
    assert a * d == (a - 1) * d + d;
  }

  /** `n == q * d + r` with `0 <= r < d` fixes the quotient and the remainder. */
  lemma DivModUnique(n: int, d: int, q: int, r: int)
    requires d > 0 && 0 <= r < d && n == q * d + r
    ensures n / d == q && n % d == r
  {
    var q', r' := n / d, n % d;
    assert (q' - q) * d == r - r';
    if q' > q {
      MulAtLeast(q' - q, d);
      assert false;
    }
    if q' < q {
      MulAtLeast(q - q', d);
      assert false;
    }
  }

  /** Dividing by `2^i` is halving and then dividing by `2^(i-1)`. */
  lemma DivPow2Step(n: nat, i: nat)
    requires i > 0
    ensures n / Pow2(i) == (n / 2) / Pow2(i - 1)
  {
    var m := Pow2(i - 1);
    var q, r := (n / 2) / m, (n / 2) % m;
    assert n == q * (2 * m) + (2 * r + n % 2);
    DivModUnique(n, 2 * m, q, 2 * r + n % 2);
  }

  // ---------------------------------------------------------------------
  // Bitwise OR
  // ---------------------------------------------------------------------

  /** `BitOr` sets bit `i` exactly when one of its operands has bit `i` set. */
  lemma {:induction false} BitOrIsBitwise(a: nat, b: nat, i: nat)
    ensures Bit(BitOr(a, b), i) == 1 <==> Bit(a, i) == 1 || Bit(b, i) == 1
    decreases i
  {
    if a == 0 {
      assert Bit(a, i) == 0;
    } else if b == 0 {
      assert Bit(b, i) == 0;
    } else if i == 0 {
      assert BitOr(a, b) % 2 == (if a % 2 == 1 || b % 2 == 1 then 1 else 0);
    } else {
      BitOrIsBitwise(a / 2, b / 2, i - 1);
      DivPow2Step(a, i);
      DivPow2Step(b, i);
      DivPow2Step(BitOr(a, b), i);
      assert BitOr(a, b) / 2 == BitOr(a / 2, b / 2);
    }
  }

  /** OR of a multiple of `2^k` and a number below `2^k` is their sum: the bits do not meet. */
  lemma {:induction false} BitOrDisjoint(a: nat, b: nat, k: nat)
    requires b < Pow2(k)
    ensures BitOr(a * Pow2(k), b) == a * Pow2(k) + b
    decreases k
  {
    var x := a * Pow2(k);
    if a != 0 && b != 0 {
      var y := a * Pow2(k - 1);
      assert x == 2 * y;
      assert x / 2 == y && x % 2 == 0;
      BitOrDisjoint(a, b / 2, k - 1);
    }
  }

  /** A left shift by 8 or 16 keeps the low 24 or 16 bits of its operand, moved up. */
  lemma ShiftLeftDiscards(x: uint32)
    ensures ShiftLeft(x, 8) == (x % 0x100_0000) * 0x100
    ensures ShiftLeft(x, 16) == (x % 0x1_0000) * 0x1_0000
  {
    Pow2Values();
    DivModUnique(x * 0x100, 0x1_0000_0000, x / 0x100_0000, (x % 0x100_0000) * 0x100);
    DivModUnique(x * 0x1_0000, 0x1_0000_0000, x / 0x1_0000, (x % 0x1_0000) * 0x1_0000);
  }

  // ---------------------------------------------------------------------
  // to_number
  // ---------------------------------------------------------------------

  predicate FieldsFitInByte(v: Version)
  {
    v.major < 256 && v.minor < 256 && v.patch < 256
  }

  /** `Or32` of a multiple of `p == 2^k` and a number below `p` is their sum. */
  lemma Or32Sum(a: nat, lo: uint32, k: nat, p: nat)
    requires p == Pow2(k) && a * p < 0x1_0000_0000 && lo < p
    ensures Or32(a * p, lo) == a * p + lo
  {
    BitOrDisjoint(a, lo, k);
  }

  /** With every field below 256 the three shifted fields do not overlap and OR is addition. */
  lemma ToNumberPacked(v: Version)
    requires FieldsFitInByte(v)
    ensures v.ToNumber() == v.major * 0x1_0000 + v.minor * 0x100 + v.patch
  {
    var major, minor, patch := v.major, v.minor, v.patch;
    Pow2Values();
    ShiftLeftDiscards(major);
    ShiftLeftDiscards(minor);
    DivModUnique(major, 0x1_0000, 0, major);
    DivModUnique(minor, 0x100_0000, 0, minor);
    Or32Sum(major, minor * 0x100, 16, 0x1_0000);
    var upper := major * 0x100 + minor;
    assert upper * 0x100 == major * 0x1_0000 + minor * 0x100;
    Or32Sum(upper, patch, 8, 0x100);
  }

  /** Each field can be read back from the packed number. */
  lemma ToNumberUnpacks(v: Version)
    requires FieldsFitInByte(v)
    ensures v.ToNumber() / 0x1_0000 == v.major
    ensures (v.ToNumber() / 0x100) % 0x100 == v.minor
    ensures v.ToNumber() % 0x100 == v.patch
  {
    ToNumberPacked(v);
    var n := v.ToNumber();
    DivModUnique(n, 0x1_0000, v.major, v.minor * 0x100 + v.patch);
    DivModUnique(n, 0x100, v.major * 0x100 + v.minor, v.patch);
    DivModUnique(v.major * 0x100 + v.minor, 0x100, v.major, v.minor);
  }

  /** Packing versions whose fields fit in a byte loses nothing. */
  lemma ToNumberInjective(v: Version, w: Version)
    requires FieldsFitInByte(v) && FieldsFitInByte(w)
    ensures v.ToNumber() == w.ToNumber() <==> v == w
  {
    ToNumberUnpacks(v);
    ToNumberUnpacks(w);
  }

  /** Lexicographic order on (major, minor, patch). */
  predicate Precedes(v: Version, w: Version)
  {
    v.major < w.major || (v.major == w.major && (v.minor < w.minor || (v.minor == w.minor && v.patch < w.patch)))
  }

  /** Packing versions whose fields fit in a byte turns version order into numeric order. */
  lemma ToNumberOrder(v: Version, w: Version)
    requires FieldsFitInByte(v) && FieldsFitInByte(w)
    ensures v.ToNumber() < w.ToNumber() <==> Precedes(v, w)
  {
    ToNumberPacked(v);
    ToNumberPacked(w);
  }

  /** `to_number` sees only the low 16 bits of `major` and the low 24 bits of `minor`. */
  lemma ToNumberTruncates(v: Version)
    ensures v.ToNumber() == Version(v.major % 0x1_0000, v.minor % 0x100_0000, v.patch).ToNumber()
  {
    var major, minor := v.major % 0x1_0000, v.minor % 0x100_0000;
    ShiftLeftDiscards(v.major);
    ShiftLeftDiscards(v.minor);
    ShiftLeftDiscards(major);
    ShiftLeftDiscards(minor);
    DivModUnique(major, 0x1_0000, 0, major);
    DivModUnique(minor, 0x100_0000, 0, minor);
    var hi, mid := ShiftLeft(v.major, 16), ShiftLeft(v.minor, 8);
    assert hi == ShiftLeft(major, 16) && mid == ShiftLeft(minor, 8);
    assert v.ToNumber() == Or32(Or32(hi, mid), v.patch);
  }

  /** Outside one byte per field, different versions collide. */
  lemma ToNumberCollision()
    ensures Version(0, 256, 0).ToNumber() == Version(1, 0, 0).ToNumber()
  {
    Pow2Values();
    assert ShiftLeft(256, 8) == 0x1_0000 && ShiftLeft(1, 16) == 0x1_0000;
    assert ShiftLeft(0, 16) == 0 && ShiftLeft(0, 8) == 0;
  }

  /** `Version{1,2,3}.to_number() == (1 << 16) | (2 << 8) | 3`. */
  lemma ToNumberExample()
    ensures Version(1, 2, 3).ToNumber() == 0x1_0203
  {
    ToNumberPacked(Version(1, 2, 3));
  }

  // ---------------------------------------------------------------------
  // to_string
  // ---------------------------------------------------------------------

  /** Reading back the decimal digits gives the number that was written. */
  lemma {:induction false} DecimalRoundTrip(n: nat)
    ensures DecimalValue(Decimal(n)) == n
  {
    var s := Decimal(n);
    if n >= 10 {
      DecimalRoundTrip(n / 10);
      assert s[..|s| - 1] == Decimal(n / 10);
    }
  }

  lemma DecimalHasNoDot(n: nat)
    ensures '.' !in Decimal(n)
  {
  }

  /** Splitting the rendered version at '.' gives back the three decimal fields. */
  lemma ToStringFields(v: Version)
    ensures StringUtils.Fields(v.ToString(), '.') == [Decimal(v.major), Decimal(v.minor), Decimal(v.patch)]
  {
    var a, b, c := Decimal(v.major), Decimal(v.minor), Decimal(v.patch);
    DecimalHasNoDot(v.major);
    DecimalHasNoDot(v.minor);
    DecimalHasNoDot(v.patch);
    assert v.ToString() == a + ['.'] + (b + ['.'] + c);
    StringUtils.FieldsAfterRun(a, b + ['.'] + c, '.');
    StringUtils.FieldsAfterRun(b, c, '.');
    StringUtils.FieldsOfRun(c, '.');
  }

  /** The rendered version parses back to the version: split at '.', then read each field. */
  lemma ToStringParses(v: Version)
    ensures var f := StringUtils.Fields(v.ToString(), '.');
      |f| == 3 && AllDigits(f[0]) && AllDigits(f[1]) && AllDigits(f[2]) &&
      DecimalValue(f[0]) == v.major && DecimalValue(f[1]) == v.minor && DecimalValue(f[2]) == v.patch
  {
    ToStringFields(v);
    DecimalRoundTrip(v.major);
    DecimalRoundTrip(v.minor);
    DecimalRoundTrip(v.patch);
  }

  /** Different versions render differently, whatever their field widths. */
  lemma ToStringInjective(v: Version, w: Version)
    ensures v.ToString() == w.ToString() <==> v == w
  {
    ToStringParses(v);
    ToStringParses(w);
  }

  /** `Version{1,2,3}.to_string() == "1.2.3"`. */
  lemma ToStringExample()
    ensures Version(1, 2, 3).ToString() == "1.2.3"
  {
  }

  // ---------------------------------------------------------------------
  // Getters
  // ---------------------------------------------------------------------

  /** `get_version()` packs to 0x100. */
  lemma GetVersionNumber()
    ensures GetVersion().ToNumber() == 0x100
  {
    ToNumberPacked(GetVersion());
  }

  /** `get_version_string()` is "0.1.0". */
  lemma GetVersionStringExample()
    ensures GetVersionString() == "0.1.0"
  {
  }
}
