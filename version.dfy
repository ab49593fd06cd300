/**
 * The version value type of `ape_template::core`: three unsigned 32-bit
 * fields, their dotted decimal rendering and their packing into one
 * unsigned 32-bit number by shifts and a bitwise OR.
 */
module Core {

  /** `std::uint32_t`. */
  type uint32 = x: int | 0 <= x < 0x1_0000_0000

  // ---------------------------------------------------------------------
  // 32-bit unsigned arithmetic
  // ---------------------------------------------------------------------

  function Pow2(k: nat): (r: nat)
    ensures r >= 1
  {
    if k == 0 then 1 else 2 * Pow2(k - 1)
  }

  lemma {:induction false} Pow2Add(a: nat, b: nat)
    ensures Pow2(a + b) == Pow2(a) * Pow2(b)
    decreases a
  {
    if a > 0 {
      Pow2Add(a - 1, b);
      assert Pow2(a + b) == 2 * Pow2(a - 1 + b);
    }
  }

  /** The powers of two that the shifts and the 32-bit width use. */
  lemma Pow2Values()
    ensures Pow2(8) == 256 && Pow2(16) == 0x1_0000 && Pow2(24) == 0x100_0000 && Pow2(32) == 0x1_0000_0000
  {
    assert Pow2(4) == 16;
    Pow2Add(4, 4);
    Pow2Add(8, 8);
    Pow2Add(16, 8);
    Pow2Add(16, 16);
  }

  /** Bit `i` of `n`. */
  function Bit(n: nat, i: nat): (b: nat)
    ensures b < 2
  {
    (n / Pow2(i)) % 2
  }

  /** Bitwise OR of two naturals, one binary digit at a time from the bottom. */
  function BitOr(a: nat, b: nat): (r: nat)
    ensures a <= r && b <= r && r <= a + b
    decreases a + b
  {
    if a == 0 then b
    else if b == 0 then a
    else 2 * BitOr(a / 2, b / 2) + (if a % 2 == 1 || b % 2 == 1 then 1 else 0)
  }

  /** OR sets no bit above the highest bit of its operands. */
  lemma {:induction false} BitOrBound(a: nat, b: nat, k: nat)
    requires a < Pow2(k) && b < Pow2(k)
    ensures BitOr(a, b) < Pow2(k)
    decreases a + b
  {
    if a != 0 && b != 0 {
      BitOrBound(a / 2, b / 2, k - 1);
    }
  }

  /** `x << k` on a `uint32`: bits pushed past bit 31 are discarded. */
  function ShiftLeft(x: uint32, k: nat): (r: uint32)
    ensures x * Pow2(k) < 0x1_0000_0000 ==> r == x * Pow2(k)
  {
    (x * Pow2(k)) % 0x1_0000_0000
  }

  /** `a | b` on two `uint32` values. */
  function Or32(a: uint32, b: uint32): (r: uint32)
    ensures a <= r && b <= r && r <= a + b
  {
    Pow2Values();
    BitOrBound(a, b, 32);
    BitOr(a, b)
  }

  // ---------------------------------------------------------------------
  // Decimal rendering
  // ---------------------------------------------------------------------

  predicate IsDigit(c: char)
  {
    '0' <= c <= '9'
  }

  ghost predicate AllDigits(s: string)
  {
    forall i :: 0 <= i < |s| ==> IsDigit(s[i])
  }

  function DigitChar(d: nat): (c: char)
    requires d < 10
    ensures IsDigit(c) && c as int - '0' as int == d
  {
    ('0' as int + d) as char
  }

  function DigitValue(c: char): (d: nat)
    requires IsDigit(c)
    ensures d < 10 && DigitChar(d) == c
  {
    c as int - '0' as int
  }

  /** What `operator<<` writes for an unsigned integer: its decimal digits, without leading zeros. */
  function Decimal(n: nat): (r: string)
    ensures |r| >= 1 && AllDigits(r)
    ensures |r| > 1 ==> r[0] != '0'
  {
    if n < 10 then [DigitChar(n)] else Decimal(n / 10) + [DigitChar(n % 10)]
  }

  /** The value of a string of decimal digits. */
  function DecimalValue(s: string): nat
    requires AllDigits(s)
  {
    if s == [] then 0 else 10 * DecimalValue(s[..|s| - 1]) + DigitValue(s[|s| - 1])
  }

  // ---------------------------------------------------------------------
  // Version
  // ---------------------------------------------------------------------

  /** `struct Version`. */
  datatype Version = Version(major: uint32, minor: uint32, patch: uint32)
  {
    /** `to_string`: `major`, '.', `minor`, '.', `patch`, each in decimal. */
    function ToString(): (r: string)
      ensures var i := |Decimal(major)|;
        var j := i + 1 + |Decimal(minor)|;
        j + 1 < |r| && r[i] == '.' && r[j] == '.'
    {
      Decimal(major) + "." + Decimal(minor) + "." + Decimal(patch)
    }

    /** `to_number`: `(major << 16) | (minor << 8) | patch` in `uint32` arithmetic. */
    function ToNumber(): (r: uint32)
      ensures patch <= r <= ShiftLeft(major, 16) + ShiftLeft(minor, 8) + patch
    {
      Or32(Or32(ShiftLeft(major, 16), ShiftLeft(minor, 8)), patch)
    }
  }

  /** The library's own version, `VERSION`. */
  const VERSION: Version := Version(0, 1, 0)

  /** `get_version`. */
  function GetVersion(): (r: Version)
    ensures r.major == 0 && r.minor == 1 && r.patch == 0
  {
    VERSION
  }

  /** `get_version_string`: a literal that agrees with the formatted `get_version()`. */
  function GetVersionString(): (r: string)
    ensures r == GetVersion().ToString()
  {
    "0.1.0"
  }
}
