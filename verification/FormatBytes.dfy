/** The command line tool's size formatting: which power of 1024 a byte count is shown in. */
module FormatBytes {

  const UNIT := 1024
  const UNIT_NAMES := "KMGTPE"
  const TWO_TO_53: int := 0x20_0000_0000_0000
  const TWO_TO_63: int := 0x8000_0000_0000_0000
  const TWO_TO_64: int := 0x1_0000_0000_0000_0000

  newtype uint64 = x: int | 0 <= x < 0x1_0000_0000_0000_0000

  /** Multiplication of Go's `int64`, which wraps around. */
  function MulInt64(a: int, b: int): int {
    var p := a * b % TWO_TO_64;
    if p < TWO_TO_63 then p else p - TWO_TO_64
  }

  function Power(k: nat): (p: nat)
    ensures p > 0
  {
    if k == 0 then 1 else UNIT * Power(k - 1)
  }

  datatype Size = Bytes(count: uint64) | Scaled(count: uint64, divisor: int, tenths: nat, unit: char)

  /** `%.1f` of a quotient, in tenths: to the nearest, ties to the even one. */
  function Tenths(count: nat, divisor: nat): nat
    requires divisor > 0
  {
    var whole, rest := 10 * count / divisor, 10 * count % divisor;
    if 2 * rest > divisor || (2 * rest == divisor && whole % 2 == 1) then whole + 1 else whole
  }

  /** The distance between neighbouring `float64` values around an integer: 53 bits are kept. */
  function Spacing(n: nat): (p: nat)
    ensures p > 0
  {
    if n < TWO_TO_53 then 1 else 2 * Spacing(n / 2)
  }

  /** Conversion to `float64`: to the nearest representable number, ties to the even one. */
  function Float64(n: nat): nat {
    var spacing := Spacing(n);
    var whole, rest := n / spacing, n % spacing;
    if 2 * rest > spacing || (2 * rest == spacing && whole % 2 == 1) then (whole + 1) * spacing else whole * spacing
  }

  /** The unit in which a count is shown. */
  ghost predicate ShownIn(count: nat, exp: nat) {
    Power(exp + 1) <= count < Power(exp + 2)
  }

  lemma {:induction false} PowerGrows(j: nat, k: nat)
    requires j < k
    ensures UNIT * Power(j) <= Power(k)
    decreases k
  {
    if j < k - 1 {
      PowerGrows(j, k - 1);
    }
  }

  /** Larger counts are never shown in smaller units, so every count has one unit at most. */
  lemma UnitIsMonotone(small: nat, large: nat, i: nat, j: nat)
    requires small <= large && ShownIn(small, i) && ShownIn(large, j)
    ensures i <= j
  {
    if j < i {
      PowerGrows(j + 1, i + 1);
    }
  }

  lemma SixPowers()
    ensures Power(6) == 0x1000_0000_0000_0000 && Power(7) > TWO_TO_64
  {
    assert Power(2) == 0x10_0000;
    assert Power(4) == 0x100_0000_0000;
  }

  /** Every 64-bit count from 1024 on has a unit, and the six named ones suffice. */
  lemma SixUnitsSuffice(count: uint64, exp: nat)
    requires ShownIn(count as nat, exp)
    ensures exp <= 5 && Power(exp + 1) <= 0x1000_0000_0000_0000
  {
    SixPowers();
    if exp > 5 {
      if exp > 6 {
        PowerGrows(7, exp + 1);
      }
    } else if exp < 5 {
      PowerGrows(exp + 1, 6);
    }
  }

  /** A quotient of at least `k` means at least `k` divisors fit. */
  lemma QuotientBound(count: nat, divisor: nat, k: nat)
    requires divisor > 0
    ensures count / divisor >= k <==> count >= divisor * k
  {
    var q := count / divisor;
    assert count == divisor * q + count % divisor;
    if q >= k {
      assert divisor * q >= divisor * k;
    } else {
      assert divisor * (q + 1) <= divisor * k;
    }
  }

  lemma AtLeastAgain(count: nat, divisor: nat, k: nat)
    requires divisor > 0
    ensures count / divisor / UNIT >= k <==> count / (divisor * UNIT) >= k
  {
    QuotientBound(count / divisor, UNIT, k);
    QuotientBound(count, divisor, UNIT * k);
    QuotientBound(count, divisor * UNIT, k);
    assert divisor * (UNIT * k) == divisor * UNIT * k;
  }

  /** One more division by the unit divides by one more power. */
  lemma DivideAgain(count: nat, divisor: nat)
    requires divisor > 0
    ensures count / divisor / UNIT == count / (divisor * UNIT)
  {
    AtLeastAgain(count, divisor, count / divisor / UNIT);
    AtLeastAgain(count, divisor, count / (divisor * UNIT));
  }

  /** The letter of the unit, by the powers of two it stands for. */
  ghost predicate NamesUnit(unit: char, count: nat) {
    && (unit == 'K' <==> 0x400 <= count < 0x10_0000)
    && (unit == 'M' <==> 0x10_0000 <= count < 0x4000_0000)
    && (unit == 'G' <==> 0x4000_0000 <= count < 0x100_0000_0000)
    && (unit == 'T' <==> 0x100_0000_0000 <= count < 0x4_0000_0000_0000)
    && (unit == 'P' <==> 0x4_0000_0000_0000 <= count < 0x1000_0000_0000_0000)
    && (unit == 'E' <==> 0x1000_0000_0000_0000 <= count)
  }

  lemma LetterIsRight(count: uint64, exp: nat)
    requires exp <= 5 && ShownIn(count as nat, exp)
    ensures NamesUnit(UNIT_NAMES[exp], count as nat)
  {
    SixPowers();
    assert Power(1) == 0x400 && Power(2) == 0x10_0000;
    assert Power(3) == 0x4000_0000 && Power(4) == 0x100_0000_0000;
    assert Power(5) == 0x4_0000_0000_0000;
  }

  /** `q` is the integer nearest to a quotient, the even one of two equally near. */
  ghost predicate Nearest(q: nat, dividend: nat, divisor: int) {
    var product := q * divisor;
    && 2 * product <= 2 * dividend + divisor && 2 * dividend <= 2 * product + divisor
    && (2 * product == 2 * dividend + divisor || 2 * dividend == 2 * product + divisor ==> q % 2 == 0)
  }

  lemma OneMore(q: nat, divisor: nat)
    ensures (q + 1) * divisor == q * divisor + divisor
  {
  }

  lemma TenthsAreNearest(count: nat, divisor: nat)
    requires divisor > 0
    ensures Nearest(Tenths(count, divisor), 10 * count, divisor)
  {
    var whole, rest := 10 * count / divisor, 10 * count % divisor;
    assert 10 * count == whole * divisor + rest;
    OneMore(whole, divisor);
  }

  /** A 64-bit product is the true one modulo 2^64, in two's complement. */
  lemma ProductWraps(a: int, b: int)
    ensures -0x8000_0000_0000_0000 <= MulInt64(a, b) < 0x8000_0000_0000_0000
    ensures (a * b - MulInt64(a, b)) % 0x1_0000_0000_0000_0000 == 0
  {
    var p := a * b;
    assert p == p / TWO_TO_64 * TWO_TO_64 + p % TWO_TO_64;
    var k := if p % TWO_TO_64 < TWO_TO_63 then p / TWO_TO_64 else p / TWO_TO_64 + 1;
    assert p - MulInt64(a, b) == k * TWO_TO_64;
  }

  /** The size shown is the count in the unit of `1024^(exp + 1)` bytes, to the nearest tenth. */
  ghost predicate ScaledTo(size: Size, bytes: uint64, exp: nat)
    requires size.Scaled?
  {
    && exp <= 5
    && ShownIn(bytes as nat, exp)
    && size.divisor == Power(exp + 1) <= 0x1000_0000_0000_0000
    && NamesUnit(size.unit, bytes as nat)
    && size.tenths == Tenths(Float64(bytes as nat), Power(exp + 1))
    && Nearest(size.tenths, 10 * Float64(bytes as nat), size.divisor)
  }

  method FormatBytes(bytes: uint64) returns (size: Size)
    ensures size.Bytes? <==> bytes < 1024
    ensures size.count == bytes
    ensures size.Scaled? ==> exists exp: nat :: ScaledTo(size, bytes, exp)
  {
    if bytes < 1024 {
      return Bytes(bytes);
    }
    var div, exp := UNIT, 0;
    var n := bytes as nat / UNIT;
    QuotientBound(bytes as nat, UNIT, 1);
    while n >= UNIT
      invariant div == Power(exp + 1)
      invariant n == bytes as nat / div
      invariant div <= bytes as nat
    {
      QuotientBound(bytes as nat, div, UNIT);
      Fits(bytes, exp + 1);
      DivideAgain(bytes as nat, div);
      n := n / UNIT;
      div := MulInt64(div, UNIT);
      exp := exp + 1;
    }
    QuotientBound(bytes as nat, div, UNIT);
    assert ShownIn(bytes as nat, exp);
    SixUnitsSuffice(bytes, exp);
    LetterIsRight(bytes, exp);
    TenthsAreNearest(Float64(bytes as nat), div);
    size := Scaled(bytes, div, Tenths(Float64(bytes as nat), div), UNIT_NAMES[exp]);
    assert ScaledTo(size, bytes, exp);
  }

  /** While the next power still fits the count, the 64-bit product is the true one. */
  lemma Fits(count: uint64, k: nat)
    requires Power(k) * UNIT <= count as nat
    ensures MulInt64(Power(k), UNIT) == Power(k + 1)
  {
    SixPowers();
    if k + 1 > 6 {
      if k + 1 > 7 {
        PowerGrows(7, k + 1);
      }
      assert false;
    }
    if k + 1 < 6 {
      PowerGrows(k + 1, 6);
    }
  }

  /** Counts below 2^53 convert exactly, larger ones to within half a spacing. */
  lemma ConversionError(n: nat)
    ensures n < 0x20_0000_0000_0000 ==> Float64(n) == n
    ensures 2 * n <= 2 * Float64(n) + Spacing(n) && 2 * Float64(n) <= 2 * n + Spacing(n)
  {
    var spacing := Spacing(n);
    assert n == n / spacing * spacing + n % spacing;
    assert (n / spacing + 1) * spacing == n / spacing * spacing + spacing;
  }

  /** The spacing divides the power of two that says how far a number reaches beyond 2^53. */
  lemma {:induction false} SpacingDivides(n: nat, bits: nat) returns (k: nat)
    requires n < TWO_TO_53 * TwoTo(bits)
    ensures k * Spacing(n) == TwoTo(bits)
    decreases bits
  {
    if n < TWO_TO_53 {
      k := TwoTo(bits);
    } else {
      k := SpacingDivides(n / 2, bits - 1);
      assert k * Spacing(n) == 2 * (k * Spacing(n / 2));
    }
  }

  function TwoTo(k: nat): (p: nat)
    ensures p > 0
  {
    if k == 0 then 1 else 2 * TwoTo(k - 1)
  }

  lemma ProductGrows(a: nat, b: nat, c: nat)
    requires a <= b
    ensures a * c <= b * c
  {
  }

  /** Rounding never crosses a multiple of the spacing. */
  lemma RoundingStaysBetween(n: nat, low: nat, high: nat)
    requires low * Spacing(n) <= n <= high * Spacing(n)
    ensures low * Spacing(n) <= Float64(n) <= high * Spacing(n)
  {
    var spacing := Spacing(n);
    var whole := n / spacing;
    QuotientBound(n, spacing, low);
    QuotientBound(n, spacing, high);
    ProductGrows(low, whole, spacing);
    ProductGrows(low, whole + 1, spacing);
    if whole < high {
      ProductGrows(whole, high, spacing);
      ProductGrows(whole + 1, high, spacing);
    } else {
      assert n == spacing * high;
      QuotientIs(n, spacing, high);
    }
  }

  lemma QuotientIs(n: nat, divisor: nat, q: nat)
    requires divisor > 0 && n == divisor * q
    ensures n / divisor == q && n % divisor == 0
  {
    QuotientBound(n, divisor, q);
    QuotientBound(n, divisor, q + 1);
    assert n == divisor * (n / divisor) + n % divisor;
  }

  /** Large powers of 1024 are multiples of the spacing of any 64-bit count. */
  lemma PowerIsMultiple(count: uint64, k: nat) returns (m: nat)
    requires k >= 2 || count as int < TWO_TO_53
    ensures m * Spacing(count as nat) == Power(k)
  {
    if count as int < TWO_TO_53 {
      m := Power(k);
    } else {
      SmallPowers();
      var j := SpacingDivides(count as nat, 11);
      var rest := 512 * Power(k - 2);
      m := rest * j;
      assert Power(k) == 1024 * (1024 * Power(k - 2)) == rest * 2048;
      assert m * Spacing(count as nat) == rest * (j * Spacing(count as nat));
    }
  }

  lemma SmallPowers()
    ensures TwoTo(11) == 2048 && Power(2) == 0x10_0000
  {
    assert TwoTo(4) == 16;
    assert TwoTo(8) == 256;
  }

  /** A count keeps its place between the powers of 1024 when it is converted. */
  lemma ConversionKeepsUnit(count: uint64, exp: nat)
    requires ShownIn(count as nat, exp)
    ensures Power(exp + 1) <= Float64(count as nat) <= Power(exp + 2)
  {
    SmallPowers();
    var low := PowerIsMultiple(count, exp + 1);
    var high := PowerIsMultiple(count, exp + 2);
    RoundingStaysBetween(count as nat, low, high);
  }

  /**
   The number shown is at least 1.0 and at most 1024.0; it is 1024.0, one step short of the next
   unit, exactly for counts that are, once converted, in the last twentieth of a unit below it.
   */
  lemma ShownNumberRange(count: uint64, exp: nat)
    requires ShownIn(count as nat, exp)
    ensures 10 <= Tenths(Float64(count as nat), Power(exp + 1)) <= 10240
    ensures Tenths(Float64(count as nat), Power(exp + 1)) == 10240
      <==> 20 * (Power(exp + 2) - Float64(count as nat)) <= Power(exp + 1)
  {
    ConversionKeepsUnit(count, exp);
    TenthsRange(Float64(count as nat), Power(exp + 1));
  }

  lemma TenthsRange(shown: nat, divisor: nat)
    requires 0 < divisor <= shown <= UNIT * divisor
    ensures 10 <= Tenths(shown, divisor) <= 10240
    ensures Tenths(shown, divisor) == 10240 <==> 20 * (UNIT * divisor - shown) <= divisor
  {
    var whole, rest := 10 * shown / divisor, 10 * shown % divisor;
    assert 10 * shown == divisor * whole + rest;
    QuotientBound(10 * shown, divisor, 10);
    QuotientBound(10 * shown, divisor, 10239);
    QuotientBound(10 * shown, divisor, 10240);
    QuotientBound(10 * shown, divisor, 10241);
  }
}
