/**
 * JavaScript's `String(n)` on the number a JSON integer literal parses to (ECMA-262, section 6.1.6.1.20,
 * "Number::toString").
 */
module JsNumbers {
  import opened Prelude
  import opened Doubles
  import Decimal

  /** The value of an integer literal: the nearest double. */
  datatype Number = Finite(n: int) | Infinite(negative: bool)

  function Magnitude(n: int): nat { if n < 0 then -n else n }

  function Signed(negative: bool, x: int): int { if negative then -x else x }

  function Pow10(j: nat): (r: nat)
    ensures r >= 1
  {
    if j == 0 then 1 else 10 * Pow10(j - 1)
  }

  /** From here on numbers are printed with an exponent. */
  const EXPONENT_FROM: nat := 1_000_000_000_000_000_000_000

  function Parse(literal: int): Number {
    var x := Round(Magnitude(literal));
    if Overflows(x) then Infinite(literal < 0) else Number.Finite(Signed(literal < 0, x))
  }

  /** The multiple of `unit` nearest to `x`, ties to even, among those that read back as `x`. */
  function Candidate(x: nat, unit: nat): (c: Option<nat>)
    requires unit >= 1
    ensures c.Some? ==> Round(c.value) == x
  {
    LowDigits(x, unit);
    var over := x % unit;
    var low: nat := x - over;
    var high := low + unit;
    var down := 2 * over < unit || (2 * over == unit && x / unit % 2 == 0);
    if Round(low) == x && (down || Round(high) != x) then Some(low)
    else if Round(high) == x then Some(high)
    else None
  }

  function ShortestFrom(x: nat, j: nat): (p: nat)
    ensures Has53Bits(x) ==> Round(p) == x
  {
    if j == 0 then RoundDoubles(x); x
    else
      var c := Candidate(x, Pow10(j));
      if c.Some? then c.value else ShortestFrom(x, j - 1)
  }

  /** The decimal a double is printed as: of those that read back as it, one with the most trailing zeros. */
  function Shortest(x: nat): (p: nat)
    ensures Has53Bits(x) ==> Round(p) == x
  {
    ShortestFrom(x, |Decimal.Numeral(x)|)
  }

  /** `p` without its trailing zeros. */
  function Significant(p: nat): nat {
    if p == 0 || p % 10 != 0 then p else Significant(p / 10)
  }

  function Mantissa(digits: string): string
    requires digits != []
  {
    digits[..1] + (if |digits| == 1 then "" else "." + digits[1..])
  }

  function Exponential(p: nat): string {
    Mantissa(Decimal.Numeral(Significant(p))) + ("e+" + Decimal.Numeral(|Decimal.Numeral(p)| - 1))
  }

  function DecimalText(p: nat): string {
    if p < EXPONENT_FROM then Decimal.Numeral(p) else Exponential(p)
  }

  function MagnitudeText(x: nat): string {
    if Overflows(x) then "Infinity" else DecimalText(Shortest(x))
  }

  /** `String(JSON.parse(literal))`. */
  function NumberText(literal: int): string {
    (if literal < 0 then "-" else "") + MagnitudeText(Round(Magnitude(literal)))
  }

  // ----- The printed decimal is the shortest -----

  /** No decimal with more trailing zeros reads back as `x`. */
  lemma {:induction false} FewestDigits(x: nat, q: nat, j: nat, start: nat)
    requires Has53Bits(x) && j <= start && q % Pow10(j) == 0 && Round(q) == x
    ensures ShortestFrom(x, start) % Pow10(j) == 0
  {
    hide Round, Has53Bits;
    if start > j {
      var c := Candidate(x, Pow10(start));
      if c.Some? {
        CandidateIsMultiple(x, Pow10(start));
        Pow10Divides(j, start, c.value);
      } else {
        FewestDigits(x, q, j, start - 1);
      }
    } else if start == 0 {
      assert Pow10(0) == 1;
    } else {
      CandidateIsMultiple(x, Pow10(j));
      CandidateExists(x, Pow10(j), q);
    }
  }

  lemma CandidateIsMultiple(x: nat, unit: nat)
    requires unit >= 1
    ensures Candidate(x, unit).Some? ==> Candidate(x, unit).value % unit == 0
  {
    hide Round;
    LowestMultiple(x, unit);
  }

  lemma LowestMultiple(x: nat, unit: nat)
    requires unit >= 1
    ensures (x - x % unit) % unit == 0 && (x - x % unit + unit) % unit == 0
  {
    var k := x / unit;
    assert x - x % unit == k * unit && k * unit + unit == (k + 1) * unit;
    Unique(k * unit, unit, k, 0);
    Unique((k + 1) * unit, unit, k + 1, 0);
  }

  lemma MultipleOutside(x: nat, unit: nat, q: nat)
    requires unit >= 1 && q % unit == 0
    ensures q <= x - x % unit || q >= x - x % unit + unit
  {
    var k, i := x / unit, q / unit;
    assert x - x % unit == k * unit && q == i * unit;
    MultiplesApart(i, k, unit);
  }

  lemma MultiplesApart(i: nat, k: nat, unit: nat)
    ensures i <= k ==> i * unit <= k * unit
    ensures i > k ==> i * unit >= k * unit + unit
  {
    if i <= k {
      assert k * unit == i * unit + (k - i) * unit;
      NotNegative(k - i, unit);
    } else {
      assert i * unit == k * unit + unit + (i - k - 1) * unit;
      NotNegative(i - k - 1, unit);
    }
  }

  lemma CandidateExists(x: nat, unit: nat, q: nat)
    requires unit >= 1 && Has53Bits(x) && q % unit == 0 && Round(q) == x
    ensures Candidate(x, unit).Some?
  {
    hide Round, Has53Bits;
    MultipleOutside(x, unit, q);
    RoundDoubles(x);
    var low := x - x % unit;
    if q <= low {
      RoundMonotone(q, low);
      RoundMonotone(low, x);
    } else {
      RoundMonotone(low + unit, q);
      RoundMonotone(x, low + unit);
    }
  }

  lemma {:induction false} Pow10Divides(j: nat, k: nat, c: nat)
    requires j <= k && c % Pow10(k) == 0
    ensures c % Pow10(j) == 0
    decreases k
  {
    if j < k {
      var m, i := Pow10(k - 1), c / Pow10(k);
      assert c == i * (10 * m);
      assert i * (10 * m) == (10 * i) * m;
      Unique(c, m, 10 * i, 0);
      Pow10Divides(j, k - 1, c);
    }
  }

  function Distance(a: nat, b: nat): nat {
    if a < b then b - a else a - b
  }

  /** Of the multiples of a unit that read back as `x`, the candidate is the nearest. */
  lemma CandidateNearest(x: nat, unit: nat, q: nat)
    requires unit >= 1 && Has53Bits(x) && q % unit == 0 && Round(q) == x
    ensures Candidate(x, unit).Some? && Distance(Candidate(x, unit).value, x) <= Distance(q, x)
  {
    hide Round, Has53Bits;
    MultipleOutside(x, unit, q);
    RoundDoubles(x);
    LowDigits(x, unit);
    var low: nat := x - x % unit;
    if q <= low {
      RoundMonotone(q, low);
      RoundMonotone(low, x);
    } else {
      RoundMonotone(low + unit, q);
      RoundMonotone(x, low + unit);
    }
  }

  // ----- Which form a number takes -----

  lemma ExponentFromIsDouble()
    ensures Has53Bits(EXPONENT_FROM) && EXPONENT_FROM == Pow10(21)
  {
    TwentyOneZeros();
    SeventeenHalvings();
    EvenDoubles(7_629_394_531_250_000, 17);
  }

  lemma TwentyOneZeros()
    ensures Pow10(21) == EXPONENT_FROM
  {
    assert Pow10(7) == 1000_0000;
    assert Pow10(14) == 100_0000_0000_0000;
  }

  lemma SeventeenHalvings()
    ensures Pow2(17) == 0x2_0000
  {
    assert Pow2(6) == 0x40;
    assert Pow2(12) == 0x1000;
  }

  /** Rounding to few digits never crosses the bound between the two forms. */
  lemma SameSideOfBound(x: nat, j: nat)
    requires Has53Bits(x)
    ensures ShortestFrom(x, j) < EXPONENT_FROM <==> x < EXPONENT_FROM
  {
    ExponentFromIsDouble();
    RoundDoubles(EXPONENT_FROM);
    hide Round, Has53Bits, Pow10;
    if x < EXPONENT_FROM {
      if ShortestFrom(x, j) >= EXPONENT_FROM {
        RoundMonotone(EXPONENT_FROM, ShortestFrom(x, j));
      }
    } else {
      NotBelowBound(x, j);
    }
  }

  lemma {:induction false} NotBelowBound(x: nat, j: nat)
    requires Has53Bits(x) && x >= EXPONENT_FROM
    ensures ShortestFrom(x, j) >= EXPONENT_FROM
  {
    hide Has53Bits, Round;
    if j > 0 {
      var unit := Pow10(j);
      if Candidate(x, unit).Some? {
        LowNotBelow(x, j);
      } else {
        NotBelowBound(x, j - 1);
      }
    }
  }

  lemma LowNotBelow(x: nat, j: nat)
    requires x >= EXPONENT_FROM && Candidate(x, Pow10(j)).Some?
    ensures Candidate(x, Pow10(j)).value >= EXPONENT_FROM
  {
    ExponentFromIsDouble();
    if j <= 21 {
      SelfDivides(21);
      Pow10Divides(j, 21, Pow10(21));
      LowestAbove(x, Pow10(j), EXPONENT_FROM);
    } else {
      Pow10Grows(21, j);
      LowestZeroOrAbove(x, Pow10(j));
    }
  }

  lemma LowestAbove(x: nat, unit: nat, bound: nat)
    requires unit >= 1 && bound % unit == 0 && bound <= x && Candidate(x, unit).Some?
    ensures Candidate(x, unit).value >= bound
  {
    hide Round;
    MultipleOutside(x, unit, bound);
  }

  /** A candidate is not zero unless `x` is. */
  lemma LowestZeroOrAbove(x: nat, unit: nat)
    requires unit >= 1 && Candidate(x, unit).Some? && x > 0
    ensures Candidate(x, unit).value >= unit
  {
    if x >= unit {
      Unique(unit, unit, 1, 0);
      LowestAbove(x, unit, unit);
    } else {
      assert Round(0) == 0;
      Unique(x, unit, 0, x);
    }
  }

  lemma SelfDivides(j: nat)
    ensures Pow10(j) % Pow10(j) == 0
  {
    Unique(Pow10(j), Pow10(j), 1, 0);
  }

  lemma {:induction false} Pow10Grows(j: nat, k: nat)
    requires j <= k
    ensures Pow10(j) <= Pow10(k)
    decreases k
  {
    if j < k {
      Pow10Grows(j, k - 1);
    }
  }

  // ----- What the text tells apart -----

  predicate AllDigits(s: string) {
    forall k :: 0 <= k < |s| ==> '0' <= s[k] <= '9'
  }

  lemma NumeralInjective(p: nat, q: nat)
    requires Decimal.Numeral(p) == Decimal.Numeral(q)
    ensures p == q
  {
    Decimal.NumeralValue(p);
    Decimal.NumeralValue(q);
  }

  lemma {:induction false} SignificantNumeral(p: nat)
    requires p > 0
    ensures |Decimal.Numeral(Significant(p))| <= |Decimal.Numeral(p)|
    ensures p == Significant(p) * Pow10(|Decimal.Numeral(p)| - |Decimal.Numeral(Significant(p))|)
  {
    if p % 10 == 0 {
      SignificantNumeral(p / 10);
      assert |Decimal.Numeral(p)| == |Decimal.Numeral(p / 10)| + 1;
      TenTimes(Significant(p), |Decimal.Numeral(p / 10)| - |Decimal.Numeral(Significant(p))|);
    } else {
      assert Pow10(0) == 1;
    }
  }

  lemma TenTimes(s: nat, k: nat)
    ensures s * Pow10(k + 1) == 10 * (s * Pow10(k))
  {
    assert s * (10 * Pow10(k)) == 10 * (s * Pow10(k));
  }

  lemma MarkSplit(c: char, m: string, n: string, r: string, q: string)
    requires (forall k :: 0 <= k < |m| ==> m[k] != c) && (forall k :: 0 <= k < |n| ==> n[k] != c)
    requires m + r == n + q && r != [] && q != [] && r[0] == c && q[0] == c
    ensures m == n && r == q
  {
    var s, t := m + r, n + q;
    assert s[|m|] == c && t[|n|] == c;
    assert forall k :: 0 <= k < |n| ==> t[k] == n[k];
    assert forall k :: 0 <= k < |m| ==> s[k] == m[k];
    assert m == s[..|m|] && n == t[..|m|] && r == s[|m|..] && q == t[|m|..];
  }

  lemma MantissaInjective(d: string, d': string)
    requires d != [] && d' != [] && Mantissa(d) == Mantissa(d')
    ensures d == d'
  {
    var m := Mantissa(d);
    assert d[0] == m[0] && d'[0] == m[0];
    if |d| > 1 && |d'| > 1 {
      assert d[1..] == m[2..] == d'[1..];
    }
    assert d == [d[0]] + d[1..] && d' == [d'[0]] + d'[1..];
  }

  lemma MantissaPlain(d: string)
    requires d != [] && AllDigits(d)
    ensures forall k :: 0 <= k < |Mantissa(d)| ==> Mantissa(d)[k] != 'e'
    ensures '0' <= Mantissa(d)[0] <= '9'
  {
  }

  lemma ExponentialInjective(p: nat, q: nat)
    requires p > 0 && q > 0 && Exponential(p) == Exponential(q)
    ensures p == q
  {
    var d, d' := Decimal.Numeral(Significant(p)), Decimal.Numeral(Significant(q));
    var n, n' := |Decimal.Numeral(p)|, |Decimal.Numeral(q)|;
    var e, e' := Decimal.Numeral(n - 1), Decimal.Numeral(n' - 1);
    MantissaPlain(d);
    MantissaPlain(d');
    MarkSplit('e', Mantissa(d), Mantissa(d'), "e+" + e, "e+" + e');
    MantissaInjective(d, d');
    NumeralInjective(Significant(p), Significant(q));
    assert ("e+" + e)[2..] == e && ("e+" + e')[2..] == e';
    NumeralInjective(n - 1, n' - 1);
    SignificantNumeral(p);
    SignificantNumeral(q);
  }

  lemma {:induction false} NoLeadingZero(n: nat)
    requires n > 0
    ensures Decimal.Numeral(n)[0] != '0'
  {
    if n >= 10 {
      NoLeadingZero(n / 10);
    }
  }

  lemma {:induction false} NoTrailingZero(n: nat)
    requires n > 0
    ensures Significant(n) % 10 != 0
  {
    if n % 10 == 0 {
      NoTrailingZero(n / 10);
    }
  }

  /**
   * The exponent form: the significant digits `d`, a point after the first unless it is the only one, and the
   * power of ten of the first.
   */
  lemma ExponentForm(p: nat) returns (d: string, e: nat)
    requires p >= EXPONENT_FROM
    ensures d != [] && AllDigits(d) && d[0] != '0' && d[|d| - 1] != '0' && e + 1 >= |d|
    ensures p == Decimal.Value(d) * Pow10(e + 1 - |d|)
    ensures DecimalText(p) == (if |d| == 1 then d else d[..1] + "." + d[1..]) + "e+" + Decimal.Numeral(e)
  {
    var s := Significant(p);
    d, e := Decimal.Numeral(s), |Decimal.Numeral(p)| - 1;
    SignificantNumeral(p);
    NoTrailingZero(p);
    NoLeadingZero(s);
    Decimal.NumeralValue(s);
    assert d[|d| - 1] == Decimal.Digit(s % 10);
    hide Significant, Decimal.Numeral, Decimal.Value, Pow10;
    var n := Decimal.Numeral(e);
    if |d| == 1 {
      assert d[..1] + "" == d && d + ("e+" + n) == d + "e+" + n;
    } else {
      var m := d[..1] + ("." + d[1..]);
      assert m == d[..1] + "." + d[1..] && m + ("e+" + n) == m + "e+" + n;
    }
  }

  /** Past the largest double the text is no numeral. */
  lemma InfinityText(literal: int)
    requires Overflows(Round(Magnitude(literal)))
    ensures NumberText(literal) == if literal < 0 then "-Infinity" else "Infinity"
  {
    hide Overflows, Round;
    assert "-" + "Infinity" == "-Infinity" && "" + "Infinity" == "Infinity";
  }

  /** Only the exponent form holds an `e`, and both start with a digit. */
  lemma DecimalTextForm(p: nat)
    ensures DecimalText(p) != [] && '0' <= DecimalText(p)[0] <= '9'
    ensures AllDigits(DecimalText(p)) <==> p < EXPONENT_FROM
  {
    if p >= EXPONENT_FROM {
      var m := Mantissa(Decimal.Numeral(Significant(p)));
      MantissaPlain(Decimal.Numeral(Significant(p)));
      assert DecimalText(p)[|m|] == 'e';
    }
  }

  lemma DecimalTextInjective(p: nat, q: nat)
    requires DecimalText(p) == DecimalText(q)
    ensures p == q
  {
    DecimalTextForm(p);
    DecimalTextForm(q);
    if p < EXPONENT_FROM {
      NumeralInjective(p, q);
    } else {
      ExponentialInjective(p, q);
    }
  }

  lemma MagnitudeTextInjective(x: nat, y: nat)
    requires Has53Bits(x) && Has53Bits(y) && MagnitudeText(x) == MagnitudeText(y)
    ensures Overflows(x) <==> Overflows(y)
    ensures !Overflows(x) ==> x == y
  {
    hide Overflows, Has53Bits, DecimalText;
    DecimalTextForm(Shortest(x));
    DecimalTextForm(Shortest(y));
    if !Overflows(x) && !Overflows(y) {
      DecimalTextInjective(Shortest(x), Shortest(y));
    }
  }

  lemma MagnitudeTextUnsigned(x: nat)
    ensures MagnitudeText(x) != [] && MagnitudeText(x)[0] != '-'
  {
    hide Overflows, DecimalText;
    DecimalTextForm(Shortest(x));
  }

  /** No number's text holds a colon. */
  lemma NumberTextPlain(literal: int)
    ensures forall k :: 0 <= k < |NumberText(literal)| ==> NumberText(literal)[k] != ':'
  {
    hide Overflows, Round, Shortest, DecimalText;
    DecimalTextPlain(Shortest(Round(Magnitude(literal))));
  }

  lemma DecimalTextPlain(p: nat)
    ensures forall k :: 0 <= k < |DecimalText(p)| ==> DecimalText(p)[k] != ':'
  {
    if p >= EXPONENT_FROM {
      ExponentialPlain(Decimal.Numeral(Significant(p)), Decimal.Numeral(|Decimal.Numeral(p)| - 1));
    }
  }

  lemma ExponentialPlain(d: string, e: string)
    requires d != [] && AllDigits(d) && AllDigits(e)
    ensures forall k :: 0 <= k < |Mantissa(d) + ("e+" + e)| ==> (Mantissa(d) + ("e+" + e))[k] != ':'
  {
  }

  lemma SignSplit(a: bool, b: bool, s: string, t: string)
    requires s != [] && t != [] && s[0] != '-' && t[0] != '-'
    requires (if a then "-" else "") + s == (if b then "-" else "") + t
    ensures a == b && s == t
  {
    var u, v := (if a then "-" else "") + s, (if b then "-" else "") + t;
    assert a ==> u[0] == '-' && u[1..] == s;
    assert b ==> v[0] == '-' && v[1..] == t;
    assert !a ==> u == s;
    assert !b ==> v == t;
  }

  lemma RoundPositive(x: nat)
    ensures Round(x) == 0 <==> x == 0
  {
    assert Round(0) == 0 && Round(1) == 1;
    if x >= 1 {
      RoundMonotone(1, x);
    }
  }

  /** Two literals print alike exactly when they parse to one number. */
  lemma NumberTextInjective(m: int, n: int)
    ensures NumberText(m) == NumberText(n) <==> Parse(m) == Parse(n)
  {
    hide Round, Has53Bits, Overflows, MagnitudeText;
    var x, y := Round(Magnitude(m)), Round(Magnitude(n));
    RoundExactIff(Magnitude(m));
    RoundExactIff(Magnitude(n));
    RoundPositive(Magnitude(m));
    RoundPositive(Magnitude(n));
    MagnitudeTextUnsigned(x);
    MagnitudeTextUnsigned(y);
    if NumberText(m) == NumberText(n) {
      SignSplit(m < 0, n < 0, MagnitudeText(x), MagnitudeText(y));
      MagnitudeTextInjective(x, y);
    } else if Overflows(x) && Overflows(y) {
      OneInfinity(x, y);
    }
  }

  lemma OneInfinity(x: nat, y: nat)
    requires Overflows(x) && Overflows(y)
    ensures MagnitudeText(x) == MagnitudeText(y)
  {
    hide Overflows;
  }

  lemma NumeralForm(literal: int)
    ensures Decimal.ToString(literal) == (if literal < 0 then "-" else "") + Decimal.Numeral(Magnitude(literal))
    ensures Decimal.Numeral(Magnitude(literal)) != []
  {
  }

  lemma MagnitudeTextIsNumeral(x: nat, k: nat)
    requires Has53Bits(x)
    ensures MagnitudeText(x) == Decimal.Numeral(k) <==> !Overflows(x) && x < EXPONENT_FROM && k == Shortest(x)
  {
    hide Overflows, Has53Bits;
    DecimalTextForm(Shortest(x));
    SameSideOfBound(x, |Decimal.Numeral(x)|);
    if MagnitudeText(x) == Decimal.Numeral(k) && !Overflows(x) {
      NumeralInjective(Shortest(x), k);
    }
  }

  /**
   * A number's text is a decimal numeral exactly when its magnitude is below 10^21; the numeral is then
   * that of the shortest decimal reading back as it, which denotes the same number.
   */
  lemma TextIsNumeralIff(m: int, k: int)
    ensures NumberText(m) == Decimal.ToString(k) <==>
            && Round(Magnitude(m)) < EXPONENT_FROM
            && k == Signed(m < 0, Shortest(Round(Magnitude(m))))
    ensures NumberText(m) == Decimal.ToString(k) ==> Parse(k) == Parse(m)
  {
    hide Round, Has53Bits, Overflows, MagnitudeText, Shortest, Pow2, Decimal.ToString, Decimal.Numeral;
    var x := Round(Magnitude(m));
    RoundExactIff(Magnitude(m));
    RoundPositive(Magnitude(m));
    if x < EXPONENT_FROM {
      SmallIsFinite(x);
    }
    RoundPositive(Shortest(x));
    NumeralForm(k);
    MagnitudeTextUnsigned(x);
    MagnitudeTextIsNumeral(x, Magnitude(k));
    if NumberText(m) == Decimal.ToString(k) {
      SignSplit(m < 0, k < 0, MagnitudeText(x), Decimal.Numeral(Magnitude(k)));
    }
  }

  lemma SmallIsFinite(x: nat)
    requires x <= EXPONENT_FROM
    ensures !Overflows(x)
  {
  }

  /** Integers JavaScript counts as safe print as their own numerals. */
  lemma SafeIntegersPrintThemselves(m: int)
    requires Magnitude(m) < EXACT
    ensures NumberText(m) == Decimal.ToString(m)
  {
    var x := Magnitude(m);
    RoundDoubles(x);
    RoundDoubles(EXACT);
    RoundExactIff(EXACT);
    var p := Shortest(x);
    if p >= EXACT {
      RoundMonotone(EXACT, p);
    }
    RoundDoubles(p);
    hide Round, Has53Bits, Shortest;
    TextIsNumeralIff(m, m);
  }

  lemma {:induction false} PowerOfTenDigits(j: nat)
    ensures Significant(Pow10(j)) == 1 && |Decimal.Numeral(Pow10(j))| == j + 1
  {
    if j > 0 {
      PowerOfTenDigits(j - 1);
      Unique(Pow10(j), 10, Pow10(j - 1), 0);
    }
  }

  lemma PowerOfTenPrinted(j: nat)
    requires Has53Bits(Pow10(j))
    ensures Shortest(Pow10(j)) == Pow10(j)
  {
    hide Round, Has53Bits, Candidate, Decimal.Numeral;
    PowerOfTenDigits(j);
    NotReadBack(Pow10(j));
    ReadsItself(Pow10(j));
    hide Pow10;
    TenTimesOne(j);
    assert ShortestFrom(Pow10(j), j + 1) == ShortestFrom(Pow10(j), j);
  }

  lemma TenTimesOne(j: nat)
    ensures Pow10(j + 1) == 10 * Pow10(j) && Pow10(0) == 1
  {
  }

  lemma NotReadBack(x: nat)
    requires Has53Bits(x) && x > 0
    ensures Candidate(x, 10 * x).None?
  {
    TwiceIsDouble(x);
    hide Round, Has53Bits;
    if Candidate(x, 10 * x).Some? {
      LowestZeroOrAbove(x, 10 * x);
      RoundMonotone(2 * x, Candidate(x, 10 * x).value);
    }
  }

  lemma ReadsItself(x: nat)
    requires Has53Bits(x) && x > 0
    ensures Candidate(x, x) == Some(x)
  {
    RoundDoubles(x);
    hide Round, Has53Bits;
    Unique(x, x, 1, 0);
  }

  lemma TwiceIsDouble(x: nat)
    requires Has53Bits(x)
    ensures Has53Bits(2 * x) && Round(2 * x) == 2 * x
  {
    RoundDoubles(2 * x);
  }

  /** 10^21 is the first number printed with an exponent. */
  lemma FirstExponent()
    ensures NumberText(EXPONENT_FROM) == "1e+21"
    ensures Parse(EXPONENT_FROM) != Infinite(false)
  {
    hide Pow2, Pow10, Significant, Shortest, Round, Has53Bits, Overflows, Exponential, Decimal.Numeral;
    ExponentFromIsDouble();
    RoundDoubles(EXPONENT_FROM);
    PowerOfTenPrinted(21);
    PowerOfTenDigits(21);
    SmallIsFinite(EXPONENT_FROM);
    OneAndZeros(EXPONENT_FROM);
    assert Magnitude(EXPONENT_FROM) == EXPONENT_FROM && "" + "1e+21" == "1e+21";
  }

  lemma OneAndZeros(p: nat)
    requires Significant(p) == 1 && |Decimal.Numeral(p)| == 22
    ensures Exponential(p) == "1e+21"
  {
    assert Decimal.Numeral(1) == "1" && Decimal.Numeral(21) == "2" + "1";
  }

  lemma BoundIsRound()
    ensures Round(EXPONENT_FROM) == EXPONENT_FROM
  {
    ExponentFromIsDouble();
    RoundDoubles(EXPONENT_FROM);
  }

  /** 2^53 and 2^53 + 1 are one number. */
  lemma FirstRounded()
    ensures Parse(EXACT) == Parse(EXACT + 1) == Number.Finite(EXACT)
  {
    RoundExactIff(EXACT);
    assert RoundDropped(EXACT / 2, true, false) == EXACT / 2 && (EXACT + 1) / 2 == EXACT / 2;
    assert Round(EXACT + 1) == EXACT;
    hide Round;
    SmallIsFinite(EXACT);
  }
}
