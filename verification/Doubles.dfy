/**
 * JavaScript numbers as far as integers go: which are representable, and how the others round, to the
 * nearest and at a tie to even.
 */
module Doubles {
  import opened Prelude

  /** Integers below this are all representable. */
  const EXACT: nat := 0x20_0000_0000_0000

  /** The binary digits of `x`, from the first one that is set to the last, span at most 53 places. */
  predicate Has53Bits(x: nat) {
    x < EXACT || (x % 2 == 0 && Has53Bits(x / 2))
  }

  /** Integers from here on are infinite. */
  function Limit(): (r: nat)
    ensures r > 0x1_0000_0000_0000_0000_0000
  {
    ManyBits(1024);
    Pow2(1024)
  }

  lemma {:induction false} ManyBits(n: nat)
    requires n > 80
    ensures Pow2(n) > 0x1_0000_0000_0000_0000_0000
  {
    if n == 81 {
      EightyBits();
    } else {
      ManyBits(n - 1);
    }
  }

  lemma EightyBits()
    ensures Pow2(81) > 0x1_0000_0000_0000_0000_0000
  {
    assert Pow2(7) == 0x80;
    assert Pow2(14) == 0x4000;
    assert Pow2(21) == 0x20_0000;
    assert Pow2(28) == 0x1000_0000;
    assert Pow2(35) == 0x8_0000_0000;
    assert Pow2(42) == 0x400_0000_0000;
    assert Pow2(49) == 0x2_0000_0000_0000;
    assert Pow2(56) == 0x100_0000_0000_0000;
    assert Pow2(63) == 0x8000_0000_0000_0000;
    assert Pow2(70) == 0x40_0000_0000_0000_0000;
    assert Pow2(77) == 0x2000_0000_0000_0000_0000;
  }

  predicate Overflows(x: nat) {
    x >= Limit()
  }

  /** `x` is a double. */
  predicate IsDouble(x: nat) {
    Has53Bits(x) && !Overflows(x)
  }

  /**
   * `x` and the two digits dropped below it, rounded: up past the half, at the half to even. `half` is the
   * first dropped digit, `sticky` whether any lower one was set.
   */
  function RoundDropped(x: nat, half: bool, sticky: bool): nat {
    if x < EXACT then (if half && (sticky || x % 2 == 1) then x + 1 else x)
    else 2 * RoundDropped(x / 2, x % 2 == 1, half || sticky)
  }

  /** The nearest integer of 53 bits, ties to even: the double nearest to `x`, unless that overflows. */
  function Round(x: nat): nat {
    RoundDropped(x, false, false)
  }

  lemma {:induction false} RoundDoubles(x: nat)
    ensures Has53Bits(x) ==> Round(x) == x
    decreases x
  {
    if Has53Bits(x) && x >= EXACT {
      RoundDoubles(x / 2);
    }
  }

  lemma {:induction false} RoundDroppedIsDouble(x: nat, half: bool, sticky: bool)
    ensures Has53Bits(RoundDropped(x, half, sticky))
    decreases x
  {
    if x >= EXACT {
      RoundDroppedIsDouble(x / 2, x % 2 == 1, half || sticky);
    } else if x + 1 == EXACT {
      assert Has53Bits(EXACT / 2);
    }
  }

  lemma RoundExactIff(x: nat)
    ensures Round(x) == x <==> Has53Bits(x)
    ensures Has53Bits(Round(x))
    ensures x <= EXACT ==> IsDouble(x)
  {
    RoundDoubles(x);
    RoundDroppedIsDouble(x, false, false);
    assert Has53Bits(EXACT / 2);
  }

  /** `half` and `sticky` as the digits they stand for. */
  function Dropped(half: bool, sticky: bool): nat {
    (if half then 2 else 0) + (if sticky then 1 else 0)
  }

  lemma {:induction false} RoundDroppedMonotone(x: nat, h: bool, s: bool, y: nat, h': bool, s': bool)
    requires x < y || (x == y && Dropped(h, s) <= Dropped(h', s'))
    ensures RoundDropped(x, h, s) <= RoundDropped(y, h', s')
    decreases y
  {
    if x >= EXACT {
      RoundDroppedMonotone(x / 2, x % 2 == 1, h || s, y / 2, y % 2 == 1, h' || s');
    } else if y >= EXACT {
      RoundDroppedLarge(y, h', s');
    }
  }

  lemma {:induction false} RoundDroppedLarge(x: nat, half: bool, sticky: bool)
    requires x >= EXACT
    ensures RoundDropped(x, half, sticky) >= EXACT
    decreases x
  {
    if x / 2 >= EXACT {
      RoundDroppedLarge(x / 2, x % 2 == 1, half || sticky);
    }
  }

  /** Rounding keeps order. */
  lemma RoundMonotone(x: nat, y: nat)
    requires x <= y
    ensures Round(x) <= Round(y)
  {
    RoundDroppedMonotone(x, false, false, y, false, false);
  }

  /** `half` and `sticky` tell of the `j` digits `d` dropped so far all that rounding needs. */
  predicate Tells(d: nat, j: nat, half: bool, sticky: bool) {
    if j == 0 then d == 0 && !half && !sticky
    else (half <==> 2 * d >= Pow2(j)) && (sticky <==> if half then 2 * d > Pow2(j) else d > 0)
  }

  /** `q`, or `q + 1` where the `k` digits `r` below it are past the half, or at it with `q` odd. */
  function HalfEven(q: nat, r: nat, k: nat): nat {
    if 2 * r > Pow2(k) || (2 * r == Pow2(k) && q % 2 == 1) then q + 1 else q
  }

  /** One more digit dropped: `low` is its weight if it is set. */
  lemma TellsMore(x: nat, half: bool, sticky: bool, d: nat, j: nat, low: nat)
    requires d < Pow2(j) && Tells(d, j, half, sticky) && low == if x % 2 == 1 then Pow2(j) else 0
    ensures low + d < Pow2(j + 1) && Tells(low + d, j + 1, x % 2 == 1, half || sticky)
  {
    assert Pow2(j + 1) == 2 * Pow2(j);
    hide Pow2;
  }

  lemma KeptDigits(x: nat, half: bool, sticky: bool, d: nat, j: nat)
    requires x < EXACT && d < Pow2(j) && Tells(d, j, half, sticky)
    ensures RoundDropped(x, half, sticky) == HalfEven(x, d, j)
  {
    assert Pow2(0) == 1;
    hide Pow2;
  }

  lemma {:induction false} RoundDroppedHalfEven(x: nat, half: bool, sticky: bool, d: nat, j: nat)
    returns (q: nat, r: nat, k: nat)
    requires d < Pow2(j) && Tells(d, j, half, sticky)
    ensures k >= j && r < Pow2(k) && q < EXACT && (k == j ==> q == x) && (k > j ==> 2 * q >= EXACT)
    ensures x * Pow2(j) + d == q * Pow2(k) + r
    ensures RoundDropped(x, half, sticky) * Pow2(j) == HalfEven(q, r, k) * Pow2(k)
    decreases x
  {
    hide Pow2, Tells, HalfEven;
    if x < EXACT {
      KeptDigits(x, half, sticky, d, j);
      q, r, k := x, d, j;
    } else {
      var low := if x % 2 == 1 then Pow2(j) else 0;
      TellsMore(x, half, sticky, d, j, low);
      q, r, k := RoundDroppedHalfEven(x / 2, x % 2 == 1, half || sticky, low + d, j + 1);
      TwicePow2(j);
      Doubling(x, Pow2(j), Pow2(j + 1), low);
      Doubling(RoundDropped(x, half, sticky), Pow2(j), Pow2(j + 1), 0);
    }
  }

  lemma TwicePow2(j: nat)
    ensures Pow2(j + 1) == 2 * Pow2(j)
  {
  }

  lemma Doubling(x: nat, w: nat, twice: nat, low: nat)
    requires twice == 2 * w && low == if x % 2 == 1 then w else 0
    ensures x * w == (x / 2) * twice + low
  {
    var h := x / 2;
    assert x == 2 * h + x % 2;
    assert (2 * h) * w == h * (2 * w);
    if x % 2 == 1 {
      assert (2 * h + 1) * w == (2 * h) * w + w;
    }
  }

  /** Rounding is to the nearest, ties to even: 53 digits are kept, and what is below them decides. */
  lemma RoundHalfEven(x: nat) returns (q: nat, r: nat, k: nat)
    ensures x == q * Pow2(k) + r && r < Pow2(k) && q < EXACT && (k > 0 ==> 2 * q >= EXACT)
    ensures Round(x) == HalfEven(q, r, k) * Pow2(k)
  {
    q, r, k := RoundDroppedHalfEven(x, false, false, 0, 0);
    assert Pow2(0) == 1;
  }

  // ----- Sums -----

  /** A JavaScript number: an integer, or the infinity or NaN that sums never leave. */
  datatype Num = Finite(value: int) | NotFinite

  /** The number nearest to `x`. */
  function Rounded(x: int): Num {
    var r := Round(if x < 0 then -x else x);
    if Overflows(r) then NotFinite else Finite(if x < 0 then -(r as int) else r)
  }

  /** Arithmetic leaves exactly the doubles alone, and yields nothing else. */
  lemma RoundedExactIff(x: nat)
    ensures Rounded(x) == Finite(x) <==> IsDouble(x)
    ensures Rounded(x).Finite? ==> Rounded(x).value >= 0 && IsDouble(Rounded(x).value)
  {
    RoundExactIff(x);
  }

  /** `+`. */
  function Plus(a: Num, b: Num): Num {
    if a.Finite? && b.Finite? then Rounded(a.value + b.value) else NotFinite
  }

  /** `2 ** k`. */
  function PowerOfTwo(k: nat): Num {
    if k < 1024 then Finite(Pow2(k)) else NotFinite
  }

  /** `x * w`: nothing finite comes of an infinite weight, not even times zero. */
  function Scaled(x: nat, w: Num): Num {
    if w.Finite? then Rounded(x * w.value) else NotFinite
  }

  lemma {:induction false} EvenDoubles(x: nat, k: nat)
    requires Has53Bits(x)
    ensures Has53Bits(Pow2(k) * x)
  {
    if k > 0 {
      EvenDoubles(x, k - 1);
      var y := Pow2(k - 1) * x;
      assert Pow2(k) * x == 2 * y;
      NotNegative(Pow2(k - 1), x);
    } else {
      assert Pow2(0) * x == x;
    }
  }

  /**
   * One more digit added to a sum built from the low end: the number stays finite exactly as long as the
   * weight and the sum do.
   */
  lemma SumStep(low: Num, sum: nat, x: nat, k: nat)
    requires x < 256 && Has53Bits(sum) && (low.Finite? ==> low == Finite(sum) && !Overflows(sum))
    ensures x * Pow2(k) >= 0
    ensures var next, r := Plus(low, Scaled(x, PowerOfTwo(k))), Round(sum + x * Pow2(k));
            && (next.Finite? <==> low.Finite? && k < 1024 && !Overflows(r))
            && (next.Finite? ==> next == Finite(r))
            && (Overflows(sum) ==> Overflows(r)) && Has53Bits(r)
  {
    NotNegative(x, Pow2(k));
    EvenDoubles(x, k);
    assert Pow2(k) * x == x * Pow2(k);
    hide Has53Bits, Round, Limit, Pow2;
    var y := x * Pow2(k);
    RoundDoubles(y);
    RoundDoubles(sum);
    RoundMonotone(y, sum + y);
    RoundMonotone(sum, sum + y);
    RoundExactIff(sum + y);
  }

  /** The low digits of a double are a double: sums built from the low end never round on the way to one. */
  lemma {:induction false} LowDigitsDouble(x: nat, k: nat)
    requires Has53Bits(x)
    ensures Has53Bits(x % Pow2(k))
    decreases k
  {
    var y := x % Pow2(k);
    LowDigits(x, Pow2(k));
    if y >= EXACT {
      HalfOfLow(x, Pow2(k - 1));
      LowDigitsDouble(x / 2, k - 1);
    }
  }

  lemma LowDigits(x: nat, m: nat)
    requires m >= 1
    ensures x % m <= x && (m == 1 ==> x % m == 0)
  {
    assert x == x / m * m + x % m;
    NotNegative(x / m, m);
  }

  lemma NotNegative(a: nat, b: nat)
    ensures a * b >= 0
  {
  }

  /** Halving the low digits of an even number halves the number. */
  lemma HalfOfLow(x: nat, m: nat)
    requires m >= 1 && x % 2 == 0
    ensures (x % (2 * m)) % 2 == 0 && (x % (2 * m)) / 2 == (x / 2) % m
  {
    var q, r := (x / 2) / m, (x / 2) % m;
    assert x / 2 == q * m + r;
    Unique(x, 2 * m, q, 2 * r);
  }

  lemma Unique(x: nat, m: nat, q: nat, r: nat)
    requires m >= 1 && r < m && x == q * m + r
    ensures x / m == q && x % m == r
  {
    var a, b := x / m, x % m;
    assert x == a * m + b;
    MultipleApart(a - q, m, r - b);
    assert (a - q) * m == a * m - q * m;
  }

  /** A multiple of `m` smaller than `m` is zero. */
  lemma MultipleApart(k: int, m: nat, e: int)
    requires -(m as int) < e < m
    ensures k * m == e ==> k == 0
  {
    if k >= 1 {
      assert (k - 1) * m >= 0;
    } else if k <= -1 {
      assert (-k - 1) * m >= 0;
    }
  }
}
