/** The CRC16-XModem of src/soroban/strkey.ts `crc16XModem`, against polynomials over GF(2). */
module Crc16 {
  // A number is the polynomial its binary digits spell: addition is exclusive or, multiplying by x doubles.

  import opened Prelude
  import opened Bytes

  /** JavaScript's `^` on non-negative integers. */
  function Xor(a: nat, b: nat): nat
    decreases a + b
  {
    if a == 0 && b == 0 then 0 else (a % 2 + b % 2) % 2 + 2 * Xor(a / 2, b / 2)
  }

  lemma {:induction false} XorCommutes(a: nat, b: nat)
    ensures Xor(a, b) == Xor(b, a)
    decreases a + b
  {
    if a != 0 || b != 0 {
      XorCommutes(a / 2, b / 2);
    }
  }

  lemma {:induction false} XorZero(a: nat)
    ensures Xor(a, 0) == a && Xor(0, a) == a && Xor(a, a) == 0
    decreases a
  {
    if a != 0 {
      XorZero(a / 2);
    }
  }

  /** The binary digits of an exclusive or. */
  lemma XorDigits(a: nat, b: nat)
    ensures Xor(a, b) % 2 == (a % 2 + b % 2) % 2 && Xor(a, b) / 2 == Xor(a / 2, b / 2)
  {
  }

  lemma Parities(a: nat, b: nat, c: nat)
    requires a < 2 && b < 2 && c < 2
    ensures ((a + b) % 2 + c) % 2 == (a + (b + c) % 2) % 2
  {
  }

  lemma SameDigits(a: nat, b: nat)
    requires a % 2 == b % 2 && a / 2 == b / 2
    ensures a == b
  {
  }

  lemma XorAssociatesStep(a: nat, b: nat, c: nat)
    requires Xor(Xor(a / 2, b / 2), c / 2) == Xor(a / 2, Xor(b / 2, c / 2))
    ensures Xor(Xor(a, b), c) == Xor(a, Xor(b, c))
  {
    hide Xor;
    XorDigits(a, b);
    XorDigits(b, c);
    XorDigits(Xor(a, b), c);
    XorDigits(a, Xor(b, c));
    Parities(a % 2, b % 2, c % 2);
    SameDigits(Xor(Xor(a, b), c), Xor(a, Xor(b, c)));
  }

  lemma {:induction false} XorAssociates(a: nat, b: nat, c: nat)
    ensures Xor(Xor(a, b), c) == Xor(a, Xor(b, c))
    decreases a + b + c
  {
    hide Xor;
    if a + b + c == 0 {
      XorZero(0);
    } else {
      XorAssociates(a / 2, b / 2, c / 2);
      XorAssociatesStep(a, b, c);
    }
  }

  lemma XorDoubles(a: nat, b: nat)
    ensures Xor(2 * a, 2 * b) == 2 * Xor(a, b)
  {
    XorZero(0);
    XorDigits(2 * a, 2 * b);
  }

  lemma {:induction false} XorBelow(a: nat, b: nat, n: nat)
    requires a < Pow2(n) && b < Pow2(n)
    ensures Xor(a, b) < Pow2(n)
    decreases n
  {
    if n > 0 {
      XorDigits(a, b);
      XorBelow(a / 2, b / 2, n - 1);
    }
  }

  /** A digit above the others is carried through. */
  lemma {:induction false} XorTop(a: nat, b: nat, n: nat)
    requires a < Pow2(n) && b < Pow2(n)
    ensures Xor(a + Pow2(n), b) == Xor(a, b) + Pow2(n)
    ensures Xor(a + Pow2(n), b + Pow2(n)) == Xor(a, b)
    decreases n
  {
    if n == 0 {
      XorZero(0);
      XorZero(1);
    } else {
      XorTop(a / 2, b / 2, n - 1);
      XorTopStep(a, b, Pow2(n - 1));
    }
  }

  lemma XorTopStep(a: nat, b: nat, m: nat)
    requires Xor(a / 2 + m, b / 2) == Xor(a / 2, b / 2) + m
    requires Xor(a / 2 + m, b / 2 + m) == Xor(a / 2, b / 2)
    ensures Xor(a + 2 * m, b) == Xor(a, b) + 2 * m
    ensures Xor(a + 2 * m, b + 2 * m) == Xor(a, b)
  {
    hide Xor;
    HigherHalf(a, m);
    HigherHalf(b, m);
    XorDigits(a, b);
    XorDigits(a + 2 * m, b);
    XorDigits(a + 2 * m, b + 2 * m);
    HigherHalf(Xor(a, b), m);
    SameDigits(Xor(a + 2 * m, b), Xor(a, b) + 2 * m);
    SameDigits(Xor(a + 2 * m, b + 2 * m), Xor(a, b));
  }

  lemma HigherHalf(a: nat, m: nat)
    ensures (a + 2 * m) / 2 == a / 2 + m && (a + 2 * m) % 2 == a % 2
  {
  }

  // ----- Multiples of the generator -----

  /** x^16 + x^12 + x^5 + 1. */
  function Generator(): nat {
    0x11021
  }

  /** What a lowest digit contributes to a product with the generator. */
  function Pick(digit: nat, g: nat): nat {
    if digit == 1 then g else 0
  }

  /** The product of `q` and the generator. */
  function Times(q: nat): nat {
    if q == 0 then 0 else Xor(Pick(q % 2, Generator()), 2 * Times(q / 2))
  }

  lemma TimesDoubles(q: nat)
    ensures Times(2 * q) == 2 * Times(q)
  {
    hide Xor, Times, Generator;
    TimesUnfolds(2 * q);
    XorZero(2 * Times(q));
  }

  /** (a + b) + (c + d) == (a + c) + (b + d). */
  lemma XorSwaps(a: nat, b: nat, c: nat, d: nat)
    ensures Xor(Xor(a, b), Xor(c, d)) == Xor(Xor(a, c), Xor(b, d))
  {
    hide Xor;
    XorAssociates(a, b, Xor(c, d));
    XorAssociates(b, c, d);
    XorCommutes(b, c);
    XorAssociates(c, b, d);
    XorAssociates(a, c, Xor(b, d));
  }

  lemma TimesUnfoldsZero()
    ensures Times(0) == 0
  {
  }

  lemma TimesUnfolds(q: nat)
    ensures Times(q) == Xor(Pick(q % 2, Generator()), 2 * Times(q / 2))
  {
    XorZero(0);
  }

  /** Multiplication distributes over addition. */
  lemma {:induction false} TimesDistributes(p: nat, q: nat)
    ensures Times(Xor(p, q)) == Xor(Times(p), Times(q))
    decreases p + q
  {
    hide Xor, Times, Generator, Pick;
    if p == 0 && q == 0 {
      XorZero(0);
      TimesUnfoldsZero();
    } else {
      TimesDistributes(p / 2, q / 2);
      XorDigits(p, q);
      TimesUnfolds(p);
      TimesUnfolds(q);
      TimesUnfolds(Xor(p, q));
      var a, b := Pick(p % 2, Generator()), Pick(q % 2, Generator());
      XorSwaps(a, 2 * Times(p / 2), b, 2 * Times(q / 2));
      XorDoubles(Times(p / 2), Times(q / 2));
      PickAdds(p % 2, q % 2, Generator());
    }
  }

  lemma PickAdds(a: nat, b: nat, g: nat)
    requires a < 2 && b < 2
    ensures Pick((a + b) % 2, g) == Xor(Pick(a, g), Pick(b, g))
  {
    XorZero(g);
    XorZero(0);
  }

  lemma {:induction false} TimesGrows(q: nat, k: nat)
    requires Pow2(k) <= q < Pow2(k + 1)
    ensures Pow2(k + 16) <= Times(q) < Pow2(k + 17)
    decreases k
  {
    if k == 0 {
      assert q == 1;
      TimesOne();
      SixteenBits();
    } else {
      TimesGrows(q / 2, k - 1);
      GrowsStep(q, k);
    }
  }

  lemma TimesOne()
    ensures Times(1) == Generator()
  {
    TimesUnfolds(1);
    TimesUnfoldsZero();
    XorZero(Generator());
  }

  lemma GrowsStep(q: nat, k: nat)
    requires k >= 1 && Pow2(k + 15) <= Times(q / 2) < Pow2(k + 16)
    ensures Pow2(k + 16) <= Times(q) < Pow2(k + 17)
  {
    var top := Pow2(k + 16);
    assert top == 2 * Pow2(k + 15) && Pow2(k + 17) == 2 * top;
    PickSmall(q % 2, k);
    hide Xor, Times, Generator, Pick, Pow2;
    TimesUnfolds(q);
    var t, g := 2 * Times(q / 2), Pick(q % 2, Generator());
    XorTop(t - top, g, k + 16);
    XorBelow(t - top, g, k + 16);
    XorCommutes(t, g);
  }

  lemma PickSmall(q: nat, k: nat)
    requires k >= 1
    ensures Pick(q, Generator()) < Pow2(k + 16)
  {
    hide Pow2;
    Widens(k + 16);
  }

  lemma SixteenBits()
    ensures Pow2(15) == 0x8000 && Pow2(16) == 0x1_0000 && Pow2(17) == 0x2_0000
  {
    assert Pow2(8) == 0x100;
  }

  lemma {:induction false} Widens(n: nat)
    requires n >= 17
    ensures Pow2(n) >= 0x2_0000
    decreases n
  {
    SixteenBits();
    if n > 17 {
      Widens(n - 1);
    }
  }

  lemma {:induction false} TopDigit(q: nat) returns (k: nat)
    requires q > 0
    ensures Pow2(k) <= q < Pow2(k + 1)
    decreases q
  {
    if q == 1 {
      k := 0;
    } else {
      k := TopDigit(q / 2);
      k := k + 1;
    }
  }

  /** No multiple of the generator but zero has fewer than seventeen digits. */
  lemma SmallMultiple(q: nat)
    requires Times(q) < 0x1_0000
    ensures q == 0
  {
    if q > 0 {
      var k := TopDigit(q);
      TimesGrows(q, k);
      PowersGrow(k);
      assert false;
    }
  }

  lemma {:induction false} PowersGrow(k: nat)
    ensures Pow2(k + 16) >= 0x1_0000
    decreases k
  {
    SixteenBits();
    if k > 0 {
      PowersGrow(k - 1);
    }
  }

  // ----- Congruence modulo the generator -----

  ghost predicate Congruent(a: nat, b: nat) {
    exists q: nat :: Xor(a, b) == Times(q)
  }

  lemma CongruentSame(a: nat)
    ensures Congruent(a, a)
  {
    XorZero(a);
    assert Xor(a, a) == Times(0);
  }

  lemma CongruentDoubles(a: nat, b: nat)
    requires Congruent(a, b)
    ensures Congruent(2 * a, 2 * b)
  {
    var q: nat :| Xor(a, b) == Times(q);
    XorDoubles(a, b);
    TimesDoubles(q);
    assert Xor(2 * a, 2 * b) == Times(2 * q);
  }

  lemma CongruentAdds(a: nat, b: nat, c: nat)
    requires Congruent(a, b)
    ensures Congruent(Xor(a, c), Xor(b, c))
  {
    var q: nat :| Xor(a, b) == Times(q);
    XorSwaps(a, c, b, c);
    XorZero(c);
    XorZero(Xor(a, b));
    assert Xor(Xor(a, c), Xor(b, c)) == Times(q);
  }

  lemma CongruentFollows(a: nat, b: nat, c: nat)
    requires Congruent(a, b) && Congruent(b, c)
    ensures Congruent(a, c)
  {
    var p: nat :| Xor(a, b) == Times(p);
    var q: nat :| Xor(b, c) == Times(q);
    hide Xor, Times;
    TimesDistributes(p, q);
    XorAssociates(Xor(a, b), b, c);
    XorAssociates(a, b, b);
    XorZero(b);
    XorZero(a);
    assert Xor(a, c) == Times(Xor(p, q));
  }

  /** Remainders are unique. */
  lemma RemainderUnique(a: nat, r: nat, s: nat)
    requires Congruent(a, r) && Congruent(a, s) && r < 0x1_0000 && s < 0x1_0000
    ensures r == s
  {
    hide Xor, Times;
    CongruentSwaps(a, r);
    CongruentFollows(r, a, s);
    var q: nat :| Xor(r, s) == Times(q);
    SixteenBits();
    XorBelow(r, s, 16);
    SmallMultiple(q);
    TimesUnfoldsZero();
    XorAssociates(r, s, s);
    XorZero(s);
    XorZero(r);
  }

  lemma CongruentSwaps(a: nat, b: nat)
    requires Congruent(a, b)
    ensures Congruent(b, a)
  {
    XorCommutes(a, b);
  }

  // ----- The register -----

  /** One turn of the inner loop: shift left, and fold the digit that falls out back in. */
  function Shift(crc: nat): nat {
    if crc / 0x8000 % 2 == 1 then Xor(2 * crc, 0x1021) % 0x1_0000 else 2 * crc % 0x1_0000
  }

  function Shifts(crc: nat, n: nat): nat {
    if n == 0 then crc else Shift(Shifts(crc, n - 1))
  }

  /** The checksum register after the bytes. */
  function Crc(bytes: seq<byte>): nat {
    if bytes == [] then 0 else Shifts(Xor(Crc(bytes[..|bytes| - 1]), bytes[|bytes| - 1] as nat * 0x100), 8)
  }

  lemma FoldsBack(d: nat)
    requires d < 0x1_0000
    ensures Xor(d + 0x1_0000, 0x1021) == Xor(d, 0x1021) + 0x1_0000 && Xor(d, 0x1021) < 0x1_0000
    ensures Congruent(d + 0x1_0000, Xor(d, 0x1021))
  {
    SixteenBits();
    var low := 0x1021;
    hide Xor, Times, Pow2;
    XorTop(d, low, 16);
    XorBelow(d, low, 16);
    XorTop(d, Xor(d, low), 16);
    XorAssociates(d, d, low);
    XorZero(d);
    XorZero(low);
    TimesOne();
    assert Xor(d + 0x1_0000, Xor(d, low)) == Times(1);
  }

  /** A shift multiplies by x, modulo the generator. */
  lemma ShiftCongruent(crc: nat)
    requires crc < 0x1_0000
    ensures Shift(crc) < 0x1_0000 && Congruent(2 * crc, Shift(crc))
  {
    hide Xor, Congruent;
    if crc >= 0x8000 {
      FoldsBack(2 * crc - 0x1_0000);
    } else {
      CongruentSame(2 * crc);
    }
  }

  lemma {:induction false} ShiftsCongruent(a: nat, crc: nat, n: nat)
    requires crc < 0x1_0000 && Congruent(a, crc)
    ensures Shifts(crc, n) < 0x1_0000 && Congruent(Pow2(n) * a, Shifts(crc, n))
    decreases n
  {
    hide Congruent, Shift;
    if n > 0 {
      ShiftsCongruent(a, crc, n - 1);
      var b, c := Pow2(n - 1) * a, Shifts(crc, n - 1);
      CongruentDoubles(b, c);
      ShiftCongruent(c);
      CongruentFollows(2 * b, 2 * c, Shift(c));
      Doubled(Pow2(n - 1), a);
    }
  }

  lemma Doubled(p: nat, a: nat)
    ensures 2 * (p * a) == (2 * p) * a
  {
  }

  /** Digits that do not overlap add up. */
  lemma {:induction false} XorDisjoint(m: nat, b: nat, n: nat)
    requires b < Pow2(n)
    ensures Xor(Pow2(n) * m, b) == Pow2(n) * m + b
    decreases n
  {
    hide Xor;
    if n == 0 {
      XorZero(m);
    } else {
      XorDisjoint(m, b / 2, n - 1);
      Doubled(Pow2(n - 1), m);
      XorLastDigit(Pow2(n - 1) * m, b);
    }
  }

  lemma XorLastDigit(x: nat, b: nat)
    requires Xor(x, b / 2) == x + b / 2
    ensures Xor(2 * x, b) == 2 * x + b
  {
    hide Xor;
    XorDigits(2 * x, b);
  }

  lemma XorScales(a: nat, b: nat, n: nat)
    ensures Xor(Pow2(n) * a, Pow2(n) * b) == Pow2(n) * Xor(a, b)
    decreases n
  {
    hide Xor;
    if n > 0 {
      XorScales(a, b, n - 1);
      XorDoubles(Pow2(n - 1) * a, Pow2(n - 1) * b);
      Doubled(Pow2(n - 1), a);
      Doubled(Pow2(n - 1), b);
      Doubled(Pow2(n - 1), Xor(a, b));
    }
  }

  /** The message with one more byte, sixteen zero digits after it. */
  lemma NextByte(m: nat, b: nat)
    requires b < 0x100
    ensures Pow2(8) * Xor(m * 0x1_0000, b * 0x100) == (256 * m + b) * 0x1_0000
  {
    assert Pow2(8) == 0x100;
    hide Xor, Pow2;
    XorScales(m * 0x100, b, 8);
    XorDisjoint(m, b, 8);
  }

  /** The checksum is the message, times x^16, reduced modulo the generator. */
  lemma {:induction false} CrcCongruent(bytes: seq<byte>)
    ensures Crc(bytes) < 0x1_0000 && Congruent(BigEndian(bytes) * 0x1_0000, Crc(bytes))
    decreases |bytes|
  {
    hide Congruent, Xor, Shifts;
    if bytes == [] {
      CongruentSame(0);
    } else {
      var front, b := bytes[..|bytes| - 1], bytes[|bytes| - 1] as nat;
      CrcCongruent(front);
      var m, c := BigEndian(front), Crc(front);
      CongruentAdds(m * 0x1_0000, c, b * 0x100);
      SixteenBits();
      XorBelow(c, b * 0x100, 16);
      ShiftsCongruent(Xor(m * 0x1_0000, b * 0x100), Xor(c, b * 0x100), 8);
      NextByte(m, b);
    }
  }

  /** And it is the only such remainder: the register computes polynomial division. */
  lemma CrcIsRemainder(bytes: seq<byte>, r: nat)
    ensures r == Crc(bytes) <==> r < 0x1_0000 && Congruent(BigEndian(bytes) * 0x1_0000, r)
  {
    hide Congruent, Crc;
    CrcCongruent(bytes);
    if r < 0x1_0000 && Congruent(BigEndian(bytes) * 0x1_0000, r) {
      RemainderUnique(BigEndian(bytes) * 0x1_0000, r, Crc(bytes));
    }
  }

  /** The method `crc16XModem`. */
  method Crc16XModem(bytes: seq<byte>) returns (crc: nat)
    ensures crc == Crc(bytes)
  {
    hide Xor;
    crc := 0;
    for i := 0 to |bytes|
      invariant crc == Crc(bytes[..i])
    {
      assert bytes[..i + 1][..i] == bytes[..i];
      crc := Xor(crc, bytes[i] as nat * 0x100);
      ghost var start := crc;
      for bit := 0 to 8
        invariant crc == Shifts(start, bit)
      {
        crc := if crc / 0x8000 % 2 == 1 then Xor(2 * crc, 0x1021) % 0x1_0000 else 2 * crc % 0x1_0000;
      }
    }
    assert bytes[..|bytes|] == bytes;
    CrcCongruent(bytes);
    crc := crc % 0x1_0000;
  }
}
