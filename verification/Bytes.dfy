/**
 * Byte-level reads (src/dwarf/cursor.ts): what each read of a `Cursor` means at a position of the
 * buffer, the encodings it inverts, and the cursor object itself.
 */
module Bytes {
  import opened Prelude
  import opened Doubles

  type byte = b: int | 0 <= b < 256

  /** A read at a position: the value and the position after it, or the thrown DwarfParseError. */
  datatype Read<+T> = Malformed | Read(value: T, next: nat) {
    predicate IsFailure() { Malformed? }

    function PropagateFailure<U>(): Read<U>
      requires Malformed?
    {
      Malformed
    }

    function Extract(): (T, nat)
      requires Read?
    {
      (value, next)
    }
  }

  function Take(s: seq<byte>, p: nat, n: nat): Read<seq<byte>> {
    if p + n <= |s| then Read(s[p..p + n], p + n) else Malformed
  }

  function Skip(s: seq<byte>, p: nat, n: nat): Read<()> {
    if p + n <= |s| then Read((), p + n) else Malformed
  }

  /** The little-endian value of a byte string. */
  function LittleEndian(b: seq<byte>): nat {
    if b == [] then 0 else b[0] + 256 * LittleEndian(b[1..])
  }

  /** The big-endian value of a byte string. */
  function BigEndian(b: seq<byte>): nat {
    if b == [] then 0 else 256 * BigEndian(b[..|b| - 1]) + b[|b| - 1]
  }

  lemma LittleEndianOf(b: seq<byte>)
    ensures |b| == 1 ==> LittleEndian(b) == b[0]
    ensures |b| == 2 ==> LittleEndian(b) == b[0] as int + b[1] as int * 0x100
    ensures |b| == 4 ==>
              LittleEndian(b) == b[0] as int + b[1] as int * 0x100 + b[2] as int * 0x10000 + b[3] as int * 0x1000000
  {
    if |b| == 1 {
      assert b[1..] == [];
    } else if |b| == 2 {
      LittleEndianOf(b[1..]);
    } else if |b| == 4 {
      var c := b[1..];
      LittleEndianOf(c[1..]);
      assert c[1..][0] == b[2] && c[1..][1] == b[3];
    }
  }

  /** A little-endian unsigned integer of `n` bytes. */
  function Fixed(s: seq<byte>, p: nat, n: nat): Read<nat> {
    if p + n <= |s| then Read(LittleEndian(s[p..p + n]), p + n) else Malformed
  }

  /** How many groups a LEB128 has: up to and including the first byte below 128. */
  function LebCount(s: seq<byte>, p: nat): (r: Read<nat>)
    ensures r.Read? ==> p < r.next <= |s| && r.next == p + r.value
    decreases |s| - p
  {
    if p >= |s| then Malformed
    else if s[p] < 128 then Read(1, p + 1)
    else More(1, LebCount(s, p + 1))
  }

  /** `n` more groups before those counted. */
  function More(n: nat, r: Read<nat>): Read<nat> {
    match r
    case Malformed => Malformed
    case Read(k, next) => Read(n + k, next)
  }

  function Pow128(k: nat): (r: nat)
    ensures r >= 1
  {
    if k == 0 then 1 else 128 * Pow128(k - 1)
  }

  /** The unsigned value of the first `n` groups. */
  function LebSum(s: seq<byte>, p: nat, n: nat): nat
    requires p + n <= |s|
  {
    if n == 0 then 0 else LebSum(s, p, n - 1) + (s[p + n - 1] as int % 128) * Pow128(n - 1)
  }

  /** The same, each addition rounded to 53 bits. */
  function LebRounded(s: seq<byte>, p: nat, n: nat): nat
    requires p + n <= |s|
  {
    if n == 0 then 0 else Round(LebRounded(s, p, n - 1) + (s[p + n - 1] as int % 128) * Pow128(n - 1))
  }

  /** The same as the code computes it: a number, infinite or worse once a weight or the sum is. */
  function LebNumber(s: seq<byte>, p: nat, n: nat): Num
    requires p + n <= |s|
  {
    if n == 0 then Finite(0)
    else Plus(LebNumber(s, p, n - 1), Scaled(s[p + n - 1] as int % 128, PowerOfTwo(7 * (n - 1))))
  }

  /** The unsigned LEB128 at `p`, as the number the code returns. */
  function ULebNumber(s: seq<byte>, p: nat): Num
    requires LebCount(s, p).Read?
  {
    LebNumber(s, p, LebCount(s, p).value)
  }

  function SLebNumber(s: seq<byte>, p: nat): Num
    requires LebCount(s, p).Read?
  {
    var n, sum := LebCount(s, p), ULebNumber(s, p);
    if sum.Finite? then Finite(Signed(sum.value, n.value, s[n.next - 1])) else NotFinite
  }

  /** The value the parsers go on with; `ULebIsNumber` says when it is the code's number. */
  function ULeb(s: seq<byte>, p: nat): (r: Read<nat>)
    ensures r.Read? ==> p < r.next <= |s|
  {
    var n := LebCount(s, p);
    if n.Malformed? then Malformed else Read(LebRounded(s, p, n.value), n.next)
  }

  /** Sign extension, which the code applies only while the shift stays below 53. */
  function Signed(sum: int, n: nat, last: byte): int {
    if 7 * n < 53 && last >= 64 then sum - Pow128(n) else sum
  }

  function SLeb(s: seq<byte>, p: nat): (r: Read<int>)
    ensures r.Read? ==> p < r.next <= |s|
  {
    var n := LebCount(s, p);
    if n.Malformed? then Malformed
    else Read(Signed(LebRounded(s, p, n.value), n.value, s[n.next - 1]), n.next)
  }

  /** `initialLength`: 64-bit DWARF's escape values are refused. */
  function InitialLength(s: seq<byte>, p: nat): Read<nat> {
    var r := Fixed(s, p, 4);
    if r.Malformed? || r.value >= 0xffff_fff0 then Malformed else r
  }

  /** A length is refused exactly when it is cut short, or its value is one that 64-bit DWARF reserves. */
  lemma LengthRefused(s: seq<byte>, p: nat)
    ensures InitialLength(s, p).Malformed? <==>
            p + 4 > |s| || LittleEndian(s[p..p + 4]) >= 0xffff_fff0
    ensures InitialLength(s, p).Read? ==> InitialLength(s, p) == Read(LittleEndian(s[p..p + 4]), p + 4)
  {
  }

  /** Position of the first zero byte at or after `p`. */
  function Terminator(s: seq<byte>, p: nat): (r: Option<nat>)
    ensures r.Some? ==> p <= r.value < |s| && s[r.value] == 0 && forall k :: p <= k < r.value ==> s[k] != 0
    ensures r.None? ==> forall k :: p <= k < |s| ==> s[k] != 0
    decreases |s| - p
  {
    if p >= |s| then None else if s[p] == 0 then Some(p) else Terminator(s, p + 1)
  }

  /** A NUL-terminated string, as its bytes. */
  function CString(s: seq<byte>, p: nat): (r: Read<seq<byte>>)
    ensures r.Read? ==> p < r.next <= |s|
  {
    var end := Terminator(s, p);
    if end.None? then Malformed else Read(s[p..end.value], end.value + 1)
  }

  // ----- The encodings the reads invert -----

  /** `e` lies in `s` at position `p`. */
  ghost predicate At(s: seq<byte>, p: nat, e: seq<byte>) {
    p + |e| <= |s| && s[p..p + |e|] == e
  }

  lemma AtSplit(s: seq<byte>, p: nat, a: seq<byte>, b: seq<byte>)
    ensures At(s, p, a + b) <==> At(s, p, a) && At(s, p + |a|, b)
  {
    if At(s, p, a + b) {
      var e := s[p..p + |a + b|];
      assert s[p..p + |a|] == e[..|a|] && s[p + |a|..p + |a| + |b|] == e[|a|..];
    }
    if At(s, p, a) && At(s, p + |a|, b) {
      assert s[p..p + |a + b|] == s[p..p + |a|] + s[p + |a|..p + |a| + |b|];
    }
  }

  function Power256(n: nat): (r: nat)
    ensures r >= 1
  {
    if n == 0 then 1 else 256 * Power256(n - 1)
  }

  function EncodeFixed(v: nat, n: nat): (e: seq<byte>)
    ensures |e| == n
  {
    if n == 0 then [] else [v % 256] + EncodeFixed(v / 256, n - 1)
  }

  lemma {:induction false} FixedInverts(v: nat, n: nat)
    requires v < Power256(n)
    ensures LittleEndian(EncodeFixed(v, n)) == v
  {
    if n > 0 {
      FixedInverts(v / 256, n - 1);
      assert EncodeFixed(v, n)[1..] == EncodeFixed(v / 256, n - 1);
    }
  }

  lemma FixedReads(s: seq<byte>, p: nat, v: nat, n: nat)
    requires v < Power256(n) && At(s, p, EncodeFixed(v, n))
    ensures Fixed(s, p, n) == Read(v, p + n)
  {
    FixedInverts(v, n);
  }

  // ----- LEB128 -----

  lemma {:induction false} LebSumLow(s: seq<byte>, p: nat, n: nat)
    requires n >= 1 && p + n <= |s|
    ensures LebSum(s, p, n) == s[p] as int % 128 + 128 * LebSum(s, p + 1, n - 1)
    decreases n
  {
    if n > 1 {
      LebSumLow(s, p, n - 1);
      Scale128(s[p + n - 1] as int % 128, Pow128(n - 2));
    }
  }

  lemma Scale128(x: int, w: int)
    ensures 128 * (x * w) == x * (128 * w)
  {
  }

  lemma {:induction false} Pow128Is(k: nat)
    ensures Pow128(k) == Pow2(7 * k)
    decreases k
  {
    if k > 0 {
      Pow128Is(k - 1);
      var e := 7 * (k - 1);
      assert Pow2(e + 1) == 2 * Pow2(e) && Pow2(e + 2) == 2 * Pow2(e + 1) && Pow2(e + 3) == 2 * Pow2(e + 2);
      assert Pow2(e + 4) == 2 * Pow2(e + 3) && Pow2(e + 5) == 2 * Pow2(e + 4) && Pow2(e + 6) == 2 * Pow2(e + 5);
    }
  }

  lemma {:induction false} LebSumBelow(s: seq<byte>, p: nat, n: nat)
    requires p + n <= |s|
    ensures LebSum(s, p, n) < Pow128(n)
    decreases n
  {
    if n > 0 {
      LebSumBelow(s, p, n - 1);
      AtMost(s[p + n - 1] as int % 128, Pow128(n - 1));
    }
  }

  lemma AtMost(x: nat, w: nat)
    requires x < 128
    ensures x * w <= 127 * w
  {
    NotNegative(127 - x, w);
    assert (127 - x) * w == 127 * w - x * w;
  }

  /** A sum of groups that fits 53 bits is reached through sums that do: it is added up exactly. */
  lemma {:induction false} LebExact(s: seq<byte>, p: nat, n: nat)
    requires p + n <= |s| && Has53Bits(LebSum(s, p, n))
    ensures LebRounded(s, p, n) == LebSum(s, p, n)
    decreases n
  {
    if n > 0 {
      LebSumBelow(s, p, n - 1);
      var low, w, x := LebSum(s, p, n - 1), Pow128(n - 1), s[p + n - 1] as nat % 128;
      Unique(LebSum(s, p, n), w, x, low);
      Pow128Is(n - 1);
      LowDigitsDouble(LebSum(s, p, n), 7 * (n - 1));
      LebExact(s, p, n - 1);
      RoundExactIff(LebSum(s, p, n));
    }
  }

  lemma LebRoundedHas53Bits(s: seq<byte>, p: nat, n: nat)
    requires p + n <= |s|
    ensures Has53Bits(LebRounded(s, p, n))
  {
    if n > 0 {
      RoundExactIff(LebRounded(s, p, n - 1) + (s[p + n - 1] as int % 128) * Pow128(n - 1));
    }
  }

  /** The code's sum is the sum of 53-bit numbers exactly for 147 groups at most that sum up below 2^1024. */
  lemma {:induction false} LebIsNumber(s: seq<byte>, p: nat, n: nat)
    requires p + n <= |s|
    ensures LebNumber(s, p, n).Finite? <==> n <= 147 && !Overflows(LebRounded(s, p, n))
    ensures LebNumber(s, p, n).Finite? ==> LebNumber(s, p, n) == Finite(LebRounded(s, p, n))
    decreases n
  {
    hide Has53Bits, Round, Overflows, Plus, Scaled, PowerOfTwo, Pow128, Pow2;
    if n > 0 {
      LebIsNumber(s, p, n - 1);
      LebRoundedHas53Bits(s, p, n - 1);
      Pow128Is(n - 1);
      SumStep(LebNumber(s, p, n - 1), LebRounded(s, p, n - 1), s[p + n - 1] as int % 128, 7 * (n - 1));
    } else {
      ZeroIsDouble();
    }
  }

  lemma ZeroIsDouble()
    ensures IsDouble(0)
  {
  }

  /** The reads below are the code's exactly for encodings whose sum stays finite. */
  lemma ULebIsNumber(s: seq<byte>, p: nat)
    requires LebCount(s, p).Read?
    ensures ULebNumber(s, p).Finite? <==> LebCount(s, p).value <= 147 && !Overflows(ULeb(s, p).value)
    ensures ULebNumber(s, p).Finite? ==> ULebNumber(s, p) == Finite(ULeb(s, p).value)
  {
    hide Overflows, LebRounded, LebNumber;
    LebIsNumber(s, p, LebCount(s, p).value);
  }

  lemma SLebIsNumber(s: seq<byte>, p: nat)
    requires LebCount(s, p).Read?
    ensures SLebNumber(s, p) == Finite(SLeb(s, p).value) <==>
            LebCount(s, p).value <= 147 && (SLeb(s, p).value >= 0 ==> !Overflows(SLeb(s, p).value))
    ensures SLebNumber(s, p).Finite? ==> SLebNumber(s, p) == Finite(SLeb(s, p).value)
  {
    hide LebRounded, LebNumber, LebCount, Pow128, Limit;
    var n := LebCount(s, p).value;
    LebIsNumber(s, p, n);
    if n <= 7 {
      SevenGroupsExact(s, p, n);
    }
  }

  function EncodeULeb(v: nat): (e: seq<byte>)
    ensures e != []
  {
    if v < 128 then [v] else [128 + v % 128] + EncodeULeb(v / 128)
  }

  lemma {:induction false} ULebSums(s: seq<byte>, p: nat, v: nat)
    requires At(s, p, EncodeULeb(v))
    ensures var k := |EncodeULeb(v)|;
            p + k <= |s| && LebCount(s, p) == Read(k, p + k) && LebSum(s, p, k) == v
    decreases v
  {
    assert s[p] == EncodeULeb(v)[0];
    LebSumLow(s, p, |EncodeULeb(v)|);
    if v >= 128 {
      AtSplit(s, p, [128 + v % 128], EncodeULeb(v / 128));
      ULebSums(s, p + 1, v / 128);
    }
  }

  /** An encoding of `k` groups holds exactly the values of `7k` bits. */
  lemma {:induction false} ULebWidth(v: nat, k: nat)
    requires k >= 1
    ensures |EncodeULeb(v)| <= k <==> v < Pow128(k)
    decreases k
  {
    assert Pow128(k) == 128 * Pow128(k - 1);
    if v >= 128 && k > 1 {
      ULebWidth(v / 128, k - 1);
    }
  }

  /** 146 groups hold every integer below 2^1022. */
  lemma ManyGroups()
    ensures 4 * Pow128(146) == Limit()
  {
    Pow128Is(146);
    assert Pow2(1023) == 2 * Pow2(1022) && Pow2(1024) == 2 * Pow2(1023);
  }

  /** Unsigned LEB128 is consumed whole, and the code returns the value exactly when that is a double. */
  lemma ULebReads(s: seq<byte>, p: nat, v: nat)
    requires At(s, p, EncodeULeb(v))
    ensures ULeb(s, p).Read? && ULeb(s, p).next == p + |EncodeULeb(v)|
    ensures ULebNumber(s, p) == Finite(v) <==> IsDouble(v)
    ensures IsDouble(v) ==> ULeb(s, p).value == v
  {
    ULebSums(s, p, v);
    ManyGroups();
    ULebWidth(v, 147);
    assert Pow128(147) == 128 * Pow128(146);
    hide At, EncodeULeb, LebCount, LebSum, LebRounded, LebNumber, Has53Bits, Limit, Pow128;
    var k := |EncodeULeb(v)|;
    LebRoundedHas53Bits(s, p, k);
    LebIsNumber(s, p, k);
    if IsDouble(v) {
      LebExact(s, p, k);
    }
  }

  lemma ULebInverts(s: seq<byte>, p: nat, v: nat)
    requires IsDouble(v) && At(s, p, EncodeULeb(v))
    ensures ULeb(s, p) == Read(v, p + |EncodeULeb(v)|)
  {
    ULebReads(s, p, v);
  }

  function EncodeSLeb(v: int): (e: seq<byte>)
    ensures e != []
    decreases if v < 0 then -v else v
  {
    if -64 <= v < 64 then [v % 128] else [128 + v % 128] + EncodeSLeb(v / 128)
  }

  /** The groups of an encoding are `v` in two's complement of their own width. */
  lemma {:induction false} SLebSums(s: seq<byte>, p: nat, v: int)
    requires At(s, p, EncodeSLeb(v))
    ensures var k := |EncodeSLeb(v)|;
            && p + k <= |s| && LebCount(s, p) == Read(k, p + k)
            && (s[p + k - 1] >= 64 <==> v < 0)
            && v == LebSum(s, p, k) - (if v < 0 then Pow128(k) else 0)
    decreases if v < 0 then -v else v
  {
    var k := |EncodeSLeb(v)|;
    assert s[p] == EncodeSLeb(v)[0];
    if -64 <= v < 64 {
      LebSumLow(s, p, 1);
    } else {
      assert k == 1 + |EncodeSLeb(v / 128)|;
      AtSplit(s, p, [128 + v % 128], EncodeSLeb(v / 128));
      SLebSums(s, p + 1, v / 128);
      hide At, EncodeSLeb, LebSum;
      LebSumLow(s, p, k);
      assert LebCount(s, p) == More(1, LebCount(s, p + 1));
      assert Pow128(k) == 128 * Pow128(k - 1);
    }
  }

  /** An encoding of `k` groups holds exactly the values of `7k` bits in two's complement. */
  lemma {:induction false} SLebWidth(v: int, k: nat)
    requires k >= 1
    ensures |EncodeSLeb(v)| <= k <==> -64 * Pow128(k - 1) <= v < 64 * Pow128(k - 1)
    decreases k
  {
    if !(-64 <= v < 64) && k > 1 {
      SLebWidth(v / 128, k - 1);
    } else if -64 <= v < 64 {
      assert Pow128(k - 1) >= 1;
    }
  }

  lemma {:induction false} Pow128Grows(j: nat, k: nat)
    requires j <= k
    ensures Pow128(j) <= Pow128(k)
    decreases k
  {
    if j < k {
      Pow128Grows(j, k - 1);
    }
  }

  /** The values signed LEB128 carries exactly. */
  predicate SignedExact(v: int) {
    v >= -0x1_0000_0000_0000 && (v >= 0 ==> IsDouble(v))
  }

  /**
   * Signed LEB128 is consumed whole, and the code returns the value exactly when that is a double not below
   * -2^48: longer negative encodings reach the shift limit and come back unsigned.
   */
  lemma SLebReads(s: seq<byte>, p: nat, v: int)
    requires At(s, p, EncodeSLeb(v))
    ensures SLeb(s, p).Read? && SLeb(s, p).next == p + |EncodeSLeb(v)|
    ensures SLebNumber(s, p) == Finite(v) <==> SignedExact(v)
    ensures SignedExact(v) ==> SLeb(s, p).value == v
  {
    SLebSums(s, p, v);
    hide At, EncodeSLeb, LebCount, SLebNumber, Signed, SignedExact, LebRounded;
    if |EncodeSLeb(v)| <= 7 {
      ShortSLebReads(s, p, v);
    } else {
      LongSLebReads(s, p, v);
    }
  }

  /** Up to seven groups are summed exactly, and sign-extended. */
  lemma SevenGroupsExact(s: seq<byte>, p: nat, k: nat)
    requires k <= 7 && p + k <= |s|
    ensures LebRounded(s, p, k) == LebSum(s, p, k) < 0x2_0000_0000_0000
    ensures LebNumber(s, p, k) == Finite(LebSum(s, p, k))
  {
    assert Pow128(7) == 0x2_0000_0000_0000;
    hide LebSum, LebRounded, LebNumber, Pow128, Has53Bits, Limit;
    LebSumBelow(s, p, k);
    Pow128Grows(k, 7);
    SevenGroups(LebSum(s, p, k));
    LebExact(s, p, k);
    LebIsNumber(s, p, k);
  }

  lemma ShortSLebReads(s: seq<byte>, p: nat, v: int)
    requires At(s, p, EncodeSLeb(v)) && |EncodeSLeb(v)| <= 7
    ensures LebCount(s, p).Read? && SLebNumber(s, p) == Finite(v) && SLeb(s, p).value == v && SignedExact(v)
  {
    hide At, EncodeSLeb, LebSum, LebRounded, LebNumber, Pow128, SignedExact;
    SLebSums(s, p, v);
    SevenGroupsExact(s, p, |EncodeSLeb(v)|);
    ShortIsExact(v);
  }

  lemma ShortIsExact(v: int)
    requires |EncodeSLeb(v)| <= 7
    ensures SignedExact(v)
  {
    SLebWidth(v, 7);
    assert Pow128(6) == 0x400_0000_0000;
    if v >= 0 {
      SevenGroups(v);
    }
  }

  lemma LongSLebReads(s: seq<byte>, p: nat, v: int)
    requires At(s, p, EncodeSLeb(v)) && |EncodeSLeb(v)| > 7
    ensures LebCount(s, p).Read?
    ensures SLebNumber(s, p) == Finite(v) <==> SignedExact(v)
    ensures SignedExact(v) ==> SLeb(s, p).value == v
  {
    hide At, EncodeSLeb, LebSum, LebRounded, LebNumber, Pow128, Has53Bits, Limit;
    SLebSums(s, p, v);
    var k := |EncodeSLeb(v)|;
    LebRoundedHas53Bits(s, p, k);
    LebIsNumber(s, p, k);
    if v < 0 {
      LongNegative(v);
    } else if IsDouble(v) {
      FiniteGroups(v);
      LebExact(s, p, k);
    }
  }

  lemma LongNegative(v: int)
    requires v < 0 && |EncodeSLeb(v)| > 7
    ensures v < -0x1_0000_0000_0000
  {
    SLebWidth(v, 7);
    assert Pow128(6) == 0x400_0000_0000;
  }

  lemma FiniteGroups(v: nat)
    requires v < Limit()
    ensures |EncodeSLeb(v)| <= 147
  {
    SLebWidth(v, 147);
    ManyGroups();
  }

  lemma SLebInverts(s: seq<byte>, p: nat, v: int)
    requires SignedExact(v) && At(s, p, EncodeSLeb(v))
    ensures SLeb(s, p) == Read(v, p + |EncodeSLeb(v)|)
  {
    SLebReads(s, p, v);
  }

  lemma SevenGroups(x: nat)
    requires x < 0x2_0000_0000_0000
    ensures IsDouble(x)
  {
  }

  lemma CStringReads(s: seq<byte>, p: nat, text: seq<byte>)
    requires 0 !in text && At(s, p, text + [0])
    ensures CString(s, p) == Read(text, p + |text| + 1)
  {
    AtSplit(s, p, text, [0]);
    assert s[p + |text|] == 0;
    assert forall k :: p <= k < p + |text| ==> s[k] == text[k - p];
    var end := Terminator(s, p);
    assert end.value == p + |text|;
  }

  // ----- The cursor -----

  /** What a method's outcome and the cursor's new offset say, as a read. */
  function Outcome<T>(r: Result<T>, offset: nat): Read<T> {
    match r
    case Ok(v) => Read(v, offset)
    case Thrown => Malformed
  }

  class ByteCursor {
    const data: seq<byte>
    var offset: nat

    constructor (data: seq<byte>)
      ensures this.data == data && offset == 0
    {
      this.data := data;
      offset := 0;
    }

    method U8() returns (r: Result<nat>)
      modifies this
      ensures Outcome(r, offset) == Fixed(data, old(offset), 1)
    {
      if offset + 1 > |data| {
        return Thrown;
      }
      LittleEndianOf(data[offset..offset + 1]);
      r := Ok(data[offset] as int);
      offset := offset + 1;
    }

    method U16() returns (r: Result<nat>)
      modifies this
      ensures Outcome(r, offset) == Fixed(data, old(offset), 2)
    {
      if offset + 2 > |data| {
        return Thrown;
      }
      LittleEndianOf(data[offset..offset + 2]);
      r := Ok(data[offset] as int + data[offset + 1] as int * 0x100);
      offset := offset + 2;
    }

    method U32() returns (r: Result<nat>)
      modifies this
      ensures Outcome(r, offset) == Fixed(data, old(offset), 4)
    {
      if offset + 4 > |data| {
        return Thrown;
      }
      LittleEndianOf(data[offset..offset + 4]);
      r := Ok(data[offset] as int + data[offset + 1] as int * 0x100 + data[offset + 2] as int * 0x10000
              + data[offset + 3] as int * 0x1000000);
      offset := offset + 4;
    }

    /** Unsigned LEB128, group by group. */
    method ReadULeb() returns (r: Result<nat>)
      modifies this
      ensures Outcome(r, offset) == ULeb(data, old(offset))
      ensures r.Ok? ==>
                (ULebNumber(data, old(offset)) == Finite(r.value) <==>
                 offset - old(offset) <= 147 && !Overflows(r.value))
    {
      hide LebRounded, Round, LebCount, More, Pow128, ULebNumber, SLebNumber, Overflows;
      ghost var start := offset;
      var value: nat, scale: nat := 0, 1;
      ghost var n: nat := 0;
      NoneYet(data, offset);
      while true
        invariant start + n == offset && (n > 0 ==> offset <= |data|)
        invariant scale == Pow128(n) && (offset <= |data| ==> value == LebRounded(data, start, n))
        invariant LebCount(data, start) == More(n, LebCount(data, offset))
        decreases |data| - offset
      {
        CountStep(data, offset, offset - start);
        if offset + 1 > |data| {
          return Thrown;
        }
        LebRoundedStep(data, start, n);
        var byte := data[offset];
        offset := offset + 1;
        value := Round(value + (byte as int % 128) * scale);
        n := n + 1;
        if byte < 128 {
          ULebIsNumber(data, start);
          return Ok(value);
        }
        scale := scale * 128;
      }
    }

    method ReadSLeb() returns (r: Result<int>)
      modifies this
      ensures Outcome(r, offset) == SLeb(data, old(offset))
      ensures r.Ok? ==>
                (SLebNumber(data, old(offset)) == Finite(r.value) <==>
                 offset - old(offset) <= 147 && (r.value >= 0 ==> !Overflows(r.value)))
    {
      hide LebRounded, Round, LebCount, More, Pow128, ULebNumber, SLebNumber, Overflows;
      ghost var start := offset;
      var value: nat, count: nat, scale: nat, byte: byte := 0, 0, 1, 128;
      NoneYet(data, offset);
      while byte >= 128
        invariant start + count == offset && (count > 0 ==> offset <= |data| && byte == data[offset - 1])
        invariant scale == Pow128(count) && (offset <= |data| ==> value == LebRounded(data, start, count))
        invariant byte >= 128 ==> LebCount(data, start) == More(count, LebCount(data, offset))
        invariant byte < 128 ==> count > 0 && LebCount(data, start) == Read(count, offset)
        decreases byte >= 128, |data| - offset
      {
        CountStep(data, offset, offset - start);
        if offset + 1 > |data| {
          return Thrown;
        }
        LebRoundedStep(data, start, count);
        byte := data[offset];
        offset := offset + 1;
        value := Round(value + (byte as int % 128) * scale);
        scale := scale * 128;
        count := count + 1;
      }
      SLebIsNumber(data, start);
      r := Ok(if 7 * count < 53 && byte >= 64 then value - scale else value);
    }

    method ReadInitialLength() returns (r: Result<nat>)
      modifies this
      ensures Outcome(r, offset) == InitialLength(data, old(offset))
    {
      var length :- U32();
      if length >= 0xffff_fff0 {
        return Thrown;
      }
      r := Ok(length);
    }

    method ReadCString() returns (r: Result<seq<byte>>)
      modifies this
      ensures Outcome(r, offset) == CString(data, old(offset))
    {
      var end := offset;
      while end < |data| && data[end] != 0
        invariant offset == old(offset) <= end
        invariant Terminator(data, offset) == Terminator(data, end)
        invariant end <= |data| || end == offset
      {
        end := end + 1;
      }
      if end >= |data| {
        return Thrown;
      }
      r := Ok(data[offset..end]);
      offset := end + 1;
    }

    method ReadBytes(n: nat) returns (r: Result<seq<byte>>)
      modifies this
      ensures Outcome(r, offset) == Take(data, old(offset), n)
    {
      if offset + n > |data| {
        return Thrown;
      }
      r := Ok(data[offset..offset + n]);
      offset := offset + n;
    }

    method SkipBytes(n: nat) returns (r: Result<()>)
      modifies this
      ensures Outcome(r, offset) == Skip(data, old(offset), n)
    {
      if offset + n > |data| {
        return Thrown;
      }
      offset := offset + n;
      r := Ok(());
    }

    /** A new cursor over the next `n` bytes; this one moves past them. */
    method Sub(n: nat) returns (r: Result<ByteCursor>)
      modifies this
      ensures match r
              case Ok(c) => fresh(c) && c.offset == 0 && Take(data, old(offset), n) == Read(c.data, offset)
              case Thrown => Take(data, old(offset), n) == Malformed
    {
      var body :- ReadBytes(n);
      var c := new ByteCursor(body);
      r := Ok(c);
    }
  }

  lemma CountStep(s: seq<byte>, p: nat, n: nat)
    ensures More(n, LebCount(s, p)) ==
            if p >= |s| then Malformed
            else if s[p] < 128 then Read(n + 1, p + 1)
            else More(n + 1, LebCount(s, p + 1))
  {
  }

  lemma NoneYet(s: seq<byte>, p: nat)
    ensures p <= |s| ==> LebRounded(s, p, 0) == 0
    ensures LebCount(s, p) == More(0, LebCount(s, p))
    ensures Pow128(0) == 1
  {
  }

  lemma LebRoundedStep(s: seq<byte>, p: nat, n: nat)
    requires p + n < |s|
    ensures LebRounded(s, p, n + 1) == Round(LebRounded(s, p, n) + (s[p + n] as int % 128) * Pow128(n))
    ensures Pow128(n + 1) == Pow128(n) * 128
  {
  }
}
