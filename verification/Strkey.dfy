/**
 * Strkey encoding (src/soroban/strkey.ts; SEP-0023 and section 6 of RFC 4648): a version byte, 32 bytes
 * of payload and a checksum, in base32.
 */
module Strkey {
  import opened Prelude
  import opened Bytes
  import opened Crc16

  const ALPHABET: string := "ABCDEFGHIJKLMNOPQRSTUVWXYZ234567"

  // ----- Base 32 as numbers -----

  /** The `k` lowest base-32 digits of `v`, most significant first. */
  function Digits(v: nat, k: nat): (r: seq<nat>)
    ensures |r| == k && forall i :: 0 <= i < k ==> r[i] < 32
  {
    if k == 0 then [] else Digits(v / 32, k - 1) + [v % 32]
  }

  function Power32(k: nat): (r: nat)
    ensures r >= 1
  {
    if k == 0 then 1 else 32 * Power32(k - 1)
  }

  function ValueOf(digits: seq<nat>): nat {
    if digits == [] then 0 else 32 * ValueOf(digits[..|digits| - 1]) + digits[|digits| - 1]
  }

  lemma {:induction false} DigitsInvert(v: nat, k: nat)
    requires v < Power32(k)
    ensures ValueOf(Digits(v, k)) == v
    decreases k
  {
    if k > 0 {
      DigitsInvert(v / 32, k - 1);
      assert Digits(v, k)[..k - 1] == Digits(v / 32, k - 1);
    }
  }

  /** The characters of digits. */
  function Spell(digits: seq<nat>): (r: string)
    requires forall i :: 0 <= i < |digits| ==> digits[i] < 32
    ensures |r| == |digits|
  {
    seq(|digits|, i requires 0 <= i < |digits| => ALPHABET[digits[i]])
  }

  /** The digit a character stands for; 32 for any other character. */
  function DigitOf(c: char): nat {
    if 'A' <= c <= 'Z' then c as nat - 'A' as nat
    else if '2' <= c <= '7' then 26 + (c as nat - '2' as nat)
    else 32
  }

  function Unspell(text: string): (r: seq<nat>)
    ensures |r| == |text|
  {
    seq(|text|, i requires 0 <= i < |text| => DigitOf(text[i]))
  }

  /** Every digit has its own character, and only the 32 characters of the alphabet stand for digits. */
  lemma CharacterOf(d: nat)
    requires d < 32
    ensures DigitOf(ALPHABET[d]) == d
  {
    Letters(d);
  }

  lemma Letters(d: nat)
    requires d < 32
    ensures ALPHABET[d] == if d < 26 then ('A' as nat + d) as char else ('2' as nat + (d - 26)) as char
  {
  }

  lemma SpellInverts(digits: seq<nat>)
    requires forall i :: 0 <= i < |digits| ==> digits[i] < 32
    ensures Unspell(Spell(digits)) == digits
  {
    forall i | 0 <= i < |digits|
      ensures DigitOf(Spell(digits)[i]) == digits[i]
    {
      CharacterOf(digits[i]);
    }
  }

  // ----- What base32 means -----

  /** Characters for `n` bytes, the last padded with zero bits. */
  function Length32(n: nat): nat {
    (8 * n + 4) / 5
  }

  /** The zero bits that fill the last character. */
  function Padding(n: nat): nat {
    5 * Length32(n) - 8 * n
  }

  /** The bytes as one number, padded to whole characters, in base 32. */
  function Base32(bytes: seq<byte>): string {
    Spell(Digits(BigEndian(bytes) * Pow2(Padding(|bytes|)), Length32(|bytes|)))
  }

  /** The `n` lowest bytes of `v`, most significant first. */
  function ToBytes(v: nat, n: nat): (r: seq<byte>)
    ensures |r| == n
  {
    if n == 0 then [] else ToBytes(v / 256, n - 1) + [v % 256]
  }

  /** `v` shifted right by `n` digits. */
  function Halved(v: nat, n: nat): nat {
    if n == 0 then v else Halved(v / 2, n - 1)
  }

  /** Decoding: the characters' number, less its padding, as bytes. */
  function Decode32(text: string, n: nat): seq<byte> {
    ToBytes(Halved(ValueOf(Unspell(text)), Padding(n)), n)
  }

  lemma {:induction false} BigEndianInverts(bytes: seq<byte>)
    ensures ToBytes(BigEndian(bytes), |bytes|) == bytes && BigEndian(bytes) < Power256(|bytes|)
    decreases |bytes|
  {
    if bytes != [] {
      BigEndianInverts(bytes[..|bytes| - 1]);
      assert bytes == bytes[..|bytes| - 1] + [bytes[|bytes| - 1]];
    }
  }

  lemma {:induction false} PowersAdd(a: nat, b: nat)
    ensures Pow2(a) * Pow2(b) == Pow2(a + b)
    decreases a
  {
    if a > 0 {
      PowersAdd(a - 1, b);
      Doubled(Pow2(a - 1), Pow2(b));
    }
  }

  lemma {:induction false} PowersOf(n: nat)
    ensures Power256(n) == Pow2(8 * n) && Power32(n) == Pow2(5 * n)
    decreases n
  {
    if n > 0 {
      PowersOf(n - 1);
      PowersAdd(8, 8 * (n - 1));
      PowersAdd(5, 5 * (n - 1));
    }
  }

  lemma Scales(v: nat, p: nat, q: nat)
    requires v < q && p >= 1
    ensures v * p < q * p
  {
    assert q * p - v * p == (q - v) * p;
    Positive(q - v, p);
  }

  lemma Positive(a: nat, p: nat)
    requires a >= 1 && p >= 1
    ensures a * p >= 1
  {
  }

  lemma {:induction false} HalvedInverts(v: nat, n: nat)
    ensures Halved(v * Pow2(n), n) == v
    decreases n
  {
    if n > 0 {
      Doubled(Pow2(n - 1), v);
      assert v * Pow2(n) == 2 * (v * Pow2(n - 1));
      HalvedInverts(v, n - 1);
    }
  }

  /** Base32 decodes to the bytes it was made from, at every length. */
  lemma Base32Inverts(bytes: seq<byte>)
    ensures Decode32(Base32(bytes), |bytes|) == bytes
  {
    hide Pow2, Spell, Unspell, Digits, ValueOf, BigEndian, ToBytes, Power32, Power256;
    var n, v := |bytes|, BigEndian(bytes);
    var pad, k := Padding(n), Length32(n);
    BigEndianInverts(bytes);
    PowersOf(n);
    PowersOf(k);
    PowersAdd(8 * n, pad);
    Scales(v, Pow2(pad), Pow2(8 * n));
    HalvedInverts(v, pad);
    DigitsInvert(v * Pow2(pad), k);
    SpellInverts(Digits(v * Pow2(pad), k));
  }

  // ----- 32-bit shifts -----

  /** What JavaScript's bit operators make of an integer. */
  function ToInt32(x: int): int {
    (x + 0x8000_0000) % 0x1_0000_0000 - 0x8000_0000
  }

  /** JavaScript's `>>`, which keeps the sign. */
  function ShiftRight(x: int, n: nat): int
    decreases n
  {
    if n == 0 then x else ShiftRight(x / 2, n - 1)
  }

  /** JavaScript's `<<`. */
  function ShiftLeft(x: int, n: nat): int {
    ToInt32(x * Pow2(n))
  }

  lemma {:induction false} HalvedAdds(v: nat, a: nat, b: nat)
    ensures Halved(v, a + b) == Halved(Halved(v, a), b)
    decreases a
  {
    if a > 0 {
      HalvedAdds(v / 2, a - 1, b);
    }
  }

  lemma HalvedFive(v: nat)
    ensures Halved(v, 5) == v / 32
  {
    HalvedThree(v);
    HalvedAdds(v, 3, 2);
    var w := v / 8;
    assert Halved(w, 2) == Halved(w / 2, 1) == Halved(w / 2 / 2, 0);
  }

  lemma HalvedThree(v: nat)
    ensures Halved(v, 3) == v / 8
  {
    assert Halved(v, 3) == Halved(v / 2, 2) == Halved(v / 2 / 2, 1) == Halved(v / 2 / 2 / 2, 0);
  }

  lemma HalvedEight(v: nat, b: nat, n: nat)
    requires b < 256
    ensures Halved(256 * v + b, n + 8) == Halved(v, n)
  {
    var x := 256 * v + b;
    hide Halved;
    HalvedFive(x);
    HalvedAdds(x, 5, 3);
    HalvedThree(x / 32);
    HalvedAdds(x, 8, n);
  }

  /** Shifting any number congruent to `v` by so few digits leaves the same five lowest. */
  lemma {:induction false} ShiftAgrees(x: int, v: nat, k: int, m: nat, n: nat)
    requires x == v + k * Pow2(m) && n + 5 <= m
    ensures ShiftRight(x, n) % 32 == Halved(v, n) % 32
    decreases n
  {
    if n == 0 {
      MultipleOf32(v, k, m);
    } else {
      assert Pow2(m) == 2 * Pow2(m - 1);
      HalfOf(x, v, k, Pow2(m - 1));
      ShiftAgrees(x / 2, v / 2, k, m - 1, n - 1);
      hide Pow2;
    }
  }

  lemma MultipleOf32(v: int, k: int, m: nat)
    requires m >= 5
    ensures (v + k * Pow2(m)) % 32 == v % 32
  {
    PowersAdd(5, m - 5);
    assert Pow2(5) == 32;
    hide Pow2;
    Fives(v, k, Pow2(m - 5));
  }

  lemma Fives(v: int, k: int, p: int)
    ensures (v + k * (32 * p)) % 32 == v % 32
  {
    assert k * (32 * p) == 32 * (k * p);
  }

  lemma HalfOf(x: int, v: nat, k: int, p: int)
    requires x == v + k * (2 * p)
    ensures x / 2 == v / 2 + k * p
  {
    assert k * (2 * p) == 2 * (k * p);
  }

  /** The wrapped buffer differs from the unbounded one by a multiple of 2^32. */
  lemma Wrapped(v: nat) returns (k: int)
    ensures ToInt32(v) == v + k * Pow2(32)
  {
    k := -((v + 0x8000_0000) / 0x1_0000_0000);
    PowersAdd(16, 16);
    SixteenBits();
  }

  /** No pending bit is lost: the wrapped buffer spells the same character as an unbounded one would. */
  lemma SymbolExact(v: nat, n: nat)
    requires n <= 7
    ensures ShiftRight(ToInt32(v), n) % 32 == Halved(v, n) % 32
  {
    hide Halved, ShiftRight, ToInt32, Pow2;
    var k := Wrapped(v);
    ShiftAgrees(ToInt32(v), v, k, 32, n);
  }

  lemma LastExact(v: nat, n: nat)
    requires n <= 4
    ensures ShiftLeft(ToInt32(v), n) % 32 == v * Pow2(n) % 32
  {
    hide ToInt32, Pow2;
    var k := Wrapped(v);
    var p := Pow2(n);
    WrapsLow(ToInt32(v) * p);
    assert ToInt32(v) * p == v * p + (k * p) * Pow2(32) by {
      Distributes(v, k, Pow2(32), p);
    }
    MultipleOf32(v * p, k * p, 32);
  }

  lemma Distributes(v: int, k: int, w: int, p: int)
    ensures (v + k * w) * p == v * p + (k * p) * w
  {
    assert (v + k * w) * p == v * p + (k * w) * p;
    assert (k * w) * p == k * (w * p) == k * (p * w) == (k * p) * w;
  }

  lemma WrapsLow(y: int)
    ensures ToInt32(y) % 32 == y % 32
  {
    var x, q := ToInt32(y), (y + 0x8000_0000) / 0x1_0000_0000;
    assert y == x + q * 0x1_0000_0000;
    hide ToInt32;
    Fives(x, q, 0x800_0000);
  }

  lemma WrapsAlong(v: nat, b: nat)
    requires b < 256
    ensures ShiftLeft(ToInt32(v), 8) + b == ToInt32(256 * v + b)
  {
    assert Pow2(8) == 256;
  }

  /** What is left of the number after the characters so far. */
  lemma OneMore(v: nat, bits: nat, count: nat)
    requires bits >= 5
    ensures Digits(Halved(v, bits - 5), count + 1) == Digits(Halved(v, bits), count) + [Halved(v, bits - 5) % 32]
  {
    HalvedAdds(v, bits - 5, 5);
    HalvedFive(Halved(v, bits - 5));
  }

  lemma LastOne(v: nat, bits: nat, count: nat)
    requires 0 < bits < 5
    ensures Digits(v * Pow2(5 - bits), count + 1) == Digits(Halved(v, bits), count) + [v * Pow2(5 - bits) % 32]
  {
    var w := v * Pow2(5 - bits);
    HalvedAdds(w, 5 - bits, bits);
    HalvedInverts(v, 5 - bits);
    HalvedFive(w);
  }

  lemma SpellSnoc(digits: seq<nat>, d: nat)
    requires d < 32 && forall i :: 0 <= i < |digits| ==> digits[i] < 32
    ensures Spell(digits + [d]) == Spell(digits) + [ALPHABET[d]]
  {
  }

  // ----- The encoder -----

  /** The method `base32Encode`, whose buffer is a 32-bit integer that is never masked. */
  method Base32Encode(bytes: seq<byte>) returns (out: string)
    ensures out == Base32(bytes)
  {
    hide Halved, ShiftRight, ShiftLeft, ToInt32, Pow2, Digits, Spell, BigEndian;
    out := "";
    var buffer, bits: nat := 0, 0;
    ghost var count: nat := 0;
    NothingYet();
    for i := 0 to |bytes|
      invariant bits < 5 && 8 * i == 5 * count + bits
      invariant buffer == ToInt32(BigEndian(bytes[..i]))
      invariant out == Spell(Digits(Halved(BigEndian(bytes[..i]), bits), count))
    {
      NextBuffer(bytes, i, bits);
      buffer := ShiftLeft(buffer, 8) + bytes[i] as int;
      bits := bits + 8;
      ghost var v := BigEndian(bytes[..i + 1]);
      while bits >= 5
        invariant bits <= 12 && 8 * (i + 1) == 5 * count + bits
        invariant out == Spell(Digits(Halved(v, bits), count))
      {
        SymbolExact(v, bits - 5);
        OneMore(v, bits, count);
        SpellSnoc(Digits(Halved(v, bits), count), Halved(v, bits - 5) % 32);
        out := out + [ALPHABET[ShiftRight(buffer, bits - 5) % 32]];
        bits := bits - 5;
        count := count + 1;
      }
    }
    assert bytes[..|bytes|] == bytes;
    ghost var v := BigEndian(bytes);
    if bits > 0 {
      LastExact(v, 5 - bits);
      LastOne(v, bits, count);
      SpellSnoc(Digits(Halved(v, bits), count), v * Pow2(5 - bits) % 32);
      out := out + [ALPHABET[ShiftLeft(buffer, 5 - bits) % 32]];
    }
    Unpadded(v);
  }

  lemma NothingYet()
    ensures ToInt32(BigEndian([])) == 0 && Spell(Digits(Halved(BigEndian([]), 0), 0)) == ""
  {
  }

  lemma NextBuffer(bytes: seq<byte>, i: nat, bits: nat)
    requires i < |bytes|
    ensures var v, w := BigEndian(bytes[..i]), BigEndian(bytes[..i + 1]);
            ShiftLeft(ToInt32(v), 8) + bytes[i] as int == ToInt32(w) && Halved(w, bits + 8) == Halved(v, bits)
  {
    assert bytes[..i + 1][..i] == bytes[..i];
    var v := BigEndian(bytes[..i]);
    assert BigEndian(bytes[..i + 1]) == 256 * v + bytes[i] as nat;
    hide Halved, ShiftLeft, ToInt32, BigEndian;
    WrapsAlong(v, bytes[i]);
    HalvedEight(v, bytes[i], bits);
  }

  lemma Unpadded(v: nat)
    ensures v * Pow2(0) == v && Halved(v, 0) == v
  {
  }

  // ----- Strkeys -----

  /** Version byte, payload, and the checksum of both, low byte first. */
  function Full(version: byte, payload: seq<byte>): seq<byte> {
    CrcCongruent([version] + payload);
    var crc := Crc([version] + payload);
    [version] + payload + [crc % 0x100, crc / 0x100]
  }

  function Encoded(version: byte, payload: seq<byte>): Result<string> {
    if |payload| != 32 then Thrown else Ok(Base32(Full(version, payload)))
  }

  /** The method `encodeCheck`. */
  method EncodeCheck(version: byte, payload: seq<byte>) returns (r: Result<string>)
    ensures r == Encoded(version, payload)
  {
    hide Base32, Crc;
    if |payload| != 32 {
      return Thrown;
    }
    var body := new byte[1 + |payload|];
    body[0] := version;
    forall i | 0 <= i < |payload| {
      body[i + 1] := payload[i];
    }
    assert body[..] == [version] + payload;
    var checksum := Crc16XModem(body[..]);
    CrcCongruent(body[..]);
    var full := new byte[body.Length + 2];
    forall i | 0 <= i < body.Length {
      full[i] := body[i];
    }
    full[body.Length] := checksum % 0x100;
    full[body.Length + 1] := checksum / 0x100 % 0x100;
    assert full[..] == Full(version, payload);
    var text := Base32Encode(full[..]);
    return Ok(text);
  }

  /**
   * Every 32-byte payload encodes to exactly 56 characters of the alphabet, which decode to version,
   * payload and little-endian checksum; any other length throws.
   */
  lemma EncodedDecodes(version: byte, payload: seq<byte>)
    ensures Encoded(version, payload).Ok? <==> |payload| == 32
    ensures match Encoded(version, payload)
            case Thrown => true
            case Ok(text) =>
              && |text| == 56 && (forall i :: 0 <= i < 56 ==> text[i] in ALPHABET)
              && var bytes := Decode32(text, 35);
                 && |bytes| == 35 && bytes[0] == version && bytes[1..33] == payload
                 && LittleEndian(bytes[33..]) == Crc([version] + payload)
  {
    hide Crc, Decode32, Digits, BigEndian;
    if |payload| == 32 {
      var full := Full(version, payload);
      Base32Inverts(full);
      assert Length32(35) == 56;
      LittleEndianOf(full[33..]);
    }
  }

  /** Different versions or payloads never share a strkey. */
  lemma EncodedSeparates(version: byte, payload: seq<byte>, version2: byte, payload2: seq<byte>)
    requires |payload| == 32 && |payload2| == 32
    ensures Encoded(version, payload) == Encoded(version2, payload2) <==> version == version2 && payload == payload2
  {
    hide Crc, Decode32, Base32, LittleEndian, Encoded;
    EncodedDecodes(version, payload);
    EncodedDecodes(version2, payload2);
    if Encoded(version, payload) == Encoded(version2, payload2) {
      var a, b := Full(version, payload), Full(version2, payload2);
      assert a[0] == version && b[0] == version2 && a[1..33] == payload && b[1..33] == payload2;
    }
  }
}
