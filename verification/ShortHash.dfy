/** The 32-bit FNV-1a hash that fingerprints drafts and change requests. */
module ShortHash {
  import opened Texts

  type Word = n: int | 0 <= n < 0x1_0000_0000

  const OFFSET: Word := 0x811c9dc5
  const PRIME := 0x01000193

  function PowerOf(base: nat, digits: nat): nat { if digits == 0 then 1 else base * PowerOf(base, digits - 1) }

  /** Exclusive or, bit by bit. */
  function Xor(a: nat, b: nat): nat
    decreases a + b
  {
    if a == 0 && b == 0 then 0 else (if a % 2 == b % 2 then 0 else 1) + 2 * Xor(a / 2, b / 2)
  }

  lemma {:induction false} XorBelow(a: nat, b: nat, bits: nat)
    requires a < PowerOf(2, bits) && b < PowerOf(2, bits)
    ensures Xor(a, b) < PowerOf(2, bits)
    decreases bits
  {
    if bits > 0 {
      XorBelow(a / 2, b / 2, bits - 1);
    }
  }

  lemma {:induction false} WordBits()
    ensures PowerOf(2, 32) == 0x1_0000_0000
  {
    assert PowerOf(2, 8) == 0x100;
    assert PowerOf(2, 16) == 0x1_0000;
    assert PowerOf(2, 24) == 0x100_0000;
  }

  /** `hash ^= unit` */
  function XorWord(hash: Word, unit: CodeUnit): Word {
    WordBits();
    XorBelow(hash, unit, 32);
    Xor(hash, unit)
  }

  /** `Math.imul(hash, 0x01000193)`, whose 32 bits are read without a sign. */
  function Imul(hash: Word): Word { hash * PRIME % 0x1_0000_0000 }

  function Round(hash: Word, unit: CodeUnit): Word { Imul(XorWord(hash, unit)) }

  /** The state after reading `value` from the state `hash`. */
  function Continue(hash: Word, value: Text): Word
    decreases |value|
  {
    if value == [] then hash else Continue(Round(hash, value[0]), value[1..])
  }

  function Digit(n: nat): CodeUnit
    requires n < 16
  {
    if n < 10 then 48 + n else 87 + n
  }

  /** `toString(16)` */
  function Hex(n: nat): (t: Text)
    ensures |t| >= 1
  {
    if n < 16 then [Digit(n)] else Hex(n / 16) + [Digit(n % 16)]
  }

  function PadStart(t: Text, length: nat): (r: Text)
    ensures |r| == if |t| < length then length else |t|
  {
    seq(if |t| < length then length - |t| else 0, _ => ZERO) + t
  }

  function Fingerprint(value: Text): Text { PadStart(Hex(Continue(OFFSET, value)), 8) }

  method ComputeShortHash(value: Text) returns (r: Text)
    ensures r == Fingerprint(value) && |r| == 8
  {
    var hash: Word := OFFSET;
    var index := 0;
    while index < |value|
      invariant 0 <= index <= |value|
      invariant Continue(hash, value[index..]) == Continue(OFFSET, value)
    {
      assert value[index..][1..] == value[index + 1..];
      hash := XorWord(hash, value[index]);
      hash := Imul(hash);
      index := index + 1;
    }
    r := PadStart(Hex(hash), 8);
    EightDigits(value);
  }

  // ----- rounds are bijections

  lemma {:induction false} XorStep(a: nat, b: nat)
    ensures Xor(a, b) / 2 == Xor(a / 2, b / 2)
    ensures Xor(a, b) % 2 == (if a % 2 == b % 2 then 0 else 1)
  {
    var rest := Xor(a / 2, b / 2);
    assert Xor(a, b) == (if a % 2 == b % 2 then 0 else 1) + 2 * rest;
  }

  lemma {:induction false} XorBack(a: nat, b: nat)
    ensures Xor(Xor(a, b), b) == a && Xor(Xor(a, b), a) == b
    decreases a + b
  {
    if a != 0 || b != 0 {
      XorBack(a / 2, b / 2);
      XorStep(a, b);
      XorStep(Xor(a, b), a);
      XorStep(Xor(a, b), b);
    }
  }

  /** The multiplier is odd, so it has an inverse in 32-bit arithmetic. */
  lemma {:induction false} ImulInjective(x: Word, y: Word)
    requires Imul(x) == Imul(y)
    ensures x == y
  {
    var inverse := 0x359c449b;
    assert PRIME * inverse == 1 + 3513497 * 0x1_0000_0000;
    var p, q: int := x * PRIME / 0x1_0000_0000, y * PRIME / 0x1_0000_0000;
    assert (x - y) * PRIME == (p - q) * 0x1_0000_0000;
    var n := (p - q) * inverse - (x - y) * 3513497;
    assert x - y == n * 0x1_0000_0000;
  }

  /** No two states, and no two code units, give the same next state. */
  lemma {:induction false} RoundInjective(h: Word, k: Word, a: CodeUnit, b: CodeUnit)
    requires Round(h, a) == Round(k, b)
    ensures a == b ==> h == k
    ensures h == k ==> a == b
  {
    ImulInjective(XorWord(h, a), XorWord(k, b));
    XorBack(h, a);
    XorBack(k, b);
  }

  lemma {:induction false} ContinueConcat(h: Word, s: Text, t: Text)
    ensures Continue(h, s + t) == Continue(Continue(h, s), t)
    decreases |s|
  {
    if s == [] {
      assert s + t == t;
    } else {
      assert (s + t)[1..] == s[1..] + t;
      ContinueConcat(Round(h, s[0]), s[1..], t);
    }
  }

  lemma {:induction false} ContinueInjective(h: Word, k: Word, s: Text)
    requires Continue(h, s) == Continue(k, s)
    ensures h == k
    decreases |s|
  {
    if s != [] {
      ContinueInjective(Round(h, s[0]), Round(k, s[0]), s[1..]);
      RoundInjective(h, k, s[0], s[0]);
    }
  }

  // ----- the hexadecimal form loses nothing

  function DigitValue(c: CodeUnit): int { if c < 58 then (c as int) - 48 else (c as int) - 87 }

  function HexValue(t: Text): int {
    if t == [] then 0 else 16 * HexValue(t[..|t| - 1]) + DigitValue(t[|t| - 1])
  }

  lemma {:induction false} HexValueOfHex(n: nat)
    ensures HexValue(Hex(n)) == n
  {
    if n < 16 {
      assert Hex(n)[..0] == [];
    } else {
      HexValueOfHex(n / 16);
      var t := Hex(n);
      assert t[..|t| - 1] == Hex(n / 16);
    }
  }

  lemma {:induction false} ZerosInFront(zeros: Text, t: Text)
    requires forall i :: 0 <= i < |zeros| ==> zeros[i] == ZERO
    ensures HexValue(zeros + t) == HexValue(t)
    decreases |zeros| + |t|
  {
    var s := zeros + t;
    if t != [] {
      ZerosInFront(zeros, t[..|t| - 1]);
      assert s[..|s| - 1] == zeros + t[..|t| - 1];
    } else if zeros != [] {
      ZerosInFront(zeros[..|zeros| - 1], []);
      assert s[..|s| - 1] == zeros[..|zeros| - 1] + [];
    }
  }

  lemma {:induction false} PaddedHexInjective(n: nat, m: nat, length: nat)
    requires PadStart(Hex(n), length) == PadStart(Hex(m), length)
    ensures n == m
  {
    hide Hex;
    hide HexValue;
    HexValueOfHex(n);
    HexValueOfHex(m);
    ZerosInFront(seq(if |Hex(n)| < length then length - |Hex(n)| else 0, _ => ZERO), Hex(n));
    ZerosInFront(seq(if |Hex(m)| < length then length - |Hex(m)| else 0, _ => ZERO), Hex(m));
  }

  lemma {:induction false} HexDigits(n: nat, digits: nat)
    requires digits >= 1 && n < PowerOf(16, digits)
    ensures |Hex(n)| <= digits
    decreases digits
  {
    if n >= 16 {
      assert digits > 1;
      HexDigits(n / 16, digits - 1);
    }
  }

  lemma {:induction false} EightDigits(value: Text)
    ensures |Fingerprint(value)| == 8
  {
    assert PowerOf(16, 2) == 0x100;
    assert PowerOf(16, 4) == 0x1_0000;
    assert PowerOf(16, 6) == 0x100_0000;
    assert PowerOf(16, 8) == 0x1_0000_0000;
    HexDigits(Continue(OFFSET, value), 8);
  }

  // ----- which texts share a fingerprint

  /** A common ending neither makes nor hides a difference. */
  lemma {:induction false} SuffixCancels(s: Text, t: Text, ending: Text)
    ensures Fingerprint(s + ending) == Fingerprint(t + ending) <==> Fingerprint(s) == Fingerprint(t)
  {
    ContinueConcat(OFFSET, s, ending);
    ContinueConcat(OFFSET, t, ending);
    var h, k := Continue(OFFSET, s), Continue(OFFSET, t);
    if Fingerprint(s) == Fingerprint(t) {
      PaddedHexInjective(h, k, 8);
    }
    if Fingerprint(s + ending) == Fingerprint(t + ending) {
      PaddedHexInjective(Continue(h, ending), Continue(k, ending), 8);
      ContinueInjective(h, k, ending);
    }
  }

  /** Texts that differ in at most one code unit share a fingerprint only if they are equal. */
  lemma {:induction false} OneUnitShows(s: Text, i: nat, unit: CodeUnit)
    requires i < |s|
    ensures Fingerprint(s[i := unit]) == Fingerprint(s) <==> unit == s[i]
  {
    var t := s[i := unit];
    assert unit == s[i] ==> t == s;
    assert s == (s[..i] + [s[i]]) + s[i + 1..] && t == (s[..i] + [unit]) + s[i + 1..];
    if Fingerprint(t) == Fingerprint(s) {
      SuffixCancels(s[..i] + [unit], s[..i] + [s[i]], s[i + 1..]);
      var h := Continue(OFFSET, s[..i]);
      ContinueConcat(OFFSET, s[..i], [unit]);
      ContinueConcat(OFFSET, s[..i], [s[i]]);
      OneStep(h, unit);
      OneStep(h, s[i]);
      PaddedHexInjective(Round(h, unit), Round(h, s[i]), 8);
      RoundInjective(h, h, unit, s[i]);
    }
  }

  lemma {:induction false} OneStep(h: Word, unit: CodeUnit)
    ensures Continue(h, [unit]) == Round(h, unit)
  {
    assert [unit][1..] == [];
  }

  // ----- what the hash is

  ghost function Bit(n: nat, k: nat): nat { if k == 0 then n % 2 else Bit(n / 2, k - 1) }

  /** Every bit of an exclusive or is set exactly if the two bits differ. */
  lemma {:induction false} XorBits(a: nat, b: nat, k: nat)
    ensures Bit(Xor(a, b), k) == if Bit(a, k) == Bit(b, k) then 0 else 1
    decreases k
  {
    XorStep(a, b);
    if k > 0 {
      XorBits(a / 2, b / 2, k - 1);
    }
  }

  lemma {:induction false} BitsEnd(n: nat, k: nat, bits: nat)
    requires n < PowerOf(2, bits) && k >= bits
    ensures Bit(n, k) == 0
    decreases bits
  {
    if bits > 0 {
      BitsEnd(n / 2, k - 1, bits - 1);
    } else {
      NoBits(k);
    }
  }

  lemma {:induction false} NoBits(k: nat)
    ensures Bit(0, k) == 0
  {
    if k > 0 {
      NoBits(k - 1);
    }
  }

  /** One round of the 32-bit FNV-1a hash: exclusive or with the unit, then a product with the prime, modulo 2 to the 32nd. */
  lemma {:induction false} RoundExactly(hash: Word, unit: CodeUnit) returns (x: Word)
    ensures forall k: nat :: Bit(x, k) == if Bit(hash, k) == Bit(unit, k) then 0 else 1
    ensures Round(hash, unit) == x * 16_777_619 % 4_294_967_296
  {
    x := XorWord(hash, unit);
    forall k: nat ensures Bit(x, k) == if Bit(hash, k) == Bit(unit, k) then 0 else 1 {
      XorBits(hash, unit, k);
    }
  }

  /** The hash starts with the offset basis, and reads unit by unit. */
  lemma {:induction false} HashOf(value: Text)
    ensures HexValue(Fingerprint(value)) == Continue(2_166_136_261, value)
    ensures Continue(2_166_136_261, []) == 2_166_136_261
    ensures value != [] ==>
              var n := |value| - 1;
              Continue(2_166_136_261, value) == Round(Continue(2_166_136_261, value[..n]), value[n])
  {
    var hex := Hex(Continue(OFFSET, value));
    HexValueOfHex(Continue(OFFSET, value));
    ZerosInFront(seq(if |hex| < 8 then 8 - |hex| else 0, _ => ZERO), hex);
    if value != [] {
      var n := |value| - 1;
      assert value == value[..n] + [value[n]];
      ContinueConcat(OFFSET, value[..n], [value[n]]);
    }
  }

  ghost predicate OfHexDigits(t: Text) {
    forall i :: 0 <= i < |t| ==> '0' as int <= t[i] <= '9' as int || 'a' as int <= t[i] <= 'f' as int
  }

  /** A fingerprint is eight hexadecimal digits, in lower case. */
  lemma {:induction false} FingerprintShape(value: Text)
    ensures |Fingerprint(value)| == 8 && OfHexDigits(Fingerprint(value))
  {
    EightDigits(value);
    HexShape(Continue(OFFSET, value));
  }

  lemma {:induction false} HexShape(n: nat)
    ensures OfHexDigits(Hex(n))
  {
    if n >= 16 {
      HexShape(n / 16);
    }
  }
}
