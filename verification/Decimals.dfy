/**
 Finite numbers, and their text.

 A number is what its shortest decimal digits say; they are printed as in section
 6.1.6.1.20 of ECMA-262 and read as in section 6 of RFC 8259.
 */
module Decimals {
  import opened Texts
  import opened Wrappers

  /** `mantissa` times ten to the `exponent`. */
  datatype Scaled = Scaled(mantissa: int, exponent: int)

  predicate IsShortest(s: Scaled) { if s.mantissa == 0 then s.exponent == 0 else s.mantissa % 10 != 0 }

  type Decimal = s: Scaled | IsShortest(s) witness Scaled(0, 0)

  const PLUS: CodeUnit := 43
  const SMALL_E: CodeUnit := 101
  const LARGE_E: CodeUnit := 69

  /** From how many digits before the point, and how many zeros behind it, an exponent is written. */
  const MAX_PLAIN_DIGITS := 21
  const MIN_PLAIN_POINT := -6

  function Abs(n: int): nat { if n < 0 then -n else n }

  function Shortest(mantissa: int, exponent: int): Decimal
    decreases Abs(mantissa)
  {
    if mantissa == 0 then Scaled(0, 0)
    else if mantissa % 10 == 0 then Shortest(mantissa / 10, exponent + 1)
    else Scaled(mantissa, exponent)
  }

  function Whole(n: int): Decimal { Shortest(n, 0) }

  function PowerOfTen(n: nat): nat { if n == 0 then 1 else 10 * PowerOfTen(n - 1) }

  /** The integer a number is, if it is one. */
  function IntegerOf(d: Decimal): Option<int> {
    if d.exponent >= 0 then Some(d.mantissa * PowerOfTen(d.exponent)) else None
  }

  // ----- printing

  function Digits(n: nat): (t: Text)
    ensures t != []
  {
    if n < 10 then [ZERO + n] else Digits(n / 10) + [ZERO + n % 10]
  }

  function Zeros(n: nat): (t: Text)
    ensures |t| == n && forall i :: 0 <= i < n ==> t[i] == ZERO
  {
    seq(n, i => ZERO)
  }

  function PrintExponent(e: int): Text { [SMALL_E, if e < 0 then MINUS else PLUS] + Digits(Abs(e)) }

  function PrintUnsigned(n: nat, exponent: int): Text {
    var digits := Digits(n);
    var point := |digits| + exponent;
    if n == 0 then [ZERO]
    else if 0 <= exponent && point <= MAX_PLAIN_DIGITS then digits + Zeros(exponent)
    else if 0 < point <= MAX_PLAIN_DIGITS && exponent < 0 then digits[..point] + [DOT] + digits[point..]
    else if MIN_PLAIN_POINT < point <= 0 then [ZERO, DOT] + Zeros(-point) + digits
    else digits[..1] + (if |digits| == 1 then [] else [DOT] + digits[1..]) + PrintExponent(point - 1)
  }

  function PrintNumber(d: Decimal): Text {
    (if d.mantissa < 0 then [MINUS] else []) + PrintUnsigned(Abs(d.mantissa), d.exponent)
  }

  // ----- reading

  predicate IsDigit(c: CodeUnit) { 48 <= c <= 57 }

  /** Reads digits as long as there are any, onto the number read so far. */
  function ParseDigits(t: Text, read: nat): (r: (nat, Text))
    ensures |r.1| <= |t|
  {
    if t != [] && IsDigit(t[0]) then ParseDigits(t[1..], 10 * read + (t[0] - 48)) else (read, t)
  }

  predicate StartsWithDigit(t: Text) { t != [] && IsDigit(t[0]) }

  /** Whether a number could go on with this text: more digits, a fraction or an exponent. */
  predicate ContinuesNumber(t: Text) {
    t != [] && (IsDigit(t[0]) || t[0] == DOT || t[0] == LARGE_E || t[0] == SMALL_E)
  }

  datatype Part = Part(mantissa: nat, places: nat, rest: Text)

  /** A fraction, if there is one, read onto the digits before the point. */
  function ParseFraction(t: Text, read: nat): (r: Option<Part>)
    ensures r.Some? ==> |r.value.rest| <= |t|
  {
    if t == [] || t[0] != DOT then Some(Part(read, 0, t))
    else if !StartsWithDigit(t[1..]) then None
    else
      var (mantissa, rest) := ParseDigits(t[1..], read);
      Some(Part(mantissa, |t| - 1 - |rest|, rest))
  }

  function ParseExponent(t: Text): (r: Option<(int, Text)>)
    ensures r.Some? ==> |r.value.1| <= |t|
  {
    if t == [] || (t[0] != LARGE_E && t[0] != SMALL_E) then Some((0, t))
    else
      var signed := |t| > 1 && (t[1] == PLUS || t[1] == MINUS);
      var digits := if signed then t[2..] else t[1..];
      if !StartsWithDigit(digits) then None
      else
        var (e, rest) := ParseDigits(digits, 0);
        Some((if signed && t[1] == MINUS then -(e as int) else e, rest))
  }

  /** What comes before the point has no needless leading zeros. */
  function ParseUnsigned(t: Text): (r: Option<(nat, int, Text)>)
    ensures r.Some? ==> |r.value.2| < |t|
  {
    if !StartsWithDigit(t) then None
    else
      var (read, more) := if t[0] == ZERO then (0, t[1..]) else ParseDigits(t[1..], t[0] - 48);
      match ParseFraction(more, read)
      case None => None
      case Some(part) =>
        match ParseExponent(part.rest)
        case None => None
        case Some((e, rest)) => if ContinuesNumber(rest) then None else Some((part.mantissa, e - part.places, rest))
  }

  function ParseNumber(t: Text): (r: Option<(Decimal, Text)>)
    ensures r.Some? ==> |r.value.1| < |t|
  {
    var negative := t != [] && t[0] == MINUS;
    match ParseUnsigned(if negative then t[1..] else t)
    case None => None
    case Some((n, e, rest)) => Some((Shortest(if negative then -(n as int) else n, e), rest))
  }

  // ----- digits

  ghost predicate AllDigits(t: Text) { forall c :: c in t ==> IsDigit(c) }

  /** The number that digits make when they are read onto another. */
  ghost function ReadOnto(t: Text, read: nat): nat
    requires AllDigits(t)
  {
    if t == [] then read
    else
      assert t[0] in t && forall c :: c in t[1..] ==> c in t;
      ReadOnto(t[1..], 10 * read + (t[0] - 48))
  }

  lemma {:induction false} ReadConcat(s: Text, t: Text, read: nat)
    requires AllDigits(s) && AllDigits(t)
    ensures AllDigits(s + t) && ReadOnto(s + t, read) == ReadOnto(t, ReadOnto(s, read))
  {
    assert forall c :: c in s + t <==> c in s || c in t;
    if s == [] {
      assert s + t == t;
    } else {
      assert s[0] in s && forall c :: c in s[1..] ==> c in s;
      ReadConcat(s[1..], t, 10 * read + (s[0] - 48));
      assert (s + t)[1..] == s[1..] + t;
    }
  }

  /** Digits are read to their end. */
  lemma {:induction false} DigitsAreRead(s: Text, rest: Text, read: nat)
    requires AllDigits(s) && !StartsWithDigit(rest)
    ensures ParseDigits(s + rest, read) == (ReadOnto(s, read), rest)
  {
    if s == [] {
      assert s + rest == rest;
    } else {
      assert s[0] in s && forall c :: c in s[1..] ==> c in s;
      DigitsAreRead(s[1..], rest, 10 * read + (s[0] - 48));
      assert (s + rest)[1..] == s[1..] + rest;
    }
  }

  lemma {:induction false} ReadDigits(n: nat)
    ensures AllDigits(Digits(n)) && ReadOnto(Digits(n), 0) == n
    ensures n > 0 ==> Digits(n)[0] != ZERO
    ensures IsDigit(Digits(n)[0])
  {
    if n >= 10 {
      ReadDigits(n / 10);
      var last := [ZERO + n % 10];
      ReadConcat(Digits(n / 10), last, 0);
      assert last[1..] == [];
      assert ReadOnto(last, n / 10) == 10 * (n / 10) + n % 10;
    } else {
      var t := [ZERO + n];
      assert t[1..] == [];
    }
  }

  lemma {:induction false} ReadZeros(n: nat, read: nat)
    ensures AllDigits(Zeros(n)) && ReadOnto(Zeros(n), read) == read * PowerOfTen(n)
  {
    if n > 0 {
      ReadZeros(n - 1, 10 * read);
      assert Zeros(n)[1..] == Zeros(n - 1);
      assert 10 * read * PowerOfTen(n - 1) == read * PowerOfTen(n);
    }
  }

  /** A part of digits, and the rest of them. */
  lemma {:induction false} ReadParts(t: Text, i: nat)
    requires AllDigits(t) && i <= |t|
    ensures AllDigits(t[..i]) && AllDigits(t[i..])
    ensures ReadOnto(t[i..], ReadOnto(t[..i], 0)) == ReadOnto(t, 0)
  {
    assert forall c :: c in t[..i] || c in t[i..] ==> c in t;
    assert t == t[..i] + t[i..];
    ReadConcat(t[..i], t[i..], 0);
  }

  // ----- one number for each text

  lemma {:induction false} ShortestOfScaled(m: int, j: nat, e: int)
    requires m != 0
    ensures Shortest(m * PowerOfTen(j), e) == Shortest(m, e + j)
    decreases j
  {
    hide Shortest;
    if j > 0 {
      var q := m * PowerOfTen(j - 1);
      assert m * PowerOfTen(j) == 10 * q;
      PowerIsPositive(j - 1);
      assert q != 0;
      ShortestOfTens(q, e);
      ShortestOfScaled(m, j - 1, e + 1);
    }
  }

  lemma {:induction false} ShortestOfTens(q: int, e: int)
    requires q != 0
    ensures Shortest(10 * q, e) == Shortest(q, e + 1)
  {
  }

  lemma {:induction false} PowerIsPositive(n: nat)
    ensures PowerOfTen(n) > 0
  {
    if n > 0 {
      PowerIsPositive(n - 1);
    }
  }

  lemma {:induction false} ShortestKeepsValue(m: int, e: nat)
    ensures var d := Shortest(m, e);
            d.exponent >= 0 && d.mantissa * PowerOfTen(d.exponent) == m * PowerOfTen(e)
    decreases Abs(m)
  {
    if m != 0 && m % 10 == 0 {
      ShortestKeepsValue(m / 10, e + 1);
      var q := m / 10;
      assert m == 10 * q;
      assert q * PowerOfTen(e + 1) == q * (10 * PowerOfTen(e)) == (10 * q) * PowerOfTen(e);
    }
  }

  /** Different integers are different numbers. */
  lemma {:induction false} IntegerOfWhole(n: int)
    ensures IntegerOf(Whole(n)) == Some(n)
  {
    ShortestKeepsValue(n, 0);
  }

  // ----- reading back what was printed

  ghost predicate Reads(t: Text, n: nat, exponent: int, rest: Text) {
    ParseUnsigned(t + rest) == Some((n, exponent, rest))
  }

  /** A number is read part by part. */
  lemma {:induction false} PartsAreRead(before: Text, after: Text, power: Text, e: int, rest: Text)
    requires before != [] && AllDigits(before) && (before[0] == ZERO ==> |before| == 1)
    requires AllDigits(after) && !ContinuesNumber(rest)
    requires !StartsWithDigit(power + rest) && (power + rest != [] ==> (power + rest)[0] != DOT)
    requires ParseExponent(power + rest) == Some((e, rest))
    ensures var fraction := if after == [] then [] else [DOT] + after;
            Reads(before + fraction + power, ReadOnto(after, ReadOnto(before, 0)), e - |after|, rest)
  {
    var fraction := if after == [] then [] else [DOT] + after;
    var t := before + fraction + power + rest;
    var more := fraction + (power + rest);
    assert t == before + more;
    BeforeIsRead(before, more);
    FractionIsRead(after, power + rest, ReadOnto(before, 0));
  }

  lemma {:induction false} BeforeIsRead(before: Text, more: Text)
    requires before != [] && AllDigits(before) && (before[0] == ZERO ==> |before| == 1) && !StartsWithDigit(more)
    ensures var t := before + more;
            && StartsWithDigit(t)
            && (if t[0] == ZERO then (0, t[1..]) else ParseDigits(t[1..], t[0] - 48)) == (ReadOnto(before, 0), more)
  {
    var t := before + more;
    assert before[0] in before && forall c :: c in before[1..] ==> c in before;
    assert t[1..] == before[1..] + more;
    DigitsAreRead(before[1..], more, before[0] - 48);
    if before[0] == ZERO {
      assert before[1..] == [] && before[1..] + more == more;
    }
  }

  lemma {:induction false} FractionIsRead(after: Text, more: Text, read: nat)
    requires AllDigits(after) && !StartsWithDigit(more) && (more != [] ==> more[0] != DOT)
    ensures var fraction := if after == [] then [] else [DOT] + after;
            ParseFraction(fraction + more, read) == Some(Part(ReadOnto(after, read), |after|, more))
  {
    if after == [] {
      assert [] + more == more;
    } else {
      var t := [DOT] + after + more;
      assert t[1..] == after + more && after[0] in after;
      DigitsAreRead(after, more, read);
    }
  }

  lemma {:induction false} NoExponent(rest: Text)
    requires !ContinuesNumber(rest)
    ensures [] + rest == rest && ParseExponent(rest) == Some((0, rest))
  {
  }

  lemma {:induction false} ExponentIsRead(e: int, rest: Text)
    requires !ContinuesNumber(rest)
    ensures ParseExponent(PrintExponent(e) + rest) == Some((e, rest))
  {
    var t, digits := PrintExponent(e) + rest, Digits(Abs(e));
    ReadDigits(Abs(e));
    assert t[2..] == digits + rest;
    DigitsAreRead(digits, rest, 0);
  }

  lemma {:induction false} PlainIsRead(n: nat, exponent: nat, rest: Text)
    requires n > 0 && !ContinuesNumber(rest)
    ensures Reads(Digits(n) + Zeros(exponent), n * PowerOfTen(exponent), 0, rest)
  {
    var digits := Digits(n);
    var all := digits + Zeros(exponent);
    ReadDigits(n);
    ReadZeros(exponent, n);
    ReadConcat(digits, Zeros(exponent), 0);
    NoExponent(rest);
    PartsAreRead(all, [], [], 0, rest);
    assert all + [] + [] == all;
  }

  lemma {:induction false} PointInside(n: nat, point: nat, rest: Text)
    requires n > 0 && 0 < point < |Digits(n)| && !ContinuesNumber(rest)
    ensures var digits := Digits(n);
            Reads(digits[..point] + [DOT] + digits[point..], n, point - |digits|, rest)
  {
    var digits := Digits(n);
    ReadDigits(n);
    ReadParts(digits, point);
    NoExponent(rest);
    PartsAreRead(digits[..point], digits[point..], [], 0, rest);
    assert digits[..point] + ([DOT] + digits[point..]) + [] == digits[..point] + [DOT] + digits[point..];
  }

  lemma {:induction false} PointInFront(n: nat, zeros: nat, rest: Text)
    requires n > 0 && !ContinuesNumber(rest)
    ensures var digits := Digits(n);
            Reads([ZERO, DOT] + Zeros(zeros) + digits, n, -(zeros + |digits|), rest)
  {
    var digits := Digits(n);
    var after := Zeros(zeros) + digits;
    ReadDigits(n);
    ReadZeros(zeros, 0);
    ReadConcat(Zeros(zeros), digits, 0);
    NoExponent(rest);
    assert [ZERO][1..] == [] && ReadOnto([ZERO], 0) == 0;
    PartsAreRead([ZERO], after, [], 0, rest);
    assert [ZERO] + ([DOT] + after) + [] == [ZERO, DOT] + Zeros(zeros) + digits;
  }

  lemma {:induction false} WithExponent(n: nat, e: int, rest: Text)
    requires n > 0 && !ContinuesNumber(rest)
    ensures var digits := Digits(n);
            Reads(digits[..1] + (if |digits| == 1 then [] else [DOT] + digits[1..]) + PrintExponent(e),
                  n, e - (|digits| - 1), rest)
  {
    var digits := Digits(n);
    ReadDigits(n);
    ReadParts(digits, 1);
    ExponentIsRead(e, rest);
    PartsAreRead(digits[..1], digits[1..], PrintExponent(e), e, rest);
  }

  lemma {:induction false} ZeroIsRead(rest: Text)
    requires !ContinuesNumber(rest)
    ensures Reads([ZERO], 0, 0, rest)
  {
    NoExponent(rest);
    assert [ZERO][1..] == [] && ReadOnto([ZERO], 0) == 0;
    PartsAreRead([ZERO], [], [], 0, rest);
    assert [ZERO] + [] + [] == [ZERO];
  }

  /** The digits that are read are those printed, up to zeros at the end. */
  lemma {:induction false} UnsignedIsRead(n: nat, exponent: int, rest: Text) returns (zeros: nat)
    requires !ContinuesNumber(rest) && (n == 0 ==> exponent == 0)
    ensures Reads(PrintUnsigned(n, exponent), n * PowerOfTen(zeros), exponent - zeros, rest)
  {
    hide Reads;
    var digits := Digits(n);
    var point := |digits| + exponent;
    zeros := 0;
    if n == 0 {
      ZeroIsRead(rest);
    } else if 0 <= exponent && point <= MAX_PLAIN_DIGITS {
      zeros := exponent;
      PlainIsRead(n, exponent, rest);
    } else if 0 < point <= MAX_PLAIN_DIGITS && exponent < 0 {
      PointInside(n, point, rest);
    } else if MIN_PLAIN_POINT < point <= 0 {
      PointInFront(n, -point, rest);
    } else {
      WithExponent(n, point - 1, rest);
    }
  }

  lemma {:induction false} ShortestIsItself(d: Decimal, zeros: nat)
    ensures Shortest(d.mantissa * PowerOfTen(zeros), d.exponent - zeros) == d
  {
    if d.mantissa != 0 {
      ShortestOfScaled(d.mantissa, zeros, d.exponent - zeros);
    }
  }

  /** A printed number is read back as that number, before any text that does not go on with one. */
  lemma {:induction false} NumberIsReadBack(d: Decimal, rest: Text)
    requires !ContinuesNumber(rest)
    ensures ParseNumber(PrintNumber(d) + rest) == Some((d, rest))
  {
    hide Shortest;
    hide ParseUnsigned;
    hide PrintUnsigned;
    hide PowerOfTen;
    var n, m := Abs(d.mantissa), d.mantissa;
    var text := PrintUnsigned(n, d.exponent);
    var zeros := UnsignedIsRead(n, d.exponent, rest);
    NumberStarts(d);
    ShortestIsItself(d, zeros);
    if m < 0 {
      assert (PrintNumber(d) + rest)[1..] == text + rest;
      NegatedProduct(n, PowerOfTen(zeros));
    } else {
      assert PrintNumber(d) == text;
    }
  }

  lemma {:induction false} NegatedProduct(a: int, b: int)
    ensures -(a * b) == (-a) * b
  {
  }

  lemma {:induction false} NumberStarts(d: Decimal)
    ensures PrintUnsigned(Abs(d.mantissa), d.exponent) != [] && IsDigit(PrintUnsigned(Abs(d.mantissa), d.exponent)[0])
    ensures PrintNumber(d) != [] && (IsDigit(PrintNumber(d)[0]) || PrintNumber(d)[0] == MINUS)
  {
    ReadDigits(Abs(d.mantissa));
  }

  predicate IsNumberUnit(c: CodeUnit) { IsDigit(c) || c == MINUS || c == PLUS || c == DOT || c == SMALL_E }

  ghost predicate OfNumberUnits(t: Text) { forall i :: 0 <= i < |t| ==> IsNumberUnit(t[i]) }

  lemma {:induction false} DigitUnits(n: nat)
    ensures OfNumberUnits(Digits(n))
  {
    ReadDigits(n);
    forall i | 0 <= i < |Digits(n)| ensures IsDigit(Digits(n)[i]) {
      assert Digits(n)[i] in Digits(n);
    }
  }

  lemma {:induction false} UnitsConcat(s: Text, t: Text)
    requires OfNumberUnits(s) && OfNumberUnits(t)
    ensures OfNumberUnits(s + t)
  {
  }

  lemma {:induction false} ExponentUnits(e: int)
    ensures OfNumberUnits(PrintExponent(e))
  {
    DigitUnits(Abs(e));
    UnitsConcat([SMALL_E, if e < 0 then MINUS else PLUS], Digits(Abs(e)));
  }

  lemma {:induction false} UnsignedUnits(n: nat, exponent: int)
    ensures OfNumberUnits(PrintUnsigned(n, exponent))
  {
    hide Digits;
    hide PrintExponent;
    var digits := Digits(n);
    var point := |digits| + exponent;
    DigitUnits(n);
    if n == 0 {
    } else if 0 <= exponent && point <= MAX_PLAIN_DIGITS {
      UnitsConcat(digits, Zeros(exponent));
    } else if 0 < point <= MAX_PLAIN_DIGITS && exponent < 0 {
      UnitsConcat(digits[..point], [DOT]);
      UnitsConcat(digits[..point] + [DOT], digits[point..]);
    } else if MIN_PLAIN_POINT < point <= 0 {
      UnitsConcat([ZERO, DOT], Zeros(-point));
      UnitsConcat([ZERO, DOT] + Zeros(-point), digits);
    } else {
      ExponentUnits(point - 1);
      var fraction := if |digits| == 1 then [] else [DOT] + digits[1..];
      UnitsConcat(digits[..1], fraction);
      UnitsConcat(digits[..1] + fraction, PrintExponent(point - 1));
    }
  }

  /** A number is printed with digits, signs, a point and an "e". */
  lemma {:induction false} NumberUnits(d: Decimal)
    ensures OfNumberUnits(PrintNumber(d))
  {
    hide PrintUnsigned;
    UnsignedUnits(Abs(d.mantissa), d.exponent);
    UnitsConcat(if d.mantissa < 0 then [MINUS] else [], PrintUnsigned(Abs(d.mantissa), d.exponent));
  }

  // ----- what the text is

  ghost function Ten(k: int): real
    decreases Abs(k)
  {
    if k == 0 then 1.0 else if k > 0 then 10.0 * Ten(k - 1) else Ten(k + 1) / 10.0
  }

  ghost function Value(d: Decimal): real { d.mantissa as real * Ten(d.exponent) }

  ghost function Magnitude(d: Decimal): real { if Value(d) < 0.0 then -Value(d) else Value(d) }

  lemma {:induction false} TenNext(k: int)
    ensures Ten(k + 1) == 10.0 * Ten(k) && Ten(k) > 0.0
    decreases Abs(k)
  {
    if k > 0 {
      TenNext(k - 1);
    } else if k < 0 {
      TenNext(k + 1);
    }
  }

  lemma {:induction false} TenAdds(a: int, b: int)
    ensures Ten(a + b) == Ten(a) * Ten(b)
    decreases Abs(b)
  {
    if b > 0 {
      TenAdds(a, b - 1);
      TenNext(a + b - 1);
      TenNext(b - 1);
      TenTimes(Ten(a), Ten(b - 1));
    } else if b < 0 {
      TenAdds(a, b + 1);
      TenNext(a + b);
      TenNext(b);
      TenTimes(Ten(a), Ten(b));
    }
  }

  lemma {:induction false} TenTimes(x: real, y: real)
    ensures 10.0 * (x * y) == x * (10.0 * y)
  {
  }

  lemma {:induction false} TenRises(a: int, b: int)
    requires a <= b
    ensures Ten(a) <= Ten(b)
    decreases b - a
  {
    if a < b {
      TenRises(a, b - 1);
      TenNext(b - 1);
    }
  }

  lemma {:induction false} TenIsPower(n: nat)
    ensures Ten(n) == PowerOfTen(n) as real
  {
    if n > 0 {
      TenIsPower(n - 1);
    }
  }

  /** As many digits as it takes. */
  lemma {:induction false} DigitsReach(n: nat)
    requires n > 0
    ensures PowerOfTen(|Digits(n)| - 1) <= n < PowerOfTen(|Digits(n)|)
  {
    if n >= 10 {
      DigitsReach(n / 10);
    } else {
      assert PowerOfTen(1) == 10 * PowerOfTen(0);
    }
  }

  /** Where the point is tells how large a number is. */
  lemma {:induction false} PointTells(d: Decimal)
    requires d.mantissa != 0
    ensures var point := |Digits(Abs(d.mantissa))| + d.exponent; Ten(point - 1) <= Magnitude(d) < Ten(point)
  {
    hide Digits;
    hide Ten;
    hide PowerOfTen;
    hide Magnitude;
    var n := Abs(d.mantissa);
    var length := |Digits(n)|;
    DigitsReach(n);
    TenIsPower(length - 1);
    TenIsPower(length);
    TenNext(d.exponent);
    TenAdds(length - 1, d.exponent);
    TenAdds(length, d.exponent);
    MagnitudeOf(d);
    Scaled3(Ten(length - 1), n as real, Ten(length), Ten(d.exponent));
  }

  lemma {:induction false} MagnitudeOf(d: Decimal)
    ensures Magnitude(d) == Abs(d.mantissa) as real * Ten(d.exponent)
    ensures Value(d) < 0.0 <==> d.mantissa < 0
  {
    hide Ten;
    TenNext(d.exponent);
    SignOfProduct(d.mantissa as real, Ten(d.exponent));
    assert Abs(d.mantissa) as real == if d.mantissa < 0 then -(d.mantissa as real) else d.mantissa as real;
  }

  lemma {:induction false} SignOfProduct(x: real, t: real)
    requires t > 0.0
    ensures x * t < 0.0 <==> x < 0.0
    ensures (-x) * t == -(x * t)
  {
  }

  lemma {:induction false} Scaled3(a: real, b: real, c: real, t: real)
    requires a <= b < c && t > 0.0
    ensures a * t <= b * t < c * t
  {
  }

  lemma {:induction false} TenLiterals()
    ensures Ten(21) == 1_000_000_000_000_000_000_000.0 && Ten(-6) == 0.000_001
  {
    assert Ten(7) == 10_000_000.0;
    assert Ten(14) == 100_000_000_000_000.0 by {
      TenAdds(7, 7);
    }
    TenAdds(14, 7);
  }

  /** Large from 10 to the 21st on, small below 10 to the minus sixth. */
  ghost predicate IsFar(d: Decimal) {
    Magnitude(d) >= 1_000_000_000_000_000_000_000.0 || 0.0 < Magnitude(d) < 0.000_001
  }

  lemma {:induction false} FarExactly(d: Decimal)
    ensures d.mantissa == 0 ==> Magnitude(d) == 0.0
    ensures d.mantissa != 0 ==>
              var point := |Digits(Abs(d.mantissa))| + d.exponent;
              IsFar(d) <==> point > 21 || point <= -6
  {
    hide Ten;
    hide Digits;
    hide Magnitude;
    MagnitudeOf(d);
    if d.mantissa != 0 {
      var point := |Digits(Abs(d.mantissa))| + d.exponent;
      TenLiterals();
      PointTells(d);
      TenNext(point - 1);
      if point > 21 {
        TenRises(21, point - 1);
      } else {
        TenRises(point, 21);
      }
      if point <= -6 {
        TenRises(point, -6);
      } else {
        TenRises(-6, point - 1);
      }
    }
  }

  /** A number is whole if some integer is that number. */
  ghost predicate IsWhole(d: Decimal) { exists n :: d == Whole(n) }

  lemma {:induction false} WholeExactly(d: Decimal)
    ensures IsWhole(d) <==> d.exponent >= 0
    ensures d.exponent >= 0 ==> d == Whole(d.mantissa * PowerOfTen(d.exponent))
  {
    hide Shortest;
    hide PowerOfTen;
    if d.exponent >= 0 {
      ShortestIsItself(d, d.exponent);
      assert d == Whole(d.mantissa * PowerOfTen(d.exponent));
    }
    forall n ensures Whole(n).exponent >= 0 {
      ShortestKeepsValue(n, 0);
    }
  }

  ghost function Sign(d: Decimal): Text { if d.mantissa < 0 then Literal("-") else [] }

  /** Digits without a needless zero in front. */
  ghost predicate IsPlainWhole(t: Text) { t != [] && AllDigits(t) && (t[0] == 48 ==> |t| == 1) }

  lemma {:induction false} DigitsOfTen(m: nat)
    requires m > 0
    ensures Digits(10 * m) == Digits(m) + [ZERO]
  {
  }

  /** Digits, and then as many zeros. */
  lemma {:induction false} DigitsOfScaled(n: nat, zeros: nat)
    requires n > 0
    ensures Digits(n * PowerOfTen(zeros)) == Digits(n) + Zeros(zeros)
  {
    hide Digits;
    if zeros > 0 {
      var m := n * PowerOfTen(zeros - 1);
      DigitsOfScaled(n, zeros - 1);
      PowerIsPositive(zeros - 1);
      ScaledNext(n, PowerOfTen(zeros - 1));
      DigitsOfTen(m);
      assert Zeros(zeros) == Zeros(zeros - 1) + [ZERO];
    } else {
      assert Zeros(0) == [] && n * PowerOfTen(0) == n;
    }
  }

  lemma {:induction false} ScaledNext(n: nat, p: nat)
    requires n > 0 && p > 0
    ensures n * (10 * p) == 10 * (n * p) && n * p > 0
  {
  }

  lemma {:induction false} WholeMagnitude(n: int)
    ensures var d := Whole(n);
            && d.exponent >= 0 && (d.mantissa < 0 <==> n < 0) && (d.mantissa == 0 <==> n == 0)
            && Abs(n) == Abs(d.mantissa) * PowerOfTen(d.exponent) && Magnitude(d) == Abs(n) as real
  {
    hide Shortest;
    hide PowerOfTen;
    hide Magnitude;
    hide Ten;
    var d := Whole(n);
    ShortestKeepsValue(n, 0);
    OnePower();
    PowerIsPositive(d.exponent);
    SameSign(d.mantissa, PowerOfTen(d.exponent));
    MagnitudeOf(d);
    TenIsPower(d.exponent);
    RealProduct(Abs(d.mantissa), PowerOfTen(d.exponent));
  }

  lemma {:induction false} OnePower()
    ensures PowerOfTen(0) == 1
  {
  }

  lemma {:induction false} RealProduct(a: int, b: int)
    ensures a as real * b as real == (a * b) as real
  {
  }

  /** A whole number that is not far is its digits. */
  lemma {:induction false} WholeText(n: int)
    requires Abs(n) < 1_000_000_000_000_000_000_000
    ensures PrintNumber(Whole(n)) == (if n < 0 then Literal("-") else []) + Digits(Abs(n))
    ensures IsPlainWhole(Digits(Abs(n))) && ReadOnto(Digits(Abs(n)), 0) == Abs(n)
  {
    hide Digits;
    hide PrintUnsigned;
    hide Shortest;
    hide Whole;
    hide PowerOfTen;
    hide Magnitude;
    var d := Whole(n);
    ReadDigits(Abs(n));
    ZeroDigits(Abs(n));
    WholeMagnitude(n);
    PlainText(d);
    if n != 0 {
      DigitsOfScaled(Abs(d.mantissa), d.exponent);
    }
  }

  lemma {:induction false} ZeroDigits(n: nat)
    ensures n == 0 ==> Digits(n) == [48]
  {
  }

  lemma {:induction false} SameSign(m: int, p: nat)
    requires p > 0
    ensures Abs(m * p) == Abs(m) * p && (m < 0 <==> m * p < 0) && (m == 0 <==> m * p == 0)
  {
  }

  lemma {:induction false} PlainText(d: Decimal)
    requires d.exponent >= 0 && !IsFar(d)
    ensures PrintNumber(d) == Sign(d) + if d.mantissa == 0 then [48] else Digits(Abs(d.mantissa)) + Zeros(d.exponent)
  {
    hide Digits;
    FarExactly(d);
  }

  /** The parts of a number with a point: digits without a needless zero on either side. */
  ghost predicate ArePlainParts(d: Decimal, before: Text, after: Text) {
    && IsPlainWhole(before) && AllDigits(after) && 0 < |after| == -d.exponent && after[|after| - 1] != 48
    && ReadOnto(after, ReadOnto(before, 0)) == Abs(d.mantissa)
  }

  /** A number that is neither far nor whole is digits, a point and digits that do not end with a zero. */
  lemma {:induction false} FractionText(d: Decimal) returns (before: Text, after: Text)
    requires !IsFar(d) && !IsWhole(d)
    ensures PrintNumber(d) == Sign(d) + before + Literal(".") + after && ArePlainParts(d, before, after)
  {
    hide Digits;
    hide IsFar;
    hide IsWhole;
    hide ArePlainParts;
    var digits := Digits(Abs(d.mantissa));
    var point := |digits| + d.exponent;
    WholeExactly(d);
    FarExactly(d);
    ExponentSigns();
    if point > 0 {
      before, after := digits[..point], digits[point..];
      PartsInside(d, point);
    } else {
      before, after := [48], Zeros(-point) + digits;
      PartsInFront(d, -point);
    }
  }

  lemma {:induction false} PartsInside(d: Decimal, point: nat)
    requires d.mantissa != 0 && 0 < point == |Digits(Abs(d.mantissa))| + d.exponent && d.exponent < 0
    ensures ArePlainParts(d, Digits(Abs(d.mantissa))[..point], Digits(Abs(d.mantissa))[point..])
  {
    hide Digits;
    ReadDigits(Abs(d.mantissa));
    LastDigit(Abs(d.mantissa));
    ReadParts(Digits(Abs(d.mantissa)), point);
  }

  lemma {:induction false} PartsInFront(d: Decimal, zeros: nat)
    requires d.mantissa != 0 && zeros == -(|Digits(Abs(d.mantissa))| + d.exponent)
    ensures ArePlainParts(d, [48], Zeros(zeros) + Digits(Abs(d.mantissa)))
  {
    hide Digits;
    var digits := Digits(Abs(d.mantissa));
    ReadDigits(Abs(d.mantissa));
    LastDigit(Abs(d.mantissa));
    ReadZeros(zeros, 0);
    ReadConcat(Zeros(zeros), digits, 0);
    assert [48][1..] == [] && ReadOnto([48], 0) == 0;
  }

  lemma {:induction false} LastDigit(n: nat)
    ensures Digits(n)[|Digits(n)| - 1] == 48 + n % 10
  {
  }

  /** A number that is far is its digits, with a point after the first, and the power of ten of that digit. */
  lemma {:induction false} FarText(d: Decimal) returns (digits: Text, e: int)
    requires IsFar(d)
    ensures IsPlainWhole(digits) && ReadOnto(digits, 0) == Abs(d.mantissa) > 0
    ensures Ten(e) <= Magnitude(d) < Ten(e + 1)
    ensures IsPlainWhole(Digits(Abs(e))) && ReadOnto(Digits(Abs(e)), 0) == Abs(e)
    ensures PrintNumber(d) ==
            Sign(d) + digits[..1] + (if |digits| == 1 then [] else Literal(".") + digits[1..])
            + (if e < 0 then Literal("e-") else Literal("e+")) + Digits(Abs(e))
  {
    hide Digits;
    hide Ten;
    hide Magnitude;
    hide IsFar;
    hide PrintNumber;
    digits := Digits(Abs(d.mantissa));
    e := |digits| + d.exponent - 1;
    FarExactly(d);
    if d.mantissa == 0 {
      NothingIsNear(d);
    }
    PointTells(d);
    ReadDigits(Abs(d.mantissa));
    ReadDigits(Abs(e));
    ZeroDigits(Abs(e));
    FarUnsigned(d);
  }

  lemma {:induction false} NothingIsNear(d: Decimal)
    requires Magnitude(d) == 0.0
    ensures !IsFar(d)
  {
  }

  lemma {:induction false} FarUnsigned(d: Decimal)
    requires IsFar(d) && d.mantissa != 0
    ensures var digits := Digits(Abs(d.mantissa));
            var e := |digits| + d.exponent - 1;
            PrintNumber(d) ==
            Sign(d) + digits[..1] + (if |digits| == 1 then [] else Literal(".") + digits[1..])
            + (if e < 0 then Literal("e-") else Literal("e+")) + Digits(Abs(e))
  {
    hide Digits;
    hide IsFar;
    hide Literal;
    FarExactly(d);
    ExponentSigns();
    DashIsMinus();
    var digits := Digits(Abs(d.mantissa));
    var e := |digits| + d.exponent - 1;
    var fraction := if |digits| == 1 then [] else [DOT] + digits[1..];
    assert PrintUnsigned(Abs(d.mantissa), d.exponent) == digits[..1] + fraction + PrintExponent(e);
    assert PrintExponent(e) == (if e < 0 then Literal("e-") else Literal("e+")) + Digits(Abs(e));
  }

  lemma {:induction false} DashIsMinus()
    ensures Literal("-") == [MINUS]
  {
  }

  lemma {:induction false} ExponentSigns()
    ensures Literal("e-") == [SMALL_E, MINUS] && Literal("e+") == [SMALL_E, PLUS] && Literal(".") == [DOT]
  {
  }

  /** An "e" is written exactly if a number is far, and otherwise a point exactly if it is not whole. */
  lemma {:induction false} TextTells(d: Decimal)
    ensures 'e' as int in PrintNumber(d) <==> IsFar(d)
    ensures !IsFar(d) ==> ('.' as int in PrintNumber(d) <==> !IsWhole(d))
    ensures '-' as int == PrintNumber(d)[0] <==> Value(d) < 0.0
  {
    hide IsFar;
    hide IsWhole;
    hide PrintNumber;
    SignTells(d);
    if IsFar(d) {
      var digits, e := FarText(d);
      ExponentSigns();
      assert (if e < 0 then Literal("e-") else Literal("e+"))[0] == 101;
    } else if IsWhole(d) {
      WholeExactly(d);
      FarExactly(d);
      PlainText(d);
      PlainUnits(d);
    } else {
      var before, after := FractionText(d);
      ExponentSigns();
      OnlyDigits(before);
      OnlyDigits(after);
    }
  }

  lemma {:induction false} SignTells(d: Decimal)
    ensures PrintNumber(d) != [] && ('-' as int == PrintNumber(d)[0] <==> Value(d) < 0.0)
    ensures 'e' as int !in Sign(d) && '.' as int !in Sign(d)
  {
    hide PrintUnsigned;
    hide Value;
    NumberStarts(d);
    MagnitudeOf(d);
  }

  lemma {:induction false} OnlyDigits(t: Text)
    requires AllDigits(t)
    ensures 'e' as int !in t && '.' as int !in t
  {
  }

  lemma {:induction false} PlainUnits(d: Decimal)
    requires d.exponent >= 0
    ensures var t := if d.mantissa == 0 then [48] else Digits(Abs(d.mantissa)) + Zeros(d.exponent);
            'e' as int !in t && '.' as int !in t
  {
    hide Digits;
    ReadDigits(Abs(d.mantissa));
    ReadZeros(d.exponent, 0);
    OnlyDigits(Digits(Abs(d.mantissa)));
    OnlyDigits(Zeros(d.exponent));
  }
}
