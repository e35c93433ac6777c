/** UTF-16 text, which the strings of the original are: sequences of 16-bit code units. And bytes. */
module Texts {

  type CodeUnit = n: int | 0 <= n < 0x1_0000

  type Text = seq<CodeUnit>

  type Byte = n: int | 0 <= n < 256

  type Bytes = seq<Byte>

  const QUOTE: CodeUnit := 34
  const AMPERSAND: CodeUnit := 38
  const APOSTROPHE: CodeUnit := 39
  const COMMA: CodeUnit := 44
  const MINUS: CodeUnit := 45
  const DOT: CodeUnit := 46
  const SLASH: CodeUnit := 47
  const ZERO: CodeUnit := 48
  const COLON: CodeUnit := 58
  const LESS: CodeUnit := 60
  const GREATER: CodeUnit := 62
  const LBRACKET: CodeUnit := 91
  const BACKSLASH: CodeUnit := 92
  const RBRACKET: CodeUnit := 93
  const LBRACE: CodeUnit := 123
  const RBRACE: CodeUnit := 125

  /** The text of a literal, which is written with characters of the basic plane. */
  function Literal(s: string): (t: Text)
    ensures |t| == |s|
  {
    seq(|s|, i requires 0 <= i < |s| => s[i] as int % 0x1_0000)
  }

  /** The named units are the characters they are named after. */
  lemma {:induction false} UnitsAreNamed()
    ensures Literal("\"&',-./0:") == [QUOTE, AMPERSAND, APOSTROPHE, COMMA, MINUS, DOT, SLASH, ZERO, COLON]
    ensures Literal("<>[\\]{}") == [LESS, GREATER, LBRACKET, BACKSLASH, RBRACKET, LBRACE, RBRACE]
  {
  }

  predicate IsHigh(c: CodeUnit) { 0xD800 <= c <= 0xDBFF }

  predicate IsLow(c: CodeUnit) { 0xDC00 <= c <= 0xDFFF }

  predicate IsSurrogate(c: CodeUnit) { 0xD800 <= c <= 0xDFFF }

  /** The default order of `Array.prototype.sort` on strings: code unit by code unit, prefixes first. */
  predicate Before(a: Text, b: Text) {
    if b == [] then false
    else if a == [] then true
    else if a[0] != b[0] then a[0] < b[0]
    else Before(a[1..], b[1..])
  }

  /** Up to here two texts are the same, and then the first one ends or has the smaller unit. */
  ghost predicate FirstDiffers(a: Text, b: Text, k: nat) {
    k <= |a| && k < |b| && a[..k] == b[..k] && (k == |a| || a[k] < b[k])
  }

  lemma {:induction false} BeforeExactly(a: Text, b: Text)
    ensures Before(a, b) <==> exists k: nat :: FirstDiffers(a, b, k)
  {
    if b != [] && a != [] && a[0] == b[0] {
      BeforeExactly(a[1..], b[1..]);
      assert a == [a[0]] + a[1..] && b == [b[0]] + b[1..];
      if k: nat :| FirstDiffers(a[1..], b[1..], k) {
        assert a[..k + 1] == [a[0]] + a[1..][..k] && b[..k + 1] == [b[0]] + b[1..][..k];
        assert FirstDiffers(a, b, k + 1);
      }
      if k: nat :| FirstDiffers(a, b, k) {
        assert a[1..][..k - 1] == a[..k][1..] && b[1..][..k - 1] == b[..k][1..];
        assert FirstDiffers(a[1..], b[1..], k - 1);
      }
    } else {
      assert Before(a, b) ==> FirstDiffers(a, b, 0);
      if k: nat :| FirstDiffers(a, b, k) {
        SameStart(a, b, k);
      }
    }
  }

  lemma {:induction false} SameStart(a: Text, b: Text, k: nat)
    requires FirstDiffers(a, b, k)
    ensures k > 0 ==> a != [] && b != [] && a[0] == b[0]
  {
    if k > 0 {
      assert a[0] == a[..k][0] && b[0] == b[..k][0];
    }
  }

  lemma {:induction false} BeforeTotal(a: Text, b: Text)
    ensures Before(a, b) || Before(b, a) || a == b
    ensures !(Before(a, b) && Before(b, a))
    ensures !Before(a, a)
  {
    if a != [] {
      BeforeTotal(a[1..], a[1..]);
    }
    if a != [] && b != [] && a[0] == b[0] {
      BeforeTotal(a[1..], b[1..]);
      assert a == [a[0]] + a[1..] && b == [b[0]] + b[1..];
    }
  }

  lemma {:induction false} BeforeTransitive(a: Text, b: Text, c: Text)
    requires Before(a, b) && Before(b, c)
    ensures Before(a, c)
  {
    if a != [] && a[0] == b[0] == c[0] {
      BeforeTransitive(a[1..], b[1..], c[1..]);
    }
  }
}
