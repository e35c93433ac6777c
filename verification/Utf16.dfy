/** Well-formed UTF-16, section 2 of RFC 2781, and the scan that rejects unpaired surrogates. */
module Utf16 {
  import opened Texts

  type Scalar = u: int | 0 <= u < 0x11_0000 && !(0xD800 <= u < 0xE000)

  /** One or two code units, section 2.1 of RFC 2781. */
  function EncodeScalar(u: Scalar): Text {
    if u < 0x1_0000 then [u]
    else [0xD800 + (u - 0x1_0000) / 1024, 0xDC00 + (u - 0x1_0000) % 1024]
  }

  function Encode(us: seq<Scalar>): Text {
    if us == [] then [] else EncodeScalar(us[0]) + Encode(us[1..])
  }

  /** Every surrogate is half of a pair, high half first. */
  predicate Paired(s: Text) {
    if s == [] then true
    else if IsHigh(s[0]) then |s| > 1 && IsLow(s[1]) && Paired(s[2..])
    else !IsLow(s[0]) && Paired(s[1..])
  }

  /** The scan of the original: a single pass that skips the second half of each pair. */
  method AssertUnicodeScalarString(value: Text) returns (ok: bool)
    ensures ok <==> exists us :: Encode(us) == value
  {
    var index := 0;
    PairedIsWellFormed(value);
    while index < |value|
      invariant 0 <= index <= |value|
      invariant Paired(value) <==> Paired(value[index..])
    {
      var codeUnit := value[index];
      if IsHigh(codeUnit) {
        if !(index + 1 < |value| && IsLow(value[index + 1])) {
          return false;
        }
        index := index + 1;
      } else if IsLow(codeUnit) {
        return false;
      }
      index := index + 1;
    }
    return true;
  }

  lemma {:induction false} EncodedIsPaired(us: seq<Scalar>)
    ensures Paired(Encode(us))
  {
    if us != [] {
      EncodedIsPaired(us[1..]);
      assert Encode(us)[|EncodeScalar(us[0])|..] == Encode(us[1..]);
    }
  }

  lemma {:induction false} DecodePaired(s: Text) returns (us: seq<Scalar>)
    requires Paired(s)
    ensures Encode(us) == s
  {
    if s == [] {
      us := [];
    } else {
      var n := if IsHigh(s[0]) then 2 else 1;
      var rest := DecodePaired(s[n..]);
      var u: Scalar := if n == 1 then s[0] else 0x1_0000 + 1024 * (s[0] as int - 0xD800) + (s[1] as int - 0xDC00);
      us := [u] + rest;
      assert us[1..] == rest;
      assert EncodeScalar(u) == s[..n];
      assert s == s[..n] + s[n..];
    }
  }

  /** The scan accepts exactly the encodings of scalar values. */
  lemma {:induction false} PairedIsWellFormed(s: Text)
    ensures Paired(s) <==> exists us :: Encode(us) == s
  {
    if Paired(s) {
      var us := DecodePaired(s);
    }
    forall us | Encode(us) == s ensures Paired(s) {
      EncodedIsPaired(us);
    }
  }

  lemma {:induction false} PairedConcat(a: Text, b: Text)
    requires Paired(a) && Paired(b)
    ensures Paired(a + b)
  {
    if a == [] {
      assert a + b == b;
    } else {
      var n := if IsHigh(a[0]) then 2 else 1;
      PairedConcat(a[n..], b);
      assert (a + b)[n..] == a[n..] + b;
    }
  }

  lemma {:induction false} PlainIsPaired(s: Text)
    requires forall i :: 0 <= i < |s| ==> !IsSurrogate(s[i])
    ensures Paired(s)
  {
    if s != [] {
      PlainIsPaired(s[1..]);
    }
  }
}
