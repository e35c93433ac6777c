/** The scanner that cuts a JSON object out of the prose around it. */
module Diagnostics {
  import opened Texts
  import opened Wrappers
  import Decimals
  import Json

  datatype Extraction = NoObject | Unbalanced | Malformed | Extracted(value: Json.Value)

  /** The text left over once the depth is back at zero. */
  function Scan(t: Text, depth: int, inStr: bool, esc: bool): (left: Option<Text>)
    ensures left.Some? ==> |left.value| < |t|
  {
    if t == [] then None
    else if esc then Scan(t[1..], depth, inStr, false)
    else if t[0] == BACKSLASH then Scan(t[1..], depth, inStr, true)
    else if t[0] == QUOTE then Scan(t[1..], depth, !inStr, false)
    else if inStr then Scan(t[1..], depth, inStr, false)
    else if t[0] == LBRACE then Scan(t[1..], depth + 1, inStr, false)
    else if t[0] == RBRACE then
      if depth == 1 then Some(t[1..]) else Scan(t[1..], depth - 1, inStr, false)
    else Scan(t[1..], depth, inStr, false)
  }

  function IndexOf(t: Text, c: CodeUnit): (r: Option<nat>)
    ensures r.None? <==> c !in t
    ensures r.Some? ==> r.value < |t| && t[r.value] == c && c !in t[..r.value]
  {
    if t == [] then None
    else if t[0] == c then Some(0)
    else
      match IndexOf(t[1..], c)
      case Some(i) =>
        assert t[..1 + i] == [t[0]] + t[1..][..i];
        Some(1 + i)
      case None => None
  }

  /** What the scanner does, said without its loop. */
  function Extract(candidate: Text): Extraction {
    match IndexOf(candidate, LBRACE)
    case None => NoObject
    case Some(start) =>
      match Scan(candidate[start..], 0, false, false)
      case None => Unbalanced
      case Some(left) => Read(candidate[start..|candidate| - |left|])
  }

  function Read(text: Text): Extraction {
    match Json.Parse(text)
    case Some(v) => Extracted(v)
    case None => Malformed
  }

  lemma {:induction false} ScanStep(candidate: Text, i: nat, depth: int, inStr: bool, esc: bool)
    requires i < |candidate|
    ensures Scan(candidate[i..], depth, inStr, esc) ==
            var more := candidate[i + 1..];
            var ch := candidate[i];
            if esc then Scan(more, depth, inStr, false)
            else if ch == BACKSLASH then Scan(more, depth, inStr, true)
            else if ch == QUOTE then Scan(more, depth, !inStr, false)
            else if inStr then Scan(more, depth, inStr, false)
            else if ch == LBRACE then Scan(more, depth + 1, inStr, false)
            else if ch == RBRACE then
              if depth == 1 then Some(more) else Scan(more, depth - 1, inStr, false)
            else Scan(more, depth, inStr, false)
  {
    assert candidate[i..][1..] == candidate[i + 1..];
  }

  method ExtractJson(candidate: Text) returns (r: Extraction)
    ensures r == Extract(candidate)
  {
    var found := IndexOf(candidate, LBRACE);
    if found.None? {
      return NoObject;
    }
    var start := found.value;
    var depth, inStr, esc := 0, false, false;
    var i := start;
    ghost var total := Scan(candidate[start..], 0, false, false);
    while i < |candidate|
      invariant start <= i <= |candidate|
      invariant total == Scan(candidate[i..], depth, inStr, esc)
    {
      var ch := candidate[i];
      ScanStep(candidate, i, depth, inStr, esc);
      i := i + 1;
      if esc {
        esc := false;
        continue;
      }
      if ch == BACKSLASH {
        esc := true;
        continue;
      }
      if ch == QUOTE {
        inStr := !inStr;
        continue;
      }
      if inStr {
        continue;
      }
      if ch == LBRACE {
        depth := depth + 1;
      } else if ch == RBRACE {
        depth := depth - 1;
        if depth == 0 {
          return Read(candidate[start..i]);
        }
      }
    }
    return Unbalanced;
  }

  // ----- scanning printed text

  predicate IsOrdinary(c: CodeUnit) {
    c != QUOTE && c != BACKSLASH && c != LBRACE && c != RBRACE
  }

  /** Outside a string, the scanner gets past `t` with the depth it had before. */
  ghost predicate Passes(t: Text, rest: Text, depth: int) {
    Scan(t + rest, depth, false, false) == Scan(rest, depth, false, false)
  }

  /** Inside a string, the scanner gets past `t` and is still inside it. */
  ghost predicate StaysInside(t: Text, rest: Text, depth: int) {
    Scan(t + rest, depth, true, false) == Scan(rest, depth, true, false)
  }

  lemma {:induction false} PassesBoth(a: Text, b: Text, rest: Text, depth: int)
    requires Passes(a, b + rest, depth) && Passes(b, rest, depth)
    ensures Passes(a + b, rest, depth)
  {
    assert a + b + rest == a + (b + rest);
  }

  lemma {:induction false} StaysInsideBoth(a: Text, b: Text, rest: Text, depth: int)
    requires StaysInside(a, b + rest, depth) && StaysInside(b, rest, depth)
    ensures StaysInside(a + b, rest, depth)
  {
    assert a + b + rest == a + (b + rest);
  }

  lemma {:induction false} OrdinaryPasses(t: Text, rest: Text, depth: int)
    requires forall i :: 0 <= i < |t| ==> IsOrdinary(t[i])
    ensures Passes(t, rest, depth)
  {
    if t == [] {
      assert t + rest == rest;
    } else {
      assert (t + rest)[1..] == t[1..] + rest;
      OrdinaryPasses(t[1..], rest, depth);
    }
  }

  lemma {:induction false} RawStaysInside(t: Text, rest: Text, depth: int)
    requires QUOTE !in t && BACKSLASH !in t
    ensures StaysInside(t, rest, depth)
  {
    if t == [] {
      assert t + rest == rest;
    } else {
      assert (t + rest)[1..] == t[1..] + rest;
      RawStaysInside(t[1..], rest, depth);
    }
  }

  lemma {:induction false} EscapeStaysInside(c: CodeUnit, rest: Text, depth: int)
    ensures StaysInside([BACKSLASH, c], rest, depth)
  {
    var t := [BACKSLASH, c] + rest;
    assert t[1..] == [c] + rest;
    assert t[1..][1..] == rest;
  }

  lemma {:induction false} QuoteUnitStaysInside(c: CodeUnit, mode: Json.Escaping, rest: Text, depth: int)
    ensures StaysInside(Json.QuoteUnit(c, mode), rest, depth)
  {
    var q := Json.QuoteUnit(c, mode);
    if |q| == 1 {
      RawStaysInside(q, rest, depth);
    } else {
      assert q == [BACKSLASH, q[1]] + q[2..];
      EscapeStaysInside(q[1], q[2..] + rest, depth);
      RawStaysInside(q[2..], rest, depth);
      StaysInsideBoth([BACKSLASH, q[1]], q[2..], rest, depth);
    }
  }

  lemma {:induction false} QuoteBodyStaysInside(s: Text, mode: Json.Escaping, rest: Text, depth: int)
    ensures StaysInside(Json.QuoteBody(s, mode), rest, depth)
  {
    if s == [] {
      RawStaysInside([], rest, depth);
    } else if IsHigh(s[0]) && |s| > 1 && IsLow(s[1]) {
      var more := Json.QuoteBody(s[2..], mode);
      RawStaysInside([s[0], s[1]], more + rest, depth);
      QuoteBodyStaysInside(s[2..], mode, rest, depth);
      StaysInsideBoth([s[0], s[1]], more, rest, depth);
    } else {
      var more := Json.QuoteBody(s[1..], mode);
      QuoteUnitStaysInside(s[0], mode, more + rest, depth);
      QuoteBodyStaysInside(s[1..], mode, rest, depth);
      StaysInsideBoth(Json.QuoteUnit(s[0], mode), more, rest, depth);
    }
  }

  lemma {:induction false} QuotedPasses(s: Text, mode: Json.Escaping, rest: Text, depth: int)
    ensures Passes(Json.Quoted(s, mode), rest, depth)
  {
    var body, close := Json.QuoteBody(s, mode), [QUOTE] + rest;
    assert Json.Quoted(s, mode) + rest == [QUOTE] + (body + close);
    assert ([QUOTE] + (body + close))[1..] == body + close;
    QuoteBodyStaysInside(s, mode, close, depth);
    assert close[1..] == rest;
  }

  lemma {:induction false} BracesPass(body: Text, rest: Text, depth: int)
    requires depth >= 1 && Passes(body, [RBRACE] + rest, depth + 1)
    ensures Passes([LBRACE] + body + [RBRACE], rest, depth)
  {
    var close := [RBRACE] + rest;
    assert [LBRACE] + body + [RBRACE] + rest == [LBRACE] + (body + close);
    assert ([LBRACE] + (body + close))[1..] == body + close;
    assert close[1..] == rest;
  }

  /** A value inside an object leaves the scanner at the depth it was at, and outside a string. */
  lemma {:induction false} ValuePasses(v: Json.Value, mode: Json.Escaping, rest: Text, depth: int)
    requires depth >= 1
    ensures Passes(Json.Print(v, mode), rest, depth)
    decreases v, 0
  {
    match v
    case Null => OrdinaryPasses(Json.NULL, rest, depth);
    case Bool(b) => OrdinaryPasses(Json.Print(v, mode), rest, depth);
    case Number(n) =>
      Decimals.NumberUnits(n);
      OrdinaryPasses(Decimals.PrintNumber(n), rest, depth);
    case String(s) => QuotedPasses(s, mode, rest, depth);
    case Array(items) =>
      var body := Json.PrintItems(items, mode);
      OrdinaryPasses([LBRACKET], body + ([RBRACKET] + rest), depth);
      OrdinaryPasses([RBRACKET], rest, depth);
      ItemsPass(items, mode, [RBRACKET] + rest, depth);
      PassesBoth([LBRACKET], body, [RBRACKET] + rest, depth);
      PassesBoth([LBRACKET] + body, [RBRACKET], rest, depth);
    case Object(members) =>
      MembersPass(members, mode, [RBRACE] + rest, depth + 1);
      BracesPass(Json.PrintMembers(members, mode), rest, depth);
  }

  lemma {:induction false} ItemsPass(items: seq<Json.Value>, mode: Json.Escaping, rest: Text, depth: int)
    requires depth >= 1
    ensures Passes(Json.PrintItems(items, mode), rest, depth)
    decreases items, 0
  {
    if items == [] {
      OrdinaryPasses([], rest, depth);
    } else if |items| == 1 {
      ValuePasses(items[0], mode, rest, depth);
    } else {
      var first, more := Json.Print(items[0], mode), Json.PrintItems(items[1..], mode);
      ValuePasses(items[0], mode, [COMMA] + (more + rest), depth);
      OrdinaryPasses([COMMA], more + rest, depth);
      ItemsPass(items[1..], mode, rest, depth);
      PassesBoth(first, [COMMA], more + rest, depth);
      PassesBoth(first + [COMMA], more, rest, depth);
    }
  }

  lemma {:induction false} MemberPasses(m: Json.Member, mode: Json.Escaping, rest: Text, depth: int)
    requires depth >= 1
    ensures Passes(Json.PrintMember(m, mode), rest, depth)
    decreases m, 0
  {
    var key, value := Json.Quoted(m.key, mode), Json.Print(m.value, mode);
    QuotedPasses(m.key, mode, [COLON] + (value + rest), depth);
    OrdinaryPasses([COLON], value + rest, depth);
    ValuePasses(m.value, mode, rest, depth);
    PassesBoth(key, [COLON], value + rest, depth);
    PassesBoth(key + [COLON], value, rest, depth);
  }

  lemma {:induction false} MembersPass(members: seq<Json.Member>, mode: Json.Escaping, rest: Text, depth: int)
    requires depth >= 1
    ensures Passes(Json.PrintMembers(members, mode), rest, depth)
    decreases members, 0
  {
    if members == [] {
      OrdinaryPasses([], rest, depth);
    } else if |members| == 1 {
      MemberPasses(members[0], mode, rest, depth);
    } else {
      var first, more := Json.PrintMember(members[0], mode), Json.PrintMembers(members[1..], mode);
      MemberPasses(members[0], mode, [COMMA] + (more + rest), depth);
      OrdinaryPasses([COMMA], more + rest, depth);
      MembersPass(members[1..], mode, rest, depth);
      PassesBoth(first, [COMMA], more + rest, depth);
      PassesBoth(first + [COMMA], more, rest, depth);
    }
  }

  /** From depth zero the scanner stops at the last character of an object, and no earlier. */
  lemma {:induction false} ScanObject(v: Json.Value, mode: Json.Escaping, rest: Text)
    requires v.Object?
    ensures Scan(Json.Print(v, mode) + rest, 0, false, false) == Some(rest)
  {
    var body, close := Json.PrintMembers(v.members, mode), [RBRACE] + rest;
    MembersPass(v.members, mode, close, 1);
    assert Json.Print(v, mode) + rest == [LBRACE] + (body + close);
    assert ([LBRACE] + (body + close))[1..] == body + close;
    assert close[1..] == rest;
  }

  lemma {:induction false} FirstIndex(t: Text, c: CodeUnit, i: nat)
    requires i < |t| && t[i] == c && c !in t[..i]
    ensures IndexOf(t, c) == Some(i)
  {
    if i > 0 {
      assert t[..i][0] == t[0];
      assert t[..i] == [t[0]] + t[1..][..i - 1];
      FirstIndex(t[1..], c, i - 1);
    }
  }

  /** An object after prose without an opening brace is found and read exactly, whatever follows it. */
  lemma {:induction false} ExtractIsExact(before: Text, v: Json.Value, mode: Json.Escaping, after: Text)
    requires v.Object? && LBRACE !in before
    ensures Extract(before + Json.Print(v, mode) + after) == Extracted(v)
  {
    var text := Json.Print(v, mode);
    var candidate := before + text + after;
    assert candidate[..|before|] == before;
    FirstIndex(candidate, LBRACE, |before|);
    assert candidate[|before|..] == text + after;
    ScanObject(v, mode, after);
    assert candidate[|before|..|before| + |text|] == text;
    Json.ParseOfPrint(v, mode);
  }

  // ----- what is not extracted

  /** What stops the scanner in a text stops it there in a longer one. */
  lemma {:induction false} ScanGoesOn(t: Text, more: Text, depth: int, inStr: bool, esc: bool)
    requires Scan(t, depth, inStr, esc).Some?
    ensures Scan(t + more, depth, inStr, esc) == Some(Scan(t, depth, inStr, esc).value + more)
  {
    var all := t + more;
    assert all[0] == t[0] && all[1..] == t[1..] + more;
    if esc {
      ScanGoesOn(t[1..], more, depth, inStr, false);
    } else if t[0] == BACKSLASH {
      ScanGoesOn(t[1..], more, depth, inStr, true);
    } else if t[0] == QUOTE {
      ScanGoesOn(t[1..], more, depth, !inStr, false);
    } else if inStr {
      ScanGoesOn(t[1..], more, depth, inStr, false);
    } else if t[0] == LBRACE {
      ScanGoesOn(t[1..], more, depth + 1, inStr, false);
    } else if t[0] != RBRACE {
      ScanGoesOn(t[1..], more, depth, inStr, false);
    } else if depth != 1 {
      ScanGoesOn(t[1..], more, depth - 1, inStr, false);
    }
  }

  /** Nothing is found in a text without an opening brace, and only there. */
  lemma {:induction false} NoObjectExactly(candidate: Text)
    ensures Extract(candidate) == NoObject <==> '{' as int !in candidate
  {
  }

  /** An object that is cut off anywhere is unbalanced. */
  lemma {:induction false} CutIsUnbalanced(before: Text, v: Json.Value, mode: Json.Escaping, n: nat)
    requires v.Object? && LBRACE !in before && 0 < n < |Json.Print(v, mode)|
    ensures Extract(before + Json.Print(v, mode)[..n]) == Unbalanced
  {
    var text := Json.Print(v, mode);
    var part, rest := text[..n], text[n..];
    var candidate := before + part;
    assert candidate[..|before|] == before && candidate[|before|..] == part && part[0] == LBRACE;
    FirstIndex(candidate, LBRACE, |before|);
    assert part + rest == text && text + [] == text && rest != [];
    ScanObject(v, mode, []);
    if Scan(part, 0, false, false).Some? {
      ScanGoesOn(part, rest, 0, false, false);
    }
  }
}
