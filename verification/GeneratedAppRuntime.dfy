/** Data embedded in a generated HTML page: JSON in a script element, and text between tags. */
module GeneratedAppRuntime {
  import opened Texts
  import opened Wrappers
  import Decimals
  import Json

  // ----- JSON in a script element

  function EscapeMarkup(t: Text): Text {
    if t == [] then []
    else (if Json.IsMarkup(t[0]) then Json.UnicodeEscape(t[0]) else [t[0]]) + EscapeMarkup(t[1..])
  }

  /** `JSON.stringify`, then a replacement of every `<`, `>` and `&` in the text. */
  function SafeJson(v: Json.Value): Text {
    EscapeMarkup(Json.Print(v, Json.Standard))
  }

  predicate NoMarkup(t: Text) { forall i :: 0 <= i < |t| ==> !Json.IsMarkup(t[i]) }

  lemma {:induction false} EscapeConcat(a: Text, b: Text)
    ensures EscapeMarkup(a + b) == EscapeMarkup(a) + EscapeMarkup(b)
  {
    if a == [] {
      assert a + b == b;
    } else {
      assert (a + b)[1..] == a[1..] + b;
      EscapeConcat(a[1..], b);
    }
  }

  lemma {:induction false} EscapeConcat3(a: Text, b: Text, c: Text)
    ensures EscapeMarkup(a + b + c) == EscapeMarkup(a) + EscapeMarkup(b) + EscapeMarkup(c)
  {
    EscapeConcat(a + b, c);
    EscapeConcat(a, b);
  }

  lemma {:induction false} EscapeNothing(t: Text)
    requires NoMarkup(t)
    ensures EscapeMarkup(t) == t
  {
    if t != [] {
      EscapeNothing(t[1..]);
    }
  }

  lemma {:induction false} EscapedHasNoMarkup(t: Text)
    ensures NoMarkup(EscapeMarkup(t))
  {
    if t != [] {
      EscapedHasNoMarkup(t[1..]);
    }
  }

  lemma {:induction false} EscapeQuoteUnit(c: CodeUnit)
    ensures EscapeMarkup(Json.QuoteUnit(c, Json.Standard)) == Json.QuoteUnit(c, Json.HtmlSafe)
  {
    if Json.IsMarkup(c) {
      assert EscapeMarkup([c]) == Json.UnicodeEscape(c) + EscapeMarkup([]);
    } else {
      EscapeNothing(Json.QuoteUnit(c, Json.Standard));
    }
  }

  lemma {:induction false} EscapeQuoteBody(s: Text)
    ensures EscapeMarkup(Json.QuoteBody(s, Json.Standard)) == Json.QuoteBody(s, Json.HtmlSafe)
  {
    if s == [] {
    } else if IsHigh(s[0]) && |s| > 1 && IsLow(s[1]) {
      EscapeQuoteBody(s[2..]);
      EscapeNothing([s[0], s[1]]);
      EscapeConcat([s[0], s[1]], Json.QuoteBody(s[2..], Json.Standard));
    } else {
      EscapeQuoteBody(s[1..]);
      EscapeQuoteUnit(s[0]);
      EscapeConcat(Json.QuoteUnit(s[0], Json.Standard), Json.QuoteBody(s[1..], Json.Standard));
    }
  }

  lemma {:induction false} EscapeWrapped(open: CodeUnit, body: Text, close: CodeUnit)
    requires !Json.IsMarkup(open) && !Json.IsMarkup(close)
    ensures EscapeMarkup([open] + body + [close]) == [open] + EscapeMarkup(body) + [close]
  {
    EscapeNothing([open]);
    EscapeNothing([close]);
    EscapeConcat3([open], body, [close]);
  }

  lemma {:induction false} EscapeQuoted(s: Text)
    ensures EscapeMarkup(Json.Quoted(s, Json.Standard)) == Json.Quoted(s, Json.HtmlSafe)
  {
    EscapeQuoteBody(s);
    EscapeWrapped(QUOTE, Json.QuoteBody(s, Json.Standard), QUOTE);
  }

  /** The three characters occur only inside string literals, where the replacement is an escape. */
  lemma {:induction false} SafeJsonIsEscapedPrint(v: Json.Value)
    ensures SafeJson(v) == Json.Print(v, Json.HtmlSafe)
    decreases v, 0
  {
    match v
    case Null => EscapeNothing(Json.NULL);
    case Bool(b) => EscapeNothing(if b then Json.TRUE else Json.FALSE);
    case Number(n) =>
      Decimals.NumberUnits(n);
      EscapeNothing(Decimals.PrintNumber(n));
    case String(s) => EscapeQuoted(s);
    case Array(items) =>
      EscapeItems(items);
      EscapeWrapped(LBRACKET, Json.PrintItems(items, Json.Standard), RBRACKET);
    case Object(members) =>
      EscapeMembers(members);
      EscapeWrapped(LBRACE, Json.PrintMembers(members, Json.Standard), RBRACE);
  }

  lemma {:induction false} EscapeItems(items: seq<Json.Value>)
    ensures EscapeMarkup(Json.PrintItems(items, Json.Standard)) == Json.PrintItems(items, Json.HtmlSafe)
    decreases items, 0
  {
    if items != [] {
      SafeJsonIsEscapedPrint(items[0]);
      if |items| > 1 {
        EscapeItems(items[1..]);
        EscapeNothing([COMMA]);
        EscapeConcat3(Json.Print(items[0], Json.Standard), [COMMA], Json.PrintItems(items[1..], Json.Standard));
      }
    }
  }

  lemma {:induction false} EscapeMember(m: Json.Member)
    ensures EscapeMarkup(Json.PrintMember(m, Json.Standard)) == Json.PrintMember(m, Json.HtmlSafe)
    decreases m, 0
  {
    EscapeQuoted(m.key);
    SafeJsonIsEscapedPrint(m.value);
    EscapeNothing([COLON]);
    EscapeConcat3(Json.Quoted(m.key, Json.Standard), [COLON], Json.Print(m.value, Json.Standard));
  }

  lemma {:induction false} EscapeMembers(members: seq<Json.Member>)
    ensures EscapeMarkup(Json.PrintMembers(members, Json.Standard)) == Json.PrintMembers(members, Json.HtmlSafe)
    decreases members, 0
  {
    if members != [] {
      EscapeMember(members[0]);
      if |members| > 1 {
        EscapeMembers(members[1..]);
        EscapeNothing([COMMA]);
        EscapeConcat3(Json.PrintMember(members[0], Json.Standard), [COMMA],
                      Json.PrintMembers(members[1..], Json.Standard));
      }
    }
  }

  /** Embedded JSON cannot close its element, and still parses to the value. */
  lemma {:induction false} SafeJsonSurvives(v: Json.Value)
    ensures NoMarkup(SafeJson(v))
    ensures Json.Parse(SafeJson(v)) == Some(v)
  {
    EscapedHasNoMarkup(Json.Print(v, Json.Standard));
    SafeJsonIsEscapedPrint(v);
    Json.ParseOfPrint(v, Json.HtmlSafe);
  }

  // ----- text between tags

  const AMP: Text := [38, 97, 109, 112, 59]
  const LT: Text := [38, 108, 116, 59]
  const GT: Text := [38, 103, 116, 59]
  const QUOT: Text := [38, 113, 117, 111, 116, 59]
  const APOS: Text := [38, 35, 51, 57, 59]

  function EscapeHtmlUnit(c: CodeUnit): Text {
    if c == AMPERSAND then AMP
    else if c == LESS then LT
    else if c == GREATER then GT
    else if c == QUOTE then QUOT
    else if c == APOSTROPHE then APOS
    else [c]
  }

  function EscapeHtml(t: Text): Text {
    if t == [] then [] else EscapeHtmlUnit(t[0]) + EscapeHtml(t[1..])
  }

  /** How an HTML parser reads text: the five character references, and other characters as they are. */
  function DecodeHtml(t: Text): Text
    decreases |t|
  {
    if t == [] then []
    else if AMP <= t then [AMPERSAND] + DecodeHtml(t[5..])
    else if LT <= t then [LESS] + DecodeHtml(t[4..])
    else if GT <= t then [GREATER] + DecodeHtml(t[4..])
    else if QUOT <= t then [QUOTE] + DecodeHtml(t[6..])
    else if APOS <= t then [APOSTROPHE] + DecodeHtml(t[5..])
    else [t[0]] + DecodeHtml(t[1..])
  }

  lemma {:induction false} PlainIsDecoded(c: CodeUnit, rest: Text)
    requires c != AMPERSAND
    ensures DecodeHtml([c] + rest) == [c] + DecodeHtml(rest)
  {
    var t := [c] + rest;
    assert t[1..] == rest && t[0] == c;
  }

  /** A character reference is told by what follows the ampersand. */
  lemma {:induction false} ReferenceIsDecoded(c: CodeUnit, rest: Text)
    requires |EscapeHtmlUnit(c)| > 1
    ensures DecodeHtml(EscapeHtmlUnit(c) + rest) == [c] + DecodeHtml(rest)
  {
    var t := EscapeHtmlUnit(c) + rest;
    assert t[|EscapeHtmlUnit(c)|..] == rest;
    assert t[1] == EscapeHtmlUnit(c)[1] && t[2] == EscapeHtmlUnit(c)[2];
  }

  lemma {:induction false} DecodeUnit(c: CodeUnit, rest: Text)
    ensures DecodeHtml(EscapeHtmlUnit(c) + rest) == [c] + DecodeHtml(rest)
  {
    hide DecodeHtml;
    if |EscapeHtmlUnit(c)| > 1 {
      ReferenceIsDecoded(c, rest);
    } else {
      PlainIsDecoded(c, rest);
    }
  }

  lemma {:induction false} UnitHasNoMarkup(c: CodeUnit)
    ensures forall d :: d in EscapeHtmlUnit(c) ==> d != LESS && d != GREATER && d != QUOTE && d != APOSTROPHE
  {
  }

  lemma {:induction false} EscapeHtmlDecodes(t: Text)
    ensures DecodeHtml(EscapeHtml(t)) == t
  {
    if t != [] {
      EscapeHtmlDecodes(t[1..]);
      DecodeUnit(t[0], EscapeHtml(t[1..]));
      assert EscapeHtml(t) == EscapeHtmlUnit(t[0]) + EscapeHtml(t[1..]);
    }
  }

  /** Escaped text decodes to what it was, and holds no character that could open or close a tag or attribute. */
  lemma {:induction false} EscapeHtmlSurvives(t: Text)
    ensures DecodeHtml(EscapeHtml(t)) == t
    ensures forall c :: c in EscapeHtml(t) ==> c != LESS && c != GREATER && c != QUOTE && c != APOSTROPHE
  {
    EscapeHtmlDecodes(t);
    if t != [] {
      EscapeHtmlSurvives(t[1..]);
      UnitHasNoMarkup(t[0]);
      assert EscapeHtml(t) == EscapeHtmlUnit(t[0]) + EscapeHtml(t[1..]);
    }
  }

  /** The five characters that are escaped, and what for. */
  lemma {:induction false} ReferencesAreNamed(c: CodeUnit)
    ensures EscapeHtmlUnit(c) ==
            if c == '&' as int then Literal("&amp;")
            else if c == '<' as int then Literal("&lt;")
            else if c == '>' as int then Literal("&gt;")
            else if c == '\"' as int then Literal("&quot;")
            else if c == '\'' as int then Literal("&#39;")
            else [c]
  {
  }
}
