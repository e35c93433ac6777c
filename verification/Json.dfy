/**
 JSON text: `JSON.stringify` on plain values, and `JSON.parse`.

 Strings are quoted as in section 7 of RFC 8259; lone surrogates are written as
 escapes, the way a well-formed `JSON.stringify` does.
 */
module Json {
  import opened Decimals
  import opened Texts
  import opened Wrappers

  /** An object keeps its members in the order its keys are listed. */
  datatype Value =
    | Null
    | Bool(b: bool)
    | Number(n: Decimal)
    | String(s: Text)
    | Array(items: seq<Value>)
    | Object(members: seq<Member>)

  datatype Member = Member(key: Text, value: Value)

  /** `HtmlSafe` also escapes the three characters that could leave a script element. */
  datatype Escaping = Standard | HtmlSafe

  const NULL: Text := [110, 117, 108, 108]
  const TRUE: Text := [116, 114, 117, 101]
  const FALSE: Text := [102, 97, 108, 115, 101]

  // ----- printing

  function HexDigit(d: nat): (c: CodeUnit)
    requires d < 16
    ensures 48 <= c <= 57 || 97 <= c <= 102
  {
    if d < 10 then 48 + d else 87 + d
  }

  /** `\uXXXX`, in lower case. */
  function UnicodeEscape(c: CodeUnit): Text {
    [BACKSLASH, 117, HexDigit(c / 4096), HexDigit(c / 256 % 16), HexDigit(c / 16 % 16), HexDigit(c % 16)]
  }

  predicate IsMarkup(c: CodeUnit) { c == LESS || c == GREATER || c == AMPERSAND }

  /** One code unit of a string that is not part of a surrogate pair. */
  function QuoteUnit(c: CodeUnit, mode: Escaping): Text {
    if c == QUOTE then [BACKSLASH, QUOTE]
    else if c == BACKSLASH then [BACKSLASH, BACKSLASH]
    else if c == 8 then [BACKSLASH, 98]
    else if c == 9 then [BACKSLASH, 116]
    else if c == 10 then [BACKSLASH, 110]
    else if c == 12 then [BACKSLASH, 102]
    else if c == 13 then [BACKSLASH, 114]
    else if c < 32 || IsSurrogate(c) || (mode.HtmlSafe? && IsMarkup(c)) then UnicodeEscape(c)
    else [c]
  }

  function QuoteBody(s: Text, mode: Escaping): Text {
    if s == [] then []
    else if IsHigh(s[0]) && |s| > 1 && IsLow(s[1]) then [s[0], s[1]] + QuoteBody(s[2..], mode)
    else QuoteUnit(s[0], mode) + QuoteBody(s[1..], mode)
  }

  function Quoted(s: Text, mode: Escaping): Text {
    [QUOTE] + QuoteBody(s, mode) + [QUOTE]
  }

  function Print(v: Value, mode: Escaping): Text {
    match v
    case Null => NULL
    case Bool(b) => if b then TRUE else FALSE
    case Number(n) => PrintNumber(n)
    case String(s) => Quoted(s, mode)
    case Array(items) => [LBRACKET] + PrintItems(items, mode) + [RBRACKET]
    case Object(members) => [LBRACE] + PrintMembers(members, mode) + [RBRACE]
  }

  function PrintItems(items: seq<Value>, mode: Escaping): Text {
    if items == [] then []
    else if |items| == 1 then Print(items[0], mode)
    else Print(items[0], mode) + [COMMA] + PrintItems(items[1..], mode)
  }

  function PrintMember(m: Member, mode: Escaping): Text {
    Quoted(m.key, mode) + [COLON] + Print(m.value, mode)
  }

  function PrintMembers(members: seq<Member>, mode: Escaping): Text {
    if members == [] then []
    else if |members| == 1 then PrintMember(members[0], mode)
    else PrintMember(members[0], mode) + [COMMA] + PrintMembers(members[1..], mode)
  }

  // ----- parsing

  predicate IsSpace(c: CodeUnit) { c == 32 || c == 9 || c == 10 || c == 13 }

  function SkipSpace(t: Text): (r: Text)
    ensures |r| <= |t|
    ensures r != [] ==> !IsSpace(r[0])
  {
    if t != [] && IsSpace(t[0]) then SkipSpace(t[1..]) else t
  }

  function HexValue(c: CodeUnit): Option<nat> {
    if IsDigit(c) then Some(c - 48)
    else if 97 <= c <= 102 then Some(c - 87)
    else if 65 <= c <= 70 then Some(c - 55)
    else None
  }

  function HexUnit(t: Text): Option<CodeUnit>
    requires |t| == 4
  {
    match (HexValue(t[0]), HexValue(t[1]), HexValue(t[2]), HexValue(t[3]))
    case (Some(a), Some(b), Some(c), Some(d)) =>
      if a < 16 && b < 16 && c < 16 && d < 16 then Some(4096 * a + 256 * b + 16 * c + d) else None
    case _ => None
  }

  function SimpleEscape(c: CodeUnit): Option<CodeUnit> {
    if c == QUOTE || c == BACKSLASH || c == SLASH then Some(c)
    else if c == 98 then Some(8)
    else if c == 116 then Some(9)
    else if c == 110 then Some(10)
    else if c == 102 then Some(12)
    else if c == 114 then Some(13)
    else None
  }

  /** The string whose opening quote has been read, and what follows its closing quote. */
  function ParseQuoteBody(t: Text): (r: Option<(Text, Text)>)
    ensures r.Some? ==> |r.value.1| < |t|
  {
    if t == [] || t[0] < 32 then None
    else if t[0] == QUOTE then Some(([], t[1..]))
    else if t[0] != BACKSLASH then Prepend(t[0], ParseQuoteBody(t[1..]))
    else if |t| >= 6 && t[1] == 117 then
      match HexUnit(t[2..6])
      case Some(c) => Prepend(c, ParseQuoteBody(t[6..]))
      case None => None
    else if |t| >= 2 then
      match SimpleEscape(t[1])
      case Some(c) => Prepend(c, ParseQuoteBody(t[2..]))
      case None => None
    else None
  }

  function Prepend(c: CodeUnit, r: Option<(Text, Text)>): (p: Option<(Text, Text)>)
    ensures p.Some? <==> r.Some?
    ensures p.Some? ==> p.value.1 == r.value.1
  {
    PrependAll([c], r)
  }

  function PrependAll(s: Text, r: Option<(Text, Text)>): Option<(Text, Text)> {
    match r
    case Some((t, rest)) => Some((s + t, rest))
    case None => None
  }

  /** One value and the text after it; `None` where `JSON.parse` throws. */
  function ParseValue(text: Text): (r: Option<(Value, Text)>)
    ensures r.Some? ==> |r.value.1| < |text|
    decreases |text|, 0
  {
    var t := SkipSpace(text);
    if t == [] then None
    else if NULL <= t then Some((Null, t[4..]))
    else if TRUE <= t then Some((Bool(true), t[4..]))
    else if FALSE <= t then Some((Bool(false), t[5..]))
    else if t[0] == QUOTE then
      match ParseQuoteBody(t[1..])
      case Some((s, rest)) => Some((String(s), rest))
      case None => None
    else if t[0] == LBRACKET then
      var u := SkipSpace(t[1..]);
      if u != [] && u[0] == RBRACKET then Some((Array([]), u[1..]))
      else
        match ParseItems(u)
        case Some((items, rest)) => Some((Array(items), rest))
        case None => None
    else if t[0] == LBRACE then
      var u := SkipSpace(t[1..]);
      if u != [] && u[0] == RBRACE then Some((Object([]), u[1..]))
      else
        match ParseMembers(u)
        case Some((members, rest)) => Some((Object(members), rest))
        case None => None
    else
      match ParseNumber(t)
      case Some((n, rest)) => Some((Number(n), rest))
      case None => None
  }

  /** The items of an array after its opening bracket, up to and with the closing one. */
  function ParseItems(t: Text): (r: Option<(seq<Value>, Text)>)
    ensures r.Some? ==> |r.value.1| < |t|
    decreases |t|, 1
  {
    match ParseValue(t)
    case None => None
    case Some((v, rest)) =>
      var u := SkipSpace(rest);
      if u == [] then None
      else if u[0] == RBRACKET then Some(([v], u[1..]))
      else if u[0] == COMMA then
        match ParseItems(u[1..])
        case Some((vs, rest)) => Some(([v] + vs, rest))
        case None => None
      else None
  }

  function ParseMember(t: Text): (r: Option<(Member, Text)>)
    ensures r.Some? ==> |r.value.1| < |t|
    decreases |t|, 1
  {
    var u := SkipSpace(t);
    if u == [] || u[0] != QUOTE then None
    else
      match ParseQuoteBody(u[1..])
      case None => None
      case Some((key, rest)) =>
        var w := SkipSpace(rest);
        if w == [] || w[0] != COLON then None
        else
          match ParseValue(w[1..])
          case Some((v, rest)) => Some((Member(key, v), rest))
          case None => None
  }

  function ParseMembers(t: Text): (r: Option<(seq<Member>, Text)>)
    ensures r.Some? ==> |r.value.1| < |t|
    decreases |t|, 2
  {
    match ParseMember(t)
    case None => None
    case Some((m, rest)) =>
      var u := SkipSpace(rest);
      if u == [] then None
      else if u[0] == RBRACE then Some(([m], u[1..]))
      else if u[0] == COMMA then
        match ParseMembers(u[1..])
        case Some((ms, rest)) => Some(([m] + ms, rest))
        case None => None
      else None
  }

  /** `JSON.parse`: one value and nothing but white space after it. */
  function Parse(t: Text): Option<Value> {
    match ParseValue(t)
    case Some((v, rest)) => if SkipSpace(rest) == [] then Some(v) else None
    case None => None
  }

  /** A property of a parsed object: of members with the same key the last counts. */
  function Lookup(members: seq<Member>, key: Text): Option<Value> {
    if members == [] then None
    else if members[|members| - 1].key == key then Some(members[|members| - 1].value)
    else Lookup(members[..|members| - 1], key)
  }

  // ----- reading back what was printed

  lemma {:induction false} HexValueOfDigit(d: nat)
    requires d < 16
    ensures HexValue(HexDigit(d)) == Some(d)
  {
  }

  lemma {:induction false} FourDigits(c: nat)
    ensures c == 4096 * (c / 4096) + 256 * (c / 256 % 16) + 16 * (c / 16 % 16) + c % 16
  {
    var c1, c2 := c / 16, c / 256;
    assert c == 16 * c1 + c % 16;
    assert c2 == c1 / 16 && c1 == 16 * c2 + c1 % 16;
    assert c / 4096 == c2 / 16 && c2 == 16 * (c2 / 16) + c2 % 16;
  }

  lemma {:induction false} HexUnitOfEscape(c: CodeUnit, rest: Text)
    ensures HexUnit((UnicodeEscape(c) + rest)[2..6]) == Some(c)
  {
    var t := (UnicodeEscape(c) + rest)[2..6];
    assert t[0] == HexDigit(c / 4096) && t[1] == HexDigit(c / 256 % 16);
    assert t[2] == HexDigit(c / 16 % 16) && t[3] == HexDigit(c % 16);
    HexValueOfDigit(c / 4096);
    HexValueOfDigit(c / 256 % 16);
    HexValueOfDigit(c / 16 % 16);
    HexValueOfDigit(c % 16);
    FourDigits(c);
  }

  lemma {:induction false} ParseEscape(c: CodeUnit, rest: Text)
    ensures ParseQuoteBody(UnicodeEscape(c) + rest) == Prepend(c, ParseQuoteBody(rest))
  {
    var t := UnicodeEscape(c) + rest;
    assert t[6..] == rest;
    HexUnitOfEscape(c, rest);
  }

  lemma {:induction false} ParseQuoteUnit(c: CodeUnit, mode: Escaping, rest: Text)
    ensures ParseQuoteBody(QuoteUnit(c, mode) + rest) == Prepend(c, ParseQuoteBody(rest))
  {
    hide HexUnit;
    hide UnicodeEscape;
    var q := QuoteUnit(c, mode);
    var t := q + rest;
    assert t[|q|..] == rest;
    ParseEscape(c, rest);
  }

  lemma {:induction false} ParsePair(c: CodeUnit, d: CodeUnit, rest: Text)
    requires IsHigh(c) && IsLow(d)
    ensures ParseQuoteBody([c, d] + rest) == Prepend(c, Prepend(d, ParseQuoteBody(rest)))
  {
    var t := [c, d] + rest;
    assert t[1..] == [d] + rest;
    assert t[1..][1..] == rest;
  }

  lemma {:induction false} PrependMore(c: Text, s: Text, r: Option<(Text, Text)>)
    ensures PrependAll(c, PrependAll(s, r)) == PrependAll(c + s, r)
  {
    if r.Some? {
      assert c + (s + r.value.0) == (c + s) + r.value.0;
    }
  }

  lemma {:induction false} ParseQuoteBodyOf(s: Text, mode: Escaping, rest: Text)
    ensures ParseQuoteBody(QuoteBody(s, mode) + rest) == PrependAll(s, ParseQuoteBody(rest))
  {
    hide ParseQuoteBody;
    hide QuoteUnit;
    if s == [] {
      assert QuoteBody(s, mode) + rest == rest;
      var r := ParseQuoteBody(rest);
      if r.Some? {
        assert s + r.value.0 == r.value.0;
      }
    } else if IsHigh(s[0]) && |s| > 1 && IsLow(s[1]) {
      var body := QuoteBody(s[2..], mode);
      assert QuoteBody(s, mode) + rest == [s[0], s[1]] + (body + rest);
      ParsePair(s[0], s[1], body + rest);
      ParseQuoteBodyOf(s[2..], mode, rest);
      PrependMore([s[1]], s[2..], ParseQuoteBody(rest));
      PrependMore([s[0]], [s[1]] + s[2..], ParseQuoteBody(rest));
      assert s == [s[0]] + ([s[1]] + s[2..]);
    } else {
      var body := QuoteBody(s[1..], mode);
      assert QuoteBody(s, mode) + rest == QuoteUnit(s[0], mode) + (body + rest);
      ParseQuoteUnit(s[0], mode, body + rest);
      ParseQuoteBodyOf(s[1..], mode, rest);
      PrependMore([s[0]], s[1..], ParseQuoteBody(rest));
      assert s == [s[0]] + s[1..];
    }
  }

  lemma {:induction false} ParseQuoted(s: Text, mode: Escaping, rest: Text)
    ensures ParseQuoteBody(QuoteBody(s, mode) + [QUOTE] + rest) == Some((s, rest))
  {
    var tail := [QUOTE] + rest;
    assert QuoteBody(s, mode) + [QUOTE] + rest == QuoteBody(s, mode) + tail;
    ParseQuoteBodyOf(s, mode, tail);
    assert tail[1..] == rest;
    assert s + [] == s;
  }

  lemma {:induction false} FirstOfPrint(v: Value, mode: Escaping)
    ensures StartsValue(Print(v, mode))
  {
    if v.Number? {
      NumberStarts(v.n);
    }
  }

  /** What a text that starts neither with white space nor with a word is read as. */
  lemma {:induction false} NotAWord(t: Text)
    requires t != [] && !IsSpace(t[0]) && t[0] != NULL[0] && t[0] != TRUE[0] && t[0] != FALSE[0]
    ensures SkipSpace(t) == t && !(NULL <= t) && !(TRUE <= t) && !(FALSE <= t)
  {
  }

  lemma {:induction false} StringIsRead(u: Text, s: Text, rest: Text)
    requires ParseQuoteBody(u) == Some((s, rest))
    ensures ParseValue([QUOTE] + u) == Some((String(s), rest))
  {
    var t := [QUOTE] + u;
    assert t[1..] == u;
    NotAWord(t);
  }

  lemma {:induction false} ArrayIsRead(u: Text, items: seq<Value>, rest: Text)
    requires StartsValue(u) && ParseItems(u) == Some((items, rest))
    ensures ParseValue([LBRACKET] + u) == Some((Array(items), rest))
  {
    var t := [LBRACKET] + u;
    assert t[1..] == u && SkipSpace(u) == u;
    NotAWord(t);
  }

  lemma {:induction false} ObjectIsRead(u: Text, members: seq<Member>, rest: Text)
    requires StartsValue(u) && ParseMembers(u) == Some((members, rest))
    ensures ParseValue([LBRACE] + u) == Some((Object(members), rest))
  {
    var t := [LBRACE] + u;
    assert t[1..] == u && SkipSpace(u) == u;
    NotAWord(t);
  }

  lemma {:induction false} EmptyIsRead(rest: Text)
    ensures ParseValue([LBRACKET] + ([RBRACKET] + rest)) == Some((Array([]), rest))
    ensures ParseValue([LBRACE] + ([RBRACE] + rest)) == Some((Object([]), rest))
  {
    var u, w := [RBRACKET] + rest, [RBRACE] + rest;
    assert u[1..] == rest && w[1..] == rest && SkipSpace(u) == u && SkipSpace(w) == w;
    var t, x := [LBRACKET] + u, [LBRACE] + w;
    assert t[1..] == u && x[1..] == w;
    NotAWord(t);
    NotAWord(x);
  }

  lemma {:induction false} WordIsRead(v: Value, mode: Escaping, rest: Text)
    requires v.Null? || v.Bool?
    ensures ParseValue(Print(v, mode) + rest) == Some((v, rest))
  {
    var word := Print(v, mode);
    var t := word + rest;
    assert t[|word|..] == rest && t[0] == word[0] && SkipSpace(t) == t;
  }

  lemma {:induction false} NumberIsRead(n: Decimal, mode: Escaping, rest: Text)
    requires !ContinuesNumber(rest)
    ensures ParseValue(Print(Number(n), mode) + rest) == Some((Number(n), rest))
  {
    hide ParseNumber;
    hide PrintNumber;
    var t := PrintNumber(n) + rest;
    NumberStarts(n);
    NumberIsReadBack(n, rest);
    assert t[0] == PrintNumber(n)[0];
    NotAWord(t);
  }

  /** The text of a value reads back as that value and leaves what follows it alone. */
  lemma {:induction false} ParsePrint(v: Value, mode: Escaping, rest: Text)
    requires v.Number? ==> !ContinuesNumber(rest)
    ensures ParseValue(Print(v, mode) + rest) == Some((v, rest))
    decreases v, 0
  {
    match v
    case Null => WordIsRead(v, mode, rest);
    case Bool(b) => WordIsRead(v, mode, rest);
    case Number(n) => NumberIsRead(n, mode, rest);
    case String(s) =>
      assert Quoted(s, mode) + rest == [QUOTE] + (QuoteBody(s, mode) + [QUOTE] + rest);
      ParseQuoted(s, mode, rest);
      StringIsRead(QuoteBody(s, mode) + [QUOTE] + rest, s, rest);
    case Array(items) =>
      var u := PrintItems(items, mode) + [RBRACKET] + rest;
      assert Print(v, mode) + rest == [LBRACKET] + u;
      if items == [] {
        assert u == [RBRACKET] + rest;
        EmptyIsRead(rest);
      } else {
        ParsePrintItems(items, mode, rest);
        ArrayIsRead(u, items, rest);
      }
    case Object(members) =>
      var u := PrintMembers(members, mode) + [RBRACE] + rest;
      assert Print(v, mode) + rest == [LBRACE] + u;
      if members == [] {
        assert u == [RBRACE] + rest;
        EmptyIsRead(rest);
      } else {
        ParsePrintMembers(members, mode, rest);
        ObjectIsRead(u, members, rest);
      }
  }

  lemma {:induction false} Regroup(a: Text, b: Text, c: Text, d: Text, e: Text)
    ensures a + b + c + d + e == a + (b + (c + d + e))
  {
  }

  lemma {:induction false} ItemsEnd(t: Text, v: Value, rest: Text)
    requires ParseValue(t) == Some((v, [RBRACKET] + rest))
    ensures ParseItems(t) == Some(([v], rest))
  {
    assert ([RBRACKET] + rest)[1..] == rest;
  }

  lemma {:induction false} ItemsGoOn(t: Text, v: Value, more: Text, vs: seq<Value>, rest: Text)
    requires ParseValue(t) == Some((v, [COMMA] + more)) && ParseItems(more) == Some((vs, rest))
    ensures ParseItems(t) == Some(([v] + vs, rest))
  {
    assert ([COMMA] + more)[1..] == more;
  }

  lemma {:induction false} MembersEnd(t: Text, m: Member, rest: Text)
    requires ParseMember(t) == Some((m, [RBRACE] + rest))
    ensures ParseMembers(t) == Some(([m], rest))
  {
    assert ([RBRACE] + rest)[1..] == rest;
  }

  lemma {:induction false} MembersGoOn(t: Text, m: Member, more: Text, ms: seq<Member>, rest: Text)
    requires ParseMember(t) == Some((m, [COMMA] + more)) && ParseMembers(more) == Some((ms, rest))
    ensures ParseMembers(t) == Some(([m] + ms, rest))
  {
    assert ([COMMA] + more)[1..] == more;
  }

  /** A text starting as a printed value does starts neither with white space nor with a closing bracket. */
  predicate StartsValue(t: Text) {
    t != [] && !IsSpace(t[0]) && t[0] != RBRACKET && t[0] != RBRACE
  }

  lemma {:induction false} ParsePrintItems(items: seq<Value>, mode: Escaping, rest: Text)
    requires items != []
    ensures var t := PrintItems(items, mode) + [RBRACKET] + rest;
            ParseItems(t) == Some((items, rest)) && StartsValue(t)
    decreases items, 0
  {
    hide ParseItems;
    hide ParseValue;
    hide Print;
    var t := PrintItems(items, mode) + [RBRACKET] + rest;
    var first := Print(items[0], mode);
    FirstOfPrint(items[0], mode);
    if |items| == 1 {
      assert t == first + ([RBRACKET] + rest);
      ParsePrint(items[0], mode, [RBRACKET] + rest);
      ItemsEnd(t, items[0], rest);
      assert items == [items[0]];
    } else {
      var more := PrintItems(items[1..], mode) + [RBRACKET] + rest;
      Regroup(first, [COMMA], PrintItems(items[1..], mode), [RBRACKET], rest);
      ParsePrint(items[0], mode, [COMMA] + more);
      ParsePrintItems(items[1..], mode, rest);
      ItemsGoOn(t, items[0], more, items[1..], rest);
      assert items == [items[0]] + items[1..];
    }
  }

  lemma {:induction false} MemberIsRead(u: Text, key: Text, w: Text, v: Value, rest: Text)
    requires ParseQuoteBody(u) == Some((key, [COLON] + w)) && ParseValue(w) == Some((v, rest))
    ensures ParseMember([QUOTE] + u) == Some((Member(key, v), rest))
  {
    hide ParseQuoteBody;
    hide ParseValue;
    var t, after := [QUOTE] + u, [COLON] + w;
    assert t[1..] == u && after[1..] == w && SkipSpace(t) == t && SkipSpace(after) == after;
  }

  lemma {:induction false} ParsePrintMember(m: Member, mode: Escaping, rest: Text)
    requires m.value.Number? ==> !ContinuesNumber(rest)
    ensures var t := PrintMember(m, mode) + rest;
            ParseMember(t) == Some((m, rest)) && t[0] == QUOTE
    decreases m, 0
  {
    hide ParseQuoteBody;
    hide ParseValue;
    hide QuoteBody;
    hide Print;
    var w := Print(m.value, mode) + rest;
    var u := QuoteBody(m.key, mode) + [QUOTE] + ([COLON] + w);
    assert PrintMember(m, mode) + rest == [QUOTE] + u;
    ParseQuoted(m.key, mode, [COLON] + w);
    ParsePrint(m.value, mode, rest);
    MemberIsRead(u, m.key, w, m.value, rest);
  }

  lemma {:induction false} ParsePrintMembers(members: seq<Member>, mode: Escaping, rest: Text)
    requires members != []
    ensures var t := PrintMembers(members, mode) + [RBRACE] + rest;
            ParseMembers(t) == Some((members, rest)) && StartsValue(t)
    decreases members, 0
  {
    hide ParseMembers;
    hide ParseMember;
    hide PrintMember;
    var t := PrintMembers(members, mode) + [RBRACE] + rest;
    var first := PrintMember(members[0], mode);
    if |members| == 1 {
      assert t == first + ([RBRACE] + rest);
      ParsePrintMember(members[0], mode, [RBRACE] + rest);
      MembersEnd(t, members[0], rest);
      assert members == [members[0]];
    } else {
      var more := PrintMembers(members[1..], mode) + [RBRACE] + rest;
      Regroup(first, [COMMA], PrintMembers(members[1..], mode), [RBRACE], rest);
      ParsePrintMember(members[0], mode, [COMMA] + more);
      ParsePrintMembers(members[1..], mode, rest);
      MembersGoOn(t, members[0], more, members[1..], rest);
      assert members == [members[0]] + members[1..];
    }
  }

  /** `JSON.parse` undoes `JSON.stringify`. */
  lemma {:induction false} ParseOfPrint(v: Value, mode: Escaping)
    ensures Parse(Print(v, mode)) == Some(v)
  {
    ParsePrint(v, mode, []);
    assert Print(v, mode) + [] == Print(v, mode);
  }

  // ----- what is printed, character by character

  /** Two-letter escapes are written where there is one. */
  ghost function ShortEscape(c: CodeUnit): Option<Text> {
    if c == '\"' as int then Some(Literal("\\\""))
    else if c == '\\' as int then Some(Literal("\\\\"))
    else if c == 8 then Some(Literal("\\b"))
    else if c == '\t' as int then Some(Literal("\\t"))
    else if c == '\n' as int then Some(Literal("\\n"))
    else if c == 12 then Some(Literal("\\f"))
    else if c == '\r' as int then Some(Literal("\\r"))
    else None
  }

  /** Four hexadecimal digits in lower case that make the unit. */
  ghost predicate IsHexOf(t: Text, c: CodeUnit) {
    && |t| == 4
    && (forall i :: 0 <= i < 4 ==> '0' as int <= t[i] <= '9' as int || 'a' as int <= t[i] <= 'f' as int)
    && HexUnit(t) == Some(c)
  }

  /** Controls, surrogates that stand alone and, for HTML, markup. */
  ghost predicate IsEscapedLong(c: CodeUnit, mode: Escaping) {
    c < 0x20 || 0xD800 <= c <= 0xDFFF || (mode.HtmlSafe? && (c == '<' as int || c == '>' as int || c == '&' as int))
  }

  /**
   A unit of a string is itself, except for quotes, backslashes and what is escaped in full;
   escapes are as short as possible.
   */
  lemma {:induction false} UnitIsPrinted(c: CodeUnit, mode: Escaping)
    ensures ShortEscape(c).Some? ==> QuoteUnit(c, mode) == ShortEscape(c).value
    ensures ShortEscape(c).None? ==>
              if IsEscapedLong(c, mode) then exists hex :: IsHexOf(hex, c) && QuoteUnit(c, mode) == Literal("\\u") + hex
              else QuoteUnit(c, mode) == [c]
  {
    hide Literal;
    hide UnicodeEscape;
    ShortEscapes();
    if ShortEscape(c).None? && IsEscapedLong(c, mode) {
      assert QuoteUnit(c, mode) == UnicodeEscape(c);
      var hex := LongEscape(c);
    }
  }

  lemma {:induction false} ShortEscapes()
    ensures Literal("\\\"") == [BACKSLASH, QUOTE] && Literal("\\\\") == [BACKSLASH, BACKSLASH]
    ensures Literal("\\b") == [BACKSLASH, 98] && Literal("\\t") == [BACKSLASH, 116] && Literal("\\n") == [BACKSLASH, 110]
    ensures Literal("\\f") == [BACKSLASH, 102] && Literal("\\r") == [BACKSLASH, 114]
  {
  }

  lemma {:induction false} LongEscape(c: CodeUnit) returns (hex: Text)
    ensures IsHexOf(hex, c) && UnicodeEscape(c) == Literal("\\u") + hex
  {
    hex := UnicodeEscape(c)[2..];
    assert UnicodeEscape(c) == [BACKSLASH, 117] + hex;
    HexIsPrinted(c, hex);
    assert Literal("\\u") == [BACKSLASH, 117];
  }

  lemma {:induction false} HexIsPrinted(c: CodeUnit, hex: Text)
    requires hex == UnicodeEscape(c)[2..]
    ensures IsHexOf(hex, c)
  {
    hide HexDigit;
    HexUnitOfEscape(c, []);
    assert UnicodeEscape(c) + [] == UnicodeEscape(c);
    assert hex == (UnicodeEscape(c) + [])[2..6];
  }

  /** The words and the marks of JSON text. */
  lemma {:induction false} MarksArePrinted(s: Text, items: seq<Value>, members: seq<Member>, mode: Escaping)
    ensures Print(Null, mode) == Literal("null")
    ensures Print(Bool(true), mode) == Literal("true") && Print(Bool(false), mode) == Literal("false")
    ensures Print(String(s), mode) == Literal("\"") + QuoteBody(s, mode) + Literal("\"")
    ensures Print(Array(items), mode) == Literal("[") + PrintItems(items, mode) + Literal("]")
    ensures Print(Object(members), mode) == Literal("{") + PrintMembers(members, mode) + Literal("}")
    ensures [COLON] == Literal(":") && [COMMA] == Literal(",")
  {
    hide QuoteBody;
    hide PrintItems;
    hide PrintMembers;
  }
}
