/** Signed, time-bounded tokens that give access to a preview of a generated app. */
module PreviewCapability {
  import opened Decimals
  import opened Separators
  import opened Texts
  import opened Wrappers
  import CanonicalJson
  import Json
  import Utf16

  datatype Scope = Read | Interact

  datatype Claims = Claims(
    appId: Text, workspaceId: Text, checkpointId: Text, scope: Scope, parentOrigin: Option<Text>, iat: int, exp: int)

  /**
   `encode` and `decode` are base64url over UTF-8, `sign` is the HMAC of a
   payload under a secret, in base64url, and `origin` the origin of an absolute
   http(s) URL that is nothing but an origin.
   */
  datatype Host = Host(
    encode: Text -> Text, decode: Text -> Text, sign: (Text, Text) -> Text, origin: Text -> Option<Text>)

  /** base64url has a left inverse on well-formed text and no dot in its alphabet; an origin is its own origin. */
  ghost predicate Lawful(host: Host) {
    && (forall t :: Utf16.Paired(t) ==> host.decode(host.encode(t)) == t)
    && (forall t :: DOT !in host.encode(t))
    && (forall secret, t :: DOT !in host.sign(secret, t))
    && (forall t :: host.origin(t).Some? ==> host.origin(t).value != [] && host.origin(host.origin(t).value) == host.origin(t))
  }

  const PREFIX := Literal("pt1")
  const MAX_LENGTH := 4096
  const CLOCK_SKEW_SECONDS := 5 * 60
  const MAX_SAFE_INTEGER := 9007199254740991

  function DefaultTtl(scope: Scope): int { if scope == Interact then 15 * 60 else 60 * 60 }

  function MaxTtl(scope: Scope): int { if scope == Interact then 60 * 60 else 24 * 60 * 60 }

  /** The times a `Date` can hold, in milliseconds. */
  type Instant = ms: int | -8_640_000_000_000_000 <= ms <= 8_640_000_000_000_000

  function Seconds(now: Instant): int { now as int / 1000 }

  predicate IsSafeInteger(n: int) { -MAX_SAFE_INTEGER <= n <= MAX_SAFE_INTEGER }

  /** `None` where the original throws: no value, or not an origin. */
  function NormalizeHttpOrigin(host: Host, value: Option<Text>): Option<Text> {
    if value.None? || value.value == [] then None else host.origin(value.value)
  }

  predicate IsAlphanumeric(c: CodeUnit) { 48 <= c <= 57 || 65 <= c <= 90 || 97 <= c <= 122 }

  predicate ValidIdentifier(t: Text) {
    && 1 <= |t| <= 200 && IsAlphanumeric(t[0])
    && forall i :: 0 <= i < |t| ==> IsAlphanumeric(t[i]) || t[i] in [DOT, 95, COLON, MINUS]
  }

  // ----- claims as JSON

  const V := Literal("v")
  const APP_ID := Literal("appId")
  const WORKSPACE_ID := Literal("workspaceId")
  const CHECKPOINT_ID := Literal("checkpointId")
  const SCOPE := Literal("scope")
  const PARENT_ORIGIN := Literal("parentOrigin")
  const IAT := Literal("iat")
  const EXP := Literal("exp")
  const READ := Literal("read")
  const INTERACT := Literal("interact")

  function IdentityMembers(c: Claims): seq<Json.Member> {
    [Json.Member(V, Json.Number(Whole(1))),
     Json.Member(APP_ID, Json.String(c.appId)),
     Json.Member(WORKSPACE_ID, Json.String(c.workspaceId)),
     Json.Member(CHECKPOINT_ID, Json.String(c.checkpointId)),
     Json.Member(SCOPE, Json.String(if c.scope == Interact then INTERACT else READ))]
  }

  function OriginMembers(c: Claims): seq<Json.Member> {
    if c.parentOrigin.Some? then [Json.Member(PARENT_ORIGIN, Json.String(c.parentOrigin.value))] else []
  }

  function TimeMembers(c: Claims): seq<Json.Member> {
    [Json.Member(IAT, Json.Number(Whole(c.iat))), Json.Member(EXP, Json.Number(Whole(c.exp)))]
  }

  function ClaimsMembers(c: Claims): seq<Json.Member> { IdentityMembers(c) + OriginMembers(c) + TimeMembers(c) }

  function ClaimsText(c: Claims): Text { Json.Print(Json.Object(ClaimsMembers(c)), Json.Standard) }

  function Keys(members: seq<Json.Member>): set<Text> { set m | m in members :: m.key }

  function TextAt(members: seq<Json.Member>, key: Text): Option<Text> {
    match Json.Lookup(members, key)
    case Some(String(s)) => Some(s)
    case _ => None
  }

  function IdentifierAt(members: seq<Json.Member>, key: Text): Option<Text> {
    match TextAt(members, key)
    case Some(t) => if ValidIdentifier(t) then Some(t) else None
    case None => None
  }

  function IntegerAt(members: seq<Json.Member>, key: Text): Option<int> {
    match Json.Lookup(members, key)
    case Some(Number(d)) =>
      var n := IntegerOf(d);
      if n.Some? && IsSafeInteger(n.value) then n else None
    case _ => None
  }

  function ExpectedKeys(scope: Scope): set<Text> {
    {V, APP_ID, WORKSPACE_ID, CHECKPOINT_ID, SCOPE, IAT, EXP} + if scope == Interact then {PARENT_ORIGIN} else {}
  }

  function ScopeAt(members: seq<Json.Member>): Option<Scope> {
    match TextAt(members, SCOPE)
    case Some(t) => if t == READ then Some(Read) else if t == INTERACT then Some(Interact) else None
    case None => None
  }

  function ParseMembers(host: Host, members: seq<Json.Member>): Option<Claims> {
    var keys, scope := Keys(members), ScopeAt(members);
    if scope.None? || |keys| != |ExpectedKeys(scope.value)| || !(keys <= ExpectedKeys(scope.value))
       || Json.Lookup(members, V) != Some(Json.Number(Whole(1)))
    then None
    else
      match (IdentifierAt(members, APP_ID), IdentifierAt(members, WORKSPACE_ID), IdentifierAt(members, CHECKPOINT_ID),
             IntegerAt(members, IAT), IntegerAt(members, EXP))
      case (Some(appId), Some(workspaceId), Some(checkpointId), Some(iat), Some(exp)) =>
        if scope.value == Read then Some(Claims(appId, workspaceId, checkpointId, Read, None, iat, exp))
        else
          var parentOrigin := NormalizeHttpOrigin(host, TextAt(members, PARENT_ORIGIN));
          if parentOrigin.None? then None
          else Some(Claims(appId, workspaceId, checkpointId, Interact, parentOrigin, iat, exp))
      case _ => None
  }

  function ParseClaims(host: Host, value: Json.Value): Option<Claims> {
    match value
    case Object(members) => ParseMembers(host, members)
    case _ => None
  }

  // ----- minting and verifying

  /** `ttlSeconds` as given, if it is a safe integer. */
  datatype Input = Input(
    appId: Text, workspaceId: Text, checkpointId: Text, scope: Scope, parentOrigin: Option<Text>,
    ttlSeconds: Option<int>)

  function Ttl(input: Input): int {
    match input.ttlSeconds
    case Some(ttl) =>
      if !(IsSafeInteger(ttl) && ttl > 0) then DefaultTtl(input.scope)
      else if ttl < MaxTtl(input.scope) then ttl else MaxTtl(input.scope)
    case None => DefaultTtl(input.scope)
  }

  function Token(host: Host, secret: Text, payload: Text): Text {
    PREFIX + [DOT] + payload + [DOT] + host.sign(secret, payload)
  }

  /** `None` where the original throws; `secret` is absent where none is configured in production. */
  function Mint(host: Host, input: Input, now: Instant, secret: Option<Text>): Option<(Text, Claims)> {
    var origin := if input.scope == Interact then NormalizeHttpOrigin(host, input.parentOrigin) else None;
    if input.scope == Interact && origin.None? then None
    else if !ValidIdentifier(input.appId) || !ValidIdentifier(input.workspaceId) || !ValidIdentifier(input.checkpointId) then None
    else if secret.None? then None
    else
      var claims := Claims(input.appId, input.workspaceId, input.checkpointId, input.scope, origin,
                           Seconds(now), Seconds(now) + Ttl(input));
      Some((Token(host, secret.value, host.encode(ClaimsText(claims))), claims))
  }

  /** Whether claims may be used at a time. */
  predicate InTime(c: Claims, now: Instant) {
    && Seconds(now) < c.exp && c.iat <= Seconds(now) + CLOCK_SKEW_SECONDS
    && c.iat < c.exp && c.exp - c.iat <= MaxTtl(c.scope)
  }

  function Verify(host: Host, token: Text, routeAppId: Text, now: Instant, secret: Option<Text>): Option<Claims> {
    if token == [] || |token| > MAX_LENGTH then None
    else
      var parts := Split(DOT, token);
      if |parts| != 3 || parts[0] != PREFIX || secret.None? || parts[2] != host.sign(secret.value, parts[1]) then None
      else
        match Json.Parse(host.decode(parts[1]))
        case None => None
        case Some(value) =>
          var claims := ParseClaims(host, value);
          if claims.None? || claims.value.appId != routeAppId || !InTime(claims.value, now) then None else claims
  }

  // ----- claims survive their text

  lemma {:induction false} KeysDiffer()
    ensures |{V, APP_ID, WORKSPACE_ID, CHECKPOINT_ID, SCOPE, IAT, EXP}| == 7
    ensures PARENT_ORIGIN !in {V, APP_ID, WORKSPACE_ID, CHECKPOINT_ID, SCOPE, IAT, EXP}
    ensures V != APP_ID && V != WORKSPACE_ID && V != CHECKPOINT_ID && V != SCOPE && V != IAT && V != EXP
    ensures APP_ID != WORKSPACE_ID && APP_ID != CHECKPOINT_ID && APP_ID != SCOPE && APP_ID != IAT && APP_ID != EXP
    ensures WORKSPACE_ID != CHECKPOINT_ID && WORKSPACE_ID != SCOPE && WORKSPACE_ID != IAT && WORKSPACE_ID != EXP
    ensures CHECKPOINT_ID != SCOPE && CHECKPOINT_ID != IAT && CHECKPOINT_ID != EXP
    ensures SCOPE != IAT && SCOPE != EXP && IAT != EXP && READ != INTERACT
  {
    assert |V| == 1 && |APP_ID| == 5 && |WORKSPACE_ID| == 11 && |CHECKPOINT_ID| == 12 && |SCOPE| == 5;
    assert |PARENT_ORIGIN| == 12 && |IAT| == 3 && |EXP| == 3 && |READ| == 4 && |INTERACT| == 8;
    assert APP_ID[0] == 97 && SCOPE[0] == 115 && CHECKPOINT_ID[0] == 99 && PARENT_ORIGIN[0] == 112;
    assert IAT[0] == 105 && EXP[0] == 101;
  }

  ghost predicate DistinctKeys(members: seq<Json.Member>) {
    forall i, j :: 0 <= i < j < |members| ==> members[i].key != members[j].key
  }

  lemma {:induction false} LookupAt(members: seq<Json.Member>, i: nat)
    requires DistinctKeys(members) && i < |members|
    ensures Json.Lookup(members, members[i].key) == Some(members[i].value)
  {
    if i < |members| - 1 {
      LookupAt(members[..|members| - 1], i);
    }
  }

  /** Claims as they are minted. */
  predicate WellMade(host: Host, c: Claims) {
    && ValidIdentifier(c.appId) && ValidIdentifier(c.workspaceId) && ValidIdentifier(c.checkpointId)
    && IsSafeInteger(c.iat) && IsSafeInteger(c.exp)
    && (c.parentOrigin.Some? <==> c.scope == Interact)
    && (c.parentOrigin.Some? ==> NormalizeHttpOrigin(host, c.parentOrigin) == c.parentOrigin)
  }

  lemma {:induction false} MembersDistinct(c: Claims)
    ensures DistinctKeys(ClaimsMembers(c))
  {
    KeysDiffer();
  }

  lemma {:induction false} KeysConcat(s: seq<Json.Member>, t: seq<Json.Member>)
    ensures Keys(s + t) == Keys(s) + Keys(t)
  {
    forall m | m in s || m in t ensures m in s + t {
    }
  }

  lemma {:induction false} KeyOfOne(m: Json.Member)
    ensures Keys([m]) == {m.key}
  {
    assert m in [m];
  }

  lemma {:induction false} KeysOfFive(a: Json.Member, b: Json.Member, c: Json.Member, d: Json.Member, e: Json.Member)
    ensures Keys([a, b, c, d, e]) == {a.key, b.key, c.key, d.key, e.key}
    ensures Keys([a, b]) == {a.key, b.key} && Keys([a]) == {a.key}
  {
    hide Keys;
    KeyOfOne(a);
    KeyOfOne(b);
    KeyOfOne(c);
    KeyOfOne(d);
    KeyOfOne(e);
    assert [a, b] == [a] + [b] && [a, b, c, d, e] == [a, b] + [c] + [d] + [e];
    KeysConcat([a], [b]);
    KeysConcat([a, b], [c]);
    KeysConcat([a, b] + [c], [d]);
    KeysConcat([a, b] + [c] + [d], [e]);
  }

  lemma {:induction false} ClaimsKeys(c: Claims)
    requires c.parentOrigin.Some? <==> c.scope == Interact
    ensures Keys(ClaimsMembers(c)) == ExpectedKeys(c.scope)
  {
    KeysConcat(IdentityMembers(c) + OriginMembers(c), TimeMembers(c));
    KeysConcat(IdentityMembers(c), OriginMembers(c));
    IdentityKeys(c);
    OtherKeys(c);
  }

  lemma {:induction false} IdentityKeys(c: Claims)
    ensures Keys(IdentityMembers(c)) == {V, APP_ID, WORKSPACE_ID, CHECKPOINT_ID, SCOPE}
  {
    var m := IdentityMembers(c);
    KeysOfFive(m[0], m[1], m[2], m[3], m[4]);
  }

  lemma {:induction false} OtherKeys(c: Claims)
    ensures Keys(OriginMembers(c)) == if c.parentOrigin.Some? then {PARENT_ORIGIN} else {}
    ensures Keys(TimeMembers(c)) == {IAT, EXP}
  {
    var m := TimeMembers(c);
    KeysOfFive(m[0], m[1], m[0], m[0], m[0]);
    if c.parentOrigin.Some? {
      var origin := OriginMembers(c)[0];
      KeysOfFive(origin, origin, origin, origin, origin);
    }
  }

  lemma {:induction false} ClaimsLookups(c: Claims)
    ensures var m := ClaimsMembers(c);
            && Json.Lookup(m, V) == Some(Json.Number(Whole(1))) && Json.Lookup(m, APP_ID) == Some(Json.String(c.appId))
            && Json.Lookup(m, WORKSPACE_ID) == Some(Json.String(c.workspaceId))
            && Json.Lookup(m, CHECKPOINT_ID) == Some(Json.String(c.checkpointId))
            && Json.Lookup(m, SCOPE) == Some(Json.String(if c.scope == Interact then INTERACT else READ))
            && Json.Lookup(m, IAT) == Some(Json.Number(Whole(c.iat))) && Json.Lookup(m, EXP) == Some(Json.Number(Whole(c.exp)))
            && (c.parentOrigin.Some? ==> Json.Lookup(m, PARENT_ORIGIN) == Some(Json.String(c.parentOrigin.value)))
  {
    var m := ClaimsMembers(c);
    MembersDistinct(c);
    LookupAt(m, 0);
    LookupAt(m, 1);
    LookupAt(m, 2);
    LookupAt(m, 3);
    LookupAt(m, 4);
    LookupAt(m, 5);
    LookupAt(m, |m| - 2);
    LookupAt(m, |m| - 1);
  }

  lemma {:induction false} ClaimsParts(host: Host, c: Claims)
    requires WellMade(host, c)
    ensures var m := ClaimsMembers(c);
            && ScopeAt(m) == Some(c.scope) && IdentifierAt(m, APP_ID) == Some(c.appId)
            && IdentifierAt(m, WORKSPACE_ID) == Some(c.workspaceId)
            && IdentifierAt(m, CHECKPOINT_ID) == Some(c.checkpointId)
            && IntegerAt(m, IAT) == Some(c.iat) && IntegerAt(m, EXP) == Some(c.exp)
            && (c.parentOrigin.Some? ==> TextAt(m, PARENT_ORIGIN) == c.parentOrigin)
            && Json.Lookup(m, V) == Some(Json.Number(Whole(1)))
  {
    ClaimsLookups(c);
    KeysDiffer();
    IntegerOfWhole(c.iat);
    IntegerOfWhole(c.exp);
  }

  lemma {:induction false} PartsParse(host: Host, members: seq<Json.Member>, c: Claims)
    requires Keys(members) == ExpectedKeys(c.scope) && Json.Lookup(members, V) == Some(Json.Number(Whole(1)))
    requires ScopeAt(members) == Some(c.scope) && IdentifierAt(members, APP_ID) == Some(c.appId)
    requires IdentifierAt(members, WORKSPACE_ID) == Some(c.workspaceId)
    requires IdentifierAt(members, CHECKPOINT_ID) == Some(c.checkpointId)
    requires IntegerAt(members, IAT) == Some(c.iat) && IntegerAt(members, EXP) == Some(c.exp)
    requires c.parentOrigin.Some? <==> c.scope == Interact
    requires c.parentOrigin.Some? ==>
               TextAt(members, PARENT_ORIGIN) == c.parentOrigin && NormalizeHttpOrigin(host, c.parentOrigin) == c.parentOrigin
    ensures ParseMembers(host, members) == Some(c)
  {
  }

  /** Reading the text of minted claims gives the claims. */
  lemma {:induction false} ClaimsRoundTrip(host: Host, c: Claims)
    requires WellMade(host, c)
    ensures Json.Parse(ClaimsText(c)) == Some(Json.Object(ClaimsMembers(c)))
    ensures ParseClaims(host, Json.Object(ClaimsMembers(c))) == Some(c)
  {
    Json.ParseOfPrint(Json.Object(ClaimsMembers(c)), Json.Standard);
    ClaimsKeys(c);
    ClaimsParts(host, c);
    PartsParse(host, ClaimsMembers(c), c);
  }

  // ----- the parts of a token

  lemma {:induction false} SplitToken(payload: Text, signature: Text)
    requires DOT !in payload && DOT !in signature
    ensures Split(DOT, PREFIX + [DOT] + payload + [DOT] + signature) == [PREFIX, payload, signature]
  {
    assert DOT !in PREFIX by {
      assert |PREFIX| == 3 && PREFIX[0] == 112 && PREFIX[1] == 116 && PREFIX[2] == 49;
    }
    var rest := payload + [DOT] + signature;
    assert PREFIX + [DOT] + payload + [DOT] + signature == PREFIX + [DOT] + rest;
    SplitFirst(DOT, PREFIX, rest);
    SplitFirst(DOT, payload, signature);
    SplitFirst(DOT, signature, []);
  }

  // ----- main results

  lemma {:induction false} MintedIsWellMade(host: Host, input: Input, now: Instant, secret: Option<Text>)
    requires Lawful(host) && Mint(host, input, now, secret).Some?
    ensures var c := Mint(host, input, now, secret).value.1;
            && WellMade(host, c) && c.iat == Seconds(now) && 0 < c.exp - c.iat <= MaxTtl(c.scope)
            && c.appId == input.appId && c.scope == input.scope
  {
    if input.scope == Interact {
      var origin := NormalizeHttpOrigin(host, input.parentOrigin).value;
      assert origin != [] && host.origin(origin) == Some(origin);
    }
  }

  lemma {:induction false} MintedParts(host: Host, c: Claims, secret: Text)
    requires Lawful(host) && WellMade(host, c)
    ensures var payload := host.encode(ClaimsText(c));
            && Split(DOT, Token(host, secret, payload)) == [PREFIX, payload, host.sign(secret, payload)]
            && Json.Parse(host.decode(payload)) == Some(Json.Object(ClaimsMembers(c)))
            && ParseClaims(host, Json.Object(ClaimsMembers(c))) == Some(c)
  {
    var payload := host.encode(ClaimsText(c));
    CanonicalJson.PrintIsPaired(Json.Object(ClaimsMembers(c)), Json.Standard);
    assert host.decode(payload) == ClaimsText(c);
    ClaimsRoundTrip(host, c);
    SplitToken(payload, host.sign(secret, payload));
  }

  /**
   A minted token of at most 4096 characters verifies, under the secret it was
   minted with and for its app, to the claims it was minted with, exactly from
   five minutes before it was issued until it expires; a longer one never does.
   */
  lemma {:induction false} MintedVerifies(host: Host, input: Input, now: Instant, secret: Option<Text>, later: Instant)
    requires Lawful(host) && Mint(host, input, now, secret).Some?
    ensures var (token, c) := Mint(host, input, now, secret).value;
            Verify(host, token, c.appId, later, secret) ==
            if |token| <= MAX_LENGTH && c.iat - CLOCK_SKEW_SECONDS <= Seconds(later) < c.exp then Some(c) else None
  {
    var (token, c) := Mint(host, input, now, secret).value;
    MintedIsWellMade(host, input, now, secret);
    MintedParts(host, c, secret.value);
    assert token == Token(host, secret.value, host.encode(ClaimsText(c)));
    assert Split(DOT, token)[0] == PREFIX && |Split(DOT, token)| == 3;
    assert token != [];
  }

  /** What is read out of claims is well-formed. */
  lemma {:induction false} ReadClaimsAreValid(host: Host, value: Json.Value)
    requires ParseClaims(host, value).Some?
    ensures var c := ParseClaims(host, value).value;
            && (c.parentOrigin.Some? <==> c.scope == Interact)
            && ValidIdentifier(c.appId) && ValidIdentifier(c.workspaceId) && ValidIdentifier(c.checkpointId)
  {
  }

  lemma {:induction false} ThreeParts(separator: CodeUnit, token: Text)
    requires |Split(separator, token)| == 3
    ensures var parts := Split(separator, token);
            token == parts[0] + [separator] + parts[1] + [separator] + parts[2]
  {
    hide Split;
    var parts := Split(separator, token);
    JoinOfSplit(separator, token);
    assert Join(separator, parts) == parts[0] + [separator] + Join(separator, parts[1..]);
    assert Join(separator, parts[1..]) == parts[1] + [separator] + Join(separator, parts[1..][1..]);
    assert Join(separator, parts[1..][1..]) == parts[2];
  }

  /**
   An accepted token is signed under the secret, names the app of the route, and
   has at most the time its scope allows, and the clock skew, left.
   */
  lemma {:induction false} AcceptedIsBounded(host: Host, token: Text, routeAppId: Text, now: Instant, secret: Option<Text>)
    returns (payload: Text)
    requires Verify(host, token, routeAppId, now, secret).Some?
    ensures secret.Some? && token == Token(host, secret.value, payload) && |token| <= MAX_LENGTH
    ensures var c := Verify(host, token, routeAppId, now, secret).value;
            && c.appId == routeAppId
            && 0 < c.exp - Seconds(now) <= MaxTtl(c.scope) + CLOCK_SKEW_SECONDS
            && (c.parentOrigin.Some? <==> c.scope == Interact)
            && ValidIdentifier(c.appId) && ValidIdentifier(c.workspaceId) && ValidIdentifier(c.checkpointId)
  {
    hide Split;
    hide ParseClaims;
    hide ValidIdentifier;
    hide Json.Parse;
    var parts := Split(DOT, token);
    payload := parts[1];
    ThreeParts(DOT, token);
    ReadClaimsAreValid(host, Json.Parse(host.decode(payload)).value);
  }

  // ----- when a token is minted, and when it is accepted

  /** A letter or digit, followed by letters, digits, dots, underscores, colons and dashes; 200 characters at most. */
  ghost predicate IsIdentifier(t: Text) {
    && 0 < |t| <= 200
    && (forall i :: 0 <= i < |t| ==>
          || 'a' as int <= t[i] <= 'z' as int || 'A' as int <= t[i] <= 'Z' as int || '0' as int <= t[i] <= '9' as int
          || (i > 0 && (t[i] == '.' as int || t[i] == '_' as int || t[i] == ':' as int || t[i] == '-' as int)))
  }

  lemma {:induction false} IdentifierExactly(t: Text)
    ensures ValidIdentifier(t) <==> IsIdentifier(t)
  {
  }

  /** Interactive previews last 15 minutes, or up to an hour if asked for; others an hour, or up to a day. */
  ghost predicate IsLifetime(input: Input, seconds: int) {
    var interacts := input.scope == Interact;
    match input.ttlSeconds
    case Some(n) =>
      if n < 1 || n > 9_007_199_254_740_991 then seconds == if interacts then 900 else 3600
      else
        var most := if interacts then 3600 else 86_400;
        seconds == if n > most then most else n
    case None => seconds == if interacts then 900 else 3600
  }

  ghost predicate HasOrigin(host: Host, value: Option<Text>, origin: Text) {
    value.Some? && value.value != [] && host.origin(value.value) == Some(origin)
  }

  /** What may be minted: claims for valid ids, and for an interactive preview with an origin to talk to. */
  ghost predicate IsMintable(host: Host, input: Input, secret: Option<Text>) {
    && IsIdentifier(input.appId) && IsIdentifier(input.workspaceId) && IsIdentifier(input.checkpointId) && secret.Some?
    && (input.scope == Interact ==> exists origin :: HasOrigin(host, input.parentOrigin, origin))
  }

  /** Minting succeeds exactly on what may be minted; the claims say what was asked for, from now on for its lifetime. */
  lemma {:induction false} MintedExactly(host: Host, input: Input, now: Instant, secret: Option<Text>)
    ensures Mint(host, input, now, secret).Some? <==> IsMintable(host, input, secret)
    ensures Mint(host, input, now, secret).Some? ==>
              var (token, c) := Mint(host, input, now, secret).value;
              var payload := host.encode(ClaimsText(c));
              && c.appId == input.appId && c.workspaceId == input.workspaceId && c.checkpointId == input.checkpointId
              && c.scope == input.scope
              && (if input.scope == Interact then c.parentOrigin.Some? && HasOrigin(host, input.parentOrigin, c.parentOrigin.value)
                  else c.parentOrigin == None)
              && c.iat * 1000 <= now < (c.iat + 1) * 1000 && IsLifetime(input, c.exp - c.iat)
              && token == Literal("pt1.") + payload + Literal(".") + host.sign(secret.value, payload)
  {
    hide ClaimsText;
    hide ValidIdentifier;
    hide IsIdentifier;
    IdentifierExactly(input.appId);
    IdentifierExactly(input.workspaceId);
    IdentifierExactly(input.checkpointId);
    TokenParts();
    if input.scope == Interact {
      var origin := NormalizeHttpOrigin(host, input.parentOrigin);
      assert origin.Some? ==> HasOrigin(host, input.parentOrigin, origin.value);
    }
  }

  lemma {:induction false} TokenParts()
    ensures Literal("pt1.") == PREFIX + [DOT] && Literal(".") == [DOT]
  {
  }

  ghost predicate Holds(members: seq<Json.Member>, key: string, value: Json.Value) {
    Json.Lookup(members, Literal(key)) == Some(value)
  }

  /** The member is a whole number that a double holds exactly. */
  ghost predicate HoldsInteger(members: seq<Json.Member>, key: string, n: int) {
    Holds(members, key, Json.Number(Whole(n))) && -9_007_199_254_740_991 <= n <= 9_007_199_254_740_991
  }

  /** The members are those of the claims, and no others. */
  ghost predicate Carries(host: Host, members: seq<Json.Member>, c: Claims) {
    && Keys(members) == {Literal("v"), Literal("appId"), Literal("workspaceId"), Literal("checkpointId"), Literal("scope"),
                         Literal("iat"), Literal("exp")} + (if c.scope == Interact then {Literal("parentOrigin")} else {})
    && Holds(members, "v", Json.Number(Whole(1)))
    && Holds(members, "appId", Json.String(c.appId)) && IsIdentifier(c.appId)
    && Holds(members, "workspaceId", Json.String(c.workspaceId)) && IsIdentifier(c.workspaceId)
    && Holds(members, "checkpointId", Json.String(c.checkpointId)) && IsIdentifier(c.checkpointId)
    && Holds(members, "scope", Json.String(if c.scope == Interact then Literal("interact") else Literal("read")))
    && HoldsInteger(members, "iat", c.iat) && HoldsInteger(members, "exp", c.exp)
    && if c.scope == Interact then c.parentOrigin.Some? && CarriesOrigin(host, members, c.parentOrigin.value)
       else c.parentOrigin == None
  }

  ghost predicate CarriesOrigin(host: Host, members: seq<Json.Member>, origin: Text) {
    exists t :: Holds(members, "parentOrigin", Json.String(t)) && t != [] && host.origin(t) == Some(origin)
  }

  lemma {:induction false} SameSize<T>(s: set<T>, t: set<T>)
    requires s <= t && |s| == |t|
    ensures s == t
  {
    if x :| x in t && x !in s {
      SmallerSet(s, t - {x});
    }
  }

  lemma {:induction false} SmallerSet<T>(s: set<T>, t: set<T>)
    requires s <= t
    ensures |s| <= |t|
  {
    if s != {} {
      var x :| x in s;
      SmallerSet(s - {x}, t - {x});
    }
  }

  lemma {:induction false} IntegerExactly(members: seq<Json.Member>, key: string, n: int)
    ensures IntegerAt(members, Literal(key)) == Some(n) <==> HoldsInteger(members, key, n)
  {
    hide Json.Lookup;
    hide Literal;
    hide Shortest;
    IntegerOfWhole(n);
    var found := Json.Lookup(members, Literal(key));
    if found.Some? && found.value.Number? && IntegerOf(found.value.n) == Some(n) {
      WholeExactly(found.value.n);
    }
  }

  lemma {:induction false} TextExactly(members: seq<Json.Member>, key: string, t: Text)
    ensures TextAt(members, Literal(key)) == Some(t) <==> Holds(members, key, Json.String(t))
    ensures IdentifierAt(members, Literal(key)) == Some(t) <==> Holds(members, key, Json.String(t)) && IsIdentifier(t)
  {
    hide Json.Lookup;
    hide Literal;
    hide ValidIdentifier;
    hide IsIdentifier;
    IdentifierExactly(t);
  }

  lemma {:induction false} OriginExactly(host: Host, members: seq<Json.Member>, origin: Text)
    ensures NormalizeHttpOrigin(host, TextAt(members, PARENT_ORIGIN)) == Some(origin) <==> CarriesOrigin(host, members, origin)
  {
    hide Literal;
    hide Json.Lookup;
    var t := TextAt(members, PARENT_ORIGIN);
    if t.Some? {
      assert Holds(members, "parentOrigin", Json.String(t.value));
    }
  }

  lemma {:induction false} ScopeExactly(members: seq<Json.Member>, scope: Scope)
    ensures ScopeAt(members) == Some(scope) <==>
            Holds(members, "scope", Json.String(if scope == Interact then Literal("interact") else Literal("read")))
  {
    KeysDiffer();
    hide Literal;
    hide Json.Lookup;
  }

  ghost predicate IsRead(host: Host, members: seq<Json.Member>, c: Claims) {
    && ScopeAt(members) == Some(c.scope) && Keys(members) == ExpectedKeys(c.scope)
    && Json.Lookup(members, V) == Some(Json.Number(Whole(1)))
    && IdentifierAt(members, APP_ID) == Some(c.appId) && IdentifierAt(members, WORKSPACE_ID) == Some(c.workspaceId)
    && IdentifierAt(members, CHECKPOINT_ID) == Some(c.checkpointId)
    && IntegerAt(members, IAT) == Some(c.iat) && IntegerAt(members, EXP) == Some(c.exp)
    && if c.scope == Interact
       then c.parentOrigin.Some? && NormalizeHttpOrigin(host, TextAt(members, PARENT_ORIGIN)) == c.parentOrigin
       else c.parentOrigin == None
  }

  lemma {:induction false} ParsedParts(host: Host, members: seq<Json.Member>, c: Claims)
    ensures ParseMembers(host, members) == Some(c) <==> IsRead(host, members, c)
  {
    hide Literal;
    hide Shortest;
    hide Json.Lookup;
    hide ScopeAt;
    hide IdentifierAt;
    hide IntegerAt;
    hide TextAt;
    hide NormalizeHttpOrigin;
    hide Keys;
    hide ExpectedKeys;
    var scope := ScopeAt(members);
    if scope.Some? && Keys(members) <= ExpectedKeys(scope.value) && |Keys(members)| == |ExpectedKeys(scope.value)| {
      SameSize(Keys(members), ExpectedKeys(scope.value));
    }
  }

  /** Claims are read out of exactly the members that carry them. */
  lemma {:induction false} ParsedExactly(host: Host, members: seq<Json.Member>, c: Claims)
    ensures ParseMembers(host, members) == Some(c) <==> Carries(host, members, c)
  {
    hide Literal;
    hide Shortest;
    hide Json.Lookup;
    hide ParseMembers;
    hide ScopeAt;
    hide IdentifierAt;
    hide IntegerAt;
    hide TextAt;
    hide NormalizeHttpOrigin;
    hide IsIdentifier;
    hide HoldsInteger;
    hide CarriesOrigin;
    hide Keys;
    ParsedParts(host, members, c);
    ScopeExactly(members, c.scope);
    TextExactly(members, "appId", c.appId);
    TextExactly(members, "workspaceId", c.workspaceId);
    TextExactly(members, "checkpointId", c.checkpointId);
    IntegerExactly(members, "iat", c.iat);
    IntegerExactly(members, "exp", c.exp);
    if c.parentOrigin.Some? {
      OriginExactly(host, members, c.parentOrigin.value);
    }
  }

  /** A text of three parts: the prefix, a payload, and the signature of the payload under the secret. */
  ghost predicate IsSigned(host: Host, token: Text, secret: Text, payload: Text) {
    DOT !in payload && token == Literal("pt1.") + payload + Literal(".") + host.sign(secret, payload)
  }

  /** Five minutes before they were issued or later, not expired, and for no longer than their scope allows. */
  ghost predicate IsCurrent(c: Claims, now: Instant) {
    && c.exp * 1000 > now && c.iat * 1000 <= now + 300_000
    && 0 < c.exp - c.iat <= if c.scope == Interact then 3600 else 86_400
  }

  lemma {:induction false} CurrentExactly(c: Claims, now: Instant)
    ensures InTime(c, now) <==> IsCurrent(c, now)
  {
  }

  ghost predicate IsPayloadOf(host: Host, payload: Text, c: Claims) {
    exists members :: Json.Parse(host.decode(payload)) == Some(Json.Object(members)) && Carries(host, members, c)
  }

  /**
   A token is accepted for an app exactly if it has 4096 characters at most, is signed under the
   secret, and its payload carries current claims for the app; these are what is accepted.
   */
  lemma {:induction false} AcceptedExactly(
    host: Host, token: Text, routeAppId: Text, now: Instant, secret: Option<Text>, c: Claims)
    requires Lawful(host)
    ensures Verify(host, token, routeAppId, now, secret) == Some(c) <==>
            && |token| <= 4096 && secret.Some? && c.appId == routeAppId && IsCurrent(c, now)
            && exists payload :: IsSigned(host, token, secret.value, payload) && IsPayloadOf(host, payload, c)
  {
    hide Literal;
    hide InTime;
    hide IsCurrent;
    hide ParseMembers;
    hide Carries;
    hide Json.Parse;
    hide Split;
    CurrentExactly(c, now);
    TokenParts();
    if secret.Some? {
      forall payload | IsSigned(host, token, secret.value, payload)
        ensures Split(DOT, token) == [PREFIX, payload, host.sign(secret.value, payload)] && token != [] {
        SplitToken(payload, host.sign(secret.value, payload));
      }
      forall payload ensures PayloadIs(host, payload, c) <==> IsPayloadOf(host, payload, c) {
        PayloadExactly(host, payload, c);
      }
      if |Split(DOT, token)| == 3 && Split(DOT, token)[0] == PREFIX {
        var payload := Split(DOT, token)[1];
        ThreeParts(DOT, token);
        SplitPartsHaveNone(DOT, token);
        assert Split(DOT, token)[2] == host.sign(secret.value, payload) ==> IsSigned(host, token, secret.value, payload);
      }
    }
  }

  predicate PayloadIs(host: Host, payload: Text, c: Claims) {
    match Json.Parse(host.decode(payload))
    case Some(value) => ParseClaims(host, value) == Some(c)
    case None => false
  }

  lemma {:induction false} PayloadExactly(host: Host, payload: Text, c: Claims)
    ensures PayloadIs(host, payload, c) <==> IsPayloadOf(host, payload, c)
  {
    hide Json.Parse;
    hide ParseMembers;
    hide Carries;
    match Json.Parse(host.decode(payload))
    case Some(Object(members)) => ParsedExactly(host, members, c);
    case _ =>
  }

  ghost function TextMember(key: string, t: Text): Json.Member { Json.Member(Literal(key), Json.String(t)) }

  ghost function NumberMember(key: string, n: int): Json.Member { Json.Member(Literal(key), Json.Number(Whole(n))) }

  /** The payload is the claims in this order. */
  lemma {:induction false} ClaimsInOrder(c: Claims)
    ensures ClaimsMembers(c) ==
            [NumberMember("v", 1), TextMember("appId", c.appId), TextMember("workspaceId", c.workspaceId),
             TextMember("checkpointId", c.checkpointId),
             TextMember("scope", if c.scope == Interact then Literal("interact") else Literal("read"))]
            + (if c.parentOrigin.Some? then [TextMember("parentOrigin", c.parentOrigin.value)] else [])
            + [NumberMember("iat", c.iat), NumberMember("exp", c.exp)]
  {
    hide Literal;
    hide Shortest;
  }
}
