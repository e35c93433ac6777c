/** The cleaning of texts and route paths in change requests. */
module RoutePaths {
  import opened Separators
  import opened Texts
  import opened Wrappers

  const SPACE: CodeUnit := 32
  const QUESTION: CodeUnit := 63

  /** What `\s` matches and `trim` removes. */
  type Space = CodeUnit -> bool

  function DropSpaces(space: Space, t: Text): (r: Text)
    ensures |r| <= |t| && (r != [] ==> !space(r[0])) && r == t[|t| - |r|..]
  {
    if t != [] && space(t[0]) then DropSpaces(space, t[1..]) else t
  }

  function DropSpacesAtEnd(space: Space, t: Text): (r: Text)
    ensures |r| <= |t| && (r != [] ==> !space(r[|r| - 1])) && r == t[..|r|]
  {
    if t != [] && space(t[|t| - 1]) then DropSpacesAtEnd(space, t[..|t| - 1]) else t
  }

  /** `replace(/\s+/g, " ")` */
  function Collapse(space: Space, t: Text): Text
    decreases |t|
  {
    if t == [] then []
    else if space(t[0]) then [SPACE] + Collapse(space, DropSpaces(space, t[1..]))
    else [t[0]] + Collapse(space, t[1..])
  }

  function CleanText(space: Space, t: Text): Text { DropSpacesAtEnd(space, DropSpaces(space, Collapse(space, t))) }

  ghost predicate SingleSpaces(space: Space, t: Text) {
    forall i :: 0 <= i < |t| && space(t[i]) ==> t[i] == SPACE && (i + 1 < |t| ==> !space(t[i + 1]))
  }

  /** Single blanks inside, none at the edges. */
  ghost predicate IsClean(space: Space, t: Text) {
    SingleSpaces(space, t) && (t != [] ==> !space(t[0]) && !space(t[|t| - 1]))
  }

  lemma {:induction false} SinglePrepended(space: Space, c: CodeUnit, t: Text)
    requires SingleSpaces(space, t) && (space(c) ==> c == SPACE && (t != [] ==> !space(t[0])))
    ensures SingleSpaces(space, [c] + t)
  {
    var all := [c] + t;
    assert forall i :: 0 < i < |all| ==> all[i] == t[i - 1];
  }

  lemma {:induction false} CollapseSingle(space: Space, t: Text)
    ensures SingleSpaces(space, Collapse(space, t))
    ensures t != [] && !space(t[0]) ==> Collapse(space, t) != [] && Collapse(space, t)[0] == t[0]
    ensures Collapse(space, t) != [] && space(Collapse(space, t)[0]) ==> t != [] && space(t[0])
    decreases |t|
  {
    if t != [] {
      hide SingleSpaces;
      var rest := if space(t[0]) then DropSpaces(space, t[1..]) else t[1..];
      CollapseSingle(space, rest);
      if space(t[0]) {
        SinglePrepended(space, SPACE, Collapse(space, rest));
      } else {
        SinglePrepended(space, t[0], Collapse(space, rest));
      }
    }
  }

  lemma {:induction false} CollapseOfSingle(space: Space, t: Text)
    requires SingleSpaces(space, t)
    ensures Collapse(space, t) == t
  {
    if t != [] {
      assert SingleSpaces(space, t[1..]) by {
        assert forall i :: 0 <= i < |t[1..]| ==> t[1..][i] == t[i + 1];
      }
      CollapseOfSingle(space, t[1..]);
    }
  }

  lemma {:induction false} SingleInPart(space: Space, t: Text, from: nat, to: nat)
    requires SingleSpaces(space, t) && from <= to <= |t|
    ensures SingleSpaces(space, t[from..to])
  {
    var part := t[from..to];
    forall i | 0 <= i < |part| && space(part[i])
      ensures part[i] == SPACE && (i + 1 < |part| ==> !space(part[i + 1]))
    {
      assert part[i] == t[from + i];
    }
  }

  lemma {:induction false} DropSpacesSingle(space: Space, t: Text)
    requires SingleSpaces(space, t)
    ensures SingleSpaces(space, DropSpaces(space, t))
  {
    SingleInPart(space, t, |t| - |DropSpaces(space, t)|, |t|);
  }

  lemma {:induction false} DropSpacesAtEndClean(space: Space, t: Text)
    requires SingleSpaces(space, t) && (t != [] ==> !space(t[0]))
    ensures IsClean(space, DropSpacesAtEnd(space, t))
  {
    SingleInPart(space, t, 0, |DropSpacesAtEnd(space, t)|);
  }

  lemma {:induction false} CleanIsClean(space: Space, t: Text)
    ensures IsClean(space, CleanText(space, t))
  {
    CollapseSingle(space, t);
    DropSpacesSingle(space, Collapse(space, t));
    DropSpacesAtEndClean(space, DropSpaces(space, Collapse(space, t)));
  }

  lemma {:induction false} CleanOfClean(space: Space, t: Text)
    requires IsClean(space, t)
    ensures CleanText(space, t) == t
  {
    CollapseOfSingle(space, t);
  }

  /** Cleaning gives clean texts, and leaves exactly these as they are. */
  lemma {:induction false} CleanExactly(space: Space, t: Text)
    ensures IsClean(space, CleanText(space, t))
    ensures CleanText(space, t) == t <==> IsClean(space, t)
    ensures CleanText(space, CleanText(space, t)) == CleanText(space, t)
  {
    CleanIsClean(space, t);
    CleanOfClean(space, CleanText(space, t));
    if IsClean(space, t) {
      CleanOfClean(space, t);
    }
  }

  lemma {:induction false} EndKeepsStart(space: Space, t: Text)
    requires t != [] && !space(t[0])
    ensures DropSpacesAtEnd(space, t) != []
  {
    if space(t[|t| - 1]) {
      EndKeepsStart(space, t[..|t| - 1]);
    }
  }

  lemma {:induction false} CleanKeepsStart(space: Space, t: Text)
    requires t != [] && !space(t[0])
    ensures CleanText(space, t) != [] && CleanText(space, t)[0] == t[0]
  {
    CollapseSingle(space, t);
    EndKeepsStart(space, Collapse(space, t));
  }

  function UpTo(t: Text, c: CodeUnit): (r: Text)
    ensures |r| <= |t|
  {
    if t == [] || t[0] == c then [] else [t[0]] + UpTo(t[1..], c)
  }

  /** What follows the first `c`. */
  function Behind(t: Text, c: CodeUnit): Text {
    if t == [] then [] else if t[0] == c then t[1..] else Behind(t[1..], c)
  }

  function SlashesForward(t: Text): Text {
    seq(|t|, i requires 0 <= i < |t| => if t[i] == BACKSLASH then SLASH else t[i])
  }

  function SingleSlashes(t: Text): Text {
    if t == [] then []
    else if t[0] == SLASH && |t| > 1 && t[1] == SLASH then SingleSlashes(t[1..])
    else [t[0]] + SingleSlashes(t[1..])
  }

  function NormalizePath(space: Space, value: Text): (r: Option<Text>)
    ensures r.Some? ==> r.value != [] && r.value[0] == SLASH
  {
    var trimmed := CleanText(space, value);
    if trimmed == [] then None
    else
      var pathname, query := UpTo(trimmed, QUESTION), UpTo(Behind(trimmed, QUESTION), QUESTION);
      var single := SingleSlashes(SlashesForward(pathname));
      var normalized := if single != [] && single[|single| - 1] == SLASH then single[..|single| - 1] else single;
      var prefixed := if normalized != [] && normalized[0] == SLASH then normalized else [SLASH] + normalized;
      Some(prefixed + if query != [] then [QUESTION] + query else [])
  }

  lemma {:induction false} WithoutUnit(t: Text, c: CodeUnit)
    requires c !in t
    ensures UpTo(t, c) == t && Behind(t, c) == []
  {
    if t != [] {
      WithoutUnit(t[1..], c);
    }
  }

  /** A text in which no slash follows another keeps them all. */
  lemma {:induction false} SingleSlashesOf(t: Text)
    requires forall i :: 0 < i < |t| ==> !(t[i - 1] == SLASH && t[i] == SLASH)
    ensures SingleSlashes(t) == t
  {
    if t != [] {
      assert |t| > 1 ==> !(t[0] == SLASH && t[1] == SLASH);
      assert forall i :: 0 < i < |t[1..]| ==> t[1..][i - 1] == t[i] && t[1..][i] == t[i + 1];
      SingleSlashesOf(t[1..]);
    }
  }

  /** A path is cleaned and loses one slash at its end, and nothing else if there is nothing else to change. */
  lemma {:induction false} LastSlashGoes(space: Space, value: Text, path: Text)
    requires CleanText(space, value) == path + [SLASH] && path != [] && path[0] == SLASH && path[|path| - 1] != SLASH
    requires QUESTION !in path && BACKSLASH !in path
    requires forall i :: 0 < i < |path| ==> !(path[i - 1] == SLASH && path[i] == SLASH)
    ensures NormalizePath(space, value) == Some(path)
  {
    hide CleanText;
    hide UpTo;
    hide Behind;
    hide SlashesForward;
    hide SingleSlashes;
    var t := path + [SLASH];
    WithoutUnit(t, QUESTION);
    WithoutUnit([], QUESTION);
    PathForward(t);
    SingleSlashesOf(t);
    assert path + [] == path;
  }

  /** The blank is white space; the slash, the letter "a" and the question mark are not. */
  predicate IsUsual(space: Space) { space(SPACE) && !space(SLASH) && !space(97) && !space(QUESTION) }

  lemma {:induction false} BlanksInside(space: Space, path: Text)
    requires path == [SLASH, 97, SPACE] && IsUsual(space)
    ensures !IsClean(space, path) && IsClean(space, path + [SLASH]) && IsClean(space, path + [SLASH, SPACE, SLASH])
    ensures SingleSpaces(space, path + [SLASH, SPACE])
  {
    var t := path + [SLASH, SPACE, SLASH];
    assert !space(t[0]) && !space(t[1]) && !space(t[3]) && !space(t[5]);
    assert path[|path| - 1] == SPACE;
  }

  /** What was cleaned up to a blank at the end is cleaned by dropping it. */
  lemma {:induction false} LastBlankGoes(space: Space, path: Text)
    requires IsUsual(space) && IsClean(space, path) && path != [] && SingleSpaces(space, path + [SPACE])
    ensures CleanText(space, path + [SPACE]) == path
  {
    var t := path + [SPACE];
    CollapseOfSingle(space, t);
    assert DropSpaces(space, t) == t;
    assert t[..|t| - 1] == path;
    assert DropSpacesAtEnd(space, t) == DropSpacesAtEnd(space, path) == path;
  }

  /** A path need not be clean, not even if it is normalized twice: "/a / /" gives "/a / ", and that gives "/a ". */
  lemma {:induction false} NormalizedTwiceMayEndBlank(space: Space, path: Text)
    requires path == [SLASH, 97, SPACE] && IsUsual(space)
    ensures NormalizePath(space, path + [SLASH, SPACE, SLASH]) == Some(path + [SLASH, SPACE])
    ensures NormalizePath(space, path + [SLASH, SPACE]) == Some(path)
    ensures !IsClean(space, path)
  {
    hide CleanText;
    BlanksInside(space, path);
    CleanOfClean(space, path + [SLASH, SPACE, SLASH]);
    assert path + [SLASH, SPACE, SLASH] == (path + [SLASH, SPACE]) + [SLASH];
    LastSlashGoes(space, path + [SLASH, SPACE, SLASH], path + [SLASH, SPACE]);
    assert path + [SLASH, SPACE] == (path + [SLASH]) + [SPACE];
    LastBlankGoes(space, path + [SLASH]);
    LastSlashGoes(space, path + [SLASH, SPACE], path);
  }

  lemma {:induction false} SingleLetterPath(space: Space, path: Text)
    requires path == [SLASH, 97] && IsUsual(space)
    ensures IsClean(space, path) && IsClean(space, path[1..])
  {
  }

  /** The steps of normalizing "a". */
  lemma {:induction false} SingleLetterParts()
    ensures UpTo([97], QUESTION) == [97] && Behind([97], QUESTION) == [] && UpTo([], QUESTION) == []
    ensures SlashesForward([97]) == [97] && SingleSlashes([97]) == [97]
  {
    assert [97][1..] == [];
  }

  lemma {:induction false} PathForward(path: Text)
    requires BACKSLASH !in path
    ensures SlashesForward(path) == path
  {
  }

  /** A path without white space, query, backslashes, doubled slashes or a slash at its end is normal. */
  lemma {:induction false} PlainPathStays(space: Space, path: Text)
    requires |path| > 1 && path[0] == SLASH && path[|path| - 1] != SLASH && QUESTION !in path && BACKSLASH !in path
    requires forall i :: 0 <= i < |path| ==> !space(path[i])
    requires forall i :: 0 < i < |path| ==> !(path[i - 1] == SLASH && path[i] == SLASH)
    ensures NormalizePath(space, path) == Some(path)
  {
    hide CleanText;
    hide UpTo;
    hide Behind;
    hide SlashesForward;
    hide SingleSlashes;
    CleanOfClean(space, path);
    WithoutUnit(path, QUESTION);
    WithoutUnit([], QUESTION);
    PathForward(path);
    SingleSlashesOf(path);
    assert path + [] == path;
  }

  /** "a" normalizes to "/a", and that to itself. */
  lemma {:induction false} SlashIsAdded(space: Space, path: Text)
    requires path == [SLASH, 97] && IsUsual(space)
    ensures NormalizePath(space, [97]) == Some(path) && NormalizePath(space, path) == Some(path)
    ensures CleanText(space, path) == path
  {
    hide CleanText;
    hide UpTo;
    hide Behind;
    hide SlashesForward;
    hide SingleSlashes;
    SingleLetterPath(space, path);
    CleanOfClean(space, path);
    assert path[1..] == [97];
    CleanOfClean(space, [97]);
    SingleLetterParts();
    WithoutUnit(path, QUESTION);
    SingleSlashesOf(path);
    PathForward(path);
    assert [SLASH] + [97] == path && path + [] == path;
  }

  /** " /a" cleans to "/a". */
  lemma {:induction false} BlankIsDropped(space: Space, path: Text)
    requires path == [SLASH, 97] && IsUsual(space)
    ensures CleanText(space, [SPACE] + path) == path
  {
    var t := [SPACE] + path;
    assert t[1..] == path && t == [SPACE, SLASH, 97];
    SingleLetterPath(space, path);
    CollapseOfSingle(space, path);
    assert DropSpaces(space, path) == path;
    assert Collapse(space, t) == t;
    assert DropSpaces(space, t) == path;
  }

  // ----- what cleaning does

  /** The words of a text: the longest parts without white space. */
  ghost function Words(space: Space, t: Text): (r: seq<Text>)
    ensures t != [] && !space(t[0]) ==> r != []
  {
    if t == [] then []
    else
      var rest := Words(space, t[1..]);
      if space(t[0]) then rest
      else if |t| == 1 || space(t[1]) then [[t[0]]] + rest
      else [[t[0]] + rest[0]] + rest[1..]
  }

  lemma {:induction false} WordsOfDropped(space: Space, t: Text)
    ensures Words(space, DropSpaces(space, t)) == Words(space, t)
  {
    if t != [] && space(t[0]) {
      WordsOfDropped(space, t[1..]);
    }
  }

  lemma {:induction false} WordsOfLast(space: Space, t: Text)
    requires t != [] && space(t[|t| - 1])
    ensures Words(space, t[..|t| - 1]) == Words(space, t)
  {
    if |t| > 1 {
      WordsOfLast(space, t[1..]);
      assert t[..|t| - 1][1..] == t[1..][..|t[1..]| - 1];
    }
  }

  lemma {:induction false} WordsOfDroppedAtEnd(space: Space, t: Text)
    ensures Words(space, DropSpacesAtEnd(space, t)) == Words(space, t)
  {
    if t != [] && space(t[|t| - 1]) {
      WordsOfDroppedAtEnd(space, t[..|t| - 1]);
      WordsOfLast(space, t);
    }
  }

  lemma {:induction false} WordsOfCollapsed(space: Space, t: Text)
    requires space(SPACE)
    ensures Words(space, Collapse(space, t)) == Words(space, t)
    ensures Collapse(space, t) == [] <==> t == []
    ensures t != [] ==> (space(Collapse(space, t)[0]) <==> space(t[0]))
    decreases |t|
  {
    if t != [] {
      if space(t[0]) {
        var rest := DropSpaces(space, t[1..]);
        WordsOfCollapsed(space, rest);
        WordsOfDropped(space, t[1..]);
        assert Collapse(space, t)[1..] == Collapse(space, rest);
      } else {
        WordsOfCollapsed(space, t[1..]);
        assert Collapse(space, t)[1..] == Collapse(space, t[1..]);
      }
    }
  }

  lemma {:induction false} CleanIsJoined(space: Space, t: Text)
    requires IsClean(space, t)
    ensures t == Join(SPACE, Words(space, t))
    decreases |t|
  {
    if |t| > 1 {
      var rest := t[1..];
      if space(t[1]) {
        var more := t[2..];
        SingleInPart(space, t, 2, |t|);
        assert !space(t[2]) && rest[1..] == more;
        CleanIsJoined(space, more);
        assert Words(space, rest) == Words(space, more);
        assert Words(space, t) == [[t[0]]] + Words(space, more);
        assert ([[t[0]]] + Words(space, more))[1..] == Words(space, more);
        assert t == [t[0]] + [SPACE] + more;
      } else {
        SingleInPart(space, t, 1, |t|);
        CleanIsJoined(space, rest);
        JoinPrepended(SPACE, t[0], Words(space, rest));
        assert t == [t[0]] + rest;
      }
    }
  }

  /** Cleaning leaves the words, with one blank between them. */
  lemma {:induction false} CleanIsWords(space: Space, t: Text)
    requires space(SPACE)
    ensures CleanText(space, t) == Join(SPACE, Words(space, t))
  {
    hide IsClean;
    var collapsed := Collapse(space, t);
    CleanIsClean(space, t);
    WordsOfCollapsed(space, t);
    WordsOfDropped(space, collapsed);
    WordsOfDroppedAtEnd(space, DropSpaces(space, collapsed));
    CleanIsJoined(space, CleanText(space, t));
  }

  // ----- what normalizing does

  ghost function NotEmpty(parts: seq<Text>): seq<Text> {
    if parts == [] then [] else (if parts[0] == [] then [] else [parts[0]]) + NotEmpty(parts[1..])
  }

  /** The segments between slashes that are not empty. */
  ghost function Segments(t: Text): seq<Text> { NotEmpty(Split(SLASH, t)) }

  lemma {:induction false} SegmentsStep(t: Text)
    requires t != []
    ensures t[0] == SLASH ==> Segments(t) == Segments(t[1..])
    ensures t[0] != SLASH && (|t| == 1 || t[1] == SLASH) ==> Segments(t) == [[t[0]]] + Segments(t[1..])
    ensures t[0] != SLASH && |t| > 1 && t[1] != SLASH ==>
              Segments(t[1..]) != [] && Segments(t) == [[t[0]] + Segments(t[1..])[0]] + Segments(t[1..])[1..]
  {
    var rest := Split(SLASH, t[1..]);
    FirstPart(t[1..]);
    if t[0] == SLASH {
      assert ([[]] + rest)[1..] == rest;
    } else {
      var parts := [[t[0]] + rest[0]] + rest[1..];
      assert parts[0] == [t[0]] + rest[0] && parts[1..] == rest[1..];
      assert NotEmpty(parts) == [parts[0]] + NotEmpty(rest[1..]);
      if rest[0] == [] {
        assert parts[0] == [t[0]];
      } else {
        assert NotEmpty(rest) == [rest[0]] + NotEmpty(rest[1..]);
        assert NotEmpty(rest)[1..] == NotEmpty(rest[1..]);
      }
    }
  }

  lemma {:induction false} FirstPart(t: Text)
    ensures Split(SLASH, t)[0] == [] <==> t == [] || t[0] == SLASH
  {
  }

  ghost function Lead(t: Text): Text { if t != [] && t[0] == SLASH then [SLASH] else [] }

  ghost function Trail(t: Text): Text { if t != [] && t[|t| - 1] == SLASH && Segments(t) != [] then [SLASH] else [] }

  /** With single slashes a path is its segments, and a slash on either side where there was one. */
  lemma {:induction false} SingleSlashesAre(t: Text)
    ensures SingleSlashes(t) == Lead(t) + Join(SLASH, Segments(t)) + Trail(t)
  {
    hide Segments;
    hide Join;
    SegmentsOfNothing();
    if t != [] {
      var rest := t[1..];
      SegmentsStep(t);
      SingleSlashesAre(rest);
      if t[0] == SLASH {
        assert rest != [] ==> rest[|rest| - 1] == t[|t| - 1];
      } else if rest == [] {
        JoinOfOne([t[0]]);
        assert rest == [] && [[t[0]]] + Segments([]) == [[t[0]]];
      } else {
        assert rest[|rest| - 1] == t[|t| - 1];
        if rest[0] == SLASH {
          JoinOfMore([t[0]], Segments(rest));
          if Segments(rest) == [] {
            LastOfNone(rest);
          }
        } else {
          JoinPrepended(SLASH, t[0], Segments(rest));
        }
      }
    }
  }

  lemma {:induction false} LastOfNone(t: Text)
    requires t != [] && Segments(t) == []
    ensures t[|t| - 1] == SLASH
  {
    SegmentsStep(t);
    if |t| > 1 {
      LastOfNone(t[1..]);
    }
  }

  lemma {:induction false} JoinOfOne(part: Text)
    ensures Join(SLASH, [part]) == part
  {
  }

  lemma {:induction false} JoinOfMore(part: Text, parts: seq<Text>)
    ensures Join(SLASH, [part] + parts) == if parts == [] then part else part + [SLASH] + Join(SLASH, parts)
  {
    assert ([part] + parts)[1..] == parts;
  }

  lemma {:induction false} SegmentsOfNothing()
    ensures Segments([]) == [] && Join(SLASH, []) == []
  {
    assert Split(SLASH, []) == [[]];
    assert NotEmpty([[]]) == NotEmpty([[]][1..]);
  }

  ghost predicate AreSegments(parts: seq<Text>) { forall i :: 0 <= i < |parts| ==> parts[i] != [] && SLASH !in parts[i] }

  lemma {:induction false} SegmentsShape(t: Text)
    ensures AreSegments(Segments(t))
  {
    if t != [] {
      SegmentsStep(t);
      SegmentsShape(t[1..]);
    } else {
      SegmentsOfNothing();
    }
  }

  lemma {:induction false} JoinedShape(parts: seq<Text>)
    requires AreSegments(parts) && parts != []
    ensures var t := Join(SLASH, parts); t != [] && t[0] != SLASH && t[|t| - 1] != SLASH
  {
    if |parts| > 1 {
      JoinedShape(parts[1..]);
    }
  }

  ghost function Query(query: Text): Text { if query == [] then [] else Literal("?") + query }

  /**
   A text without words has no path. Any other has its segments before the first question mark,
   however many slashes or backslashes are between them, after a slash each, and what follows
   that mark up to a second one as its query.
   */
  lemma {:induction false} NormalizedExactly(space: Space, value: Text)
    ensures var t := CleanText(space, value);
            && (NormalizePath(space, value) == None <==> t == [])
            && (t != [] ==>
                  var segments := Segments(SlashesForward(UpTo(t, '?' as int)));
                  NormalizePath(space, value) ==
                  Some(Literal("/") + Join('/' as int, segments) + Query(UpTo(Behind(t, '?' as int), '?' as int))))
  {
    hide CleanText;
    hide Segments;
    hide Join;
    hide Literal;
    hide SlashesForward;
    var t := CleanText(space, value);
    MarksAreNamed();
    if t != [] {
      var path := SlashesForward(UpTo(t, QUESTION));
      NormalizedSegments(path);
    }
  }

  /** Without the slash at its end, and with one in front, a path is its segments after a slash each. */
  lemma {:induction false} NormalizedSegments(path: Text)
    ensures var single := SingleSlashes(path);
            var normalized := if single != [] && single[|single| - 1] == SLASH then single[..|single| - 1] else single;
            (if normalized != [] && normalized[0] == SLASH then normalized else [SLASH] + normalized)
            == [SLASH] + Join(SLASH, Segments(path))
  {
    hide Segments;
    hide Join;
    hide SingleSlashes;
    var segments := Segments(path);
    SingleSlashesAre(path);
    SegmentsShape(path);
    SegmentsOfNothing();
    if segments != [] {
      JoinedShape(segments);
      var t := Lead(path) + Join(SLASH, segments);
      assert (t + [SLASH])[..|t + [SLASH]| - 1] == t;
    }
  }

  lemma {:induction false} MarksAreNamed()
    ensures Literal("/") == [SLASH] && Literal("?") == [QUESTION] && ' ' as int == SPACE
  {
  }

  /** Up to a unit and behind it, a text is taken apart at the first of it. */
  lemma {:induction false} TakenApart(t: Text, c: CodeUnit)
    ensures c !in UpTo(t, c)
    ensures t == if c in t then UpTo(t, c) + [c] + Behind(t, c) else UpTo(t, c)
    ensures c !in t ==> Behind(t, c) == []
  {
    if t != [] && t[0] != c {
      TakenApart(t[1..], c);
      assert t == [t[0]] + t[1..];
    }
  }

  lemma {:induction false} SlashesAreForward(t: Text)
    ensures |SlashesForward(t)| == |t|
    ensures forall i :: 0 <= i < |t| ==> SlashesForward(t)[i] == if t[i] == '\\' as int then '/' as int else t[i]
  {
  }
}
