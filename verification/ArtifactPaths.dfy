/** Artifact paths: relative, with forward slashes, and without dot segments. */
module ArtifactPaths {
  import opened Separators
  import opened Texts
  import opened Wrappers

  type Path = seq<Text>

  const DOT_SEGMENT: Text := [DOT]
  const DOT_DOT: Text := [DOT, DOT]

  /** White space and line terminators, as `String.prototype.trim` sees them. */
  predicate IsBlank(c: CodeUnit) {
    9 <= c <= 13 || c == 32 || c == 0xA0 || c == 0x1680 || 0x2000 <= c <= 0x200A
    || c == 0x2028 || c == 0x2029 || c == 0x202F || c == 0x205F || c == 0x3000 || c == 0xFEFF
  }

  function TrimStart(t: Text): Text {
    if t != [] && IsBlank(t[0]) then TrimStart(t[1..]) else t
  }

  function TrimEnd(t: Text): Text {
    if t != [] && IsBlank(t[|t| - 1]) then TrimEnd(t[..|t| - 1]) else t
  }

  function Trim(t: Text): Text { TrimEnd(TrimStart(t)) }

  function Slashes(t: Text): (r: Text)
    ensures |r| == |t|
  {
    seq(|t|, i requires 0 <= i < |t| => if t[i] == BACKSLASH then SLASH else t[i])
  }

  /** `path.posix.normalize` on the segments of a relative path. */
  function Resolve(stack: Path, segments: Path): Path
    decreases |segments|
  {
    if segments == [] then stack
    else
      var segment, rest := segments[0], segments[1..];
      if segment == [] || segment == DOT_SEGMENT then Resolve(stack, rest)
      else if segment == DOT_DOT && stack != [] && stack[|stack| - 1] != DOT_DOT then
        Resolve(stack[..|stack| - 1], rest)
      else Resolve(stack + [segment], rest)
  }

  predicate IsLetter(c: CodeUnit) { 65 <= c <= 90 || 97 <= c <= 122 }

  predicate HasDrive(t: Text) { |t| >= 3 && IsLetter(t[0]) && t[1] == COLON && t[2] == SLASH }

  /** The normalized path; `None` where the original throws. */
  function NormalizeArtifactPath(value: Text): Option<Text> {
    var raw := Slashes(Trim(value));
    if raw == [] || 0 in raw || raw[0] == SLASH || HasDrive(raw) then None
    else
      var stack := Resolve([], Split(SLASH, raw));
      if stack == [] || DOT_DOT in stack || raw[|raw| - 1] == SLASH then None
      else Some(Join(SLASH, stack))
  }

  /** A file name that normalization leaves alone. */
  predicate CleanName(name: Text) {
    && name != []
    && SLASH !in name && BACKSLASH !in name && 0 !in name
    && !IsBlank(name[0]) && !IsBlank(name[|name| - 1])
    && name != DOT_SEGMENT && !(DOT_DOT <= name)
    && !(|name| == 2 && IsLetter(name[0]) && name[1] == COLON)
  }

  predicate CleanPath(path: Path) {
    path != [] && forall i :: 0 <= i < |path| ==> CleanName(path[i])
  }

  // ----- clean paths are fixed points

  /** Different clean paths have different texts. */
  lemma {:induction false} JoinInjective(p: Path, q: Path)
    requires CleanPath(p) && CleanPath(q) && Join(SLASH, p) == Join(SLASH, q)
    ensures p == q
  {
    SplitOfJoin(SLASH, p);
    SplitOfJoin(SLASH, q);
  }

  lemma {:induction false} ResolveClean(stack: Path, path: Path)
    requires forall i :: 0 <= i < |path| ==> CleanName(path[i])
    ensures Resolve(stack, path) == stack + path
    decreases |path|
  {
    if path != [] {
      ResolveClean(stack + [path[0]], path[1..]);
      assert stack + [path[0]] + path[1..] == stack + path;
    }
  }

  lemma {:induction false} JoinShape(path: Path)
    requires CleanPath(path)
    ensures var t := Join(SLASH, path);
            && t != [] && t[0] == path[0][0]
            && t[|t| - 1] == path[|path| - 1][|path[|path| - 1]| - 1]
            && 0 !in t && BACKSLASH !in t
  {
    if |path| > 1 {
      JoinShape(path[1..]);
      var t, rest := Join(SLASH, path), Join(SLASH, path[1..]);
      assert t[|t| - 1] == rest[|rest| - 1];
    }
  }

  lemma {:induction false} JoinHasNoDrive(path: Path)
    requires CleanPath(path)
    ensures !HasDrive(Join(SLASH, path))
  {
    var t, name := Join(SLASH, path), path[0];
    if |path| > 1 {
      var tail := [SLASH] + Join(SLASH, path[1..]);
      assert t == name + tail;
      if |name| >= 3 {
        assert t[2] == name[2];
      } else if |name| == 2 {
        assert t[0] == name[0] && t[1] == name[1];
      } else {
        assert t[1] == SLASH;
      }
    }
  }

  lemma {:induction false} TrimAndSlashesOfClean(t: Text)
    requires t != [] && !IsBlank(t[0]) && !IsBlank(t[|t| - 1]) && BACKSLASH !in t
    ensures Slashes(Trim(t)) == t
  {
    assert Trim(t) == t;
  }

  lemma {:induction false} NormalizeStable(t: Text)
    requires t != [] && !IsBlank(t[0]) && !IsBlank(t[|t| - 1]) && BACKSLASH !in t && 0 !in t
    requires t[0] != SLASH && t[|t| - 1] != SLASH && !HasDrive(t)
    requires Resolve([], Split(SLASH, t)) == Split(SLASH, t) && DOT_DOT !in Split(SLASH, t) && Join(SLASH, Split(SLASH, t)) == t
    ensures NormalizeArtifactPath(t) == Some(t)
  {
    TrimAndSlashesOfClean(t);
  }

  /** Normalization leaves the text of a clean path as it is. */
  lemma {:induction false} NormalizeClean(path: Path)
    requires CleanPath(path)
    ensures NormalizeArtifactPath(Join(SLASH, path)) == Some(Join(SLASH, path))
  {
    var t, last := Join(SLASH, path), path[|path| - 1];
    JoinShape(path);
    JoinHasNoDrive(path);
    SplitOfJoin(SLASH, path);
    ResolveClean([], path);
    assert [] + path == path;
    assert CleanName(path[0]) && CleanName(last);
    NormalizeStable(t);
  }

  lemma {:induction false} ResolvedAreGiven(stack: Path, segments: Path)
    ensures forall part :: part in Resolve(stack, segments) ==> part in stack || part in segments
    decreases |segments|
  {
    if segments != [] {
      var segment, rest := segments[0], segments[1..];
      assert forall part :: part in rest ==> part in segments;
      ResolvedAreGiven(stack, rest);
      ResolvedAreGiven(stack + [segment], rest);
      if stack != [] {
        ResolvedAreGiven(stack[..|stack| - 1], rest);
      }
    }
  }

  /** A normalized path holds no zero. */
  lemma {:induction false} NormalizedHasNoZero(value: Text)
    requires NormalizeArtifactPath(value).Some?
    ensures 0 !in NormalizeArtifactPath(value).value
  {
    var raw := Slashes(Trim(value));
    var segments, stack := Split(SLASH, raw), Resolve([], Split(SLASH, raw));
    PartsHaveNo(SLASH, raw, 0);
    ResolvedAreGiven([], segments);
    forall i | 0 <= i < |stack| ensures 0 !in stack[i] {
      assert stack[i] in stack && stack[i] in segments;
    }
    JoinHasNo(SLASH, stack, 0);
  }

  // ----- what normalization does

  /** What `trim` removes: the white space and line terminators of sections 12.2 and 12.3 of ECMA-262. */
  lemma {:induction false} BlanksExactly(c: CodeUnit)
    ensures IsBlank(c) <==>
            c in {9, 10, 11, 12, 13, 32, 0xA0, 0x1680, 0x2000, 0x2001, 0x2002, 0x2003, 0x2004, 0x2005, 0x2006, 0x2007,
                  0x2008, 0x2009, 0x200A, 0x2028, 0x2029, 0x202F, 0x205F, 0x3000, 0xFEFF}
  {
  }

  ghost predicate AllBlank(t: Text) { forall c :: c in t ==> IsBlank(c) }

  lemma {:induction false} StartTrimmed(t: Text) returns (before: Text)
    ensures t == before + TrimStart(t) && AllBlank(before) && (TrimStart(t) != [] ==> !IsBlank(TrimStart(t)[0]))
  {
    before := [];
    if t != [] && IsBlank(t[0]) {
      var rest := StartTrimmed(t[1..]);
      before := [t[0]] + rest;
    }
  }

  lemma {:induction false} EndTrimmed(t: Text) returns (after: Text)
    ensures t == TrimEnd(t) + after && AllBlank(after)
    ensures TrimEnd(t) != [] ==> TrimEnd(t)[0] == t[0] && !IsBlank(TrimEnd(t)[|TrimEnd(t)| - 1])
  {
    after := [];
    if t != [] && IsBlank(t[|t| - 1]) {
      var rest := EndTrimmed(t[..|t| - 1]);
      after := rest + [t[|t| - 1]];
    }
  }

  /** Trimming takes blanks away at both ends, all of them, and nothing else. */
  lemma {:induction false} TrimExactly(t: Text) returns (before: Text, after: Text)
    ensures t == before + Trim(t) + after && AllBlank(before) && AllBlank(after)
    ensures Trim(t) != [] ==> !IsBlank(Trim(t)[0]) && !IsBlank(Trim(t)[|Trim(t)| - 1])
  {
    before := StartTrimmed(t);
    after := EndTrimmed(TrimStart(t));
  }

  /** A segment that is the name of a file or directory. */
  predicate IsName(segment: Text) { segment != [] && segment != Literal(".") && segment != Literal("..") }

  lemma {:induction false} Dots()
    ensures Literal(".") == DOT_SEGMENT && Literal("..") == DOT_DOT
  {
  }

  /** The names of a list of segments. */
  ghost function Names(segments: Path): Path {
    if segments == [] then []
    else (if IsName(segments[0]) then [segments[0]] else []) + Names(segments[1..])
  }

  /** Without steps to a parent, what is left is the names. */
  lemma {:induction false} NamesAreLeft(stack: Path, segments: Path)
    requires DOT_DOT !in segments
    ensures Resolve(stack, segments) == stack + Names(segments)
    decreases |segments|
  {
    hide Literal;
    Dots();
    if segments != [] {
      var segment, rest := segments[0], segments[1..];
      assert segment in segments && segment != DOT_DOT;
      if IsName(segment) {
        NamesAreLeft(stack + [segment], rest);
        assert stack + [segment] + Names(rest) == stack + Names(segments);
      } else {
        NamesAreLeft(stack, rest);
        assert [] + Names(rest) == Names(rest);
      }
    }
  }

  /** A name and the step back to its parent cancel each other out. */
  lemma {:induction false} ParentCancels(stack: Path, before: Path, name: Text, after: Path)
    requires IsName(name)
    ensures Resolve(stack, before + [name, DOT_DOT] + after) == Resolve(stack, before + after)
    decreases |before|
  {
    hide Literal;
    Dots();
    if before == [] {
      var all := [name, DOT_DOT] + after;
      assert before + [name, DOT_DOT] + after == all && before + after == after;
      assert all[1..] == [DOT_DOT] + after && all[1..][1..] == after;
      assert (stack + [name])[..|stack|] == stack;
    } else {
      var segment, rest := before[0], before[1..];
      assert (before + [name, DOT_DOT] + after)[1..] == rest + [name, DOT_DOT] + after && (before + after)[1..] == rest + after;
      ParentCancels(stack, rest, name, after);
      ParentCancels(stack + [segment], rest, name, after);
      if stack != [] {
        ParentCancels(stack[..|stack| - 1], rest, name, after);
      }
    }
  }

  /** A step to the parent of the root is never taken back. */
  lemma {:induction false} AboveTheRoot(stack: Path, segments: Path)
    requires stack != [] && stack[0] == DOT_DOT
    ensures Resolve(stack, segments) != [] && Resolve(stack, segments)[0] == DOT_DOT
    decreases |segments|
  {
    if segments != [] {
      var segment, rest := segments[0], segments[1..];
      AboveTheRoot(stack, rest);
      AboveTheRoot(stack + [segment], rest);
      if |stack| > 1 {
        AboveTheRoot(stack[..|stack| - 1], rest);
      }
    }
  }

  /** With a first step to the parent a path is refused. */
  lemma {:induction false} ParentFirst(segments: Path)
    requires segments != [] && segments[0] == DOT_DOT
    ensures DOT_DOT in Resolve([], segments)
  {
    AboveTheRoot([DOT_DOT], segments[1..]);
    assert [] + [DOT_DOT] == [DOT_DOT];
  }

  ghost predicate AreNames(stack: Path) { forall i :: 0 <= i < |stack| ==> stack[i] != [] && stack[i] != DOT_SEGMENT }

  lemma {:induction false} ResolvedAreNames(stack: Path, segments: Path)
    requires AreNames(stack)
    ensures AreNames(Resolve(stack, segments))
    decreases |segments|
  {
    if segments != [] {
      var segment, rest := segments[0], segments[1..];
      ResolvedAreNames(stack, rest);
      if segment != [] && segment != DOT_SEGMENT {
        ResolvedAreNames(stack + [segment], rest);
      }
      if stack != [] {
        ResolvedAreNames(stack[..|stack| - 1], rest);
      }
    }
  }

  /** What is trimmed, with backslashes as slashes. */
  ghost predicate IsRaw(value: Text, raw: Text) {
    |raw| == |Trim(value)| &&
    forall i :: 0 <= i < |raw| ==> raw[i] == if Trim(value)[i] == '\\' as int then '/' as int else Trim(value)[i]
  }

  ghost predicate IsAbsolute(t: Text) {
    t != [] &&
    (|| t[0] == '/' as int
     || (|t| > 2 && t[1] == ':' as int && t[2] == '/' as int &&
         ('a' as int <= t[0] <= 'z' as int || 'A' as int <= t[0] <= 'Z' as int)))
  }

  /**
   A path is refused if it is blank, absolute, holds a zero, ends with a slash, or resolves to
   nothing or to something above the root; any other becomes the names it resolves to.
   */
  lemma {:induction false} NormalizedExactly(value: Text, raw: Text)
    requires IsRaw(value, raw)
    ensures var names := Resolve([], Split('/' as int, raw));
            && (NormalizeArtifactPath(value).Some? <==>
                  && raw != [] && 0 !in raw && !IsAbsolute(raw) && raw[|raw| - 1] != '/' as int
                  && names != [] && forall i :: 0 <= i < |names| ==> IsName(names[i]))
            && (NormalizeArtifactPath(value).Some? ==> NormalizeArtifactPath(value).value == Join('/' as int, names))
  {
    hide Resolve;
    hide Split;
    hide Literal;
    Dots();
    assert raw == Slashes(Trim(value));
    var names := Resolve([], Split(SLASH, raw));
    ResolvedAreNames([], Split(SLASH, raw));
    assert DOT_DOT in names <==> exists i :: 0 <= i < |names| && names[i] == DOT_DOT;
  }
}
