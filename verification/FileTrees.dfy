/** Comparing the file trees of a generated app, and confining a proposed tree to the target of a change. */
module FileTrees {
  import opened Lists
  import opened OrderedMaps
  import opened Ordering
  import opened Ranking
  import opened Texts
  import opened Wrappers

  /** An element of a file list that is not a path with a content is passed over. */
  datatype GeneratedFile = GeneratedFile(path: Text, content: Text) | NotAFile

  /** Paths and their contents. */
  type Contents = OrderedMap<Text>

  function ContentMap(files: seq<GeneratedFile>): Contents {
    if files == [] then EmptyMap()
    else
      var before, last := ContentMap(files[..|files| - 1]), files[|files| - 1];
      if last.GeneratedFile? then Put(before, last.path, last.content) else before
  }

  method GeneratedFileContentMap(files: seq<GeneratedFile>) returns (byPath: Contents)
    ensures byPath == ContentMap(files)
  {
    byPath := EmptyMap();
    for i := 0 to |files|
      invariant byPath == ContentMap(files[..i])
    {
      assert files[..i + 1][..i] == files[..i];
      if files[i].GeneratedFile? {
        byPath := Put(byPath, files[i].path, files[i].content);
      }
    }
    assert files[..|files|] == files;
  }

  /** The content a tree gives to a path: that of the last file with the path. */
  ghost function ContentIn(files: seq<GeneratedFile>, path: Text): Option<Text> {
    if files == [] then None
    else if files[|files| - 1].GeneratedFile? && files[|files| - 1].path == path then Some(files[|files| - 1].content)
    else ContentIn(files[..|files| - 1], path)
  }

  lemma {:induction false} ContentMapExactly(files: seq<GeneratedFile>)
    ensures ValidMap(ContentMap(files))
    ensures forall path :: Get(ContentMap(files), path) == ContentIn(files, path)
  {
    if files != [] {
      ContentMapExactly(files[..|files| - 1]);
      var before, last := ContentMap(files[..|files| - 1]), files[|files| - 1];
      forall path ensures Get(ContentMap(files), path) == ContentIn(files, path) {
        assert Get(before, path) == ContentIn(files[..|files| - 1], path);
      }
    }
  }

  // ----- differences

  datatype ChangeType = Added | Modified | Deleted | Unchanged

  /** The printed difference is a function of the two texts it is made from. */
  datatype Entry = Entry(path: Text, changeType: ChangeType, before: Text, after: Text)

  function OrEmpty(t: Option<Text>): Text { if t.Some? then t.value else [] }

  function Change(path: Text, before: Option<Text>, after: Option<Text>): Entry {
    Entry(path,
          if before == None then Added else if after == None then Deleted
          else if before == after then Unchanged else Modified,
          OrEmpty(before), OrEmpty(after))
  }

  function ChangeAt(old': Contents, new': Contents, path: Text): Entry { Change(path, Get(old', path), Get(new', path)) }

  function Changes(old': Contents, new': Contents, paths: seq<Text>): seq<Entry> {
    if paths == [] then []
    else
      Changes(old', new', paths[..|paths| - 1]) + Listed(ChangeAt(old', new', paths[|paths| - 1]))
  }

  function Outside(c: Contents): Text -> bool { (path: Text) => path !in c.values }

  function Without(paths: seq<Text>, c: Contents): seq<Text> { Filter(Outside(c), paths) }

  function Diff(old': Contents, new': Contents): seq<Entry> {
    Changes(old', new', new'.keys) + Changes(old', new', Without(old'.keys, new'))
  }

  function Listed(e: Entry): seq<Entry> { if e.changeType == Unchanged then [] else [e] }

  lemma {:induction false} ChangesAppend(old': Contents, new': Contents, paths: seq<Text>, path: Text)
    ensures Changes(old', new', paths + [path]) == Changes(old', new', paths) + Listed(ChangeAt(old', new', path))
  {
    assert (paths + [path])[..|paths|] == paths;
  }

  lemma {:induction false} ChangesStep(old': Contents, new': Contents, paths: seq<Text>, i: nat)
    requires i < |paths|
    ensures Changes(old', new', paths[..i + 1]) == Changes(old', new', paths[..i]) + Listed(ChangeAt(old', new', paths[i]))
  {
    assert paths[..i + 1] == paths[..i] + [paths[i]];
    ChangesAppend(old', new', paths[..i], paths[i]);
  }

  lemma {:induction false} WithoutStep(old': Contents, new': Contents, paths: seq<Text>, i: nat)
    requires i < |paths|
    ensures Changes(old', new', Without(paths[..i + 1], new')) ==
            Changes(old', new', Without(paths[..i], new')) +
            (if paths[i] in new'.values then [] else Listed(ChangeAt(old', new', paths[i])))
  {
    assert paths[..i + 1] == paths[..i] + [paths[i]];
    var before := Without(paths[..i], new');
    FilterConcat(Outside(new'), paths[..i], [paths[i]]);
    FilterOfCons(Outside(new'), paths[i], []);
    if paths[i] in new'.values {
      assert before + [] == before;
    } else {
      ChangesAppend(old', new', before, paths[i]);
    }
  }

  lemma {:induction false} ListedOfNew(old': Contents, new': Contents, path: Text)
    requires path in new'.values
    ensures Listed(ChangeAt(old', new', path)) ==
            if path !in old'.values then [Entry(path, Added, [], new'.values[path])]
            else if old'.values[path] != new'.values[path] then [Entry(path, Modified, old'.values[path], new'.values[path])]
            else []
  {
  }

  lemma {:induction false} ListedOfGone(old': Contents, new': Contents, path: Text)
    requires path in old'.values && path !in new'.values
    ensures Listed(ChangeAt(old', new', path)) == [Entry(path, Deleted, old'.values[path], [])]
  {
  }

  method DiffContents(oldByPath: Contents, newByPath: Contents) returns (entries: seq<Entry>)
    requires forall k :: k in oldByPath.keys ==> k in oldByPath.values
    requires forall k :: k in newByPath.keys ==> k in newByPath.values
    ensures entries == Diff(oldByPath, newByPath)
  {
    entries := [];
    for i := 0 to |newByPath.keys|
      invariant entries == Changes(oldByPath, newByPath, newByPath.keys[..i])
    {
      var path := newByPath.keys[i];
      ChangesStep(oldByPath, newByPath, newByPath.keys, i);
      ListedOfNew(oldByPath, newByPath, path);
      var content := newByPath.values[path];
      if path !in oldByPath.values {
        entries := entries + [Entry(path, Added, [], content)];
      } else if oldByPath.values[path] != content {
        entries := entries + [Entry(path, Modified, oldByPath.values[path], content)];
      }
    }
    assert newByPath.keys[..|newByPath.keys|] == newByPath.keys;
    var deleted := DeletedEntries(oldByPath, newByPath);
    entries := entries + deleted;
  }

  method DeletedEntries(oldByPath: Contents, newByPath: Contents) returns (entries: seq<Entry>)
    requires forall k :: k in oldByPath.keys ==> k in oldByPath.values
    ensures entries == Changes(oldByPath, newByPath, Without(oldByPath.keys, newByPath))
  {
    entries := [];
    for i := 0 to |oldByPath.keys|
      invariant entries == Changes(oldByPath, newByPath, Without(oldByPath.keys[..i], newByPath))
    {
      var path := oldByPath.keys[i];
      WithoutStep(oldByPath, newByPath, oldByPath.keys, i);
      if path !in newByPath.values {
        ListedOfGone(oldByPath, newByPath, path);
        entries := entries + [Entry(path, Deleted, oldByPath.values[path], [])];
      }
    }
    assert oldByPath.keys[..|oldByPath.keys|] == oldByPath.keys;
  }

  method DiffFileTrees(oldFiles: seq<GeneratedFile>, newFiles: seq<GeneratedFile>) returns (entries: seq<Entry>)
    ensures entries == Diff(ContentMap(oldFiles), ContentMap(newFiles))
  {
    var oldByPath := GeneratedFileContentMap(oldFiles);
    var newByPath := GeneratedFileContentMap(newFiles);
    ContentMapExactly(oldFiles);
    ContentMapExactly(newFiles);
    entries := DiffContents(oldByPath, newByPath);
  }

  lemma {:induction false} WithoutMembers(paths: seq<Text>, c: Contents)
    ensures forall p :: p in Without(paths, c) <==> p in paths && p !in c.values
    ensures Distinct(paths) ==> Distinct(Without(paths, c))
  {
    FilterMembers(Outside(c), paths);
    if Distinct(paths) {
      FilterDistinct(Outside(c), paths);
    }
  }

  ghost predicate DistinctPaths(entries: seq<Entry>) {
    forall i, j :: 0 <= i < j < |entries| ==> entries[i].path != entries[j].path
  }

  lemma {:induction false} ChangesMember(old': Contents, new': Contents, paths: seq<Text>, e: Entry)
    ensures e in Changes(old', new', paths) <==>
            e.path in paths && e == ChangeAt(old', new', e.path) && e.changeType != Unchanged
  {
    if paths != [] {
      var before, path := paths[..|paths| - 1], paths[|paths| - 1];
      assert paths == before + [path];
      ChangesMember(old', new', before, e);
    }
  }

  lemma {:induction false} ChangesDistinct(old': Contents, new': Contents, paths: seq<Text>)
    requires Distinct(paths)
    ensures DistinctPaths(Changes(old', new', paths))
  {
    if paths != [] {
      var before, path := paths[..|paths| - 1], paths[|paths| - 1];
      assert paths == before + [path] && path !in before;
      ChangesDistinct(old', new', before);
      var entries := Changes(old', new', before);
      forall i | 0 <= i < |entries| ensures entries[i].path != path {
        ChangesMember(old', new', before, entries[i]);
      }
    }
  }

  /** Both trees say the same about a path exactly if they give it the same content. */
  ghost predicate SameAt(oldFiles: seq<GeneratedFile>, newFiles: seq<GeneratedFile>, path: Text) {
    ContentIn(oldFiles, path) == ContentIn(newFiles, path)
  }

  lemma {:induction false} DiffMembers(old': Contents, new': Contents, e: Entry)
    requires ValidMap(old') && ValidMap(new')
    ensures e in Diff(old', new') <==> e == ChangeAt(old', new', e.path) && Get(old', e.path) != Get(new', e.path)
    ensures DistinctPaths(Diff(old', new'))
  {
    var gone := Without(old'.keys, new');
    WithoutMembers(old'.keys, new');
    ChangesMember(old', new', new'.keys, e);
    ChangesMember(old', new', gone, e);
    ChangesDistinct(old', new', new'.keys);
    ChangesDistinct(old', new', gone);
    var changed, deleted := Changes(old', new', new'.keys), Changes(old', new', gone);
    forall i, j | 0 <= i < |changed| && 0 <= j < |deleted| ensures changed[i].path != deleted[j].path {
      ChangesMember(old', new', new'.keys, changed[i]);
      ChangesMember(old', new', gone, deleted[j]);
    }
  }

  /** The difference lists each path whose content differs, once, with how it differs, and no other path. */
  lemma {:induction false} DiffExactly(oldFiles: seq<GeneratedFile>, newFiles: seq<GeneratedFile>, e: Entry)
    ensures DistinctPaths(Diff(ContentMap(oldFiles), ContentMap(newFiles)))
    ensures e in Diff(ContentMap(oldFiles), ContentMap(newFiles)) <==>
            !SameAt(oldFiles, newFiles, e.path)
            && e == Change(e.path, ContentIn(oldFiles, e.path), ContentIn(newFiles, e.path))
  {
    ContentMapExactly(oldFiles);
    ContentMapExactly(newFiles);
    DiffMembers(ContentMap(oldFiles), ContentMap(newFiles), e);
    assert Get(ContentMap(oldFiles), e.path) == ContentIn(oldFiles, e.path);
    assert Get(ContentMap(newFiles), e.path) == ContentIn(newFiles, e.path);
  }

  /** What an entry says of a path with these contents. */
  lemma {:induction false} ChangeExactly(path: Text, before: Option<Text>, after: Option<Text>)
    requires before.Some? || after.Some?
    ensures var e := Change(path, before, after);
            && e.path == path
            && (e.changeType == Added <==> before.None?) && (e.changeType == Deleted <==> after.None?)
            && (e.changeType == Modified <==> before.Some? && after.Some? && before != after)
            && (e.changeType == Unchanged <==> before == after)
            && e.before == (if before.Some? then before.value else [])
            && e.after == if after.Some? then after.value else []
  {
  }

  // ----- replaying a difference

  function ApplyEntry(tree: map<Text, Text>, e: Entry): map<Text, Text> {
    if e.changeType == Deleted then tree - {e.path} else tree[e.path := e.after]
  }

  function Replay(tree: map<Text, Text>, entries: seq<Entry>): map<Text, Text> {
    if entries == [] then tree else ApplyEntry(Replay(tree, entries[..|entries| - 1]), entries[|entries| - 1])
  }

  lemma {:induction false} ReplayElsewhere(tree: map<Text, Text>, entries: seq<Entry>, path: Text)
    requires forall e :: e in entries ==> e.path != path
    ensures path in Replay(tree, entries) <==> path in tree
    ensures path in tree ==> Replay(tree, entries)[path] == tree[path]
  {
    if entries != [] {
      var n := |entries| - 1;
      assert entries[n] in entries && forall e :: e in entries[..n] ==> e in entries;
      ReplayElsewhere(tree, entries[..n], path);
    }
  }

  lemma {:induction false} ReplayAt(tree: map<Text, Text>, entries: seq<Entry>, e: Entry)
    requires DistinctPaths(entries) && e in entries
    ensures e.changeType == Deleted ==> e.path !in Replay(tree, entries)
    ensures e.changeType != Deleted ==> e.path in Replay(tree, entries) && Replay(tree, entries)[e.path] == e.after
  {
    var n := |entries| - 1;
    if e.path != entries[n].path {
      assert entries == entries[..n] + [entries[n]];
      ReplayAt(tree, entries[..n], e);
    } else {
      var i :| 0 <= i < |entries| && entries[i] == e;
      assert i == n;
    }
  }

  /** Replaying the difference of two trees on the old one gives the new one. */
  lemma {:induction false} DiffReplays(oldFiles: seq<GeneratedFile>, newFiles: seq<GeneratedFile>)
    ensures Replay(ContentMap(oldFiles).values, Diff(ContentMap(oldFiles), ContentMap(newFiles))) ==
            ContentMap(newFiles).values
  {
    var old', new' := ContentMap(oldFiles), ContentMap(newFiles);
    ContentMapExactly(oldFiles);
    ContentMapExactly(newFiles);
    var entries := Diff(old', new');
    var tree := Replay(old'.values, entries);
    forall path
      ensures path in tree <==> path in new'.values
      ensures path in tree ==> tree[path] == new'.values[path]
    {
      var e := ChangeAt(old', new', path);
      DiffMembers(old', new', e);
      if Get(old', path) != Get(new', path) {
        ReplayAt(old'.values, entries, e);
      } else {
        forall other | other in entries ensures other.path != path {
          DiffMembers(old', new', other);
        }
        ReplayElsewhere(old'.values, entries, path);
      }
    }
  }

  // ----- reviews

  /** `localeCompare` */
  type Collation = (Text, Text) -> int

  function AllPaths(old': Contents, new': Contents): seq<Text> { old'.keys + Without(new'.keys, old') }

  function SortedPaths(collate: Collation, old': Contents, new': Contents): seq<Text> {
    Sort(Less(collate), AllPaths(old', new'))
  }

  /** A review holds, besides the difference, the contents that its digests and sizes are those of. */
  datatype Review = Review(entry: Entry, before: Option<Text>, after: Option<Text>)

  function ReviewFileTrees(collate: Collation, oldFiles: seq<GeneratedFile>, newFiles: seq<GeneratedFile>): seq<Review> {
    var old', new' := ContentMap(oldFiles), ContentMap(newFiles);
    var paths := SortedPaths(collate, old', new');
    seq(|paths|, i requires 0 <= i < |paths| =>
      Review(ChangeAt(old', new', paths[i]), Get(old', paths[i]), Get(new', paths[i])))
  }

  lemma {:induction false} PathsExactly(collate: Collation, old': Contents, new': Contents)
    requires ValidMap(old') && ValidMap(new')
    ensures var paths := SortedPaths(collate, old', new');
            Distinct(paths) && forall p :: p in paths <==> p in old'.values || p in new'.values
  {
    WithoutMembers(new'.keys, old');
    DistinctConcat(old'.keys, Without(new'.keys, old'));
    SortMembers(Less(collate), AllPaths(old', new'));
    DistinctByMultiset(AllPaths(old', new'), SortedPaths(collate, old', new'));
  }

  /** A review lists the paths in the order of the collation, with what both trees hold there. */
  lemma {:induction false} ReviewInOrder(collate: Collation, oldFiles: seq<GeneratedFile>, newFiles: seq<GeneratedFile>)
    requires Consistent(collate)
    ensures var reviews := ReviewFileTrees(collate, oldFiles, newFiles);
            && (forall i, j :: 0 <= i < j < |reviews| ==> collate(reviews[j].entry.path, reviews[i].entry.path) >= 0)
            && forall i :: 0 <= i < |reviews| ==>
                 var path := reviews[i].entry.path;
                 && reviews[i].before == ContentIn(oldFiles, path) && reviews[i].after == ContentIn(newFiles, path)
                 && reviews[i].entry == Change(path, reviews[i].before, reviews[i].after)
  {
    hide Sort;
    var old', new' := ContentMap(oldFiles), ContentMap(newFiles);
    var paths := SortedPaths(collate, old', new');
    LessIsWeak(collate);
    SortSorted(Less(collate), AllPaths(old', new'));
    ContentMapExactly(oldFiles);
    ContentMapExactly(newFiles);
    forall i | 0 <= i < |paths|
      ensures Get(old', paths[i]) == ContentIn(oldFiles, paths[i]) && Get(new', paths[i]) == ContentIn(newFiles, paths[i]) {
    }
    forall i, j | 0 <= i < j < |paths| ensures collate(paths[j], paths[i]) >= 0 {
      assert !Less(collate)(paths[j], paths[i]);
    }
  }

  /** The entries of a review that are not unchanged. */
  function ChangedEntries(reviews: seq<Review>): seq<Entry> {
    if reviews == [] then []
    else
      ChangedEntries(reviews[..|reviews| - 1]) + Listed(reviews[|reviews| - 1].entry)
  }

  lemma {:induction false} ChangedAreChanges(old': Contents, new': Contents, paths: seq<Text>, reviews: seq<Review>)
    requires |reviews| == |paths| && forall i :: 0 <= i < |paths| ==> reviews[i].entry == ChangeAt(old', new', paths[i])
    ensures ChangedEntries(reviews) == Changes(old', new', paths)
  {
    if paths != [] {
      ChangedAreChanges(old', new', paths[..|paths| - 1], reviews[..|paths| - 1]);
    }
  }

  ghost predicate Reviewed(reviews: seq<Review>, path: Text) {
    exists i :: 0 <= i < |reviews| && reviews[i].entry.path == path
  }

  /** A review covers the paths of either tree, and no other. */
  lemma {:induction false} ReviewCovers(
    collate: Collation, oldFiles: seq<GeneratedFile>, newFiles: seq<GeneratedFile>, path: Text)
    ensures Reviewed(ReviewFileTrees(collate, oldFiles, newFiles), path) <==>
            ContentIn(oldFiles, path) != None || ContentIn(newFiles, path) != None
  {
    var old', new' := ContentMap(oldFiles), ContentMap(newFiles);
    var paths, reviews := SortedPaths(collate, old', new'), ReviewFileTrees(collate, oldFiles, newFiles);
    ContentMapExactly(oldFiles);
    ContentMapExactly(newFiles);
    PathsExactly(collate, old', new');
    assert Get(old', path) == ContentIn(oldFiles, path) && Get(new', path) == ContentIn(newFiles, path);
    if path in paths {
      var i :| 0 <= i < |paths| && paths[i] == path;
      assert reviews[i].entry.path == path;
    }
  }

  /** Without its unchanged entries a review is the difference. */
  lemma {:induction false} ReviewAgrees(collate: Collation, oldFiles: seq<GeneratedFile>, newFiles: seq<GeneratedFile>)
    ensures multiset(ChangedEntries(ReviewFileTrees(collate, oldFiles, newFiles))) ==
            multiset(Diff(ContentMap(oldFiles), ContentMap(newFiles)))
  {
    var old', new' := ContentMap(oldFiles), ContentMap(newFiles);
    var paths := SortedPaths(collate, old', new');
    ContentMapExactly(oldFiles);
    ContentMapExactly(newFiles);
    PathsExactly(collate, old', new');
    ChangedAreChanges(old', new', paths, ReviewFileTrees(collate, oldFiles, newFiles));
    SameEntries(old', new', paths);
  }

  lemma {:induction false} SameEntries(old': Contents, new': Contents, paths: seq<Text>)
    requires ValidMap(old') && ValidMap(new') && Distinct(paths)
    requires forall p :: p in paths <==> p in old'.values || p in new'.values
    ensures multiset(Changes(old', new', paths)) == multiset(Diff(old', new'))
  {
    var changes, diff := Changes(old', new', paths), Diff(old', new');
    ChangesDistinct(old', new', paths);
    DiffMembers(old', new', Entry([], Added, [], []));
    forall e ensures e in changes <==> e in diff {
      ChangesMember(old', new', paths, e);
      DiffMembers(old', new', e);
    }
    assert Distinct(changes) && Distinct(diff);
    DistinctSubset(changes, diff);
    DistinctSubset(diff, changes);
  }

  // ----- scoping

  /** `None` for a change of the whole app; otherwise whether a path matches the target. */
  type Target = Option<Text -> bool>

  datatype Scoped = Scoped(files: seq<GeneratedFile>, outOfScopePaths: seq<Text>)

  function ScopedAt(current: Contents, proposed: Contents, matches: Text -> bool, path: Text): Option<Text> {
    if matches(path) then Get(proposed, path) else Get(current, path)
  }

  function ScopePaths(current: Contents, proposed: Contents, matches: Text -> bool, paths: seq<Text>): Scoped {
    if paths == [] then Scoped([], [])
    else
      var before, path := ScopePaths(current, proposed, matches, paths[..|paths| - 1]), paths[|paths| - 1];
      var content := ScopedAt(current, proposed, matches, path);
      Scoped(before.files + (if content.Some? then [GeneratedFile(path, content.value)] else []),
             before.outOfScopePaths +
             (if Get(current, path) != Get(proposed, path) && !matches(path) then [path] else []))
  }

  function Scope(collate: Collation, currentFiles: seq<GeneratedFile>, proposedFiles: seq<GeneratedFile>, target: Target): Scoped {
    if target == None then Scoped(proposedFiles, [])
    else
      var current, proposed := ContentMap(currentFiles), ContentMap(proposedFiles);
      ScopePaths(current, proposed, target.value, SortedPaths(collate, current, proposed))
  }

  lemma {:induction false} ScopeStep(
    current: Contents, proposed: Contents, matches: Text -> bool, paths: seq<Text>, i: nat)
    requires i < |paths|
    ensures var before, content := ScopePaths(current, proposed, matches, paths[..i]),
                                   ScopedAt(current, proposed, matches, paths[i]);
            ScopePaths(current, proposed, matches, paths[..i + 1]) ==
            Scoped(before.files + (if content.Some? then [GeneratedFile(paths[i], content.value)] else []),
                   before.outOfScopePaths +
                   (if Get(current, paths[i]) != Get(proposed, paths[i]) && !matches(paths[i]) then [paths[i]] else []))
  {
    assert paths[..i + 1][..i] == paths[..i];
  }

  method ScopeContents(currentByPath: Contents, proposedByPath: Contents, matches: Text -> bool, paths: seq<Text>)
    returns (files: seq<GeneratedFile>, outOfScopePaths: seq<Text>)
    ensures Scoped(files, outOfScopePaths) == ScopePaths(currentByPath, proposedByPath, matches, paths)
  {
    files, outOfScopePaths := [], [];
    for i := 0 to |paths|
      invariant Scoped(files, outOfScopePaths) == ScopePaths(currentByPath, proposedByPath, matches, paths[..i])
    {
      ScopeStep(currentByPath, proposedByPath, matches, paths, i);
      var path := paths[i];
      var before := Get(currentByPath, path);
      var proposed := Get(proposedByPath, path);
      var inScope := matches(path);
      if before != proposed && !inScope {
        outOfScopePaths := outOfScopePaths + [path];
      }
      var content := if inScope then proposed else before;
      if content.Some? {
        files := files + [GeneratedFile(path, content.value)];
      }
    }
    assert paths[..|paths|] == paths;
  }

  method ScopeGeneratedFileTree(
    collate: Collation, currentFiles: seq<GeneratedFile>, proposedFiles: seq<GeneratedFile>, target: Target)
    returns (files: seq<GeneratedFile>, outOfScopePaths: seq<Text>)
    ensures Scoped(files, outOfScopePaths) == Scope(collate, currentFiles, proposedFiles, target)
  {
    match target {
      case None => return proposedFiles, [];
      case Some(matches) =>
        var currentByPath := GeneratedFileContentMap(currentFiles);
        var proposedByPath := GeneratedFileContentMap(proposedFiles);
        var paths := SortedPaths(collate, currentByPath, proposedByPath);
        files, outOfScopePaths := ScopeContents(currentByPath, proposedByPath, matches, paths);
    }
  }

  lemma {:induction false} ScopePathsExactly(
    current: Contents, proposed: Contents, matches: Text -> bool, paths: seq<Text>)
    requires Distinct(paths)
    ensures var s := ScopePaths(current, proposed, matches, paths);
            && Distinct(s.files) && Distinct(s.outOfScopePaths)
            && (forall f :: f in s.files <==>
                  f.GeneratedFile? && f.path in paths && ScopedAt(current, proposed, matches, f.path) == Some(f.content))
            && (forall p :: p in s.outOfScopePaths <==>
                  p in paths && Get(current, p) != Get(proposed, p) && !matches(p))
  {
    if paths != [] {
      var n := |paths| - 1;
      ScopePathsExactly(current, proposed, matches, paths[..n]);
      assert paths == paths[..n] + [paths[n]] && paths[n] !in paths[..n];
    }
  }

  /** A list without two files for a path gives each path what its file holds. */
  lemma {:induction false} ContentOfFiles(files: seq<GeneratedFile>, path: Text)
    requires forall f, g :: f in files && g in files && f != g ==> f.GeneratedFile? && g.GeneratedFile? && f.path != g.path
    ensures forall content :: ContentIn(files, path) == Some(content) <==> GeneratedFile(path, content) in files
  {
    if files != [] {
      var n := |files| - 1;
      assert files == files[..n] + [files[n]];
      ContentOfFiles(files[..n], path);
      assert files[n] in files;
    }
  }

  /** A scoped tree gives each path the proposed content if it is in scope, and the current one otherwise. */
  lemma {:induction false} ScopedContent(
    collate: Collation, currentFiles: seq<GeneratedFile>, proposedFiles: seq<GeneratedFile>, matches: Text -> bool, path: Text)
    ensures var s := Scope(collate, currentFiles, proposedFiles, Some(matches));
            && ContentIn(s.files, path) ==
               (if matches(path) then ContentIn(proposedFiles, path) else ContentIn(currentFiles, path))
            && Distinct(s.outOfScopePaths)
            && (path in s.outOfScopePaths <==> !SameAt(currentFiles, proposedFiles, path) && !matches(path))
  {
    var current, proposed := ContentMap(currentFiles), ContentMap(proposedFiles);
    ContentMapExactly(currentFiles);
    ContentMapExactly(proposedFiles);
    PathsExactly(collate, current, proposed);
    assert Get(current, path) == ContentIn(currentFiles, path) && Get(proposed, path) == ContentIn(proposedFiles, path);
    ScopePathsExactly(current, proposed, matches, SortedPaths(collate, current, proposed));
    ContentOfFiles(Scope(collate, currentFiles, proposedFiles, Some(matches)).files, path);
    OptionByValues(ContentIn(Scope(collate, currentFiles, proposedFiles, Some(matches)).files, path),
                   ScopedAt(current, proposed, matches, path));
  }

  lemma {:induction false} OptionByValues(a: Option<Text>, b: Option<Text>)
    requires forall content :: a == Some(content) <==> b == Some(content)
    ensures a == b
  {
    assert a.Some? ==> a == Some(a.value);
    assert b.Some? ==> b == Some(b.value);
  }

  /** What a proposal changes is, without overlap, what its scoped form changes and what was out of scope. */
  lemma {:induction false} ScopeSplits(
    collate: Collation, currentFiles: seq<GeneratedFile>, proposedFiles: seq<GeneratedFile>, matches: Text -> bool, path: Text)
    ensures var s := Scope(collate, currentFiles, proposedFiles, Some(matches));
            && (!SameAt(currentFiles, proposedFiles, path) <==>
                !SameAt(currentFiles, s.files, path) || path in s.outOfScopePaths)
            && !(!SameAt(currentFiles, s.files, path) && path in s.outOfScopePaths)
  {
    ScopedContent(collate, currentFiles, proposedFiles, matches, path);
  }

  // ----- scoping again

  ghost function Kept(current: Contents, proposed: Contents, matches: Text -> bool): Text -> bool {
    (path: Text) => ScopedAt(current, proposed, matches, path).Some?
  }

  ghost function FileAt(current: Contents, proposed: Contents, matches: Text -> bool): Text -> GeneratedFile {
    (path: Text) => GeneratedFile(path, OrEmpty(ScopedAt(current, proposed, matches, path)))
  }

  lemma {:induction false} FileOfPath(current: Contents, proposed: Contents, matches: Text -> bool, before: seq<Text>, path: Text)
    ensures ScopePaths(current, proposed, matches, before + [path]).files ==
            ScopePaths(current, proposed, matches, before).files +
            Map(FileAt(current, proposed, matches), Filter(Kept(current, proposed, matches), [path]))
  {
    hide ScopedAt;
    assert (before + [path])[..|before|] == before;
    FilterOfCons(Kept(current, proposed, matches), path, []);
    assert Map(FileAt(current, proposed, matches), [path]) == [FileAt(current, proposed, matches)(path)];
    assert Map(FileAt(current, proposed, matches), []) == [];
  }

  /** The scoped files are those of the paths that keep a content, in the order of the paths. */
  lemma {:induction false} FilesOfPaths(current: Contents, proposed: Contents, matches: Text -> bool, paths: seq<Text>)
    ensures ScopePaths(current, proposed, matches, paths).files ==
            Map(FileAt(current, proposed, matches), Filter(Kept(current, proposed, matches), paths))
  {
    hide ScopedAt;
    hide Kept;
    hide FileAt;
    var kept, file := Kept(current, proposed, matches), FileAt(current, proposed, matches);
    if paths != [] {
      var before, path := paths[..|paths| - 1], paths[|paths| - 1];
      assert paths == before + [path];
      FilesOfPaths(current, proposed, matches, before);
      FileOfPath(current, proposed, matches, before, path);
      FilterConcat(kept, before, [path]);
      assert Map(file, Filter(kept, before) + Filter(kept, [path])) ==
             Map(file, Filter(kept, before)) + Map(file, Filter(kept, [path]));
    }
  }

  lemma {:induction false} KeysOfFiles(file: Text -> GeneratedFile, paths: seq<Text>)
    requires Distinct(paths) && forall path :: file(path).GeneratedFile? && file(path).path == path
    ensures ContentMap(Map(file, paths)).keys == paths
  {
    hide ContentIn;
    if paths != [] {
      var before, path := paths[..|paths| - 1], paths[|paths| - 1];
      var files := Map(file, paths);
      assert files[..|files| - 1] == Map(file, before) && files[|files| - 1] == file(path);
      assert path !in before;
      KeysOfFiles(file, before);
      ContentMapExactly(Map(file, before));
      assert path !in ContentMap(Map(file, before)).values;
      assert before + [path] == paths;
    }
  }

  lemma {:induction false} FilterNone(keep: Text -> bool, s: seq<Text>)
    requires forall x :: x in s ==> !keep(x)
    ensures Filter(keep, s) == []
  {
    if s != [] {
      assert s[0] in s;
      FilterNone(keep, s[1..]);
    }
  }

  /** Of the added paths, sorted with the others and picked out again, the kept ones come in sorted order. */
  lemma {:induction false} AddedAreSorted(
    less: (Text, Text) -> bool, kept: Text -> bool, outside: Text -> bool, known: seq<Text>, added: seq<Text>)
    requires StrictWeak(less) && (forall x :: x in known ==> !outside(x)) && (forall x :: x in added ==> outside(x))
    ensures Filter(outside, Filter(kept, Sort(less, known + added))) == Sort(less, Filter(kept, added))
  {
    FilterOfSorted(less, kept, known + added);
    FilterConcat(kept, known, added);
    FilterOfSorted(less, outside, Filter(kept, known) + Filter(kept, added));
    FilterConcat(outside, Filter(kept, known), Filter(kept, added));
    FilterMembers(kept, known);
    FilterMembers(kept, added);
    FilterNone(outside, Filter(kept, known));
    FilterKeepsAll(outside, Filter(kept, added));
    assert [] + Filter(kept, added) == Filter(kept, added);
  }

  /** Whatever ties: the kept paths come in the same order when the added ones have been sorted before. */
  lemma {:induction false} SameOrder(
    less: (Text, Text) -> bool, kept: Text -> bool, outside: Text -> bool, known: seq<Text>, added: seq<Text>)
    requires StrictWeak(less) && (forall x :: x in known ==> !outside(x)) && (forall x :: x in added ==> outside(x))
    ensures var once := Filter(kept, Sort(less, known + added));
            Filter(kept, Sort(less, known + Filter(outside, once))) == once
  {
    var once := Filter(kept, Sort(less, known + added));
    var again := Filter(outside, once);
    AddedAreSorted(less, kept, outside, known, added);
    FilterMembers(outside, once);
    FilterMembers(kept, Sort(less, known + added));
    FilterKeepsAll(kept, again);
    FilterOfSorted(less, kept, known + again);
    FilterConcat(kept, known, again);
    FilterOfSorted(less, kept, known + added);
    FilterConcat(kept, known, added);
    SortOfPartlySorted(less, Filter(kept, known), Filter(kept, added));
  }

  /** Scoping a scoped tree finds at every path what scoping the proposal found. */
  lemma {:induction false} ScopedAgain(
    collate: Collation, currentFiles: seq<GeneratedFile>, proposedFiles: seq<GeneratedFile>, matches: Text -> bool, path: Text)
    ensures var once := Scope(collate, currentFiles, proposedFiles, Some(matches));
            && ScopedAt(ContentMap(currentFiles), ContentMap(once.files), matches, path) ==
               ScopedAt(ContentMap(currentFiles), ContentMap(proposedFiles), matches, path)
            && path !in Scope(collate, currentFiles, once.files, Some(matches)).outOfScopePaths
  {
    hide Scope;
    hide ContentMap;
    var once := Scope(collate, currentFiles, proposedFiles, Some(matches));
    ScopedContent(collate, currentFiles, proposedFiles, matches, path);
    ScopedContent(collate, currentFiles, once.files, matches, path);
    ContentMapExactly(currentFiles);
    ContentMapExactly(proposedFiles);
    ContentMapExactly(once.files);
    assert Get(ContentMap(once.files), path) == ContentIn(once.files, path);
    assert Get(ContentMap(currentFiles), path) == ContentIn(currentFiles, path);
    assert Get(ContentMap(proposedFiles), path) == ContentIn(proposedFiles, path);
  }

  lemma {:induction false} ScopedKeys(
    collate: Collation, currentFiles: seq<GeneratedFile>, proposedFiles: seq<GeneratedFile>, matches: Text -> bool)
    ensures var current, proposed := ContentMap(currentFiles), ContentMap(proposedFiles);
            ContentMap(Scope(collate, currentFiles, proposedFiles, Some(matches)).files).keys ==
            Filter(Kept(current, proposed, matches), SortedPaths(collate, current, proposed))
  {
    hide ContentMap;
    var current, proposed := ContentMap(currentFiles), ContentMap(proposedFiles);
    var kept := Filter(Kept(current, proposed, matches), SortedPaths(collate, current, proposed));
    ContentMapExactly(currentFiles);
    ContentMapExactly(proposedFiles);
    PathsExactly(collate, current, proposed);
    FilterDistinct(Kept(current, proposed, matches), SortedPaths(collate, current, proposed));
    FilesOfPaths(current, proposed, matches, SortedPaths(collate, current, proposed));
    KeysOfFiles(FileAt(current, proposed, matches), kept);
  }

  lemma {:induction false} SameKeptPaths(
    collate: Collation, currentFiles: seq<GeneratedFile>, proposedFiles: seq<GeneratedFile>, matches: Text -> bool)
    requires Consistent(collate)
    ensures var current, proposed := ContentMap(currentFiles), ContentMap(proposedFiles);
            var scoped := ContentMap(Scope(collate, currentFiles, proposedFiles, Some(matches)).files);
            Filter(Kept(current, proposed, matches), SortedPaths(collate, current, scoped)) ==
            Filter(Kept(current, proposed, matches), SortedPaths(collate, current, proposed))
  {
    hide Scope;
    hide ContentMap;
    hide Kept;
    var current, proposed := ContentMap(currentFiles), ContentMap(proposedFiles);
    ContentMapExactly(currentFiles);
    ContentMapExactly(proposedFiles);
    LessIsWeak(collate);
    WithoutMembers(proposed.keys, current);
    ScopedKeys(collate, currentFiles, proposedFiles, matches);
    SameOrder(Less(collate), Kept(current, proposed, matches), Outside(current), current.keys, Without(proposed.keys, current));
  }

  lemma {:induction false} HasMember(paths: seq<Text>)
    requires paths != []
    ensures exists path :: path in paths
  {
    assert paths[0] in paths;
  }

  /** Scoping a scoped tree again changes nothing. */
  lemma {:induction false} ScopeTwice(
    collate: Collation, currentFiles: seq<GeneratedFile>, proposedFiles: seq<GeneratedFile>, matches: Text -> bool)
    requires Consistent(collate)
    ensures var s := Scope(collate, currentFiles, proposedFiles, Some(matches));
            Scope(collate, currentFiles, s.files, Some(matches)) == Scoped(s.files, [])
  {
    var once := Scope(collate, currentFiles, proposedFiles, Some(matches));
    var twice := Scope(collate, currentFiles, once.files, Some(matches));
    var current, proposed, scoped := ContentMap(currentFiles), ContentMap(proposedFiles), ContentMap(once.files);
    hide ContentMap;
    hide ScopedAt;
    hide SortedPaths;
    hide ScopePaths;
    forall path
      ensures ScopedAt(current, scoped, matches, path) == ScopedAt(current, proposed, matches, path)
      ensures path !in twice.outOfScopePaths
    {
      ScopedAgain(collate, currentFiles, proposedFiles, matches, path);
    }
    if twice.outOfScopePaths != [] {
      HasMember(twice.outOfScopePaths);
      assert false;
    }
    var paths := SortedPaths(collate, current, scoped);
    FilesOfPaths(current, proposed, matches, SortedPaths(collate, current, proposed));
    FilesOfPaths(current, scoped, matches, paths);
    FilterSame(Kept(current, scoped, matches), Kept(current, proposed, matches), paths);
    SameKeptPaths(collate, currentFiles, proposedFiles, matches);
    assert twice.files == once.files;
  }

  // ----- the order of a scoped tree

  ghost predicate InOrder(collate: Collation, paths: seq<Text>) {
    forall i, j :: 0 <= i < j < |paths| ==> collate(paths[j], paths[i]) >= 0
  }

  ghost predicate FilesInOrder(collate: Collation, files: seq<GeneratedFile>) {
    && (forall i :: 0 <= i < |files| ==> files[i].GeneratedFile?)
    && forall i, j :: 0 <= i < j < |files| ==> collate(files[j].path, files[i].path) >= 0
  }

  lemma {:induction false} ScopePathsInOrder(
    collate: Collation, current: Contents, proposed: Contents, matches: Text -> bool, paths: seq<Text>)
    requires InOrder(collate, paths)
    ensures var s := ScopePaths(current, proposed, matches, paths);
            && FilesInOrder(collate, s.files) && InOrder(collate, s.outOfScopePaths)
            && (forall i :: 0 <= i < |s.files| ==> s.files[i].path in paths)
            && (forall i :: 0 <= i < |s.outOfScopePaths| ==> s.outOfScopePaths[i] in paths)
  {
    hide ScopedAt;
    hide Get;
    if paths != [] {
      var before, path := paths[..|paths| - 1], paths[|paths| - 1];
      assert paths == before + [path];
      assert InOrder(collate, before);
      ScopePathsInOrder(collate, current, proposed, matches, before);
      forall p | p in before ensures collate(path, p) >= 0 {
        var i :| 0 <= i < |before| && before[i] == p;
        assert paths[i] == p;
      }
    }
  }

  /** A scoped tree, and the paths out of its scope, are listed in the order of the collation. */
  lemma {:induction false} ScopedInOrder(
    collate: Collation, currentFiles: seq<GeneratedFile>, proposedFiles: seq<GeneratedFile>, matches: Text -> bool)
    requires Consistent(collate)
    ensures var s := Scope(collate, currentFiles, proposedFiles, Some(matches));
            FilesInOrder(collate, s.files) && InOrder(collate, s.outOfScopePaths)
  {
    hide Sort;
    hide AllPaths;
    hide ContentMap;
    hide ScopePaths;
    hide Consistent;
    hide InOrder;
    hide FilesInOrder;
    var current, proposed := ContentMap(currentFiles), ContentMap(proposedFiles);
    SortedIsInOrder(collate, AllPaths(current, proposed));
    ScopePathsInOrder(collate, current, proposed, matches, SortedPaths(collate, current, proposed));
  }

  lemma {:induction false} SortedIsInOrder(collate: Collation, paths: seq<Text>)
    requires Consistent(collate)
    ensures InOrder(collate, Sort(Less(collate), paths))
  {
    hide Sort;
    var r := Sort(Less(collate), paths);
    LessIsWeak(collate);
    SortSorted(Less(collate), paths);
    forall i, j | 0 <= i < j < |r| ensures collate(r[j], r[i]) >= 0 {
      assert !Less(collate)(r[j], r[i]);
    }
  }
}
