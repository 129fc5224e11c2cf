/**
 * find_media_files: the paths of the files, in the order a directory walk
 * visits them, whose names end with one of the configured extensions.
 * The walk is given as its sequence of visited directories.
 */
module MediaSearch {
  import opened Text
  import opened Extensions

  /** One directory the walk visits: its path and its file names, in listing order */
  datatype Dir = Dir(root: string, files: seq<string>)

  /** The directories os.walk yields, in the order it yields them */
  type Walk = seq<Dir>

  /** os.path.join(a, b) on POSIX: an absolute b replaces a; otherwise b is
      appended after a separator, unless a is empty or already ends in one. */
  function PathJoin(a: string, b: string): (r: string)
    ensures b != [] && b[0] == '/' ==> r == b
    ensures (b == [] || b[0] != '/') ==> |a| <= |r| && r[..|a|] == a
    ensures (b == [] || b[0] != '/') && (a == [] || a[|a| - 1] == '/') ==> r == a + b
    ensures (b == [] || b[0] != '/') && a != [] && a[|a| - 1] != '/' ==> r == a + ['/'] + b
    ensures EndsWith(r, b)
  {
    if b != [] && b[0] == '/' then b
    else if a == [] || a[|a| - 1] == '/' then a + b
    else a + "/" + b
  }

  /** any(name.endswith(ext) for ext in exts): false over no extensions, and
      true for every name once the empty extension is among them */
  predicate Matches(name: string, exts: seq<string>)
    ensures exts == [] ==> !Matches(name, exts)
    ensures "" in exts ==> Matches(name, exts)
  {
    exts != [] && (EndsWith(name, exts[0]) || Matches(name, exts[1..]))
  }

  /** The paths of the matching files of one directory, in listing order; a
      file contributes at most one path, and with no extensions none at all. */
  function MatchingIn(root: string, files: seq<string>, exts: seq<string>): (r: seq<string>)
    ensures |r| <= |files|
    ensures exts == [] ==> r == []
  {
    if files == [] then []
    else
      var name := files[|files| - 1];
      MatchingIn(root, files[..|files| - 1], exts) + (if Matches(name, exts) then [PathJoin(root, name)] else [])
  }

  /** The paths of the matching files of the whole walk, in walk order; never
      more paths than the walk has files, and none with no extensions. */
  function MediaFiles(walk: Walk, exts: seq<string>): (r: seq<string>)
    ensures |r| <= FileCount(walk)
    ensures exts == [] ==> r == []
  {
    if walk == [] then []
    else
      var dir := walk[|walk| - 1];
      MediaFiles(walk[..|walk| - 1], exts) + MatchingIn(dir.root, dir.files, exts)
  }

  /** The paths of all files of one directory, in listing order */
  function DirPaths(root: string, files: seq<string>): seq<string> {
    if files == [] then []
    else DirPaths(root, files[..|files| - 1]) + [PathJoin(root, files[|files| - 1])]
  }

  /** The paths of all files the walk visits, in walk order */
  function AllPaths(walk: Walk): seq<string> {
    if walk == [] then []
    else
      var dir := walk[|walk| - 1];
      AllPaths(walk[..|walk| - 1]) + DirPaths(dir.root, dir.files)
  }

  /** The number of files the walk visits */
  function FileCount(walk: Walk): nat {
    if walk == [] then 0 else FileCount(walk[..|walk| - 1]) + |walk[|walk| - 1].files|
  }

  predicate Distinct(s: seq<string>) {
    forall i, j :: 0 <= i < j < |s| ==> s[i] != s[j]
  }

  /** The found files, collected as the walk goes: directory by directory,
      file by file, each matching file's joined path appended once. */
  method FindMediaFiles(walk: Walk, exts: seq<string>) returns (found: seq<string>)
    ensures found == MediaFiles(walk, exts)
  {
    found := [];
    for d := 0 to |walk|
      invariant found == MediaFiles(walk[..d], exts)
    {
      var dir := walk[d];
      for k := 0 to |dir.files|
        invariant found == MediaFiles(walk[..d], exts) + MatchingIn(dir.root, dir.files[..k], exts)
      {
        var name := dir.files[k];
        MatchingInStep(dir.root, dir.files, k, exts);
        if Matches(name, exts) {
          ConcatAssociative(MediaFiles(walk[..d], exts), MatchingIn(dir.root, dir.files[..k], exts), [PathJoin(dir.root, name)]);
          found := found + [PathJoin(dir.root, name)];
        } else {
          assert MatchingIn(dir.root, dir.files[..k], exts) + [] == MatchingIn(dir.root, dir.files[..k], exts);
        }
      }
      assert dir.files[..|dir.files|] == dir.files;
      MediaFilesStep(walk, d, exts);
    }
    assert walk[..|walk|] == walk;
  }

  /** The inner loop's step: file k's path, if it matches, follows those of the files before it */
  lemma MatchingInStep(root: string, files: seq<string>, k: nat, exts: seq<string>)
    requires k < |files|
    ensures MatchingIn(root, files[..k + 1], exts) ==
              MatchingIn(root, files[..k], exts) + (if Matches(files[k], exts) then [PathJoin(root, files[k])] else [])
  {
    assert files[..k + 1][..k] == files[..k];
  }

  /** The outer loop's step: directory d's paths follow those of the directories before it */
  lemma MediaFilesStep(walk: Walk, d: nat, exts: seq<string>)
    requires d < |walk|
    ensures MediaFiles(walk[..d + 1], exts) == MediaFiles(walk[..d], exts) + MatchingIn(walk[d].root, walk[d].files, exts)
  {
    assert walk[..d + 1][..d] == walk[..d];
  }

  /** A name matches exactly when it ends with one of the extensions */
  lemma {:induction false} MatchesSome(name: string, exts: seq<string>)
    ensures Matches(name, exts) <==> exists i :: 0 <= i < |exts| && EndsWith(name, exts[i])
  {
    if exts != [] {
      MatchesSome(name, exts[1..]);
      assert forall i :: 1 <= i < |exts| ==> exts[i] == exts[1..][i - 1];
    }
  }

  /** Matching depends only on which extensions are configured, not on their
      order or repetition. */
  lemma SameExtensionsSameMatch(name: string, exts: seq<string>, others: seq<string>)
    requires forall e :: e in exts <==> e in others
    ensures Matches(name, exts) <==> Matches(name, others)
  {
    MatchesSome(name, exts);
    MatchesSome(name, others);
    if Matches(name, exts) {
      var i :| 0 <= i < |exts| && EndsWith(name, exts[i]);
      assert exts[i] in others;
    }
    if Matches(name, others) {
      var i :| 0 <= i < |others| && EndsWith(name, others[i]);
      assert others[i] in exts;
    }
  }

  /** File k of a directory matches and p is its joined path */
  predicate YieldedBy(root: string, files: seq<string>, k: int, exts: seq<string>, p: string) {
    0 <= k < |files| && Matches(files[k], exts) && p == PathJoin(root, files[k])
  }

  /** A path is found in a directory exactly when it is the joined path of
      one of its files whose name matches. */
  lemma MatchingInMembership(root: string, files: seq<string>, exts: seq<string>, p: string)
    ensures p in MatchingIn(root, files, exts) <==> exists k :: YieldedBy(root, files, k, exts, p)
  {
    if p in MatchingIn(root, files, exts) {
      MatchingInFound(root, files, exts, p);
    }
    forall k | YieldedBy(root, files, k, exts, p)
      ensures p in MatchingIn(root, files, exts)
    {
      MatchingInYields(root, files, k, exts, p);
    }
  }

  /** Every path found in a directory comes from one of its files */
  lemma {:induction false} MatchingInFound(root: string, files: seq<string>, exts: seq<string>, p: string)
    requires p in MatchingIn(root, files, exts)
    ensures exists k :: YieldedBy(root, files, k, exts, p)
  {
    var n := |files|;
    var front := files[..n - 1];
    if p in MatchingIn(root, front, exts) {
      MatchingInFound(root, front, exts, p);
      var k :| YieldedBy(root, front, k, exts, p);
      assert front[k] == files[k];
      assert YieldedBy(root, files, k, exts, p);
    } else {
      assert YieldedBy(root, files, n - 1, exts, p);
    }
  }

  /** Every matching file of a directory yields its path */
  lemma {:induction false} MatchingInYields(root: string, files: seq<string>, k: int, exts: seq<string>, p: string)
    requires YieldedBy(root, files, k, exts, p)
    ensures p in MatchingIn(root, files, exts)
  {
    var n := |files|;
    var front := files[..n - 1];
    if k < n - 1 {
      assert front[k] == files[k];
      assert YieldedBy(root, front, k, exts, p);
      MatchingInYields(root, front, k, exts, p);
    }
  }

  /** The walk's found paths are those of its first directories followed by
      those of the rest: walk order is kept. */
  lemma {:induction false} MediaFilesAppend(first: Walk, rest: Walk, exts: seq<string>)
    ensures MediaFiles(first + rest, exts) == MediaFiles(first, exts) + MediaFiles(rest, exts)
  {
    if rest == [] {
      assert first + rest == first;
    } else {
      var front := rest[..|rest| - 1];
      assert (first + rest)[..|first + rest| - 1] == first + front;
      MediaFilesAppend(first, front, exts);
    }
  }

  /** Within a directory the found paths keep the listing order */
  lemma {:induction false} MatchingInAppend(root: string, first: seq<string>, rest: seq<string>, exts: seq<string>)
    ensures MatchingIn(root, first + rest, exts) == MatchingIn(root, first, exts) + MatchingIn(root, rest, exts)
  {
    if rest == [] {
      assert first + rest == first;
    } else {
      var front := rest[..|rest| - 1];
      assert (first + rest)[..|first + rest| - 1] == first + front;
      MatchingInAppend(root, first, front, exts);
    }
  }

  /** A path is found exactly when some directory of the walk holds a file
      whose name matches and whose joined path it is. */
  lemma {:induction false} MediaFilesMembership(walk: Walk, exts: seq<string>, p: string)
    ensures p in MediaFiles(walk, exts) <==>
              exists d, k :: 0 <= d < |walk| && YieldedBy(walk[d].root, walk[d].files, k, exts, p)
  {
    if walk != [] {
      var n := |walk|;
      var front, dir := walk[..n - 1], walk[n - 1];
      MediaFilesMembership(front, exts, p);
      MatchingInMembership(dir.root, dir.files, exts, p);
      assert forall d :: 0 <= d < n - 1 ==> front[d] == walk[d];
    }
  }

  /** Every found path ends with one of the extensions */
  lemma FoundPathsHaveExtension(walk: Walk, exts: seq<string>, p: string)
    requires p in MediaFiles(walk, exts)
    ensures exists i :: 0 <= i < |exts| && EndsWith(p, exts[i])
  {
    MediaFilesMembership(walk, exts, p);
    var d, k :| 0 <= d < |walk| && YieldedBy(walk[d].root, walk[d].files, k, exts, p);
    var name := walk[d].files[k];
    MatchesSome(name, exts);
    var i :| 0 <= i < |exts| && EndsWith(name, exts[i]);
    EndsWithTransitive(p, name, exts[i]);
  }

  /** Every name ends with the empty extension: with "" configured, every
      file of the walk is found. */
  lemma {:induction false} EmptyExtensionMatchesAll(walk: Walk, exts: seq<string>)
    requires "" in exts
    ensures MediaFiles(walk, exts) == AllPaths(walk)
  {
    if walk != [] {
      EmptyExtensionMatchesAll(walk[..|walk| - 1], exts);
      var dir := walk[|walk| - 1];
      EmptyExtensionAllInDir(dir.root, dir.files, exts);
    }
  }

  lemma {:induction false} EmptyExtensionAllInDir(root: string, files: seq<string>, exts: seq<string>)
    requires "" in exts
    ensures MatchingIn(root, files, exts) == DirPaths(root, files)
  {
    if files != [] {
      EmptyExtensionAllInDir(root, files[..|files| - 1], exts);
    }
  }

  /** The result depends only on which extensions are configured: listing an
      extension twice, or in another order, finds the same paths. */
  lemma {:induction false} SameExtensionsSameFiles(walk: Walk, exts: seq<string>, others: seq<string>)
    requires forall e :: e in exts <==> e in others
    ensures MediaFiles(walk, exts) == MediaFiles(walk, others)
  {
    if walk != [] {
      SameExtensionsSameFiles(walk[..|walk| - 1], exts, others);
      var dir := walk[|walk| - 1];
      SameExtensionsSameInDir(dir.root, dir.files, exts, others);
    }
  }

  lemma {:induction false} SameExtensionsSameInDir(root: string, files: seq<string>, exts: seq<string>, others: seq<string>)
    requires forall e :: e in exts <==> e in others
    ensures MatchingIn(root, files, exts) == MatchingIn(root, files, others)
  {
    if files != [] {
      SameExtensionsSameInDir(root, files[..|files| - 1], exts, others);
      SameExtensionsSameMatch(files[|files| - 1], exts, others);
    }
  }

  lemma DistinctConcat(a: seq<string>, b: seq<string>)
    ensures Distinct(a + b) <==> Distinct(a) && Distinct(b) && forall x :: x in a ==> x !in b
  {
    if Distinct(a) && Distinct(b) && forall x :: x in a ==> x !in b {
      forall i, j | 0 <= i < j < |a + b|
        ensures (a + b)[i] != (a + b)[j]
      {
        if j < |a| {
          assert (a + b)[i] == a[i] && (a + b)[j] == a[j];
        } else if i >= |a| {
          assert (a + b)[i] == b[i - |a|] && (a + b)[j] == b[j - |a|];
        } else {
          assert (a + b)[i] in a && (a + b)[j] in b;
        }
      }
    }
    if Distinct(a + b) {
      assert forall i, j :: 0 <= i < j < |a| ==> a[i] == (a + b)[i] && a[j] == (a + b)[j];
      assert forall i, j :: 0 <= i < j < |b| ==> b[i] == (a + b)[i + |a|] && b[j] == (a + b)[j + |a|];
      forall x | x in a
        ensures x !in b
      {
        var i :| 0 <= i < |a| && a[i] == x;
        assert (a + b)[i] == x;
        assert forall j :: 0 <= j < |b| ==> (a + b)[|a| + j] == b[j];
      }
    }
  }

  /** What a directory yields is among the paths of its files */
  lemma {:induction false} MatchingInAmongPaths(root: string, files: seq<string>, exts: seq<string>)
    ensures forall p :: p in MatchingIn(root, files, exts) ==> p in DirPaths(root, files)
  {
    if files != [] {
      MatchingInAmongPaths(root, files[..|files| - 1], exts);
    }
  }

  /** What the walk yields is among the paths of its files */
  lemma {:induction false} MediaFilesAmongPaths(walk: Walk, exts: seq<string>)
    ensures forall p :: p in MediaFiles(walk, exts) ==> p in AllPaths(walk)
  {
    if walk != [] {
      MediaFilesAmongPaths(walk[..|walk| - 1], exts);
      var dir := walk[|walk| - 1];
      MatchingInAmongPaths(dir.root, dir.files, exts);
    }
  }

  lemma {:induction false} MatchingInDistinct(root: string, files: seq<string>, exts: seq<string>)
    requires Distinct(DirPaths(root, files))
    ensures Distinct(MatchingIn(root, files, exts))
  {
    if files != [] {
      var front, name := files[..|files| - 1], files[|files| - 1];
      var last := if Matches(name, exts) then [PathJoin(root, name)] else [];
      DistinctConcat(DirPaths(root, front), [PathJoin(root, name)]);
      MatchingInDistinct(root, front, exts);
      MatchingInAmongPaths(root, front, exts);
      DistinctConcat(MatchingIn(root, front, exts), last);
    }
  }

  /** Each file is found at most once: when the walk visits no path twice,
      no path appears twice among the found files. */
  lemma {:induction false} MediaFilesDistinct(walk: Walk, exts: seq<string>)
    requires Distinct(AllPaths(walk))
    ensures Distinct(MediaFiles(walk, exts))
  {
    if walk != [] {
      var front, dir := walk[..|walk| - 1], walk[|walk| - 1];
      DistinctConcat(AllPaths(front), DirPaths(dir.root, dir.files));
      MediaFilesDistinct(front, exts);
      MatchingInDistinct(dir.root, dir.files, exts);
      MediaFilesAmongPaths(front, exts);
      MatchingInAmongPaths(dir.root, dir.files, exts);
      DistinctConcat(MediaFiles(front, exts), MatchingIn(dir.root, dir.files, exts));
    }
  }

  /** A media_extensions setting that ends with a comma selects every file */
  lemma TrailingCommaSelectsEveryFile(walk: Walk, setting: string)
    ensures MediaFiles(walk, ParseExtensions(setting + ",")) == AllPaths(walk)
  {
    TrailingCommaGivesEmptyExtension(setting);
    EmptyExtensionMatchesAll(walk, ParseExtensions(setting + ","));
  }

  /** An empty or blank media_extensions setting selects every file */
  lemma BlankSettingSelectsEveryFile(walk: Walk, setting: string)
    requires AllSpace(setting)
    ensures MediaFiles(walk, ParseExtensions(setting)) == AllPaths(walk)
  {
    BlankSettingGivesEmptyExtension(setting);
    EmptyExtensionMatchesAll(walk, ParseExtensions(setting));
  }
}
