/**
 * The first-run workspace discovery of rosactive: walk the home directory,
 * keep the `CMakeLists.txt` files of shallow, non-hidden directories whose
 * path ends in `src`, keep those whose text holds the catkin marker, and
 * index the parent directory of each.
 *
 * The filesystem is given as data: the walk is the sequence of
 * (directory path, file names) pairs that `os.walk` yields, in its order,
 * and the file texts are a map from joined path to contents.
 */
module Rosactive {
  import opened Strings

  type Path = string

  /** `os.sep` on the POSIX systems the tool runs on. */
  const Sep: char := '/'
  /** How many separators deeper than the home path a directory may be and still be examined. */
  const DepthAllowance: nat := 5
  /** The build descriptor a workspace's source directory holds. */
  const DescriptorName: string := "CMakeLists.txt"
  /** What the path of a candidate's directory must end with. */
  const SourceSuffix: string := "src"
  /** The text whose presence in a descriptor marks a catkin workspace. */
  const Marker: string := "catkin_workspace"
  /** `str(sep) + "."`, the start of a hidden path segment. */
  const HiddenMark: string := [Sep, '.']

  /** One step of `os.walk`: a directory path and the names of the files directly in it. */
  type WalkEntry = (Path, seq<string>)

  /** A (directory, file name) pair that may describe a workspace. */
  datatype Candidate = Candidate(dir: Path, name: string)

  /** The ways first-run setup ends early. */
  datatype SetupError =
    | RosContentSourced     // ROS_DISTRO is set: the process exits before scanning
    | FileNotFound(path: Path)  // a candidate's descriptor cannot be opened

  datatype Result<T> = Ok(value: T) | Err(error: SetupError)

  // ---------------------------------------------------------------------
  // The per-directory and per-file tests of the candidate stage
  // ---------------------------------------------------------------------

  /** `5 + homedir.count(sep)`. */
  function MaxDepth(home: Path): (d: nat)
    ensures DepthAllowance <= d <= DepthAllowance + |home|
    ensures d == DepthAllowance <==> Sep !in home
  {
    DepthAllowance + Count(home, Sep)
  }

  /** `root.count(sep) < maxdepth`: depth is an absolute separator count. */
  predicate WithinDepth(home: Path, dir: Path)
    ensures dir == home ==> WithinDepth(home, dir)
    ensures Count(dir, Sep) < DepthAllowance ==> WithinDepth(home, dir)
  {
    Count(dir, Sep) < MaxDepth(home)
  }

  /** `root.find(str(sep) + ".") > 0`. */
  predicate IsHidden(dir: Path)
  {
    Find(dir, HiddenMark) > 0
  }

  /** `f == "CMakeLists.txt" and root.endswith("src")`. */
  predicate IsDescriptor(dir: Path, name: string)
    ensures IsDescriptor(dir, name) ==> |dir| >= |SourceSuffix| && dir[|dir| - 1] != Sep
  {
    name == DescriptorName && EndsWith(dir, SourceSuffix)
  }

  /** All three tests a (directory, file) pair must pass to become a candidate. */
  predicate Qualifies(home: Path, dir: Path, name: string)
  {
    WithinDepth(home, dir) && !IsHidden(dir) && IsDescriptor(dir, name)
  }

  /**
   * A directory is hidden exactly when the first `/.` in its path lies after
   * index 0; no occurrence, or a first occurrence at index 0, keeps it,
   * whatever hidden segments follow.
   */
  lemma HiddenIffFirstMarkAfterStart(dir: Path)
    ensures IsHidden(dir) <==>
      exists k: nat :: 0 < k && OccursAt(dir, HiddenMark, k) &&
        forall j: nat :: j < k ==> !OccursAt(dir, HiddenMark, j)
    ensures OccursAt(dir, HiddenMark, 0) ==> !IsHidden(dir)
  {
    var r := Find(dir, HiddenMark);
    FindSpec(dir, HiddenMark);
    if IsHidden(dir) {
      assert OccursAt(dir, HiddenMark, r);
    } else if r == 0 {
      assert OccursAt(dir, HiddenMark, 0);
    }
  }

  /** The descendants of a directory that is too deep are too deep as well. */
  lemma DescendantOfDeepIsDeep(home: Path, dir: Path, child: string)
    requires !WithinDepth(home, dir)
    ensures !WithinDepth(home, dir + [Sep] + child)
  {
    CountConcat(dir + [Sep], child, Sep);
    CountConcat(dir, [Sep], Sep);
  }

  /** Below the home directory, depth counts the separators of the path relative to it. */
  lemma DepthRelativeToHome(home: Path, rel: Path)
    ensures WithinDepth(home, home + rel) <==> Count(rel, Sep) < DepthAllowance
  {
    CountConcat(home, rel, Sep);
  }

  /** Every path that extends a hidden directory's path is hidden too. */
  lemma HiddenIsInherited(dir: Path, rest: Path)
    requires IsHidden(dir)
    ensures IsHidden(dir + rest)
  {
    FindExtend(dir, rest, HiddenMark);
  }

  /** The suffix test is textual: a directory such as `/home/u/mysrc` also qualifies. */
  lemma SuffixTestIsTextual(prefix: Path)
    ensures IsDescriptor(prefix + "mysrc", DescriptorName)
  {
    var dir := prefix + "mysrc";
    assert dir[|dir| - 3..] == "src";
  }

  // ---------------------------------------------------------------------
  // Candidate stage: `potential_workspaces`
  // ---------------------------------------------------------------------

  /** The candidates one directory of the walk contributes, in file-list order. */
  function DirCandidates(home: Path, dir: Path, files: seq<string>): (cs: seq<Candidate>)
    ensures |cs| <= |files|
    decreases |files|
  {
    if files == [] then []
    else
      var last := files[|files| - 1];
      DirCandidates(home, dir, files[..|files| - 1]) +
        (if Qualifies(home, dir, last) then [Candidate(dir, last)] else [])
  }

  /** All candidates of a walk: each directory's in walk order. */
  function Candidates(home: Path, walk: seq<WalkEntry>): (cs: seq<Candidate>)
    decreases |walk|
  {
    if walk == [] then []
    else
      var entry := walk[|walk| - 1];
      Candidates(home, walk[..|walk| - 1]) + DirCandidates(home, entry.0, entry.1)
  }

  /** The pair `c` is listed by the walk: its name is among the files of a visited directory `c.dir`. */
  predicate InWalk(walk: seq<WalkEntry>, c: Candidate)
  {
    exists i :: 0 <= i < |walk| && walk[i].0 == c.dir && c.name in walk[i].1
  }

  /** A pair of one directory is among its candidates exactly when the file is listed there and qualifies. */
  lemma {:induction false} DirCandidateIff(home: Path, dir: Path, files: seq<string>, c: Candidate)
    ensures c in DirCandidates(home, dir, files) <==> c.dir == dir && c.name in files && Qualifies(home, dir, c.name)
    decreases |files|
  {
    if files != [] {
      var last := files[|files| - 1];
      assert files == files[..|files| - 1] + [last];
      DirCandidateIff(home, dir, files[..|files| - 1], c);
    }
  }

  /** Within one directory, candidates keep file-list order: a split list gives the two halves' candidates. */
  lemma {:induction false} DirCandidatesConcat(home: Path, dir: Path, f1: seq<string>, f2: seq<string>)
    ensures DirCandidates(home, dir, f1 + f2) == DirCandidates(home, dir, f1) + DirCandidates(home, dir, f2)
    decreases |f2|
  {
    if f2 == [] {
      assert f1 + f2 == f1;
      AppendEmpty(DirCandidates(home, dir, f1));
    } else {
      var rest, last := f2[..|f2| - 1], f2[|f2| - 1];
      var f := f1 + f2;
      assert f[..|f| - 1] == f1 + rest;
      assert f[|f| - 1] == last;
      DirCandidatesConcat(home, dir, f1, rest);
      AppendAssoc(DirCandidates(home, dir, f1), DirCandidates(home, dir, rest),
        if Qualifies(home, dir, last) then [Candidate(dir, last)] else []);
    }
  }

  /** A too-deep directory contributes nothing, nor does a hidden one. */
  lemma {:induction false} SkippedDirContributesNothing(home: Path, dir: Path, files: seq<string>)
    requires !WithinDepth(home, dir) || IsHidden(dir)
    ensures DirCandidates(home, dir, files) == []
    decreases |files|
  {
    if files != [] {
      SkippedDirContributesNothing(home, dir, files[..|files| - 1]);
    }
  }

  /** Candidates keep walk order: a split walk gives the two halves' candidates, concatenated. */
  lemma {:induction false} CandidatesConcat(home: Path, w1: seq<WalkEntry>, w2: seq<WalkEntry>)
    ensures Candidates(home, w1 + w2) == Candidates(home, w1) + Candidates(home, w2)
    decreases |w2|
  {
    if w2 == [] {
      assert w1 + w2 == w1;
    } else {
      var rest, e := w2[..|w2| - 1], w2[|w2| - 1];
      assert w2 == rest + [e];
      assert w1 + w2 == (w1 + rest) + [e];
      CandidatesConcat(home, w1, rest);
      CandidatesSnoc(home, w1 + rest, e);
      CandidatesSnoc(home, rest, e);
      AppendAssoc(Candidates(home, w1), Candidates(home, rest), DirCandidates(home, e.0, e.1));
    }
  }

  /** One more directory at the end of the walk adds its candidates at the end. */
  lemma CandidatesSnoc(home: Path, w: seq<WalkEntry>, e: WalkEntry)
    ensures Candidates(home, w + [e]) == Candidates(home, w) + DirCandidates(home, e.0, e.1)
  {
    assert (w + [e])[..|w|] == w;
  }

  /**
   * The walk still visits a directory too deep or hidden, but inserting it
   * anywhere leaves the candidates unchanged.
   */
  lemma SkippedDirIsInert(home: Path, w1: seq<WalkEntry>, dir: Path, files: seq<string>, w2: seq<WalkEntry>)
    requires !WithinDepth(home, dir) || IsHidden(dir)
    ensures Candidates(home, w1 + [(dir, files)] + w2) == Candidates(home, w1 + w2)
  {
    var single: seq<WalkEntry> := [(dir, files)];
    assert single[..0] == [];
    SkippedDirContributesNothing(home, dir, files);
    assert Candidates(home, single) == [];
    CandidatesConcat(home, w1 + single, w2);
    CandidatesConcat(home, w1, single);
    CandidatesConcat(home, w1, w2);
  }

  /**
   * A pair is a candidate exactly when the walk lists it and it passes the
   * depth, hidden and descriptor tests.
   */
  lemma {:induction false} CandidateIff(home: Path, walk: seq<WalkEntry>, c: Candidate)
    ensures c in Candidates(home, walk) <==> InWalk(walk, c) && Qualifies(home, c.dir, c.name)
    decreases |walk|
  {
    if walk != [] {
      var prefix, entry := walk[..|walk| - 1], walk[|walk| - 1];
      CandidateIff(home, prefix, c);
      DirCandidateIff(home, entry.0, entry.1, c);
      InWalkSnoc(walk, c);
    }
  }

  /** A pair is listed by a walk exactly when its prefix or its last directory lists it. */
  lemma InWalkSnoc(walk: seq<WalkEntry>, c: Candidate)
    requires walk != []
    ensures InWalk(walk, c) <==>
      InWalk(walk[..|walk| - 1], c) || (walk[|walk| - 1].0 == c.dir && c.name in walk[|walk| - 1].1)
  {
    var prefix := walk[..|walk| - 1];
    if InWalk(prefix, c) {
      var i :| 0 <= i < |prefix| && prefix[i].0 == c.dir && c.name in prefix[i].1;
      assert walk[i] == prefix[i];
    }
    if InWalk(walk, c) {
      var i :| 0 <= i < |walk| && walk[i].0 == c.dir && c.name in walk[i].1;
      if i < |walk| - 1 {
        assert prefix[i] == walk[i];
      }
    }
  }

  /** One step of the outer loop: the next directory's candidates follow those collected so far. */
  lemma CandidatesStep(home: Path, walk: seq<WalkEntry>, i: nat)
    requires i < |walk|
    ensures Candidates(home, walk[..i + 1]) == Candidates(home, walk[..i]) + DirCandidates(home, walk[i].0, walk[i].1)
  {
    assert walk[..i + 1][..i] == walk[..i];
  }

  /** One step of the inner loop: the next file adds itself when it qualifies. */
  lemma DirCandidatesStep(home: Path, dir: Path, files: seq<string>, j: nat)
    requires j < |files|
    ensures Qualifies(home, dir, files[j]) ==>
      DirCandidates(home, dir, files[..j + 1]) == DirCandidates(home, dir, files[..j]) + [Candidate(dir, files[j])]
    ensures !Qualifies(home, dir, files[j]) ==>
      DirCandidates(home, dir, files[..j + 1]) == DirCandidates(home, dir, files[..j])
  {
    assert files[..j + 1][..j] == files[..j];
    assert DirCandidates(home, dir, files[..j]) + [] == DirCandidates(home, dir, files[..j]);
  }

  /** The candidate loop of `init_file_structure`, stage one. */
  method CollectCandidates(home: Path, walk: seq<WalkEntry>) returns (potential: seq<Candidate>)
    ensures potential == Candidates(home, walk)
  {
    var maxdepth := DepthAllowance + Count(home, Sep);
    potential := [];
    for i := 0 to |walk|
      invariant potential == Candidates(home, walk[..i])
    {
      var (root, files) := walk[i];
      CandidatesStep(home, walk, i);
      if Count(root, Sep) < maxdepth {
        var found := CollectDirCandidates(home, root, files);
        potential := potential + found;
      } else {
        SkippedDirContributesNothing(home, root, files);
        assert potential + [] == potential;
      }
    }
    assert walk[..|walk|] == walk;
  }

  /** The inner loop over one directory's files, entered only for a directory within the depth limit. */
  method CollectDirCandidates(home: Path, root: Path, files: seq<string>) returns (found: seq<Candidate>)
    requires WithinDepth(home, root)
    ensures found == DirCandidates(home, root, files)
  {
    found := [];
    for j := 0 to |files|
      invariant found == DirCandidates(home, root, files[..j])
    {
      DirCandidatesStep(home, root, files, j);
      var f := files[j];
      if Find(root, HiddenMark) > 0 {
        continue;
      }
      if f == DescriptorName && EndsWith(root, SourceSuffix) {
        found := found + [Candidate(root, f)];
      }
    }
    assert files[..|files|] == files;
  }

  // ---------------------------------------------------------------------
  // Validation stage: `workspaces`
  // ---------------------------------------------------------------------

  /** `os.path.join(a, b)` for two components. */
  function JoinPath(a: Path, b: string): (p: Path)
  {
    if |b| > 0 && b[0] == Sep then b
    else if a == [] || a[|a| - 1] == Sep then a + b
    else a + [Sep] + b
  }

  /**
   * A joined path ends with its last component; unless that component is
   * absolute, it starts with the first, and a separator stands between the
   * two exactly when the first does not already end with one.
   */
  lemma JoinPathShape(a: Path, b: string)
    ensures EndsWith(JoinPath(a, b), b)
    ensures !(|b| > 0 && b[0] == Sep) ==>
      JoinPath(a, b) == a + (if a == [] || a[|a| - 1] == Sep then [] else [Sep]) + b
    ensures |b| > 0 && b[0] == Sep ==> JoinPath(a, b) == b
  {
    if |b| > 0 && b[0] == Sep {
      EndsWithAppend([], b);
      assert [] + b == b;
    } else if a == [] || a[|a| - 1] == Sep {
      EndsWithAppend(a, b);
      AppendEmpty(a);
    } else {
      EndsWithAppend(a + [Sep], b);
    }
  }

  /** The path opened for a candidate, `join(root, f)`. */
  function DescriptorPath(c: Candidate): (p: Path)
  {
    JoinPath(c.dir, c.name)
  }

  /** A candidate directory never ends in the separator, so its descriptor path is `dir/name`. */
  lemma DescriptorPathOfCandidate(c: Candidate)
    requires IsDescriptor(c.dir, c.name)
    ensures DescriptorPath(c) == c.dir + [Sep] + DescriptorName
  {
    assert c.dir[|c.dir| - 3..] == SourceSuffix;
    assert c.dir[|c.dir| - 1] == SourceSuffix[2];
  }

  /** The candidate's descriptor is present and holds the marker. */
  predicate HasMarker(contents: map<Path, string>, c: Candidate)
  {
    DescriptorPath(c) in contents && Contains(contents[DescriptorPath(c)], Marker)
  }

  /** `sep.join(root.split(sep)[:-1])`: the workspace a candidate stands for. */
  function Workspace(c: Candidate): (w: Path)
  {
    DropLastSegment(c.dir, Sep)
  }

  /** `/home/u/proj/src` stands for the workspace `/home/u/proj`; in general, the parent of the last segment. */
  lemma WorkspaceRestoresDir(c: Candidate)
    requires Sep in c.dir
    ensures Workspace(c) + [Sep] + LastSegment(c.dir, Sep) == c.dir
  {
    DropLastSegmentDecomposes(c.dir, Sep);
  }

  /**
   * The workspaces of a candidate list, in candidate order, or the failure to
   * open the first descriptor that is missing.
   */
  function Validate(contents: map<Path, string>, cs: seq<Candidate>): (r: Result<seq<Path>>)
    ensures r.Ok? ==> |r.value| <= |cs|
    ensures r.Err? ==> r.error.FileNotFound?
    decreases |cs|
  {
    if cs == [] then Ok([])
    else
      var prefix, c := cs[..|cs| - 1], cs[|cs| - 1];
      match Validate(contents, prefix)
      case Err(e) => Err(e)
      case Ok(ws) =>
        if DescriptorPath(c) !in contents then Err(FileNotFound(DescriptorPath(c)))
        else Ok(ws + Found(contents, c))
  }

  /** What one candidate whose descriptor opens adds to `workspaces`. */
  function Found(contents: map<Path, string>, c: Candidate): (ws: seq<Path>)
    requires DescriptorPath(c) in contents
  {
    if Contains(contents[DescriptorPath(c)], Marker) then [Workspace(c)] else []
  }

  /** Validation succeeds exactly when every candidate's descriptor can be opened. */
  lemma {:induction false} ValidateOkIff(contents: map<Path, string>, cs: seq<Candidate>)
    ensures Validate(contents, cs).Ok? <==> forall c :: c in cs ==> DescriptorPath(c) in contents
    decreases |cs|
  {
    if cs != [] {
      var prefix, c := cs[..|cs| - 1], cs[|cs| - 1];
      assert cs == prefix + [c];
      ValidateOkIff(contents, prefix);
    }
  }

  /** A failed validation reports the first candidate, in list order, whose descriptor is missing. */
  lemma {:induction false} ValidateReportsFirstMissing(contents: map<Path, string>, cs: seq<Candidate>)
    requires Validate(contents, cs).Err?
    ensures exists k ::
      && 0 <= k < |cs|
      && DescriptorPath(cs[k]) !in contents
      && Validate(contents, cs).error == FileNotFound(DescriptorPath(cs[k]))
      && forall j :: 0 <= j < k ==> DescriptorPath(cs[j]) in contents
    decreases |cs|
  {
    var prefix, c := cs[..|cs| - 1], cs[|cs| - 1];
    if Validate(contents, prefix).Err? {
      ValidateReportsFirstMissing(contents, prefix);
      var k :| 0 <= k < |prefix| && DescriptorPath(prefix[k]) !in contents &&
        Validate(contents, prefix).error == FileNotFound(DescriptorPath(prefix[k])) &&
        forall j :: 0 <= j < k ==> DescriptorPath(prefix[j]) in contents;
      assert cs[k] == prefix[k];
      assert forall j :: 0 <= j < k ==> cs[j] == prefix[j];
    } else {
      ValidateOkIff(contents, prefix);
      assert forall j :: 0 <= j < |cs| - 1 ==> cs[j] in prefix;
    }
  }

  /** Validation keeps candidate order: a split list validates as its two halves, concatenated. */
  lemma {:induction false} ValidateConcat(contents: map<Path, string>, c1: seq<Candidate>, c2: seq<Candidate>)
    ensures Validate(contents, c1 + c2) ==
      match Validate(contents, c1)
      case Err(e) => Err(e)
      case Ok(ws1) =>
        match Validate(contents, c2)
        case Err(e) => Err(e)
        case Ok(ws2) => Ok(ws1 + ws2)
    decreases |c2|
  {
    if c2 == [] {
      assert c1 + c2 == c1;
      match Validate(contents, c1)
      case Err(e) =>
      case Ok(ws1) => assert ws1 + [] == ws1;
    } else {
      var cs := c1 + c2;
      var p2, c := c2[..|c2| - 1], c2[|c2| - 1];
      assert cs[..|cs| - 1] == c1 + p2;
      assert cs[|cs| - 1] == c;
      ValidateConcat(contents, c1, p2);
      match Validate(contents, c1)
      case Err(e) =>
      case Ok(ws1) =>
        match Validate(contents, p2)
        case Err(e) =>
        case Ok(ws2) =>
          if DescriptorPath(c) in contents {
            AppendAssoc(ws1, ws2, Found(contents, c));
          }
    }
  }

  /** One step of the validation loop: the result of a prefix extended by the next candidate. */
  lemma ValidateStep(contents: map<Path, string>, cs: seq<Candidate>, i: nat, ws: seq<Path>)
    requires i < |cs| && Validate(contents, cs[..i]) == Ok(ws)
    ensures DescriptorPath(cs[i]) !in contents ==>
      Validate(contents, cs[..i + 1]) == Err(FileNotFound(DescriptorPath(cs[i])))
    ensures DescriptorPath(cs[i]) in contents ==>
      Validate(contents, cs[..i + 1]) == Ok(ws + Found(contents, cs[i]))
  {
    var done := cs[..i + 1];
    assert done[..i] == cs[..i] && done[i] == cs[i];
  }

  /** Once a prefix fails to open a descriptor, the whole list fails the same way. */
  lemma ValidateErrPrefix(contents: map<Path, string>, cs: seq<Candidate>, k: nat)
    requires k <= |cs|
    requires Validate(contents, cs[..k]).Err?
    ensures Validate(contents, cs) == Validate(contents, cs[..k])
  {
    assert cs == cs[..k] + cs[k..];
    ValidateConcat(contents, cs[..k], cs[k..]);
  }

  /**
   * When every descriptor opens, a path is a workspace exactly when some
   * candidate holding the marker stands for it.
   */
  lemma {:induction false} WorkspaceIff(contents: map<Path, string>, cs: seq<Candidate>, w: Path)
    requires Validate(contents, cs).Ok?
    ensures w in Validate(contents, cs).value <==> exists c :: c in cs && HasMarker(contents, c) && Workspace(c) == w
    decreases |cs|
  {
    if cs != [] {
      var prefix, c := cs[..|cs| - 1], cs[|cs| - 1];
      assert cs == prefix + [c];
      WorkspaceIff(contents, prefix, w);
      if exists d :: d in cs && HasMarker(contents, d) && Workspace(d) == w {
        var d :| d in cs && HasMarker(contents, d) && Workspace(d) == w;
        if d != c {
          assert d in prefix;
        }
      }
    }
  }

  /** Workspaces are not deduplicated: a marked candidate listed twice is indexed twice. */
  lemma RepeatedCandidateRepeatsWorkspace(contents: map<Path, string>, cs: seq<Candidate>, c: Candidate)
    requires Validate(contents, cs).Ok?
    requires HasMarker(contents, c)
    ensures Validate(contents, cs + [c, c]) == Ok(Validate(contents, cs).value + [Workspace(c), Workspace(c)])
  {
    var ws, w := Validate(contents, cs).value, Workspace(c);
    ValidateSingleton(contents, c);
    ValidateConcat(contents, [c], [c]);
    assert [c] + [c] == [c, c];
    assert [w] + [w] == [w, w];
    assert Validate(contents, [c, c]) == Ok([w, w]);
    ValidateConcat(contents, cs, [c, c]);
  }

  /**
   * One candidate on its own: a missing descriptor aborts, and a readable
   * one yields its workspace exactly when its text holds the marker.
   */
  lemma ValidateSingleton(contents: map<Path, string>, c: Candidate)
    ensures DescriptorPath(c) !in contents ==> Validate(contents, [c]) == Err(FileNotFound(DescriptorPath(c)))
    ensures HasMarker(contents, c) ==> Validate(contents, [c]) == Ok([Workspace(c)])
    ensures DescriptorPath(c) in contents && !HasMarker(contents, c) ==> Validate(contents, [c]) == Ok([])
  {
    assert [c][..0] == [];
    assert [] + [Workspace(c)] == [Workspace(c)];
  }

  /** The validation loop of `init_file_structure`, stage two. */
  method ValidateCandidates(contents: map<Path, string>, potential: seq<Candidate>) returns (r: Result<seq<Path>>)
    ensures r == Validate(contents, potential)
  {
    var workspaces := [];
    for i := 0 to |potential|
      invariant Validate(contents, potential[..i]) == Ok(workspaces)
    {
      ValidateStep(contents, potential, i, workspaces);
      var root, f := potential[i].dir, potential[i].name;
      var path := JoinPath(root, f);
      if path !in contents {
        ValidateErrPrefix(contents, potential, i + 1);
        return Err(FileNotFound(path));
      }
      ghost var before, c := workspaces, potential[i];
      assert path == DescriptorPath(c);
      if Contains(contents[path], Marker) {
        var nosrc := DropLastSegment(root, Sep);
        workspaces := workspaces + [nosrc];
        assert nosrc == Workspace(c);
      }
      assert workspaces == before + Found(contents, c);
      assert Validate(contents, potential[..i + 1]) == Ok(workspaces);
    }
    assert potential[..|potential|] == potential;
    r := Ok(workspaces);
  }

  // ---------------------------------------------------------------------
  // Indexing and the whole first-run scan
  // ---------------------------------------------------------------------

  /** The workspace index kept under `~/.rosactive`, as the entries it holds. */
  class IndexFile {
    var entries: seq<Path>
    /** The arguments `index` has been called with, in call order. */
    ghost var calls: seq<Path>

    /** `index(string)`: a stub that leaves the index as it was; only the call is recorded. */
    method Index(ws: Path)
      modifies this
      ensures calls == old(calls) + [ws]
      ensures entries == old(entries)
    {
      calls := calls + [ws];
    }
  }

  /** The loop that hands each workspace, once and in list order, to `index`. */
  method IndexAll(index: IndexFile, workspaces: seq<Path>)
    modifies index
    ensures index.calls == old(index.calls) + workspaces
    ensures index.entries == old(index.entries)
  {
    for i := 0 to |workspaces|
      invariant index.calls == old(index.calls) + workspaces[..i]
      invariant index.entries == old(index.entries)
    {
      index.Index(workspaces[i]);
      assert workspaces[..i + 1] == workspaces[..i] + [workspaces[i]];
    }
    assert workspaces[..|workspaces|] == workspaces;
  }

  /** What first-run setup discovers: nothing when ROS is sourced, else the validated candidates. */
  function Discover(rosDistroSet: bool, home: Path, walk: seq<WalkEntry>, contents: map<Path, string>): (r: Result<seq<Path>>)
    ensures r == Err(RosContentSourced) <==> rosDistroSet
    ensures r.Ok? ==> |r.value| <= |Candidates(home, walk)|
  {
    if rosDistroSet then Err(RosContentSourced)
    else Validate(contents, Candidates(home, walk))
  }

  /**
   * Every discovered workspace is the parent of a listed, qualifying
   * descriptor that holds the marker, and every such descriptor's parent is
   * discovered.
   */
  lemma DiscoverIff(home: Path, walk: seq<WalkEntry>, contents: map<Path, string>, w: Path)
    requires Discover(false, home, walk, contents).Ok?
    ensures w in Discover(false, home, walk, contents).value <==>
      exists c :: InWalk(walk, c) && Qualifies(home, c.dir, c.name) && HasMarker(contents, c) && Workspace(c) == w
  {
    var cs := Candidates(home, walk);
    WorkspaceIff(contents, cs, w);
    forall c ensures c in cs <==> InWalk(walk, c) && Qualifies(home, c.dir, c.name) {
      CandidateIff(home, walk, c);
    }
  }

  /** The `ROS_DISTRO` guard, the two stages and the indexing loop of `init_file_structure`. */
  method InitFileStructure(index: IndexFile, rosDistroSet: bool, home: Path, walk: seq<WalkEntry>, contents: map<Path, string>)
    returns (r: Result<seq<Path>>)
    modifies index
    ensures r == Discover(rosDistroSet, home, walk, contents)
    ensures r.Ok? ==> index.calls == old(index.calls) + r.value
    ensures !r.Ok? ==> index.calls == old(index.calls)
    ensures index.entries == old(index.entries)
  {
    if rosDistroSet {
      return Err(RosContentSourced);
    }
    var potential := CollectCandidates(home, walk);
    r := ValidateCandidates(contents, potential);
    if r.Ok? {
      IndexAll(index, r.value);
    }
  }
}
