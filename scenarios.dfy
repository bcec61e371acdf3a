/**
 * First-run scans of small trees under any home path without hidden
 * segments: a project whose `src/CMakeLists.txt` holds the marker, one whose
 * descriptor does not, one whose descriptor cannot be read, one below a
 * hidden directory, and a home path that itself starts with `/.`.
 */
module RosactiveScenarios {
  import opened Strings
  import opened Rosactive

  /** Appending a separator and a separator-free segment adds one separator. */
  lemma CountAddSegment(p: Path, seg: string)
    requires Sep !in seg
    ensures Count(p + [Sep] + seg, Sep) == Count(p, Sep) + 1
  {
    CountConcat(p + [Sep], seg, Sep);
    CountConcat(p, [Sep], Sep);
  }

  /** A directory name that is neither empty nor hidden. */
  predicate VisibleName(name: string)
  {
    name != [] && Sep !in name && name[0] != '.'
  }

  /** Appending a segment that does not start with a dot creates no `/.`. */
  lemma NotHiddenAppend(p: Path, seg: string)
    requires Find(p, HiddenMark) == -1
    requires Sep !in seg && (seg == [] || seg[0] != '.')
    ensures Find(p + [Sep] + seg, HiddenMark) == -1
  {
    var s := p + [Sep] + seg;
    FindSpec(p, HiddenMark);
    FindSpec(s, HiddenMark);
    forall k: nat | k <= |s| ensures !OccursAt(s, HiddenMark, k) {
      if k + 2 <= |p| {
        assert !OccursAt(p, HiddenMark, k);
      }
      NoMarkAt(p, seg, k);
    }
  }

  /** The case analysis of `NotHiddenAppend` at one index. */
  lemma NoMarkAt(p: Path, seg: string, k: nat)
    requires k + 2 <= |p| ==> !OccursAt(p, HiddenMark, k)
    requires Sep !in seg && (seg == [] || seg[0] != '.')
    ensures !OccursAt(p + [Sep] + seg, HiddenMark, k)
  {
    var s := p + [Sep] + seg;
    if k + 2 <= |s| {
      if k + 2 <= |p| {
        assert s[k..k + 2] == p[k..k + 2];
      } else if k == |p| - 1 {
        assert s[k..k + 2][1] == Sep;
      } else if k == |p| {
        assert s[k..k + 2][1] == seg[0];
      } else {
        assert s[k..k + 2][0] == seg[k - |p| - 1];
      }
    }
  }

  /** Appending a segment that starts with a dot to a non-empty, unhidden path hides it. */
  lemma HiddenAppend(p: Path, seg: string)
    requires p != [] && Find(p, HiddenMark) == -1
    requires seg != [] && seg[0] == '.'
    ensures IsHidden(p + [Sep] + seg)
  {
    var s := p + [Sep] + seg;
    FindSpec(p, HiddenMark);
    FindSpec(s, HiddenMark);
    assert s[|p|..|p| + 2] == HiddenMark;
    assert OccursAt(s, HiddenMark, |p|);
    assert !OccursAt(s, HiddenMark, 0) by {
      if |p| >= 2 {
        assert s[0..2] == p[0..2];
        assert !OccursAt(p, HiddenMark, 0);
      } else {
        assert s[0..2][1] == Sep;
      }
    }
  }

  /** The source directory of project `proj` directly under `home`. */
  function ProjectDir(home: Path, proj: string): (dir: Path)
  {
    home + [Sep] + proj + [Sep] + SourceSuffix
  }

  /** The walk of `home` over a tree whose only file is `home/proj/src/CMakeLists.txt`. */
  function ProjectWalk(home: Path, proj: string): (walk: seq<WalkEntry>)
  {
    [(home, []), (home + [Sep] + proj, []), (ProjectDir(home, proj), [DescriptorName])]
  }

  /** `home/proj/src` is two levels below the home, not hidden, and ends in `src`. */
  lemma ProjectDirQualifies(home: Path, proj: string)
    requires Find(home, HiddenMark) == -1 && VisibleName(proj)
    ensures Qualifies(home, ProjectDir(home, proj), DescriptorName)
  {
    var dir := ProjectDir(home, proj);
    CountAddSegment(home, proj);
    CountAddSegment(home + [Sep] + proj, SourceSuffix);
    NotHiddenAppend(home, proj);
    NotHiddenAppend(home + [Sep] + proj, SourceSuffix);
    assert dir[|dir| - 3..] == SourceSuffix;
  }

  /** The only candidate of that walk is the project's descriptor. */
  lemma ProjectCandidates(home: Path, proj: string)
    requires Find(home, HiddenMark) == -1 && VisibleName(proj)
    ensures Candidates(home, ProjectWalk(home, proj)) == [Candidate(ProjectDir(home, proj), DescriptorName)]
  {
    var walk, dir := ProjectWalk(home, proj), ProjectDir(home, proj);
    ProjectDirQualifies(home, proj);
    assert walk[..2][..1][..0] == [];
    assert Candidates(home, walk[..2][..1]) == [];
    assert Candidates(home, walk[..2]) == [];
    var files := [DescriptorName];
    assert files[..0] == [];
    assert DirCandidates(home, dir, files) == [Candidate(dir, DescriptorName)];
  }

  /** The project's descriptor is opened as `home/proj/src/CMakeLists.txt` and stands for `home/proj`. */
  lemma ProjectDescriptor(home: Path, proj: string)
    ensures DescriptorPath(Candidate(ProjectDir(home, proj), DescriptorName)) ==
      ProjectDir(home, proj) + [Sep] + DescriptorName
    ensures Workspace(Candidate(ProjectDir(home, proj), DescriptorName)) == home + [Sep] + proj
  {
    var dir := ProjectDir(home, proj);
    assert dir[|dir| - 3..] == SourceSuffix;
    DescriptorPathOfCandidate(Candidate(dir, DescriptorName));
    DropLastSegmentOfAppend(home + [Sep] + proj, Sep, SourceSuffix);
  }

  /**
   * A `src/CMakeLists.txt` holding the marker makes its parent a workspace:
   * under `/home/u`, `/home/u/proj/src/CMakeLists.txt` yields `/home/u/proj`.
   */
  lemma MarkedProjectIsDiscovered(home: Path, proj: string, text: string)
    requires Find(home, HiddenMark) == -1 && VisibleName(proj)
    requires Contains(text, Marker)
    ensures Discover(false, home, ProjectWalk(home, proj),
      map[ProjectDir(home, proj) + [Sep] + DescriptorName := text]) == Ok([home + [Sep] + proj])
  {
    var c := Candidate(ProjectDir(home, proj), DescriptorName);
    ProjectCandidates(home, proj);
    ProjectDescriptor(home, proj);
    ValidateSingleton(map[ProjectDir(home, proj) + [Sep] + DescriptorName := text], c);
  }

  /** Without the marker the same tree yields no workspace. */
  lemma UnmarkedProjectIsIgnored(home: Path, proj: string, text: string)
    requires Find(home, HiddenMark) == -1 && VisibleName(proj)
    requires !Contains(text, Marker)
    ensures Discover(false, home, ProjectWalk(home, proj),
      map[ProjectDir(home, proj) + [Sep] + DescriptorName := text]) == Ok([])
  {
    var c := Candidate(ProjectDir(home, proj), DescriptorName);
    ProjectCandidates(home, proj);
    ProjectDescriptor(home, proj);
    ValidateSingleton(map[ProjectDir(home, proj) + [Sep] + DescriptorName := text], c);
  }

  /** A descriptor the walk lists but that cannot be read aborts the scan. */
  lemma UnreadableDescriptorAborts(home: Path, proj: string)
    requires Find(home, HiddenMark) == -1 && VisibleName(proj)
    ensures Discover(false, home, ProjectWalk(home, proj), map[]) ==
      Err(FileNotFound(ProjectDir(home, proj) + [Sep] + DescriptorName))
  {
    var c := Candidate(ProjectDir(home, proj), DescriptorName);
    var contents: map<Path, string> := map[];
    ProjectCandidates(home, proj);
    ProjectDescriptor(home, proj);
    ValidateSingleton(contents, c);
  }

  /**
   * A marked project below a hidden directory of the home is skipped:
   * `/home/u/.hidden/proj/src/CMakeLists.txt` yields nothing, whatever it holds.
   */
  lemma HiddenProjectIsSkipped(home: Path, hidden: string, proj: string, contents: map<Path, string>)
    requires home != [] && Find(home, HiddenMark) == -1
    requires hidden != [] && hidden[0] == '.'
    ensures Discover(false, home, [(home, [])] + ProjectWalk(home + [Sep] + hidden, proj), contents) == Ok([])
  {
    var top := home + [Sep] + hidden;
    var walk := ProjectWalk(top, proj);
    HiddenAppend(home, hidden);
    HiddenIsInherited(top, [Sep] + proj);
    assert top + [Sep] + proj == top + ([Sep] + proj);
    HiddenIsInherited(top, [Sep] + proj + [Sep] + SourceSuffix);
    assert ProjectDir(top, proj) == top + ([Sep] + proj + [Sep] + SourceSuffix);
    SkippedDirContributesNothing(home, top, []);
    SkippedDirContributesNothing(home, top + [Sep] + proj, []);
    SkippedDirContributesNothing(home, ProjectDir(top, proj), [DescriptorName]);
    assert walk[..2][..1][..0] == [];
    assert Candidates(home, walk[..2][..1]) == [];
    assert Candidates(home, walk[..2]) == [];
    assert Candidates(home, walk) == [];
    var start: seq<WalkEntry> := [(home, [])];
    CandidatesConcat(home, start, walk);
    assert start[..0] == [];
    assert Candidates(home, start + walk) == [];
  }

  /** With `ROS_DISTRO` set, setup stops before scanning. */
  lemma RosSourcedStopsSetup(home: Path, walk: seq<WalkEntry>, contents: map<Path, string>)
    ensures Discover(true, home, walk, contents) == Err(RosContentSourced)
  {
  }

  /** Under a home path `/.u`, the first `/.` of every directory is at index 0: nothing is skipped as hidden. */
  lemma HiddenHomeIsNotSkipped(d1: Path, d2: Path)
    requires d1 == "/.u/proj/src" && d2 == "/.u/.cache/src"
    ensures !IsHidden(d1) && !IsHidden(d2)
  {
    assert OccursAt(d1, HiddenMark, 0);
    assert OccursAt(d2, HiddenMark, 0);
  }
}
