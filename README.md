# rosactive first-run workspace discovery, in Dafny

rosactive manages ROS (catkin) workspaces. On its first run
`init_file_structure` scans the user's home directory for workspaces to
index. The scan has two stages and an indexing loop:

1. **Candidate stage.** Walk the home directory. A file becomes a candidate
   `(root, f)` when three tests pass:
   - `root` is shallower than `5 + count(sep in home)` separators;
   - `root` is not hidden: the first `/.` in `root` is missing or at index 0
     (`root.find("/.") <= 0`);
   - `f` is exactly `CMakeLists.txt` and `root` ends with `src`.
2. **Validation stage.** Open each candidate's descriptor at
   `join(root, f)`. Keep those whose text contains `catkin_workspace`, and
   turn each kept `root` into its workspace `sep.join(root.split(sep)[:-1])`.
3. **Indexing.** Hand every workspace, in order, to `index`, which is an
   empty stub.

The model has three modules:

- `Strings` (`strings.dfy`) writes out the Python string operations the
  scan uses, as recursive functions over sequences: `count`, `find`, `in`,
  `endswith`, `split`, `join` and the drop-the-last-segment expression. It
  proves their defining properties: first occurrence, `join(split(s)) == s`,
  and `split(join(parts)) == parts` for separator-free parts.
- `Rosactive` (`rosactive.dfy`) holds the scan.
  - Specification functions: `Candidates`, `Validate` and `Discover`.
  - Methods with loop invariants proved against them: `CollectCandidates`
    and its inner per-directory loop `CollectDirCandidates`,
    `ValidateCandidates`, `IndexAll` and `InitFileStructure`.
  - Lemmas stating what the source promises about the result.
- `RosactiveScenarios` (`scenarios.dfy`) proves small trees end to end:
  - a marked project, an unmarked one and an unreadable descriptor, under
    any home path without hidden segments;
  - a project below a hidden directory;
  - a home path that itself starts with `/.`.

The filesystem is data:
- the walk is the sequence of `(directory, file names)` pairs `os.walk`
  yields, in its order;
- file texts are a map from joined path to contents;
- whether `ROS_DISTRO` is set is a boolean.

A path missing from the map stands for an `open` that raises. That aborts
the scan, which `Validate` reports as `Err(FileNotFound(path))`.

The model follows what the code does where its own comments suggest more:
- the comment at `rosactive.py:67` speaks of finding `src/CMakeLists.txt`,
  but the directory test is a textual suffix test, so `/home/u/mysrc`
  qualifies (`SuffixTestIsTextual`);
- the comment at `rosactive.py:64` says hidden directories are ignored, but
  the test looks only at the first `/.`, so under a home such as `/.u` no
  directory is ever skipped as hidden, `/.u/.cache/src` included
  (`HiddenHomeIsNotSkipped`);
- the comment at `rosactive.py:60` speaks of walking up to a maximum depth,
  but directories below the limit are still visited by the walk and only
  filtered, which yields the same candidates (`SkippedDirIsInert`,
  `DescendantOfDeepIsDeep`).

## Model

| member | source | states |
|---|---|---|
| Strings.Count | rosactive.py:55-62 | the separator count is at most the path length, and zero exactly when the separator does not occur |
| Strings.CountIsMultiplicity | rosactive.py:55-62 | `count` equals the multiplicity of the element in the multiset of the sequence |
| Strings.CountConcat | rosactive.py:55-62 | the count of a concatenation is the sum of the counts |
| Strings.Find | rosactive.py:65 | `find` returns -1 or an index no greater than the length |
| Strings.FindSpec | rosactive.py:65 | `find` returns the first index at which the pattern occurs, and -1 exactly when it occurs nowhere |
| Strings.FindFirst | rosactive.py:65 | an occurrence with no earlier occurrence is what `find` returns |
| Strings.FindExtend | rosactive.py:65 | extending a string keeps the first occurrence of a pattern it already contains |
| Strings.Contains | rosactive.py:77 | Python's `pat in s`, characterised by `ContainsIff` |
| Strings.ContainsIff | rosactive.py:77 | `pat in s` holds exactly when `pat` occurs in `s` at some index |
| Strings.OccursAtContains | rosactive.py:77 | an occurrence at any index makes `pat in s` true |
| Strings.EndsWith | rosactive.py:68 | `endswith` holds exactly when the suffix fits and equals the last elements |
| Strings.EndsWithAppend | rosactive.py:68 | every concatenation ends with its second part |
| Strings.Split | rosactive.py:79 | `split` always yields at least one piece |
| Strings.SplitShape | rosactive.py:79 | `split` yields one more piece than there are separators, and no piece holds a separator |
| Strings.SplitNoSep | rosactive.py:79 | a string without the separator splits into itself alone |
| Strings.SplitAppend | rosactive.py:79 | splitting `a + sep + b` gives the pieces of `a` followed by those of `b` |
| Strings.Join | rosactive.py:80 | joining one piece gives that piece |
| Strings.JoinSplit | rosactive.py:79-80 | `sep.join(s.split(sep)) == s` |
| Strings.SplitJoin | rosactive.py:79-80 | splitting the join of separator-free pieces gives the pieces back |
| Strings.JoinSnoc | rosactive.py:80 | joining two or more pieces is the join of all but the last, a separator, then the last |
| Strings.LastSegment | rosactive.py:79-80 | the last piece of a split holds no separator |
| Strings.DropLastSegment | rosactive.py:79-80 | `sep.join(s.split(sep)[:-1])`, characterised by `DropLastSegmentDecomposes`, `DropLastSegmentNoSep` and `DropLastSegmentOfAppend` |
| Strings.DropLastSegmentDecomposes | rosactive.py:79-80 | for a path containing the separator, parent + separator + last segment is the path |
| Strings.DropLastSegmentNoSep | rosactive.py:79-80 | a path without a separator has the empty string as parent |
| Strings.DropLastSegmentOfAppend | rosactive.py:79-80 | `prefix + sep + last` with separator-free `last` has parent `prefix` and last segment `last` |
| Rosactive.MaxDepth | rosactive.py:55-57 | the limit is 5 plus the home's separator count: at least 5, at most 5 plus the home's length, and exactly 5 when the home holds no separator |
| Rosactive.WithinDepth | rosactive.py:62 | the home itself and every path with fewer than 5 separators are examined; `DepthRelativeToHome` and `DescendantOfDeepIsDeep` characterise the limit |
| Rosactive.IsHidden | rosactive.py:65 | the hidden test, characterised by `HiddenIffFirstMarkAfterStart` and `HiddenIsInherited` |
| Rosactive.IsDescriptor | rosactive.py:67-68 | a directory passing the name test is at least as long as `src` and does not end in the separator |
| Rosactive.Qualifies | rosactive.py:62-68 | the conjunction of the depth, hidden and name tests, characterised by `DirCandidateIff` and `CandidateIff` |
| Rosactive.HiddenIffFirstMarkAfterStart | rosactive.py:65-66 | a directory is skipped as hidden exactly when the first `/.` lies after index 0; a first `/.` at index 0 keeps it |
| Rosactive.HiddenIsInherited | rosactive.py:65-66 | every path extending a hidden directory's path is hidden too |
| Rosactive.DescendantOfDeepIsDeep | rosactive.py:55-62 | a subdirectory of a directory at or past the limit is past it too |
| Rosactive.DepthRelativeToHome | rosactive.py:55-62 | below the home, a directory is examined exactly when its path relative to the home has fewer than 5 separators |
| Rosactive.SuffixTestIsTextual | rosactive.py:68 | any directory whose path ends in `mysrc` passes the descriptor test |
| Rosactive.DirCandidates | rosactive.py:63-69 | one directory contributes at most one candidate per file |
| Rosactive.DirCandidateIff | rosactive.py:63-69 | a pair is a candidate of a directory exactly when the file is listed there and passes the depth, hidden and name tests |
| Rosactive.DirCandidatesConcat | rosactive.py:63-69 | within one directory, candidates keep file-list order |
| Rosactive.SkippedDirContributesNothing | rosactive.py:62-66 | a directory too deep or hidden contributes no candidate, whatever files it holds |
| Rosactive.SkippedDirIsInert | rosactive.py:61-66 | inserting a too-deep or hidden directory anywhere in the walk leaves the candidates unchanged |
| Rosactive.Candidates | rosactive.py:61-69 | the candidates of a walk, characterised by `CandidateIff` (membership) and `CandidatesConcat` (walk order) |
| Rosactive.CandidatesConcat | rosactive.py:61-69 | candidates keep walk order: a split walk yields the two halves' candidates, concatenated |
| Rosactive.CandidateIff | rosactive.py:61-69 | a pair is a candidate exactly when the walk lists it and it passes the depth, hidden and name tests |
| Rosactive.CollectCandidates | rosactive.py:58-69 | the candidate loop builds exactly the candidates of the walk |
| Rosactive.CollectDirCandidates | rosactive.py:63-69 | the loop over one shallow directory's files builds exactly that directory's candidates |
| Rosactive.JoinPath | rosactive.py:75 | `os.path.join` of two components, characterised by `JoinPathShape` |
| Rosactive.DescriptorPath | rosactive.py:75 | the path opened for a candidate is `join(root, f)`, which `DescriptorPathOfCandidate` shows is `root + "/CMakeLists.txt"` |
| Rosactive.JoinPathShape | rosactive.py:75 | `join(a, b)` ends with `b`; it is `b` itself when `b` is absolute, and otherwise `a`, a separator only if `a` lacks a trailing one, then `b` |
| Rosactive.DescriptorPathOfCandidate | rosactive.py:68-75 | a candidate's descriptor is opened at `dir + "/CMakeLists.txt"` |
| Rosactive.Workspace | rosactive.py:79-80 | the workspace is the candidate directory without its last segment, characterised by `WorkspaceRestoresDir` |
| Rosactive.WorkspaceRestoresDir | rosactive.py:79-80 | the workspace, a separator and the last segment make up the candidate directory again |
| Rosactive.Validate | rosactive.py:72-81 | validation yields at most one workspace per candidate, and its only failure is a missing descriptor |
| Rosactive.Found | rosactive.py:77-81 | one readable descriptor adds its workspace exactly when its text holds the marker, and nothing otherwise (`ValidateSingleton`) |
| Rosactive.ValidateOkIff | rosactive.py:73-75 | validation succeeds exactly when every candidate's descriptor can be opened |
| Rosactive.ValidateReportsFirstMissing | rosactive.py:73-75 | a failed validation names the first candidate, in list order, whose descriptor is missing |
| Rosactive.ValidateConcat | rosactive.py:72-81 | workspaces keep candidate order: a split list validates as its two halves, concatenated, or fails with the first half's error, else the second's |
| Rosactive.ValidateErrPrefix | rosactive.py:73-75 | once a prefix fails, the whole list fails with the same error |
| Rosactive.ValidateSingleton | rosactive.py:74-81 | one candidate aborts when its descriptor is missing, yields its workspace when the text holds the marker, and yields nothing otherwise |
| Rosactive.WorkspaceIff | rosactive.py:73-81 | after a successful validation, a path is a workspace exactly when some candidate whose descriptor holds the marker stands for it |
| Rosactive.RepeatedCandidateRepeatsWorkspace | rosactive.py:72-81 | no deduplication: a marked candidate listed twice more adds its workspace twice, at the end |
| Rosactive.ValidateCandidates | rosactive.py:72-81 | the validation loop returns exactly what `Validate` specifies, stopping at the first unreadable descriptor |
| Rosactive.IndexFile.Index | rosactive.py:92-93 | one call of `index` is recorded after the earlier calls, and the index contents stay as they were |
| Rosactive.IndexAll | rosactive.py:86-88 | the calls of `index` are the earlier calls followed by every workspace once, in list order, and the index contents are unchanged |
| Rosactive.DiscoverIff | rosactive.py:54-81 | a path is discovered exactly when it is the workspace of a listed, qualifying descriptor whose text holds the marker |
| Rosactive.InitFileStructure | rosactive.py:36-88 | first-run setup returns what `Discover` specifies; on success exactly the discovered workspaces are handed to `index`, in order; when `ROS_DISTRO` is set or a descriptor is missing, `index` is never called; the index contents are unchanged |
| Rosactive.Discover | rosactive.py:36-81 | setup ends with `RosContentSourced` exactly when `ROS_DISTRO` is set, and otherwise yields at most one workspace per candidate; `DiscoverIff` states which paths are discovered |
| RosactiveScenarios.NotHiddenAppend | rosactive.py:65 | appending a segment that does not start with `.` to a path without `/.` creates no `/.` |
| RosactiveScenarios.HiddenAppend | rosactive.py:65 | appending a segment that starts with `.` to a non-empty path without `/.` makes it hidden |
| RosactiveScenarios.ProjectDirQualifies | rosactive.py:62-68 | `home/proj/src` passes the depth, hidden and name tests for a visible project name |
| RosactiveScenarios.ProjectCandidates | rosactive.py:58-69 | the walk of `home/proj/src/CMakeLists.txt` has that descriptor as its only candidate |
| RosactiveScenarios.ProjectDescriptor | rosactive.py:75-80 | that descriptor is opened at `home/proj/src/CMakeLists.txt` and stands for `home/proj` |
| RosactiveScenarios.MarkedProjectIsDiscovered | rosactive.py:54-81 | a marked `home/proj/src/CMakeLists.txt` yields exactly the workspace `home/proj` |
| RosactiveScenarios.UnmarkedProjectIsIgnored | rosactive.py:73-81 | the same tree whose descriptor lacks the marker yields no workspace |
| RosactiveScenarios.UnreadableDescriptorAborts | rosactive.py:73-75 | a listed descriptor that cannot be opened aborts the scan with its path |
| RosactiveScenarios.HiddenProjectIsSkipped | rosactive.py:61-66 | in the walk of `home` through `home/.hidden`, the project below the hidden directory yields nothing, whatever its descriptor holds |
| RosactiveScenarios.RosSourcedStopsSetup | rosactive.py:36-43 | with `ROS_DISTRO` set, setup stops before scanning |
| RosactiveScenarios.HiddenHomeIsNotSkipped | rosactive.py:65-66 | under the home `/.u`, neither `/.u/proj/src` nor `/.u/.cache/src` is skipped as hidden |

## Left out

- Filesystem side effects are not modelled, because they are I/O: `exists`, `mkdir` of `~/.rosactive`, writing the empty `settings.yaml`, and `expanduser`. The home path is a parameter.
- The real `os.walk` traversal is not modelled. The walk is a given sequence in the order `os.walk` produces.
- `open(...).read()` is a lookup in the contents map. Every way `open` can fail (a missing file, permissions, a decoding error) is one missing key, reported as `FileNotFound`.
- The `ROS_DISTRO` environment lookup and `sys.exit()` are a boolean parameter and the `RosContentSourced` error.
- All `print` output is left out, because it is console output only.
- `main`, `check_for_firsttime` and the commented-out argument parsing are left out, because they are command-line plumbing with no logic.
- `setup.py` is packaging metadata and is not part of this model.
- `Rosactive.IndexFile.Index`: the source keeps no index state at all. The class's `entries` field is an abstract stand-in for the index under `~/.rosactive`, so that "changes nothing" can be stated, and the ghost field `calls` records the arguments `index` receives, so that the order of the calls can be stated.
- Path joining follows `os.path.join` for two components with the POSIX separator only. Other platforms' path rules are left out.
- Strings are sequences of characters. Text encodings and byte-level reading of the descriptor are not modelled.
