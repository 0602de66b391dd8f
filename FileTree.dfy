/** The abstract filesystem the selectors read, and the pure steps of `main`
    before the copy: listing the project directories under the root, checking
    the operator's choice, finding the source directory of the chosen project
    and the destination directory for it. */
module FileTree {
  import opened Text

  /** What `Files.isDirectory` / `Files.isRegularFile` report for an existing path. */
  datatype Kind = Directory | RegularFile | OtherKind

  /** A path as its sequence of name components: `p.resolve(n)` is `p + [n]`. */
  type Path = seq<string>

  /** Every existing path and its kind; a path that is not a key does not exist. */
  type FileSystem = map<Path, Kind>

  datatype Option<T> = None | Some(value: T)

  predicate IsDirectory(fs: FileSystem, p: Path) {
    p in fs && fs[p] == Directory
  }

  /** `p.getFileName().toString()`; the empty path (a filesystem root) has no name. */
  function FileName(p: Path): string {
    if p == [] then "" else p[|p| - 1]
  }

  /** `p` is an immediate child of `root` that exists. */
  predicate IsChild(fs: FileSystem, root: Path, p: Path) {
    p in fs && |p| == |root| + 1 && p[..|root|] == root
  }

  /** A directory stream of `root` that returns every child exactly once, in some order. */
  ghost predicate ListsChildren(fs: FileSystem, root: Path, listed: seq<Path>) {
    forall p :: multiset(listed)[p] == (if IsChild(fs, root, p) then 1 else 0)
  }

  /** Paths in ascending order of their file names (the comparator at line 61). */
  predicate SortedByName(ps: seq<Path>) {
    forall i, j :: 0 <= i < j < |ps| ==> LexLessEq(FileName(ps[i]), FileName(ps[j]))
  }

  /** `.filter(Files::isDirectory)` on the listed paths. */
  function Directories(fs: FileSystem, ps: seq<Path>): (r: seq<Path>)
    ensures forall p :: multiset(r)[p] == if IsDirectory(fs, p) then multiset(ps)[p] else 0
  {
    if ps == [] then []
    else
      assert ps == [ps[0]] + ps[1..];
      (if IsDirectory(fs, ps[0]) then [ps[0]] else []) + Directories(fs, ps[1..])
  }

  /** Every element of ps has a name no smaller than x's. */
  predicate NameBelowAll(x: Path, ps: seq<Path>) {
    forall j :: 0 <= j < |ps| ==> LexLessEq(FileName(x), FileName(ps[j]))
  }

  lemma SortedCons(x: Path, ps: seq<Path>)
    requires SortedByName(ps) && NameBelowAll(x, ps)
    ensures SortedByName([x] + ps)
  {
    var r := [x] + ps;
    forall i, j | 0 <= i < j < |r| ensures LexLessEq(FileName(r[i]), FileName(r[j])) {
      if i > 0 {
        assert r[i] == ps[i - 1] && r[j] == ps[j - 1];
      }
    }
  }

  /** In a sorted sequence the head's name is below every element. */
  lemma HeadBelowSorted(x: Path, ps: seq<Path>)
    requires SortedByName(ps) && (ps == [] || LexLessEq(FileName(x), FileName(ps[0])))
    ensures NameBelowAll(x, ps)
  {
    forall j | 0 <= j < |ps| ensures LexLessEq(FileName(x), FileName(ps[j])) {
      if j > 0 { LexTransitive(FileName(x), FileName(ps[0]), FileName(ps[j])); }
    }
  }

  /** A lower bound of the tail and of p is a lower bound of any arrangement of them. */
  lemma BelowAllByMultiset(x: Path, rest: seq<Path>, p: Path, tail: seq<Path>)
    requires multiset(rest) == multiset(tail) + multiset{p}
    requires NameBelowAll(x, tail) && LexLessEq(FileName(x), FileName(p))
    ensures NameBelowAll(x, rest)
  {
    forall j | 0 <= j < |rest| ensures LexLessEq(FileName(x), FileName(rest[j])) {
      assert rest[j] in multiset(rest);
      if rest[j] != p {
        assert rest[j] in multiset(tail);
        var k :| 0 <= k < |tail| && tail[k] == rest[j];
      }
    }
  }

  /** Inserts p in front of the first element whose name is not smaller. */
  function InsertByName(p: Path, ps: seq<Path>): (r: seq<Path>)
    requires SortedByName(ps)
    ensures SortedByName(r)
    ensures multiset(r) == multiset(ps) + multiset{p}
  {
    if ps == [] || LexLessEq(FileName(p), FileName(ps[0])) then
      HeadBelowSorted(p, ps);
      SortedCons(p, ps);
      [p] + ps
    else
      LexTotal(FileName(p), FileName(ps[0]));
      assert ps == [ps[0]] + ps[1..];
      var rest := InsertByName(p, ps[1..]);
      HeadBelowSorted(ps[0], ps[1..]);
      BelowAllByMultiset(ps[0], rest, p, ps[1..]);
      SortedCons(ps[0], rest);
      [ps[0]] + rest
  }

  /** `.sorted(Comparator.comparing(p -> p.getFileName().toString()))`. */
  function SortByName(ps: seq<Path>): (r: seq<Path>)
    ensures SortedByName(r)
    ensures multiset(r) == multiset(ps)
  {
    if ps == [] then []
    else
      assert ps == [ps[0]] + ps[1..];
      InsertByName(ps[0], SortByName(ps[1..]))
  }

  /** Lines 58-67. `listing` is what `Files.list(root)` yields, or None when it
      throws an IOException. */
  function FindProjectDirectories(fs: FileSystem, listing: Option<seq<Path>>): (r: seq<Path>)
    ensures listing.None? ==> r == []
    ensures listing.Some? ==>
      forall p :: multiset(r)[p] == if IsDirectory(fs, p) then multiset(listing.value)[p] else 0
    ensures SortedByName(r)
  {
    match listing
    case None => []
    case Some(ps) => SortByName(Directories(fs, ps))
  }

  /** A value that occurs at two positions is counted at least twice. */
  lemma RepeatCountsTwice<T>(s: seq<T>, i: int, j: int)
    requires 0 <= i < j < |s| && s[i] == s[j]
    ensures multiset(s)[s[i]] >= 2
  {
    assert s == s[..j] + s[j..];
    assert s[..j][i] == s[i] && s[j..][0] == s[j];
    assert multiset(s) == multiset(s[..j]) + multiset(s[j..]);
  }

  /** When the listing is a complete listing of root, the result holds each
      directory child of root exactly once and nothing else, in name order. */
  lemma ProjectsAreDirectoryChildren(fs: FileSystem, root: Path, listed: seq<Path>)
    requires ListsChildren(fs, root, listed)
    ensures var r := FindProjectDirectories(fs, Some(listed));
      && SortedByName(r)
      && (forall p :: multiset(r)[p] == if IsChild(fs, root, p) && IsDirectory(fs, p) then 1 else 0)
      && (forall i, j :: 0 <= i < j < |r| ==> r[i] != r[j])
  {
    var r := FindProjectDirectories(fs, Some(listed));
    forall p ensures multiset(r)[p] == if IsChild(fs, root, p) && IsDirectory(fs, p) then 1 else 0 {
      assert multiset(listed)[p] == if IsChild(fs, root, p) then 1 else 0;
    }
    forall i, j | 0 <= i < j < |r| ensures r[i] != r[j] {
      if r[i] == r[j] {
        RepeatCountsTwice(r, i, j);
      }
    }
  }

  /** Two children of one directory with the same name are the same path. */
  lemma ChildNamedIsUnique(fs: FileSystem, root: Path, p: Path, q: Path)
    requires IsChild(fs, root, p) && IsChild(fs, root, q) && FileName(p) == FileName(q)
    ensures p == q
  {
    assert p == p[..|root|] + [FileName(p)];
    assert q == q[..|root|] + [FileName(q)];
  }

  /** Children of one directory have distinct names, so name order is strict. */
  lemma ProjectNamesStrictlyAscending(fs: FileSystem, root: Path, listed: seq<Path>)
    requires ListsChildren(fs, root, listed)
    ensures var r := FindProjectDirectories(fs, Some(listed));
      forall i, j :: 0 <= i < j < |r| ==> FileName(r[i]) != FileName(r[j])
  {
    var r := FindProjectDirectories(fs, Some(listed));
    ProjectsAreDirectoryChildren(fs, root, listed);
    forall i, j | 0 <= i < j < |r| ensures FileName(r[i]) != FileName(r[j]) {
      assert multiset(r)[r[i]] > 0 && multiset(r)[r[j]] > 0;
      if FileName(r[i]) == FileName(r[j]) {
        ChildNamedIsUnique(fs, root, r[i], r[j]);
      }
    }
  }

  /** Lines 81-83: the number typed (already parsed; None when it is not a
      number) is accepted exactly when it lies in 1..maxChoice. */
  predicate ValidChoice(choice: Option<int>, maxChoice: int) {
    choice.Some? && 1 <= choice.value <= maxChoice
  }

  /** Line 45: `projects.get(choice - 1)` for an accepted choice; None when the
      prompt would reject the input and ask again. */
  function SelectProject(projects: seq<Path>, choice: Option<int>): (r: Option<Path>)
    ensures r.Some? <==> ValidChoice(choice, |projects|)
    ensures r.Some? ==> 0 <= choice.value - 1 < |projects| && r.value == projects[choice.value - 1]
    ensures r.Some? ==> r.value in projects
  {
    if ValidChoice(choice, |projects|) then Some(projects[choice.value - 1]) else None
  }

  const SourceLayout: Path := ["src", "main", "java"]

  /** Lines 93-101: `<project>/src/main/java` when that is a directory, else the project itself. */
  function DetermineSourcePath(fs: FileSystem, projectDir: Path): (r: Path)
    ensures r == projectDir + SourceLayout <==> IsDirectory(fs, projectDir + SourceLayout)
    ensures r == projectDir <==> !IsDirectory(fs, projectDir + SourceLayout)
    ensures IsDirectory(fs, projectDir) ==> IsDirectory(fs, r)
    ensures |projectDir| <= |r| && r[..|projectDir|] == projectDir
  {
    if IsDirectory(fs, projectDir + SourceLayout) then projectDir + SourceLayout else projectDir
  }

  /** Line 50: `DOC_ROOT.resolve(projectName)`. */
  function DestinationFor(docRoot: Path, project: Path): (r: Path)
    ensures |r| == |docRoot| + 1 && r[..|docRoot|] == docRoot
    ensures FileName(r) == FileName(project)
  {
    docRoot + [FileName(project)]
  }

  /** The source and destination directories a run copies between. */
  datatype CopyPlan = CopyPlan(project: Path, source: Path, dest: Path)

  /** Lines 26-50 without the console: stop when the root is not a directory,
      list the projects, take the choice, and resolve the source and
      destination directories. None when the run stops before copying: the
      root is missing, or no choice is accepted (with no projects none is). */
  function PlanCopy(fs: FileSystem, root: Path, listing: Option<seq<Path>>, choice: Option<int>, docRoot: Path): (r: Option<CopyPlan>)
    ensures var projects := FindProjectDirectories(fs, listing);
      && (r.Some? <==> IsDirectory(fs, root) && ValidChoice(choice, |projects|))
      && (r.Some? ==>
            && r.value.project == projects[choice.value - 1]
            && IsDirectory(fs, r.value.project)
            && r.value.source == DetermineSourcePath(fs, r.value.project)
            && IsDirectory(fs, r.value.source)
            && |r.value.project| <= |r.value.source|
            && r.value.source[..|r.value.project|] == r.value.project
            && r.value.dest == docRoot + [FileName(r.value.project)])
  {
    if !IsDirectory(fs, root) then None
    else
      var projects := FindProjectDirectories(fs, listing);
      match SelectProject(projects, choice)
      case None => None
      case Some(project) =>
        assert multiset(projects)[project] > 0;
        Some(CopyPlan(project, DetermineSourcePath(fs, project), DestinationFor(docRoot, project)))
  }

  /** An empty listing (or an IOException) leaves nothing to choose. */
  lemma NoProjectsNoPlan(fs: FileSystem, root: Path, listing: Option<seq<Path>>, choice: Option<int>, docRoot: Path)
    requires listing.None? || (forall p :: p in listing.value ==> !IsDirectory(fs, p))
    ensures FindProjectDirectories(fs, listing) == []
    ensures PlanCopy(fs, root, listing, choice, docRoot).None?
  {
    var r := FindProjectDirectories(fs, listing);
    assert multiset(r) == multiset{};
  }
}
