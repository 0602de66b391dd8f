/** The flatten copy of `copyJavaFiles` (SmartJavaCopier.java lines 103-154):
    every walked regular file whose path ends in ".java" is copied into one
    destination directory under its own name, or, when that name is taken,
    under `<base>_<n><ext>` for the smallest free n >= 1.

    The destination directory is the set of entry names it holds. The walk is
    a given sequence of entries (the order `Files.walk` produced), and whether
    each copy succeeds is a given flag per entry: `copyFile` reports a failure
    and carries on, and a failed copy is taken to leave no file behind. */
module Flatten {
  import opened Text
  import opened Naming
  import opened FileTree

  /** One path produced by `Files.walk(sourceDir)`: its text and its kind. */
  datatype Entry = Entry(path: string, kind: Kind)

  /** `path.getFileName().toString()` for a path written with '/' separators. */
  function FileNameOf(path: string): (r: string)
  {
    path[LastIndexOf(path, '/') + 1..]
  }

  lemma FileNameOfIsSuffix(path: string)
    ensures var r := FileNameOf(path);
      && '/' !in r
      && |r| <= |path| && path[|path| - |r|..] == r
  {
  }

  /** The filter at line 122: `path.toString().endsWith(".java") && Files.isRegularFile(path)`. */
  predicate Qualifies(e: Entry) {
    EndsWith(e.path, ".java") && e.kind == RegularFile
  }

  /** Testing the whole path for ".java" is the same as testing its file name,
      because ".java" holds no separator. */
  lemma JavaSuffixIsFileNameSuffix(path: string)
    ensures EndsWith(path, ".java") <==> EndsWith(FileNameOf(path), ".java")
  {
    var name := FileNameOf(path);
    FileNameOfIsSuffix(path);
    var i := LastIndexOf(path, '/');
    if EndsWith(path, ".java") {
      assert forall j :: |path| - 5 <= j < |path| ==> path[j] == ".java"[j - (|path| - 5)];
      assert i < |path| - 5;
      assert name[|name| - 5..] == path[|path| - 5..];
    }
    if EndsWith(name, ".java") {
      assert path[|path| - 5..] == name[|name| - 5..];
    }
  }

  /** The name a file is written under (lines 126-141). Its own name when that
      is free; otherwise the name of the first free counter. The requires holds
      for every file that passed the filter (JavaExtension). */
  function Target(names: set<string>, fileName: string): (r: string)
    requires '.' in fileName
    ensures r !in names
    ensures r == fileName <==> fileName !in names
    ensures fileName in names ==>
      var (base, ext) := SplitExtension(fileName);
      r == Renamed(base, FirstFree(names, base, ext, 1), ext)
  {
    if fileName !in names then fileName
    else
      var (base, ext) := SplitExtension(fileName);
      RenamedIsNotOriginal(base, FirstFree(names, base, ext, 1), ext);
      Renamed(base, FirstFree(names, base, ext, 1), ext)
  }

  /** What a run has done so far: the destination's names, the two counters
      of lines 117-118, and the name chosen for each processed file in order. */
  datatype Tally = Tally(names: set<string>, fileCount: nat, conflictCount: nat, targets: seq<string>)

  function Start(names: set<string>): Tally {
    Tally(names, 0, 0, [])
  }

  /** The body of the forEach at lines 123-146 for one walked entry. */
  function Visit(t: Tally, e: Entry, copied: bool): Tally {
    if !Qualifies(e) then t
    else
      var name := FileNameOf(e.path);
      JavaSuffixIsFileNameSuffix(e.path);
      JavaExtension(name);
      var target := Target(t.names, name);
      Tally(
        if copied then t.names + {target} else t.names,
        t.fileCount + 1,
        if name in t.names then t.conflictCount + 1 else t.conflictCount,
        t.targets + [target])
  }

  /** Visit in plain terms: a non-qualifying entry changes nothing; a
      qualifying one is counted, gets a name that was free, is counted as a
      conflict exactly when that name is not its own, and adds that name when
      its copy succeeds. */
  lemma VisitEffect(t: Tally, e: Entry, copied: bool)
    ensures !Qualifies(e) ==> Visit(t, e, copied) == t
    ensures Qualifies(e) ==>
      var v := Visit(t, e, copied);
      var name := FileNameOf(e.path);
      && '.' in name
      && var target := Target(t.names, name);
      && v.targets == t.targets + [target]
      && target !in t.names
      && (target == name <==> name !in t.names)
      && v.fileCount == t.fileCount + 1
      && v.conflictCount == t.conflictCount + (if target != name then 1 else 0)
      && v.names == (if copied then t.names + {target} else t.names)
  {
    if Qualifies(e) {
      JavaSuffixIsFileNameSuffix(e.path);
      JavaExtension(FileNameOf(e.path));
    }
  }

  /** Visit of a qualifying entry as one record: used to match the loop's state. */
  lemma VisitQualifying(t: Tally, e: Entry, copied: bool, target: string, renamed: bool, names: set<string>)
    requires Qualifies(e)
    requires '.' in FileNameOf(e.path) && target == Target(t.names, FileNameOf(e.path))
    requires renamed == (FileNameOf(e.path) in t.names)
    requires names == if copied then t.names + {target} else t.names
    ensures Visit(t, e, copied)
         == Tally(names, t.fileCount + 1, t.conflictCount + (if renamed then 1 else 0), t.targets + [target])
  {
  }

  /** The whole walk, one entry after another, from a destination holding `names`. */
  function Run(names: set<string>, entries: seq<Entry>, copied: seq<bool>): Tally
    requires |copied| == |entries|
  {
    if entries == [] then Start(names)
    else
      var n := |entries| - 1;
      Visit(Run(names, entries[..n], copied[..n]), entries[n], copied[n])
  }

  /** Run over one more entry is one more Visit. */
  lemma RunStep(names: set<string>, entries: seq<Entry>, copied: seq<bool>, i: nat)
    requires |copied| == |entries| && i < |entries|
    ensures Run(names, entries[..i + 1], copied[..i + 1])
         == Visit(Run(names, entries[..i], copied[..i]), entries[i], copied[i])
  {
    assert entries[..i + 1][..i] == entries[..i] && copied[..i + 1][..i] == copied[..i];
  }

  /** The walked entries that pass the filter, in walk order. */
  function Qualifying(entries: seq<Entry>): seq<Entry> {
    if entries == [] then []
    else
      var n := |entries| - 1;
      Qualifying(entries[..n]) + (if Qualifies(entries[n]) then [entries[n]] else [])
  }

  /** The own names of the qualifying entries, in walk order. */
  function OwnNames(entries: seq<Entry>): seq<string> {
    if entries == [] then []
    else
      var n := |entries| - 1;
      OwnNames(entries[..n]) + (if Qualifies(entries[n]) then [FileNameOf(entries[n].path)] else [])
  }

  /** For each qualifying entry in walk order, whether its copy succeeded. */
  function CopiedFlags(entries: seq<Entry>, copied: seq<bool>): seq<bool>
    requires |copied| == |entries|
  {
    if entries == [] then []
    else
      var n := |entries| - 1;
      CopiedFlags(entries[..n], copied[..n]) + (if Qualifies(entries[n]) then [copied[n]] else [])
  }

  /** The number of positions at which two sequences of names differ. */
  function Differing(a: seq<string>, b: seq<string>): nat
    requires |a| == |b|
  {
    if a == [] then 0
    else
      var n := |a| - 1;
      Differing(a[..n], b[..n]) + (if a[n] != b[n] then 1 else 0)
  }

  /** The number of successful copies among the qualifying files. */
  function Successes(flags: seq<bool>): nat {
    if flags == [] then 0
    else Successes(flags[..|flags| - 1]) + (if flags[|flags| - 1] then 1 else 0)
  }

  /** Exactly the qualifying entries are processed, each once, in walk order:
      fileCount counts them all, whether or not their copy succeeded. */
  lemma {:induction false} RunProcessesQualifying(names: set<string>, entries: seq<Entry>, copied: seq<bool>)
    requires |copied| == |entries|
    ensures var t := Run(names, entries, copied);
      && t.fileCount == |Qualifying(entries)| == |OwnNames(entries)| == |t.targets|
      && |CopiedFlags(entries, copied)| == t.fileCount
      && (forall i :: 0 <= i < |OwnNames(entries)| ==>
            Qualifies(Qualifying(entries)[i])
            && OwnNames(entries)[i] == FileNameOf(Qualifying(entries)[i].path))
  {
    if entries != [] {
      var n := |entries| - 1;
      RunProcessesQualifying(names, entries[..n], copied[..n]);
    }
  }

  /** conflictCount is the number of processed files written under a name other
      than their own, which are exactly those whose own name was taken. */
  lemma {:induction false} RunCountsRenames(names: set<string>, entries: seq<Entry>, copied: seq<bool>)
    requires |copied| == |entries|
    ensures var t := Run(names, entries, copied);
      && |OwnNames(entries)| == |t.targets|
      && t.conflictCount == Differing(OwnNames(entries), t.targets)
      && t.conflictCount <= t.fileCount
  {
    RunProcessesQualifying(names, entries, copied);
    if entries != [] {
      var n := |entries| - 1;
      RunCountsRenames(names, entries[..n], copied[..n]);
      var before := Run(names, entries[..n], copied[..n]);
      VisitEffect(before, entries[n], copied[n]);
      var t := Run(names, entries, copied);
      var own := OwnNames(entries);
      if Qualifies(entries[n]) {
        var m := |own| - 1;
        assert own[..m] == OwnNames(entries[..n]);
        assert own[m] == FileNameOf(entries[n].path);
        assert Differing(own, t.targets) == Differing(own[..m], t.targets[..m]) + (if own[m] != t.targets[m] then 1 else 0);
      } else {
        assert own == OwnNames(entries[..n]);
      }
    }
  }

  /** Nothing already in the destination is overwritten: no chosen name was
      present before the run, the names present before stay, and each
      successful copy adds exactly one name. */
  lemma {:induction false} RunKeepsExisting(names: set<string>, entries: seq<Entry>, copied: seq<bool>)
    requires |copied| == |entries|
    ensures var t := Run(names, entries, copied);
      && names <= t.names
      && |t.names| == |names| + Successes(CopiedFlags(entries, copied))
      && (forall i :: 0 <= i < |t.targets| ==> t.targets[i] !in names)
  {
    if entries != [] {
      var n := |entries| - 1;
      RunKeepsExisting(names, entries[..n], copied[..n]);
      RunProcessesQualifying(names, entries[..n], copied[..n]);
      var before := Run(names, entries[..n], copied[..n]);
      VisitEffect(before, entries[n], copied[n]);
      var flags := CopiedFlags(entries, copied);
      var t := Run(names, entries, copied);
      if Qualifies(entries[n]) {
        var m := |before.targets|;
        assert flags[..m] == CopiedFlags(entries[..n], copied[..n]);
        assert Successes(flags) == Successes(flags[..m]) + (if copied[n] then 1 else 0);
        if copied[n] {
          assert |before.names + {t.targets[m]}| == |before.names| + 1;
        }
      } else {
        assert flags == CopiedFlags(entries[..n], copied[..n]);
      }
    }
  }

  /** One processed file whose name was free keeps the property of RunNeverOverwrites. */
  lemma NeverOverwritesStep(before: Tally, t: Tally, prev: seq<bool>, flags: seq<bool>, target: string, copied: bool)
    requires |prev| == |before.targets|
    requires forall i :: 0 <= i < |before.targets| && prev[i] ==> before.targets[i] in before.names
    requires forall i, j :: 0 <= i < j < |before.targets| && prev[i] ==> before.targets[i] != before.targets[j]
    requires target !in before.names
    requires t.targets == before.targets + [target] && flags == prev + [copied]
    requires t.names == if copied then before.names + {target} else before.names
    ensures |flags| == |t.targets|
    ensures forall i :: 0 <= i < |t.targets| && flags[i] ==> t.targets[i] in t.names
    ensures forall i, j :: 0 <= i < j < |t.targets| && flags[i] ==> t.targets[i] != t.targets[j]
  {
    var m := |before.targets|;
    forall i | 0 <= i < |t.targets| && flags[i] ensures t.targets[i] in t.names {
      if i < m {
        assert flags[i] == prev[i] && t.targets[i] == before.targets[i];
      }
    }
    forall i, j | 0 <= i < j < |t.targets| && flags[i] ensures t.targets[i] != t.targets[j] {
      assert flags[i] == prev[i] && t.targets[i] == before.targets[i];
      if j < m {
        assert t.targets[j] == before.targets[j];
      }
    }
  }

  /** Nothing written earlier in the run is overwritten either: a successfully
      copied file's name stays in the destination and no later file is given it. */
  lemma {:induction false} RunNeverOverwrites(names: set<string>, entries: seq<Entry>, copied: seq<bool>)
    requires |copied| == |entries|
    ensures var t := Run(names, entries, copied);
      var flags := CopiedFlags(entries, copied);
      && |flags| == |t.targets|
      && (forall i :: 0 <= i < |t.targets| && flags[i] ==> t.targets[i] in t.names)
      && (forall i, j :: 0 <= i < j < |t.targets| && flags[i] ==> t.targets[i] != t.targets[j])
  {
    RunProcessesQualifying(names, entries, copied);
    if entries != [] {
      var n := |entries| - 1;
      RunNeverOverwrites(names, entries[..n], copied[..n]);
      RunProcessesQualifying(names, entries[..n], copied[..n]);
      var before := Run(names, entries[..n], copied[..n]);
      VisitEffect(before, entries[n], copied[n]);
      var prev := CopiedFlags(entries[..n], copied[..n]);
      if Qualifies(entries[n]) {
        var target := Target(before.names, FileNameOf(entries[n].path));
        NeverOverwritesStep(before, Run(names, entries, copied), prev, CopiedFlags(entries, copied), target, copied[n]);
      }
    }
  }

  /** When every qualifying file's own name is already in the destination (a
      second run over the same source), every processed file is renamed. */
  lemma {:induction false} RerunRenamesAll(names: set<string>, entries: seq<Entry>, copied: seq<bool>)
    requires |copied| == |entries|
    requires forall name :: name in OwnNames(entries) ==> name in names
    ensures Run(names, entries, copied).conflictCount == Run(names, entries, copied).fileCount
  {
    if entries != [] {
      var n := |entries| - 1;
      RerunRenamesAll(names, entries[..n], copied[..n]);
      RunKeepsExisting(names, entries[..n], copied[..n]);
      var before := Run(names, entries[..n], copied[..n]);
      if Qualifies(entries[n]) {
        assert FileNameOf(entries[n].path) in OwnNames(entries);
        TakenNameCounted(before, entries[n], copied[n]);
      } else {
        VisitEffect(before, entries[n], copied[n]);
      }
    }
  }

  /** A file whose own name is taken is counted as a conflict. */
  lemma TakenNameCounted(t: Tally, e: Entry, copied: bool)
    requires Qualifies(e) && FileNameOf(e.path) in t.names
    ensures Visit(t, e, copied).fileCount == t.fileCount + 1
    ensures Visit(t, e, copied).conflictCount == t.conflictCount + 1
  {
    VisitEffect(t, e, copied);
  }

  /** The state after n files all named f (n >= 1) went into an empty destination. */
  ghost predicate AfterRepeats(t: Tally, f: string, base: string, ext: string, n: nat) {
    && t.fileCount == n
    && t.conflictCount == n - 1
    && |t.targets| == n
    && t.targets[0] == f
    && (forall i :: 1 <= i < n ==> t.targets[i] == Renamed(base, i, ext))
    && t.names == {f} + ProbedNames(base, ext, n)
  }

  /** The file after n repeats is renamed with counter n. */
  lemma RepeatStepTarget(t: Tally, e: Entry, f: string, base: string, ext: string, n: nat)
    requires n >= 1 && t.names == {f} + ProbedNames(base, ext, n)
    requires Qualifies(e) && FileNameOf(e.path) == f
    requires '.' in f && SplitExtension(f) == (base, ext)
    ensures Target(t.names, f) == Renamed(base, n, ext)
  {
    NextSuffixAfterRepeats(f, base, ext, n);
  }

  /** Counting one more renamed file keeps the shape of AfterRepeats. */
  lemma RepeatStepFields(t: Tally, v: Tally, f: string, base: string, ext: string, n: nat)
    requires n >= 1 && AfterRepeats(t, f, base, ext, n)
    requires v.targets == t.targets + [Renamed(base, n, ext)]
    requires v.names == t.names + {Renamed(base, n, ext)}
    requires v.fileCount == t.fileCount + 1 && v.conflictCount == t.conflictCount + 1
    ensures AfterRepeats(v, f, base, ext, n + 1)
  {
    ProbedNamesStep(base, ext, n);
  }

  lemma RepeatStep(t: Tally, e: Entry, f: string, base: string, ext: string, n: nat)
    requires n >= 1 && AfterRepeats(t, f, base, ext, n)
    requires Qualifies(e) && FileNameOf(e.path) == f
    requires '.' in f && SplitExtension(f) == (base, ext)
    ensures AfterRepeats(Visit(t, e, true), f, base, ext, n + 1)
  {
    RepeatStepTarget(t, e, f, base, ext, n);
    VisitEffect(t, e, true);
    RepeatStepFields(t, Visit(t, e, true), f, base, ext, n);
  }

  /** The entry is a qualifying file whose own name is f and whose copy succeeds. */
  ghost predicate CopiedAs(e: Entry, copied: bool, f: string) {
    Qualifies(e) && FileNameOf(e.path) == f && copied
  }

  /** Every entry is CopiedAs f, stated by prefixes (the form the induction below uses). */
  ghost predicate AllNamed(entries: seq<Entry>, copied: seq<bool>, f: string)
    decreases |entries|
  {
    && |copied| == |entries|
    && (entries != [] ==>
          var n := |entries| - 1;
          AllNamed(entries[..n], copied[..n], f) && CopiedAs(entries[n], copied[n], f))
  }

  lemma {:induction false} AllNamedFromEach(entries: seq<Entry>, copied: seq<bool>, f: string, k: nat)
    requires |copied| == |entries| && k <= |entries|
    requires forall i :: 0 <= i < |entries| ==> CopiedAs(entries[i], copied[i], f)
    ensures AllNamed(entries[..k], copied[..k], f)
    ensures k == |entries| ==> AllNamed(entries, copied, f)
  {
    if k == |entries| {
      assert entries[..k] == entries && copied[..k] == copied;
    }
    if k > 0 {
      AllNamedFromEach(entries, copied, f, k - 1);
      assert entries[..k][..k - 1] == entries[..k - 1] && copied[..k][..k - 1] == copied[..k - 1];
      assert entries[..k][k - 1] == entries[k - 1] && copied[..k][k - 1] == copied[k - 1];
    }
  }

  lemma {:induction false} AllNamedRun(entries: seq<Entry>, copied: seq<bool>, f: string, base: string, ext: string)
    requires |entries| >= 1 && AllNamed(entries, copied, f)
    requires '.' in f && SplitExtension(f) == (base, ext)
    ensures AfterRepeats(Run({}, entries, copied), f, base, ext, |entries|)
  {
    var n := |entries| - 1;
    var before := Run({}, entries[..n], copied[..n]);
    assert Run({}, entries, copied) == Visit(before, entries[n], true);
    if n == 0 {
      assert before == Start({});
      FirstTarget(entries[0], f, base, ext);
    } else {
      AllNamedRun(entries[..n], copied[..n], f, base, ext);
      RepeatStep(before, entries[n], f, base, ext, n);
    }
  }

  /** The first file named f goes into the empty destination under its own name. */
  lemma FirstTarget(e: Entry, f: string, base: string, ext: string)
    requires Qualifies(e) && FileNameOf(e.path) == f
    requires '.' in f && SplitExtension(f) == (base, ext)
    ensures AfterRepeats(Visit(Start({}), e, true), f, base, ext, 1)
  {
    VisitEffect(Start({}), e, true);
    assert ProbedNames(base, ext, 1) == {};
  }

  /** K files that all carry the same own name f, copied into an empty
      destination, are written as f, <base>_1<ext>, ..., <base>_(K-1)<ext>:
      the counter restarts at 1 for every colliding file. */
  lemma SameNameRun(entries: seq<Entry>, copied: seq<bool>, f: string)
    requires |copied| == |entries| >= 1
    requires forall i :: 0 <= i < |entries| ==>
      Qualifies(entries[i]) && FileNameOf(entries[i].path) == f && copied[i]
    ensures '.' in f
    ensures var (base, ext) := SplitExtension(f);
      AfterRepeats(Run({}, entries, copied), f, base, ext, |entries|)
  {
    JavaSuffixIsFileNameSuffix(entries[0].path);
    JavaExtension(f);
    var (base, ext) := SplitExtension(f);
    AllNamedFromEach(entries, copied, f, |entries|);
    AllNamedRun(entries, copied, f, base, ext);
  }

  /** The name of `<dir>/<name>` is name. */
  lemma FileNameAfterSlash(dir: string, name: string)
    requires '/' !in name
    ensures FileNameOf(dir + "/" + name) == name
  {
    var path := dir + "/" + name;
    assert path[|dir|] == '/';
    assert forall j :: |dir| < j < |path| ==> path[j] == name[j - |dir| - 1];
    assert path[|dir| + 1..] == name;
  }

  /** `<base>.java` splits into base and ".java". */
  lemma JavaNameSplits(base: string)
    ensures EndsWith(base + ".java", ".java")
    ensures '.' in base + ".java" && SplitExtension(base + ".java") == (base, ".java")
  {
    var f := base + ".java";
    assert f[|f| - 5..] == ".java";
    JavaExtension(f);
    assert f[..|f| - 5] == base;
  }

  /** Two files with the same own name f, into an empty destination: the
      second is renamed `<base>_1<ext>`. */
  lemma TwoSameNames(e1: Entry, e2: Entry, f: string, base: string, ext: string)
    requires Qualifies(e1) && FileNameOf(e1.path) == f
    requires Qualifies(e2) && FileNameOf(e2.path) == f
    requires '.' in f && SplitExtension(f) == (base, ext)
    ensures Run({}, [e1, e2], [true, true]) == Tally({f, Renamed(base, 1, ext)}, 2, 1, [f, Renamed(base, 1, ext)])
  {
    var entries, copied := [e1, e2], [true, true];
    assert entries[..1] == [e1] && copied[..1] == [true];
    assert AllNamed(entries[..1][..0], copied[..1][..0], f);
    assert AllNamed(entries, copied, f);
    AllNamedRun(entries, copied, f, base, ext);
    AfterTwo(Run({}, entries, copied), f, base, ext);
  }

  /** AfterRepeats for two files, written out. */
  lemma AfterTwo(t: Tally, f: string, base: string, ext: string)
    requires AfterRepeats(t, f, base, ext, 2)
    ensures t == Tally({f, Renamed(base, 1, ext)}, 2, 1, [f, Renamed(base, 1, ext)])
  {
    assert ProbedNames(base, ext, 1) == {};
    ProbedNamesStep(base, ext, 1);
    assert t.targets[1] == Renamed(base, 1, ext);
  }

  /** A file whose own name is free keeps it and is not counted as a conflict. */
  lemma FreeNameKept(t: Tally, e: Entry, copied: bool)
    requires Qualifies(e) && FileNameOf(e.path) !in t.names
    ensures var name := FileNameOf(e.path);
      Visit(t, e, copied)
        == Tally(if copied then t.names + {name} else t.names, t.fileCount + 1, t.conflictCount, t.targets + [name])
  {
    VisitEffect(t, e, copied);
  }

  /** The walked regular file `<dir>/<base>.java` qualifies, and its own name is `<base>.java`. */
  lemma JavaFileIn(dir: string, base: string)
    requires '/' !in base
    ensures var e := Entry(dir + "/" + (base + ".java"), RegularFile);
      Qualifies(e) && FileNameOf(e.path) == base + ".java"
  {
    var f := base + ".java";
    assert '/' !in f;
    FileNameAfterSlash(dir, f);
    JavaNameSplits(base);
    JavaSuffixIsFileNameSuffix(dir + "/" + f);
  }

  /** Run over three entries is a Visit after the first two. */
  lemma RunOfThree(names: set<string>, e1: Entry, e2: Entry, e3: Entry, c1: bool, c2: bool, c3: bool)
    ensures Run(names, [e1, e2, e3], [c1, c2, c3]) == Visit(Run(names, [e1, e2], [c1, c2]), e3, c3)
  {
    assert [e1, e2, e3][..2] == [e1, e2] && [c1, c2, c3][..2] == [c1, c2];
  }

  /** The third step of the scenario below: <y>.java is still free. */
  lemma ThirdStep(e3: Entry, x: string, y: string)
    requires Qualifies(e3) && FileNameOf(e3.path) == y + ".java"
    requires y != x && y != x + "_1"
    ensures var f, renamed := x + ".java", Renamed(x, 1, ".java");
      && renamed == x + "_1" + ".java"
      && Visit(Tally({f, renamed}, 2, 1, [f, renamed]), e3, true)
           == Tally({f, renamed, y + ".java"}, 3, 1, [f, renamed, y + ".java"])
  {
    var f, renamed := x + ".java", Renamed(x, 1, ".java");
    RenamedFirst(x, ".java");
    SuffixKeepsApart(y, x, ".java");
    SuffixKeepsApart(y, x + "_1", ".java");
    FreeNameKept(Tally({f, renamed}, 2, 1, [f, renamed]), e3, true);
  }

  /** Three walked files, the first two named <x>.java (such as a/<x>.java and
      b/<x>.java, see JavaFileIn) and the third <y>.java with y neither x nor
      x_1, copied in that order into an empty destination, give <x>.java,
      <x>_1.java and <y>.java: three files processed, one renamed. */
  lemma ThreeFileScenario(e1: Entry, e2: Entry, e3: Entry, x: string, y: string)
    requires Qualifies(e1) && FileNameOf(e1.path) == x + ".java"
    requires Qualifies(e2) && FileNameOf(e2.path) == x + ".java"
    requires Qualifies(e3) && FileNameOf(e3.path) == y + ".java"
    requires y != x && y != x + "_1"
    ensures var t := Run({}, [e1, e2, e3], [true, true, true]);
      && t.targets == [x + ".java", x + "_1" + ".java", y + ".java"]
      && t.names == {x + ".java", x + "_1" + ".java", y + ".java"}
      && t.fileCount == 3 && t.conflictCount == 1
  {
    RunOfThree({}, e1, e2, e3, true, true, true);
    JavaNameSplits(x);
    TwoSameNames(e1, e2, x + ".java", x, ".java");
    ThirdStep(e3, x, y);
  }

  /** The scenario above for the source tree a/<x>.java, b/<x>.java, c/<y>.java. */
  lemma ThreeFilesInDirectories(a: string, b: string, c: string, x: string, y: string)
    requires '/' !in x && '/' !in y && y != x && y != x + "_1"
    ensures var entries := [Entry(a + "/" + (x + ".java"), RegularFile),
                            Entry(b + "/" + (x + ".java"), RegularFile),
                            Entry(c + "/" + (y + ".java"), RegularFile)];
      var t := Run({}, entries, [true, true, true]);
      && t.targets == [x + ".java", x + "_1" + ".java", y + ".java"]
      && t.names == {x + ".java", x + "_1" + ".java", y + ".java"}
      && t.fileCount == 3 && t.conflictCount == 1
  {
    JavaFileIn(a, x);
    JavaFileIn(b, x);
    JavaFileIn(c, y);
    ThreeFileScenario(Entry(a + "/" + (x + ".java"), RegularFile),
                      Entry(b + "/" + (x + ".java"), RegularFile),
                      Entry(c + "/" + (y + ".java"), RegularFile), x, y);
  }

  /** The run over the full prefix is the run over the walk. */
  lemma RunWhole(names: set<string>, entries: seq<Entry>, copied: seq<bool>)
    requires |copied| == |entries|
    ensures Run(names, entries[..|entries|], copied[..|entries|]) == Run(names, entries, copied)
  {
    assert entries[..|entries|] == entries && copied[..|entries|] == copied;
  }

  /** Lines 159-161 and the filesystem effect of `Files.copy` at line 158:
      which names the destination directory holds. */
  class Destination {
    var names: set<string>

    /** Lines 112-115: an existing directory keeps its entries; a missing one is created empty. */
    constructor Open(existing: Option<set<string>>)
      ensures names == if existing.Some? then existing.value else {}
    {
      names := if existing.Some? then existing.value else {};
    }

    /** `copyFile` (lines 156-162): a successful copy adds the name; a failure
        is reported and leaves the directory as it was. */
    method CopyFile(target: string, copied: bool)
      modifies this
      ensures names == if copied then old(names) + {target} else old(names)
    {
      if copied {
        names := names + {target};
      }
    }

    /** Lines 124-145, the body of the forEach for one walked entry: a
        qualifying file is copied under its own name when that is free and
        under the first free `<base>_<n><ext>` otherwise. */
    method CopyEntry(e: Entry, copied: bool, ghost before: Tally) returns (processed: bool, renamed: bool, target: string)
      requires before.names == names
      modifies this
      ensures Visit(before, e, copied)
           == if processed
              then Tally(names, before.fileCount + 1, before.conflictCount + (if renamed then 1 else 0), before.targets + [target])
              else before
      ensures processed == Qualifies(e)
      ensures !processed ==> names == old(names)
      ensures processed ==>
        && '.' in FileNameOf(e.path)
        && target == Target(old(names), FileNameOf(e.path))
        && renamed == (FileNameOf(e.path) in old(names))
        && names == if copied then old(names) + {target} else old(names)
    {
      processed, renamed, target := false, false, "";
      if EndsWith(e.path, ".java") && e.kind == RegularFile {
        processed := true;
        var fileName := FileNameOf(e.path);
        JavaSuffixIsFileNameSuffix(e.path);
        JavaExtension(fileName);
        if fileName in names {
          renamed := true;
          var (base, ext) := SplitExtension(fileName);
          var suffix;
          target, suffix := ProbeFreeName(names, base, ext);
        } else {
          target := fileName;
        }
        CopyFile(target, copied);
        VisitQualifying(before, e, copied, target, renamed, names);
      }
    }

    /** Lines 117-147: the forEach over the walk, with its two counters. */
    method CopyJavaFiles(entries: seq<Entry>, copied: seq<bool>) returns (fileCount: nat, conflictCount: nat, targets: seq<string>)
      requires |copied| == |entries|
      modifies this
      ensures var t := Run(old(names), entries, copied);
        names == t.names && fileCount == t.fileCount && conflictCount == t.conflictCount && targets == t.targets
    {
      ghost var initial := names;
      fileCount, conflictCount, targets := 0, 0, [];
      var i := 0;
      while i < |entries|
        invariant 0 <= i <= |entries|
        invariant Run(initial, entries[..i], copied[..i]) == Tally(names, fileCount, conflictCount, targets)
      {
        ghost var before := Tally(names, fileCount, conflictCount, targets);
        var processed, renamed, target := CopyEntry(entries[i], copied[i], before);
        RunStep(initial, entries, copied, i);
        if processed {
          fileCount := fileCount + 1;
          if renamed {
            conflictCount := conflictCount + 1;
          }
          targets := targets + [target];
        }
        i := i + 1;
      }
      RunWhole(initial, entries, copied);
    }
  }

  /** The do-while loop at lines 130-138 against the destination's current
      names: it stops at the smallest counter >= 1 whose name is free. */
  method ProbeFreeName(names: set<string>, base: string, ext: string) returns (newName: string, suffix: nat)
    ensures MinimalFree(names, base, ext, suffix)
    ensures newName == Renamed(base, suffix, ext) && newName !in names
    ensures suffix == FirstFree(names, base, ext, 1)
  {
    var counter := 1;
    newName := Renamed(base, counter, ext);
    counter := counter + 1;
    while newName in names
      invariant counter >= 2 && newName == Renamed(base, counter - 1, ext)
      invariant forall k :: 1 <= k < counter - 1 ==> Renamed(base, k, ext) in names
      decreases |names| + 2 - counter
    {
      ProbeBound(names, base, ext, counter);
      newName := Renamed(base, counter, ext);
      counter := counter + 1;
    }
    suffix := counter - 1;
    MinimalFreeUnique(names, base, ext, suffix);
  }
}
