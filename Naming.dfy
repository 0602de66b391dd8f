/** The collision-renaming rule of the flatten copy: a file name is split at
    its last '.', and a taken name `<base><ext>` is replaced by
    `<base>_<n><ext>` for the smallest n >= 1 that is not taken. */
module Naming {
  import opened Text

  /** Lines 131-132: `substring(0, lastIndexOf('.'))` and `substring(lastIndexOf('.'))`.
      Java throws when the name has no '.'; every name that reaches this
      point ends with ".java", so the requires only excludes what cannot happen. */
  function SplitExtension(fileName: string): (r: (string, string))
    requires '.' in fileName
    ensures r.0 + r.1 == fileName
    ensures |r.1| >= 1 && r.1[0] == '.' && '.' !in r.1[1..]
  {
    var i := LastIndexOf(fileName, '.');
    (fileName[..i], fileName[i..])
  }

  /** A name that passed the ".java" filter keeps ".java" as its extension. */
  lemma JavaExtension(fileName: string)
    requires EndsWith(fileName, ".java")
    ensures '.' in fileName
    ensures SplitExtension(fileName).1 == ".java"
    ensures SplitExtension(fileName).0 == fileName[..|fileName| - 5]
  {
    var n := |fileName|;
    assert fileName[n - 5] == '.';
    var i := LastIndexOf(fileName, '.');
    assert forall j :: n - 5 < j < n ==> fileName[j] == fileName[n - 5..][j - (n - 5)];
  }

  /** Line 136: `String.format("%s_%d%s", baseName, counter, extension)`. */
  function Renamed(base: string, n: nat, ext: string): string {
    base + "_" + Decimal(n) + ext
  }

  /** Different counters give different names. */
  lemma RenamedInjective(base: string, ext: string, n: nat, m: nat)
    requires Renamed(base, n, ext) == Renamed(base, m, ext)
    ensures n == m
  {
    var s := Renamed(base, n, ext);
    var lo := |base| + 1;
    assert |Decimal(n)| == |Decimal(m)|;
    assert s[lo..|s| - |ext|] == Decimal(n);
    assert Renamed(base, m, ext)[lo..|s| - |ext|] == Decimal(m);
    DecimalInjective(n, m);
  }

  /** The first renamed candidate is `<base>_1<ext>`. */
  lemma RenamedFirst(base: string, ext: string)
    ensures Renamed(base, 1, ext) == base + "_1" + ext
  {
    assert Decimal(1) == "1";
  }

  /** A renamed name is never the original name it was derived from. */
  lemma RenamedIsNotOriginal(base: string, n: nat, ext: string)
    ensures Renamed(base, n, ext) != base + ext
  {
    assert |Renamed(base, n, ext)| > |base + ext|;
  }

  /** The names the probe loop has tried before reaching counter n. */
  ghost function ProbedNames(base: string, ext: string, n: nat): set<string> {
    set k | 1 <= k < n :: Renamed(base, k, ext)
  }

  lemma {:induction false} ProbedNamesSize(base: string, ext: string, n: nat)
    requires n >= 1
    ensures |ProbedNames(base, ext, n)| == n - 1
  {
    if n > 1 {
      ProbedNamesSize(base, ext, n - 1);
      var next := Renamed(base, n - 1, ext);
      assert ProbedNames(base, ext, n) == ProbedNames(base, ext, n - 1) + {next};
      if next in ProbedNames(base, ext, n - 1) {
        var k :| 1 <= k < n - 1 && Renamed(base, k, ext) == next;
        RenamedInjective(base, ext, k, n - 1);
      }
    }
  }

  /** Every probed name was taken, so there cannot be more probes than taken
      names: this is why the do-while loop at lines 135-138 stops. */
  lemma ProbeBound(names: set<string>, base: string, ext: string, n: nat)
    requires n >= 1
    requires forall k :: 1 <= k < n ==> Renamed(base, k, ext) in names
    ensures n <= |names| + 1
  {
    ProbedNamesSize(base, ext, n);
    SubsetSize(ProbedNames(base, ext, n), names);
  }

  lemma {:induction false} SubsetSize<T>(a: set<T>, b: set<T>)
    requires a <= b
    ensures |a| <= |b|
  {
    if a != {} {
      var x :| x in a;
      SubsetSize(a - {x}, b - {x});
    }
  }

  /** n is the counter the probe loop stops at: its name is free and every
      smaller counter's name is taken. */
  ghost predicate MinimalFree(names: set<string>, base: string, ext: string, n: nat) {
    && n >= 1
    && Renamed(base, n, ext) !in names
    && forall k :: 1 <= k < n ==> Renamed(base, k, ext) in names
  }

  /** The smallest counter >= n whose name is free, given that every counter
      below n is taken. */
  function FirstFree(names: set<string>, base: string, ext: string, n: nat): (r: nat)
    requires n >= 1
    requires forall k :: 1 <= k < n ==> Renamed(base, k, ext) in names
    ensures n <= r <= |names| + 1
    ensures MinimalFree(names, base, ext, r)
    decreases |names| + 1 - n
  {
    ProbeBound(names, base, ext, n);
    if Renamed(base, n, ext) !in names then n
    else
      ProbeBound(names, base, ext, n + 1);
      FirstFree(names, base, ext, n + 1)
  }

  /** The minimal free counter is unique, so any counter with that property is FirstFree's. */
  lemma MinimalFreeUnique(names: set<string>, base: string, ext: string, n: nat)
    requires MinimalFree(names, base, ext, n)
    ensures FirstFree(names, base, ext, 1) == n
  {
  }

  /** One more probed counter adds exactly its name. */
  lemma ProbedNamesStep(base: string, ext: string, n: nat)
    requires n >= 1
    ensures ProbedNames(base, ext, n + 1) == ProbedNames(base, ext, n) + {Renamed(base, n, ext)}
    ensures Renamed(base, n, ext) !in ProbedNames(base, ext, n)
  {
    if Renamed(base, n, ext) in ProbedNames(base, ext, n) {
      var k :| 1 <= k < n && Renamed(base, k, ext) == Renamed(base, n, ext);
      RenamedInjective(base, ext, k, n);
    }
  }

  /** After f, <base>_1<ext>, ..., <base>_(n-1)<ext> are taken, the next free counter is n. */
  lemma NextSuffixAfterRepeats(f: string, base: string, ext: string, n: nat)
    requires base + ext == f && n >= 1
    ensures MinimalFree({f} + ProbedNames(base, ext, n), base, ext, n)
    ensures FirstFree({f} + ProbedNames(base, ext, n), base, ext, 1) == n
  {
    RenamedIsNotOriginal(base, n, ext);
    ProbedNamesStep(base, ext, n);
    var names := {f} + ProbedNames(base, ext, n);
    assert forall k :: 1 <= k < n ==> Renamed(base, k, ext) in ProbedNames(base, ext, n);
    MinimalFreeUnique(names, base, ext, n);
  }
}
