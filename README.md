# SmartJavaCopier, modelled in Dafny

SmartJavaCopier is an interactive console tool. It lists the project
directories under `~/IdeaProjects` and asks the operator to pick one. It then
finds that project's source directory (`src/main/java` if present, else the
project itself) and copies every `.java` file under it, flattened, into
`~/Documents/CODE/<project>`. A file whose name is already in the destination
is written as `<base>_<n><ext>` instead, for the smallest free `n >= 1`. The
run counts the files processed and the files renamed.

The model has four modules:

- `Text`: the string operations the copier relies on.
  - `String.endsWith` and `lastIndexOf(char)`.
  - The decimal text that `%d` produces, with its reading back.
  - The order of `String.compareTo`: total, transitive and antisymmetric.
- `Naming`: the collision-renaming rule.
  - The split of a file name at its last `'.'`.
  - The name `<base>_<n><ext>`.
  - The minimal free counter (`FirstFree`), and why probing stops.
- `FileTree`: the steps of `main` before the copy, over an abstract filesystem.
  - The filesystem is a map from a path (a sequence of name components) to a kind.
  - Listing and sorting the project directories.
  - The check on the operator's choice.
  - Resolving the source and destination directories.
- `Flatten`: `copyJavaFiles` and `copyFile`.
  - The specification is a fold, `Run`, over the walked entries. Each step is one `Visit`, on a `Tally` of the destination's names, the two counters and the name chosen for each processed file.
  - The implementation is the class `Destination`, whose field `names` is what the destination directory holds. `CopyJavaFiles` is its loop over the walk, with the two counters. `ProbeFreeName` is the `do … while` probe loop.
  - Each method is proved equal to the specification, and the properties are proved as lemmas about `Run`.

Environment inputs become parameters:

- The walk is a given sequence of entries (path text and kind), in the order `Files.walk` yields them.
- Whether each `Files.copy` succeeds is a given flag per entry. A failed copy leaves no file behind.
- What `Files.list` returns is a given `Option` of paths; `None` stands for an IOException.
- The operator's input is an already parsed `Option<int>`; `None` stands for text that is not a number.

Facts about the code that the model follows:

- `fileCount` is incremented before the copy (line 124), so a failed copy is still counted. `conflictCount` is likewise incremented before a renamed copy (line 129), whether or not it succeeds.
- Only the immediate children of the root are listed (lines 58-67), and only `src/main/java` is tried as the source directory (lines 93-101).
- The filter tests the whole path string for the `.java` suffix (line 122). `JavaSuffixIsFileNameSuffix` shows this equals testing the file name.
- The walk that `copyJavaFiles` takes and the destination's existing names are independent inputs of `Flatten`. They are not derived from the `CopyPlan` that `PlanCopy` computes, and the two modules represent a path differently: `FileTree` as a sequence of name components with `FileName`, `Flatten` as path text with `FileNameOf`.

## Model

| member | source | states |
|---|---|---|
| Text.LastIndexOf | src/main/java/com/example/copier/SmartJavaCopier.java:131-132 | the result is -1 exactly when the character does not occur; otherwise it is a position of that character with no occurrence after it |
| Text.Decimal | src/main/java/com/example/copier/SmartJavaCopier.java:136 | `%d` of a non-negative counter is a non-empty run of digits with no leading zero |
| Text.DecimalRoundTrip | src/main/java/com/example/copier/SmartJavaCopier.java:136 | reading the decimal text of n back gives n |
| Text.DecimalInjective | src/main/java/com/example/copier/SmartJavaCopier.java:136 | different counters have different decimal texts |
| Text.LexTotal | src/main/java/com/example/copier/SmartJavaCopier.java:61 | any two names are comparable under the `compareTo` order |
| Text.LexTransitive | src/main/java/com/example/copier/SmartJavaCopier.java:61 | the `compareTo` order is transitive |
| Text.LexAntisymmetric | src/main/java/com/example/copier/SmartJavaCopier.java:61 | two names each at most the other are equal |
| Naming.SplitExtension | src/main/java/com/example/copier/SmartJavaCopier.java:131-132 | baseName + extension is the file name; extension starts with '.' and holds no other '.' |
| Naming.JavaExtension | src/main/java/com/example/copier/SmartJavaCopier.java:131-132 | a name ending in ".java" contains '.', its extension is ".java" and its base is the name without those five characters |
| Naming.RenamedInjective | src/main/java/com/example/copier/SmartJavaCopier.java:136 | different counters give different `<base>_<n><ext>` names |
| Naming.RenamedIsNotOriginal | src/main/java/com/example/copier/SmartJavaCopier.java:136 | a renamed name never equals the original `<base><ext>` |
| Naming.RenamedFirst | src/main/java/com/example/copier/SmartJavaCopier.java:136 | the first candidate is `<base>_1<ext>` |
| Naming.ProbedNamesSize | src/main/java/com/example/copier/SmartJavaCopier.java:135-138 | before counter n the probe has tried n-1 distinct names |
| Naming.ProbeBound | src/main/java/com/example/copier/SmartJavaCopier.java:135-138 | if every counter below n is taken then n <= (number of names in the destination) + 1, so the probe loop ends |
| Naming.FirstFree | src/main/java/com/example/copier/SmartJavaCopier.java:130-138 | the counter the probe stops at: its name is free, all smaller counters' names are taken, and it is at most the number of names plus one |
| Naming.MinimalFreeUnique | src/main/java/com/example/copier/SmartJavaCopier.java:130-138 | any counter with the minimal-free property is FirstFree's |
| Naming.ProbedNamesStep | src/main/java/com/example/copier/SmartJavaCopier.java:136-138 | one more probe adds exactly one new name |
| Naming.NextSuffixAfterRepeats | src/main/java/com/example/copier/SmartJavaCopier.java:130-138 | once f, `<base>_1<ext>` … `<base>_(n-1)<ext>` are taken, the next free counter is n |
| FileTree.Directories | src/main/java/com/example/copier/SmartJavaCopier.java:60 | the filter keeps each directory as often as it was listed and drops everything else |
| FileTree.InsertByName | src/main/java/com/example/copier/SmartJavaCopier.java:61 | inserting into a name-sorted list keeps it sorted and adds exactly that element |
| FileTree.SortByName | src/main/java/com/example/copier/SmartJavaCopier.java:61 | the result is sorted by file name and is a permutation of the input |
| FileTree.FindProjectDirectories | src/main/java/com/example/copier/SmartJavaCopier.java:58-67 | an IOException gives the empty list; otherwise the listed directories, each as often as listed, sorted ascending by file name |
| FileTree.ProjectsAreDirectoryChildren | src/main/java/com/example/copier/SmartJavaCopier.java:58-62 | for a complete listing of the root: exactly the directory children of the root, each once, sorted |
| FileTree.ChildNamedIsUnique | src/main/java/com/example/copier/SmartJavaCopier.java:58-62 | two children of one directory with the same file name are the same path |
| FileTree.ProjectNamesStrictlyAscending | src/main/java/com/example/copier/SmartJavaCopier.java:58-62 | the listed projects have pairwise distinct names |
| FileTree.SelectProject | src/main/java/com/example/copier/SmartJavaCopier.java:82-83 | a choice is accepted exactly when it is a number in 1..maxChoice; then `choice - 1` is a valid index and the result is `projects.get(choice - 1)` (line 45) |
| FileTree.DetermineSourcePath | src/main/java/com/example/copier/SmartJavaCopier.java:93-101 | the result is `<project>/src/main/java` exactly when that is a directory, and the project itself exactly when it is not; it is a directory inside the project |
| FileTree.DestinationFor | src/main/java/com/example/copier/SmartJavaCopier.java:50 | the destination is one level below the document root and carries the project's name |
| FileTree.PlanCopy | src/main/java/com/example/copier/SmartJavaCopier.java:26-50 | a run goes on to copy exactly when the root is a directory and the choice is valid; the chosen project is a listed directory, the source is `DetermineSourcePath` of it (a directory inside the project) and the destination is `DOC_ROOT.resolve(projectName)` |
| FileTree.NoProjectsNoPlan | src/main/java/com/example/copier/SmartJavaCopier.java:35-38 | with an IOException or no directories listed, there are no projects and no copy happens |
| Flatten.FileNameOfIsSuffix | src/main/java/com/example/copier/SmartJavaCopier.java:125 | a file name is a suffix of its path and holds no separator |
| Flatten.JavaSuffixIsFileNameSuffix | src/main/java/com/example/copier/SmartJavaCopier.java:122 | a path ends with ".java" exactly when its file name does |
| Flatten.Target | src/main/java/com/example/copier/SmartJavaCopier.java:126-141 | the chosen name is free; it is the file's own name exactly when that is free; otherwise it is `<base>_<n><ext>` for the first free n >= 1 |
| Flatten.VisitEffect | src/main/java/com/example/copier/SmartJavaCopier.java:122-146 | a non-qualifying entry changes nothing; a qualifying one is counted, gets a free name, counts as a conflict exactly when that name is not its own, and adds it when the copy succeeds |
| Flatten.FreeNameKept | src/main/java/com/example/copier/SmartJavaCopier.java:142-144 | a file whose own name is free is written under it and `conflictCount` is unchanged |
| Flatten.TakenNameCounted | src/main/java/com/example/copier/SmartJavaCopier.java:128-129 | a file whose own name is taken increments both counters |
| Flatten.RunProcessesQualifying | src/main/java/com/example/copier/SmartJavaCopier.java:122-124 | exactly the qualifying entries are processed, each once, in walk order; `fileCount` is their number even when copies fail |
| Flatten.RunCountsRenames | src/main/java/com/example/copier/SmartJavaCopier.java:128-129 | `conflictCount` is the number of processed files written under a name other than their own, so `conflictCount <= fileCount` |
| Flatten.RunKeepsExisting | src/main/java/com/example/copier/SmartJavaCopier.java:128-144 | no chosen name was present before the run; every name present before stays; each successful copy adds exactly one name |
| Flatten.NeverOverwritesStep | src/main/java/com/example/copier/SmartJavaCopier.java:135-144 | one more file written under a free name keeps every earlier successful name present and unreused |
| Flatten.RunNeverOverwrites | src/main/java/com/example/copier/SmartJavaCopier.java:135-144 | a successfully copied file's name stays in the destination and no later file is given it |
| Flatten.RerunRenamesAll | src/main/java/com/example/copier/SmartJavaCopier.java:128-129 | when every own name is already in the destination (a second run), every processed file is renamed |
| Flatten.RepeatStep | src/main/java/com/example/copier/SmartJavaCopier.java:130-138 | after n files named f, the next one named f is written as `<base>_n<ext>` |
| Flatten.SameNameRun | src/main/java/com/example/copier/SmartJavaCopier.java:130-138 | K files all named f into an empty destination are written as f, `<base>_1<ext>` … `<base>_(K-1)<ext>`, with `fileCount` = K and `conflictCount` = K-1 |
| Flatten.TwoSameNames | src/main/java/com/example/copier/SmartJavaCopier.java:128-138 | two files with one name into an empty destination: the second becomes `<base>_1<ext>` |
| Flatten.ThreeFileScenario | src/main/java/com/example/copier/SmartJavaCopier.java:122-146 | files named x.java, x.java, y.java into an empty destination give x.java, x_1.java, y.java, three processed and one renamed |
| Flatten.JavaFileIn | src/main/java/com/example/copier/SmartJavaCopier.java:122-125 | the regular file `<dir>/<base>.java` qualifies and its name is `<base>.java` |
| Flatten.ThreeFilesInDirectories | src/main/java/com/example/copier/SmartJavaCopier.java:122-146 | the source tree a/x.java, b/x.java, c/y.java gives x.java, x_1.java, y.java, three processed and one renamed |
| Flatten.Destination.Open | src/main/java/com/example/copier/SmartJavaCopier.java:112-115 | an existing destination keeps its names; a missing one is created empty |
| Flatten.Destination.CopyFile | src/main/java/com/example/copier/SmartJavaCopier.java:156-161 | a successful copy adds the name; a failure is swallowed and leaves the destination unchanged |
| Flatten.Destination.CopyEntry | src/main/java/com/example/copier/SmartJavaCopier.java:123-145 | one step of the forEach: the entry is processed exactly when it qualifies, is written under `Target` of the names before, reports a rename exactly when its own name was taken, and the new state is one `Visit` |
| Flatten.Destination.CopyJavaFiles | src/main/java/com/example/copier/SmartJavaCopier.java:117-147 | the loop leaves the destination, both counters and the chosen names equal to `Run` over the walk |
| Flatten.ProbeFreeName | src/main/java/com/example/copier/SmartJavaCopier.java:130-138 | the do-while loop stops at the minimal free counter n >= 1 (FirstFree) and returns `<base>_<n><ext>`, which is free |

## Left out

- Console output is not modelled: `printHeader`, `printSummary`, `displayProjects`, `clearConsole` and every message. It is presentation only.
- `waitForEnterAndExit` and `System.exit` are not modelled. `PlanCopy` returns None where the program would stop.
- The unbounded re-prompt loop in `getUserChoice` and the `Scanner` read are interactive I/O. Only the range check is modelled, and a rejected input gives None.
- `Integer.parseInt` is a library call. The input is an already parsed optional integer.
- `PROJECTS_ROOT` and `DOC_ROOT` (lines 13 and 16) read `user.home`, a foreign environment read. They are parameters.
- The order of `Files.walk` is given as the entry sequence. The byte transfer of `Files.copy` is not modelled: the destination is modelled as its set of names.
- `Files.isRegularFile` and `Files.isDirectory` are taken from a given kind per path. Symbolic links and permission checks are not modelled.
- A failure of `Files.createDirectories` and the outer IOException of `copyJavaFiles` (lines 151-153) are not modelled: they abort the run before the summary. So is an IOException raised while the walk is in progress.
- A copy that fails after partly writing its target is not modelled. A failed copy is taken to leave no file.
- Copying into a destination that lies inside the walked source tree is not modelled: the walk would then see files the run itself wrote.
- Flatten.Destination.CopyJavaFiles: `fileCount` and `conflictCount` are unbounded integers. Java's 32-bit `int` would wrap only after 2^31 files.
- Text.Decimal: `%d` is taken to print ASCII digits. A default locale with other digits is not modelled.
- Text.LexLessEq: compares Dafny characters one by one. It matches `String.compareTo` on UTF-16 code units only where each character is one code unit.
- Flatten.FileNameOf: takes the walked path as text with '/' separators. A path ending in a separator, or another platform's separator, is not modelled.
- Names in the destination are compared exactly. On a case-insensitive filesystem `Files.exists` (lines 128 and 138) reports `foo.java` as taken when `Foo.java` is present, and the program renames where `Target` and `Visit` do not.
- Flatten.ProbeFreeName: the probe `counter` (lines 130 and 136) is an unbounded integer. Java's 32-bit `int` would wrap only after 2^31 probes, that is with more than 2^31 names in the destination.
- FileTree.FindProjectDirectories: a failure while the directory stream is being iterated is not modelled. It surfaces as an `UncheckedIOException`, which the `catch (IOException e)` at line 63 does not catch, so the program ends with an exception. `None` stands only for an IOException thrown by `Files.list` itself.
