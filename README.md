# cover2cover: JaCoCo to Cobertura conversion, modelled in Dafny

`cover2cover.py` turns a JaCoCo XML coverage report into a Cobertura XML
report for a merge request. It keeps only the classes whose source file
changed. It walks the JaCoCo tree (report, groups, packages, classes,
methods, source files and line records) and builds a Cobertura tree:

- `coverage`, holding `sources` and `packages`;
- each package holds its `classes`;
- each class holds its `methods` and its `lines`.

Every level carries `line-rate`, `branch-rate` and `complexity`. These are
taken from the first JaCoCo counter of the matching type.

This project models that conversion on values, from the already parsed
JaCoCo tree (`Jacoco`) to the Cobertura tree (`Cobertura`). It is split
into these modules:

- `Text`: the string operations the script relies on (`rfind`, `split`,
  `replace`, substring search, `str` of an integer).
- `Counters`: rates and complexity from counters.
- `Attribution`: which line records belong to which method. A method runs
  from its start line up to, but not including, the next larger start line
  in its class. When there is none, it runs up to 99999999.
- `LineConversion`: the Cobertura `<line>`, with its hit flag, branch flag,
  `P% (covered/total)` condition coverage and its one jump condition.
- `Naming`: file paths, dotted names, and the file stem that the
  changed-file filter compares.
- `Collecting`: the visiting order shared by every level. Elements are
  visited in order, what passes is kept, and the first raised error stops
  everything.
- `Convert`: the tree builder. Its methods (`FindLines`, `ConvertMethod`,
  `ConvertClass`, `ConvertPackage`, `ConvertRoot`) are the script's loops,
  each proved equal to a function. The properties are proved as lemmas
  about those functions.

A class whose derived file name has no `.` in its last segment makes
`split('.')[-2]` raise `IndexError`. The script then aborts. The model
returns `Err(StemIndexError(name))` for the first such class in document
order.

## Model

| member | source | states |
|---|---|---|
| Text.LastIndexOf | cover2cover.py:62 | `rfind` of one character: -1 exactly when the character is absent, otherwise an index holding it with no occurrence after it |
| Text.LastIndexOfAppend | cover2cover.py:62 | searching `a + b` from the right finds `b`'s occurrence shifted by `\|a\|` when `b` has one, otherwise `a`'s |
| Text.SplitSepFree | cover2cover.py:141 | no piece of `split(sep)` contains the separator |
| Text.SplitJoinsBack | cover2cover.py:141 | joining the pieces of `split(sep)` with the separator gives back the original string |
| Text.SplitSingleIff | cover2cover.py:141 | `split(sep)` yields a single piece exactly when the separator does not occur, which is when `[-2]` raises |
| Text.Replace | cover2cover.py:109 | `replace` keeps the length and substitutes exactly the occurrences of the replaced character, position by position |
| Text.ContainsIffOccurs | cover2cover.py:144 | the substring test `'AjcClosure' in class_name` holds exactly when the marker occurs at some index |
| Text.NatToString | cover2cover.py:49-51 | `str` of a count is a non-empty run of decimal digits without a leading zero |
| Text.ParseNatToString | cover2cover.py:49-51 | reading the digits of `str(n)` gives back `n` |
| Counters.Fraction | cover2cover.py:71-74 | the rate is 0 when nothing is covered (even with nothing missed); otherwise it is covered/(covered+missed); it lies in [0, 1] and is 1 exactly when something is covered and nothing missed |
| Counters.FirstOfKind | cover2cover.py:84-85 | the index found holds a counter of the requested type |
| Counters.FirstOfKindIsFirst | cover2cover.py:85 | nothing is found exactly when no counter has the type, and no earlier counter has it |
| Counters.CounterValue | cover2cover.py:83-93 | a rate from `fraction` lies in [0, 1]; a complexity from `sum` is non-negative |
| Counters.CounterValueOfFirst | cover2cover.py:83-93 | without a counter of the type the value is 0.0; otherwise only the first counter of the type decides the value |
| Counters.AddCounters | cover2cover.py:65-68 | line rate and branch rate are the `fraction` of the first LINE and BRANCH counters; complexity is the `sum` (`Counters.Sum`, covered plus missed) of the first COMPLEXITY counter; with the bounds of each |
| Attribution.NextStartIsLeastLater | cover2cover.py:19-28 | `NextStart` (the minimum of `larger`, filtered with `LineIsAfter`, the model of `line_is_after`) is the least start line of the class strictly after the method's own; there is none exactly when no method starts later, and `EndLine` then falls back to 99999999 |
| Attribution.LinesInRange | cover2cover.py:30-32 | the selected lines are no more than the given ones and all lie in `[start, end)` |
| Attribution.LinesInRangeMembers | cover2cover.py:30-32 | a line is selected exactly when it is one of the class's lines and its number lies in `[start, end)` |
| Attribution.LinesInRangeAppend | cover2cover.py:30-32 | selection distributes over concatenation, so selected lines keep their document order |
| Attribution.LinesInRangeAllOrNone | cover2cover.py:30-32 | lines all in range are all kept; lines none of which is in range are all dropped |
| Attribution.LatestStartOwns | cover2cover.py:24-32 | a line below 99999999 at or after some start line lies in the range of the method with the greatest such start line |
| Attribution.OwnerStartsLatest | cover2cover.py:24-32 | a method whose range holds a line has the greatest start line not after that line |
| Attribution.Attribution | cover2cover.py:24-32 | a line below 99999999 has an owning method exactly when some method starts at or before it; owners start latest; methods sharing an owner's start line own it too |
| Attribution.AttributedIffOwned | cover2cover.py:24-32 | `MethodLines`, the model of `method_lines`, gives a method exactly the class's lines whose number lies in that method's range `[start, EndLine)` |
| Attribution.DistinctStartsPartition | cover2cover.py:24-32 | with distinct start lines, every line from the first start line up to 99999999 goes to exactly one method, and a line before every start line goes to none |
| Attribution.SharedStartSameLines | cover2cover.py:26-31 | two methods with the same start line receive the same lines |
| Attribution.SharedStartExample | cover2cover.py:24-32 | with starts 10, 25, 25 and lines 10, 24, 25, 30: the first method gets lines 10 and 24; both methods at 25 get lines 25 and 30 |
| LineConversion.WholePercent | cover2cover.py:49 | a part of a whole is at most 100 percent of it, and exactly 100 only when it is the whole |
| LineConversion.BranchPercent | cover2cover.py:49 | the branch percentage is the covered share of all branches, rounded down, at most 100, and 100 exactly when no branch is missed |
| LineConversion.ConditionCoverageRoundTrip | cover2cover.py:49-51 | the `P% (covered/total)` text reads back as exactly its three numbers |
| LineConversion.ConvertLine | cover2cover.py:39-58 | the line keeps its number; `hits` is "1" exactly when an instruction is covered; `branch` is "true" and a condition coverage is present exactly when the line has branches; a line without branches has no conditions |
| LineConversion.ConvertLineBranches | cover2cover.py:48-56 | a line with branches states the percentage, the covered and the total branches; it has exactly one condition, number "0" of type "jump", whose coverage is that percentage |
| LineConversion.ConvertLines | cover2cover.py:36-58 | one converted line per JaCoCo line, in the same order |
| LineConversion.ConvertLineExamples | cover2cover.py:36-58 | 3 covered and 1 missed branch give "75% (3/4)" and a jump condition at "75%"; no branches give a plain line |
| Naming.Basename | cover2cover.py:14 | the basename has no '/', is a suffix of the path, and is the path itself when the path has no '/' |
| Naming.PathToFilepath | cover2cover.py:61-62 | the result ends with the source file name, and is that name alone when the class name has no '/' |
| Naming.PathToFilepathKeepsDirectory | cover2cover.py:61-62 | with a '/', the result is the class name up to and including its last '/', then the source file name |
| Naming.BasenameOfFilepath | cover2cover.py:112-116 | the basename looked up by `find_lines` is the basename of the declared `sourcefilename`, whatever the class's directory |
| Naming.DottedName | cover2cover.py:109 | the dotted name has the same length and no '/'; each '/' becomes '.' and every other character is kept |
| Naming.FileStem | cover2cover.py:137-141 | the stem is missing (the IndexError) exactly when the basename of the derived file name has no '.'; `DerivedFilename` is the class's directory plus `sourcefilename`, or plus its own name when that is absent (lines 111-114 and 137-139) |
| Naming.StemIsSecondToLastSegment | cover2cover.py:141 | the basename is some prefix ending in '.' (or empty), then the stem, '.', and a dot-free extension; the stem is dot-free |
| Naming.FallbackStem | cover2cover.py:137-141 | without `sourcefilename` the class has a stem exactly when its own simple name has a '.' |
| Collecting.CollectAppend | cover2cover.py:164-169 | visiting two runs one after the other yields the first run's output, then the second's; an error in the first run wins |
| Collecting.CollectOk | cover2cover.py:135-145 | a visit succeeds exactly when no step raises; it then yields what the steps yield, in order |
| Collecting.CollectFirstError | cover2cover.py:135-145 | a failed visit reports the error of the first step that raises; every earlier step succeeded |
| Convert.SourceLinesMembers | cover2cover.py:9-16 | a line is found exactly when some source file with the searched name holds it; no such file means no lines |
| Convert.FindLines | cover2cover.py:9-16 | the lines of every source file named like the basename of the file name, concatenated in document order |
| Convert.ConvertMethod | cover2cover.py:96-104 | the method keeps its name and descriptor (as signature) and gets the counters of the method and the converted attributed lines |
| Convert.ConvertedClassShape | cover2cover.py:107-127 | a class gets its dotted name, its derived file name, its counters and all its file's lines; it keeps one method per JaCoCo method, in order, each with exactly the converted lines of its range |
| Convert.ConvertMethods | cover2cover.py:118-122 | each method, in order, is converted over the lines attributed to it |
| Convert.ConvertClass | cover2cover.py:107-127 | builds exactly the class described by `ConvertedClassShape` |
| Convert.SelectedMembers | cover2cover.py:135-145 | through the filter `Naming.IsIncluded` (line 144), a class is kept exactly when it is in the package, its stem is a changed file and its dotted name lacks `AjcClosure`; with no changed file nothing is kept |
| Convert.YieldedClassesAreSelected | cover2cover.py:135-145 | the classes a package visit yields are the kept classes, converted, in document order |
| Convert.ClassStepOk | cover2cover.py:136-145 | `ClassStep`, one pass of the class loop, raises exactly when the derived file name has no stem, before the filter is consulted; `YieldedClassesAreSelected` states what it yields otherwise |
| Convert.PackageFailsOnlyOnMissingStem | cover2cover.py:130-149 | a package converts exactly when every class in it, kept or not, has a stem |
| Convert.PackageReportsFirstMissingStem | cover2cover.py:135-141 | a failed package names the first class without a stem; every earlier class has one |
| Convert.PackageAlwaysEmitted | cover2cover.py:130-149 | a package is emitted even with no class kept, with its dotted name, its counters, and exactly the kept classes, converted, in order |
| Convert.ConvertPackage | cover2cover.py:130-149 | builds the package, or stops at the first class without a stem, as `ConvertedPackage` states |
| Convert.EveryPackageEmitted | cover2cover.py:164-169 | visiting packages succeeds exactly when each one converts; it then yields one converted package per package, in order |
| Convert.GroupedPackagesAppend | cover2cover.py:164-166 | the packages of consecutive groups are those of each group in turn |
| Convert.GroupsBeforeTopLevel | cover2cover.py:158-171 | the report converts exactly when the group packages and the top-level packages both do; it lists the sources, the group packages before the top-level ones, and the report's counters |
| Convert.PackagesOkIffAllStemmed | cover2cover.py:164-169 | visiting packages succeeds exactly when every class of every package has a stem |
| Convert.ReportFailsOnlyOnMissingStem | cover2cover.py:153-171 | the whole conversion fails exactly when some class, in a group's package or a top-level package, has no stem |
| Convert.ConvertPackages | cover2cover.py:168-169 | converts packages in order, stopping at the first that fails |
| Convert.ConvertRoot | cover2cover.py:153-171 | builds the sources, the group packages, the top-level packages and the counters, or the first error, as `ConvertedReport` states |

## Left out

- XML parsing and serialisation, reading standard input and printing (cover2cover.py:174-184): the model starts from the parsed tree and ends with the built tree.
- Command-line handling and the `git diff` pipeline (cover2cover.py:187-201): the list of changed file stems is a parameter, and so are the source roots. The `'.'` default for the roots is part of the left-out argument handling.
- The `timestamp` attribute (cover2cover.py:154-157): it reads the session start or the system clock.
- Formatting rates as text with `str(float)` (cover2cover.py:91, the `'0.0'` of line 93): rates are exact `real` numbers.
- LineConversion.BranchPercent: the exact floor of 100·covered/total, not the double-precision `int(100 * (cb / (cb + mb)))`. The two differ when rounding pushes the quotient below a whole number; for example 29 covered and 71 missed give 28 in the script and 29 here.
- Counters.Fraction: the exact quotient, not a double-precision one.
- Attribute text: the JaCoCo `nr`, `mb`, `cb`, `ci`, `covered`, `missed` and `line` attributes arrive as numbers. The `number` of a Cobertura line is that number, not the attribute's original text. A non-numeric attribute (`ValueError`) or a missing required one (`KeyError`) is not modelled. Counts are `nat`, so negative counts are not modelled either.
- Nested groups: only packages directly inside a top-level `<group>` are read, as in the script. Deeper groups cannot be expressed in the `Jacoco.Group` datatype.
- Duplicate start lines: the code gives two methods that share a start line the same range, so both receive the same lines. One might expect the earlier-declared method to get an empty range; the code does not do that, and neither does the model (`Attribution.SharedStartSameLines`).
- The mutable ElementTree objects the script builds (`SubElement`, `append`, `set`) are modelled as immutable values, built in the same order.
