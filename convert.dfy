/** Assembly of the Cobertura tree from the JaCoCo tree: every package,
    the classes of it that pass the filter, all methods of those classes
    with the lines attributed to them, and counters at every level. */
module Convert {
  import opened Wrappers
  import opened Text
  import opened Naming
  import opened Counters
  import opened Attribution
  import opened LineConversion
  import opened Collecting
  import J = Jacoco
  import C = Cobertura

  /** Why a conversion stops: the IndexError raised for a class whose
      derived file name has no stem. */
  datatype Error = StemIndexError(className: string)

  /** The `<line>`s of every source file named `base`, in document order. */
  function SourceLines(sfs: seq<J.SourceFile>, base: string): seq<J.Line>
  {
    if sfs == [] then []
    else SourceLines(sfs[..|sfs| - 1], base) + (if sfs[|sfs| - 1].name == Some(base) then sfs[|sfs| - 1].lines else [])
  }

  /** A line is found exactly when some source file named `base` holds it;
      no such file means no lines. */
  lemma {:induction false} SourceLinesMembers(sfs: seq<J.SourceFile>, base: string)
    ensures forall l :: l in SourceLines(sfs, base) <==> exists k :: 0 <= k < |sfs| && sfs[k].name == Some(base) && l in sfs[k].lines
    ensures (forall k :: 0 <= k < |sfs| ==> sfs[k].name != Some(base)) ==> SourceLines(sfs, base) == []
    decreases |sfs|
  {
    if sfs != [] {
      var front := sfs[..|sfs| - 1];
      SourceLinesMembers(front, base);
      assert forall k :: 0 <= k < |front| ==> front[k] == sfs[k];
    }
  }

  /** Collects the lines of the package's source files whose name is the
      basename of `filename`. */
  method FindLines(p: J.Package, filename: string) returns (lines: seq<J.Line>)
    ensures lines == SourceLines(p.sourceFiles, Basename(filename))
  {
    lines := [];
    var base := Basename(filename);
    for i := 0 to |p.sourceFiles|
      invariant lines == SourceLines(p.sourceFiles[..i], base)
    {
      assert p.sourceFiles[..i + 1][..i] == p.sourceFiles[..i];
      if p.sourceFiles[i].name == Some(base) {
        lines := lines + p.sourceFiles[i].lines;
      }
    }
    assert p.sourceFiles[..|p.sourceFiles|] == p.sourceFiles;
  }

  /** A converted method over the lines attributed to it. */
  function ConvertedMethod(m: J.Method, lines: seq<J.Line>): C.Method
  {
    C.Method(m.name, m.desc, AddCounters(m.counters), ConvertedLines(lines))
  }

  /** Builds a Cobertura `<method>` from a JaCoCo one and its lines. */
  method ConvertMethod(m: J.Method, lines: seq<J.Line>) returns (r: C.Method)
    ensures r == ConvertedMethod(m, lines)
  {
    var converted := ConvertLines(lines);
    r := C.Method(m.name, m.desc, AddCounters(m.counters), converted);
  }

  /** All lines of a class: those of the package's source files named like
      the class's derived file. */
  function ClassLines(c: J.Class, p: J.Package): seq<J.Line>
  {
    SourceLines(p.sourceFiles, Basename(DerivedFilename(c)))
  }

  /** A method of a class whose methods are `ms`, converted over the lines
      attributed to it among `all`. */
  function MethodConverter(ms: seq<J.Method>, all: seq<J.Line>): J.Method -> C.Method
  {
    m => ConvertedMethod(m, MethodLines(m, ms, all))
  }

  /** A converted class: every method with its attributed lines, and all
      lines of the class. */
  function ConvertedClass(c: J.Class, p: J.Package): C.Class
  {
    var all := ClassLines(c, p);
    C.Class(DottedName(c.name), DerivedFilename(c), Mapped(c.methods, MethodConverter(c.methods, all)),
            AddCounters(c.counters), ConvertedLines(all))
  }

  /** A converted class keeps one method per JaCoCo method, in order, each
      with its name, descriptor, counters and the lines in its range. */
  lemma ConvertedClassShape(c: J.Class, p: J.Package)
    ensures var r := ConvertedClass(c, p);
            && r.name == DottedName(c.name)
            && r.filename == DerivedFilename(c)
            && r.rates == AddCounters(c.counters)
            && r.lines == ConvertedLines(ClassLines(c, p))
            && |r.methods| == |c.methods|
            && forall i :: 0 <= i < |c.methods| ==>
                 && r.methods[i].name == c.methods[i].name
                 && r.methods[i].signature == c.methods[i].desc
                 && r.methods[i].rates == AddCounters(c.methods[i].counters)
                 && r.methods[i].lines == ConvertedLines(MethodLines(c.methods[i], c.methods, ClassLines(c, p)))
  {
    MappedAt(c.methods, MethodConverter(c.methods, ClassLines(c, p)));
  }

  /** Converts the methods of a class in order, each over its attributed
      lines among `all`. */
  method ConvertMethods(ms: seq<J.Method>, all: seq<J.Line>) returns (methods: seq<C.Method>)
    ensures methods == Mapped(ms, MethodConverter(ms, all))
  {
    methods := [];
    for i := 0 to |ms|
      invariant methods == Mapped(ms[..i], MethodConverter(ms, all))
    {
      assert ms[..i + 1][..i] == ms[..i];
      var m := ConvertMethod(ms[i], MethodLines(ms[i], ms, all));
      methods := methods + [m];
    }
    assert ms[..|ms|] == ms;
  }

  /** Builds a Cobertura `<class>` from a JaCoCo class of package `p`. */
  method ConvertClass(c: J.Class, p: J.Package) returns (r: C.Class)
    ensures r == ConvertedClass(c, p)
  {
    var filename := DerivedFilename(c);
    var all := FindLines(p, filename);
    var methods := ConvertMethods(c.methods, all);
    var lines := ConvertLines(all);
    r := C.Class(DottedName(c.name), filename, methods, AddCounters(c.counters), lines);
  }

  /** Visiting one class of package `p`: the IndexError when its file
      name has no stem, otherwise the converted class when it passes the
      filter and nothing when it does not. */
  function ClassStep(c: J.Class, p: J.Package, changed: seq<string>): Result<Option<C.Class>, Error>
  {
    match FileStem(DerivedFilename(c))
    case None => Err(StemIndexError(c.name))
    case Some(_) => if IsIncluded(c, changed) then Ok(Some(ConvertedClass(c, p))) else Ok(None)
  }

  function ClassStepFn(p: J.Package, changed: seq<string>): J.Class -> Result<Option<C.Class>, Error>
  {
    c => ClassStep(c, p, changed)
  }

  function IncludedFn(changed: seq<string>): J.Class -> bool
  {
    c => IsIncluded(c, changed)
  }

  /** The classes that pass the filter, in their original order. */
  function Selected(cs: seq<J.Class>, changed: seq<string>): seq<J.Class>
  {
    Kept(cs, IncludedFn(changed))
  }

  /** A class is selected exactly when it is in the package and passes the
      filter; nothing is selected when no file changed. */
  lemma SelectedMembers(cs: seq<J.Class>, changed: seq<string>)
    ensures forall c :: c in Selected(cs, changed) <==> c in cs && IsIncluded(c, changed)
    ensures changed == [] ==> Selected(cs, changed) == []
  {
    KeptMembers(cs, IncludedFn(changed));
    if changed == [] && Selected(cs, changed) != [] {
      assert Selected(cs, changed)[0] in Selected(cs, changed);
    }
  }

  /** The classes a package visit yields are the selected ones, converted,
      in order. */
  lemma YieldedClassesAreSelected(cs: seq<J.Class>, p: J.Package, changed: seq<string>)
    ensures var sel := Selected(cs, changed);
            Yielded(cs, ClassStepFn(p, changed)) == seq(|sel|, i requires 0 <= i < |sel| => ConvertedClass(sel[i], p))
  {
    var f := (c: J.Class) => ConvertedClass(c, p);
    YieldedKept(cs, ClassStepFn(p, changed), IncludedFn(changed), f);
  }

  /** The class's derived file name has a stem. */
  predicate HasStem(c: J.Class)
  {
    FileStem(DerivedFilename(c)).Some?
  }

  /** Every class of `p` has a derived file name with a stem. */
  predicate AllStemmed(p: J.Package)
  {
    forall k :: 0 <= k < |p.classes| ==> HasStem(p.classes[k])
  }

  /** Visiting a class raises exactly when it has no stem. */
  lemma ClassStepOk(c: J.Class, p: J.Package, changed: seq<string>)
    ensures ClassStepFn(p, changed)(c).Ok? <==> HasStem(c)
  {
  }

  /** The converted package: dotted name, filtered classes, counters. */
  function ConvertedPackage(p: J.Package, changed: seq<string>): Result<C.Package, Error>
  {
    match Collect(p.classes, ClassStepFn(p, changed))
    case Err(e) => Err(e)
    case Ok(classes) => Ok(C.Package(DottedName(p.name), classes, AddCounters(p.counters)))
  }

  /** A package conversion fails exactly when one of its classes has no
      stem. */
  lemma PackageFailsOnlyOnMissingStem(p: J.Package, changed: seq<string>)
    ensures ConvertedPackage(p, changed).Ok? <==> AllStemmed(p)
  {
    var step := ClassStepFn(p, changed);
    forall k | 0 <= k < |p.classes|
      ensures step(p.classes[k]).Ok? <==> HasStem(p.classes[k])
    {
      ClassStepOk(p.classes[k], p, changed);
    }
    CollectOkWhen(p.classes, step, HasStem);
  }

  /** A failed package conversion names the first class without a stem. */
  lemma PackageReportsFirstMissingStem(p: J.Package, changed: seq<string>) returns (i: nat)
    requires ConvertedPackage(p, changed).Err?
    ensures i < |p.classes| && !HasStem(p.classes[i])
    ensures ConvertedPackage(p, changed).error == StemIndexError(p.classes[i].name)
    ensures forall j :: 0 <= j < i ==> HasStem(p.classes[j])
  {
    var step := ClassStepFn(p, changed);
    i := CollectFirstError(p.classes, step);
    forall j | 0 <= j <= i
      ensures step(p.classes[j]).Ok? <==> HasStem(p.classes[j])
    {
      ClassStepOk(p.classes[j], p, changed);
    }
  }

  /** A package is always emitted, with its dotted name and counters, and
      holds exactly the selected classes, converted, in order; this holds
      even when no class survives the filter. */
  lemma PackageAlwaysEmitted(p: J.Package, changed: seq<string>)
    requires AllStemmed(p)
    ensures ConvertedPackage(p, changed).Ok?
    ensures var cp := ConvertedPackage(p, changed).value;
            var sel := Selected(p.classes, changed);
            && cp.name == DottedName(p.name)
            && cp.rates == AddCounters(p.counters)
            && cp.classes == seq(|sel|, i requires 0 <= i < |sel| => ConvertedClass(sel[i], p))
  {
    PackageFailsOnlyOnMissingStem(p, changed);
    CollectOk(p.classes, ClassStepFn(p, changed));
    YieldedClassesAreSelected(p.classes, p, changed);
  }

  /** Builds a Cobertura `<package>`, or stops at the first class without a
      stem. */
  method ConvertPackage(p: J.Package, changed: seq<string>) returns (res: Result<C.Package, Error>)
    ensures res == ConvertedPackage(p, changed)
  {
    var step := ClassStepFn(p, changed);
    var classes: seq<C.Class> := [];
    for i := 0 to |p.classes|
      invariant Collect(p.classes[..i], step) == Ok(classes)
    {
      var c := p.classes[i];
      CollectStep(p.classes, i, step);
      var stem := FileStem(DerivedFilename(c));
      if stem.None? {
        PrefixErrorStops(p.classes, i + 1, step);
        return Err(StemIndexError(c.name));
      }
      if stem.value in changed && !Contains(DottedName(c.name), ClosureMarker) {
        var converted := ConvertClass(c, p);
        classes := classes + [converted];
      }
    }
    assert p.classes[..|p.classes|] == p.classes;
    res := Ok(C.Package(DottedName(p.name), classes, AddCounters(p.counters)));
  }

  /** Visiting one package: its conversion, or the error that stopped it. */
  function PackageStep(p: J.Package, changed: seq<string>): Result<Option<C.Package>, Error>
  {
    match ConvertedPackage(p, changed)
    case Err(e) => Err(e)
    case Ok(cp) => Ok(Some(cp))
  }

  function PackageStepFn(changed: seq<string>): J.Package -> Result<Option<C.Package>, Error>
  {
    p => PackageStep(p, changed)
  }

  /** Every package is emitted, one for one and in order, unless some
      package fails. */
  lemma EveryPackageEmitted(ps: seq<J.Package>, changed: seq<string>)
    ensures Collect(ps, PackageStepFn(changed)).Ok? <==> forall k :: 0 <= k < |ps| ==> ConvertedPackage(ps[k], changed).Ok?
    ensures Collect(ps, PackageStepFn(changed)).Ok? ==>
              && |Collect(ps, PackageStepFn(changed)).value| == |ps|
              && forall k :: 0 <= k < |ps| ==> Ok(Collect(ps, PackageStepFn(changed)).value[k]) == ConvertedPackage(ps[k], changed)
  {
    CollectOk(ps, PackageStepFn(changed));
    if Collect(ps, PackageStepFn(changed)).Ok? {
      YieldedEach(ps, PackageStepFn(changed));
    }
  }

  /** The packages directly inside the groups, group by group. */
  function GroupedPackages(gs: seq<J.Group>): seq<J.Package>
  {
    if gs == [] then [] else GroupedPackages(gs[..|gs| - 1]) + gs[|gs| - 1].packages
  }

  lemma {:induction false} GroupedPackagesAppend(a: seq<J.Group>, b: seq<J.Group>)
    ensures GroupedPackages(a + b) == GroupedPackages(a) + GroupedPackages(b)
    decreases |b|
  {
    if b == [] {
      assert a + b == a;
    } else {
      var b' := b[..|b| - 1];
      assert (a + b)[..|a + b| - 1] == a + b';
      assert GroupedPackages(a + b) == GroupedPackages(a + b') + b[|b| - 1].packages;
      assert GroupedPackages(b) == GroupedPackages(b') + b[|b| - 1].packages;
      GroupedPackagesAppend(a, b');
      assert GroupedPackages(a) + GroupedPackages(b') + b[|b| - 1].packages
          == GroupedPackages(a) + (GroupedPackages(b') + b[|b| - 1].packages);
    }
  }

  /** The packages of a report in visiting order: those directly inside
      the groups, then the top-level ones. */
  function ReportPackages(r: J.Report): seq<J.Package>
  {
    GroupedPackages(r.groups) + r.packages
  }

  /** The converted report: the source roots, the packages of the groups
      followed by the top-level packages, and the report's counters. */
  function ConvertedReport(r: J.Report, changed: seq<string>, roots: seq<string>): Result<C.Coverage, Error>
  {
    match Collect(ReportPackages(r), PackageStepFn(changed))
    case Err(e) => Err(e)
    case Ok(packages) => Ok(C.Coverage(roots, packages, AddCounters(r.counters)))
  }

  /** The packages of the groups come before the top-level packages. */
  lemma GroupsBeforeTopLevel(r: J.Report, changed: seq<string>, roots: seq<string>)
    ensures ConvertedReport(r, changed, roots).Ok? <==>
              Collect(GroupedPackages(r.groups), PackageStepFn(changed)).Ok? && Collect(r.packages, PackageStepFn(changed)).Ok?
    ensures ConvertedReport(r, changed, roots).Ok? ==>
              && ConvertedReport(r, changed, roots).value.sources == roots
              && ConvertedReport(r, changed, roots).value.rates == AddCounters(r.counters)
              && ConvertedReport(r, changed, roots).value.packages
                 == Collect(GroupedPackages(r.groups), PackageStepFn(changed)).value + Collect(r.packages, PackageStepFn(changed)).value
  {
    CollectAppend(GroupedPackages(r.groups), r.packages, PackageStepFn(changed));
  }

  /** Visiting a package succeeds exactly when all its classes have a
      stem. */
  lemma PackageStepOk(p: J.Package, changed: seq<string>)
    ensures PackageStepFn(changed)(p).Ok? <==> AllStemmed(p)
  {
    PackageFailsOnlyOnMissingStem(p, changed);
  }

  /** Visiting packages succeeds exactly when all their classes have a
      stem. */
  lemma PackagesOkIffAllStemmed(ps: seq<J.Package>, changed: seq<string>)
    ensures Collect(ps, PackageStepFn(changed)).Ok? <==> forall j :: 0 <= j < |ps| ==> AllStemmed(ps[j])
  {
    var step := PackageStepFn(changed);
    forall j | 0 <= j < |ps|
      ensures step(ps[j]).Ok? <==> AllStemmed(ps[j])
    {
      PackageStepOk(ps[j], changed);
    }
    CollectOkWhen(ps, step, AllStemmed);
  }

  /** The whole conversion fails exactly when some class, in a group's
      package or in a top-level package, has a derived file name without a
      stem. */
  lemma ReportFailsOnlyOnMissingStem(r: J.Report, changed: seq<string>, roots: seq<string>)
    ensures ConvertedReport(r, changed, roots).Ok? <==>
              forall j :: 0 <= j < |ReportPackages(r)| ==> AllStemmed(ReportPackages(r)[j])
  {
    PackagesOkIffAllStemmed(ReportPackages(r), changed);
    assert ConvertedReport(r, changed, roots).Ok? <==> Collect(ReportPackages(r), PackageStepFn(changed)).Ok?;
  }

  /** Converts packages one after the other, stopping at the first that
      fails. */
  method ConvertPackages(ps: seq<J.Package>, changed: seq<string>) returns (res: Result<seq<C.Package>, Error>)
    ensures res == Collect(ps, PackageStepFn(changed))
  {
    var step := PackageStepFn(changed);
    var packages: seq<C.Package> := [];
    for k := 0 to |ps|
      invariant Collect(ps[..k], step) == Ok(packages)
    {
      CollectStep(ps, k, step);
      var cp := ConvertPackage(ps[k], changed);
      if cp.Err? {
        PrefixErrorStops(ps, k + 1, step);
        return Err(cp.error);
      }
      packages := packages + [cp.value];
    }
    assert ps[..|ps|] == ps;
    res := Ok(packages);
  }

  /** Builds the `<coverage>` root: sources, then the packages inside the
      groups, then the top-level packages, then the counters. */
  method ConvertRoot(r: J.Report, changed: seq<string>, roots: seq<string>) returns (res: Result<C.Coverage, Error>)
    ensures res == ConvertedReport(r, changed, roots)
  {
    var sources: seq<string> := [];
    for i := 0 to |roots|
      invariant sources == roots[..i]
    {
      sources := sources + [roots[i]];
    }
    assert roots[..|roots|] == roots;

    var step := PackageStepFn(changed);
    var packages: seq<C.Package> := [];
    for g := 0 to |r.groups|
      invariant Collect(GroupedPackages(r.groups[..g]), step) == Ok(packages)
    {
      assert r.groups[..g + 1][..g] == r.groups[..g];
      CollectAppend(GroupedPackages(r.groups[..g]), r.groups[g].packages, step);
      var inGroup := ConvertPackages(r.groups[g].packages, changed);
      if inGroup.Err? {
        assert r.groups[..g + 1] + r.groups[g + 1..] == r.groups;
        GroupedPackagesAppend(r.groups[..g + 1], r.groups[g + 1..]);
        CollectAppend(GroupedPackages(r.groups[..g + 1]), GroupedPackages(r.groups[g + 1..]), step);
        CollectAppend(GroupedPackages(r.groups), r.packages, step);
        return Err(inGroup.error);
      }
      packages := packages + inGroup.value;
    }
    assert r.groups[..|r.groups|] == r.groups;
    CollectAppend(GroupedPackages(r.groups), r.packages, step);
    var topLevel := ConvertPackages(r.packages, changed);
    if topLevel.Err? {
      return Err(topLevel.error);
    }
    res := Ok(C.Coverage(sources, packages + topLevel.value, AddCounters(r.counters)));
  }
}
