/** The JaCoCo report as read by the converter: the elements and attributes
    it looks at, with XML text already turned into numbers. */
module Jacoco {
  import opened Wrappers

  /** A `<counter>`: its `type` (LINE, BRANCH, COMPLEXITY, ...) and the
      `covered` and `missed` counts. */
  datatype Counter = Counter(kind: string, covered: nat, missed: nat)

  /** A `<line>` of a `<sourcefile>`: line number `nr`, missed branches `mb`,
      covered branches `cb` and covered instructions `ci`. */
  datatype Line = Line(nr: int, mb: nat, cb: nat, ci: nat)

  /** A `<method>`: `name`, descriptor `desc`, the optional start `line`. */
  datatype Method = Method(name: string, desc: string, line: Option<int>, counters: seq<Counter>)

  /** A `<class>`: its slash-separated `name` and the optional `sourcefilename`. */
  datatype Class = Class(name: string, sourceFileName: Option<string>, methods: seq<Method>, counters: seq<Counter>)

  /** A `<sourcefile>` and its `<line>` children, in document order. */
  datatype SourceFile = SourceFile(name: Option<string>, lines: seq<Line>)

  /** A `<package>`: slash-separated `name`, its classes and source files. */
  datatype Package = Package(name: string, classes: seq<Class>, sourceFiles: seq<SourceFile>, counters: seq<Counter>)

  /** A `<group>` element directly under the report; only the packages
      directly inside it are read. */
  datatype Group = Group(packages: seq<Package>)

  /** The `<report>` root: its groups, its top-level packages, its counters. */
  datatype Report = Report(groups: seq<Group>, packages: seq<Package>, counters: seq<Counter>)

  /** A method's start line; an absent `line` attribute reads as 0. */
  function StartLine(m: Method): int
  {
    match m.line
    case Some(n) => n
    case None => 0
  }
}
