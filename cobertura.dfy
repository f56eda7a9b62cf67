/** The Cobertura report the converter builds, one datatype per element. */
module Cobertura {
  import opened Wrappers

  /** The `line-rate`, `branch-rate` and `complexity` attributes, as numbers. */
  datatype Rates = Rates(lineRate: real, branchRate: real, complexity: real)

  /** A `<condition>`: `number`, `type` and `coverage`. */
  datatype Condition = Condition(number: string, kind: string, coverage: string)

  /** A `<line>`: `number`, `hits`, `branch`, the optional
      `condition-coverage` and the `<condition>`s under `<conditions>`. */
  datatype Line = Line(number: int, hits: string, branch: string,
                       conditionCoverage: Option<string>, conditions: seq<Condition>)

  /** A `<method>` with its `<lines>`. */
  datatype Method = Method(name: string, signature: string, rates: Rates, lines: seq<Line>)

  /** A `<class>` with its `<methods>` and `<lines>`. */
  datatype Class = Class(name: string, filename: string, methods: seq<Method>, rates: Rates, lines: seq<Line>)

  /** A `<package>` with its `<classes>`. */
  datatype Package = Package(name: string, classes: seq<Class>, rates: Rates)

  /** The `<coverage>` root: its `<sources>`, its `<packages>`, its rates. */
  datatype Coverage = Coverage(sources: seq<string>, packages: seq<Package>, rates: Rates)
}
