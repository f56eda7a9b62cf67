/** Translation of JaCoCo's absolute covered/missed counters into
    Cobertura's rates and complexity. */
module Counters {
  import opened Wrappers
  import opened Jacoco
  import Cobertura

  /** The operation applied to the selected counter. */
  datatype Operation = FractionOp | SumOp

  /** A coverage rate that is 0 whenever nothing is covered, even when
      `missed` is 0 too. */
  function Fraction(covered: nat, missed: nat): (r: real)
    ensures covered == 0 ==> r == 0.0
    ensures covered > 0 ==> r * (covered + missed) as real == covered as real
    ensures 0.0 <= r <= 1.0
    ensures r == 1.0 <==> covered > 0 && missed == 0
  {
    if covered == 0 then 0.0 else covered as real / (covered + missed) as real
  }

  /** The total count, used for complexity. */
  function Sum(covered: nat, missed: nat): real
  {
    (covered + missed) as real
  }

  function Apply(op: Operation, covered: nat, missed: nat): real
  {
    match op
    case FractionOp => Fraction(covered, missed)
    case SumOp => Sum(covered, missed)
  }

  /** Index of the first counter of the given type, if any. */
  function FirstOfKind(cs: seq<Counter>, kind: string): (r: Option<nat>)
    ensures r.Some? ==> r.value < |cs| && cs[r.value].kind == kind
  {
    if cs == [] then None
    else if cs[0].kind == kind then Some(0)
    else
      match FirstOfKind(cs[1..], kind)
      case None => None
      case Some(k) => Some(k + 1)
  }

  /** The index found is the first of its type, and nothing is found
      exactly when no counter has the type. */
  lemma {:induction false} FirstOfKindIsFirst(cs: seq<Counter>, kind: string)
    ensures FirstOfKind(cs, kind).None? <==> forall j :: 0 <= j < |cs| ==> cs[j].kind != kind
    ensures FirstOfKind(cs, kind).Some? ==> forall j :: 0 <= j < FirstOfKind(cs, kind).value ==> cs[j].kind != kind
    decreases |cs|
  {
    if cs != [] && cs[0].kind != kind {
      FirstOfKindIsFirst(cs[1..], kind);
      assert forall j :: 1 <= j < |cs| ==> cs[j] == cs[1..][j - 1];
    }
  }

  /** The value of the first counter of type `kind` under `op`; 0.0 when
      the element has no counter of that type. */
  function CounterValue(cs: seq<Counter>, kind: string, op: Operation): (r: real)
    ensures op == FractionOp ==> 0.0 <= r <= 1.0
    ensures op == SumOp ==> r >= 0.0
  {
    match FirstOfKind(cs, kind)
    case None => 0.0
    case Some(k) => Apply(op, cs[k].covered, cs[k].missed)
  }

  /** Only the first counter of the type counts; without one the value is
      0.0. */
  lemma CounterValueOfFirst(cs: seq<Counter>, kind: string, op: Operation)
    ensures (forall j :: 0 <= j < |cs| ==> cs[j].kind != kind) ==> CounterValue(cs, kind, op) == 0.0
    ensures forall k :: 0 <= k < |cs| && cs[k].kind == kind && (forall j :: 0 <= j < k ==> cs[j].kind != kind)
                        ==> CounterValue(cs, kind, op) == Apply(op, cs[k].covered, cs[k].missed)
  {
    FirstOfKindIsFirst(cs, kind);
  }

  /** The three attributes every converted element carries. */
  function AddCounters(cs: seq<Counter>): (r: Cobertura.Rates)
    ensures r.lineRate == CounterValue(cs, "LINE", FractionOp) && 0.0 <= r.lineRate <= 1.0
    ensures r.branchRate == CounterValue(cs, "BRANCH", FractionOp) && 0.0 <= r.branchRate <= 1.0
    ensures r.complexity == CounterValue(cs, "COMPLEXITY", SumOp) && r.complexity >= 0.0
  {
    Cobertura.Rates(CounterValue(cs, "LINE", FractionOp), CounterValue(cs, "BRANCH", FractionOp), CounterValue(cs, "COMPLEXITY", SumOp))
  }
}
