/** Which of a class's `<line>` records belong to which of its methods.
    JaCoCo gives each method a start line only; a method is taken to run
    up to, not including, the next larger start line of the class. */
module Attribution {
  import opened Wrappers
  import opened Jacoco

  /** End of the last method's range: no line of a real file reaches it. */
  const Sentinel: int := 99999999

  /** `m` starts strictly after `start`. */
  predicate LineIsAfter(m: Method, start: int)
  {
    StartLine(m) > start
  }

  function Min(a: int, b: int): int
  {
    if a <= b then a else b
  }

  /** The smallest start line among `ms` that is strictly larger than
      `start`, or nothing when no method starts after it. */
  function NextStart(ms: seq<Method>, start: int): Option<int>
  {
    if ms == [] then None
    else
      var rest := NextStart(ms[1..], start);
      if !LineIsAfter(ms[0], start) then rest
      else
        match rest
        case None => Some(StartLine(ms[0]))
        case Some(e) => Some(Min(e, StartLine(ms[0])))
  }

  /** The next start is a start line of `ms` after `start`, at most every
      such start line; it is missing exactly when no method starts after
      `start`. */
  lemma {:induction false} NextStartIsLeastLater(ms: seq<Method>, start: int)
    ensures NextStart(ms, start).None? <==> forall k :: 0 <= k < |ms| ==> !LineIsAfter(ms[k], start)
    ensures NextStart(ms, start).Some? ==>
              && NextStart(ms, start).value > start
              && exists k :: 0 <= k < |ms| && StartLine(ms[k]) == NextStart(ms, start).value
    ensures NextStart(ms, start).Some? ==>
              forall k :: 0 <= k < |ms| && LineIsAfter(ms[k], start) ==> NextStart(ms, start).value <= StartLine(ms[k])
    decreases |ms|
  {
    if ms != [] {
      NextStartIsLeastLater(ms[1..], start);
      assert forall k :: 1 <= k < |ms| ==> ms[k] == ms[1..][k - 1];
      if NextStart(ms[1..], start).Some? {
        var k :| 0 <= k < |ms[1..]| && StartLine(ms[1..][k]) == NextStart(ms[1..], start).value;
        assert StartLine(ms[k + 1]) == NextStart(ms[1..], start).value;
      }
    }
  }

  /** Where the range of a method starting at `start` ends (exclusive). */
  function EndLine(ms: seq<Method>, start: int): int
  {
    match NextStart(ms, start)
    case None => Sentinel
    case Some(e) => e
  }

  /** The lines whose number lies in `[lo, hi)`, in their original order. */
  function LinesInRange(ls: seq<Line>, lo: int, hi: int): (r: seq<Line>)
    ensures |r| <= |ls|
    ensures forall k :: 0 <= k < |r| ==> lo <= r[k].nr < hi
  {
    if ls == [] then []
    else (if lo <= ls[0].nr < hi then [ls[0]] else []) + LinesInRange(ls[1..], lo, hi)
  }

  /** A line is selected exactly when it is one of the given lines and its
      number lies in `[lo, hi)`. */
  lemma {:induction false} LinesInRangeMembers(ls: seq<Line>, lo: int, hi: int)
    ensures forall l :: l in LinesInRange(ls, lo, hi) <==> l in ls && lo <= l.nr < hi
    decreases |ls|
  {
    if ls != [] {
      LinesInRangeMembers(ls[1..], lo, hi);
      assert forall l :: l in ls <==> l == ls[0] || l in ls[1..];
    }
  }

  /** Selection distributes over concatenation, so the selected lines keep
      their relative order. */
  lemma {:induction false} LinesInRangeAppend(a: seq<Line>, b: seq<Line>, lo: int, hi: int)
    ensures LinesInRange(a + b, lo, hi) == LinesInRange(a, lo, hi) + LinesInRange(b, lo, hi)
    decreases |a|
  {
    if a == [] {
      assert a + b == b;
    } else {
      assert (a + b)[1..] == a[1..] + b;
      LinesInRangeAppend(a[1..], b, lo, hi);
    }
  }

  /** Lines that all lie in the range are all selected; lines none of
      which does are all dropped. */
  lemma {:induction false} LinesInRangeAllOrNone(ls: seq<Line>, lo: int, hi: int)
    ensures (forall k :: 0 <= k < |ls| ==> lo <= ls[k].nr < hi) ==> LinesInRange(ls, lo, hi) == ls
    ensures (forall k :: 0 <= k < |ls| ==> !(lo <= ls[k].nr < hi)) ==> LinesInRange(ls, lo, hi) == []
    decreases |ls|
  {
    if ls != [] {
      assert forall k :: 0 <= k < |ls[1..]| ==> ls[1..][k] == ls[k + 1];
      LinesInRangeAllOrNone(ls[1..], lo, hi);
      assert ls == [ls[0]] + ls[1..];
    }
  }

  /** The lines attributed to method `m` of a class whose methods are `ms`. */
  function MethodLines(m: Method, ms: seq<Method>, ls: seq<Line>): seq<Line>
  {
    LinesInRange(ls, StartLine(m), EndLine(ms, StartLine(m)))
  }

  /** Line number `nr` falls in the range of the `i`-th method. */
  predicate Owns(ms: seq<Method>, i: int, nr: int)
    requires 0 <= i < |ms|
  {
    StartLine(ms[i]) <= nr < EndLine(ms, StartLine(ms[i]))
  }

  /** Index of a method with the greatest start line not after `nr`. */
  lemma LatestStartAtMost(ms: seq<Method>, nr: int) returns (i: nat)
    requires exists k :: 0 <= k < |ms| && StartLine(ms[k]) <= nr
    ensures i < |ms| && StartLine(ms[i]) <= nr
    ensures forall k :: 0 <= k < |ms| && StartLine(ms[k]) <= nr ==> StartLine(ms[k]) <= StartLine(ms[i])
  {
    var i0 :| 0 <= i0 < |ms| && StartLine(ms[i0]) <= nr;
    i := i0;
    var n := 0;
    while n < |ms|
      invariant n <= |ms| && i < |ms| && StartLine(ms[i]) <= nr
      invariant forall k :: 0 <= k < n && StartLine(ms[k]) <= nr ==> StartLine(ms[k]) <= StartLine(ms[i])
    {
      if StartLine(ms[n]) <= nr && StartLine(ms[n]) > StartLine(ms[i]) {
        i := n;
      }
      n := n + 1;
    }
  }

  /** A line below the sentinel at or after some method's start line is
      owned by the method with the greatest such start line. */
  lemma LatestStartOwns(ms: seq<Method>, nr: int) returns (i: nat)
    requires nr < Sentinel
    requires exists k :: 0 <= k < |ms| && StartLine(ms[k]) <= nr
    ensures i < |ms| && Owns(ms, i, nr)
    ensures forall k :: 0 <= k < |ms| && StartLine(ms[k]) <= nr ==> StartLine(ms[k]) <= StartLine(ms[i])
  {
    i := LatestStartAtMost(ms, nr);
    NextStartIsLeastLater(ms, StartLine(ms[i]));
    match NextStart(ms, StartLine(ms[i]))
    case None =>
    case Some(v) =>
      var k :| 0 <= k < |ms| && StartLine(ms[k]) == v;
      assert LineIsAfter(ms[k], StartLine(ms[i]));
  }

  /** No method starting after an owner's start line and at or before the
      line can exist: the owner's range would have ended there. */
  lemma OwnerStartsLatest(ms: seq<Method>, nr: int, i: nat, k: nat)
    requires i < |ms| && k < |ms| && Owns(ms, i, nr) && StartLine(ms[k]) <= nr
    ensures StartLine(ms[k]) <= StartLine(ms[i])
  {
    NextStartIsLeastLater(ms, StartLine(ms[i]));
  }

  /** For a line below the sentinel: it has an owner exactly when some
      method starts at or before it; every owner has the greatest start line
      not after the line; and every method starting there owns it. */
  lemma {:induction false} Attribution(ms: seq<Method>, nr: int)
    requires nr < Sentinel
    ensures (exists i :: 0 <= i < |ms| && Owns(ms, i, nr)) <==> exists k :: 0 <= k < |ms| && StartLine(ms[k]) <= nr
    ensures forall i, k :: 0 <= i < |ms| && 0 <= k < |ms| && Owns(ms, i, nr) && StartLine(ms[k]) <= nr
                          ==> StartLine(ms[k]) <= StartLine(ms[i])
    ensures forall i, j :: 0 <= i < |ms| && 0 <= j < |ms| && Owns(ms, i, nr) && StartLine(ms[j]) == StartLine(ms[i])
                          ==> Owns(ms, j, nr)
  {
    if exists k :: 0 <= k < |ms| && StartLine(ms[k]) <= nr {
      var i := LatestStartOwns(ms, nr);
    }
    forall i, k | 0 <= i < |ms| && 0 <= k < |ms| && Owns(ms, i, nr) && StartLine(ms[k]) <= nr
      ensures StartLine(ms[k]) <= StartLine(ms[i])
    {
      OwnerStartsLatest(ms, nr, i, k);
    }
  }

  /** A line is attributed to the `i`-th method exactly when the method
      owns its number. */
  lemma AttributedIffOwned(ms: seq<Method>, ls: seq<Line>, i: nat, l: Line)
    requires i < |ms|
    ensures l in MethodLines(ms[i], ms, ls) <==> l in ls && Owns(ms, i, l.nr)
  {
    LinesInRangeMembers(ls, StartLine(ms[i]), EndLine(ms, StartLine(ms[i])));
  }

  /** With pairwise distinct start lines, every line from the first start
      line up to the sentinel belongs to exactly one method, and a line
      before every start line belongs to none. */
  lemma {:induction false} DistinctStartsPartition(ms: seq<Method>, ls: seq<Line>, l: Line)
    requires forall i, j :: 0 <= i < j < |ms| ==> StartLine(ms[i]) != StartLine(ms[j])
    requires l in ls && l.nr < Sentinel
    ensures (forall k :: 0 <= k < |ms| ==> StartLine(ms[k]) > l.nr)
            ==> forall i :: 0 <= i < |ms| ==> l !in MethodLines(ms[i], ms, ls)
    ensures (exists k :: 0 <= k < |ms| && StartLine(ms[k]) <= l.nr)
            ==> exists i :: 0 <= i < |ms| && l in MethodLines(ms[i], ms, ls)
                            && forall j :: 0 <= j < |ms| && l in MethodLines(ms[j], ms, ls) ==> j == i
  {
    forall i | 0 <= i < |ms|
      ensures l in MethodLines(ms[i], ms, ls) <==> Owns(ms, i, l.nr)
    {
      AttributedIffOwned(ms, ls, i, l);
    }
    if exists k :: 0 <= k < |ms| && StartLine(ms[k]) <= l.nr {
      var i := LatestStartOwns(ms, l.nr);
      forall j | 0 <= j < |ms| && l in MethodLines(ms[j], ms, ls)
        ensures j == i
      {
        OwnerStartsLatest(ms, l.nr, i, j);
        OwnerStartsLatest(ms, l.nr, j, i);
      }
    }
  }

  /** Two methods with the same start line get the same lines. */
  lemma SharedStartSameLines(ms: seq<Method>, ls: seq<Line>, i: nat, j: nat)
    requires i < |ms| && j < |ms| && StartLine(ms[i]) == StartLine(ms[j])
    ensures MethodLines(ms[i], ms, ls) == MethodLines(ms[j], ms, ls)
  {
  }

  /** An example class: methods starting at lines 10, 25 and 25. */
  function ExampleMethods(): seq<Method>
  {
    [Method("a", "()V", Some(10), []), Method("b", "()V", Some(25), []), Method("c", "()V", Some(25), [])]
  }

  /** The example class's lines 10, 24, 25 and 30. */
  function ExampleLines(): seq<Line>
  {
    [Line(10, 0, 0, 1), Line(24, 0, 0, 1), Line(25, 0, 0, 1), Line(30, 0, 0, 1)]
  }

  /** In the example, the first range ends at the next larger start and
      the shared one at the sentinel. */
  lemma ExampleEnds()
    ensures EndLine(ExampleMethods(), 10) == 25
    ensures EndLine(ExampleMethods(), 25) == Sentinel
  {
    var ms := ExampleMethods();
    assert ms[1..][1..] == ms[2..] && ms[2..][1..] == [];
    assert NextStart(ms[2..], 10) == Some(25) && NextStart(ms[1..], 10) == Some(25);
    assert NextStart(ms[2..], 25) == None && NextStart(ms[1..], 25) == None;
  }

  /** In the example, each range selects a run of lines. */
  lemma ExampleFirstRange()
    ensures LinesInRange(ExampleLines(), 10, 25) == ExampleLines()[..2]
  {
  }

  lemma ExampleSharedRange()
    ensures LinesInRange(ExampleLines(), 25, Sentinel) == ExampleLines()[2..]
  {
  }

  /** Over methods starting at lines 10, 25 and 25 and lines 10, 24, 25 and
      30, the first method stops before the next larger start line and the
      two methods sharing line 25 both get lines 25 and 30. */
  lemma SharedStartExample()
    ensures MethodLines(ExampleMethods()[0], ExampleMethods(), ExampleLines()) == ExampleLines()[..2]
    ensures MethodLines(ExampleMethods()[1], ExampleMethods(), ExampleLines()) == ExampleLines()[2..]
    ensures MethodLines(ExampleMethods()[2], ExampleMethods(), ExampleLines()) == ExampleLines()[2..]
  {
    ExampleEnds();
    ExampleFirstRange();
    ExampleSharedRange();
  }
}
