/** Translation of a JaCoCo `<line>` into a Cobertura `<line>`: hit flag,
    branch flag, the "P% (covered/total)" condition coverage and the one
    synthetic jump condition. */
module LineConversion {
  import opened Wrappers
  import opened Text
  import Jacoco
  import Cobertura

  /** A part of a whole is at most 100 percent of it, and exactly 100
      only when it is the whole. */
  lemma WholePercent(part: nat, whole: nat)
    requires 0 < whole && part <= whole
    ensures (100 * part) / whole <= 100
    ensures (100 * part) / whole == 100 <==> part == whole
  {
    assert (100 * part) / whole * whole + (100 * part) % whole == 100 * part;
  }

  /** The whole percentage of covered branches, rounded down. */
  function BranchPercent(covered: nat, missed: nat): (p: nat)
    requires covered + missed > 0
    ensures p <= 100
    ensures p * (covered + missed) <= 100 * covered < (p + 1) * (covered + missed)
    ensures p == 100 <==> missed == 0
  {
    var total := covered + missed;
    WholePercent(covered, total);
    assert (100 * covered) / total * total + (100 * covered) % total == 100 * covered;
    (100 * covered) / total
  }

  /** The percentage as text, "P%". */
  function PercentText(p: nat): string
  {
    NatToString(p) + "%"
  }

  /** The `condition-coverage` text, "P% (covered/total)". */
  function ConditionCoverageText(p: nat, covered: nat, total: nat): string
  {
    PercentText(p) + " (" + NatToString(covered) + "/" + NatToString(total) + ")"
  }

  /** What a `condition-coverage` text states. */
  datatype BranchSummary = BranchSummary(percent: nat, covered: nat, total: nat)

  /** Reads a "P% (covered/total)" text back; nothing for any other shape. */
  function ParseConditionCoverage(s: string): Option<BranchSummary>
  {
    var i := DigitPrefixLength(s);
    if i == 0 || !("% (" <= s[i..]) then None
    else ParseCoveredTotal(ParseNat(s[..i]), s[i + 3..])
  }

  /** Reads the "covered/total)" part that follows "P% (". */
  function ParseCoveredTotal(p: nat, t: string): Option<BranchSummary>
  {
    var j := DigitPrefixLength(t);
    if j == 0 || j == |t| || t[j] != '/' then None
    else ParseTotal(p, ParseNat(t[..j]), t[j + 1..])
  }

  /** Reads the "total)" part that ends the text. */
  function ParseTotal(p: nat, covered: nat, u: string): Option<BranchSummary>
  {
    var k := DigitPrefixLength(u);
    if k == 0 || u[k..] != ")" then None
    else Some(BranchSummary(p, covered, ParseNat(u[..k])))
  }

  /** Each stage of the parser reads one digit run and its delimiter. */
  lemma ParseTotalSplit(p: nat, covered: nat, d: string)
    requires |d| >= 1 && AllDigits(d)
    ensures ParseTotal(p, covered, d + ")") == Some(BranchSummary(p, covered, ParseNat(d)))
  {
    DigitPrefixOf(d, ")");
  }

  lemma ParseCoveredTotalSplit(p: nat, b: string, u: string)
    requires |b| >= 1 && AllDigits(b)
    ensures ParseCoveredTotal(p, b + ("/" + u)) == ParseTotal(p, ParseNat(b), u)
  {
    var rest := "/" + u;
    var t := b + rest;
    DigitPrefixOf(b, rest);
    assert t[|b|..] == rest;
    assert t[|b|] == rest[0] == '/';
    assert t[|b| + 1..] == rest[1..] == u;
  }

  lemma ParseConditionCoverageSplit(a: string, t: string)
    requires |a| >= 1 && AllDigits(a)
    ensures ParseConditionCoverage(a + ("% (" + t)) == ParseCoveredTotal(ParseNat(a), t)
  {
    var rest := "% (" + t;
    var s := a + rest;
    DigitPrefixOf(a, rest);
    var i := DigitPrefixLength(s);
    assert i == |a| && s[..i] == a && s[i..] == rest;
    assert rest[..3] == "% (";
    assert "% (" <= s[i..];
    assert s[i + 3..] == rest[3..] == t;
  }

  lemma ParseConditionCoverageOf(p: nat, covered: nat, total: nat)
    ensures ParseConditionCoverage(NatToString(p) + ("% (" + (NatToString(covered) + ("/" + (NatToString(total) + ")")))))
            == Some(BranchSummary(p, covered, total))
  {
    var a, b, d := NatToString(p), NatToString(covered), NatToString(total);
    ParseConditionCoverageSplit(a, b + ("/" + (d + ")")));
    ParseCoveredTotalSplit(ParseNat(a), b, d + ")");
    ParseTotalSplit(ParseNat(a), ParseNat(b), d);
    ParseNatToString(p);
    ParseNatToString(covered);
    ParseNatToString(total);
  }

  /** The condition-coverage text states its three numbers unambiguously. */
  lemma ConditionCoverageRoundTrip(p: nat, covered: nat, total: nat)
    ensures ParseConditionCoverage(ConditionCoverageText(p, covered, total)) == Some(BranchSummary(p, covered, total))
  {
    assert ConditionCoverageText(p, covered, total)
        == NatToString(p) + ("% (" + (NatToString(covered) + ("/" + (NatToString(total) + ")"))));
    ParseConditionCoverageOf(p, covered, total);
  }

  /** A Cobertura line for a JaCoCo line. */
  function ConvertLine(l: Jacoco.Line): (r: Cobertura.Line)
    ensures r.number == l.nr
    ensures r.hits == "1" <==> l.ci > 0
    ensures r.hits == "0" <==> l.ci == 0
    ensures r.branch == "true" <==> l.mb + l.cb > 0
    ensures r.branch == "false" <==> l.mb + l.cb == 0
    ensures r.conditionCoverage.Some? <==> l.mb + l.cb > 0
    ensures l.mb + l.cb == 0 ==> r.conditions == []
  {
    var hits := if l.ci > 0 then "1" else "0";
    if l.mb + l.cb > 0 then
      var percentage := PercentText(BranchPercent(l.cb, l.mb));
      var text := ConditionCoverageText(BranchPercent(l.cb, l.mb), l.cb, l.cb + l.mb);
      Cobertura.Line(l.nr, hits, "true", Some(text), [Cobertura.Condition("0", "jump", percentage)])
    else
      Cobertura.Line(l.nr, hits, "false", None, [])
  }

  /** A line with branches carries a condition coverage that reads back as
      the percentage, the covered branches and the total, and exactly one
      jump condition whose coverage is that same percentage. */
  lemma ConvertLineBranches(l: Jacoco.Line)
    requires l.mb + l.cb > 0
    ensures var r := ConvertLine(l);
            var p := BranchPercent(l.cb, l.mb);
            && ParseConditionCoverage(r.conditionCoverage.value) == Some(BranchSummary(p, l.cb, l.cb + l.mb))
            && r.conditions == [Cobertura.Condition("0", "jump", PercentText(p))]
            && PercentText(p) <= r.conditionCoverage.value
  {
    var p := BranchPercent(l.cb, l.mb);
    var text := ConditionCoverageText(p, l.cb, l.cb + l.mb);
    assert ConvertLine(l).conditionCoverage == Some(text);
    ConditionCoverageRoundTrip(p, l.cb, l.cb + l.mb);
    PercentTextStartsCoverage(p, l.cb, l.cb + l.mb);
  }

  lemma PercentTextStartsCoverage(p: nat, covered: nat, total: nat)
    ensures PercentText(p) <= ConditionCoverageText(p, covered, total)
  {
    var rest := " (" + NatToString(covered) + "/" + NatToString(total) + ")";
    assert ConditionCoverageText(p, covered, total) == PercentText(p) + rest;
  }

  /** One converted line per input line, in the same order. */
  function ConvertedLines(ls: seq<Jacoco.Line>): seq<Cobertura.Line>
  {
    seq(|ls|, k requires 0 <= k < |ls| => ConvertLine(ls[k]))
  }

  /** Builds the `<lines>` of an element from the JaCoCo lines, in order. */
  method ConvertLines(ls: seq<Jacoco.Line>) returns (out: seq<Cobertura.Line>)
    ensures |out| == |ls|
    ensures forall k :: 0 <= k < |ls| ==> out[k] == ConvertLine(ls[k])
    ensures out == ConvertedLines(ls)
  {
    out := [];
    for k := 0 to |ls|
      invariant |out| == k
      invariant forall j :: 0 <= j < k ==> out[j] == ConvertLine(ls[j])
    {
      out := out + [ConvertLine(ls[k])];
    }
    assert out == ConvertedLines(ls);
  }

  /** Three covered and one missed branch give "75% (3/4)" and one jump
      condition at "75%"; no branches give a plain line. */
  lemma ConvertLineExamples()
    ensures ConvertLine(Jacoco.Line(7, 1, 3, 2))
            == Cobertura.Line(7, "1", "true", Some("75% (3/4)"), [Cobertura.Condition("0", "jump", "75%")])
    ensures ConvertLine(Jacoco.Line(8, 0, 0, 0)) == Cobertura.Line(8, "0", "false", None, [])
  {
    assert BranchPercent(3, 1) == 75;
    assert NatToString(75) == "75";
    assert NatToString(3) == "3" && NatToString(4) == "4";
    assert PercentText(75) == "75%";
    assert ConditionCoverageText(75, 3, 4) == "75% (3/4)";
  }
}
