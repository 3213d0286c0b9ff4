/**
 * The reading-level harness of the A series: one pass over the five
 * scenarios that records a result for every scenario whose generated text is
 * non-empty, then the summary averages and the count of results in the target
 * band. The three A scripts share this logic (they differ only in prompts and
 * in the name of the achieved-grade field).
 *
 * Generation is a given list of decoded texts, one per scenario, and the
 * Flesch-Kincaid grade is a given function `fk` from text to grade.
 */
module Harness {
  import opened Text
  import opened Sections
  import opened Options
  import opened Quality

  /** The baseline grades of the five scenarios, in scenario order. */
  const BaselineGrades: seq<real> := [9.5, 9.6, 10.2, 9.7, 8.6]

  /** One entry of `results`. */
  datatype ScenarioResult = ScenarioResult(
    scenario: String,
    baseline: real,
    achieved: real,
    reduction: real,
    targetMet: bool)

  /** The record appended for the 1-based scenario `idx` whose text has grade `grade`. */
  function ResultFor(name: String, idx: nat, grade: real): (r: ScenarioResult)
    requires 1 <= idx <= |BaselineGrades|
    ensures r.scenario == name && r.achieved == grade
    ensures r.baseline == BaselineGrades[idx - 1]
    ensures r.baseline - r.reduction == grade
    ensures r.targetMet <==> 4.5 <= grade <= 5.5
  {
    var baseline := BaselineGrades[idx - 1];
    ScenarioResult(name, baseline, grade, baseline - grade, TargetMet(grade))
  }

  /** `if result:` after `.strip()`: generation produced some non-blank text. */
  predicate Produced(result: String) {
    result != []
  }

  /** The results after the first `|decoded|` scenarios. */
  function Accumulated(names: seq<String>, decoded: seq<String>, fk: String -> real): (r: seq<ScenarioResult>)
    requires |names| == |decoded| <= |BaselineGrades|
    ensures |r| <= |decoded|
  {
    if decoded == [] then []
    else
      var n := |decoded| - 1;
      var result := Strip(decoded[n]);
      Accumulated(names[..n], decoded[..n], fk) +
        (if Produced(result) then [ResultFor(names[n], n + 1, fk(result))] else [])
  }

  /** The scenario loop: `results` grows by one record for each scenario with output. */
  method RunScenarios(names: seq<String>, decoded: seq<String>, fk: String -> real)
    returns (results: seq<ScenarioResult>)
    requires |names| == |decoded| <= |BaselineGrades|
    ensures results == Accumulated(names, decoded, fk)
  {
    results := [];
    var idx := 1;
    while idx <= |names|
      invariant 1 <= idx <= |names| + 1
      invariant results == Accumulated(names[..idx - 1], decoded[..idx - 1], fk)
    {
      AccumulatedStep(names, decoded, fk, idx - 1);
      results := RecordScenario(results, names[idx - 1], idx, decoded[idx - 1], fk);
      idx := idx + 1;
    }
    assert names[..idx - 1] == names && decoded[..idx - 1] == decoded;
  }

  /** One pass of the loop body: strip the decoded text and, when it is not blank,
      grade it and append the scenario's record. */
  method RecordScenario(results: seq<ScenarioResult>, name: String, idx: nat, decoded: String, fk: String -> real)
    returns (results': seq<ScenarioResult>)
    requires 1 <= idx <= |BaselineGrades|
    ensures var result := Strip(decoded);
      results' == results + (if Produced(result) then [ResultFor(name, idx, fk(result))] else [])
  {
    results' := results;
    var result := Strip(decoded);
    if result != [] {
      var grade := fk(result);
      var baseline := BaselineGrades[idx - 1];
      var reduction := baseline - grade;
      var record := ScenarioResult(name, baseline, grade, reduction, 4.5 <= grade <= 5.5);
      RecordFields(name, idx, grade, record);
      results' := results' + [record];
    }
  }

  /** The record the loop builds field by field is the scenario's record. */
  lemma RecordFields(name: String, idx: nat, grade: real, record: ScenarioResult)
    requires 1 <= idx <= |BaselineGrades|
    requires record == ScenarioResult(name, BaselineGrades[idx - 1], grade, BaselineGrades[idx - 1] - grade, 4.5 <= grade <= 5.5)
    ensures record == ResultFor(name, idx, grade)
  {
  }

  /** One more scenario: the results over a prefix grow by its record when it has output. */
  lemma AccumulatedStep(names: seq<String>, decoded: seq<String>, fk: String -> real, i: nat)
    requires |names| == |decoded| <= |BaselineGrades| && i < |decoded|
    ensures var result := Strip(decoded[i]);
      Accumulated(names[..i + 1], decoded[..i + 1], fk) ==
      Accumulated(names[..i], decoded[..i], fk) +
        (if Produced(result) then [ResultFor(names[i], i + 1, fk(result))] else [])
  {
    assert names[..i + 1][..i] == names[..i];
    assert decoded[..i + 1][..i] == decoded[..i];
  }

  /** The record every scenario would get, whether or not it has output. */
  function Records(names: seq<String>, decoded: seq<String>, fk: String -> real): seq<ScenarioResult>
    requires |names| == |decoded| <= |BaselineGrades|
  {
    seq(|decoded|, j requires 0 <= j < |decoded| => ResultFor(names[j], j + 1, fk(Strip(decoded[j]))))
  }

  lemma RecordsPrefix(names: seq<String>, decoded: seq<String>, fk: String -> real, n: nat)
    requires |names| == |decoded| <= |BaselineGrades| && n <= |decoded|
    ensures Records(names[..n], decoded[..n], fk) == Records(names, decoded, fk)[..n]
  {
  }

  /** Picking one more record keeps every picked entry equal to the record it points at. */
  lemma PickExtend(acc: seq<ScenarioResult>, idx: seq<nat>, recs: seq<ScenarioResult>, n: nat, b: bool)
    requires n < |recs| && |acc| == |idx|
    requires forall k :: 0 <= k < |idx| ==> idx[k] < n && acc[k] == recs[idx[k]]
    ensures var acc', idx' := acc + (if b then [recs[n]] else []), idx + (if b then [n] else []);
      |acc'| == |idx'| &&
      forall k :: 0 <= k < |idx'| ==> idx'[k] < n + 1 && acc'[k] == recs[idx'[k]]
  {
  }

  /** Entry k of the results is the record of scenario `idx[k]`. */
  lemma {:induction false} AccumulatedEntries(names: seq<String>, decoded: seq<String>, fk: String -> real)
    requires |names| == |decoded| <= |BaselineGrades|
    ensures |Accumulated(names, decoded, fk)| == |SelectedIndices(decoded, Produced)|
    ensures forall k :: 0 <= k < |SelectedIndices(decoded, Produced)| ==>
      SelectedIndices(decoded, Produced)[k] < |decoded| &&
      Accumulated(names, decoded, fk)[k] == Records(names, decoded, fk)[SelectedIndices(decoded, Produced)[k]]
  {
    if decoded != [] {
      var n := |decoded| - 1;
      AccumulatedEntries(names[..n], decoded[..n], fk);
      RecordsPrefix(names, decoded, fk, n);
      var recs := Records(names, decoded, fk);
      var acc, idx := Accumulated(names[..n], decoded[..n], fk), SelectedIndices(decoded[..n], Produced);
      var b := Produced(Strip(decoded[n]));
      assert recs[n] == ResultFor(names[n], n + 1, fk(Strip(decoded[n])));
      assert Accumulated(names, decoded, fk) == acc + (if b then [recs[n]] else []);
      assert SelectedIndices(decoded, Produced) == idx + (if b then [n] else []);
      PickExtend(acc, idx, recs, n, b);
    }
  }

  /** Results are recorded exactly for the scenarios with output, once each, in scenario
      order: entry k belongs to scenario `idx[k]` (0-based) and is its record. */
  lemma AccumulatedCharacterization(names: seq<String>, decoded: seq<String>, fk: String -> real)
    requires |names| == |decoded| <= |BaselineGrades|
    ensures |Accumulated(names, decoded, fk)| == |SelectedIndices(decoded, Produced)|
    ensures forall k :: 0 <= k < |SelectedIndices(decoded, Produced)| ==>
      SelectedIndices(decoded, Produced)[k] < |decoded| &&
      Accumulated(names, decoded, fk)[k] ==
        ResultFor(names[SelectedIndices(decoded, Produced)[k]], SelectedIndices(decoded, Produced)[k] + 1,
                  fk(Strip(decoded[SelectedIndices(decoded, Produced)[k]])))
  {
    AccumulatedEntries(names, decoded, fk);
  }

  /** The outcome of a run: scenario `j` (0-based) has its record among the results iff
      its output is non-blank, and there are at most as many results as scenarios. The
      baseline grades are distinct, so a record names its scenario. */
  lemma ResultsFollowScenarios(names: seq<String>, decoded: seq<String>, fk: String -> real)
    requires |names| == |decoded| <= |BaselineGrades|
    ensures |Accumulated(names, decoded, fk)| <= |names|
    ensures forall j :: 0 <= j < |decoded| ==>
      (Produced(Strip(decoded[j])) <==> ResultFor(names[j], j + 1, fk(Strip(decoded[j]))) in Accumulated(names, decoded, fk))
  {
    AccumulatedCharacterization(names, decoded, fk);
    SelectedIndicesBound(decoded, Produced);
    var acc := Accumulated(names, decoded, fk);
    forall j | 0 <= j < |decoded|
      ensures Produced(Strip(decoded[j])) <==> ResultFor(names[j], j + 1, fk(Strip(decoded[j]))) in acc
    {
      ScenarioRecord(names, decoded, fk, j);
    }
  }

  /** One scenario: its record is among the results iff its output is non-blank. */
  lemma ScenarioRecord(names: seq<String>, decoded: seq<String>, fk: String -> real, j: nat)
    requires |names| == |decoded| <= |BaselineGrades| && j < |decoded|
    ensures Produced(Strip(decoded[j])) <==> ResultFor(names[j], j + 1, fk(Strip(decoded[j]))) in Accumulated(names, decoded, fk)
  {
    if Produced(Strip(decoded[j])) {
      ProducedRecorded(names, decoded, fk, j);
    } else if ResultFor(names[j], j + 1, fk(Strip(decoded[j]))) in Accumulated(names, decoded, fk) {
      RecordedProduced(names, decoded, fk, j);
    }
  }

  lemma ProducedRecorded(names: seq<String>, decoded: seq<String>, fk: String -> real, j: nat)
    requires |names| == |decoded| <= |BaselineGrades| && j < |decoded|
    requires Produced(Strip(decoded[j]))
    ensures ResultFor(names[j], j + 1, fk(Strip(decoded[j]))) in Accumulated(names, decoded, fk)
  {
    AccumulatedCharacterization(names, decoded, fk);
    SelectedIndicesMembership(decoded, Produced);
    PickedIsMember(Accumulated(names, decoded, fk), SelectedIndices(decoded, Produced), j,
                   ResultFor(names[j], j + 1, fk(Strip(decoded[j]))));
  }

  /** An entry picked for index `j` is among the picked entries. */
  lemma PickedIsMember(acc: seq<ScenarioResult>, idx: seq<nat>, j: nat, x: ScenarioResult)
    requires |acc| == |idx| && j in idx
    requires forall k :: 0 <= k < |idx| && idx[k] == j ==> acc[k] == x
    ensures x in acc
  {
    var k :| 0 <= k < |idx| && idx[k] == j;
    assert acc[k] == x;
  }

  lemma RecordedProduced(names: seq<String>, decoded: seq<String>, fk: String -> real, j: nat)
    requires |names| == |decoded| <= |BaselineGrades| && j < |decoded|
    requires ResultFor(names[j], j + 1, fk(Strip(decoded[j]))) in Accumulated(names, decoded, fk)
    ensures Produced(Strip(decoded[j]))
  {
    AccumulatedCharacterization(names, decoded, fk);
    SelectedIndicesMembership(decoded, Produced);
    var acc, idx := Accumulated(names, decoded, fk), SelectedIndices(decoded, Produced);
    var k :| 0 <= k < |acc| && acc[k] == ResultFor(names[j], j + 1, fk(Strip(decoded[j])));
    BaselinesDistinct(idx[k], j);
    assert idx[k] in idx;
  }

  /** No two scenarios share a baseline grade. */
  lemma BaselinesDistinct(i: nat, j: nat)
    requires i < |BaselineGrades| && j < |BaselineGrades|
    requires BaselineGrades[i] == BaselineGrades[j]
    ensures i == j
  {
  }

  /** There are at most as many selected indices as pieces. */
  lemma {:induction false} SelectedIndicesBound(parts: seq<String>, keep: String -> bool)
    ensures |SelectedIndices(parts, keep)| <= |parts|
  {
    if parts != [] {
      SelectedIndicesBound(parts[..|parts| - 1], keep);
    }
  }

  // ---------------------------------------------------------------------------
  // Summary
  // ---------------------------------------------------------------------------

  /** The averages and the band count printed under the results table. */
  datatype Summary = Summary(avgBaseline: real, avgAchieved: real, avgReduction: real, targetCount: nat)

  /** Dividing by `len(results)` when there are none raises ZeroDivisionError. */
  datatype SummaryError = DivisionByZero

  function SumBaseline(results: seq<ScenarioResult>): real {
    if results == [] then 0.0 else SumBaseline(results[..|results| - 1]) + results[|results| - 1].baseline
  }

  function SumAchieved(results: seq<ScenarioResult>): real {
    if results == [] then 0.0 else SumAchieved(results[..|results| - 1]) + results[|results| - 1].achieved
  }

  function SumReduction(results: seq<ScenarioResult>): real {
    if results == [] then 0.0 else SumReduction(results[..|results| - 1]) + results[|results| - 1].reduction
  }

  /** `sum(1 for r in results if r["target_met"])`. */
  function CountTargetMet(results: seq<ScenarioResult>): nat {
    if results == [] then 0
    else CountTargetMet(results[..|results| - 1]) + (if results[|results| - 1].targetMet then 1 else 0)
  }

  /** The summary lines, or the division error on an empty list. */
  function Summarize(results: seq<ScenarioResult>): (s: Result<Summary, SummaryError>)
    ensures s.Failure? <==> results == []
  {
    if results == [] then Failure(DivisionByZero)
    else
      var n := |results| as real;
      var avgBaseline := SumBaseline(results) / n;
      var avgAchieved := SumAchieved(results) / n;
      Success(Summary(avgBaseline, avgAchieved, avgBaseline - avgAchieved, CountTargetMet(results)))
  }

  /** A record as the loop builds it: reduction is baseline minus grade, and the flag is
      the band test of the grade. */
  predicate WellFormed(r: ScenarioResult) {
    r.reduction == r.baseline - r.achieved && r.targetMet == TargetMet(r.achieved)
  }

  lemma AccumulatedWellFormed(names: seq<String>, decoded: seq<String>, fk: String -> real)
    requires |names| == |decoded| <= |BaselineGrades|
    ensures forall k :: 0 <= k < |Accumulated(names, decoded, fk)| ==> WellFormed(Accumulated(names, decoded, fk)[k])
  {
    AccumulatedCharacterization(names, decoded, fk);
  }

  lemma {:induction false} SumsAgree(results: seq<ScenarioResult>)
    requires forall k :: 0 <= k < |results| ==> WellFormed(results[k])
    ensures SumReduction(results) == SumBaseline(results) - SumAchieved(results)
  {
    if results != [] {
      SumsAgree(results[..|results| - 1]);
    }
  }

  /** The number of records whose grade lies in the band. */
  function CountInBand(results: seq<ScenarioResult>): nat {
    if results == [] then 0
    else CountInBand(results[..|results| - 1]) + (if TargetMet(results[|results| - 1].achieved) then 1 else 0)
  }

  lemma {:induction false} CountsAgree(results: seq<ScenarioResult>)
    requires forall k :: 0 <= k < |results| ==> WellFormed(results[k])
    ensures CountTargetMet(results) == CountInBand(results) <= |results|
  {
    if results != [] {
      CountsAgree(results[..|results| - 1]);
    }
  }

  /** The summary of non-empty, well-formed results: `avg_reduction` is the mean of the
      per-scenario reductions, and `target_count` is the number of results whose grade
      lies in [4.5, 5.5], so at most the number of results. */
  lemma SummaryOfResults(results: seq<ScenarioResult>)
    requires results != []
    requires forall k :: 0 <= k < |results| ==> WellFormed(results[k])
    ensures Summarize(results).Success?
    ensures Summarize(results).value.avgReduction == SumReduction(results) / (|results| as real)
    ensures Summarize(results).value.targetCount == CountInBand(results) <= |results|
  {
    SumsAgree(results);
    CountsAgree(results);
    MeanOfDifference(SumBaseline(results), SumAchieved(results), |results| as real);
  }

  lemma MeanOfDifference(a: real, b: real, n: real)
    requires n > 0.0
    ensures a / n - b / n == (a - b) / n
  {
  }

  /** The summary of a run with some output: the mean reduction, and a band count of at
      most five. */
  lemma SummaryOfRun(names: seq<String>, decoded: seq<String>, fk: String -> real)
    requires |names| == |decoded| <= |BaselineGrades|
    requires Accumulated(names, decoded, fk) != []
    ensures Summarize(Accumulated(names, decoded, fk)).Success?
    ensures Summarize(Accumulated(names, decoded, fk)).value.avgReduction ==
      SumReduction(Accumulated(names, decoded, fk)) / (|Accumulated(names, decoded, fk)| as real)
    ensures Summarize(Accumulated(names, decoded, fk)).value.targetCount == CountInBand(Accumulated(names, decoded, fk))
    ensures Summarize(Accumulated(names, decoded, fk)).value.targetCount <= |Accumulated(names, decoded, fk)| <= 5
  {
    AccumulatedWellFormed(names, decoded, fk);
    ResultsFollowScenarios(names, decoded, fk);
    SummaryOfResults(Accumulated(names, decoded, fk));
  }

  /** A run with no output at all has no results, so the summary fails. */
  lemma NoOutputNoSummary(names: seq<String>, decoded: seq<String>, fk: String -> real)
    requires |names| == |decoded| <= |BaselineGrades|
    requires forall j :: 0 <= j < |decoded| ==> AllSpace(decoded[j])
    ensures Accumulated(names, decoded, fk) == []
    ensures Summarize(Accumulated(names, decoded, fk)) == Failure(DivisionByZero)
  {
    AccumulatedCharacterization(names, decoded, fk);
    SelectCharacterization(decoded, Produced);
    var idx := SelectedIndices(decoded, Produced);
    if idx != [] {
      assert idx[0] in idx;
      StripAllSpace(decoded[idx[0]]);
    }
  }

  /** The sums and the count over one more record. */
  lemma SumsStep(results: seq<ScenarioResult>, i: nat)
    requires i < |results|
    ensures SumBaseline(results[..i + 1]) == SumBaseline(results[..i]) + results[i].baseline
    ensures SumAchieved(results[..i + 1]) == SumAchieved(results[..i]) + results[i].achieved
    ensures CountTargetMet(results[..i + 1]) == CountTargetMet(results[..i]) + (if results[i].targetMet then 1 else 0)
  {
    assert results[..i + 1][..i] == results[..i];
  }

  /** The five-scenario batch with grades 5.8, 4.8, 5.1, 3.5 and 3.6: mean baseline 9.52,
      mean grade 4.56, mean reduction 4.96, two results in the band. */
  lemma BatchExample(results: seq<ScenarioResult>)
    requires results == [
      ResultFor("Acetaminophen", 1, 5.8), ResultFor("Hip Surgery", 2, 4.8), ResultFor("Diabetes", 3, 5.1),
      ResultFor("Heart Failure", 4, 3.5), ResultFor("Wound Care", 5, 3.6)]
    ensures Summarize(results) == Success(Summary(9.52, 4.56, 4.96, 2))
  {
    assert results[..0] == [];
    SumsStep(results, 0);
    SumsStep(results, 1);
    SumsStep(results, 2);
    SumsStep(results, 3);
    SumsStep(results, 4);
    assert results[..5] == results;
  }
}
