/**
 * The simplified-prompt experiment's verdict: how a new grade compares with
 * the B- and C-series grades of the same scenario, measured as distance from
 * 4.95. The first matching case of IMPROVED, NOW MEETS TARGET, SAME and WORSE
 * is reported.
 */
module SimplifiedPrompt {
  import opened Text
  import opened Options
  import opened Quality

  /** The B- and C-series grades of one scenario. */
  datatype Previous = Previous(b: real, c: real)

  const PreviousResults: map<String, Previous> := map[
    "Acetaminophen" := Previous(5.8, 7.3),
    "Hip Surgery" := Previous(4.8, 5.4),
    "Diabetes" := Previous(5.1, 4.4),
    "Heart Failure" := Previous(3.5, 3.1),
    "Wound Care" := Previous(3.6, 4.2)]

  datatype Status = Improved | NowMeetsTarget | Same | Worse

  function Min(x: real, y: real): real {
    if x <= y then x else y
  }

  /** `min(b_distance, c_distance)`. */
  function BestPrevious(prev: Previous): real {
    Min(Distance(prev.b), Distance(prev.c))
  }

  /** Both earlier grades missed the band. */
  predicate PreviouslyMissed(prev: Previous) {
    !TargetMet(prev.b) && !TargetMet(prev.c)
  }

  /** The if/elif chain. Exactly one status is chosen: IMPROVED when strictly closer than
      the better earlier grade; otherwise NOW MEETS TARGET when the band is met and both
      earlier grades missed it; otherwise SAME on a tie and WORSE when further away. */
  function DecideStatus(grade: real, prev: Previous): (s: Status)
    ensures s == Improved <==> Distance(grade) < BestPrevious(prev)
    ensures s == NowMeetsTarget <==>
      Distance(grade) >= BestPrevious(prev) && TargetMet(grade) && PreviouslyMissed(prev)
    ensures s == Same <==>
      Distance(grade) == BestPrevious(prev) && !(TargetMet(grade) && PreviouslyMissed(prev))
    ensures s == Worse <==>
      Distance(grade) > BestPrevious(prev) && !(TargetMet(grade) && PreviouslyMissed(prev))
  {
    var dDistance := Distance(grade);
    var bestPrevious := BestPrevious(prev);
    if dDistance < bestPrevious then Improved
    else if TargetMet(grade) && !TargetMet(prev.b) && !TargetMet(prev.c) then NowMeetsTarget
    else if dDistance == bestPrevious then Same
    else Worse
  }

  /** The status printed for a scenario, when the scenario has earlier results. */
  function ScenarioStatus(scenario: String, grade: real): (r: Option<Status>)
    ensures r.Some? <==> scenario in PreviousResults
    ensures r.Some? ==> r.value == DecideStatus(grade, PreviousResults[scenario])
  {
    if scenario in PreviousResults then Some(DecideStatus(grade, PreviousResults[scenario])) else None
  }

  /** Because 4.95 sits below the band's midpoint, NOW MEETS TARGET needs a grade that is
      in the band and yet no closer than two grades outside it: only (5.4, 5.5] qualifies. */
  lemma NowMeetsTargetOnlyNearTop(grade: real, prev: Previous)
    requires DecideStatus(grade, prev) == NowMeetsTarget
    ensures 5.4 < grade <= 5.5
  {
    MissedIsFar(prev.b);
    MissedIsFar(prev.c);
  }

  /** For the five recorded scenarios NOW MEETS TARGET is never reported: wherever both
      earlier grades missed the band, the better of them is more than 0.55 from 4.95, so
      every grade in the band counts as IMPROVED. */
  lemma NowMeetsTargetNeverReported(scenario: String, grade: real)
    requires scenario in PreviousResults
    ensures DecideStatus(grade, PreviousResults[scenario]) != NowMeetsTarget
  {
    var prev := PreviousResults[scenario];
    if DecideStatus(grade, prev) == NowMeetsTarget {
      NowMeetsTargetOnlyNearTop(grade, prev);
      assert false;
    }
  }

  /** NOW MEETS TARGET is reachable for other earlier grades: 5.5 against two grades
      of 4.4 is 0.55 away from 4.95 either way. */
  lemma NowMeetsTargetReachable()
    ensures DecideStatus(5.5, Previous(4.4, 4.4)) == NowMeetsTarget
  {
  }
}
