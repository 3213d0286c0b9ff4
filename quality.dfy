/**
 * Output-quality checks run on a generated (Stage-2) text: the target band,
 * repetition, reasoning leak and the two hallucination heuristics.
 */
module Quality {
  import opened Text

  const TargetLow: real := 4.5
  const TargetHigh: real := 5.5

  /** `4.5 <= grade <= 5.5`: the grade lies in the closed target band. */
  predicate TargetMet(grade: real)
    ensures TargetMet(grade) <==> Abs(5.0 - grade) <= 0.5
  {
    TargetLow <= grade <= TargetHigh
  }

  /** Both ends belong to the band; the band is nothing wider. */
  lemma TargetBandInclusive(grade: real)
    ensures TargetMet(4.5) && TargetMet(5.5)
    ensures TargetMet(grade) ==> 4.5 <= grade <= 5.5
    ensures grade < 4.5 || 5.5 < grade ==> !TargetMet(grade)
  {
  }

  /** The point the comparisons measure closeness to (not the band's midpoint, 5.0). */
  const TargetMidpoint: real := 4.95

  function Abs(x: real): real {
    if x < 0.0 then -x else x
  }

  /** `abs(4.95 - grade)`. */
  function Distance(grade: real): real {
    Abs(TargetMidpoint - grade)
  }

  /** A grade outside the band is more than 0.45 from 4.95. */
  lemma MissedIsFar(g: real)
    requires !TargetMet(g)
    ensures Distance(g) > 0.45
  {
  }

  // ---------------------------------------------------------------------------
  // Repetition: len(result.split()) != len(set(result.split()))
  // ---------------------------------------------------------------------------

  /** The flag is raised exactly when the (case-sensitive) token list has a repeat. */
  predicate HasRepetition(result: String)
    ensures HasRepetition(result) <==> !Distinct(Words(result))
  {
    SetSizeDistinct(Words(result));
    |Words(result)| != |ToSet(Words(result))|
  }

  /** The flag is raised exactly when some (case-sensitive) token occurs twice. */
  lemma RepetitionIffRepeatedToken(result: String)
    ensures HasRepetition(result) <==>
      exists i, j :: 0 <= i < j < |Words(result)| && Words(result)[i] == Words(result)[j]
  {
    var ws := Words(result);
    SetSizeDistinct(ws);
    if !Distinct(ws) {
      var i, j :| 0 <= i < j < |ws| && ws[i] == ws[j];
    }
  }

  /** The number of distinct tokens never exceeds the number of tokens, and falls
      short of it exactly when the flag is raised. */
  lemma RepetitionCountsDistinctTokens(result: String)
    ensures |ToSet(Words(result))| <= |Words(result)|
    ensures HasRepetition(result) <==> |ToSet(Words(result))| < |Words(result)|
  {
    SetSizeDistinct(Words(result));
  }

  // ---------------------------------------------------------------------------
  // Reasoning leak: "<unused" in result or "thought" in result.lower()[:100]
  // ---------------------------------------------------------------------------

  const ReasoningWindow: nat := 100
  const ThoughtMarker: String := "thought"
  const UnusedTokenMarker: String := "<unused"

  /** `result.lower()[:100]`. */
  function Window(result: String): (w: String)
    ensures |w| <= ReasoningWindow && |w| <= |result|
  {
    Lower(result)[..if |result| < ReasoningWindow then |result| else ReasoningWindow]
  }

  /** "<unused" anywhere always raises the flag; "thought" raises it only when the
      lowercase text holds it (and, by ReasoningIffMarker, early enough). */
  predicate HasReasoning(result: String)
    ensures Contains(result, UnusedTokenMarker) ==> HasReasoning(result)
    ensures HasReasoning(result) ==>
              Contains(result, UnusedTokenMarker) || Contains(Lower(result), ThoughtMarker)
  {
    ContainsInPrefix(Lower(result), |Window(result)|, ThoughtMarker);
    Contains(result, UnusedTokenMarker) || Contains(Window(result), ThoughtMarker)
  }

  /** The leak flag holds iff "<unused" occurs anywhere, or "thought" (any case)
      occurs wholly inside the first 100 characters. */
  lemma ReasoningIffMarker(result: String)
    ensures HasReasoning(result) <==>
      Contains(result, UnusedTokenMarker) ||
      exists i :: 0 <= i && i + |ThoughtMarker| <= ReasoningWindow && OccursAt(Lower(result), ThoughtMarker, i)
  {
    var w := Window(result);
    assert w == Lower(result)[..|w|];
    if Contains(w, ThoughtMarker) {
      var i :| 0 <= i <= |w| - |ThoughtMarker| && OccursAt(w, ThoughtMarker, i);
      assert Lower(result)[i..i + |ThoughtMarker|] == w[i..i + |ThoughtMarker|];
      assert OccursAt(Lower(result), ThoughtMarker, i);
    }
    if exists i :: 0 <= i && i + |ThoughtMarker| <= ReasoningWindow && OccursAt(Lower(result), ThoughtMarker, i) {
      var i :| 0 <= i && i + |ThoughtMarker| <= ReasoningWindow && OccursAt(Lower(result), ThoughtMarker, i);
      assert w[i..i + |ThoughtMarker|] == Lower(result)[i..i + |ThoughtMarker|];
      assert OccursAt(w, ThoughtMarker, i);
    }
  }

  /** Text generated after a leak never hides it. */
  lemma ReasoningSurvivesAppend(result: String, more: String)
    requires HasReasoning(result)
    ensures HasReasoning(result + more)
  {
    ReasoningIffMarker(result);
    ReasoningIffMarker(result + more);
    LowerAppend(result, more);
    if Contains(result, UnusedTokenMarker) {
      ContainsExtend(result, more, UnusedTokenMarker);
    } else {
      var i :| 0 <= i && i + |ThoughtMarker| <= ReasoningWindow && OccursAt(Lower(result), ThoughtMarker, i);
      assert Lower(result + more)[i..i + |ThoughtMarker|] == Lower(result)[i..i + |ThoughtMarker|];
      assert OccursAt(Lower(result + more), ThoughtMarker, i);
    }
  }

  // ---------------------------------------------------------------------------
  // Hallucination risk: new lowercase tokens not in the Stage-1 text
  // ---------------------------------------------------------------------------

  const CommonWords: set<String> := {"the", "a", "an", "to", "if", "you", "your", "do", "not", "have", "or", "and"}
  const NewWordThreshold: nat := 15

  /** `set(text.lower().split())`. */
  function Vocabulary(text: String): (v: set<String>)
    ensures forall w :: w in v <==> w in Words(Lower(text))
    ensures |v| <= |Words(Lower(text))|
  {
    SetSizeDistinct(Words(Lower(text)));
    ToSet(Words(Lower(text)))
  }

  function SignificantNewWords(stage1: String, result: String): set<String> {
    Vocabulary(result) - Vocabulary(stage1) - CommonWords
  }

  /** More than 15 significant new tokens; so the output has more than 15 distinct tokens. */
  predicate HallucinationRisk(stage1: String, result: String)
    ensures HallucinationRisk(stage1, result) ==> |Vocabulary(result)| > NewWordThreshold
  {
    SubsetCardinality(SignificantNewWords(stage1, result), Vocabulary(result));
    |SignificantNewWords(stage1, result)| > NewWordThreshold
  }

  lemma SubsetCardinality<T>(a: set<T>, b: set<T>)
    requires a <= b
    ensures |a| <= |b|
  {
    assert b == a + (b - a);
  }

  /** The risk flag needs more than 15 distinct output tokens, hence more than 15 tokens. */
  lemma RiskNeedsManyTokens(stage1: String, result: String)
    requires HallucinationRisk(stage1, result)
    ensures |Vocabulary(result)| > NewWordThreshold
    ensures |Words(Lower(result))| > NewWordThreshold
  {
    SubsetCardinality(SignificantNewWords(stage1, result), Vocabulary(result));
    SetSizeDistinct(Words(Lower(result)));
  }

  /** An output that only reuses Stage-1 and common words never raises the flag. */
  lemma NoRiskWhenVocabularyCovered(stage1: String, result: String)
    requires Vocabulary(result) <= Vocabulary(stage1) + CommonWords
    ensures !HallucinationRisk(stage1, result)
  {
    assert SignificantNewWords(stage1, result) == {};
  }

  /** A richer Stage-1 vocabulary can only lower the risk. */
  lemma RiskAntitoneInStageOne(smaller: String, larger: String, result: String)
    requires Vocabulary(smaller) <= Vocabulary(larger)
    requires HallucinationRisk(larger, result)
    ensures HallucinationRisk(smaller, result)
  {
    SubsetCardinality(SignificantNewWords(larger, result), SignificantNewWords(smaller, result));
  }

  // ---------------------------------------------------------------------------
  // Likely hallucination: any fixed phrase in result.lower()
  // ---------------------------------------------------------------------------

  const HallucinationPhrases: seq<String> :=
    ["rest your body", "drink plenty", "avoid driving", "confusion", "dizziness", "trouble breathing"]

  /** Some phrase occurs in the lowercase text; every phrase has at least nine
      characters, so a shorter text is never flagged. */
  predicate LikelyHallucination(result: String)
    ensures LikelyHallucination(result) ==> |result| >= 9
  {
    exists k :: 0 <= k < |HallucinationPhrases| && Contains(Lower(result), HallucinationPhrases[k])
  }

  /** Surrounding a flagged text with more text keeps the flag. */
  lemma LikelyHallucinationPersists(result: String, before: String, after: String)
    requires LikelyHallucination(result)
    ensures LikelyHallucination(before + result + after)
  {
    var k :| 0 <= k < |HallucinationPhrases| && Contains(Lower(result), HallucinationPhrases[k]);
    LowerAppend(before, result);
    LowerAppend(before + result, after);
    ContainsExtend(Lower(result), Lower(before), HallucinationPhrases[k]);
    ContainsExtend(Lower(before) + Lower(result), Lower(after), HallucinationPhrases[k]);
  }

  /** The phrase test ignores letter case: an upper-case phrase is flagged too. */
  lemma LikelyHallucinationExample()
    ensures LikelyHallucination("Watch for DIZZINESS.")
  {
    var s: String := "Watch for DIZZINESS.";
    assert Lower(s)[10..19] == "dizziness";
    assert OccursAt(Lower(s), HallucinationPhrases[4], 10);
  }

  // ---------------------------------------------------------------------------
  // Repetition report: words seen more than 3 times, behind an any-duplicate guard
  // ---------------------------------------------------------------------------

  const RepetitionReportThreshold: nat := 3

  /** `[w for w in set(words) if words.count(w) > 3]`, as a set. */
  function RepeatedWords(words: seq<String>): (r: set<String>)
    ensures r <= ToSet(words)
    ensures |words| <= RepetitionReportThreshold ==> r == {}
  {
    set w | w in words && multiset(words)[w] > RepetitionReportThreshold
  }

  /** What is reported for `result`: nothing unless `len(words) != len(set(words))`. */
  function ReportedRepetition(result: String): (r: set<String>)
    ensures r <= Vocabulary(result)
    ensures forall w :: w in r ==> multiset(Words(Lower(result)))[w] > RepetitionReportThreshold
  {
    var words := Words(Lower(result));
    if |words| != |ToSet(words)| then RepeatedWords(words) else {}
  }

  /** The outer any-duplicate guard never suppresses a report: a lowercase token is
      reported exactly when it occurs more than 3 times. */
  lemma GuardNeverSuppresses(result: String, w: String)
    ensures ReportedRepetition(result) == RepeatedWords(Words(Lower(result)))
    ensures w in ReportedRepetition(result) <==> multiset(Words(Lower(result)))[w] > RepetitionReportThreshold
  {
    var words := Words(Lower(result));
    SetSizeDistinct(words);
    if |words| == |ToSet(words)| {
      forall v | v in words ensures multiset(words)[v] <= RepetitionReportThreshold {
        DistinctMultiplicity(words, v);
      }
    }
  }
}
