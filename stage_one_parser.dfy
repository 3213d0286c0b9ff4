/**
 * The improved Stage-1 parser (`normalize_content_v2`) and the single-scenario
 * comparison against the B-series result.
 *
 * The input is cut at every '.' and '-'; each stripped fragment of at least ten
 * characters is filed, first match wins, under medication (dosage, frequency,
 * action and interaction patterns), else warnings (contact, conditional, alarm
 * and surveillance patterns), else care instructions. Sections are joined with
 * single spaces; an empty section is replaced by its placeholder sentence.
 * Nothing is deduplicated.
 */
module StageOneParser {
  import opened Text
  import opened Sections
  import opened Quality
  import opened Options

  const StatementDelimiters: set<char> := {'.', '-'}
  const MinStatementLength: nat := 10

  const MedicationPlaceholder: String := "No specific medication instructions provided."
  const CarePlaceholder: String := "Follow standard post-care guidelines as directed."
  const WarningPlaceholder: String := "Contact your provider if you have concerns about your recovery."

  function Placeholder(c: Category): String {
    match c
    case Medication => MedicationPlaceholder
    case Care => CarePlaceholder
    case Warning => WarningPlaceholder
  }

  // ---------------------------------------------------------------------------
  // The regular expressions, as predicates (all searched case-insensitively)
  // ---------------------------------------------------------------------------

  /** Some lowercase literal of `pats` occurs in `s`, ignoring case. */
  predicate HasAny(s: String, pats: seq<String>) {
    exists k :: 0 <= k < |pats| && Contains(Lower(s), pats[k])
  }

  /** `\d+\s*mg`: a digit at `d`, only whitespace up to `m`, then "mg" in any case. */
  predicate DoseAt(s: String, d: int, m: int) {
    0 <= d < m && m + 2 <= |s| && IsDigit(s[d]) && AllSpace(s[d + 1..m]) &&
    LowerChar(s[m]) == 'm' && LowerChar(s[m + 1]) == 'g'
  }

  /** A dose needs a digit. */
  predicate HasDose(s: String)
    ensures HasDose(s) ==> exists k :: 0 <= k < |s| && IsDigit(s[k])
  {
    exists d, m :: 0 <= d < m <= |s| - 2 && DoseAt(s, d, m)
  }

  /** `q\d+`: "q" in any case followed by a digit. */
  predicate IntervalAt(s: String, k: int) {
    0 <= k && k + 1 < |s| && LowerChar(s[k]) == 'q' && IsDigit(s[k + 1])
  }

  predicate HasInterval(s: String) {
    exists k :: 0 <= k < |s| - 1 && IntervalAt(s, k)
  }

  const ConditionSubjects: seq<String> := ["you", "pain", "fever", "symptom"]

  /** `if\s+(you|pain|fever|symptoms?)`: "if" at `k`, whitespace up to `m`, then a subject. */
  predicate ConditionAt(s: String, k: int, m: int) {
    0 <= k && k + 2 < m <= |s| && OccursAt(Lower(s), "if", k) && AllSpace(s[k + 2..m]) &&
    exists j :: 0 <= j < |ConditionSubjects| && OccursAt(Lower(s), ConditionSubjects[j], m)
  }

  /** A condition needs the word "if" (in any case). */
  predicate HasCondition(s: String)
    ensures HasCondition(s) ==> Contains(Lower(s), "if")
  {
    exists k, m :: 0 <= k < m <= |s| && ConditionAt(s, k, m)
  }

  /** The five medication patterns of the parser, in its order. */
  predicate IsMedicationStatement(s: String) {
    || HasDose(s)
    || HasAny(s, ["tablet"])
    || HasAny(s, ["daily", "bid", "twice", "tid", "qid"]) || HasInterval(s)
    || HasAny(s, ["take", "continue", "prescribed"])
    || HasAny(s, ["alcohol", "nsaid"])
  }

  /** The five warning patterns of the parser, in its order. */
  predicate IsWarningStatement(s: String) {
    || HasAny(s, ["call", "contact", "notify"])
    || HasCondition(s)
    || HasAny(s, ["sign of", "signs of"])
    || HasAny(s, ["emergency", "urgent", "severe", "sudden"])
    || HasAny(s, ["report", "monitor for"])
  }

  /** First match wins: medication, then warning, then care. */
  function Classify(statement: String): (c: Category)
    ensures c == Medication <==> IsMedicationStatement(statement)
    ensures c == Warning <==> !IsMedicationStatement(statement) && IsWarningStatement(statement)
    ensures c == Care <==> !IsMedicationStatement(statement) && !IsWarningStatement(statement)
  {
    if IsMedicationStatement(statement) then Medication
    else if IsWarningStatement(statement) then Warning
    else Care
  }

  /** `not statement or len(statement) < 10` rejects a stripped fragment. */
  predicate Kept(statement: String) {
    statement != [] && |statement| >= MinStatementLength
  }

  function FiledUnder(c: Category): String -> bool {
    st => Kept(st) && Classify(st) == c
  }

  // ---------------------------------------------------------------------------
  // The specification of the parser
  // ---------------------------------------------------------------------------

  /** `re.split(r'[.\-]', clinical_input)`. */
  function Fragments(clinicalInput: String): seq<String> {
    SplitOn(clinicalInput, StatementDelimiters)
  }

  /** The statements filed under `c`, in source order, repeats kept. */
  function Section(clinicalInput: String, c: Category): seq<String> {
    Select(Fragments(clinicalInput), FiledUnder(c))
  }

  /** A section's text: its statements joined by single spaces, or its placeholder. */
  function SectionBody(items: seq<String>, placeholder: String): String {
    if items != [] then Join(items, " ") else placeholder
  }

  function Document(clinicalInput: String): String {
    Layout(
      SectionBody(Section(clinicalInput, Medication), MedicationPlaceholder),
      SectionBody(Section(clinicalInput, Care), CarePlaceholder),
      SectionBody(Section(clinicalInput, Warning), WarningPlaceholder))
  }

  /** Filing one more fragment extends exactly the section its patterns choose, when
      the stripped fragment is long enough. */
  lemma FileStatement(statements: seq<String>, i: nat, c: Category)
    requires i < |statements|
    ensures var st := Strip(statements[i]);
      Select(statements[..i + 1], FiledUnder(c)) ==
      Select(statements[..i], FiledUnder(c)) + (if Kept(st) && Classify(st) == c then [st] else [])
  {
    SelectStep(statements, i, FiledUnder(c));
  }

  /** The loop of `normalize_content_v2`: each stripped fragment of at least ten
      characters goes to the first section whose patterns it matches. */
  method FileStatements(statements: seq<String>)
    returns (medication: seq<String>, instructions: seq<String>, warnings: seq<String>)
    ensures medication == Select(statements, FiledUnder(Medication))
    ensures instructions == Select(statements, FiledUnder(Care))
    ensures warnings == Select(statements, FiledUnder(Warning))
  {
    medication, instructions, warnings := [], [], [];
    var i := 0;
    while i < |statements|
      invariant 0 <= i <= |statements|
      invariant medication == Select(statements[..i], FiledUnder(Medication))
      invariant instructions == Select(statements[..i], FiledUnder(Care))
      invariant warnings == Select(statements[..i], FiledUnder(Warning))
    {
      FileStatement(statements, i, Medication);
      FileStatement(statements, i, Care);
      FileStatement(statements, i, Warning);
      var statement := Strip(statements[i]);
      if Kept(statement) {
        if IsMedicationStatement(statement) {
          medication := medication + [statement];
        } else if IsWarningStatement(statement) {
          warnings := warnings + [statement];
        } else {
          instructions := instructions + [statement];
        }
      }
      i := i + 1;
    }
    assert statements[..i] == statements;
  }

  /** `normalize_content_v2`: the fragments are filed into three lists, then the
      output is built section by section. */
  method NormalizeContentV2(clinicalInput: String) returns (output: String)
    ensures output == Document(clinicalInput)
  {
    var statements := SplitOn(clinicalInput, StatementDelimiters);
    var medication, instructions, warnings := FileStatements(statements);

    output := MedicationHeader;
    if medication != [] {
      output := output + Join(medication, " ");
    } else {
      output := output + MedicationPlaceholder;
    }
    output := output + CareHeader;
    if instructions != [] {
      output := output + Join(instructions, " ");
    } else {
      output := output + CarePlaceholder;
    }
    output := output + WarningHeader;
    if warnings != [] {
      output := output + Join(warnings, " ");
    } else {
      output := output + WarningPlaceholder;
    }
  }

  // ---------------------------------------------------------------------------
  // Properties of the parser
  // ---------------------------------------------------------------------------

  /** Every statement in a section is a stripped fragment between delimiters, of at
      least ten characters, containing no '.' or '-', and classified into that section. */
  lemma SectionStatementsAreFragments(clinicalInput: String, c: Category, x: String)
    requires x in Section(clinicalInput, c)
    ensures |x| >= MinStatementLength
    ensures Classify(x) == c
    ensures Avoids(x, StatementDelimiters)
    ensures exists j :: 0 <= j < |Fragments(clinicalInput)| && x == Strip(Fragments(clinicalInput)[j])
  {
    var parts := Fragments(clinicalInput);
    SelectSound(parts, FiledUnder(c), x);
    var j :| 0 <= j < |parts| && x == Strip(parts[j]);
    StripAvoids(parts[j], StatementDelimiters);
  }

  /** Each kept fragment lands in exactly one section, once per occurrence and in
      source order: fragment j is in the section of its category and in no other. */
  lemma ExactlyOneSection(clinicalInput: String, j: nat)
    requires j < |Fragments(clinicalInput)|
    ensures var st := Strip(Fragments(clinicalInput)[j]);
      forall c :: j in SelectedIndices(Fragments(clinicalInput), FiledUnder(c)) <==> Kept(st) && Classify(st) == c
  {
    var parts := Fragments(clinicalInput);
    SelectCharacterization(parts, FiledUnder(Medication));
    SelectCharacterization(parts, FiledUnder(Care));
    SelectCharacterization(parts, FiledUnder(Warning));
    forall c ensures j in SelectedIndices(parts, FiledUnder(c)) <==> FiledUnder(c)(Strip(parts[j])) {
      match c
      case Medication =>
      case Care =>
      case Warning =>
    }
  }

  /** No deduplication: a statement appears in its section as many times as fragments
      strip to it; a short fragment appears nowhere. */
  lemma RepeatsKept(clinicalInput: String, c: Category, x: String)
    ensures multiset(Section(clinicalInput, c))[x] ==
      if Kept(x) && Classify(x) == c then Occurrences(Fragments(clinicalInput), x) else 0
  {
    SelectMultiplicity(Fragments(clinicalInput), FiledUnder(c), x);
  }

  /** A section's body is its placeholder exactly when the section is empty: joined
      statements never contain '.', while every placeholder ends with one. */
  lemma PlaceholderIffEmpty(clinicalInput: String, c: Category)
    ensures SectionBody(Section(clinicalInput, c), Placeholder(c)) == Placeholder(c)
      <==> Section(clinicalInput, c) == []
  {
    var items := Section(clinicalInput, c);
    if items != [] {
      forall j | 0 <= j < |items| ensures Avoids(items[j], {'.'}) {
        SectionStatementsAreFragments(clinicalInput, c, items[j]);
      }
      JoinAvoids(items, " ", {'.'});
      var p := Placeholder(c);
      assert p[|p| - 1] == '.';
      assert !Avoids(p, {'.'});
    }
  }

  /** The fragments lose nothing of the input: putting the '.' and '-' delimiters back
      between them gives the input. */
  lemma FragmentsRoundTrip(clinicalInput: String)
    ensures |Fragments(clinicalInput)| == |Delimiters(clinicalInput, StatementDelimiters)| + 1
    ensures Interleave(Fragments(clinicalInput), Delimiters(clinicalInput, StatementDelimiters)) == clinicalInput
  {
    SplitOnRoundTrip(clinicalInput, StatementDelimiters);
  }

  /** First match wins: a statement with both an action verb and a conditional fever
      clause is filed as medication. */
  lemma MedicationBeforeWarning()
    ensures IsMedicationStatement("Take acetaminophen if fever occurs")
    ensures IsWarningStatement("Take acetaminophen if fever occurs")
    ensures Classify("Take acetaminophen if fever occurs") == Medication
  {
    var s: String := "Take acetaminophen if fever occurs";
    TakeExample(s);
    IfFeverExample(s);
  }

  /** The example statement starts with "Take". */
  lemma TakeExample(s: String)
    requires s == "Take acetaminophen if fever occurs"
    ensures HasAny(s, ["take", "continue", "prescribed"])
  {
    OccursInLower(s, "take", 0);
    assert Contains(Lower(s), ["take", "continue", "prescribed"][0]);
  }

  /** The example statement has "if", a space, then "fever" at position 19. */
  lemma IfFeverExample(s: String)
    requires s == "Take acetaminophen if fever occurs"
    ensures HasCondition(s)
  {
    OccursInLower(s, "if", 19);
    assert s[21..22] == " ";
    OccursInLower(s, ConditionSubjects[2], 22);
    assert ConditionAt(s, 19, 22);
  }


  /** Two delimiter-free pieces, each closed by a delimiter, split into three fragments. */
  lemma SplitTwoPieces(a: String, d: char, b: String, e: char)
    requires Avoids(a, StatementDelimiters) && Avoids(b, StatementDelimiters)
    requires d in StatementDelimiters && e in StatementDelimiters
    ensures Fragments(a + [d] + b + [e]) == [a, b, []]
  {
    SplitOnAfterPiece(b, e, [], StatementDelimiters);
    assert b + [e] + [] == b + [e];
    SplitOnAfterPiece(a, d, b + [e], StatementDelimiters);
    assert a + [d] + b + [e] == a + [d] + (b + [e]);
  }

  lemma ShortFragmentExampleSplit(input: String)
    requires input == "Take 1-2 tablets orally."
    ensures Fragments(input) == ["Take 1", "2 tablets orally", ""]
  {
    var a: String, b: String := "Take 1", "2 tablets orally";
    assert input == a + ['-'] + b + ['.'];
    assert Avoids(a, StatementDelimiters);
    assert Avoids(b, StatementDelimiters);
    SplitTwoPieces(a, '-', b, '.');
  }

  lemma ShortFragmentExampleClassify(a: String, b: String)
    requires a == "Take 1" && b == "2 tablets orally"
    ensures Strip(a) == a && !Kept(a)
    ensures Strip(b) == b && Kept(b)
    ensures Classify(b) == Medication
  {
    assert LeadingSpaces(a) == 0 && TrailingSpaces(a) == 0;
    assert LeadingSpaces(b) == 0 && TrailingSpaces(b) == 0;
    OccursInLower(b, "tablet", 2);
    assert HasAny(b, ["tablet"]) by {
      assert Contains(Lower(b), ["tablet"][0]);
    }
  }

  lemma SelectMiddleOfThree(x: String, y: String, z: String, keep: String -> bool)
    requires !keep(Strip(x)) && !keep(Strip(z))
    ensures Select([x, y, z], keep) == if keep(Strip(y)) then [Strip(y)] else []
  {
    var parts := [x, y, z];
    assert parts[..2] == [x, y];
    assert [x, y][..1] == [x];
    assert [x][..0] == [];
    assert Select([x], keep) == [];
    assert Select([x, y], keep) == if keep(Strip(y)) then [Strip(y)] else [];
    assert Select(parts, keep) == Select([x, y], keep);
  }

  /** "Take 1-2 tablets orally." is cut into "Take 1", "2 tablets orally" and "": the
      first is too short and dropped, the second is medication. */
  lemma ShortFragmentDropped(input: String, c: Category)
    requires input == "Take 1-2 tablets orally."
    ensures Fragments(input) == ["Take 1", "2 tablets orally", ""]
    ensures Section(input, c) == if c == Medication then ["2 tablets orally"] else []
  {
    var a: String, b: String := "Take 1", "2 tablets orally";
    ShortFragmentExampleSplit(input);
    ShortFragmentExampleClassify(a, b);
    assert Strip([]) == [];
    SelectMiddleOfThree(a, b, [], FiledUnder(c));
  }

  // ---------------------------------------------------------------------------
  // Comparison with the B-series result for the same scenario
  // ---------------------------------------------------------------------------

  const BSeriesResults: map<String, real> := map[
    "Acetaminophen" := 5.8,
    "Hip Surgery" := 4.8,
    "Diabetes" := 5.1,
    "Heart Failure" := 3.5,
    "Wound Care" := 3.6]

  /** Whether the grade moved towards 4.95 (Better), away from it (Worse) or neither. */
  datatype Trend = Better | Worse | Same

  datatype Comparison = Comparison(previous: real, trend: Trend, nowMeetsTarget: bool)

  /** The comparison of a grade with an earlier one: the sign of
      `abs(4.95 - grade) - abs(4.95 - previous)` and whether the target is newly met. */
  function Compare(previous: real, grade: real): (r: Comparison)
    ensures r.previous == previous
    ensures r.trend == Better <==> Distance(grade) < Distance(previous)
    ensures r.trend == Worse <==> Distance(grade) > Distance(previous)
    ensures r.nowMeetsTarget <==> TargetMet(grade) && !TargetMet(previous)
  {
    var improvement := Distance(grade) - Distance(previous);
    var trend := if improvement < 0.0 then Better else if improvement > 0.0 then Worse else Same;
    Comparison(previous, trend, TargetMet(grade) && !TargetMet(previous))
  }

  /** The comparison printed for a scenario that has a B-series result. */
  function CompareToBSeries(scenario: String, grade: real): (r: Option<Comparison>)
    ensures r.Some? <==> scenario in BSeriesResults
    ensures r.Some? ==> r.value == Compare(BSeriesResults[scenario], grade)
  {
    if scenario in BSeriesResults then Some(Compare(BSeriesResults[scenario], grade)) else None
  }

  /** Because 4.95 is not the band's midpoint, a newly met target is not always
      "Better", whatever the earlier grade: that happens only for grades in (5.4, 5.5]. */
  lemma NewlyMetButNotBetter(previous: real, grade: real)
    requires Compare(previous, grade).nowMeetsTarget
    requires Compare(previous, grade).trend != Better
    ensures 5.4 < grade <= 5.5
  {
    MissedIsFar(previous);
  }

  /** Such a grade exists: 5.5 against an earlier 4.4 is newly met and 0.55 from 4.95
      either way. */
  lemma NewlyMetButNotBetterReachable()
    ensures Compare(4.4, 5.5).nowMeetsTarget && Compare(4.4, 5.5).trend == Same
  {
  }

  /** With the recorded B-series grades a newly met target is always "Better": every
      earlier grade that missed the band is more than 0.55 from 4.95. */
  lemma NewlyMetIsBetter(scenario: String, grade: real)
    requires scenario in BSeriesResults
    ensures CompareToBSeries(scenario, grade).value.nowMeetsTarget ==>
              CompareToBSeries(scenario, grade).value.trend == Better
  {
    var c := CompareToBSeries(scenario, grade).value;
    if c.nowMeetsTarget && c.trend != Better {
      NewlyMetButNotBetter(c.previous, grade);
      assert false;
    }
  }

  /** Diabetes and Hip Surgery already met the target in the B series, so a newly met
      target is never reported for them. */
  lemma NeverNewlyMetWhenPreviouslyMet(grade: real)
    ensures !CompareToBSeries("Diabetes", grade).value.nowMeetsTarget
    ensures !CompareToBSeries("Hip Surgery", grade).value.nowMeetsTarget
  {
  }
}
