/**
 * The single-scenario isolation normalizer (`normalize_content`).
 *
 * A near pass-through: the whole input becomes the medication section when its
 * lowercase form contains "mg" (and the section is empty otherwise), the whole
 * input is always the care section, and the warning section is a fixed
 * sentence. A loop over the input's lines fills a list of care lines that the
 * returned text never uses.
 */
module IsolationNormalizer {
  import opened Text
  import opened Sections

  const MonitorWarning: String := "Monitor for concerning symptoms."

  /** `"mg" in clinical_input.lower()`. */
  predicate MentionsMilligrams(input: String) {
    Contains(Lower(input), "mg")
  }

  /** The medication section: the whole input or nothing. */
  function MedicationSection(input: String): String {
    if MentionsMilligrams(input) then input else []
  }

  /** The returned document. */
  function IsolatedDocument(input: String): (r: String)
    ensures |r| == |MedicationHeader| + |CareHeader| + |WarningHeader| + |MonitorWarning| +
                   |input| + (if MentionsMilligrams(input) then |input| else 0)
  {
    Layout(MedicationSection(input), input, MonitorWarning)
  }

  /** A line the dead loop keeps: non-empty after stripping and not starting with '-'. */
  predicate KeptLine(line: String) {
    line != [] && line[0] != '-'
  }

  /** `normalize_content`: the line loop fills `careInstructions`, which the result
      does not use; the output is then built with `+=`. */
  method NormalizeContent(clinicalInput: String) returns (output: String)
    ensures output == IsolatedDocument(clinicalInput)
  {
    var careInstructions: seq<String> := [];
    var lines := SplitOn(Strip(clinicalInput), {'\n'});
    var i := 0;
    while i < |lines|
      invariant 0 <= i <= |lines|
      invariant careInstructions == Select(lines[..i], KeptLine)
    {
      SelectStep(lines, i, KeptLine);
      var line := Strip(lines[i]);
      if line != [] && line[0] != '-' {
        careInstructions := careInstructions + [line];
      }
      i := i + 1;
    }

    output := MedicationHeader;
    output := output + (if Contains(Lower(clinicalInput), "mg") then clinicalInput else []);
    output := output + CareHeader;
    output := output + clinicalInput;
    output := output + WarningHeader;
    output := output + MonitorWarning;
  }

  // ---------------------------------------------------------------------------
  // Properties of the isolation normalizer
  // ---------------------------------------------------------------------------

  /** The number of characters the document adds around the input. */
  const FrameLength: nat := |Layout([], [], MonitorWarning)|

  /** The medication section is the entire input exactly when the input mentions "mg"
      (in any case); otherwise it is empty. The output's length shows which. */
  lemma MedicationSectionIffMilligrams(input: String)
    ensures MentionsMilligrams(input) ==> MedicationSection(input) == input
    ensures !MentionsMilligrams(input) ==> MedicationSection(input) == []
    ensures |IsolatedDocument(input)| == FrameLength + (if MentionsMilligrams(input) then 2 else 1) * |input|
  {
  }

  /** The care section is always the entire input, unmodified, and the document always
      ends with the fixed warning section, whatever the input. */
  lemma CareIsInputAndWarningIsFixed(input: String)
    ensures var start := |MedicationHeader| + |MedicationSection(input)| + |CareHeader|;
      start + |input| <= |IsolatedDocument(input)| &&
      IsolatedDocument(input)[start..start + |input|] == input
    ensures var doc := IsolatedDocument(input);
      |WarningHeader + MonitorWarning| <= |doc| &&
      doc[|doc| - |WarningHeader + MonitorWarning|..] == WarningHeader + MonitorWarning
  {
    var m := MedicationSection(input);
    var doc := IsolatedDocument(input);
    assert doc == (MedicationHeader + m + CareHeader) + input + (WarningHeader + MonitorWarning);
  }

  /** Occurrences of a pattern survive in any text that ends with the text holding them. */
  lemma ContainsSuffix(s: String, pat: String, u: String)
    requires Contains(s, pat)
    requires |s| <= |u| && u[|u| - |s|..] == s
    ensures Contains(u, pat)
  {
    var i :| 0 <= i <= |s| - |pat| && OccursAt(s, pat, i);
    var off := |u| - |s|;
    assert OccursAt(u, pat, off + i) by {
      assert u[off + i..off + i + |pat|] == s[i..i + |pat|];
    }
  }

  /** The same frame around two middles: the middles are equal. */
  lemma FrameCancels(h: String, x: String, y: String, t: String)
    requires h + x + t == h + y + t
    ensures x == y
  {
    var u, v := h + x + t, h + y + t;
    assert x == u[|h|..|u| - |t|];
    assert y == v[|h|..|v| - |t|];
  }

  /** Equal texts that put the same separator after prefixes of equal length agree
      after the separator. */
  lemma AfterSeparator(m1: String, m2: String, c: String, a: String, b: String)
    requires m1 + c + a == m2 + c + b && |m1| == |m2|
    ensures a == b
  {
    var u, v := m1 + c + a, m2 + c + b;
    assert a == u[|m1| + |c|..];
    assert b == v[|m2| + |c|..];
  }

  /** When `a + c + a == c + b`, the text `b` ends with `a`. */
  lemma RepeatedEndsSame(a: String, c: String, b: String)
    requires a + c + a == c + b
    ensures |a| <= |b| && b[|b| - |a|..] == a
  {
    var u, v := a + c + a, c + b;
    assert u[|u| - |a|..] == a;
    assert v[|v| - |a|..] == b[|b| - |a|..];
  }

  /** A text ending with a text that mentions "mg" mentions "mg". */
  lemma MilligramsInSuffix(a: String, b: String)
    requires MentionsMilligrams(a)
    requires |a| <= |b| && b[|b| - |a|..] == a
    ensures MentionsMilligrams(b)
  {
    assert Lower(b)[|b| - |a|..] == Lower(a);
    ContainsSuffix(Lower(a), "mg", Lower(b));
  }

  /** A repeated input that mentions "mg" cannot be matched by a single one that does not. */
  lemma NoMixedCollision(a: String, b: String)
    requires MentionsMilligrams(a)
    requires a + CareHeader + a == CareHeader + b
    ensures MentionsMilligrams(b)
  {
    RepeatedEndsSame(a, CareHeader, b);
    MilligramsInSuffix(a, b);
  }

  /** The layout as header, a middle holding both variable sections, and a tail. */
  lemma LayoutRegroup(m: String, c: String, w: String)
    ensures Layout(m, c, w) == MedicationHeader + (m + CareHeader + c) + (WarningHeader + w)
  {
  }

  /** Different inputs give different documents: the output determines the input.
      When both or neither input mentions "mg" the input is read back after the care
      header; a document with the input repeated cannot equal one without, because
      the second input would have to end with the first, "mg" included. */
  lemma {:induction false} IsolatedDocumentInjective(a: String, b: String)
    requires IsolatedDocument(a) == IsolatedDocument(b)
    ensures a == b
  {
    var tail := WarningHeader + MonitorWarning;
    var ma, mb := MedicationSection(a), MedicationSection(b);
    LayoutRegroup(ma, a, MonitorWarning);
    LayoutRegroup(mb, b, MonitorWarning);
    FrameCancels(MedicationHeader, ma + CareHeader + a, mb + CareHeader + b, tail);
    var pa, pb := MentionsMilligrams(a), MentionsMilligrams(b);
    if pa == pb {
      AfterSeparator(ma, mb, CareHeader, a, b);
    } else if pa {
      assert ma == a && mb == [];
      assert [] + CareHeader + b == CareHeader + b;
      NoMixedCollision(a, b);
    } else {
      assert mb == b && ma == [];
      assert [] + CareHeader + a == CareHeader + a;
      NoMixedCollision(b, a);
    }
  }
}
