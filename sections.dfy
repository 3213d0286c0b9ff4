/**
 * What the Stage-1 normalizers have in common: the three-section layout and
 * the selection of stripped statements into one section.
 */
module Sections {
  import opened Text

  /** The section a clinical statement is sorted into. */
  datatype Category = Medication | Care | Warning

  const MedicationHeader: String := "**MEDICATION**\n"
  const CareHeader: String := "\n\n**CARE INSTRUCTIONS**\n"
  const WarningHeader: String := "\n\n**URGENT WARNING SIGNS**\n"

  /** The document shape: the three headers in fixed order, each followed by its body. */
  function Layout(medication: String, care: String, warning: String): String {
    MedicationHeader + medication + CareHeader + care + WarningHeader + warning
  }

  /** The stripped pieces that `keep` accepts, in source order (what a loop
      `for p in parts: s = p.strip(); if keep(s): out.append(s)` builds). */
  function Select(parts: seq<String>, keep: String -> bool): seq<String> {
    if parts == [] then []
    else
      var st := Strip(parts[|parts| - 1]);
      Select(parts[..|parts| - 1], keep) + (if keep(st) then [st] else [])
  }

  /** The indices of the pieces that `keep` accepts, in increasing order. */
  function SelectedIndices(parts: seq<String>, keep: String -> bool): seq<nat> {
    if parts == [] then []
    else
      var n := |parts| - 1;
      SelectedIndices(parts[..n], keep) + (if keep(Strip(parts[n])) then [n] else [])
  }

  /** Entry k of the selection is piece idx[k], stripped. */
  lemma {:induction false} SelectAtIndices(parts: seq<String>, keep: String -> bool)
    ensures |Select(parts, keep)| == |SelectedIndices(parts, keep)|
    ensures forall k :: 0 <= k < |SelectedIndices(parts, keep)| ==>
      SelectedIndices(parts, keep)[k] < |parts| &&
      Select(parts, keep)[k] == Strip(parts[SelectedIndices(parts, keep)[k]])
  {
    if parts != [] {
      var n := |parts| - 1;
      var init := parts[..n];
      SelectAtIndices(init, keep);
      var sel, idx := Select(init, keep), SelectedIndices(init, keep);
      var st := Strip(parts[n]);
      var sel', idx' := Select(parts, keep), SelectedIndices(parts, keep);
      assert sel' == sel + (if keep(st) then [st] else []);
      assert idx' == idx + (if keep(st) then [n] else []);
      forall k | 0 <= k < |idx'| ensures idx'[k] < |parts| && sel'[k] == Strip(parts[idx'[k]]) {
        if k < |idx| {
          assert init[idx[k]] == parts[idx[k]];
        }
      }
    }
  }

  /** The selected indices are in range and increase. */
  lemma {:induction false} SelectedIndicesSorted(parts: seq<String>, keep: String -> bool)
    ensures forall k :: 0 <= k < |SelectedIndices(parts, keep)| ==> SelectedIndices(parts, keep)[k] < |parts|
    ensures forall k, l :: 0 <= k < l < |SelectedIndices(parts, keep)| ==>
      SelectedIndices(parts, keep)[k] < SelectedIndices(parts, keep)[l]
  {
    if parts != [] {
      var n := |parts| - 1;
      SelectedIndicesSorted(parts[..n], keep);
      var idx := SelectedIndices(parts[..n], keep);
      var idx' := SelectedIndices(parts, keep);
      assert idx' == idx + (if keep(Strip(parts[n])) then [n] else []);
      forall k, l | 0 <= k < l < |idx'| ensures idx'[k] < idx'[l] {
        if l >= |idx| {
          assert idx[k] < n;
        }
      }
    }
  }

  /** An index is selected iff its piece is accepted. */
  lemma {:induction false} SelectedIndicesMembership(parts: seq<String>, keep: String -> bool)
    ensures forall j :: 0 <= j < |parts| ==> (j in SelectedIndices(parts, keep) <==> keep(Strip(parts[j])))
  {
    if parts != [] {
      var n := |parts| - 1;
      var init := parts[..n];
      SelectedIndicesMembership(init, keep);
      SelectedIndicesSorted(init, keep);
      var idx := SelectedIndices(init, keep);
      var idx' := SelectedIndices(parts, keep);
      assert idx' == idx + (if keep(Strip(parts[n])) then [n] else []);
      forall j | 0 <= j < |parts| ensures j in idx' <==> keep(Strip(parts[j])) {
        if j < n {
          assert init[j] == parts[j];
          assert j in idx' <==> j in idx;
        } else {
          assert n !in idx;
        }
      }
    }
  }

  /** `Select` keeps exactly the accepted pieces, stripped, each once, in source order:
      entry k is piece idx[k], the indices increase, and an index is present iff its
      piece is accepted. */
  lemma SelectCharacterization(parts: seq<String>, keep: String -> bool)
    ensures |Select(parts, keep)| == |SelectedIndices(parts, keep)|
    ensures forall k :: 0 <= k < |SelectedIndices(parts, keep)| ==>
      SelectedIndices(parts, keep)[k] < |parts| &&
      Select(parts, keep)[k] == Strip(parts[SelectedIndices(parts, keep)[k]])
    ensures forall k, l :: 0 <= k < l < |SelectedIndices(parts, keep)| ==>
      SelectedIndices(parts, keep)[k] < SelectedIndices(parts, keep)[l]
    ensures forall j :: 0 <= j < |parts| ==> (j in SelectedIndices(parts, keep) <==> keep(Strip(parts[j])))
  {
    SelectAtIndices(parts, keep);
    SelectedIndicesSorted(parts, keep);
    SelectedIndicesMembership(parts, keep);
  }

  /** One more piece: `Select` over a prefix grows by that piece when it is accepted. */
  lemma SelectStep(parts: seq<String>, i: nat, keep: String -> bool)
    requires i < |parts|
    ensures Select(parts[..i + 1], keep) ==
      Select(parts[..i], keep) + (if keep(Strip(parts[i])) then [Strip(parts[i])] else [])
  {
    assert parts[..i + 1][..i] == parts[..i];
  }

  /** Every selected statement is accepted and is the stripped form of some piece. */
  lemma SelectSound(parts: seq<String>, keep: String -> bool, x: String)
    requires x in Select(parts, keep)
    ensures keep(x)
    ensures exists j :: 0 <= j < |parts| && x == Strip(parts[j])
  {
    SelectCharacterization(parts, keep);
    var k :| 0 <= k < |Select(parts, keep)| && Select(parts, keep)[k] == x;
    var j := SelectedIndices(parts, keep)[k];
    assert x == Strip(parts[j]);
    assert j in SelectedIndices(parts, keep);
  }

  /** How many pieces strip to `x`. */
  function Occurrences(parts: seq<String>, x: String): nat {
    if parts == [] then 0
    else Occurrences(parts[..|parts| - 1], x) + (if Strip(parts[|parts| - 1]) == x then 1 else 0)
  }

  /** Nothing is deduplicated: an accepted statement appears as often as pieces strip
      to it; a rejected one not at all. */
  lemma {:induction false} SelectMultiplicity(parts: seq<String>, keep: String -> bool, x: String)
    ensures multiset(Select(parts, keep))[x] == if keep(x) then Occurrences(parts, x) else 0
  {
    if parts != [] {
      SelectMultiplicity(parts[..|parts| - 1], keep, x);
    }
  }
}
