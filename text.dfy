/**
 * Character and string helpers shared by the normalizers and the output checks.
 *
 * Python's `str.strip()`, `str.split()`, `str.lower()`, `re.split` and the `in`
 * substring test are modelled here over `seq<char>`. Whitespace and case folding
 * are restricted to ASCII (see README, "Left out").
 */
module Text {

  type String = seq<char>

  /** Python's whitespace (`str.isspace`, regex `\s`), ASCII part:
      space, \t \n \v \f \r and the separators \x1c-\x1f. */
  predicate IsSpace(c: char) {
    c == ' ' || ('\t' <= c <= '\r') || ('\U{1C}' <= c <= '\U{1F}')
  }

  predicate IsDigit(c: char) {
    '0' <= c <= '9'
  }

  /** `str.lower()` on one character, ASCII letters only. */
  function LowerChar(c: char): (r: char)
    ensures IsSpace(r) <==> IsSpace(c)
    ensures IsDigit(r) <==> IsDigit(c)
  {
    if 'A' <= c <= 'Z' then (c as int - 'A' as int + 'a' as int) as char else c
  }

  function Lower(s: String): (r: String)
    ensures |r| == |s|
    ensures forall k :: 0 <= k < |s| ==> r[k] == LowerChar(s[k])
  {
    seq(|s|, k requires 0 <= k < |s| => LowerChar(s[k]))
  }

  lemma LowerAppend(s: String, t: String)
    ensures Lower(s + t) == Lower(s) + Lower(t)
  {
    assert forall k :: 0 <= k < |s + t| ==> Lower(s + t)[k] == (Lower(s) + Lower(t))[k];
  }

  /** A lowercase literal found letter by letter in the lowercased text. */
  lemma OccursInLower(s: String, pat: String, i: nat)
    requires i + |pat| <= |s|
    requires forall k :: 0 <= k < |pat| ==> LowerChar(s[i + k]) == pat[k]
    ensures OccursAt(Lower(s), pat, i) && Contains(Lower(s), pat)
  {
    assert Lower(s)[i..i + |pat|] == pat;
    assert OccursAt(Lower(s), pat, i);
    assert 0 <= i <= |Lower(s)| - |pat|;
  }

  predicate AllSpace(s: String) {
    forall k :: 0 <= k < |s| ==> IsSpace(s[k])
  }

  predicate NoSpace(s: String) {
    forall k :: 0 <= k < |s| ==> !IsSpace(s[k])
  }

  /** No character of `s` belongs to `chars`. */
  predicate Avoids(s: String, chars: set<char>) {
    forall k :: 0 <= k < |s| ==> s[k] !in chars
  }

  /** `pat` occurs in `s` starting at index `i`. */
  predicate OccursAt(s: String, pat: String, i: int) {
    0 <= i && i + |pat| <= |s| && s[i..i + |pat|] == pat
  }

  /** Python's `pat in s`. */
  predicate Contains(s: String, pat: String) {
    exists i :: 0 <= i <= |s| - |pat| && OccursAt(s, pat, i)
  }

  /** An occurrence in a prefix is an occurrence in the whole text. */
  lemma ContainsInPrefix(s: String, n: nat, pat: String)
    requires n <= |s|
    ensures Contains(s[..n], pat) ==> Contains(s, pat)
  {
    if Contains(s[..n], pat) {
      var i :| 0 <= i <= n - |pat| && OccursAt(s[..n], pat, i);
      assert s[i..i + |pat|] == s[..n][i..i + |pat|];
      assert OccursAt(s, pat, i);
    }
  }

  lemma ContainsExtend(s: String, t: String, pat: String)
    requires Contains(s, pat)
    ensures Contains(s + t, pat) && Contains(t + s, pat)
  {
    var i :| 0 <= i <= |s| - |pat| && OccursAt(s, pat, i);
    assert (s + t)[i..i + |pat|] == s[i..i + |pat|];
    assert OccursAt(s + t, pat, i);
    assert (t + s)[|t| + i..|t| + i + |pat|] == s[i..i + |pat|];
    assert OccursAt(t + s, pat, |t| + i);
  }

  /** A string containing some character of `chars` is not avoided by anything containing it. */
  lemma ContainsBreaksAvoids(s: String, pat: String, chars: set<char>)
    requires Contains(s, pat)
    requires !Avoids(pat, chars)
    ensures !Avoids(s, chars)
  {
    var i :| 0 <= i <= |s| - |pat| && OccursAt(s, pat, i);
    var k :| 0 <= k < |pat| && pat[k] in chars;
    assert s[i + k] == pat[k];
  }

  // ---------------------------------------------------------------------------
  // str.strip()
  // ---------------------------------------------------------------------------

  function LeadingSpaces(s: String): (n: nat)
    ensures n <= |s|
    ensures forall k :: 0 <= k < n ==> IsSpace(s[k])
    ensures n < |s| ==> !IsSpace(s[n])
  {
    if s != [] && IsSpace(s[0]) then 1 + LeadingSpaces(s[1..]) else 0
  }

  function TrailingSpaces(s: String): (n: nat)
    ensures n <= |s|
    ensures forall k :: |s| - n <= k < |s| ==> IsSpace(s[k])
    ensures n < |s| ==> !IsSpace(s[|s| - n - 1])
  {
    if s != [] && IsSpace(s[|s| - 1]) then 1 + TrailingSpaces(s[..|s| - 1]) else 0
  }

  /** `s.strip()`: the slice of `s` left after removing whitespace at both ends. */
  function Strip(s: String): (r: String)
    ensures |r| <= |s|
    ensures LeadingSpaces(s) + |r| <= |s|
    ensures r == s[LeadingSpaces(s)..LeadingSpaces(s) + |r|]
    ensures forall k :: 0 <= k < LeadingSpaces(s) ==> IsSpace(s[k])
    ensures forall k :: LeadingSpaces(s) + |r| <= k < |s| ==> IsSpace(s[k])
    ensures r != [] ==> !IsSpace(r[0]) && !IsSpace(r[|r| - 1])
  {
    var t := s[LeadingSpaces(s)..];
    t[..|t| - TrailingSpaces(t)]
  }

  lemma StripAvoids(s: String, chars: set<char>)
    requires Avoids(s, chars)
    ensures Avoids(Strip(s), chars)
  {
    var r, i := Strip(s), LeadingSpaces(s);
    forall k | 0 <= k < |r| ensures r[k] !in chars {
      assert r[k] == s[i + k];
    }
  }

  lemma StripAllSpace(s: String)
    requires AllSpace(s)
    ensures Strip(s) == []
  {
  }

  // ---------------------------------------------------------------------------
  // str.split() with no argument: runs of whitespace separate words
  // ---------------------------------------------------------------------------

  /** The end of the whitespace run that starts at `p` of `t`. */
  function GapEnd(t: String, p: nat): (q: nat)
    requires p <= |t|
    ensures p <= q <= |t|
    ensures q < |t| ==> !IsSpace(t[q])
    ensures p < |t| && IsSpace(t[p]) ==> p < q
    decreases |t| - p
  {
    if p < |t| && IsSpace(t[p]) then GapEnd(t, p + 1) else p
  }

  /** Everything from `p` up to the gap's end is whitespace, and the run is maximal. */
  lemma {:induction false} GapEndFacts(t: String, p: nat)
    requires p <= |t|
    ensures forall k :: p <= k < GapEnd(t, p) ==> IsSpace(t[k])
    ensures GapEnd(t, p) < |t| ==> !IsSpace(t[GapEnd(t, p)])
    decreases |t| - p
  {
    if p < |t| && IsSpace(t[p]) {
      GapEndFacts(t, p + 1);
    }
  }

  /** The end of the whitespace-free run that starts at `p` of `t`. */
  function WordEnd(t: String, p: nat): (q: nat)
    requires p <= |t|
    ensures p <= q <= |t|
    ensures p < |t| && !IsSpace(t[p]) ==> p < q
    decreases |t| - p
  {
    if p < |t| && !IsSpace(t[p]) then WordEnd(t, p + 1) else p
  }

  /** Everything from `p` up to the word's end is non-whitespace, and the run is maximal. */
  lemma {:induction false} WordEndFacts(t: String, p: nat)
    requires p <= |t|
    ensures forall k :: p <= k < WordEnd(t, p) ==> !IsSpace(t[k])
    ensures WordEnd(t, p) < |t| ==> IsSpace(t[WordEnd(t, p)])
    decreases |t| - p
  {
    if p < |t| && !IsSpace(t[p]) {
      WordEndFacts(t, p + 1);
    }
  }

  /** The words of `s` from position `p` on. */
  function WordsFrom(s: String, p: nat): seq<String>
    requires p <= |s|
    decreases |s| - p
  {
    var i := GapEnd(s, p);
    if i == |s| then []
    else
      var e := WordEnd(s, i);
      [s[i..e]] + WordsFrom(s, e)
  }

  /** The whitespace runs around the words of `s` from position `p` on: before the first,
      between each two, and after the last. */
  function WordGapsFrom(s: String, p: nat): seq<String>
    requires p <= |s|
    decreases |s| - p
  {
    var i := GapEnd(s, p);
    if i == |s| then [s[p..]]
    else
      var e := WordEnd(s, i);
      [s[p..i]] + WordGapsFrom(s, e)
  }

  /** `s.split()`: the maximal whitespace-free pieces of `s`, in order. */
  function Words(s: String): seq<String> {
    WordsFrom(s, 0)
  }

  function WordGaps(s: String): seq<String> {
    WordGapsFrom(s, 0)
  }

  /** One step of `str.split()` from `p`: the blanks up to `i`, then the word up to `e`. */
  lemma WordsStep(s: String, p: nat, i: nat, e: nat)
    requires p <= |s| && i == GapEnd(s, p) < |s| && e == WordEnd(s, i)
    ensures i < e
    ensures WordsFrom(s, p) == [s[i..e]] + WordsFrom(s, e)
    ensures WordGapsFrom(s, p) == [s[p..i]] + WordGapsFrom(s, e)
  {
  }

  lemma InterleaveCons(a: String, b: String, gs: seq<String>, ws: seq<String>)
    requires |gs| == |ws| + 1
    ensures Interleave([a] + gs, [b] + ws) == a + b + Interleave(gs, ws)
  {
    assert ([a] + gs)[1..] == gs && ([b] + ws)[1..] == ws;
  }

  lemma SliceSplit(s: String, p: nat, i: nat, e: nat)
    requires p <= i <= e <= |s|
    ensures s[p..] == s[p..i] + s[i..e] + s[e..]
  {
  }

  /** Interleaving after one gap and one word. */
  lemma InterleaveGapWord(s: String, p: nat, i: nat, e: nat, gs: seq<String>, ws: seq<String>,
                          gs': seq<String>, ws': seq<String>)
    requires p <= i <= e <= |s|
    requires |gs'| == |ws'| + 1 && Interleave(gs', ws') == s[e..]
    requires gs == [s[p..i]] + gs' && ws == [s[i..e]] + ws'
    ensures |gs| == |ws| + 1 && Interleave(gs, ws) == s[p..]
  {
    InterleaveCons(s[p..i], s[i..e], gs', ws');
    SliceSplit(s, p, i, e);
  }

  lemma {:induction false} WordsFromRoundTrip(s: String, p: nat)
    requires p <= |s|
    ensures |WordGapsFrom(s, p)| == |WordsFrom(s, p)| + 1
    ensures Interleave(WordGapsFrom(s, p), WordsFrom(s, p)) == s[p..]
    decreases |s| - p
  {
    var i := GapEnd(s, p);
    if i < |s| {
      var e := WordEnd(s, i);
      WordsStep(s, p, i, e);
      WordsFromRoundTrip(s, e);
      InterleaveGapWord(s, p, i, e, WordGapsFrom(s, p), WordsFrom(s, p), WordGapsFrom(s, e), WordsFrom(s, e));
    }
  }

  /** `str.split()` loses only whitespace: putting the gaps back around the words gives
      `s`. */
  lemma WordsRoundTrip(s: String)
    ensures |WordGaps(s)| == |Words(s)| + 1
    ensures Interleave(WordGaps(s), Words(s)) == s
  {
    WordsFromRoundTrip(s, 0);
  }

  lemma {:induction false} WordsFromAreRuns(s: String, p: nat)
    requires p <= |s|
    ensures forall j :: 0 <= j < |WordsFrom(s, p)| ==> WordsFrom(s, p)[j] != [] && NoSpace(WordsFrom(s, p)[j])
    ensures forall j :: 0 <= j < |WordGapsFrom(s, p)| ==> AllSpace(WordGapsFrom(s, p)[j])
    ensures forall j :: 0 < j < |WordGapsFrom(s, p)| - 1 ==> WordGapsFrom(s, p)[j] != []
    decreases |s| - p
  {
    var i := GapEnd(s, p);
    GapEndFacts(s, p);
    if i < |s| {
      var e := WordEnd(s, i);
      WordEndFacts(s, i);
      WordsStep(s, p, i, e);
      WordsFromAreRuns(s, e);
      var ws, ws' := WordsFrom(s, p), WordsFrom(s, e);
      var gs, gs' := WordGapsFrom(s, p), WordGapsFrom(s, e);
      assert NoSpace(ws[0]);
      forall j | 0 < j < |ws| ensures ws[j] != [] && NoSpace(ws[j]) {
        assert ws[j] == ws'[j - 1];
      }
      forall j | 0 < j < |gs| ensures AllSpace(gs[j]) {
        assert gs[j] == gs'[j - 1];
      }
      forall j | 0 < j < |gs| - 1 ensures gs[j] != [] {
        assert gs[j] == gs'[j - 1];
        if j == 1 {
          assert IsSpace(s[e]);
          assert GapEnd(s, e) < |s|;
          assert gs'[0] == s[e..GapEnd(s, e)];
        }
      }
    }
  }

  /** Every word is non-empty and whitespace-free, every gap is whitespace, and every gap
      between two words is non-empty: the words are exactly the maximal whitespace-free
      runs of `s`, in order. */
  lemma WordsAreRuns(s: String)
    ensures forall j :: 0 <= j < |Words(s)| ==> Words(s)[j] != [] && NoSpace(Words(s)[j])
    ensures forall j :: 0 <= j < |WordGaps(s)| ==> AllSpace(WordGaps(s)[j])
    ensures forall j :: 0 < j < |WordGaps(s)| - 1 ==> WordGaps(s)[j] != []
  {
    WordsFromAreRuns(s, 0);
  }


  // ---------------------------------------------------------------------------
  // set(xs), duplicates and multiplicities
  // ---------------------------------------------------------------------------

  /** Python's `set(xs)`. */
  function ToSet<T>(xs: seq<T>): set<T> {
    set x | x in xs
  }

  predicate Distinct<T(==)>(xs: seq<T>) {
    forall i, j :: 0 <= i < j < |xs| ==> xs[i] != xs[j]
  }

  /** `len(set(xs)) == len(xs)` holds exactly when no element repeats. */
  lemma {:induction false} SetSizeDistinct<T>(xs: seq<T>)
    ensures |ToSet(xs)| <= |xs|
    ensures |ToSet(xs)| == |xs| <==> Distinct(xs)
  {
    if xs != [] {
      var tail := xs[1..];
      SetSizeDistinct(tail);
      assert ToSet(xs) == {xs[0]} + ToSet(tail);
      if xs[0] in tail {
        assert ToSet(xs) == ToSet(tail);
        var j :| 0 <= j < |tail| && tail[j] == xs[0];
        assert xs[0] == xs[j + 1];
        assert !Distinct(xs);
      } else {
        assert xs[0] !in ToSet(tail);
        assert |ToSet(xs)| == 1 + |ToSet(tail)|;
        if Distinct(tail) {
          forall i, j | 0 <= i < j < |xs| ensures xs[i] != xs[j] {
            assert xs[j] == tail[j - 1];
            if i > 0 {
              assert xs[i] == tail[i - 1];
            }
          }
        }
        if Distinct(xs) {
          forall i, j | 0 <= i < j < |tail| ensures tail[i] != tail[j] {
            assert tail[i] == xs[i + 1] && tail[j] == xs[j + 1];
          }
        }
      }
    }
  }

  /** In a sequence without repeats, nothing occurs more than once. */
  lemma {:induction false} DistinctMultiplicity<T>(xs: seq<T>, x: T)
    requires Distinct(xs)
    ensures multiset(xs)[x] <= 1
  {
    if xs != [] {
      var tail := xs[1..];
      assert xs == [xs[0]] + tail;
      assert Distinct(tail) by {
        forall i, j | 0 <= i < j < |tail| ensures tail[i] != tail[j] {
          assert tail[i] == xs[i + 1] && tail[j] == xs[j + 1];
        }
      }
      DistinctMultiplicity(tail, x);
      if x == xs[0] {
        assert multiset(tail)[x] == 0;
      }
    }
  }

  // ---------------------------------------------------------------------------
  // sep.join(items)
  // ---------------------------------------------------------------------------

  /** Python's `sep.join(items)`. */
  function Join(items: seq<String>, sep: String): String {
    if items == [] then []
    else if |items| == 1 then items[0]
    else items[0] + sep + Join(items[1..], sep)
  }

  lemma {:induction false} JoinAvoids(items: seq<String>, sep: String, chars: set<char>)
    requires forall j :: 0 <= j < |items| ==> Avoids(items[j], chars)
    requires Avoids(sep, chars)
    ensures Avoids(Join(items, sep), chars)
  {
    if |items| > 1 {
      JoinAvoids(items[1..], sep, chars);
      var r := Join(items[1..], sep);
      forall k | 0 <= k < |items[0] + sep + r| ensures (items[0] + sep + r)[k] !in chars {
        if k < |items[0]| {
        } else if k < |items[0]| + |sep| {
          assert (items[0] + sep + r)[k] == sep[k - |items[0]|];
        } else {
          assert (items[0] + sep + r)[k] == r[k - |items[0]| - |sep|];
        }
      }
    }
  }

  // ---------------------------------------------------------------------------
  // re.split on a character class: cut at every delimiter, keep empty pieces
  // ---------------------------------------------------------------------------

  /** `re.split('[...]', s)` for the character class `delims`: the pieces between
      delimiters, empty pieces included, so there is one more piece than delimiters. */
  function SplitOn(s: String, delims: set<char>): (parts: seq<String>)
    ensures |parts| >= 1
    ensures forall j :: 0 <= j < |parts| ==> Avoids(parts[j], delims)
  {
    if s == [] then [[]]
    else
      var rest := SplitOn(s[1..], delims);
      if s[0] in delims then [[]] + rest
      else [[s[0]] + rest[0]] + rest[1..]
  }

  /** The delimiter characters of `s`, in order, each as a one-character string. */
  function Delimiters(s: String, delims: set<char>): seq<String> {
    if s == [] then []
    else (if s[0] in delims then [[s[0]]] else []) + Delimiters(s[1..], delims)
  }

  /** Puts the separators `seps` back between the pieces. */
  function Interleave(parts: seq<String>, seps: seq<String>): String
    requires |parts| == |seps| + 1
  {
    if seps == [] then parts[0]
    else parts[0] + seps[0] + Interleave(parts[1..], seps[1..])
  }

  /** Interleaving after one cut: the first piece, the first gap, then the rest. */
  lemma InterleaveFirstCut(t: String, p: nat, q: nat, ss: seq<String>, gs: seq<String>,
                           ss': seq<String>, gs': seq<String>)
    requires p <= q <= |t|
    requires |ss'| == |gs'| + 1 && Interleave(ss', gs') == t[q..]
    requires ss == [t[..p]] + ss' && gs == [t[p..q]] + gs'
    ensures |ss| == |gs| + 1 && Interleave(ss, gs) == t
  {
    InterleaveCons(t[..p], t[p..q], ss', gs');
    SliceSplit(t, 0, p, q);
    assert t[0..] == t && t[0..p] == t[..p];
  }

  /** Splitting loses nothing: putting the delimiters back between the pieces gives `s`. */
  lemma {:induction false} SplitOnRoundTrip(s: String, delims: set<char>)
    ensures |SplitOn(s, delims)| == |Delimiters(s, delims)| + 1
    ensures Interleave(SplitOn(s, delims), Delimiters(s, delims)) == s
  {
    if s != [] {
      SplitOnRoundTrip(s[1..], delims);
      var rest, ds := SplitOn(s[1..], delims), Delimiters(s[1..], delims);
      if s[0] in delims {
        assert Delimiters(s, delims) == [[s[0]]] + ds;
        assert SplitOn(s, delims) == [[]] + rest;
        assert ([[]] + rest)[1..] == rest;
        assert s == [s[0]] + s[1..];
      } else {
        assert Delimiters(s, delims) == ds;
        var parts := [[s[0]] + rest[0]] + rest[1..];
        if ds == [] {
          assert s == [s[0]] + s[1..];
        } else {
          assert parts[1..] == rest[1..];
          assert Interleave(parts, ds) == [s[0]] + rest[0] + ds[0] + Interleave(rest[1..], ds[1..]);
          assert s == [s[0]] + s[1..];
        }
      }
    }
  }

  lemma {:induction false} SplitOnWithoutDelimiter(x: String, delims: set<char>)
    requires Avoids(x, delims)
    ensures SplitOn(x, delims) == [x]
  {
    if x != [] {
      SplitOnWithoutDelimiter(x[1..], delims);
      assert x == [x[0]] + x[1..];
    }
  }

  lemma {:induction false} SplitOnAfterPiece(x: String, d: char, y: String, delims: set<char>)
    requires Avoids(x, delims) && d in delims
    ensures SplitOn(x + [d] + y, delims) == [x] + SplitOn(y, delims)
  {
    var s := x + [d] + y;
    if x == [] {
      assert s[1..] == y;
    } else {
      assert s[1..] == x[1..] + [d] + y;
      SplitOnAfterPiece(x[1..], d, y, delims);
      assert x == [x[0]] + x[1..];
    }
  }

  /** Joining delimiter-free pieces with one delimiter and splitting again gives them back. */
  lemma {:induction false} SplitOnJoin(items: seq<String>, d: char)
    requires items != []
    requires forall j :: 0 <= j < |items| ==> Avoids(items[j], {d})
    ensures SplitOn(Join(items, [d]), {d}) == items
  {
    if |items| == 1 {
      SplitOnWithoutDelimiter(items[0], {d});
    } else {
      SplitOnJoin(items[1..], d);
      SplitOnAfterPiece(items[0], d, Join(items[1..], [d]), {d});
      assert items == [items[0]] + items[1..];
    }
  }
}
