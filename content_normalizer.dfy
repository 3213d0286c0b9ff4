/**
 * The deterministic content normalizer (`deterministic_normalize`).
 *
 * Newlines become spaces and the text is stripped; the text is cut at every
 * whitespace run that follows '.', '!' or '?'. Each stripped sentence goes to
 * the medication bucket if its lowercase form contains a medication keyword,
 * else to warnings if it contains a warning keyword, else to care. Each bucket
 * is deduplicated keeping first occurrences, then rendered as "- item" lines
 * under the three headers, with no placeholder for an empty bucket.
 */
module ContentNormalizer {
  import opened Text
  import opened Sections

  // ---------------------------------------------------------------------------
  // Cleanup and sentence split: re.split(r'(?<=[.!?])\s+', text)
  // ---------------------------------------------------------------------------

  /** `text.replace("\n", " ")`. */
  function ReplaceNewlines(text: String): (r: String)
    ensures |r| == |text|
    ensures forall k :: 0 <= k < |text| ==> r[k] == if text[k] == '\n' then ' ' else text[k]
  {
    seq(|text|, k requires 0 <= k < |text| => if text[k] == '\n' then ' ' else text[k])
  }

  /** `text.replace("\n", " ").strip()`. */
  function Cleaned(text: String): String {
    Strip(ReplaceNewlines(text))
  }

  const SentenceEnders: set<char> := {'.', '!', '?'}

  /** The split pattern matches at `p`: whitespace right after '.', '!' or '?'. */
  predicate BoundaryAt(t: String, p: int) {
    0 < p < |t| && t[p - 1] in SentenceEnders && IsSpace(t[p])
  }

  /** The first boundary at or after `from`, or `|t|` when there is none. */
  function ScanBoundary(t: String, from: nat): (p: nat)
    requires 1 <= from
    ensures from <= p <= |t| || p == |t|
    decreases |t| - from
  {
    if from >= |t| then |t|
    else if BoundaryAt(t, from) then from
    else ScanBoundary(t, from + 1)
  }

  /** The scan stops at a boundary, or at the end, and passes over no boundary. */
  lemma {:induction false} ScanBoundaryFacts(t: String, from: nat)
    requires 1 <= from
    ensures ScanBoundary(t, from) == |t| || BoundaryAt(t, ScanBoundary(t, from))
    ensures forall q :: from <= q < ScanBoundary(t, from) ==> !BoundaryAt(t, q)
    decreases |t| - from
  {
    if from < |t| && !BoundaryAt(t, from) {
      ScanBoundaryFacts(t, from + 1);
    }
  }

  /** The sentences: the pieces between maximal whitespace runs that follow an ender. */
  function SplitSentences(t: String): (r: seq<String>)
    ensures |r| >= 1
    decreases |t|
  {
    var p := ScanBoundary(t, 1);
    if p == |t| then [t]
    else
      var q := GapEnd(t, p);
      [t[..p]] + SplitSentences(t[q..])
  }

  /** The whitespace runs the split removes, in order. */
  function SentenceGaps(t: String): seq<String>
    decreases |t|
  {
    var p := ScanBoundary(t, 1);
    if p == |t| then []
    else
      var q := GapEnd(t, p);
      [t[p..q]] + SentenceGaps(t[q..])
  }

  /** One step of the split: the first sentence ends at the first boundary `p`, and the
      gap after it is the non-empty whitespace run from `p` to `q`. */
  lemma SplitStep(t: String, p: nat, q: nat)
    requires p == ScanBoundary(t, 1) < |t|
    requires q == GapEnd(t, p)
    ensures p < q <= |t|
    ensures SplitSentences(t) == [t[..p]] + SplitSentences(t[q..])
    ensures SentenceGaps(t) == [t[p..q]] + SentenceGaps(t[q..])
  {
    ScanBoundaryFacts(t, 1);
  }

  lemma {:induction false} SentenceCount(t: String)
    ensures |SplitSentences(t)| == |SentenceGaps(t)| + 1
    decreases |t|
  {
    var p := ScanBoundary(t, 1);
    if p < |t| {
      var q := GapEnd(t, p);
      SplitStep(t, p, q);
      SentenceCount(t[q..]);
    }
  }

  /** The split loses nothing: putting the removed gaps back between the sentences
      gives the text. */
  lemma {:induction false} SentenceSplitRoundTrip(t: String)
    ensures |SplitSentences(t)| == |SentenceGaps(t)| + 1
    ensures Interleave(SplitSentences(t), SentenceGaps(t)) == t
    decreases |t|
  {
    SentenceCount(t);
    var p := ScanBoundary(t, 1);
    if p < |t| {
      var q := GapEnd(t, p);
      SplitStep(t, p, q);
      var rest := t[q..];
      SentenceSplitRoundTrip(rest);
      InterleaveFirstCut(t, p, q, SplitSentences(t), SentenceGaps(t), SplitSentences(rest), SentenceGaps(rest));
    }
  }

  /** A sentence the split cut off: it ends with '.', '!' or '?'. */
  predicate EndsSentence(s: String) {
    s != [] && s[|s| - 1] in SentenceEnders
  }

  /** A gap the split removed: a non-empty whitespace run. */
  predicate IsGap(g: String) {
    g != [] && AllSpace(g)
  }

  /** The first sentence starts where the text does. */
  lemma FirstSentenceStart(u: String)
    ensures SplitSentences(u)[0] == [] || (u != [] && SplitSentences(u)[0][0] == u[0])
  {
    ScanBoundaryFacts(u, 1);
  }

  /** The split cuts only where the pattern matches: every gap is a non-empty
      whitespace run, every sentence but the last ends with '.', '!' or '?', and
      every gap is the whole run (`\s+` is greedy), so no later sentence starts
      with whitespace. */
  lemma SentenceCutsAtEnders(t: String)
    ensures |SplitSentences(t)| == |SentenceGaps(t)| + 1
    ensures forall j :: 0 <= j < |SentenceGaps(t)| ==> IsGap(SentenceGaps(t)[j])
    ensures forall j :: 0 <= j < |SentenceGaps(t)| ==> EndsSentence(SplitSentences(t)[j])
    ensures forall j :: 1 <= j < |SplitSentences(t)| ==>
              SplitSentences(t)[j] == [] || !IsSpace(SplitSentences(t)[j][0])
  {
    GapsAreRuns(t);
    SentencesEndWithEnders(t);
    SentencesStartAfterGaps(t);
  }

  lemma FirstGapIsRun(t: String, p: nat, q: nat)
    requires p == ScanBoundary(t, 1) < |t| && q == GapEnd(t, p)
    ensures IsGap(t[p..q])
  {
    GapEndFacts(t, p);
    ScanBoundaryFacts(t, 1);
    assert IsSpace(t[p]);
    forall k | 0 <= k < q - p ensures IsSpace(t[p..q][k]) {
      assert t[p..q][k] == t[p + k];
    }
  }

  /** Every gap is a non-empty whitespace run. */
  lemma {:induction false} GapsAreRuns(t: String)
    ensures |SplitSentences(t)| == |SentenceGaps(t)| + 1
    ensures forall j :: 0 <= j < |SentenceGaps(t)| ==> IsGap(SentenceGaps(t)[j])
    decreases |t|
  {
    SentenceCount(t);
    var p := ScanBoundary(t, 1);
    if p < |t| {
      var q := GapEnd(t, p);
      SplitStep(t, p, q);
      var rest := t[q..];
      GapsAreRuns(rest);
      var gs, gs' := SentenceGaps(t), SentenceGaps(rest);
      FirstGapIsRun(t, p, q);
      forall j | 1 <= j < |gs| ensures IsGap(gs[j]) {
        assert gs[j] == gs'[j - 1];
      }
    }
  }

  lemma FirstSentenceEnds(t: String, p: nat)
    requires p == ScanBoundary(t, 1) < |t|
    ensures EndsSentence(t[..p])
  {
    ScanBoundaryFacts(t, 1);
  }

  /** Every sentence followed by a gap ends with an ender. */
  lemma {:induction false} SentencesEndWithEnders(t: String)
    ensures |SplitSentences(t)| == |SentenceGaps(t)| + 1
    ensures forall j :: 0 <= j < |SentenceGaps(t)| ==> EndsSentence(SplitSentences(t)[j])
    decreases |t|
  {
    SentenceCount(t);
    var p := ScanBoundary(t, 1);
    if p < |t| {
      var q := GapEnd(t, p);
      SplitStep(t, p, q);
      var rest := t[q..];
      SentencesEndWithEnders(rest);
      SentenceCount(rest);
      var ss, gs := SplitSentences(t), SentenceGaps(t);
      var ss' := SplitSentences(rest);
      FirstSentenceEnds(t, p);
      forall j | 1 <= j < |gs| ensures EndsSentence(ss[j]) {
        assert ss[j] == ss'[j - 1];
      }
    }
  }

  /** Each removed gap is the whole whitespace run: a sentence after the first is
      empty or starts with a non-whitespace character. */
  lemma {:induction false} SentencesStartAfterGaps(t: String)
    ensures forall j :: 1 <= j < |SplitSentences(t)| ==>
              SplitSentences(t)[j] == [] || !IsSpace(SplitSentences(t)[j][0])
    decreases |t|
  {
    var p := ScanBoundary(t, 1);
    if p < |t| {
      var q := GapEnd(t, p);
      SplitStep(t, p, q);
      var rest := t[q..];
      SentencesStartAfterGaps(rest);
      var ss, ss' := SplitSentences(t), SplitSentences(rest);
      assert ss[1] == [] || !IsSpace(ss[1][0]) by {
        FirstSentenceStart(rest);
        assert ss[1] == ss'[0];
      }
      forall j | 2 <= j < |ss| ensures ss[j] == [] || !IsSpace(ss[j][0]) {
        assert ss[j] == ss'[j - 1];
      }
    }
  }

  /** No sentence contains a place where the pattern would match again. */
  lemma {:induction false} SentencesHaveNoBoundary(t: String)
    ensures forall j, r :: 0 <= j < |SplitSentences(t)| ==> !BoundaryAt(SplitSentences(t)[j], r)
    decreases |t|
  {
    ScanBoundaryFacts(t, 1);
    var p := ScanBoundary(t, 1);
    if p < |t| {
      var q := GapEnd(t, p);
      SplitStep(t, p, q);
      var rest := t[q..];
      SentencesHaveNoBoundary(rest);
      var ss := SplitSentences(t);
      forall j, r | 0 <= j < |ss| ensures !BoundaryAt(ss[j], r) {
        if j == 0 {
          if BoundaryAt(t[..p], r) {
            assert BoundaryAt(t, r);
          }
        } else {
          assert ss[j] == SplitSentences(rest)[j - 1];
        }
      }
    }
  }

  /** A text without characters from `chars` splits into sentences without them. */
  lemma {:induction false} SentencesAvoid(t: String, chars: set<char>)
    requires Avoids(t, chars)
    ensures forall j :: 0 <= j < |SplitSentences(t)| ==> Avoids(SplitSentences(t)[j], chars)
    decreases |t|
  {
    var p := ScanBoundary(t, 1);
    if p < |t| {
      var q := GapEnd(t, p);
      SplitStep(t, p, q);
      SentencesAvoid(t[q..], chars);
    }
  }

  /** The sentences of the cleaned input. */
  function Sentences(text: String): seq<String> {
    SplitSentences(Cleaned(text))
  }

  // ---------------------------------------------------------------------------
  // Buckets
  // ---------------------------------------------------------------------------

  const MedicationKeywords: seq<String> := ["mg", "tablet", "dose", "take", "medication"]
  const WarningKeywords: seq<String> := ["call", "seek", "emergency", "fever", "severe"]

  /** `any(x in s.lower() for x in keywords)`. */
  predicate HasKeyword(s: String, keywords: seq<String>) {
    exists k :: 0 <= k < |keywords| && Contains(Lower(s), keywords[k])
  }

  /** Medication keywords are checked first, then warning keywords; the rest is care. */
  function BucketOf(sentence: String): (c: Category)
    ensures c == Medication <==> HasKeyword(sentence, MedicationKeywords)
    ensures c == Warning <==> !HasKeyword(sentence, MedicationKeywords) && HasKeyword(sentence, WarningKeywords)
    ensures c == Care <==> !HasKeyword(sentence, MedicationKeywords) && !HasKeyword(sentence, WarningKeywords)
  {
    if HasKeyword(sentence, MedicationKeywords) then Medication
    else if HasKeyword(sentence, WarningKeywords) then Warning
    else Care
  }

  function InBucket(c: Category): String -> bool {
    st => BucketOf(st) == c
  }

  /** The bucket `c` before deduplication: its stripped sentences in source order. */
  function Bucket(text: String, c: Category): seq<String> {
    Select(Sentences(text), InBucket(c))
  }

  // ---------------------------------------------------------------------------
  // Deduplication keeping the first occurrence
  // ---------------------------------------------------------------------------

  /** `items` without later repeats: an element is kept where it first occurs. */
  function Deduped(items: seq<String>): (r: seq<String>)
    ensures |r| <= |items|
    ensures forall k :: 0 <= k < |r| ==> r[k] in items
  {
    if items == [] then []
    else
      var init := items[..|items| - 1];
      Deduped(init) + (if items[|items| - 1] in init then [] else [items[|items| - 1]])
  }

  /** The index of the first occurrence of `x`. */
  function FirstIndex(items: seq<String>, x: String): (i: nat)
    requires x in items
    ensures i < |items| && items[i] == x
    ensures forall k :: 0 <= k < i ==> items[k] != x
  {
    if items[0] == x then 0 else 1 + FirstIndex(items[1..], x)
  }

  lemma FirstIndexInPrefix(items: seq<String>, n: nat, x: String)
    requires n <= |items| && x in items[..n]
    ensures FirstIndex(items, x) == FirstIndex(items[..n], x)
  {
    var i, j := FirstIndex(items, x), FirstIndex(items[..n], x);
    assert items[j] == x;
  }

  /** The deduplicated list has no repeats and has exactly the elements of the input. */
  lemma {:induction false} DedupedElements(items: seq<String>)
    ensures Distinct(Deduped(items))
    ensures ToSet(Deduped(items)) == ToSet(items)
  {
    if items != [] {
      var n := |items| - 1;
      var init, x := items[..n], items[n];
      DedupedElements(init);
      var d := Deduped(init);
      assert items == init + [x];
      assert ToSet(items) == ToSet(init) + {x};
      if x !in init {
        assert x !in ToSet(d);
        var r := d + [x];
        assert Deduped(items) == r;
        forall k, l | 0 <= k < l < |r| ensures r[k] != r[l] {
          if l == |d| {
            assert r[k] == d[k] && r[k] in ToSet(d);
          }
        }
        assert ToSet(r) == ToSet(d) + {x};
      }
    }
  }

  /** `d` lists elements of `items` in the order of their first occurrences there. */
  predicate InFirstOccurrenceOrder(d: seq<String>, items: seq<String>) {
    forall k, l :: 0 <= k < l < |d| ==>
      d[k] in items && d[l] in items && FirstIndex(items, d[k]) < FirstIndex(items, d[l])
  }

  /** An order by first occurrences in a prefix is one in the whole list, and every
      element listed occurs first inside the prefix. */
  lemma OrderInPrefix(items: seq<String>, n: nat, d: seq<String>)
    requires n <= |items| && InFirstOccurrenceOrder(d, items[..n])
    requires forall k :: 0 <= k < |d| ==> d[k] in items[..n]
    ensures InFirstOccurrenceOrder(d, items)
    ensures forall k :: 0 <= k < |d| ==> d[k] in items && FirstIndex(items, d[k]) < n
  {
    forall k | 0 <= k < |d| ensures d[k] in items && FirstIndex(items, d[k]) == FirstIndex(items[..n], d[k]) {
      FirstIndexInPrefix(items, n, d[k]);
    }
  }

  /** Appending an element that occurs first after every listed one keeps the order. */
  lemma OrderAppend(items: seq<String>, d: seq<String>, x: String)
    requires x in items && InFirstOccurrenceOrder(d, items)
    requires forall k :: 0 <= k < |d| ==> d[k] in items && FirstIndex(items, d[k]) < FirstIndex(items, x)
    ensures InFirstOccurrenceOrder(d + [x], items)
  {
    var r := d + [x];
    forall k, l | 0 <= k < l < |r|
      ensures r[k] in items && r[l] in items && FirstIndex(items, r[k]) < FirstIndex(items, r[l])
    {
      assert r[k] == d[k];
      if l < |d| {
        assert r[l] == d[l];
      }
    }
  }

  /** The deduplicated list keeps the order of first occurrences. */
  lemma {:induction false} DedupedOrder(items: seq<String>)
    ensures InFirstOccurrenceOrder(Deduped(items), items)
  {
    if items != [] {
      var n := |items| - 1;
      var init, x := items[..n], items[n];
      DedupedOrder(init);
      DedupedElements(init);
      var d := Deduped(init);
      forall k | 0 <= k < |d| ensures d[k] in init {
        assert d[k] in ToSet(d);
      }
      OrderInPrefix(items, n, d);
      if x !in init {
        assert FirstIndex(items, x) == n;
        OrderAppend(items, d, x);
      }
    }
  }

  /** The deduplicated list has no repeats, has exactly the elements of the input, and
      lists them in the order of their first occurrences. */
  lemma DedupedCharacterization(items: seq<String>)
    ensures Distinct(Deduped(items))
    ensures ToSet(Deduped(items)) == ToSet(items)
    ensures InFirstOccurrenceOrder(Deduped(items), items)
  {
    DedupedElements(items);
    DedupedOrder(items);
  }

  /** A list without repeats is its own deduplication. */
  lemma {:induction false} DedupedOfDistinct(items: seq<String>)
    requires Distinct(items)
    ensures Deduped(items) == items
  {
    if items != [] {
      var n := |items| - 1;
      var init := items[..n];
      assert Distinct(init);
      DedupedOfDistinct(init);
      assert items[n] !in init;
      assert items == init + [items[n]];
    }
  }

  /** Deduplicating twice changes nothing. */
  lemma DedupedIdempotent(items: seq<String>)
    ensures Deduped(Deduped(items)) == Deduped(items)
  {
    DedupedCharacterization(items);
    DedupedOfDistinct(Deduped(items));
  }

  /** `dedupe`: a `seen` set and an `out` list updated in one pass. */
  method Dedupe(items: seq<String>) returns (out: seq<String>)
    ensures out == Deduped(items)
    ensures Distinct(out) && ToSet(out) == ToSet(items)
  {
    var seen: set<String> := {};
    out := [];
    var i := 0;
    while i < |items|
      invariant 0 <= i <= |items|
      invariant out == Deduped(items[..i])
      invariant seen == ToSet(items[..i])
    {
      assert items[..i + 1][..i] == items[..i];
      assert ToSet(items[..i + 1]) == ToSet(items[..i]) + {items[i]};
      if items[i] !in seen {
        out := out + [items[i]];
        seen := seen + {items[i]};
      }
      i := i + 1;
    }
    assert items[..i] == items;
    DedupedCharacterization(items);
  }

  // ---------------------------------------------------------------------------
  // Rendering
  // ---------------------------------------------------------------------------

  /** `f"- {item}"` for every item. */
  function BulletLines(items: seq<String>): (lines: seq<String>)
    ensures |lines| == |items|
    ensures forall k :: 0 <= k < |items| ==> lines[k] == "- " + items[k]
  {
    seq(|items|, k requires 0 <= k < |items| => "- " + items[k])
  }

  /** `"\n".join(f"- {m}" for m in items)`. */
  function Bullets(items: seq<String>): String {
    Join(BulletLines(items), "\n")
  }

  function Render(medication: seq<String>, care: seq<String>, warning: seq<String>): String {
    Layout(Bullets(medication), Bullets(care), Bullets(warning))
  }

  /** One "- item" line per entry: splitting the rendered block at newlines gives back
      exactly the bullet lines, when the items contain no newline. */
  lemma BulletsOnePerLine(items: seq<String>)
    requires items != []
    requires forall k :: 0 <= k < |items| ==> Avoids(items[k], {'\n'})
    ensures SplitOn(Bullets(items), {'\n'}) == BulletLines(items)
  {
    var lines := BulletLines(items);
    forall k | 0 <= k < |lines| ensures Avoids(lines[k], {'\n'}) {
      assert lines[k] == "- " + items[k];
    }
    SplitOnJoin(lines, '\n');
  }

  /** An empty bucket renders as nothing at all: there is no placeholder. */
  lemma BulletsEmptyIff(items: seq<String>)
    ensures Bullets(items) == [] <==> items == []
  {
    if items != [] {
      var lines := BulletLines(items);
      assert lines[0] == "- " + items[0];
      if |lines| > 1 {
        assert Bullets(items) == lines[0] + "\n" + Join(lines[1..], "\n");
      }
    }
  }

  /** The normalized document for `text`. */
  function Normalized(text: String): String {
    Render(Deduped(Bucket(text, Medication)), Deduped(Bucket(text, Care)), Deduped(Bucket(text, Warning)))
  }

  /** Filing one more sentence extends exactly the bucket its keywords choose. */
  lemma FileSentence(sentences: seq<String>, i: nat, c: Category)
    requires i < |sentences|
    ensures Select(sentences[..i + 1], InBucket(c)) ==
      Select(sentences[..i], InBucket(c)) +
      (if BucketOf(Strip(sentences[i])) == c then [Strip(sentences[i])] else [])
  {
    SelectStep(sentences, i, InBucket(c));
    assert InBucket(c)(Strip(sentences[i])) == (BucketOf(Strip(sentences[i])) == c);
  }

  /** The loop of `deterministic_normalize`: each stripped sentence is appended to the
      medication list if it has a medication keyword, else to the warning list if it has
      a warning keyword, else to the care list. */
  method FileSentences(sentences: seq<String>) returns (meds: seq<String>, care: seq<String>, warn: seq<String>)
    ensures meds == Select(sentences, InBucket(Medication))
    ensures care == Select(sentences, InBucket(Care))
    ensures warn == Select(sentences, InBucket(Warning))
  {
    meds, care, warn := [], [], [];
    var i := 0;
    while i < |sentences|
      invariant 0 <= i <= |sentences|
      invariant meds == Select(sentences[..i], InBucket(Medication))
      invariant care == Select(sentences[..i], InBucket(Care))
      invariant warn == Select(sentences[..i], InBucket(Warning))
    {
      var sClean := Strip(sentences[i]);
      FileSentence(sentences, i, Medication);
      FileSentence(sentences, i, Care);
      FileSentence(sentences, i, Warning);
      var isMedication := HasKeyword(sClean, MedicationKeywords);
      var isWarning := HasKeyword(sClean, WarningKeywords);
      if isMedication {
        meds := meds + [sClean];
      } else if isWarning {
        warn := warn + [sClean];
      } else {
        care := care + [sClean];
      }
      i := i + 1;
    }
    assert sentences[..i] == sentences;
  }

  /** `deterministic_normalize`: clean and split the text, file the sentences,
      deduplicate each bucket, then render the document. */
  method DeterministicNormalize(text: String) returns (normalized: String)
    ensures normalized == Normalized(text)
  {
    var cleaned := Strip(ReplaceNewlines(text));
    var sentences := SplitSentences(cleaned);
    var meds, care, warn := FileSentences(sentences);
    meds := Dedupe(meds);
    care := Dedupe(care);
    warn := Dedupe(warn);
    normalized := MedicationHeader + Join(BulletLines(meds), "\n")
      + CareHeader + Join(BulletLines(care), "\n")
      + WarningHeader + Join(BulletLines(warn), "\n");
  }

  // ---------------------------------------------------------------------------
  // Properties of the normalizer
  // ---------------------------------------------------------------------------

  /** Nothing is fabricated and no sentence is in two buckets: every rendered item is
      a stripped sentence of the input, contains no newline, and belongs to exactly
      the bucket of its keywords. */
  lemma NoFabrication(text: String, c: Category, x: String)
    requires x in Deduped(Bucket(text, c))
    ensures BucketOf(x) == c
    ensures exists j :: 0 <= j < |Sentences(text)| && x == Strip(Sentences(text)[j])
    ensures Avoids(x, {'\n'})
  {
    var parts := Sentences(text);
    DedupedElements(Bucket(text, c));
    assert x in Select(parts, InBucket(c)) by {
      assert x in ToSet(Bucket(text, c));
    }
    SelectSound(parts, InBucket(c), x);
    CleanedAvoidsNewline(text);
    SentencesAvoid(Cleaned(text), {'\n'});
    var j :| 0 <= j < |parts| && x == Strip(parts[j]);
    StripAvoids(parts[j], {'\n'});
  }

  /** The cleaned text has no newline left. */
  lemma CleanedAvoidsNewline(text: String)
    ensures Avoids(Cleaned(text), {'\n'})
  {
    StripAvoids(ReplaceNewlines(text), {'\n'});
  }

  /** Each rendered bucket is one "- item" line per distinct sentence of the bucket. */
  lemma RenderedLines(text: String, c: Category)
    requires Bucket(text, c) != []
    ensures SplitOn(Bullets(Deduped(Bucket(text, c))), {'\n'}) == BulletLines(Deduped(Bucket(text, c)))
  {
    var items := Deduped(Bucket(text, c));
    DedupedCharacterization(Bucket(text, c));
    assert Bucket(text, c)[0] in ToSet(Bucket(text, c));
    forall k | 0 <= k < |items| ensures Avoids(items[k], {'\n'}) {
      NoFabrication(text, c, items[k]);
    }
    BulletsOnePerLine(items);
  }

  /** Empty or whitespace-only input cleans to the empty text: one empty sentence. */
  lemma WhitespaceOnlySentences(text: String)
    requires AllSpace(text)
    ensures Sentences(text) == [[]]
  {
    var r := ReplaceNewlines(text);
    assert AllSpace(r);
    StripAllSpace(r);
    assert ScanBoundary([], 1) == 0;
  }

  /** The empty sentence has no keyword, so a lone empty sentence is filed as care. */
  lemma EmptySentenceBuckets(sentences: seq<String>)
    requires sentences == [[]]
    ensures Select(sentences, InBucket(Care)) == [[]]
    ensures Select(sentences, InBucket(Medication)) == []
    ensures Select(sentences, InBucket(Warning)) == []
  {
    assert Strip([]) == [];
    assert Lower([]) == [];
    assert !HasKeyword([], MedicationKeywords) && !HasKeyword([], WarningKeywords);
    assert sentences[..0] == [];
  }

  /** Empty or whitespace-only input gives one empty sentence, filed as care and
      rendered as the single line "- ". */
  lemma WhitespaceOnlyInput(text: String)
    requires AllSpace(text)
    ensures Sentences(text) == [[]]
    ensures Normalized(text) == Layout([], "- ", [])
  {
    WhitespaceOnlySentences(text);
    EmptySentenceBuckets(Sentences(text));
    var care: seq<String> := [[]];
    assert Deduped(care) == care by {
      assert care[..0] == [];
    }
    assert Bullets(care) == "- ";
    assert Bullets([]) == [];
  }
}
