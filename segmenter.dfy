/** The grouping shared by `build_sequence_pattern` and `get_pattern_preview`:
    selections sorted by `word_index` are cut into maximal runs of
    consecutive word indices; each run becomes one Word whose text is the
    run's texts joined by single spaces, and an open gap `Gap{0, None}` goes
    between two runs. */
module Segmenter {
  import opened Wrappers
  import opened Text
  import opened Patterns
  import opened Selections

  /** `next.word_index == current.word_index + 1` for `next = s[k]`. */
  predicate Adjacent(s: seq<SelectionSpan>, k: nat)
    requires 0 < k < |s|
  {
    s[k].wordIndex == s[k - 1].wordIndex + 1
  }

  /** Where the run that has reached index `j` stops: the first index from
      `j` on that is not adjacent to its predecessor, or the end. */
  function RunEnd(s: seq<SelectionSpan>, j: nat): (e: nat)
    requires 1 <= j <= |s|
    ensures j <= e <= |s|
    decreases |s| - j
  {
    if j < |s| && Adjacent(s, j) then RunEnd(s, j + 1) else j
  }

  /** Every index the run passes is adjacent to its predecessor, and the
      index where it stops is not. */
  lemma {:induction false} RunEndStopsAtBreak(s: seq<SelectionSpan>, j: nat)
    requires 1 <= j <= |s|
    ensures forall k :: j <= k < RunEnd(s, j) ==> Adjacent(s, k)
    ensures RunEnd(s, j) == |s| || !Adjacent(s, RunEnd(s, j))
    decreases |s| - j
  {
    if j < |s| && Adjacent(s, j) {
      RunEndStopsAtBreak(s, j + 1);
    }
  }

  /** The runs of `s[i..]`, in order. */
  function RunsFrom(s: seq<SelectionSpan>, i: nat): seq<seq<SelectionSpan>>
    requires i <= |s|
    decreases |s| - i
  {
    if i == |s| then []
    else
      var j := RunEnd(s, i + 1);
      [s[i..j]] + RunsFrom(s, j)
  }

  function Runs(s: seq<SelectionSpan>): seq<seq<SelectionSpan>> {
    RunsFrom(s, 0)
  }

  function Texts(run: seq<SelectionSpan>): seq<string> {
    seq(|run|, k requires 0 <= k < |run| => run[k].text)
  }

  /** `phrase_words.join(" ")`. */
  function Phrase(run: seq<SelectionSpan>): string {
    Join(" ", Texts(run))
  }

  /** One Word per run, with an open gap between each two. */
  function Interleave(rs: seq<seq<SelectionSpan>>): seq<PatternElement>
    decreases |rs|
  {
    if |rs| == 0 then []
    else [Word(Phrase(rs[0]))] + (if |rs| == 1 then [] else [OpenGap] + Interleave(rs[1..]))
  }

  /** The elements the segmenter produces from selections already sorted. */
  function Segment(s: seq<SelectionSpan>): seq<PatternElement> {
    Interleave(Runs(s))
  }

  /** A preview descriptor, the JSON object `{"type": kind, "text": text}`. */
  datatype PreviewItem = PreviewItem(kind: string, text: string)

  const AndItem: PreviewItem := PreviewItem("and", "AND")

  /** One "word" or "phrase" descriptor per run, with an "and" between each two. */
  function PreviewOfRuns(rs: seq<seq<SelectionSpan>>): seq<PreviewItem>
    decreases |rs|
  {
    if |rs| == 0 then []
    else
      [PreviewItem(if |rs[0]| == 1 then "word" else "phrase", Phrase(rs[0]))]
      + (if |rs| == 1 then [] else [AndItem] + PreviewOfRuns(rs[1..]))
  }

  /** The descriptors the preview produces from selections already sorted. */
  function Preview(s: seq<SelectionSpan>): seq<PreviewItem> {
    PreviewOfRuns(Runs(s))
  }

  // ----- Runs are exactly the maximal runs of consecutive word indices -----

  predicate Consecutive(run: seq<SelectionSpan>) {
    forall k :: 0 < k < |run| ==> run[k].wordIndex == run[k - 1].wordIndex + 1
  }

  function Flatten(rs: seq<seq<SelectionSpan>>): seq<SelectionSpan>
    decreases |rs|
  {
    if |rs| == 0 then [] else rs[0] + Flatten(rs[1..])
  }

  /** `rs` cuts `t` into non-empty runs of consecutive word indices, and no
      run could be extended into the next one. */
  predicate IsRunDecomposition(t: seq<SelectionSpan>, rs: seq<seq<SelectionSpan>>) {
    && Flatten(rs) == t
    && (forall m :: 0 <= m < |rs| ==> |rs[m]| > 0 && Consecutive(rs[m]))
    && (forall m :: 0 < m < |rs| ==> rs[m][0].wordIndex != rs[m - 1][|rs[m - 1]| - 1].wordIndex + 1)
  }

  /** A run in front of a decomposition extends it, when it cannot be merged
      with the first run behind it. */
  lemma DecompositionCons(r: seq<SelectionSpan>, t: seq<SelectionSpan>, rest: seq<seq<SelectionSpan>>)
    requires IsRunDecomposition(t, rest)
    requires |r| > 0 && Consecutive(r)
    requires |rest| > 0 ==> rest[0][0].wordIndex != r[|r| - 1].wordIndex + 1
    ensures IsRunDecomposition(r + t, [r] + rest)
  {
    var rs := [r] + rest;
    assert rs[1..] == rest;
    forall m | 0 < m < |rs|
      ensures rs[m][0].wordIndex != rs[m - 1][|rs[m - 1]| - 1].wordIndex + 1
    {
      assert rs[m] == rest[m - 1];
      if m > 1 {
        assert rs[m - 1] == rest[m - 2];
      }
    }
  }

  lemma {:induction false} RunsFromDecompose(s: seq<SelectionSpan>, i: nat)
    requires i <= |s|
    ensures IsRunDecomposition(s[i..], RunsFrom(s, i))
    decreases |s| - i
  {
    if i < |s| {
      var j := RunEnd(s, i + 1);
      RunEndStopsAtBreak(s, i + 1);
      var run := s[i..j];
      var rest := RunsFrom(s, j);
      RunsFromDecompose(s, j);
      assert s[i..] == run + s[j..];
      assert Consecutive(run) by {
        forall k | 0 < k < |run|
          ensures run[k].wordIndex == run[k - 1].wordIndex + 1
        {
          assert Adjacent(s, i + k);
        }
      }
      if |rest| > 0 {
        assert rest[0][0] == s[j];
        assert !Adjacent(s, j);
      }
      DecompositionCons(run, s[j..], rest);
    }
  }

  /** The first run of a decomposition is a prefix, and the other runs
      decompose the rest. */
  lemma DecompositionTail(t: seq<SelectionSpan>, rs: seq<seq<SelectionSpan>>)
    requires IsRunDecomposition(t, rs) && |rs| > 0
    ensures |rs[0]| <= |t| && t[..|rs[0]|] == rs[0]
    ensures IsRunDecomposition(t[|rs[0]|..], rs[1..])
    ensures |rs| > 1 ==> |rs[0]| < |t| && t[|rs[0]|] == rs[1][0]
  {
    assert t == rs[0] + Flatten(rs[1..]);
    var tail: seq<seq<SelectionSpan>> := rs[1..];
    forall m | 0 < m < |tail|
      ensures tail[m][0].wordIndex != tail[m - 1][|tail[m - 1]| - 1].wordIndex + 1
    {
      assert tail[m] == rs[m + 1] && tail[m - 1] == rs[m];
    }
    if |rs| > 1 {
      assert Flatten(tail) == tail[0] + Flatten(tail[1..]);
    }
  }

  /** A run that starts at `i`, is adjacent inside and breaks right after
      its end, ends where `RunEnd` says. */
  lemma RunEndOfBreak(s: seq<SelectionSpan>, i: nat, j: nat)
    requires i < j <= |s|
    requires forall k | i + 1 <= k < j :: Adjacent(s, k)
    requires j < |s| ==> !Adjacent(s, j)
    ensures RunEnd(s, i + 1) == j
  {
    var e := RunEnd(s, i + 1);
    RunEndStopsAtBreak(s, i + 1);
    assert !(e < j) && !(e > j);
  }

  /** The first run of a decomposition of `s[i..]` is `s[i..RunEnd(s, i + 1)]`. */
  lemma FirstRunIsMaximal(s: seq<SelectionSpan>, i: nat, rs: seq<seq<SelectionSpan>>)
    requires i < |s|
    requires IsRunDecomposition(s[i..], rs)
    ensures |rs| > 0 && i + |rs[0]| == RunEnd(s, i + 1)
    ensures rs[0] == s[i..i + |rs[0]|]
    ensures IsRunDecomposition(s[i + |rs[0]|..], rs[1..])
  {
    DecompositionTail(s[i..], rs);
    var j := i + |rs[0]|;
    assert rs[0] == s[i..j];
    assert s[i..][|rs[0]|..] == s[j..];
    forall k | i + 1 <= k < j
      ensures Adjacent(s, k)
    {
      assert rs[0][k - i] == s[k] && rs[0][k - i - 1] == s[k - 1];
    }
    assert j < |s| ==> !Adjacent(s, j) by {
      if j < |s| {
        assert rs[0][|rs[0]| - 1] == s[j - 1];
      }
    }
    RunEndOfBreak(s, i, j);
  }

  lemma {:induction false} RunsFromUnique(s: seq<SelectionSpan>, i: nat, rs: seq<seq<SelectionSpan>>)
    requires i <= |s|
    requires IsRunDecomposition(s[i..], rs)
    ensures rs == RunsFrom(s, i)
    decreases |s| - i
  {
    if i == |s| {
      assert rs == [] == RunsFrom(s, i);
    } else {
      FirstRunIsMaximal(s, i, rs);
      var j := i + |rs[0]|;
      assert RunsFrom(s, i) == [s[i..j]] + RunsFrom(s, j);
      RunsFromUnique(s, j, rs[1..]);
      assert rs == [rs[0]] + rs[1..];
    }
  }

  /** `Runs(s)` is a decomposition of `s` into maximal runs of consecutive
      word indices, and the only one: the segmenter makes exactly one Word
      per maximal run. Two selections with the same word index are never in
      the same run. */
  lemma RunsAreTheMaximalRuns(s: seq<SelectionSpan>, rs: seq<seq<SelectionSpan>>)
    ensures IsRunDecomposition(s, Runs(s))
    ensures IsRunDecomposition(s, rs) <==> rs == Runs(s)
  {
    assert s[0..] == s;
    RunsFromDecompose(s, 0);
    if IsRunDecomposition(s, rs) {
      RunsFromUnique(s, 0, rs);
    }
  }

  // ----- The shape of the segmenter's output -----

  lemma {:induction false} InterleaveShape(rs: seq<seq<SelectionSpan>>)
    ensures |Interleave(rs)| == if |rs| == 0 then 0 else 2 * |rs| - 1
    ensures forall k :: 0 <= k < |Interleave(rs)| ==>
      Interleave(rs)[k] == if k % 2 == 0 then Word(Phrase(rs[k / 2])) else OpenGap
    decreases |rs|
  {
    if |rs| > 1 {
      var tail := Interleave(rs[1..]);
      InterleaveShape(rs[1..]);
      var all := Interleave(rs);
      assert all == [Word(Phrase(rs[0])), OpenGap] + tail;
      forall k | 2 <= k < |all|
        ensures all[k] == if k % 2 == 0 then Word(Phrase(rs[k / 2])) else OpenGap
      {
        assert all[k] == tail[k - 2];
        assert (k - 2) / 2 == k / 2 - 1 && (k - 2) % 2 == k % 2;
        assert rs[1..][k / 2 - 1] == rs[k / 2];
      }
    }
  }

  /** For a non-empty selection, with n maximal runs: the output has 2n - 1
      elements, alternating Word, Gap, Word, ..., beginning and ending with a
      Word (so n Words and n - 1 Gaps); the m-th Word's text is the m-th
      run's texts joined by single spaces, and every Gap is `Gap{0, None}`. */
  lemma SegmentStructure(s: seq<SelectionSpan>)
    requires |s| > 0
    ensures var n, es := |Runs(s)|, Segment(s);
      && n >= 1 && |es| == 2 * n - 1
      && es[0].Word? && es[|es| - 1].Word?
      && (forall k :: 0 <= k < |es| ==> (es[k].Word? <==> k % 2 == 0))
      && (forall k :: 0 <= k < |es| && k % 2 == 1 ==> es[k] == OpenGap)
      && (forall m :: 0 <= m < n ==> es[2 * m] == Word(Phrase(Runs(s)[m])))
  {
    var rs := Runs(s);
    InterleaveShape(rs);
    var es := Segment(s);
    assert |rs| >= 1;
    forall m | 0 <= m < |rs|
      ensures es[2 * m] == Word(Phrase(rs[m]))
    {
      assert (2 * m) % 2 == 0 && (2 * m) / 2 == m;
    }
  }

  /** A single selection yields exactly one Word, its own text. */
  lemma SegmentOfOne(x: SelectionSpan)
    ensures Segment([x]) == [Word(x.text)]
  {
    assert RunEnd([x], 1) == 1;
    assert [x][0..1] == [x];
    assert RunsFrom([x], 1) == [];
    assert Runs([x]) == [[x]];
    assert Texts([x]) == [x.text];
  }

  /** Three selections at word indices 0, 1 and 2 form one phrase. */
  lemma SegmentExampleConsecutive()
    ensures Segment([SelectionSpan("the", 0, 3, 0), SelectionSpan("quick", 4, 9, 1), SelectionSpan("fox", 10, 13, 2)])
      == [Word("the quick fox")]
  {
    var s := [SelectionSpan("the", 0, 3, 0), SelectionSpan("quick", 4, 9, 1), SelectionSpan("fox", 10, 13, 2)];
    assert RunEnd(s, 1) == 3;
    assert RunsFrom(s, 3) == [];
    assert s[0..3] == s;
    assert RunsFrom(s, 0) == [s[0..3]] + RunsFrom(s, 3);
    assert Runs(s) == [s];
    assert Texts(s) == ["the", "quick", "fox"];
    var ws := ["the", "quick", "fox"];
    assert ws[1..] == ["quick", "fox"] && ws[1..][1..] == ["fox"];
    assert Join(" ", ["quick", "fox"]) == "quick fox";
    assert Phrase(s) == "the quick fox";
    assert Interleave([s]) == [Word(Phrase(s))];
  }

  /** Selections at word indices 0 and 2 are two Words with an open gap between. */
  lemma SegmentExampleGap()
    ensures Segment([SelectionSpan("the", 0, 3, 0), SelectionSpan("fox", 10, 13, 2)])
      == [Word("the"), OpenGap, Word("fox")]
  {
    var s := [SelectionSpan("the", 0, 3, 0), SelectionSpan("fox", 10, 13, 2)];
    assert RunEnd(s, 1) == 1;
    assert RunEnd(s, 2) == 2;
    assert RunsFrom(s, 2) == [];
    assert RunsFrom(s, 1) == [s[1..2]];
    assert Runs(s) == [s[0..1], s[1..2]];
    assert Texts(s[0..1]) == ["the"];
    assert Texts(s[1..2]) == ["fox"];
  }

  /** Duplicate word indices are never adjacent: two selections of the same
      word give two Words with a gap. */
  lemma SegmentExampleDuplicate(x: SelectionSpan)
    ensures Segment([x, x]) == [Word(x.text), OpenGap, Word(x.text)]
  {
    var s := [x, x];
    assert RunEnd(s, 1) == 1;
    assert RunEnd(s, 2) == 2;
    assert RunsFrom(s, 2) == [];
    assert RunsFrom(s, 1) == [s[1..2]];
    assert Runs(s) == [s[0..1], s[1..2]];
    assert Texts(s[0..1]) == [x.text];
    assert Texts(s[1..2]) == [x.text];
    assert Interleave(Runs(s)) == [Word(Phrase(s[0..1]))] + [OpenGap] + Interleave([s[1..2]]);
  }

  // ----- Preview and segment agree -----

  /** The descriptor for one run. */
  function RunItem(run: seq<SelectionSpan>): PreviewItem {
    PreviewItem(if |run| == 1 then "word" else "phrase", Phrase(run))
  }

  lemma {:induction false} PreviewShape(rs: seq<seq<SelectionSpan>>)
    ensures |PreviewOfRuns(rs)| == |Interleave(rs)| == if |rs| == 0 then 0 else 2 * |rs| - 1
    ensures forall k :: 0 <= k < |PreviewOfRuns(rs)| ==>
      PreviewOfRuns(rs)[k] == if k % 2 == 0 then RunItem(rs[k / 2]) else AndItem
    decreases |rs|
  {
    InterleaveShape(rs);
    if |rs| > 1 {
      PreviewShape(rs[1..]);
      forall k | 0 <= k < |PreviewOfRuns(rs)|
        ensures PreviewOfRuns(rs)[k] == if k % 2 == 0 then RunItem(rs[k / 2]) else AndItem
      {
        PreviewStep(rs, k);
      }
    }
  }

  /** Position `k` of a preview of two or more runs, from the preview of the
      runs after the first. */
  lemma PreviewStep(rs: seq<seq<SelectionSpan>>, k: nat)
    requires |rs| > 1 && k < 2 * |rs| - 1
    requires |PreviewOfRuns(rs[1..])| == 2 * |rs| - 3
    requires forall k :: 0 <= k < |PreviewOfRuns(rs[1..])| ==>
      PreviewOfRuns(rs[1..])[k] == if k % 2 == 0 then RunItem(rs[1..][k / 2]) else AndItem
    ensures |PreviewOfRuns(rs)| == 2 * |rs| - 1
    ensures PreviewOfRuns(rs)[k] == if k % 2 == 0 then RunItem(rs[k / 2]) else AndItem
  {
    var all := PreviewOfRuns(rs);
    assert all == [RunItem(rs[0]), AndItem] + PreviewOfRuns(rs[1..]);
    if k >= 2 {
      assert all[k] == PreviewOfRuns(rs[1..])[k - 2];
      assert (k - 2) / 2 == k / 2 - 1 && (k - 2) % 2 == k % 2;
      assert rs[1..][k / 2 - 1] == rs[k / 2];
    }
  }

  /** What a preview descriptor says about the element in the same place. */
  predicate Describes(d: PreviewItem, e: PatternElement) {
    || (e.Word? && d.text == e.text && (d.kind == "word" || d.kind == "phrase"))
    || (e == OpenGap && d == AndItem)
  }

  /** The preview never diverges from what gets built: one descriptor per
      element, a Word's text in a "word" or "phrase" descriptor and the open
      gap as "and"/"AND"; "word" exactly for a run of one selection. */
  lemma PreviewMatchesSegment(s: seq<SelectionSpan>)
    ensures |Preview(s)| == |Segment(s)| == if |s| == 0 then 0 else 2 * |Runs(s)| - 1
    ensures forall k :: 0 <= k < |Segment(s)| ==> Describes(Preview(s)[k], Segment(s)[k])
    ensures forall m :: 0 <= m < |Runs(s)| ==>
      Preview(s)[2 * m].kind == if |Runs(s)[m]| == 1 then "word" else "phrase"
  {
    var rs := Runs(s);
    InterleaveShape(rs);
    PreviewShape(rs);
    assert |s| > 0 ==> |rs| > 0;
    forall m | 0 <= m < |rs|
      ensures Preview(s)[2 * m].kind == if |rs[m]| == 1 then "word" else "phrase"
    {
      assert (2 * m) % 2 == 0 && (2 * m) / 2 == m;
    }
  }

  // ----- The regex of a segmented selection -----

  function Anchored(rs: seq<seq<SelectionSpan>>, escape: Escaper): seq<string> {
    seq(|rs|, m requires 0 <= m < |rs| => "\\b" + escape(Phrase(rs[m])) + "\\b")
  }

  lemma {:induction false} InterleaveRegex(rs: seq<seq<SelectionSpan>>, escape: Escaper)
    requires |rs| > 0
    ensures ElementsRegex(Interleave(rs), escape) == Join(".*?", Anchored(rs, escape))
    decreases |rs|
  {
    var w := Word(Phrase(rs[0]));
    ElementCompilation(w, escape);
    ElementCompilation(OpenGap, escape);
    var a := Anchored(rs, escape);
    ElementsRegexOne(w, escape);
    if |rs| == 1 {
      assert Interleave(rs) == [w];
    } else {
      var tail := Interleave(rs[1..]);
      assert Interleave(rs) == [w, OpenGap] + tail;
      ElementsRegexAppend([w, OpenGap], tail, escape);
      ElementsRegexAppend([w], [OpenGap], escape);
      assert [w] + [OpenGap] == [w, OpenGap];
      ElementsRegexOne(OpenGap, escape);
      InterleaveRegex(rs[1..], escape);
      assert a == [a[0]] + Anchored(rs[1..], escape);
      JoinAppend(".*?", [a[0]], Anchored(rs[1..], escape));
    }
  }

  /** The regex built from a non-empty selection is the anchored, escaped
      phrase of each run, in order, joined by the lazy wildcard `.*?`. */
  lemma SegmentRegex(s: seq<SelectionSpan>, id: string, name: string, escape: Escaper)
    requires |s| > 0
    ensures ToRegex(Sequence(id, name, Segment(s)), escape) == Join(".*?", Anchored(Runs(s), escape))
  {
    InterleaveRegex(Runs(s), escape);
  }

  // ----- The segmenting loop of build_sequence_pattern -----

  /** One step of the outer loop: the run starting at `i` and what follows. */
  lemma InterleaveRunsFrom(s: seq<SelectionSpan>, i: nat)
    requires i < |s|
    ensures var j := RunEnd(s, i + 1);
      Interleave(RunsFrom(s, i))
      == [Word(Phrase(s[i..j]))] + (if j == |s| then [] else [OpenGap] + Interleave(RunsFrom(s, j)))
  {
    var j := RunEnd(s, i + 1);
    var rest := RunsFrom(s, j);
    assert RunsFrom(s, i) == [s[i..j]] + rest;
    assert ([s[i..j]] + rest)[1..] == rest;
    assert rest == [] <==> j == |s|;
  }

  /** After one step of the outer loop, the elements built so far followed by
      the segmentation of what is left are unchanged. */
  lemma OuterStep(s: seq<SelectionSpan>, i: nat, done: seq<PatternElement>)
    requires i < |s|
    ensures var j := RunEnd(s, i + 1);
      (done + [Word(Phrase(s[i..j]))] + (if j < |s| then [OpenGap] else [])) + Interleave(RunsFrom(s, j))
      == done + Interleave(RunsFrom(s, i))
  {
    var j := RunEnd(s, i + 1);
    InterleaveRunsFrom(s, i);
    var w := [Word(Phrase(s[i..j]))];
    if j < |s| {
      var tail := Interleave(RunsFrom(s, j));
      assert (done + w + [OpenGap]) + tail == done + (w + ([OpenGap] + tail));
    } else {
      assert RunsFrom(s, j) == [];
    }
  }

  /** The inner loop's step: an adjacent selection extends the same run. */
  lemma RunEndStep(s: seq<SelectionSpan>, j: nat)
    requires 1 <= j < |s| && s[j].wordIndex == s[j - 1].wordIndex + 1
    ensures RunEnd(s, j + 1) == RunEnd(s, j)
  {
  }

  lemma TextsSnoc(s: seq<SelectionSpan>, i: nat, j: nat)
    requires i <= j < |s|
    ensures Texts(s[i..j + 1]) == Texts(s[i..j]) + [s[j].text]
  {
  }

  /** The nested loops of `build_sequence_pattern` over the sorted selections. */
  method SegmentSorted(s: seq<SelectionSpan>) returns (elements: seq<PatternElement>)
    ensures elements == Segment(s)
  {
    elements := [];
    var i := 0;
    while i < |s|
      invariant i <= |s|
      invariant elements + Interleave(RunsFrom(s, i)) == Segment(s)
    {
      var phraseWords := [s[i].text];
      var j := i + 1;
      while j < |s|
        invariant i + 1 <= j <= |s|
        invariant RunEnd(s, j) == RunEnd(s, i + 1)
        invariant phraseWords == Texts(s[i..j])
      {
        if s[j].wordIndex == s[j - 1].wordIndex + 1 {
          TextsSnoc(s, i, j);
          RunEndStep(s, j);
          phraseWords := phraseWords + [s[j].text];
          j := j + 1;
        } else {
          break;
        }
      }
      assert j == RunEnd(s, i + 1);
      OuterStep(s, i, elements);
      if |phraseWords| == 1 {
        elements := elements + [Word(phraseWords[0])];
      } else {
        elements := elements + [Word(Join(" ", phraseWords))];
      }
      if j < |s| {
        elements := elements + [OpenGap];
      }
      i := j;
    }
  }

  // ----- The grouping loop of get_pattern_preview -----

  lemma PreviewRunsFrom(s: seq<SelectionSpan>, i: nat)
    requires i < |s|
    ensures var j := RunEnd(s, i + 1);
      PreviewOfRuns(RunsFrom(s, i))
      == [PreviewItem(if j - i == 1 then "word" else "phrase", Phrase(s[i..j]))]
         + (if j == |s| then [] else [AndItem] + PreviewOfRuns(RunsFrom(s, j)))
  {
    var j := RunEnd(s, i + 1);
    var rest := RunsFrom(s, j);
    assert RunsFrom(s, i) == [s[i..j]] + rest;
    assert ([s[i..j]] + rest)[1..] == rest;
    assert rest == [] <==> j == |s|;
  }

  /** One step of the preview's outer loop keeps the descriptors built so far
      followed by the preview of what is left unchanged. */
  lemma PreviewOuterStep(s: seq<SelectionSpan>, i: nat, done: seq<PreviewItem>)
    requires i < |s|
    ensures var j := RunEnd(s, i + 1);
      (done + [PreviewItem(if j - i == 1 then "word" else "phrase", Phrase(s[i..j]))]
        + (if j < |s| then [AndItem] else [])) + PreviewOfRuns(RunsFrom(s, j))
      == done + PreviewOfRuns(RunsFrom(s, i))
  {
    var j := RunEnd(s, i + 1);
    PreviewRunsFrom(s, i);
    var w := [PreviewItem(if j - i == 1 then "word" else "phrase", Phrase(s[i..j]))];
    if j < |s| {
      var tail := PreviewOfRuns(RunsFrom(s, j));
      assert (done + w + [AndItem]) + tail == done + (w + ([AndItem] + tail));
    } else {
      assert RunsFrom(s, j) == [];
    }
  }

  /** The nested loops of `get_pattern_preview` over the sorted clone. */
  method PreviewSorted(s: seq<SelectionSpan>) returns (items: seq<PreviewItem>)
    ensures items == Preview(s)
  {
    items := [];
    var i := 0;
    while i < |s|
      invariant i <= |s|
      invariant items + PreviewOfRuns(RunsFrom(s, i)) == Preview(s)
    {
      var phraseWords := [s[i].text];
      var j := i + 1;
      while j < |s|
        invariant i + 1 <= j <= |s|
        invariant RunEnd(s, j) == RunEnd(s, i + 1)
        invariant phraseWords == Texts(s[i..j])
      {
        if s[j].wordIndex == s[j - 1].wordIndex + 1 {
          TextsSnoc(s, i, j);
          RunEndStep(s, j);
          phraseWords := phraseWords + [s[j].text];
          j := j + 1;
        } else {
          break;
        }
      }
      assert j == RunEnd(s, i + 1);
      PreviewOuterStep(s, i, items);
      if |phraseWords| == 1 {
        items := items + [PreviewItem("word", phraseWords[0])];
      } else {
        items := items + [PreviewItem("phrase", Join(" ", phraseWords))];
      }
      if j < |s| {
        items := items + [AndItem];
      }
      i := j;
    }
  }
}
