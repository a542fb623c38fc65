/** Splitting text into words: `get_word_at_position` and
    `get_words_from_text`. A word is a maximal run of characters for which
    `isAlnum` (Rust's `char::is_alphanumeric`, kept abstract) holds. */
module Tokenizer {
  import opened Wrappers

  type CharClass = char -> bool

  /** A token; `get_words_from_text` returns these. */
  datatype WordInfo = WordInfo(text: string, startIndex: nat, endIndex: nat, wordIndex: nat)

  // ----- Runs of alphanumeric characters -----

  /** The first position from `j` on that is not alphanumeric, or the end. */
  function AlnumEnd(text: string, j: nat, isAlnum: CharClass): (r: nat)
    requires j <= |text|
    ensures j <= r <= |text|
    decreases |text| - j
  {
    if j < |text| && isAlnum(text[j]) then AlnumEnd(text, j + 1, isAlnum) else j
  }

  /** The start of the alphanumeric run that ends at `j`: moving left from
      `j` while the character before is alphanumeric. */
  function AlnumStart(text: string, j: nat, isAlnum: CharClass): (r: nat)
    requires j <= |text|
    ensures r <= j
    decreases j
  {
    if j > 0 && isAlnum(text[j - 1]) then AlnumStart(text, j - 1, isAlnum) else j
  }

  predicate AllAlnum(text: string, s: nat, e: nat, isAlnum: CharClass)
    requires s <= e <= |text|
  {
    forall k :: s <= k < e ==> isAlnum(text[k])
  }

  /** `text[s..e]` is a word: non-empty, alphanumeric, and neither neighbour
      is alphanumeric. */
  predicate IsMaximalRun(text: string, s: nat, e: nat, isAlnum: CharClass) {
    && s < e <= |text|
    && AllAlnum(text, s, e, isAlnum)
    && (s == 0 || !isAlnum(text[s - 1]))
    && (e == |text| || !isAlnum(text[e]))
  }

  lemma {:induction false} AlnumEndStops(text: string, j: nat, isAlnum: CharClass)
    requires j <= |text|
    ensures AllAlnum(text, j, AlnumEnd(text, j, isAlnum), isAlnum)
    ensures AlnumEnd(text, j, isAlnum) == |text| || !isAlnum(text[AlnumEnd(text, j, isAlnum)])
    decreases |text| - j
  {
    if j < |text| && isAlnum(text[j]) {
      AlnumEndStops(text, j + 1, isAlnum);
    }
  }

  lemma {:induction false} AlnumStartStops(text: string, j: nat, isAlnum: CharClass)
    requires j <= |text|
    ensures AllAlnum(text, AlnumStart(text, j, isAlnum), j, isAlnum)
    ensures AlnumStart(text, j, isAlnum) == 0 || !isAlnum(text[AlnumStart(text, j, isAlnum) - 1])
    decreases j
  {
    if j > 0 && isAlnum(text[j - 1]) {
      AlnumStartStops(text, j - 1, isAlnum);
    }
  }

  /** Two words that share a position are the same word. */
  lemma MaximalRunUnique(text: string, s1: nat, e1: nat, s2: nat, e2: nat, isAlnum: CharClass)
    requires IsMaximalRun(text, s1, e1, isAlnum) && IsMaximalRun(text, s2, e2, isAlnum)
    requires s1 < e2 && s2 < e1
    ensures s1 == s2 && e1 == e2
  {
  }

  // ----- Tokenizing by character positions -----

  /** The words of `text[i..]`, numbered from `wi`, with character positions. */
  function TokensFrom(text: string, i: nat, wi: nat, isAlnum: CharClass): seq<WordInfo>
    requires i <= |text|
    decreases |text| - i
  {
    if i == |text| then []
    else if !isAlnum(text[i]) then TokensFrom(text, i + 1, wi, isAlnum)
    else
      var e := AlnumEnd(text, i + 1, isAlnum);
      [WordInfo(text[i..e], i, e, wi)] + TokensFrom(text, e, wi + 1, isAlnum)
  }

  /** The words of `text`, numbered from 0, offsets counted in characters. */
  function Tokenize(text: string, isAlnum: CharClass): seq<WordInfo> {
    TokensFrom(text, 0, 0, isAlnum)
  }

  /** `i` does not cut a word: a scan that starts here sees whole words. */
  predicate AtBoundary(text: string, i: nat, isAlnum: CharClass)
    requires i <= |text|
  {
    i == 0 || i == |text| || !isAlnum(text[i - 1]) || !isAlnum(text[i])
  }

  /** `ts` are words of `text` found from `from` on, numbered from `wi`:
      each is a maximal run and its text is the slice at its offsets, and
      they come in order with at least one separator between two. */
  predicate WellFormedTokens(text: string, ts: seq<WordInfo>, from: nat, wi: nat, isAlnum: CharClass) {
    && (forall k :: 0 <= k < |ts| ==>
          && ts[k].wordIndex == wi + k
          && from <= ts[k].startIndex
          && IsMaximalRun(text, ts[k].startIndex, ts[k].endIndex, isAlnum)
          && ts[k].text == text[ts[k].startIndex..ts[k].endIndex])
    && (forall k, l :: 0 <= k < l < |ts| ==> ts[k].endIndex < ts[l].startIndex)
  }

  /** A word followed by well-formed words that start after it. */
  lemma WellFormedCons(text: string, i: nat, e: nat, wi: nat, rest: seq<WordInfo>, isAlnum: CharClass)
    requires IsMaximalRun(text, i, e, isAlnum)
    requires WellFormedTokens(text, rest, e, wi + 1, isAlnum)
    ensures WellFormedTokens(text, [WordInfo(text[i..e], i, e, wi)] + rest, i, wi, isAlnum)
  {
    var ts := [WordInfo(text[i..e], i, e, wi)] + rest;
    forall k | 0 < k < |ts|
      ensures ts[k] == rest[k - 1] && e < ts[k].startIndex
    {
      assert ts[k] == rest[k - 1];
      assert IsMaximalRun(text, rest[k - 1].startIndex, rest[k - 1].endIndex, isAlnum);
      assert isAlnum(text[rest[k - 1].startIndex]);
    }
  }

  /** Scanning from a boundary yields well-formed words. */
  lemma {:induction false} TokensWellFormed(text: string, i: nat, wi: nat, isAlnum: CharClass)
    requires i <= |text| && AtBoundary(text, i, isAlnum)
    ensures WellFormedTokens(text, TokensFrom(text, i, wi, isAlnum), i, wi, isAlnum)
    decreases |text| - i
  {
    if i == |text| {
    } else if !isAlnum(text[i]) {
      TokensWellFormed(text, i + 1, wi, isAlnum);
      assert TokensFrom(text, i, wi, isAlnum) == TokensFrom(text, i + 1, wi, isAlnum);
    } else {
      var e := AlnumEnd(text, i + 1, isAlnum);
      AlnumEndStops(text, i + 1, isAlnum);
      assert AllAlnum(text, i, e, isAlnum);
      TokensWellFormed(text, e, wi + 1, isAlnum);
      WellFormedCons(text, i, e, wi, TokensFrom(text, e, wi + 1, isAlnum), isAlnum);
    }
  }

  /** Some token of `ts` spans position `p`. */
  predicate Covers(ts: seq<WordInfo>, p: nat) {
    exists k :: 0 <= k < |ts| && ts[k].startIndex <= p < ts[k].endIndex
  }

  /** Every alphanumeric character from `i` on lies inside some token. */
  lemma {:induction false} TokensCover(text: string, i: nat, wi: nat, isAlnum: CharClass, p: nat)
    requires i <= p < |text| && isAlnum(text[p])
    ensures Covers(TokensFrom(text, i, wi, isAlnum), p)
    decreases |text| - i
  {
    var ts := TokensFrom(text, i, wi, isAlnum);
    if !isAlnum(text[i]) {
      TokensCover(text, i + 1, wi, isAlnum, p);
      assert ts == TokensFrom(text, i + 1, wi, isAlnum);
    } else {
      var e := AlnumEnd(text, i + 1, isAlnum);
      AlnumEndStops(text, i + 1, isAlnum);
      var rest := TokensFrom(text, e, wi + 1, isAlnum);
      assert ts == [WordInfo(text[i..e], i, e, wi)] + rest;
      if p < e {
        assert ts[0].startIndex <= p < ts[0].endIndex;
      } else {
        TokensCover(text, e, wi + 1, isAlnum, p);
        var k :| 0 <= k < |rest| && rest[k].startIndex <= p < rest[k].endIndex;
        assert ts[k + 1] == rest[k];
      }
    }
  }

  /** The tokens are the maximal alphanumeric runs of `text`: no word is
      missed, and the numbering is the words' order. */
  lemma TokensAreTheWords(text: string, isAlnum: CharClass, s: nat, e: nat)
    ensures WellFormedTokens(text, Tokenize(text, isAlnum), 0, 0, isAlnum)
    ensures var ts := Tokenize(text, isAlnum);
      (IsMaximalRun(text, s, e, isAlnum) <==>
            exists k :: 0 <= k < |ts| && ts[k].startIndex == s && ts[k].endIndex == e)
  {
    var ts := Tokenize(text, isAlnum);
    TokensWellFormed(text, 0, 0, isAlnum);
    if IsMaximalRun(text, s, e, isAlnum) {
      TokensCover(text, 0, 0, isAlnum, s);
      var k :| 0 <= k < |ts| && ts[k].startIndex <= s < ts[k].endIndex;
      MaximalRunUnique(text, s, e, ts[k].startIndex, ts[k].endIndex, isAlnum);
    }
  }

  /** The example "the quick fox" splits into three words. */
  lemma TokenizeExample(isAlnum: CharClass)
    requires isAlnum('t') && isAlnum('h') && isAlnum('e') && isAlnum('q') && isAlnum('u') && isAlnum('i')
    requires isAlnum('c') && isAlnum('k') && isAlnum('f') && isAlnum('o') && isAlnum('x') && !isAlnum(' ')
    ensures Tokenize("the quick fox", isAlnum)
      == [WordInfo("the", 0, 3, 0), WordInfo("quick", 4, 9, 1), WordInfo("fox", 10, 13, 2)]
  {
    var t := "the quick fox";
    assert AlnumEnd(t, 1, isAlnum) == 3;
    assert AlnumEnd(t, 5, isAlnum) == 9;
    assert AlnumEnd(t, 11, isAlnum) == 13;
    assert t[0..3] == "the" && t[4..9] == "quick" && t[10..13] == "fox";
    assert TokensFrom(t, 13, 3, isAlnum) == [];
    assert TokensFrom(t, 10, 2, isAlnum) == [WordInfo("fox", 10, 13, 2)];
    assert TokensFrom(t, 9, 2, isAlnum) == TokensFrom(t, 10, 2, isAlnum);
    assert TokensFrom(t, 4, 1, isAlnum) == [WordInfo("quick", 4, 9, 1)] + TokensFrom(t, 9, 2, isAlnum);
    assert TokensFrom(t, 3, 1, isAlnum) == TokensFrom(t, 4, 1, isAlnum);
  }

  // ----- get_word_at_position -----

  /** What `get_word_at_position` returns: `None` past the end; otherwise
      the alphanumeric run through `position`, reaching left from just
      before it and right from it, when that run is not empty. */
  function WordAt(text: string, position: nat, isAlnum: CharClass): Option<string> {
    if position >= |text| then None
    else
      var s := AlnumStart(text, position, isAlnum);
      var e := AlnumEnd(text, position, isAlnum);
      if s < e then Some(text[s..e]) else None
  }

  method GetWordAtPosition(text: string, position: nat, isAlnum: CharClass) returns (r: Option<string>)
    ensures r == WordAt(text, position, isAlnum)
  {
    if position >= |text| {
      return None;
    }
    var start: nat := position;
    var end: nat := position;
    while start > 0 && isAlnum(text[start - 1])
      invariant start <= position
      invariant AlnumStart(text, start, isAlnum) == AlnumStart(text, position, isAlnum)
    {
      start := start - 1;
    }
    while end < |text| && isAlnum(text[end])
      invariant position <= end <= |text|
      invariant AlnumEnd(text, end, isAlnum) == AlnumEnd(text, position, isAlnum)
    {
      end := end + 1;
    }
    if start < end {
      return Some(text[start..end]);
    } else {
      return None;
    }
  }

  /** Lookup finds nothing exactly past the end, or where neither the
      character at `position` nor the one before it is alphanumeric;
      otherwise it finds the word that contains `position` or ends there. */
  lemma WordAtCharacterization(text: string, position: nat, isAlnum: CharClass)
    ensures WordAt(text, position, isAlnum).None? <==>
      position >= |text| || (!isAlnum(text[position]) && (position == 0 || !isAlnum(text[position - 1])))
    ensures position < |text| ==>
      var s := AlnumStart(text, position, isAlnum);
      var e := AlnumEnd(text, position, isAlnum);
      WordAt(text, position, isAlnum).Some? ==>
        && IsMaximalRun(text, s, e, isAlnum) && s <= position <= e
        && WordAt(text, position, isAlnum) == Some(text[s..e])
  {
    if position < |text| {
      AlnumStartStops(text, position, isAlnum);
      AlnumEndStops(text, position, isAlnum);
      var s := AlnumStart(text, position, isAlnum);
      var e := AlnumEnd(text, position, isAlnum);
      assert isAlnum(text[position]) ==> e > position;
      assert position > 0 && isAlnum(text[position - 1]) ==> s < position;
      assert AllAlnum(text, s, e, isAlnum) by {
        forall k | s <= k < e
          ensures isAlnum(text[k])
        {
          if k < position {
            assert s <= k < position;
          } else {
            assert position <= k < e;
          }
        }
      }
    }
  }

  /** What lookup finds is the text of a token that contains `position`
      or ends at it. */
  lemma WordAtFindsToken(text: string, position: nat, isAlnum: CharClass)
    requires WordAt(text, position, isAlnum).Some?
    ensures exists k :: (0 <= k < |Tokenize(text, isAlnum)|
      && Tokenize(text, isAlnum)[k].startIndex <= position <= Tokenize(text, isAlnum)[k].endIndex
      && WordAt(text, position, isAlnum) == Some(Tokenize(text, isAlnum)[k].text))
  {
    var ts := Tokenize(text, isAlnum);
    TokensWellFormed(text, 0, 0, isAlnum);
    WordAtCharacterization(text, position, isAlnum);
    var s := AlnumStart(text, position, isAlnum);
    var e := AlnumEnd(text, position, isAlnum);
    TokensCover(text, 0, 0, isAlnum, s);
    var k :| 0 <= k < |ts| && ts[k].startIndex <= s < ts[k].endIndex;
    MaximalRunUnique(text, s, e, ts[k].startIndex, ts[k].endIndex, isAlnum);
  }

  /** Every token that contains `position`, or ends at it inside the text,
      is what lookup finds there. */
  lemma TokenFoundByWordAt(text: string, position: nat, isAlnum: CharClass, k: nat)
    requires position < |text|
    requires k < |Tokenize(text, isAlnum)|
    requires Tokenize(text, isAlnum)[k].startIndex <= position <= Tokenize(text, isAlnum)[k].endIndex
    ensures WordAt(text, position, isAlnum) == Some(Tokenize(text, isAlnum)[k].text)
  {
    var t := Tokenize(text, isAlnum)[k];
    TokensWellFormed(text, 0, 0, isAlnum);
    assert IsMaximalRun(text, t.startIndex, t.endIndex, isAlnum) && t.text == text[t.startIndex..t.endIndex];
    WordAtCharacterization(text, position, isAlnum);
    var p := if position < t.endIndex then position else position - 1;
    assert isAlnum(text[p]);
    var s := AlnumStart(text, position, isAlnum);
    var e := AlnumEnd(text, position, isAlnum);
    MaximalRunUnique(text, s, e, t.startIndex, t.endIndex, isAlnum);
  }

  // ----- get_words_from_text as written: byte offsets -----

  /** The number of bytes UTF-8 spends on `c`. */
  function Utf8Len(c: char): (n: nat)
    ensures 1 <= n <= 4
    ensures n == 1 <==> (c as int) < 0x80
  {
    if (c as int) < 0x80 then 1
    else if (c as int) < 0x800 then 2
    else if (c as int) < 0x1_0000 then 3
    else 4
  }

  /** The byte offset of character `i`, which `char_indices` reports. */
  function ByteOffset(text: string, i: nat): (b: nat)
    requires i <= |text|
    ensures b >= i
  {
    if i == 0 then 0 else ByteOffset(text, i - 1) + Utf8Len(text[i - 1])
  }

  /** What `get_words_from_text` reports for the token `t`: the byte
      offset of its first character, and one past the byte offset of its
      last. */
  function Reported(text: string, t: WordInfo): WordInfo
    requires t.startIndex < t.endIndex <= |text|
  {
    WordInfo(t.text, ByteOffset(text, t.startIndex), ByteOffset(text, t.endIndex - 1) + 1, t.wordIndex)
  }

  /** The words `get_words_from_text` reports for `text[i..]`: the tokens,
      each reported with byte offsets. */
  function ByteWordsFrom(text: string, i: nat, wi: nat, isAlnum: CharClass): seq<WordInfo>
    requires i <= |text|
    decreases |text| - i
  {
    if i == |text| then []
    else if !isAlnum(text[i]) then ByteWordsFrom(text, i + 1, wi, isAlnum)
    else
      var e := AlnumEnd(text, i + 1, isAlnum);
      [Reported(text, WordInfo(text[i..e], i, e, wi))] + ByteWordsFrom(text, e, wi + 1, isAlnum)
  }

  /** The outer loop skips a separator. */
  lemma ByteWordsSkip(text: string, i: nat, wi: nat, isAlnum: CharClass, done: seq<WordInfo>, all: seq<WordInfo>)
    requires i < |text| && !isAlnum(text[i])
    requires done + ByteWordsFrom(text, i, wi, isAlnum) == all
    ensures done + ByteWordsFrom(text, i + 1, wi, isAlnum) == all
  {
  }

  /** The outer loop reports the word `text[i..e]` as `w`. */
  lemma ByteWordsTake(text: string, i: nat, e: nat, wi: nat, isAlnum: CharClass, done: seq<WordInfo>, all: seq<WordInfo>, w: WordInfo)
    requires i < |text| && isAlnum(text[i]) && e == AlnumEnd(text, i + 1, isAlnum)
    requires w == Reported(text, WordInfo(text[i..e], i, e, wi))
    requires done + ByteWordsFrom(text, i, wi, isAlnum) == all
    ensures (done + [w]) + ByteWordsFrom(text, e, wi + 1, isAlnum) == all
  {
    var rest := ByteWordsFrom(text, e, wi + 1, isAlnum);
    assert ByteWordsFrom(text, i, wi, isAlnum) == [w] + rest;
    assert (done + [w]) + rest == done + ([w] + rest);
  }

  /** The inner loop of `get_words_from_text`: while the character the
      iterator peeks at is alphanumeric, append it to `word`, take its byte
      offset as `end` and advance. `i` is the next character's position and
      `offset` its byte offset. */
  method ScanWord(text: string, ghost first: nat, i0: nat, offset0: nat, word0: string, end0: nat, isAlnum: CharClass)
    returns (i: nat, offset: nat, word: string, end: nat)
    requires first < i0 <= |text| && offset0 == ByteOffset(text, i0)
    requires word0 == text[first..i0] && end0 == ByteOffset(text, i0 - 1)
    ensures i == AlnumEnd(text, i0, isAlnum) && offset == ByteOffset(text, i)
    ensures word == text[first..i] && end == ByteOffset(text, i - 1)
  {
    i, offset, word, end := i0, offset0, word0, end0;
    while i < |text|
      invariant i0 <= i <= |text| && offset == ByteOffset(text, i)
      invariant end == ByteOffset(text, i - 1)
      invariant word == text[first..i]
      invariant AlnumEnd(text, i, isAlnum) == AlnumEnd(text, i0, isAlnum)
    {
      var nextC := text[i];
      if isAlnum(nextC) {
        assert text[first..i + 1] == text[first..i] + [nextC];
        word := word + [nextC];
        end := offset;
        offset := offset + Utf8Len(nextC);
        i := i + 1;
      } else {
        break;
      }
    }
  }

  /** The outer loop of `get_words_from_text` over `char_indices`: `i` is
      the next character the iterator yields and `offset` its byte offset. */
  method GetWordsFromText(text: string, isAlnum: CharClass) returns (words: seq<WordInfo>)
    ensures words == ByteWordsFrom(text, 0, 0, isAlnum)
  {
    ghost var all := ByteWordsFrom(text, 0, 0, isAlnum);
    words := [];
    var wordIndex: nat := 0;
    var i: nat := 0;
    var offset: nat := 0;
    while i < |text|
      invariant i <= |text| && offset == ByteOffset(text, i)
      invariant words + ByteWordsFrom(text, i, wordIndex, isAlnum) == all
    {
      ghost var first := i;
      var c := text[i];
      var start := offset;
      offset := offset + Utf8Len(c);
      i := i + 1;
      if isAlnum(c) {
        var word, end;
        i, offset, word, end := ScanWord(text, first, i, offset, [c], start, isAlnum);
        ByteWordsTake(text, first, i, wordIndex, isAlnum, words, all, WordInfo(word, start, end + 1, wordIndex));
        words := words + [WordInfo(word, start, end + 1, wordIndex)];
        wordIndex := wordIndex + 1;
      } else {
        ByteWordsSkip(text, first, wordIndex, isAlnum, words, all);
      }
    }
  }

  /** `ws` reports the tokens `ts`, one for one. */
  predicate ReportsTokens(text: string, ws: seq<WordInfo>, ts: seq<WordInfo>) {
    && |ws| == |ts|
    && forall k :: 0 <= k < |ts| ==>
         ts[k].startIndex < ts[k].endIndex <= |text| && ws[k] == Reported(text, ts[k])
  }

  lemma ReportsTokensCons(text: string, w: WordInfo, t: WordInfo, ws: seq<WordInfo>, ts: seq<WordInfo>)
    requires t.startIndex < t.endIndex <= |text| && w == Reported(text, t)
    requires ReportsTokens(text, ws, ts)
    ensures ReportsTokens(text, [w] + ws, [t] + ts)
  {
    forall k | 0 < k < |ts| + 1
      ensures ([t] + ts)[k] == ts[k - 1] && ([w] + ws)[k] == ws[k - 1]
    {
    }
  }

  /** The reported words are the tokens, in the same order with the same
      text and numbering; only the offsets differ. */
  lemma {:induction false} ByteWordsAreTokens(text: string, i: nat, wi: nat, isAlnum: CharClass)
    requires i <= |text|
    ensures ReportsTokens(text, ByteWordsFrom(text, i, wi, isAlnum), TokensFrom(text, i, wi, isAlnum))
    decreases |text| - i
  {
    if i == |text| {
    } else if !isAlnum(text[i]) {
      ByteWordsAreTokens(text, i + 1, wi, isAlnum);
      assert ByteWordsFrom(text, i, wi, isAlnum) == ByteWordsFrom(text, i + 1, wi, isAlnum);
      assert TokensFrom(text, i, wi, isAlnum) == TokensFrom(text, i + 1, wi, isAlnum);
    } else {
      var e := AlnumEnd(text, i + 1, isAlnum);
      ByteWordsAreTokens(text, e, wi + 1, isAlnum);
      assert ByteWordsFrom(text, i, wi, isAlnum)
        == [Reported(text, WordInfo(text[i..e], i, e, wi))] + ByteWordsFrom(text, e, wi + 1, isAlnum);
      assert TokensFrom(text, i, wi, isAlnum) == [WordInfo(text[i..e], i, e, wi)] + TokensFrom(text, e, wi + 1, isAlnum);
      ReportsTokensCons(text, Reported(text, WordInfo(text[i..e], i, e, wi)),
        WordInfo(text[i..e], i, e, wi), ByteWordsFrom(text, e, wi + 1, isAlnum), TokensFrom(text, e, wi + 1, isAlnum));
    }
  }

  /** On text whose characters are all one byte long (ASCII), byte offsets
      are character positions and the reported words are the tokens. */
  lemma {:induction false} AsciiWordsAreTokens(text: string, i: nat, wi: nat, isAlnum: CharClass)
    requires i <= |text|
    requires forall k :: 0 <= k < |text| ==> (text[k] as int) < 0x80
    ensures ByteWordsFrom(text, i, wi, isAlnum) == TokensFrom(text, i, wi, isAlnum)
    decreases |text| - i
  {
    if i == |text| {
    } else if !isAlnum(text[i]) {
      AsciiWordsAreTokens(text, i + 1, wi, isAlnum);
    } else {
      var e := AlnumEnd(text, i + 1, isAlnum);
      var t := WordInfo(text[i..e], i, e, wi);
      AsciiWordsAreTokens(text, e, wi + 1, isAlnum);
      AsciiOffset(text, i);
      AsciiOffset(text, e - 1);
      assert Reported(text, t) == t;
      assert ByteWordsFrom(text, i, wi, isAlnum) == [Reported(text, t)] + ByteWordsFrom(text, e, wi + 1, isAlnum);
      assert TokensFrom(text, i, wi, isAlnum) == [t] + TokensFrom(text, e, wi + 1, isAlnum);
    }
  }

  lemma {:induction false} AsciiOffset(text: string, j: nat)
    requires j <= |text|
    requires forall k :: 0 <= k < |text| ==> (text[k] as int) < 0x80
    ensures ByteOffset(text, j) == j
  {
    if j > 0 {
      AsciiOffset(text, j - 1);
    }
  }

  /** On "é b" the reported offsets fit neither unit: the first word's end 1
      falls inside the two bytes of "é", and the second word's start 3 is
      past the character position 2 (and its end 4 past the text's three
      characters). */
  lemma ByteWordsCounterexample(isAlnum: CharClass)
    requires isAlnum('\U{E9}') && isAlnum('b') && !isAlnum(' ')
    ensures Tokenize("\U{E9} b", isAlnum) == [WordInfo("\U{E9}", 0, 1, 0), WordInfo("b", 2, 3, 1)]
    ensures ByteWordsFrom("\U{E9} b", 0, 0, isAlnum) == [WordInfo("\U{E9}", 0, 1, 0), WordInfo("b", 3, 4, 1)]
    ensures Utf8Len('\U{E9}') == 2
  {
    ExampleTokens("\U{E9} b", isAlnum);
    ExampleByteWords("\U{E9} b", isAlnum);
  }

  lemma ExampleTokens(t: string, isAlnum: CharClass)
    requires t == "\U{E9} b"
    requires isAlnum('\U{E9}') && isAlnum('b') && !isAlnum(' ')
    ensures TokensFrom(t, 0, 0, isAlnum) == [WordInfo("\U{E9}", 0, 1, 0), WordInfo("b", 2, 3, 1)]
  {
    ExampleRuns(t, isAlnum);
    assert TokensFrom(t, 2, 1, isAlnum) == [WordInfo("b", 2, 3, 1)];
    assert TokensFrom(t, 0, 0, isAlnum) == [WordInfo("\U{E9}", 0, 1, 0)] + TokensFrom(t, 1, 1, isAlnum);
  }

  lemma ExampleByteWords(t: string, isAlnum: CharClass)
    requires t == "\U{E9} b"
    requires isAlnum('\U{E9}') && isAlnum('b') && !isAlnum(' ')
    ensures ByteWordsFrom(t, 0, 0, isAlnum) == [WordInfo("\U{E9}", 0, 1, 0), WordInfo("b", 3, 4, 1)]
  {
    ExampleRuns(t, isAlnum);
    assert t[0] == '\U{E9}' && t[1] == ' ';
    assert ByteOffset(t, 1) == 2;
    assert ByteOffset(t, 2) == 3;
    assert ByteWordsFrom(t, 2, 1, isAlnum) == [WordInfo("b", 3, 4, 1)];
    assert ByteWordsFrom(t, 0, 0, isAlnum) == [WordInfo("\U{E9}", 0, 1, 0)] + ByteWordsFrom(t, 1, 1, isAlnum);
  }

  /** The words of "é b" and where they end. */
  lemma ExampleRuns(t: string, isAlnum: CharClass)
    requires t == "\U{E9} b"
    requires isAlnum('\U{E9}') && isAlnum('b') && !isAlnum(' ')
    ensures AlnumEnd(t, 1, isAlnum) == 1 && AlnumEnd(t, 3, isAlnum) == 3
    ensures t[0..1] == "\U{E9}" && t[2..3] == "b"
    ensures TokensFrom(t, 1, 1, isAlnum) == TokensFrom(t, 2, 1, isAlnum)
    ensures ByteWordsFrom(t, 1, 1, isAlnum) == ByteWordsFrom(t, 2, 1, isAlnum)
  {
  }
}
