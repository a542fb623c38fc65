# regexgen-rs in Dafny

A model of the core of regexgen-rs (`src/lib.rs`). That library lets a user
build a search pattern by highlighting words in a text instead of writing
regex syntax. Its parts:

- **Patterns** (`patterns.dfy`). The pattern syntax tree:
  - `PatternElement` is Word, Gap, Reference or OneOf;
  - `Pattern` is a Sequence, or a Composite with And / Or / Not;
  - `Pattern::to_regex` is the compiler from that tree to a regex string.
- **Selections** (`selections.dfy`). The selection spans. It also models
  `sort_by_key(|s| s.word_index)` as a stable insertion sort. That sort is
  proved to be the only sorted, stable rearrangement of its input, so any
  stable sort agrees with it.
- **Segmenter** (`segmenter.dfy`). The loops that turn the sorted selections
  into runs of consecutive word indices:
  - one loop builds a Sequence: one Word per run, joined by spaces, with an
    open gap `Gap{0, None}` between two runs;
  - the other builds the preview descriptors ("word" / "phrase" / "and").

  Both loops are `while` loops, proved equal to the functions `Segment` and
  `Preview`. These functions are characterised as the unique decomposition
  into maximal runs.
- **Builder** (`builder.dfy`). The `PatternBuilder` object:
  - a pattern list and a selection buffer that its methods update in place;
  - a `Store` class for the browser's local-storage slot, which keeps the
    saved copy of the list.
- **Tokenizer** (`tokenizer.dfy`). `get_word_at_position` and
  `get_words_from_text`, with a character-position tokenizer `Tokenize` as
  their reference.
- **Text** (`text.dfy`) and **Wrappers** (`wrappers.dfy`). Shared helpers:
  - `Join` (`Vec::join`);
  - decimal numerals (`format!("{}", n)`) and reading them back;
  - `Map`, `Option` and `Result`.

Calls into code outside the core become parameters, so every property holds
for any implementation of them:

- `regex::escape` is the `escape: string -> string` parameter.
- `char::is_alphanumeric` is the `isAlnum: char -> bool` parameter.
- `generate_id()` is an `id` argument.
- Compiling and running a regex (`Regex::new` and `find_iter`) is a
  `matcher` argument. It returns `None` when the regex does not compile.

In a composite And, each lookahead closes right after its sub-pattern's
regex (`src/lib.rs:103`), and one `.*` follows all of them (`src/lib.rs:105`).
So `And[cat, dog]` is `(?=.*\bcat\b)(?=.*\bdog\b).*`, as
`Patterns.AndExample` proves.

## Model

| member | source | states |
|---|---|---|
| Patterns.GetId | src/lib.rs:120-125 | the id field of either kind of pattern |
| Patterns.GetName | src/lib.rs:127-132 | the name field of either kind of pattern |
| Patterns.ElementRegex | src/lib.rs:51-85 | the compiler for one element, defined case by case. Its contract states that a word, a phrase and a OneOf are anchored with `\b` at both ends; `Patterns.ElementCompilation` and `Patterns.GapRoundTrip` hold its other properties |
| Patterns.ToRegex | src/lib.rs:46-118 | `Pattern::to_regex`, defined case by case. Its contract states that a non-empty Not is one negative lookahead `(?!.*…)`. `Patterns.SequenceRegexAppend`, `Patterns.OrRegexCons`, `Patterns.AndRegexCons`, `Patterns.NotRegexFirstOnly` and `Patterns.IdentityIrrelevant` hold its other properties |
| Patterns.ElementCompilation | src/lib.rs:51-85 | a word or phrase compiles to its escaped text between `\b` anchors, whether or not it contains a space; `Gap{0,None}` compiles to `.*?`; any other gap compiles to `(?:\W+\w+){m,n}` or `{m,}`; a OneOf compiles to its escaped options joined by a vertical bar inside `\b(?:` and `)\b`, so a one-option OneOf is `\b(?:o)\b`; a Reference is the stub `.*` |
| Patterns.GapRoundTrip | src/lib.rs:62-73 | both bounds of a counted gap can be read back from its regex; the open gap yields no counted quantifier |
| Patterns.SequenceRegexAppend | src/lib.rs:48-89 | a Sequence compiles to the in-order concatenation of its elements' regexes with no separator, so the regex of `a + b` is that of `a` followed by that of `b`; an empty Sequence compiles to the empty string |
| Patterns.OrRegexCons | src/lib.rs:92-98 | Or puts each sub-pattern's regex in parentheses and joins them with a vertical bar; the Or of `p` and more sub-patterns is `(p)`, a bar, then the Or of the rest; the empty Or is the empty string |
| Patterns.AndRegexCons | src/lib.rs:99-106 | And emits one positive lookahead `(?=.*r)` per sub-pattern, in order, then a trailing `.*`; the empty And is `.*` |
| Patterns.NotRegexFirstOnly | src/lib.rs:107-114 | Not is a negative lookahead on the first sub-pattern; later sub-patterns do not change the regex, and the empty Not is the empty string |
| Patterns.IdentityIrrelevant | src/lib.rs:46-118 | the regex does not depend on the pattern's id or name |
| Patterns.OrExample | src/lib.rs:92-98 | `Or[cat, dog]` compiles to `(\bcat\b)`, a vertical bar, then `(\bdog\b)` |
| Patterns.AndExample | src/lib.rs:99-106 | `And[cat, dog]` compiles to `(?=.*\bcat\b)(?=.*\bdog\b).*` |
| Patterns.WordExample | src/lib.rs:52-61 | a one-word Sequence compiles to `\bw\b` |
| Text.JoinAppend | src/lib.rs:207 | `Text.Join` is `Vec::join` (used at src/lib.rs:79, 88, 97, 105 and 207): joining two non-empty lists puts exactly one separator between the two joins |
| Text.DecimalRoundTrip | src/lib.rs:68-69 | the decimal numeral written into a gap quantifier reads back as the same number |
| Selections.InsertByWordIndex | src/lib.rs:175 | inserting into a sorted list keeps it sorted, adds exactly the new span, and places it first only when its key is strictly smallest |
| Selections.SortByWordIndex | src/lib.rs:175 | the sorted result is ordered by word index and is a permutation of the input |
| Selections.SortIsStable | src/lib.rs:175 | spans with equal word index keep their relative order |
| Selections.StableSortIsUnique | src/lib.rs:175 | any sorted list that keeps each key's spans in the input's order equals the modelled sort's result |
| Segmenter.RunsAreTheMaximalRuns | src/lib.rs:180-197 | the runs concatenate back to the selections; each run is non-empty and consecutive; no run could be merged with the next; no other list of runs has these properties |
| Segmenter.SegmentStructure | src/lib.rs:199-222 | a non-empty selection gives `2n-1` elements for its `n` runs: Words at even positions (the run's texts joined by spaces), the open gap at odd positions, and a Word at both ends |
| Segmenter.SegmentOfOne | src/lib.rs:200-203 | a single selection gives the single Word of its text |
| Segmenter.SegmentExampleConsecutive | src/lib.rs:185-208 | word indices 0,1,2 give the single phrase `Word("the quick fox")` |
| Segmenter.SegmentExampleGap | src/lib.rs:211-219 | word indices 0,2 give `[Word("the"), Gap(0,None), Word("fox")]` |
| Segmenter.SegmentExampleDuplicate | src/lib.rs:191 | two selections with the same word index are not adjacent, so they are two Words with a gap between |
| Segmenter.PreviewMatchesSegment | src/lib.rs:254-293 | the preview has one descriptor per built element; it shows each Word's text and shows "and"/"AND" for each gap; its kind is "word" exactly when the run has one selection |
| Segmenter.SegmentRegex | src/lib.rs:224-230 | the regex of a built Sequence is the anchored, escaped phrases joined by `.*?` |
| Segmenter.SegmentSorted | src/lib.rs:177-222 | the nested loop of `build_sequence_pattern` computes `Segment` of the sorted selections |
| Segmenter.PreviewSorted | src/lib.rs:251-293 | the nested loop of `get_pattern_preview` computes `Preview` of the sorted selections |
| Builder.RemoveAt | src/lib.rs:319 | `Vec::remove` drops the element at the index: the elements before it stay, the elements after it shift down by one, and one copy of the removed element leaves the multiset |
| Builder.Store.Load | src/lib.rs:344-356 | the stored list is read back, and an unreachable store or a missing or unreadable entry reads as the empty list |
| Builder.Store.Save | src/lib.rs:337-342 | the list is written exactly when storage is reachable, and the result says so |
| Builder.PatternBuilder.constructor | src/lib.rs:143-153 | the builder starts with the stored list and an empty buffer |
| Builder.PatternBuilder.AddSelection | src/lib.rs:155-163 | exactly one span is appended to the buffer |
| Builder.PatternBuilder.ClearSelections | src/lib.rs:165-167 | the buffer becomes empty and the patterns are unchanged |
| Builder.PatternBuilder.RemoveSelection | src/lib.rs:325-329 | removes the span at an in-range index; an out-of-range index is a silent no-op |
| Builder.PatternBuilder.BuildSequencePattern | src/lib.rs:169-237 | an empty buffer gives the "No selections" error and changes nothing. Otherwise the buffer is sorted and the Sequence of its segments is appended. When the save succeeds it returns that pattern's regex, clears the buffer, and leaves the stored copy equal to the list. When the save fails it returns the error, the buffer stays sorted, and the stored copy is untouched |
| Builder.PatternBuilder.GetPatternPreview | src/lib.rs:243-296 | `null` exactly for an empty buffer; otherwise the preview of the sorted copy, with the buffer left unchanged |
| Builder.PatternBuilder.TestPattern | src/lib.rs:298-315 | an out-of-range index gives no result; otherwise it runs the matcher on that pattern's regex, and a compile failure gives no result, distinct from an empty match list |
| Builder.PatternBuilder.DeletePattern | src/lib.rs:317-323 | an out-of-range index is a silent `Ok` that saves nothing; otherwise the pattern is removed and the list saved, and a failed save returns an error with the pattern removed in memory only |
| Tokenizer.TokensAreTheWords | src/lib.rs:402-434 | the corrected tokens are well formed: numbered from 0 in order, non-overlapping and increasing, each one's text the slice at its offsets; a span is a token exactly when it is a maximal alphanumeric run |
| Tokenizer.TokensWellFormed | src/lib.rs:407-430 | from any word boundary, the tokens are maximal runs with consecutive word indices, in increasing and disjoint positions |
| Tokenizer.TokensCover | src/lib.rs:407-421 | every alphanumeric character lies inside some token: no alphanumeric character is skipped |
| Tokenizer.MaximalRunUnique | src/lib.rs:407-421 | two overlapping maximal alphanumeric runs are the same run |
| Tokenizer.TokenizeExample | src/lib.rs:402-434 | `"the quick fox"` gives `("the",0,3,0), ("quick",4,9,1), ("fox",10,13,2)` in character positions |
| Tokenizer.GetWordAtPosition | src/lib.rs:365-391 | the two scanning loops compute `WordAt` |
| Tokenizer.WordAtCharacterization | src/lib.rs:365-391 | no word exactly when the position is out of range, or its character and the one before are both not alphanumeric; otherwise the word is the maximal run reaching the position |
| Tokenizer.WordAtFindsToken | src/lib.rs:365-391 | a word found at a position is the text of a token whose span reaches that position |
| Tokenizer.TokenFoundByWordAt | src/lib.rs:365-391 | a position inside or just after a token finds that token's text |
| Tokenizer.GetWordsFromText | src/lib.rs:402-434 | the loop over `char_indices` yields the words as written: byte offset of the first character, and one past the byte offset of the last |
| Tokenizer.ScanWord | src/lib.rs:413-421 | the inner `peek` loop of `get_words_from_text` stops at the end of the alphanumeric run, with the word read so far being that run's text and `end` the byte offset of its last character |
| Tokenizer.ByteWordsAreTokens | src/lib.rs:402-434 | the words reported as written are the corrected tokens one for one, with the same texts and numbering; only the offsets are converted |
| Tokenizer.AsciiWordsAreTokens | src/lib.rs:402-434 | on text whose characters are all one byte, the reported words are exactly the corrected tokens |
| Tokenizer.ByteWordsCounterexample | src/lib.rs:409-427 | on `"é b"` the code reports `("é",0,1,0), ("b",3,4,1)`, while the character positions are `("é",0,1,0), ("b",2,3,1)` |

## Left out

- The wasm-bindgen glue, `console::log_1`, and the conversion of results to
  JavaScript values (`serde_wasm_bindgen::to_value`). A `null` result is
  `None`.
- `get_patterns` only serialises the `patterns` field, which the model reads
  directly.
- JSON serialisation of the pattern list. The store holds the list itself. An
  unparsable entry is folded into the `None` it reads back as, since
  `load_patterns_from_storage` treats it like a missing key.
- Write failures of a reachable store (a quota error or a serialisation
  error) are not modelled. The store fails only when it is unreachable.
  Whether it is reachable is fixed for a given store.
- `generate_id` reads the clock and a random number, so the id is an
  argument of `BuildSequencePattern`.
- `regex::escape`, `char::is_alphanumeric`, `Regex::new` and `find_iter`
  belong to other crates. They are parameters, and the model does not state
  what they compute.
- The standard library's sort algorithm. It is replaced by a stable insertion
  sort, which `Selections.StableSortIsUnique` shows gives the same result as
  any stable sort.
- Builder.PatternBuilder.AddSelection: the `usize` fields are modelled
  unbounded, so the model does not capture the machine width.
- Tokenizer.GetWordsFromText: `word_index += 1` is modelled unbounded, so an
  overflow after 2^64 words is not modelled.
- Rust strings are UTF-8 bytes, and a `char` is a Unicode scalar value. The
  model keeps text as a sequence of `char`, and computes byte offsets from
  each character's UTF-8 length.

## Findings

| source | as written | input that shows it | evidently intended | confidence | as-written member | corrected member |
|---|---|---|---|---|---|---|
| src/lib.rs:405-427 | `get_words_from_text` reports `start_index` as a byte offset (`char_indices`). It reports `end_index` as the byte offset of the last character plus one, which falls inside a multi-byte last character. | `"é b"` (é is two bytes): reported `("é",0,1,0), ("b",3,4,1)`, so "b" is put at 3..4 in a text of three characters | character positions with an exclusive end, `("é",0,1,0), ("b",2,3,1)`. These are the positions that the sister function `get_word_at_position` counts: it indexes `text.chars()` (`src/lib.rs:366`) | not executed | Tokenizer.ByteWordsCounterexample | Tokenizer.TokensAreTheWords |
