/** The stateful part: the pattern list and the selection buffer owned by one
    `PatternBuilder`, and the browser storage slot that keeps a copy of the
    list under the key "regexgen_patterns". */
module Builder {
  import opened Wrappers
  import opened Patterns
  import opened Selections
  import opened Segmenter

  /** `v` without its element at `i`, the others kept in order (`Vec::remove`). */
  function RemoveAt<T>(v: seq<T>, i: nat): (r: seq<T>)
    requires i < |v|
    ensures |r| == |v| - 1
    ensures forall k :: 0 <= k < i ==> r[k] == v[k]
    ensures forall k :: i <= k < |r| ==> r[k] == v[k + 1]
    ensures multiset(r) + multiset{v[i]} == multiset(v)
  {
    assert v == v[..i] + [v[i]] + v[i + 1..];
    v[..i] + v[i + 1..]
  }

  /** The browser's local storage as the builder sees it. `available` says
      whether `window.localStorage` can be reached at all; `contents` is the
      pattern list stored under the fixed key, `None` when the key is missing
      or its text does not parse as a pattern list. */
  class Store {
    const available: bool
    var contents: Option<seq<Pattern>>

    constructor(available: bool, contents: Option<seq<Pattern>>)
      ensures this.available == available && this.contents == contents
    {
      this.available := available;
      this.contents := contents;
    }

    /** `load_patterns_from_storage`: any failure reads as the empty list. */
    function Load(): (ps: seq<Pattern>)
      reads this
      ensures !available || contents.None? ==> ps == []
      ensures available && contents.Some? ==> ps == contents.value
    {
      if available && contents.Some? then contents.value else []
    }

    /** `save_patterns_to_storage`: writes the list when storage is there. */
    method Save(ps: seq<Pattern>) returns (ok: bool)
      modifies this
      ensures ok == available
      ensures contents == if ok then Some(ps) else old(contents)
    {
      ok := available;
      if ok {
        contents := Some(ps);
      }
    }
  }

  /** Why a builder operation returned `Err`. */
  datatype BuildError =
    | NoSelections        // "No selections to build pattern from"
    | StorageUnavailable  // the error `save_patterns_to_storage` passed up

  class PatternBuilder {
    var patterns: seq<Pattern>
    var currentSelections: seq<SelectionSpan>
    const store: Store

    /** The in-memory list and the stored copy agree. */
    predicate Persisted()
      reads this, store
    {
      store.Load() == patterns
    }

    /** `PatternBuilder::new`: the list starts as whatever storage holds. */
    constructor(store: Store)
      ensures this.store == store
      ensures patterns == store.Load() && currentSelections == []
      ensures Persisted()
    {
      this.store := store;
      patterns := store.Load();
      currentSelections := [];
    }

    /** `add_selection`: appends exactly one span at the end. */
    method AddSelection(text: string, startIndex: nat, endIndex: nat, wordIndex: nat)
      modifies this
      ensures currentSelections == old(currentSelections) + [SelectionSpan(text, startIndex, endIndex, wordIndex)]
      ensures patterns == old(patterns)
    {
      currentSelections := currentSelections + [SelectionSpan(text, startIndex, endIndex, wordIndex)];
    }

    /** `clear_selections`. */
    method ClearSelections()
      modifies this
      ensures currentSelections == []
      ensures patterns == old(patterns)
    {
      currentSelections := [];
    }

    /** `remove_selection`: an index out of range changes nothing. */
    method RemoveSelection(index: nat)
      modifies this
      ensures index < |old(currentSelections)| ==> currentSelections == RemoveAt(old(currentSelections), index)
      ensures index >= |old(currentSelections)| ==> currentSelections == old(currentSelections)
      ensures patterns == old(patterns)
    {
      if index < |currentSelections| {
        currentSelections := RemoveAt(currentSelections, index);
      }
    }

    /** `build_sequence_pattern(name)`, with `id` standing for `generate_id()`.
        An empty buffer is refused and nothing changes. Otherwise the buffer
        is sorted in place, segmented, and the new Sequence appended and
        saved; only a successful save clears the buffer. */
    method BuildSequencePattern(name: string, id: string, escape: Escaper) returns (r: Result<string, BuildError>)
      modifies this, store
      ensures old(currentSelections) == [] ==>
        && r == Err(NoSelections)
        && patterns == old(patterns) && currentSelections == old(currentSelections)
        && store.contents == old(store.contents)
      ensures old(currentSelections) != [] ==>
        var p := Sequence(id, name, Segment(SortByWordIndex(old(currentSelections))));
        && patterns == old(patterns) + [p]
        && (store.available ==>
              r == Ok(ToRegex(p, escape)) && currentSelections == [] && Persisted())
        && (!store.available ==>
              && r == Err(StorageUnavailable)
              && currentSelections == SortByWordIndex(old(currentSelections))
              && store.contents == old(store.contents))
      ensures r.Ok? ==> |patterns| > 0 && r.value == ToRegex(patterns[|patterns| - 1], escape)
    {
      if |currentSelections| == 0 {
        return Err(NoSelections);
      }
      currentSelections := SortByWordIndex(currentSelections);
      var elements := SegmentSorted(currentSelections);
      var pattern := Sequence(id, name, elements);
      var regex := ToRegex(pattern, escape);
      patterns := patterns + [pattern];
      var ok := store.Save(patterns);
      if !ok {
        return Err(StorageUnavailable);
      }
      ClearSelections();
      return Ok(regex);
    }

    /** `get_pattern_preview`: `None` stands for JS `null` on an empty buffer.
        It reads a sorted copy and changes nothing. */
    method GetPatternPreview() returns (r: Option<seq<PreviewItem>>)
      ensures currentSelections == [] <==> r.None?
      ensures r.Some? ==> r.value == Preview(SortByWordIndex(currentSelections))
    {
      if |currentSelections| == 0 {
        return None;
      }
      var sorted := SortByWordIndex(currentSelections);
      var items := PreviewSorted(sorted);
      return Some(items);
    }

    /** `test_pattern`: `matcher(regex, text)` stands for compiling `regex`
        and collecting the (start, end) of every match, `None` when the regex
        does not compile. An index out of range gives `None`. */
    function TestPattern(index: nat, text: string, escape: Escaper,
                         matcher: (string, string) -> Option<seq<(nat, nat)>>): (r: Option<seq<(nat, nat)>>)
      reads this
      ensures index >= |patterns| ==> r.None?
      ensures index < |patterns| ==> r == matcher(ToRegex(patterns[index], escape), text)
    {
      if index < |patterns| then matcher(ToRegex(patterns[index], escape), text) else None
    }

    /** `delete_pattern`: an index out of range changes nothing and saves
        nothing; otherwise the pattern is removed and the list saved, and a
        failed save leaves it removed in memory only. */
    method DeletePattern(index: nat) returns (r: Result<(), BuildError>)
      modifies this, store
      ensures currentSelections == old(currentSelections)
      ensures index >= |old(patterns)| ==>
        r == Ok(()) && patterns == old(patterns) && store.contents == old(store.contents)
      ensures index < |old(patterns)| ==>
        && patterns == RemoveAt(old(patterns), index)
        && (store.available ==> r == Ok(()) && Persisted())
        && (!store.available ==> r == Err(StorageUnavailable) && store.contents == old(store.contents))
    {
      if index < |patterns| {
        patterns := RemoveAt(patterns, index);
        var ok := store.Save(patterns);
        if !ok {
          return Err(StorageUnavailable);
        }
      }
      return Ok(());
    }
  }
}
