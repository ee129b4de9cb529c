/**
 * How the chemistry quiz picks the compounds it asks about
 * (muki-cursor/src/App.tsx:25-80): keep the compounds with a drawable
 * structure, narrow them to a window of ten in the batch mode, and shuffle
 * them when asked to.
 */
module CompoundSelection {
  import opened Wrappers
  import opened ChemTypes

  datatype CountMode = All | Batch10

  datatype OrderMode = Sequential | Shuffle

  /** The settings the question-count screen emits; startIndex counts from 1. */
  datatype QuizSettings = QuizSettings(countMode: CountMode, orderMode: Option<OrderMode>, startIndex: Option<nat>)

  const BATCH_SIZE: nat := 10

  /** The validity filter (App.tsx:33-39): non-empty atoms and non-empty bonds, in order. */
  function ValidCompounds(data: seq<Compound>): (r: seq<Compound>)
    ensures |r| <= |data|
    ensures forall c :: c in r <==> c in data && HasStructure(c)
  {
    if data == [] then []
    else (if HasStructure(data[0]) then [data[0]] else []) + ValidCompounds(data[1..])
  }

  /** The filter keeps compounds one by one: their relative order is preserved. */
  lemma {:induction false} ValidCompoundsAppend(a: seq<Compound>, b: seq<Compound>)
    ensures ValidCompounds(a + b) == ValidCompounds(a) + ValidCompounds(b)
  {
    if a == [] {
      assert a + b == b;
    } else {
      var x, rest := a[0], a[1..];
      calc {
        ValidCompounds(a + b);
        { assert a + b == [x] + (rest + b); ValidCompoundsCons(x, rest + b); }
        ValidCompounds([x]) + ValidCompounds(rest + b);
        { ValidCompoundsAppend(rest, b); }
        ValidCompounds([x]) + (ValidCompounds(rest) + ValidCompounds(b));
        (ValidCompounds([x]) + ValidCompounds(rest)) + ValidCompounds(b);
        { assert a == [x] + rest; ValidCompoundsCons(x, rest); }
        ValidCompounds(a) + ValidCompounds(b);
      }
    }
  }

  /** One compound in front of others: it is kept exactly when it has a structure. */
  lemma ValidCompoundsCons(x: Compound, rest: seq<Compound>)
    ensures ValidCompounds([x] + rest) == ValidCompounds([x]) + ValidCompounds(rest)
    ensures ValidCompounds([x]) == if HasStructure(x) then [x] else []
  {
    assert ([x] + rest)[1..] == rest;
    assert [x][1..] == [];
  }

  /** Data in which every compound has a structure passes the filter unchanged. */
  lemma {:induction false} ValidCompoundsAllValid(data: seq<Compound>)
    requires forall k :: 0 <= k < |data| ==> HasStructure(data[k])
    ensures ValidCompounds(data) == data
  {
    if data != [] {
      ValidCompoundsAllValid(data[1..]);
      assert data == [data[0]] + data[1..];
    }
  }

  /** The compounds the diagnostic lists as broken (App.tsx:60-66): empty atoms or empty bonds. */
  function InvalidCompounds(data: seq<Compound>): seq<Compound>
  {
    if data == [] then []
    else
      var c := data[0];
      (if |c.structure.atoms| == 0 || |c.structure.bonds| == 0 then [c] else []) + InvalidCompounds(data[1..])
  }

  /** The two filters split the loaded data: every compound lands in exactly one of them. */
  lemma {:induction false} FiltersPartition(data: seq<Compound>)
    ensures multiset(ValidCompounds(data)) + multiset(InvalidCompounds(data)) == multiset(data)
    ensures |ValidCompounds(data)| + |InvalidCompounds(data)| == |data|
  {
    if data != [] {
      FiltersPartition(data[1..]);
      assert data == [data[0]] + data[1..];
    }
  }

  /** (startIndex || 1) - 1: the 0-based start of the batch, a missing or zero index starting at 0. */
  function StartOffset(startIndex: Option<nat>): (r: nat)
    ensures startIndex.Some? && startIndex.value >= 1 ==> r + 1 == startIndex.value
    ensures startIndex.None? || startIndex.value == 0 ==> r == 0
  {
    match startIndex
    case None => 0
    case Some(s) => if s == 0 then 0 else s - 1
  }

  /** s.slice(start, start + 10): the indices are clamped to the length. */
  function Window(s: seq<Compound>, start: nat): (r: seq<Compound>)
    ensures |r| == if start >= |s| then 0 else if |s| - start < BATCH_SIZE then |s| - start else BATCH_SIZE
    ensures forall k :: 0 <= k < |r| ==> r[k] == s[start + k]
  {
    if start >= |s| then []
    else if start + BATCH_SIZE <= |s| then s[start..start + BATCH_SIZE]
    else s[start..]
  }

  /** The count step (App.tsx:41-47): a window in the batch mode, everything otherwise. */
  function Narrow(valid: seq<Compound>, settings: QuizSettings): seq<Compound>
  {
    if settings.countMode == Batch10 then Window(valid, StartOffset(settings.startIndex)) else valid
  }

  /** The shuffle is possible: shuffled is a reordering of what it shuffles. */
  predicate ShuffleFits(load: Option<seq<Compound>>, settings: QuizSettings, shuffled: seq<Compound>) {
    load.Some? && settings.orderMode == Some(Shuffle) ==>
      multiset(shuffled) == multiset(Narrow(ValidCompounds(load.value), settings))
  }

  /**
   * The list handed to the quiz (App.tsx:29-78): load is the loaded data,
   * None when loading failed; shuffled is the outcome of the random sort.
   */
  function SelectCompounds(load: Option<seq<Compound>>, settings: QuizSettings, shuffled: seq<Compound>): (r: seq<Compound>)
    requires ShuffleFits(load, settings, shuffled)
    ensures load.None? ==> r == []
    ensures load.Some? ==> multiset(r) == multiset(Narrow(ValidCompounds(load.value), settings))
    ensures load.Some? && settings.orderMode != Some(Shuffle) ==> r == Narrow(ValidCompounds(load.value), settings)
  {
    match load
    case None => []
    case Some(data) =>
      var chosen := Narrow(ValidCompounds(data), settings);
      if settings.orderMode == Some(Shuffle) then shuffled else chosen
  }

  /** Every compound handed to the quiz was loaded and has a drawable structure. */
  lemma SelectionSound(load: Option<seq<Compound>>, settings: QuizSettings, shuffled: seq<Compound>)
    requires ShuffleFits(load, settings, shuffled)
    ensures forall c :: c in SelectCompounds(load, settings, shuffled) ==> load.Some? && c in load.value && HasStructure(c)
  {
    var r := SelectCompounds(load, settings, shuffled);
    forall c | c in r
      ensures load.Some? && c in load.value && HasStructure(c)
    {
      var chosen := Narrow(ValidCompounds(load.value), settings);
      assert c in multiset(r);
      assert c in multiset(chosen);
    }
  }

  /**
   * In the batch mode the quiz gets at most ten compounds: the valid ones
   * from position startIndex on (counting from 1), none when the start is
   * past the end.
   */
  lemma BatchWindow(data: seq<Compound>, settings: QuizSettings, shuffled: seq<Compound>)
    requires settings.countMode == Batch10 && ShuffleFits(Some(data), settings, shuffled)
    ensures var r := SelectCompounds(Some(data), settings, shuffled);
      var valid := ValidCompounds(data);
      var start := StartOffset(settings.startIndex);
      && |r| <= BATCH_SIZE
      && (start >= |valid| ==> r == [])
      && (start < |valid| ==> start + |r| <= |valid| && multiset(r) == multiset(valid[start..start + |r|]))
  {
    var valid := ValidCompounds(data);
    var start := StartOffset(settings.startIndex);
    var w := Narrow(valid, settings);
    var r := SelectCompounds(Some(data), settings, shuffled);
    assert multiset(r) == multiset(w);
    SameMultisetSameLength(r, w);
    WindowIsSlice(valid, start);
  }

  lemma SameMultisetSameLength(a: seq<Compound>, b: seq<Compound>)
    requires multiset(a) == multiset(b)
    ensures |a| == |b|
  {
    assert |multiset(a)| == |a|;
    assert |multiset(b)| == |b|;
  }

  lemma WindowIsSlice(s: seq<Compound>, start: nat)
    ensures start >= |s| ==> Window(s, start) == []
    ensures start < |s| ==> start + |Window(s, start)| <= |s| && Window(s, start) == s[start..start + |Window(s, start)|]
  {
  }

  /** In the all mode the quiz gets every valid compound, in loaded order unless shuffled. */
  lemma AllModeKeepsEverything(data: seq<Compound>, settings: QuizSettings, shuffled: seq<Compound>)
    requires settings.countMode == All && ShuffleFits(Some(data), settings, shuffled)
    ensures multiset(SelectCompounds(Some(data), settings, shuffled)) == multiset(ValidCompounds(data))
    ensures settings.orderMode != Some(Shuffle) ==> SelectCompounds(Some(data), settings, shuffled) == ValidCompounds(data)
  {
  }
}
