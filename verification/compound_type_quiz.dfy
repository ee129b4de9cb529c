/**
 * The compound-type quiz (muki/src/components/modes/CompoundTypeQuiz.tsx):
 * the player is shown a compound and picks its type among four choices.
 * getCompoundType lives in a file this model does not include; it is the
 * typeOf function the quiz is given.
 */
module CompoundTypeQuiz {
  import opened Wrappers
  import opened ChemTypes
  import opened QuizOptions

  /** The nine compound types (CompoundTypeQuiz.tsx:17-27). */
  const ALL_TYPES: seq<string> :=
    ["アルカン", "アルケン", "アルキン", "アルコール", "アルデヒド", "ケトン", "カルボン酸", "エーテル", "芳香族"]

  /** The number of distractors shown. */
  const WRONG_COUNT: nat := 3

  /** No type is listed twice: the third characters already tell them apart. */
  lemma AllTypesDistinct()
    ensures Distinct(ALL_TYPES)
  {
    var keys := seq(|ALL_TYPES|, i requires 0 <= i < |ALL_TYPES| => ALL_TYPES[i][2]);
    assert keys == "カケキコデンボテ族";
    KeyedDistinct(ALL_TYPES, 2);
  }

  /** The types other than correct, in table order (CompoundTypeQuiz.tsx:40-41). */
  function Distractors(correct: string): (r: seq<string>)
    ensures forall t :: t in r <==> t in ALL_TYPES && t != correct
    ensures |r| >= |ALL_TYPES| - 1
    ensures Distinct(r)
  {
    AllTypesDistinct();
    Without(ALL_TYPES, correct)
  }

  /** A distinct list without one value: distinct, and at most one element shorter. */
  function Without(types: seq<string>, correct: string): (r: seq<string>)
    requires Distinct(types)
    ensures forall t :: t in r <==> t in types && t != correct
    ensures |r| >= |types| - 1
    ensures Distinct(r)
  {
    var r := FilterOut(types, correct);
    SubDistinct(types, r);
    assert multiset(types)[correct] <= 1 by {
      if correct in types {
        var j :| 0 <= j < |types| && types[j] == correct;
      }
    }
    r
  }

  /** s without the occurrences of x. */
  function FilterOut(s: seq<string>, x: string): (r: seq<string>)
    ensures forall t :: t in r <==> t in s && t != x
    ensures |r| == |s| - multiset(s)[x]
    ensures multiset(r) <= multiset(s)
  {
    if s == [] then []
    else
      assert s == [s[0]] + s[1..];
      (if s[0] != x then [s[0]] else []) + FilterOut(s[1..], x)
  }

  /**
   * The options useMemo builds (CompoundTypeQuiz.tsx:39-45): shuffledWrong
   * is the outcome of the first random sort, slot where the second one puts
   * the correct type among the first three distractors.
   */
  function TypeOptions(correct: string, shuffledWrong: seq<string>, slot: nat): (r: seq<string>)
    requires multiset(shuffledWrong) == multiset(Distractors(correct))
    requires slot <= WRONG_COUNT
    ensures |r| == WRONG_COUNT + 1
    ensures forall k :: 0 <= k < |r| ==> (r[k] == correct <==> k == slot)
    ensures forall k :: 0 <= k < |r| && k != slot ==> r[k] in ALL_TYPES
    ensures Distinct(r) && multiset(r)[correct] == 1
  {
    OptionsFrom(Distractors(correct), correct, shuffledWrong, slot)
  }

  /** The first three of a shuffled pool of distractors with correct inserted at slot. */
  function OptionsFrom(pool: seq<string>, correct: string, shuffledWrong: seq<string>, slot: nat): (r: seq<string>)
    requires Distinct(pool) && correct !in pool && |pool| >= WRONG_COUNT
    requires multiset(shuffledWrong) == multiset(pool)
    requires slot <= WRONG_COUNT
    ensures |r| == WRONG_COUNT + 1
    ensures forall k :: 0 <= k < |r| ==> (r[k] == correct <==> k == slot)
    ensures forall k :: 0 <= k < |r| && k != slot ==> r[k] in pool
    ensures Distinct(r) && multiset(r)[correct] == 1
  {
    assert |multiset(shuffledWrong)| == |shuffledWrong|;
    var wrong := shuffledWrong[..WRONG_COUNT];
    SubDistinct(pool, shuffledWrong);
    PrefixDistinct(shuffledWrong, WRONG_COUNT);
    forall t | t in wrong
      ensures t in pool
    {
      assert t in multiset(wrong);
    }
    InsertDistinct(wrong, slot, correct);
    InsertAt(wrong, slot, correct)
  }

  /**
   * The quiz screen's state (CompoundTypeQuiz.tsx:30-34) over a fixed,
   * non-empty list of compounds.
   */
  class TypeQuiz {
    const compounds: seq<Compound>
    /** getCompoundType. */
    const typeOf: string -> string
    var currentIndex: nat
    var selectedAnswer: Option<string>
    var showResult: bool
    var score: nat
    var totalAnswered: nat

    /** The index is in range, an answer is selected exactly when the result is shown, and no more answers are right than were given. */
    predicate Valid()
      reads this
    {
      && currentIndex < |compounds|
      && (showResult <==> selectedAnswer.Some?)
      && score <= totalAnswered
    }

    /** correctType (CompoundTypeQuiz.tsx:36-37). */
    function CorrectType(): string
      reads this
      requires currentIndex < |compounds|
    {
      typeOf(compounds[currentIndex].name)
    }

    /** The first render: compounds[0] must exist, as the screen reads its name at once. */
    constructor(compounds: seq<Compound>, typeOf: string -> string)
      requires |compounds| > 0
      ensures this.compounds == compounds && this.typeOf == typeOf
      ensures currentIndex == 0 && selectedAnswer == None && !showResult && score == 0 && totalAnswered == 0
      ensures Valid()
    {
      this.compounds := compounds;
      this.typeOf := typeOf;
      currentIndex := 0;
      selectedAnswer := None;
      showResult := false;
      score := 0;
      totalAnswered := 0;
    }

    /** handleAnswer (CompoundTypeQuiz.tsx:47-57). */
    method HandleAnswer(answer: string)
      requires Valid()
      modifies this
      ensures Valid()
      ensures old(showResult) ==> unchanged(this)
      ensures !old(showResult) ==>
        && selectedAnswer == Some(answer) && showResult
        && totalAnswered == old(totalAnswered) + 1
        && score == old(score) + (if answer == CorrectType() then 1 else 0)
        && currentIndex == old(currentIndex)
    {
      if showResult {
        return;
      }
      selectedAnswer := Some(answer);
      showResult := true;
      totalAnswered := totalAnswered + 1;
      if answer == CorrectType() {
        score := score + 1;
      }
    }

    /** handleNext (CompoundTypeQuiz.tsx:59-67): the next compound, wrapping to the first. */
    method HandleNext()
      requires Valid()
      modifies this
      ensures Valid()
      ensures currentIndex == NextIndex(old(currentIndex), |compounds|)
      ensures selectedAnswer == None && !showResult
      ensures score == old(score) && totalAnswered == old(totalAnswered)
    {
      if currentIndex < |compounds| - 1 {
        currentIndex := currentIndex + 1;
      } else {
        currentIndex := 0;
      }
      selectedAnswer := None;
      showResult := false;
    }

    /** handleReset (CompoundTypeQuiz.tsx:69-75). */
    method HandleReset()
      requires Valid()
      modifies this
      ensures Valid()
      ensures currentIndex == 0 && selectedAnswer == None && !showResult && score == 0 && totalAnswered == 0
    {
      currentIndex := 0;
      selectedAnswer := None;
      showResult := false;
      score := 0;
      totalAnswered := 0;
    }

    /** The effect run after the index changes (CompoundTypeQuiz.tsx:77-80). */
    method IndexChanged()
      requires Valid()
      modifies this
      ensures Valid()
      ensures selectedAnswer == None && !showResult
      ensures currentIndex == old(currentIndex) && score == old(score) && totalAnswered == old(totalAnswered)
    {
      selectedAnswer := None;
      showResult := false;
    }
  }
}
