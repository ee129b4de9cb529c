/**
 * The name-to-structure quiz (muki/src/components/modes/NameToStructureQuiz.tsx):
 * the player is shown a compound's name and picks its structure among the
 * structures of up to four compounds; an answer is the id of the compound
 * picked.
 */
module NameToStructureQuiz {
  import opened Wrappers
  import opened ChemTypes
  import opened QuizOptions

  /** The number of other compounds shown at most. */
  const WRONG_COUNT: nat := 3

  /** The compounds whose id differs from id, in order (NameToStructureQuiz.tsx:27-28). */
  function Others(compounds: seq<Compound>, id: string): (r: seq<Compound>)
    ensures forall c :: c in r <==> c in compounds && c.id != id
    ensures |r| <= |compounds|
  {
    if compounds == [] then []
    else (if compounds[0].id != id then [compounds[0]] else []) + Others(compounds[1..], id)
  }

  /** Without a compound carrying id, nothing is filtered out. */
  lemma {:induction false} OthersAbsent(compounds: seq<Compound>, id: string)
    requires forall j :: 0 <= j < |compounds| ==> compounds[j].id != id
    ensures Others(compounds, id) == compounds
  {
    if compounds != [] {
      OthersAbsent(compounds[1..], id);
    }
  }

  /** When the id at position i occurs nowhere else, exactly one compound is filtered out. */
  lemma {:induction false} OthersUnique(compounds: seq<Compound>, i: nat)
    requires i < |compounds|
    requires forall j :: 0 <= j < |compounds| && compounds[j].id == compounds[i].id ==> j == i
    ensures |Others(compounds, compounds[i].id)| == |compounds| - 1
  {
    var id := compounds[i].id;
    if i == 0 {
      OthersAbsent(compounds[1..], id);
    } else {
      assert compounds[1..][i - 1] == compounds[i];
      OthersUnique(compounds[1..], i - 1);
    }
  }

  function Min(a: nat, b: nat): nat {
    if a <= b then a else b
  }

  /**
   * The options useMemo builds (NameToStructureQuiz.tsx:26-32): shuffledOthers
   * is the outcome of the first random sort, slot where the second one puts
   * the current compound among the (at most three) others kept.
   */
  function StructureOptions(compounds: seq<Compound>, index: nat, shuffledOthers: seq<Compound>, slot: nat): (r: seq<Compound>)
    requires index < |compounds|
    requires multiset(shuffledOthers) == multiset(Others(compounds, compounds[index].id))
    requires slot <= Min(WRONG_COUNT, |Others(compounds, compounds[index].id)|)
    ensures |r| == 1 + Min(WRONG_COUNT, |Others(compounds, compounds[index].id)|)
    ensures r[slot] == compounds[index]
    ensures forall k :: 0 <= k < |r| ==> (r[k].id == compounds[index].id <==> k == slot)
    ensures forall k :: 0 <= k < |r| ==> r[k] in compounds
  {
    var current := compounds[index];
    var pool := Others(compounds, current.id);
    assert |multiset(shuffledOthers)| == |shuffledOthers|;
    assert |multiset(pool)| == |pool|;
    var wrong := shuffledOthers[..Min(WRONG_COUNT, |shuffledOthers|)];
    forall c | c in wrong
      ensures c in compounds && c.id != current.id
    {
      assert c in shuffledOthers;
      assert c in multiset(shuffledOthers);
      assert c in multiset(pool);
    }
    InsertAt(wrong, slot, current)
  }

  /** With distinct ids and at least four compounds, four options are shown. */
  lemma FourOptions(compounds: seq<Compound>, index: nat, shuffledOthers: seq<Compound>, slot: nat)
    requires index < |compounds| && |compounds| >= WRONG_COUNT + 1
    requires forall i, j :: 0 <= i < j < |compounds| ==> compounds[i].id != compounds[j].id
    requires multiset(shuffledOthers) == multiset(Others(compounds, compounds[index].id))
    requires slot <= Min(WRONG_COUNT, |Others(compounds, compounds[index].id)|)
    ensures |StructureOptions(compounds, index, shuffledOthers, slot)| == WRONG_COUNT + 1
  {
    OthersUnique(compounds, index);
  }

  /**
   * The quiz screen's state (NameToStructureQuiz.tsx:17-21) over a fixed,
   * non-empty list of compounds.
   */
  class StructureQuiz {
    const compounds: seq<Compound>
    var currentIndex: nat
    var selectedAnswer: Option<string>
    var showResult: bool
    var score: nat
    var totalAnswered: nat

    /** The index is in range, an answer is selected exactly when the result is shown, and no more answers are right than were given. */
    predicate Valid()
      reads this
    {
      && currentIndex < |compounds|
      && (showResult <==> selectedAnswer.Some?)
      && score <= totalAnswered
    }

    /** The first render: compounds[0] must exist, as the screen reads its name at once. */
    constructor(compounds: seq<Compound>)
      requires |compounds| > 0
      ensures this.compounds == compounds
      ensures currentIndex == 0 && selectedAnswer == None && !showResult && score == 0 && totalAnswered == 0
      ensures Valid()
    {
      this.compounds := compounds;
      currentIndex := 0;
      selectedAnswer := None;
      showResult := false;
      score := 0;
      totalAnswered := 0;
    }

    /** handleAnswer (NameToStructureQuiz.tsx:34-44): right when answerId is the current compound's id. */
    method HandleAnswer(answerId: string)
      requires Valid()
      modifies this
      ensures Valid()
      ensures old(showResult) ==> unchanged(this)
      ensures !old(showResult) ==>
        && selectedAnswer == Some(answerId) && showResult
        && totalAnswered == old(totalAnswered) + 1
        && score == old(score) + (if answerId == compounds[currentIndex].id then 1 else 0)
        && currentIndex == old(currentIndex)
    {
      if showResult {
        return;
      }
      selectedAnswer := Some(answerId);
      showResult := true;
      totalAnswered := totalAnswered + 1;
      if answerId == compounds[currentIndex].id {
        score := score + 1;
      }
    }

    /** handleNext (NameToStructureQuiz.tsx:46-54): the next compound, wrapping to the first. */
    method HandleNext()
      requires Valid()
      modifies this
      ensures Valid()
      ensures currentIndex == NextIndex(old(currentIndex), |compounds|)
      ensures selectedAnswer == None && !showResult
      ensures score == old(score) && totalAnswered == old(totalAnswered)
    {
      if currentIndex < |compounds| - 1 {
        currentIndex := currentIndex + 1;
      } else {
        currentIndex := 0;
      }
      selectedAnswer := None;
      showResult := false;
    }

    /** handleReset (NameToStructureQuiz.tsx:56-62). */
    method HandleReset()
      requires Valid()
      modifies this
      ensures Valid()
      ensures currentIndex == 0 && selectedAnswer == None && !showResult && score == 0 && totalAnswered == 0
    {
      currentIndex := 0;
      selectedAnswer := None;
      showResult := false;
      score := 0;
      totalAnswered := 0;
    }

    /** The effect run after the index changes (NameToStructureQuiz.tsx:64-67). */
    method IndexChanged()
      requires Valid()
      modifies this
      ensures Valid()
      ensures selectedAnswer == None && !showResult
      ensures currentIndex == old(currentIndex) && score == old(score) && totalAnswered == old(totalAnswered)
    {
      selectedAnswer := None;
      showResult := false;
    }
  }
}
