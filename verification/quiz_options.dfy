/**
 * What the two multiple-choice quizzes of the chemistry app share: a list
 * of choices built from the correct answer and up to three distractors,
 * and the question index that wraps to the first question after the last.
 */
module QuizOptions {

  /** No value occurs twice in s. */
  predicate Distinct<T(==)>(s: seq<T>) {
    forall i :: 0 <= i < |s| ==> multiset(s)[s[i]] == 1
  }

  /** s with x placed at position slot. */
  function InsertAt<T(==)>(s: seq<T>, slot: nat, x: T): (r: seq<T>)
    requires slot <= |s|
    ensures |r| == |s| + 1 && r[slot] == x
    ensures forall k :: 0 <= k < slot ==> r[k] == s[k]
    ensures forall k :: slot < k < |r| ==> r[k] == s[k - 1]
    ensures multiset(r) == multiset(s) + multiset{x}
  {
    assert s == s[..slot] + s[slot..];
    s[..slot] + [x] + s[slot..]
  }

  /** A distinct list stays distinct when a value it lacks is inserted, and the value occurs exactly once. */
  lemma InsertDistinct<T>(s: seq<T>, slot: nat, x: T)
    requires slot <= |s| && Distinct(s) && x !in s
    ensures Distinct(InsertAt(s, slot, x)) && multiset(InsertAt(s, slot, x))[x] == 1
  {
    var r := InsertAt(s, slot, x);
    assert multiset(s)[x] == 0;
    forall i | 0 <= i < |r|
      ensures multiset(r)[r[i]] == 1
    {
      if i < slot {
        assert r[i] == s[i] && r[i] != x;
      } else if i > slot {
        assert r[i] == s[i - 1] && r[i] != x;
      }
    }
  }

  /** A prefix of a distinct list is distinct and holds only values of the list. */
  lemma PrefixDistinct<T>(s: seq<T>, n: nat)
    requires n <= |s| && Distinct(s)
    ensures Distinct(s[..n]) && multiset(s[..n]) <= multiset(s)
  {
    assert s == s[..n] + s[n..];
    forall i | 0 <= i < n
      ensures multiset(s[..n])[s[..n][i]] == 1
    {
      assert s[..n][i] == s[i];
      assert s[i] in multiset(s[..n]);
    }
  }

  /** A list whose values occur no more often than in a distinct list is distinct. */
  lemma SubDistinct<T>(s: seq<T>, r: seq<T>)
    requires Distinct(s) && multiset(r) <= multiset(s)
    ensures Distinct(r)
  {
    forall i | 0 <= i < |r|
      ensures multiset(r)[r[i]] == 1
    {
      assert r[i] in multiset(r);
      assert r[i] in multiset(s);
      var j :| 0 <= j < |s| && s[j] == r[i];
    }
  }

  /** Distinct values sit at distinct positions. */
  lemma DistinctPairwise<T>(s: seq<T>, i: nat, j: nat)
    requires Distinct(s) && i < j < |s|
    ensures s[i] != s[j]
  {
    assert s == s[..i] + [s[i]] + s[i + 1..j] + [s[j]] + s[j + 1..];
    assert multiset(s)[s[i]] >= 1 + (if s[j] == s[i] then 1 else 0);
  }

  /** A list with no repeated position is distinct. */
  lemma {:induction false} PairwiseDistinct<T>(s: seq<T>)
    requires forall i, j :: 0 <= i < j < |s| ==> s[i] != s[j]
    ensures Distinct(s)
  {
    if s != [] {
      var t := s[1..];
      PairwiseDistinct(t);
      assert s == [s[0]] + t;
      assert s[0] !in t;
      forall i | 0 <= i < |s|
        ensures multiset(s)[s[i]] == 1
      {
        if i > 0 {
          assert s[i] == t[i - 1] && s[i] != s[0];
        }
      }
    }
  }

  /** Strings that differ at position n are distinct. */
  lemma KeyedDistinct(s: seq<string>, n: nat)
    requires forall i :: 0 <= i < |s| ==> n < |s[i]|
    requires forall i, j :: 0 <= i < j < |s| ==> s[i][n] != s[j][n]
    ensures Distinct(s)
  {
    PairwiseDistinct(s);
  }

  /** handleNext's index: the next question, or the first after the last (a list of count questions). */
  function NextIndex(index: nat, count: nat): (r: nat)
    requires index < count
    ensures r < count
    ensures r == 0 <==> index == count - 1 || count == 1
    ensures r != 0 ==> r == index + 1
  {
    if index < count - 1 then index + 1 else 0
  }
}
