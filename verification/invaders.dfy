/**
 * The game logic of Quiz Invaders (script.js:12-328) as transitions of a
 * session value. The answers of the current question fall down the screen
 * as invaders; hitting the correct one scores, hitting a wrong one or
 * letting the correct one reach the bottom costs a life. The Game class
 * in InvadersGame implements these transitions on its fields.
 */
module Invaders {
  import opened Wrappers
  import opened InvadersCsv

  const MAX_LIVES: int := 3
  /** Points for a correct hit. */
  const REWARD: nat := 100
  /** Base fall speed per frame. */
  const INVADER_SPEED: real := 0.8
  /** Largest extra speed drawn per invader. */
  const SPEED_JITTER: real := 0.4
  /** Spawn height: -100 minus up to 100 more. */
  const SPAWN_TOP: real := -100.0
  const SPAWN_SPREAD: real := 100.0

  datatype Invader = Invader(text: string, isCorrect: bool, y: real, speed: real, active: bool)

  datatype Rank = S | A | B | C | D

  /**
   * The random draws of one spawn: the shuffled answers, and per invader
   * the two Math.random() values behind its start height and its speed.
   */
  datatype Draw = Draw(order: seq<string>, lift: seq<real>, jitter: seq<real>)

  predicate Unit(r: real) {
    0.0 <= r < 1.0
  }

  /** d is a possible outcome of the draws for question q. */
  predicate Fits(d: Draw, q: Question) {
    && multiset(d.order) == multiset(q.answers)
    && |d.lift| == |d.order| && |d.jitter| == |d.order|
    && (forall k :: 0 <= k < |d.lift| ==> Unit(d.lift[k]))
    && (forall k :: 0 <= k < |d.jitter| ==> Unit(d.jitter[k]))
  }

  /** The invader record spawnInvader creates (script.js:217, 224-228). */
  function NewInvader(text: string, isCorrect: bool, lift: real, jitter: real): Invader
  {
    Invader(text, isCorrect, SPAWN_TOP - lift * SPAWN_SPREAD, INVADER_SPEED + jitter * SPEED_JITTER, true)
  }

  /** One invader per element of order, in order. */
  function SpawnAll(order: seq<string>, lift: seq<real>, jitter: seq<real>, correct: string): (invs: seq<Invader>)
    requires |lift| == |order| && |jitter| == |order|
    ensures |invs| == |order|
  {
    seq(|order|, k requires 0 <= k < |order| => NewInvader(order[k], order[k] == correct, lift[k], jitter[k]))
  }

  /** The invaders nextQuestion spawns for q (script.js:202-205). */
  function Spawn(q: Question, d: Draw): (invs: seq<Invader>)
    requires Fits(d, q)
    ensures |invs| == |q.answers|
  {
    assert |multiset(d.order)| == |d.order|;
    SpawnAll(d.order, d.lift, d.jitter, q.correct)
  }

  /**
   * Every spawned invader is active, is the correct one exactly when it
   * carries the correct answer, starts in the band above the screen and
   * falls at a speed in [0.8, 1.2).
   */
  lemma SpawnShape(q: Question, d: Draw)
    requires Fits(d, q)
    ensures var invs := Spawn(q, d);
      && (forall k :: 0 <= k < |invs| ==> invs[k].active && (invs[k].isCorrect <==> invs[k].text == q.correct))
      && (forall k :: 0 <= k < |invs| ==> SPAWN_TOP - SPAWN_SPREAD < invs[k].y <= SPAWN_TOP)
      && (forall k :: 0 <= k < |invs| ==> INVADER_SPEED <= invs[k].speed < INVADER_SPEED + SPEED_JITTER)
  {
  }

  /** The texts of invs, in order. */
  function Texts(invs: seq<Invader>): (r: seq<string>)
    ensures |r| == |invs|
  {
    seq(|invs|, k requires 0 <= k < |invs| => invs[k].text)
  }

  /** The number of invaders that carry the correct answer. */
  function CountCorrect(invs: seq<Invader>): nat
  {
    if invs == [] then 0 else (if invs[0].isCorrect then 1 else 0) + CountCorrect(invs[1..])
  }

  lemma {:induction false} SpawnAllCorrect(order: seq<string>, lift: seq<real>, jitter: seq<real>, correct: string)
    requires |lift| == |order| && |jitter| == |order|
    ensures CountCorrect(SpawnAll(order, lift, jitter, correct)) == multiset(order)[correct]
  {
    if order != [] {
      var invs := SpawnAll(order, lift, jitter, correct);
      SpawnAllCorrect(order[1..], lift[1..], jitter[1..], correct);
      assert invs[1..] == SpawnAll(order[1..], lift[1..], jitter[1..], correct);
      assert order == [order[0]] + order[1..];
    }
  }

  /**
   * The spawned invaders are the question's answers in some order, and as
   * many of them are correct as the answers hold copies of the correct
   * answer: exactly one when it appears once, none when it is missing.
   */
  lemma SpawnMatchesAnswers(q: Question, d: Draw)
    requires Fits(d, q)
    ensures multiset(Texts(Spawn(q, d))) == multiset(q.answers)
    ensures CountCorrect(Spawn(q, d)) == multiset(q.answers)[q.correct]
  {
    assert Texts(Spawn(q, d)) == d.order;
    SpawnAllCorrect(d.order, d.lift, d.jitter, q.correct);
  }

  /** The state of a game: the fields of script.js's Game that the logic uses. */
  datatype Session = Session(
    questions: seq<Question>,
    limit: nat,
    active: seq<Question>,
    index: nat,
    score: nat,
    lives: int,
    correctCount: nat,
    invaders: seq<Invader>,
    running: bool,
    rank: Option<Rank>)

  /** What the constructor sets (script.js:14-24). */
  function Initial(): Session
  {
    Session([], 5, [], 0, 0, MAX_LIVES, 0, [], false, None)
  }

  /** The counters agree: the score is 100 per correct answer, and no more answers are correct than were asked. */
  predicate Counters(st: Session) {
    && st.score == REWARD * st.correctCount
    && st.lives <= MAX_LIVES
    && (st.running ==> st.lives > 0)
    && st.correctCount <= st.index <= |st.active|
  }

  /** The invariant every transition keeps: besides the counters, invaders on a running screen belong to a question. */
  predicate Inv(st: Session) {
    && Counters(st)
    && (st.running && st.invaders != [] ==> st.index < |st.active|)
  }

  function Accuracy(correctCount: nat, total: nat): real
  {
    if total > 0 then correctCount as real / total as real else 0.0
  }

  /** The rank chain of gameOver (script.js:285-289): the first threshold met wins. */
  function RankOf(accuracy: real): Rank
  {
    if accuracy >= 0.95 then S
    else if accuracy >= 0.8 then A
    else if accuracy >= 0.6 then B
    else if accuracy >= 0.4 then C
    else D
  }

  /** The same ranking stated on the counts alone. */
  function RankByCounts(correctCount: nat, total: nat): Rank
  {
    if total == 0 then D
    else if 100 * correctCount >= 95 * total then S
    else if 10 * correctCount >= 8 * total then A
    else if 10 * correctCount >= 6 * total then B
    else if 10 * correctCount >= 4 * total then C
    else D
  }

  /** The ranking by accuracy agrees with the ranking by counts. */
  lemma RankAgreesWithCounts(correctCount: nat, total: nat)
    ensures RankOf(Accuracy(correctCount, total)) == RankByCounts(correctCount, total)
  {
    if total > 0 {
      var acc := Accuracy(correctCount, total);
      var n := total as real;
      var c := correctCount as real;
      assert acc * n == c;
      Scale(acc, n, c, 0.95);
      Scale(acc, n, c, 0.8);
      Scale(acc, n, c, 0.6);
      Scale(acc, n, c, 0.4);
    }
  }

  lemma Scale(acc: real, n: real, c: real, t: real)
    requires n > 0.0 && acc * n == c
    ensures acc >= t <==> c >= t * n
  {
    if acc >= t {
      assert acc * n >= t * n;
    } else {
      assert acc * n < t * n;
    }
  }

  /** A worse-or-equal accuracy never earns a better rank. */
  function Grade(r: Rank): nat
  {
    match r
    case S => 4
    case A => 3
    case B => 2
    case C => 1
    case D => 0
  }

  lemma RankMonotone(a1: real, a2: real)
    requires a1 <= a2
    ensures Grade(RankOf(a1)) <= Grade(RankOf(a2))
  {
  }

  /**
   * gameOver (script.js:280-290): stop, and rank the accuracy; the rank is
   * stated on the counts, which RankAgreesWithCounts shows is the same.
   */
  function GameOver(st: Session): Session
  {
    st.(running := false, rank := Some(RankByCounts(st.correctCount, |st.active|)))
  }

  /** The rank gameOver gives a session: the one its counts earn. */
  function EarnedRank(st: Session): Option<Rank>
  {
    Some(RankByCounts(st.correctCount, |st.active|))
  }

  /** mistake (script.js:269-278). */
  function Mistake(st: Session): Session
  {
    var s := st.(lives := st.lives - 1);
    if s.lives <= 0 then GameOver(s) else s
  }

  /**
   * parseCSV (script.js:94-121) on the session: the question list is
   * replaced, unless the data has fewer than two non-blank lines.
   */
  function Load(st: Session, data: string): (r: Session)
    ensures r == st.(questions := r.questions)
    ensures ParseQuestions(data).Some? ==> r.questions == ParseQuestions(data).value
    ensures ParseQuestions(data).None? ==> r == st
  {
    match ParseQuestions(data)
    case None => st
    case Some(qs) => st.(questions := qs)
  }

  /** The draws d fit the question at st.index, if there is one. */
  predicate CanSpawn(st: Session, d: Draw) {
    st.index < |st.active| ==> Fits(d, st.active[st.index])
  }

  /** nextQuestion (script.js:187-206). */
  function NextQuestion(st: Session, d: Draw): Session
    requires CanSpawn(st, d)
  {
    if !st.running then st
    else if st.index >= |st.active| then GameOver(st)
    else st.(invaders := Spawn(st.active[st.index], d))
  }

  function Min(a: int, b: int): int { if a <= b then a else b }

  /** shuffled.slice(0, limit), a limit of 0 taking every question (script.js:152-153). */
  function Take(shuffled: seq<Question>, limit: nat): (r: seq<Question>)
    ensures |r| <= |shuffled| && r == shuffled[..|r|]
    ensures |r| == if limit == 0 then |shuffled| else Min(limit, |shuffled|)
  {
    if limit == 0 then shuffled else shuffled[..Min(limit, |shuffled|)]
  }

  /** The draws for the first question a boot from st with that shuffle would show. */
  predicate CanBoot(st: Session, shuffled: seq<Question>, d: Draw) {
    |Take(shuffled, st.limit)| > 0 ==> Fits(d, shuffled[0])
  }

  /** boot (script.js:142-162), shuffled being the shuffle of the question list. */
  function Boot(st: Session, shuffled: seq<Question>, d: Draw): Session
    requires multiset(shuffled) == multiset(st.questions)
    requires CanBoot(st, shuffled, d)
  {
    var s := st.(score := 0, lives := MAX_LIVES, index := 0, correctCount := 0, invaders := [],
                 running := true, active := Take(shuffled, st.limit));
    NextQuestion(s, d)
  }

  /** handleHit (script.js:241-267) on the invader at position i. */
  function Hit(st: Session, i: nat): Session
    requires i < |st.invaders|
  {
    var inv := st.invaders[i];
    if !st.running || !inv.active then st
    else if inv.isCorrect then
      st.(score := st.score + REWARD, correctCount := st.correctCount + 1,
          invaders := [], index := st.index + 1)
    else Mistake(st.(invaders := st.invaders[i := inv.(active := false)]))
  }

  /** The callback handleHit schedules after a correct hit (script.js:261). */
  function Continue(st: Session, d: Draw): Session
    requires CanSpawn(st, d)
  {
    if st.running then NextQuestion(st, d) else st
  }

  /** resetToStart (script.js:132-140), its game-state part. */
  function ResetToStart(st: Session): Session
  {
    st.(running := false)
  }

  /** The draws for the question after the current one, if there is one. */
  predicate CanAdvance(st: Session, d: Draw) {
    CanSpawn(st.(index := st.index + 1), d)
  }

  /** What handling the invader at position k did: the new state, and whether it was the correct one landing. */
  datatype Outcome = Outcome(next: Session, landed: bool)

  /** The active correct invader inv reaches past the bottom of a world h high this frame. */
  predicate Lands(inv: Invader, h: real) {
    inv.active && inv.isCorrect && inv.y + inv.speed > h
  }

  /** What one frame does to an invader when it is not the correct one landing: move it, drop it once past h. */
  function Fall(inv: Invader, h: real): seq<Invader>
  {
    if !inv.active then [inv]
    else
      var moved := inv.(y := inv.y + inv.speed);
      if moved.y > h && !moved.isCorrect then [] else [moved]
  }

  /** The state after the step at position k when that invader does not land. */
  function CalmNext(st: Session, k: nat, h: real): Session
    requires k < |st.invaders|
  {
    st.(invaders := st.invaders[..k] + Fall(st.invaders[k], h) + st.invaders[k + 1..])
  }

  /** The body of the frame loop for the invader at position k (script.js:303-324). */
  function StepAt(st: Session, k: nat, h: real): (o: Outcome)
    requires k < |st.invaders|
    ensures o.landed <==> Lands(st.invaders[k], h)
    ensures |o.next.invaders| >= k && o.next.active == st.active && o.next.index == st.index
  {
    var inv := st.invaders[k];
    if !inv.active then Outcome(st, false)
    else
      var moved := inv.(y := inv.y + inv.speed);
      if moved.y > h then
        if moved.isCorrect then Outcome(Mistake(st.(invaders := st.invaders[k := moved.(active := false)])), true)
        else Outcome(st.(invaders := st.invaders[..k] + st.invaders[k + 1..]), false)
      else Outcome(st.(invaders := st.invaders[k := moved]), false)
  }

  /** A step keeps the invaders before position k, the questions and the counters, and never restarts the game. */
  lemma StepFrame(st: Session, k: nat, h: real)
    requires k < |st.invaders|
    ensures var o := StepAt(st, k, h);
      && o.next.invaders[..k] == st.invaders[..k]
      && o.next.questions == st.questions && o.next.limit == st.limit
      && o.next.score == st.score && o.next.correctCount == st.correctCount
      && (o.next.running ==> st.running)
  {
    var inv := st.invaders[k];
    if inv.active {
      var moved := inv.(y := inv.y + inv.speed);
      if moved.y > h && moved.isCorrect {
        assert st.invaders[k := moved.(active := false)][..k] == st.invaders[..k];
      } else if moved.y <= h {
        assert st.invaders[k := moved][..k] == st.invaders[..k];
      }
    }
  }

  /**
   * A landing costs one life; when no life is left the game stops with the
   * rank its counts earn, otherwise the rank and the running flag stay.
   */
  lemma StepLanded(st: Session, k: nat, h: real)
    requires k < |st.invaders| && Lands(st.invaders[k], h)
    ensures var o := StepAt(st, k, h);
      && o.next.lives == st.lives - 1
      && (o.next.running <==> st.running && o.next.lives > 0)
      && o.next.rank == (if o.next.lives <= 0 then EarnedRank(st) else st.rank)
  {
  }

  /** Any other step only replaces invader k by what Fall makes of it. */
  lemma StepCalm(st: Session, k: nat, h: real)
    requires k < |st.invaders| && !Lands(st.invaders[k], h)
    ensures StepAt(st, k, h).next == CalmNext(st, k, h)
  {
    var inv := st.invaders[k];
    assert st.invaders == st.invaders[..k] + [inv] + st.invaders[k + 1..];
    if inv.active && inv.y + inv.speed <= h {
      var moved := inv.(y := inv.y + inv.speed);
      assert st.invaders[k := moved] == st.invaders[..k] + [moved] + st.invaders[k + 1..];
    }
  }

  /** All the step facts at once, for the lemmas that walk the frame. */
  lemma StepFacts(st: Session, k: nat, h: real)
    requires k < |st.invaders|
    ensures var o := StepAt(st, k, h);
      && o.next.invaders[..k] == st.invaders[..k]
      && o.next.questions == st.questions && o.next.limit == st.limit
      && o.next.score == st.score && o.next.correctCount == st.correctCount
      && (o.next.running ==> st.running)
      && (o.landed ==> o.next.lives == st.lives - 1
                       && (o.next.running <==> st.running && o.next.lives > 0)
                       && o.next.rank == (if o.next.lives <= 0 then EarnedRank(st) else st.rank))
      && (!o.landed ==> o.next == CalmNext(st, k, h))
  {
    StepFrame(st, k, h);
    if Lands(st.invaders[k], h) {
      StepLanded(st, k, h);
    } else {
      StepCalm(st, k, h);
    }
  }

  /**
   * The frame loop's walk over the invaders at positions i-1 down to 0
   * (script.js:302-325): the correct invader landing while lives remain
   * moves to the next question and ends the walk.
   */
  function TickFrom(st: Session, i: nat, h: real, d: Draw): Session
    requires i <= |st.invaders|
    requires CanAdvance(st, d)
    decreases i
  {
    if i == 0 then st
    else
      var o := StepAt(st, i - 1, h);
      if o.landed && o.next.running then NextQuestion(o.next.(index := o.next.index + 1), d)
      else TickFrom(o.next, i - 1, h, d)
  }

  /** One turn of the walk: stop after a landing that leaves the game running, go on otherwise. */
  lemma WalkStep(st: Session, i: nat, h: real, d: Draw)
    requires i < |st.invaders| && CanAdvance(st, d)
    ensures var o := StepAt(st, i, h);
      && (o.landed && o.next.running ==> TickFrom(st, i + 1, h, d) == NextQuestion(o.next.(index := o.next.index + 1), d))
      && (!(o.landed && o.next.running) ==>
            i <= |o.next.invaders| && CanAdvance(o.next, d) && TickFrom(st, i + 1, h, d) == TickFrom(o.next, i, h, d))
  {
  }

  /** One frame of gameLoop (script.js:297-328) for a world h high. */
  function Tick(st: Session, h: real, d: Draw): Session
    requires CanAdvance(st, d)
  {
    if !st.running then st else TickFrom(st, |st.invaders|, h, d)
  }

  // ---------------------------------------------------------------------
  // The invariant is kept by every transition.

  lemma InitialInv()
    ensures Inv(Initial())
  {
  }

  lemma GameOverInv(st: Session)
    requires Inv(st)
    ensures Inv(GameOver(st)) && !GameOver(st).running
  {
  }

  lemma MistakeInv(st: Session)
    requires Inv(st)
    ensures Inv(Mistake(st))
  {
  }

  /** nextQuestion repairs the screen: it needs only the counters. */
  lemma NextQuestionInv(st: Session, d: Draw)
    requires Counters(st) && CanSpawn(st, d)
    ensures Inv(NextQuestion(st, d))
  {
  }

  lemma BootInv(st: Session, shuffled: seq<Question>, d: Draw)
    requires multiset(shuffled) == multiset(st.questions)
    requires CanBoot(st, shuffled, d)
    ensures Inv(Boot(st, shuffled, d))
  {
  }

  lemma HitInv(st: Session, i: nat)
    requires Inv(st) && i < |st.invaders|
    ensures Inv(Hit(st, i))
  {
  }

  lemma ContinueInv(st: Session, d: Draw)
    requires Inv(st) && CanSpawn(st, d)
    ensures Inv(Continue(st, d))
  {
  }

  lemma StepInv(st: Session, k: nat, h: real)
    requires Inv(st) && k < |st.invaders|
    ensures var o := StepAt(st, k, h);
      Inv(o.next) && (o.landed && o.next.running ==> Counters(o.next.(index := o.next.index + 1)))
  {
    StepFacts(st, k, h);
  }

  lemma {:induction false} TickFromInv(st: Session, i: nat, h: real, d: Draw)
    requires Inv(st) && i <= |st.invaders| && CanAdvance(st, d)
    ensures Inv(TickFrom(st, i, h, d))
    decreases i
  {
    if i > 0 {
      var next, done := WalkInv(st, i, h, d);
      if !done {
        TickFromInv(next, i - 1, h, d);
      }
    }
  }

  /**
   * One step of the walk keeps the invariant: either the walk ends in a
   * state that meets it, or it goes on from a state that meets it.
   */
  lemma WalkInv(st: Session, i: nat, h: real, d: Draw) returns (next: Session, done: bool)
    requires Inv(st) && 0 < i <= |st.invaders| && CanAdvance(st, d)
    ensures done ==> Inv(TickFrom(st, i, h, d))
    ensures !done ==> Inv(next) && i - 1 <= |next.invaders| && CanAdvance(next, d)
                      && TickFrom(st, i, h, d) == TickFrom(next, i - 1, h, d)
  {
    var o := StepAt(st, i - 1, h);
    next := o.next;
    done := o.landed && o.next.running;
    if done {
      WalkBreakInv(st, i, h, d);
    } else {
      WalkOnInv(st, i, h, d);
    }
  }

  /** The walk ends after the correct invader lands in a running game: the next question keeps the invariant. */
  lemma WalkBreakInv(st: Session, i: nat, h: real, d: Draw)
    requires Inv(st) && 0 < i <= |st.invaders| && CanAdvance(st, d)
    requires var o := StepAt(st, i - 1, h); o.landed && o.next.running
    ensures Inv(TickFrom(st, i, h, d))
  {
    var o := StepAt(st, i - 1, h);
    StepInv(st, i - 1, h);
    WalkStep(st, i - 1, h, d);
    var n := o.next.(index := o.next.index + 1);
    assert n.index == st.index + 1 && n.active == st.active;
    NextQuestionInv(n, d);
  }

  /** Otherwise the walk goes on from a state that keeps the invariant. */
  lemma WalkOnInv(st: Session, i: nat, h: real, d: Draw)
    requires Inv(st) && 0 < i <= |st.invaders| && CanAdvance(st, d)
    requires var o := StepAt(st, i - 1, h); !(o.landed && o.next.running)
    ensures var o := StepAt(st, i - 1, h);
      && Inv(o.next) && i - 1 <= |o.next.invaders| && CanAdvance(o.next, d)
      && TickFrom(st, i, h, d) == TickFrom(o.next, i - 1, h, d)
  {
    StepInv(st, i - 1, h);
    WalkStep(st, i - 1, h, d);
  }

  lemma TickInv(st: Session, h: real, d: Draw)
    requires Inv(st) && CanAdvance(st, d)
    ensures Inv(Tick(st, h, d))
  {
    if st.running {
      TickFromInv(st, |st.invaders|, h, d);
    }
  }

  // ---------------------------------------------------------------------
  // What each transition does.

  /**
   * boot restarts the counters, takes the first `limit` questions of the
   * shuffle (all of them for a limit of 0) and shows the first one; with no
   * question to play the game ends at once with rank D.
   */
  lemma BootFacts(st: Session, shuffled: seq<Question>, d: Draw)
    requires multiset(shuffled) == multiset(st.questions)
    requires CanBoot(st, shuffled, d)
    ensures var r := Boot(st, shuffled, d);
      && r.score == 0 && r.lives == MAX_LIVES && r.index == 0 && r.correctCount == 0
      && r.active == shuffled[..|r.active|]
      && |r.active| == (if st.limit == 0 then |st.questions| else Min(st.limit, |st.questions|))
      && multiset(r.active) <= multiset(st.questions)
      && (r.running <==> r.active != [])
      && (r.active != [] ==> r.invaders == Spawn(r.active[0], d))
      && (r.active == [] ==> r.rank == Some(D) && r.invaders == [])
  {
    var r := Boot(st, shuffled, d);
    assert |multiset(shuffled)| == |shuffled|;
    assert |multiset(st.questions)| == |st.questions|;
    assert shuffled == r.active + shuffled[|r.active|..];
  }

  /** A correct hit scores 100, counts, advances and clears the screen; lives are unchanged. */
  lemma HitCorrect(st: Session, i: nat)
    requires i < |st.invaders| && st.running && st.invaders[i].active && st.invaders[i].isCorrect
    ensures var r := Hit(st, i);
      && r.score == st.score + REWARD && r.correctCount == st.correctCount + 1
      && r.index == st.index + 1 && r.invaders == [] && r.lives == st.lives && r.running
  {
  }

  /**
   * A wrong hit deactivates only that invader and costs exactly one life;
   * score, count and question stay, and the game ends when no life is left.
   */
  lemma HitWrong(st: Session, i: nat)
    requires i < |st.invaders| && st.running && st.invaders[i].active && !st.invaders[i].isCorrect
    ensures var r := Hit(st, i);
      && r.score == st.score && r.correctCount == st.correctCount && r.index == st.index
      && r.lives == st.lives - 1
      && r.invaders == st.invaders[i := st.invaders[i].(active := false)]
      && (r.running <==> r.lives > 0)
  {
  }

  /** A hit on a stopped game or an inactive invader changes nothing; so a second hit is a no-op. */
  lemma HitIdempotent(st: Session, i: nat)
    requires i < |st.invaders|
    ensures !st.running || !st.invaders[i].active ==> Hit(st, i) == st
    ensures i < |Hit(st, i).invaders| ==> Hit(Hit(st, i), i) == Hit(st, i)
  {
  }

  /** Answering every question correctly earns rank S. */
  lemma PerfectRunRanksS(n: nat)
    requires n > 0
    ensures RankOf(Accuracy(n, n)) == S
  {
  }

  lemma {:induction false} TickFromKeeps(st: Session, i: nat, h: real, d: Draw)
    requires i <= |st.invaders| && CanAdvance(st, d)
    ensures var r := TickFrom(st, i, h, d);
      && r.score == st.score && r.correctCount == st.correctCount
      && r.questions == st.questions && r.active == st.active && r.limit == st.limit
      && r.lives <= st.lives
      && (r.running ==> st.running)
      && (r.index == st.index || (r.index == st.index + 1 && st.running))
    decreases i
  {
    if i > 0 {
      var o := StepAt(st, i - 1, h);
      StepFacts(st, i - 1, h);
      WalkStep(st, i - 1, h, d);
      if !(o.landed && o.next.running) {
        TickFromKeeps(o.next, i - 1, h, d);
      }
    }
  }

  /**
   * A frame never changes the score, the correct count or the question
   * list, never gives a life back, never restarts a stopped game, and
   * advances the question by at most one.
   */
  lemma TickKeeps(st: Session, h: real, d: Draw)
    requires CanAdvance(st, d)
    ensures var r := Tick(st, h, d);
      && r.score == st.score && r.correctCount == st.correctCount
      && r.questions == st.questions && r.active == st.active
      && r.lives <= st.lives && (r.running ==> st.running)
      && (r.index == st.index || r.index == st.index + 1)
    ensures !st.running ==> Tick(st, h, d) == st
  {
    if st.running {
      TickFromKeeps(st, |st.invaders|, h, d);
    }
  }

  /** Fall applied to each invader, keeping the order. */
  function Falls(invs: seq<Invader>, h: real): seq<Invader>
  {
    if invs == [] then [] else Fall(invs[0], h) + Falls(invs[1..], h)
  }

  lemma {:induction false} FallsSnoc(invs: seq<Invader>, x: Invader, h: real)
    ensures Falls(invs + [x], h) == Falls(invs, h) + Fall(x, h)
  {
    if invs != [] {
      assert (invs + [x])[1..] == invs[1..] + [x];
      FallsSnoc(invs[1..], x, h);
    } else {
      assert [x][1..] == [];
    }
  }

  /** The Falls of a prefix grows by one Fall per invader. */
  lemma FallsPrefix(invs: seq<Invader>, k: nat, h: real)
    requires k < |invs|
    ensures Falls(invs[..k + 1], h) == Falls(invs[..k], h) + Fall(invs[k], h)
  {
    assert invs[..k + 1] == invs[..k] + [invs[k]];
    FallsSnoc(invs[..k], invs[k], h);
  }

  /** A step that is not a landing leaves the walk going on the calm next state. */
  lemma CalmStep(st: Session, i: nat, h: real, d: Draw)
    requires 0 < i <= |st.invaders| && CanAdvance(st, d) && !Lands(st.invaders[i - 1], h)
    ensures CanAdvance(CalmNext(st, i - 1, h), d)
    ensures TickFrom(st, i, h, d) == TickFrom(CalmNext(st, i - 1, h), i - 1, h, d)
  {
    StepCalm(st, i - 1, h);
  }

  /** The calm next state walks on from position i - 1 towards the same end state. */
  lemma CalmShift(st: Session, i: nat, h: real)
    requires 0 < i <= |st.invaders|
    requires forall k :: 0 <= k < i ==> !Lands(st.invaders[k], h)
    ensures var next := CalmNext(st, i - 1, h);
      && i - 1 <= |next.invaders|
      && (forall k :: 0 <= k < i - 1 ==> !Lands(next.invaders[k], h))
      && next.(invaders := Falls(next.invaders[..i - 1], h) + next.invaders[i - 1..])
         == st.(invaders := Falls(st.invaders[..i], h) + st.invaders[i..])
  {
    var k := i - 1;
    var rest := Fall(st.invaders[k], h) + st.invaders[i..];
    var next := CalmNext(st, k, h);
    assert next.invaders == st.invaders[..k] + rest;
    assert next.invaders[..k] == st.invaders[..k] && next.invaders[k..] == rest;
    FallsShift(st.invaders, i, h);
  }

  /** Moving the boundary of the walk one invader down. */
  lemma FallsShift(invs: seq<Invader>, i: nat, h: real)
    requires 0 < i <= |invs|
    ensures Falls(invs[..i], h) + invs[i..] == Falls(invs[..i - 1], h) + (Fall(invs[i - 1], h) + invs[i..])
  {
    var a := Falls(invs[..i - 1], h);
    var b := Fall(invs[i - 1], h);
    FallsPrefix(invs, i - 1, h);
    assert a + b + invs[i..] == a + (b + invs[i..]);
  }

  lemma {:induction false} TickFromCalm(st: Session, i: nat, h: real, d: Draw)
    requires i <= |st.invaders| && CanAdvance(st, d)
    requires forall k :: 0 <= k < i ==> !Lands(st.invaders[k], h)
    ensures TickFrom(st, i, h, d) == st.(invaders := Falls(st.invaders[..i], h) + st.invaders[i..])
    decreases i
  {
    if i == 0 {
      assert Falls(st.invaders[..0], h) + st.invaders[0..] == st.invaders by {
        assert st.invaders[..0] == [] && st.invaders[0..] == st.invaders;
      }
    } else {
      CalmStep(st, i, h, d);
      CalmShift(st, i, h);
      TickFromCalm(CalmNext(st, i - 1, h), i - 1, h, d);
    }
  }

  /**
   * When no correct invader lands, a frame moves every active invader down
   * by its speed, skips the inactive ones, drops the wrong ones that passed
   * the bottom, keeps the order, and changes nothing else.
   */
  lemma TickCalm(st: Session, h: real, d: Draw)
    requires CanAdvance(st, d) && st.running
    requires forall k :: 0 <= k < |st.invaders| ==> !Lands(st.invaders[k], h)
    ensures Tick(st, h, d) == st.(invaders := Falls(st.invaders, h))
  {
    TickFromCalm(st, |st.invaders|, h, d);
    assert st.invaders[..|st.invaders|] == st.invaders;
    assert st.invaders[|st.invaders|..] == [];
  }

  lemma {:induction false} TickFromRanked(st: Session, i: nat, h: real, d: Draw)
    requires i <= |st.invaders| && CanAdvance(st, d)
    requires !st.running && st.rank == EarnedRank(st)
    ensures !TickFrom(st, i, h, d).running && TickFrom(st, i, h, d).rank == EarnedRank(st)
    decreases i
  {
    if i > 0 {
      StepFacts(st, i - 1, h);
      WalkStep(st, i - 1, h, d);
      TickFromRanked(StepAt(st, i - 1, h).next, i - 1, h, d);
    }
  }

  lemma {:induction false} TickFromLanding(st: Session, i: nat, h: real, d: Draw)
    requires i <= |st.invaders| && CanAdvance(st, d) && st.running
    requires exists k :: 0 <= k < i && Lands(st.invaders[k], h)
    ensures var r := TickFrom(st, i, h, d);
      && r.lives < st.lives && r.score == st.score
      && (r.running ==> r.index == st.index + 1 && r.index < |st.active|
                        && r.invaders == Spawn(st.active[r.index], d))
      && (!r.running ==> r.rank == EarnedRank(st))
    decreases i
  {
    var k := i - 1;
    var o := StepAt(st, k, h);
    StepFacts(st, k, h);
    WalkStep(st, k, h, d);
    if o.landed {
      if !o.next.running {
        TickFromKeeps(o.next, k, h, d);
        TickFromRanked(o.next, k, h, d);
      }
    } else {
      var j :| 0 <= j < i && Lands(st.invaders[j], h);
      assert j < k;
      assert o.next.invaders[j] == st.invaders[j];
      TickFromLanding(o.next, k, h, d);
    }
  }

  /**
   * When the correct invader reaches the bottom unhit, the frame records a
   * mistake (one life lost) without scoring; if the game goes on, the next
   * question is on screen; otherwise the game is over, with the rank the
   * counts earn.
   */
  lemma TickLanding(st: Session, h: real, d: Draw)
    requires CanAdvance(st, d) && st.running
    requires exists k :: 0 <= k < |st.invaders| && Lands(st.invaders[k], h)
    ensures var r := Tick(st, h, d);
      && r.lives < st.lives && r.score == st.score
      && (r.running ==> r.index == st.index + 1 && r.index < |st.active|
                        && r.invaders == Spawn(st.active[r.index], d))
      && (!r.running ==> r.rank == EarnedRank(st))
  {
    TickFromLanding(st, |st.invaders|, h, d);
  }

  /** No invader carries the correct answer. */
  predicate NoCorrect(invs: seq<Invader>) {
    forall k :: 0 <= k < |invs| ==> !invs[k].isCorrect
  }

  lemma {:induction false} FallsNoCorrect(invs: seq<Invader>, h: real)
    requires NoCorrect(invs)
    ensures NoCorrect(Falls(invs, h))
  {
    if invs != [] {
      FallsNoCorrect(invs[1..], h);
    }
  }

  /**
   * A question whose correct answer is not among its answers (a blank
   * second field, say) can never be passed: no spawned invader is correct,
   * and from then on neither a frame nor a hit moves to the next question
   * or scores.
   */
  lemma NoCorrectStalls(st: Session, h: real, d: Draw, i: nat)
    requires CanAdvance(st, d) && NoCorrect(st.invaders)
    ensures var r := Tick(st, h, d);
      r.index == st.index && r.score == st.score && NoCorrect(r.invaders)
    ensures i < |st.invaders| ==>
      var r := Hit(st, i);
      r.index == st.index && r.score == st.score && NoCorrect(r.invaders)
  {
    if st.running {
      TickCalm(st, h, d);
      FallsNoCorrect(st.invaders, h);
    }
  }

  lemma SpawnWithoutCorrect(q: Question, d: Draw)
    requires Fits(d, q) && q.correct !in q.answers
    ensures NoCorrect(Spawn(q, d))
  {
    SpawnShape(q, d);
    assert q.correct !in multiset(d.order);
  }
}
