/**
 * The Game class of Quiz Invaders (script.js:12-329): the fields the game
 * logic reads and writes, and the methods that update them. Each method
 * is proved to perform the matching transition of the Invaders module.
 */
module InvadersGame {
  import opened Wrappers
  import opened Text
  import opened InvadersCsv
  import opened Invaders

  class Game {
    var questions: seq<Question>
    var activeQuestions: seq<Question>
    var currentQuestionIndex: nat
    var score: nat
    var lives: int
    var invaders: seq<Invader>
    var isRunning: bool
    var questionLimit: nat
    var correctCount: nat
    /** The rank letter shown on the game-over screen, once there is one. */
    var rank: Option<Rank>

    /** The game's fields as a session value. */
    function State(): Session
      reads this
    {
      Session(questions, questionLimit, activeQuestions, currentQuestionIndex, score, lives,
              correctCount, invaders, isRunning, rank)
    }

    predicate Valid()
      reads this
    {
      Inv(State())
    }

    /** script.js:13-24. */
    constructor()
      ensures State() == Initial() && Valid()
    {
      questions := [];
      activeQuestions := [];
      currentQuestionIndex := 0;
      score := 0;
      lives := MAX_LIVES;
      invaders := [];
      isRunning := false;
      questionLimit := 5;
      correctCount := 0;
      rank := None;
    }

    /** A question-count button (script.js:54-59); 0 means every question. */
    method SelectLimit(limit: nat)
      requires Valid()
      modifies this
      ensures State() == old(State()).(limit := limit) && Valid()
    {
      questionLimit := limit;
    }

    /** parseCSV (script.js:94-121). */
    method ParseCSV(data: string)
      requires Valid()
      modifies this
      ensures State() == Load(old(State()), data) && Valid()
    {
      var lines := NonBlankLines(Split(data, '\n'));
      var rows := ParseRows(lines);
      if |rows| < 2 {
        return;
      }
      questions := QuestionsFromRows(rows[1..]);
    }

    /**
     * startRequested (script.js:123-130): data is the uploaded or fetched
     * text, None when neither could be read (the game then stays as it is).
     */
    method StartRequested(data: Option<string>, shuffled: seq<Question>, d: Draw)
      requires Valid()
      requires data.Some? ==> multiset(shuffled) == multiset(Load(State(), data.value).questions)
      requires data.Some? ==> CanBoot(Load(State(), data.value), shuffled, d)
      modifies this
      ensures data.None? ==> State() == old(State())
      ensures data.Some? ==> State() == Invaders.Boot(Load(old(State()), data.value), shuffled, d)
      ensures Valid()
    {
      if data.None? {
        return;
      }
      ParseCSV(data.value);
      Boot(shuffled, d);
    }

    /** resetToStart (script.js:132-140). */
    method ResetToStart()
      requires Valid()
      modifies this
      ensures State() == Invaders.ResetToStart(old(State())) && Valid()
    {
      isRunning := false;
    }

    /** boot (script.js:142-162), shuffled being the shuffle of the question list. */
    method Boot(shuffled: seq<Question>, d: Draw)
      requires multiset(shuffled) == multiset(questions)
      requires CanBoot(State(), shuffled, d)
      modifies this
      ensures State() == Invaders.Boot(old(State()), shuffled, d) && Valid()
    {
      ghost var start := State();
      score := 0;
      lives := MAX_LIVES;
      currentQuestionIndex := 0;
      correctCount := 0;
      invaders := [];
      isRunning := true;
      var limit := if questionLimit == 0 then |shuffled| else questionLimit;
      activeQuestions := shuffled[..Min(limit, |shuffled|)];
      NextQuestion(d);
      BootInv(start, shuffled, d);
    }

    /** nextQuestion (script.js:187-206): spawn one invader per answer, in the drawn order. */
    method NextQuestion(d: Draw)
      requires CanSpawn(State(), d)
      modifies this
      ensures State() == Invaders.NextQuestion(old(State()), d)
    {
      if !isRunning {
        return;
      }
      if currentQuestionIndex >= |activeQuestions| {
        GameOver(true);
        return;
      }
      var q := activeQuestions[currentQuestionIndex];
      invaders := [];
      var order := d.order;
      var k := 0;
      while k < |order|
        invariant 0 <= k <= |order|
        invariant invaders == Spawn(q, d)[..k]
        invariant State() == old(State()).(invaders := invaders)
      {
        SpawnInvader(order[k], order[k] == q.correct, d.lift[k], d.jitter[k]);
        k := k + 1;
      }
    }

    /**
     * spawnInvader (script.js:208-239): lift and jitter are the two
     * Math.random() draws behind the start height and the speed.
     */
    method SpawnInvader(text: string, isCorrect: bool, lift: real, jitter: real)
      modifies this
      ensures State() == old(State()).(invaders := old(invaders) + [NewInvader(text, isCorrect, lift, jitter)])
    {
      var y := SPAWN_TOP - lift * SPAWN_SPREAD;
      var invader := Invader(text, isCorrect, y, INVADER_SPEED + jitter * SPEED_JITTER, true);
      invaders := invaders + [invader];
    }

    /** handleHit (script.js:241-267) on the invader at position i. */
    method HandleHit(i: nat)
      requires Valid() && i < |invaders|
      modifies this
      ensures State() == Invaders.Hit(old(State()), i) && Valid()
    {
      ghost var start := State();
      if !isRunning || !invaders[i].active {
        return;
      }
      var invader := invaders[i].(active := false);
      invaders := invaders[i := invader];
      if invader.isCorrect {
        score := score + REWARD;
        correctCount := correctCount + 1;
        invaders := [];
        currentQuestionIndex := currentQuestionIndex + 1;
      } else {
        Mistake();
      }
      HitInv(start, i);
    }

    /** The callback handleHit schedules after a correct hit (script.js:261). */
    method Continue(d: Draw)
      requires Valid() && CanSpawn(State(), d)
      modifies this
      ensures State() == Invaders.Continue(old(State()), d) && Valid()
    {
      ghost var start := State();
      if isRunning {
        NextQuestion(d);
      }
      ContinueInv(start, d);
    }

    /** mistake (script.js:269-278). */
    method Mistake()
      modifies this
      ensures State() == Invaders.Mistake(old(State()))
    {
      lives := lives - 1;
      if lives <= 0 {
        GameOver(false);
      }
    }

    /** gameOver (script.js:280-295); whether the run was completed does not change the outcome. */
    method GameOver(completed: bool)
      modifies this
      ensures State() == Invaders.GameOver(old(State()))
    {
      isRunning := false;
      var accuracy := if |activeQuestions| > 0 then correctCount as real / |activeQuestions| as real else 0.0;
      var letter := D;
      if accuracy >= 0.95 {
        letter := S;
      } else if accuracy >= 0.8 {
        letter := A;
      } else if accuracy >= 0.6 {
        letter := B;
      } else if accuracy >= 0.4 {
        letter := C;
      }
      RankAgreesWithCounts(correctCount, |activeQuestions|);
      assert accuracy == Accuracy(correctCount, |activeQuestions|);
      rank := Some(letter);
    }

    /** One frame of gameLoop (script.js:297-328) for a world worldHeight high. */
    method Tick(worldHeight: real, d: Draw)
      requires Valid() && CanAdvance(State(), d)
      modifies this
      ensures State() == Invaders.Tick(old(State()), worldHeight, d) && Valid()
    {
      TickInv(State(), worldHeight, d);
      if !isRunning {
        return;
      }
      Sweep(worldHeight, d);
    }

    /** The loop of gameLoop over the invaders, from the last to the first (script.js:302-325). */
    method Sweep(worldHeight: real, d: Draw)
      requires CanAdvance(State(), d)
      modifies this
      ensures State() == TickFrom(old(State()), |old(invaders)|, worldHeight, d)
    {
      ghost var goal := TickFrom(State(), |invaders|, worldHeight, d);
      var i: nat := |invaders|;
      while i > 0
        invariant i <= |invaders| && CanAdvance(State(), d)
        invariant TickFrom(State(), i, worldHeight, d) == goal
        decreases i
      {
        i := i - 1;
        WalkStep(State(), i, worldHeight, d);
        var stop := StepInvader(i, worldHeight, d);
        if stop {
          assert State() == goal;
          break;
        }
      }
    }

    /**
     * The body of the frame loop for the invader at position i
     * (script.js:303-324); stop tells the loop to break.
     */
    method StepInvader(i: nat, worldHeight: real, d: Draw) returns (stop: bool)
      requires i < |invaders| && CanAdvance(State(), d)
      modifies this
      ensures var o := StepAt(old(State()), i, worldHeight);
        if o.landed && o.next.running
        then stop && State() == Invaders.NextQuestion(o.next.(index := o.next.index + 1), d)
        else !stop && State() == o.next
    {
      ghost var pre := State();
      ghost var o := StepAt(pre, i, worldHeight);
      stop := false;
      var inv := invaders[i];
      if !inv.active {
        return;
      }
      inv := inv.(y := inv.y + inv.speed);
      invaders := invaders[i := inv];
      if inv.y > worldHeight {
        if inv.isCorrect {
          invaders := invaders[i := inv.(active := false)];
          assert State() == pre.(invaders := pre.invaders[i := inv.(active := false)]);
          Mistake();
          if isRunning {
            currentQuestionIndex := currentQuestionIndex + 1;
            NextQuestion(d);
            stop := true;
          }
        } else {
          invaders := invaders[..i] + invaders[i + 1..];
          assert invaders == pre.invaders[..i] + pre.invaders[i + 1..];
        }
      }
    }
  }
}
