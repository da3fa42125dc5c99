/** One running `questionTimeWorkflow` (backend/src/workflows.ts): the
    `state` record whose fields the handlers update in place, the timer loop,
    and a ghost record of the leaderboard notifications sent. Handlers and
    ticks run one at a time; each method performs one of them and is proved
    to have the effect the value model in game.dfy gives it. */
module GameSession {
  import opened Wrappers
  import Clues
  import Ranking
  import opened GameModel

  class Session {
    /** The table the `getClue` activity reads. */
    const clues: ClueTable
    var currentClue: int
    var paused: bool
    var completed: bool
    var player: string
    var lastQuestion: string
    var currentHint: string
    var timeRemaining: int
    var totalClues: int
    var lastAnswerCorrect: Option<bool>
    /** The timer loop has not exited yet: it is asleep until its next tick. */
    var timerLive: bool
    /** Every `updateLeaderboard` call made so far, in order. */
    ghost var notified: seq<Ranking.Entry>

    /** The `state` record as the `getGameState` query returns it. */
    function State(): GameState
      reads this
    {
      GameState(currentClue, paused, completed, player, lastQuestion, currentHint,
                timeRemaining, totalClues, lastAnswerCorrect)
    }

    function AsRun(): Run
      reads this
    {
      Run(State(), timerLive)
    }

    /** The run is valid, the state shows its clue, and the notifications
        sent are exactly the scores 1, 2, ..., `currentClue - 1`, one per clue solved. */
    ghost predicate Valid()
      reads this
    {
      && ValidRun(AsRun()) && Consistent(clues, State())
      && notified == Scores(player, 1, currentClue)
    }

    /** The start of the workflow: fetch clue 1, build the state, enter the loop. */
    constructor (player: string, totalClues: int)
      requires 1 <= totalClues <= Clues.LastClue
      ensures Valid()
      ensures clues == Clues.Table()
      ensures AsRun() == Begin(clues, player, totalClues) && notified == []
    {
      this.clues := Clues.Table();
      var initialClue := Clues.GetClue(1);
      this.currentClue := 1;
      this.paused := false;
      this.completed := false;
      this.player := player;
      this.lastQuestion := initialClue.value.question;
      this.currentHint := initialClue.value.hint;
      this.timeRemaining := GameDurationMs;
      this.totalClues := totalClues;
      this.lastAnswerCorrect := None;
      this.timerLive := true;
      this.notified := [];
    }

    /** The pause signal. */
    method Pause()
      requires Valid()
      modifies this
      ensures Valid()
      ensures State() == GameModel.Pause(old(State()))
      ensures timerLive == old(timerLive) && notified == old(notified)
    {
      paused := true;
    }

    /** The resume signal. */
    method Resume()
      requires Valid()
      modifies this
      ensures Valid()
      ensures State() == GameModel.Resume(old(State()))
      ensures timerLive == old(timerLive) && notified == old(notified)
    {
      paused := false;
    }

    /** The `submitAnswer` update, with `grader` standing for `validateAnswerAI`. */
    method SubmitAnswer(answer: string, grader: Grader) returns (result: Result<Response, SessionError>)
      requires Valid()
      modifies this
      ensures Valid()
      ensures State() == Submit(clues, old(State()), answer, grader).state
      ensures result == Submit(clues, old(State()), answer, grader).result
      ensures notified == old(notified) + Submit(clues, old(State()), answer, grader).notified
      ensures timerLive == old(timerLive)
    {
      SubmitKeepsValid(clues, State(), answer, grader);
      if paused {
        return Success(Response(false, PausedMessage));
      }
      if completed {
        return Success(Response(false, CompletedMessage));
      }
      var clueData := Clues.Lookup(clues, currentClue);
      if clueData.Failure? {
        return Failure(ClueFailed(Clues.InvalidClueNumber));
      }
      lastQuestion := clueData.value.question;
      var isCorrect := grader(currentClue, clueData.value.question, answer);
      if isCorrect.Failure? {
        return Failure(GradingFailed(isCorrect.error));
      }
      lastAnswerCorrect := Some(isCorrect.value);
      if !isCorrect.value {
        return Success(Response(false, IncorrectMessage));
      }
      result := AdvanceToNextClue();
    }

    /** The correct-answer branch of `submitAnswer`. */
    method AdvanceToNextClue() returns (result: Result<Response, SessionError>)
      requires Valid() && !paused && !completed
      modifies this
      ensures Valid()
      ensures State() == GameModel.Advance(clues, old(State())).state
      ensures result == GameModel.Advance(clues, old(State())).result
      ensures notified == old(notified) + GameModel.Advance(clues, old(State())).notified
      ensures timerLive == old(timerLive)
    {
      ScoresSnoc(player, 1, currentClue);
      notified := notified + [Ranking.Entry(player, currentClue)];
      currentClue := currentClue + 1;
      if currentClue > totalClues {
        completed := true;
        return Success(Response(true, TreasureMessage));
      }
      var nextClue := Clues.Lookup(clues, currentClue);
      if nextClue.Failure? {
        return Failure(ClueFailed(Clues.InvalidClueNumber));
      }
      lastQuestion := nextClue.value.question;
      currentHint := nextClue.value.hint;
      return Success(Response(true, CorrectMessage));
    }

    /** One wake-up of the timer loop. */
    method Tick()
      requires Valid()
      modifies this
      ensures Valid()
      ensures AsRun() == GameModel.Tick(old(AsRun()))
      ensures notified == old(notified)
    {
      if !timerLive {
        return;
      }
      if !paused {
        timeRemaining := timeRemaining - TickIntervalMs;
      }
      if completed || timeRemaining <= 0 {
        completed := true;
        timeRemaining := 0;
        timerLive := false;
      }
    }

    /** The timer loop run to its end with no command in between: it exits,
        the game is completed with a zero clock and nothing else has changed. */
    method RunOutClock()
      requires Valid() && !paused
      modifies this
      ensures Valid() && !timerLive
      ensures State() == old(State()).(completed := true, timeRemaining := 0)
      ensures notified == old(notified)
    {
      while timerLive
        invariant Valid() && !paused
        invariant State() == old(State()).(completed := completed, timeRemaining := timeRemaining)
        invariant notified == old(notified)
        invariant old(completed) ==> completed
        decreases timeRemaining
      {
        Tick();
      }
    }

    /** The `getGameState` query. */
    method GetGameState() returns (s: GameState)
      requires Valid()
      ensures s == State()
      ensures Consistent(clues, s)
    {
      s := GameState(currentClue, paused, completed, player, lastQuestion, currentHint,
                     timeRemaining, totalClues, lastAnswerCorrect);
    }
  }
}
