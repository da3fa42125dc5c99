/** The per-player game of `questionTimeWorkflow` (backend/src/workflows.ts)
    as values: the `GameState` record, the effect of each handler on it and
    of each wake-up of the timer loop, and what runs of them lead to. The
    class in session.dfy performs these same steps in place.

    The `getClue` activity is a lookup in a clue table `clues`; the workflow
    runs with `Clues.Table()`, and everything here holds for any table with a
    clue under each key from 1 to 10. */
module GameModel {
  import opened Wrappers
  import Clues
  import Grading
  import Ranking

  const GameDurationMs: int := 120000
  const TickIntervalMs: int := 1000

  const PausedMessage: string := "Game is paused"
  const CompletedMessage: string := "Game is completed"
  const TreasureMessage: string := "Congratulations! You found the treasure."
  const CorrectMessage: string := "Correct!"
  const IncorrectMessage: string := "Incorrect answer, try again."

  type ClueTable = map<int, Clues.Clue>

  /** The `GameState` record. `lastAnswerCorrect` is `null` until a first answer is graded. */
  datatype GameState = GameState(
    currentClue: int,
    paused: bool,
    completed: bool,
    player: string,
    lastQuestion: string,
    currentHint: string,
    timeRemaining: int,
    totalClues: int,
    lastAnswerCorrect: Option<bool>)

  /** The `{ success, message }` reply of the `submitAnswer` update. */
  datatype Response = Response(success: bool, message: string)

  /** An error thrown out of `submitAnswer` by one of its activities. */
  datatype SessionError = ClueFailed(clueError: Clues.ClueError) | GradingFailed(graderError: Grading.GraderError)

  /** The grading activity `validateAnswerAI(num, question, answer)`, as an oracle. */
  type Grader = (int, string, string) -> Result<bool, Grading.GraderError>

  /** What one `submitAnswer` does: the new state, the reply or the error, and
      the leaderboard notifications it sent (none or one). */
  datatype Step = Step(state: GameState, result: Result<Response, SessionError>, notified: seq<Ranking.Entry>)

  /** The clue a state shows: the current one, or the last one once every clue is found. */
  function Shown(s: GameState): int
  {
    if s.currentClue <= s.totalClues then s.currentClue else s.currentClue - 1
  }

  /** What every reachable state satisfies, whatever the clue texts. */
  predicate Valid(s: GameState)
  {
    && 1 <= s.totalClues <= Clues.LastClue
    && 1 <= s.currentClue <= s.totalClues + 1
    && (s.currentClue > s.totalClues ==> s.completed)
    && 0 <= s.timeRemaining <= GameDurationMs
    && s.timeRemaining % TickIntervalMs == 0
  }

  /** The question and hint on display are those of the clue shown. */
  predicate Shows(clues: ClueTable, s: GameState)
  {
    && Shown(s) in clues
    && s.lastQuestion == clues[Shown(s)].question
    && s.currentHint == clues[Shown(s)].hint
  }

  /** A valid state over a complete table, showing its clue. */
  ghost predicate Consistent(clues: ClueTable, s: GameState)
  {
    Clues.Complete(clues) && Valid(s) && Shows(clues, s)
  }

  /** The state the workflow starts with, after fetching clue 1. */
  function Start(clues: ClueTable, player: string, totalClues: int): (s: GameState)
    requires 1 in clues
    ensures s.currentClue == 1 && !s.paused && !s.completed && s.lastAnswerCorrect == None
    ensures s.player == player && s.totalClues == totalClues && s.timeRemaining == GameDurationMs
    ensures s.lastQuestion == clues[1].question && s.currentHint == clues[1].hint
    ensures Clues.Complete(clues) && 1 <= totalClues <= Clues.LastClue ==> Consistent(clues, s)
  {
    var initialClue := Clues.Lookup(clues, 1);
    GameState(1, false, false, player, initialClue.value.question, initialClue.value.hint,
              GameDurationMs, totalClues, None)
  }

  /** The pause signal: sets `paused`, whatever the state, and nothing else. */
  function Pause(s: GameState): (t: GameState)
    ensures t.paused && t.(paused := s.paused) == s
    ensures Valid(s) ==> Valid(t)
  {
    s.(paused := true)
  }

  /** The resume signal: clears `paused`, whatever the state, and nothing else. */
  function Resume(s: GameState): (t: GameState)
    ensures !t.paused && t.(paused := s.paused) == s
    ensures Valid(s) ==> Valid(t)
  {
    s.(paused := false)
  }

  /** Whether a submission in state `s` reaches `validateAnswerAI`. */
  predicate Graded(clues: ClueTable, s: GameState)
  {
    !s.paused && !s.completed && s.currentClue in clues
  }

  /** What `validateAnswerAI` says about an answer to the current clue. */
  function Judgement(clues: ClueTable, s: GameState, answer: string, grader: Grader): Result<bool, Grading.GraderError>
    requires s.currentClue in clues
  {
    grader(s.currentClue, clues[s.currentClue].question, answer)
  }

  /** The `submitAnswer` update handler. */
  function Submit(clues: ClueTable, s: GameState, answer: string, grader: Grader): (r: Step)
    // fields no branch touches
    ensures r.state.player == s.player && r.state.totalClues == s.totalClues
    ensures r.state.paused == s.paused && r.state.timeRemaining == s.timeRemaining
    // paused is checked first, then completed; neither changes anything
    ensures s.paused ==> r == Step(s, Success(Response(false, PausedMessage)), [])
    ensures !s.paused && s.completed ==> r == Step(s, Success(Response(false, CompletedMessage)), [])
    // at most one notification, carrying the clue number the answer was for
    ensures r.notified == [] || r.notified == [Ranking.Entry(s.player, s.currentClue)]
  {
    if s.paused then Step(s, Success(Response(false, PausedMessage)), [])
    else if s.completed then Step(s, Success(Response(false, CompletedMessage)), [])
    else match Clues.Lookup(clues, s.currentClue)
      case Failure(e) => Step(s, Failure(ClueFailed(e)), [])
      case Success(clueData) =>
        var asked := s.(lastQuestion := clueData.question);
        match grader(s.currentClue, clueData.question, answer)
        case Failure(g) => Step(asked, Failure(GradingFailed(g)), [])
        case Success(isCorrect) =>
          var graded := asked.(lastAnswerCorrect := Some(isCorrect));
          if !isCorrect then Step(graded, Success(Response(false, IncorrectMessage)), [])
          else Advance(clues, graded)
  }

  /** A submission that reaches `validateAnswerAI`: a failure there propagates and
      leaves the progress as it was; an incorrect answer is recorded and
      changes no progress; a correct answer notifies the old clue number, then
      moves on by one clue. */
  lemma SubmitGraded(clues: ClueTable, s: GameState, answer: string, grader: Grader)
    requires Graded(clues, s)
    ensures var r := Submit(clues, s, answer, grader);
      Judgement(clues, s, answer, grader).Failure? ==>
      && r.result == Failure(GradingFailed(Judgement(clues, s, answer, grader).error))
      && r.state.currentClue == s.currentClue && r.state.completed == s.completed
      && r.state.lastAnswerCorrect == s.lastAnswerCorrect && r.state.currentHint == s.currentHint
      && r.notified == []
    ensures var r := Submit(clues, s, answer, grader);
      Judgement(clues, s, answer, grader) == Success(false) ==>
      && r.result == Success(Response(false, IncorrectMessage))
      && r.state.lastAnswerCorrect == Some(false)
      && r.state.currentClue == s.currentClue && r.state.completed == s.completed
      && r.state.currentHint == s.currentHint
      && r.notified == []
    ensures var r := Submit(clues, s, answer, grader);
      Judgement(clues, s, answer, grader) == Success(true) ==>
      && r.notified == [Ranking.Entry(s.player, s.currentClue)]
      && r.state.currentClue == s.currentClue + 1
      && r.state.lastAnswerCorrect == Some(true)
      && (s.currentClue + 1 > s.totalClues ==>
            r.state.completed && r.result == Success(Response(true, TreasureMessage)))
      && (s.currentClue + 1 <= s.totalClues && s.currentClue + 1 in clues ==>
            && !r.state.completed && r.result == Success(Response(true, CorrectMessage))
            && r.state.lastQuestion == clues[s.currentClue + 1].question
            && r.state.currentHint == clues[s.currentClue + 1].hint)
  {
  }

  /** The rest of `submitAnswer` after a correct answer: notify the leaderboard
      of the clue just solved, move on one clue, then congratulate after the
      last clue or fetch the next one. */
  function Advance(clues: ClueTable, g: GameState): (r: Step)
    ensures r.notified == [Ranking.Entry(g.player, g.currentClue)]
    ensures r.state.currentClue == g.currentClue + 1
    ensures r.state.player == g.player && r.state.totalClues == g.totalClues
    ensures r.state.paused == g.paused && r.state.timeRemaining == g.timeRemaining
    ensures r.state.lastAnswerCorrect == g.lastAnswerCorrect
    ensures g.currentClue + 1 > g.totalClues ==>
      r.state.completed && r.result == Success(Response(true, TreasureMessage))
    ensures g.currentClue + 1 <= g.totalClues && g.currentClue + 1 in clues ==>
      && r.state.completed == g.completed && r.result == Success(Response(true, CorrectMessage))
      && r.state.lastQuestion == clues[g.currentClue + 1].question
      && r.state.currentHint == clues[g.currentClue + 1].hint
    ensures Consistent(clues, g) && !g.completed ==> Consistent(clues, r.state) && r.result.Success?
  {
    var notified := [Ranking.Entry(g.player, g.currentClue)];
    var advanced := g.(currentClue := g.currentClue + 1);
    if advanced.currentClue > advanced.totalClues then
      Step(advanced.(completed := true), Success(Response(true, TreasureMessage)), notified)
    else match Clues.Lookup(clues, advanced.currentClue)
      case Failure(e) => Step(advanced, Failure(ClueFailed(e)), notified)
      case Success(nextClue) =>
        Step(advanced.(lastQuestion := nextClue.question, currentHint := nextClue.hint),
             Success(Response(true, CorrectMessage)), notified)
  }

  /** From a consistent state the clue lookups never fail and consistency is kept. */
  lemma SubmitKeepsValid(clues: ClueTable, s: GameState, answer: string, grader: Grader)
    requires Consistent(clues, s)
    ensures Consistent(clues, Submit(clues, s, answer, grader).state)
    ensures !(Submit(clues, s, answer, grader).result.Failure? && Submit(clues, s, answer, grader).result.error.ClueFailed?)
  {
    if !s.paused && !s.completed {
      assert s.currentClue in clues;
    }
  }

  /** A running game replies with success exactly when `validateAnswerAI` accepts. */
  lemma SubmitSucceedsIffCorrect(clues: ClueTable, s: GameState, answer: string, grader: Grader)
    requires Consistent(clues, s) && !s.paused && !s.completed
    ensures var r := Submit(clues, s, answer, grader).result;
      r.Success? && r.value.success <==> Judgement(clues, s, answer, grader) == Success(true)
  {
    assert s.currentClue in clues;
  }

  /** A workflow run: its state and whether the timer loop is still waiting
      for its next tick (the loop has not yet exited). */
  datatype Run = Run(state: GameState, timerLive: bool)

  /** While the loop runs, time is left; once it has exited, the game is over
      and the clock reads 0. */
  predicate ValidRun(r: Run)
  {
    && Valid(r.state)
    && (r.timerLive ==> r.state.timeRemaining > 0)
    && (!r.timerLive ==> r.state.completed && r.state.timeRemaining == 0)
  }

  /** A run as it starts: the loop guard holds, so the loop waits for its first tick. */
  function Begin(clues: ClueTable, player: string, totalClues: int): (r: Run)
    requires 1 in clues
    ensures r.timerLive && r.state == Start(clues, player, totalClues)
    ensures 1 <= totalClues <= Clues.LastClue ==> ValidRun(r)
  {
    Run(Start(clues, player, totalClues), true)
  }

  /** The handlers lifted to runs; they never touch the timer loop. */
  function SubmitIn(clues: ClueTable, r: Run, answer: string, grader: Grader): (t: Run)
    ensures t.timerLive == r.timerLive && t.state == Submit(clues, r.state, answer, grader).state
    ensures ValidRun(r) && Consistent(clues, r.state) ==> ValidRun(t) && Consistent(clues, t.state)
  {
    assert Consistent(clues, r.state) ==> Consistent(clues, Submit(clues, r.state, answer, grader).state) by {
      if Consistent(clues, r.state) { SubmitKeepsValid(clues, r.state, answer, grader); }
    }
    Run(Submit(clues, r.state, answer, grader).state, r.timerLive)
  }

  /** One wake-up of the timer loop: the loop body (one second off the clock
      unless paused), then the loop guard; when the guard fails, the end of
      the workflow forces `completed` and a zero clock. */
  function Tick(r: Run): (t: Run)
    ensures !r.timerLive ==> t == r
    ensures t.state.(completed := r.state.completed, timeRemaining := r.state.timeRemaining) == r.state
    ensures r.timerLive && r.state.paused && !r.state.completed && r.state.timeRemaining > 0 ==> t == r
    ensures ValidRun(r) && r.timerLive && !r.state.paused ==> t.state.timeRemaining < r.state.timeRemaining
    ensures ValidRun(r) && r.timerLive ==>
      (t.timerLive <==> !r.state.completed && (r.state.paused || r.state.timeRemaining > TickIntervalMs))
    ensures r.timerLive && !t.timerLive ==> t.state.completed && t.state.timeRemaining == 0
    ensures ValidRun(r) ==> ValidRun(t)
  {
    if !r.timerLive then r
    else
      var s := if r.state.paused then r.state
               else r.state.(timeRemaining := r.state.timeRemaining - TickIntervalMs);
      if !s.completed && s.timeRemaining > 0 then Run(s, true)
      else Run(s.(completed := true, timeRemaining := 0), false)
  }

  /** A tick changes neither the clue shown nor its texts. */
  lemma TickShows(clues: ClueTable, r: Run)
    requires Shows(clues, r.state)
    ensures Shows(clues, Tick(r).state)
  {
  }

  /** `n` wake-ups of the timer loop with no command in between. */
  function Ticks(r: Run, n: nat): (t: Run)
    ensures !r.timerLive ==> t == r
    ensures t.state.(completed := r.state.completed, timeRemaining := r.state.timeRemaining) == r.state
    ensures ValidRun(r) ==> ValidRun(t)
    decreases n
  {
    if n == 0 then r else Ticks(Tick(r), n - 1)
  }

  /** Unpaused, the clock runs down one second per tick and the loop exits
      exactly at the tick that reaches zero, ending the game: a fresh game
      ends after 120 ticks. */
  lemma {:induction false} ClockRunsOut(r: Run, n: nat)
    requires ValidRun(r) && r.timerLive && !r.state.paused && !r.state.completed
    requires n <= r.state.timeRemaining / TickIntervalMs
    ensures Ticks(r, n).state.timeRemaining == r.state.timeRemaining - n * TickIntervalMs
    ensures Ticks(r, n).timerLive <==> n < r.state.timeRemaining / TickIntervalMs
    ensures Ticks(r, n).state.completed <==> n == r.state.timeRemaining / TickIntervalMs
    ensures Ticks(r, n).state.(completed := false, timeRemaining := r.state.timeRemaining) == r.state
    decreases n
  {
    if n > 0 {
      var t := Tick(r);
      assert t.state.timeRemaining == r.state.timeRemaining - TickIntervalMs;
      if t.timerLive {
        ClockRunsOut(t, n - 1);
      } else {
        assert n == 1;
        assert Ticks(t, 0) == t;
      }
    }
  }

  /** Paused, the clock stands still however many ticks pass: the game never
      times out while paused. */
  lemma {:induction false} PausedClockStands(r: Run, n: nat)
    requires r.timerLive && r.state.paused && !r.state.completed && r.state.timeRemaining > 0
    ensures Ticks(r, n) == r
    decreases n
  {
    if n > 0 {
      PausedClockStands(Tick(r), n - 1);
    }
  }

  /** A run of `submitAnswer` updates with no other command in between: the
      state it ends in, ... */
  function FinalState(clues: ClueTable, s: GameState, answers: seq<string>, grader: Grader): (t: GameState)
    ensures t.player == s.player && t.totalClues == s.totalClues
    ensures t.paused == s.paused && t.timeRemaining == s.timeRemaining
    decreases |answers|
  {
    if answers == [] then s
    else FinalState(clues, Submit(clues, s, answers[0], grader).state, answers[1..], grader)
  }

  /** ... every reply in order, ... */
  function Replies(clues: ClueTable, s: GameState, answers: seq<string>, grader: Grader): (r: seq<Result<Response, SessionError>>)
    ensures |r| == |answers|
    decreases |answers|
  {
    if answers == [] then []
    else
      var step := Submit(clues, s, answers[0], grader);
      [step.result] + Replies(clues, step.state, answers[1..], grader)
  }

  /** ... and every leaderboard notification in order. */
  function Notifications(clues: ClueTable, s: GameState, answers: seq<string>, grader: Grader): (r: seq<Ranking.Entry>)
    ensures |r| <= |answers|
    ensures forall i :: 0 <= i < |r| ==> r[i].player == s.player
    decreases |answers|
  {
    if answers == [] then []
    else
      var step := Submit(clues, s, answers[0], grader);
      step.notified + Notifications(clues, step.state, answers[1..], grader)
  }

  /** One step of `Notifications`, stated for the first submission of a run. */
  lemma NotificationsCons(clues: ClueTable, s: GameState, answers: seq<string>, grader: Grader)
    requires answers != []
    ensures var step := Submit(clues, s, answers[0], grader);
      Notifications(clues, s, answers, grader) == step.notified + Notifications(clues, step.state, answers[1..], grader)
  {
  }

  /** The scores `lo`, `lo + 1`, ..., `hi - 1` for one player, in order. */
  function Scores(player: string, lo: int, hi: int): (r: seq<Ranking.Entry>)
    requires lo <= hi
    ensures |r| == hi - lo
    decreases hi - lo
  {
    if lo == hi then [] else [Ranking.Entry(player, lo)] + Scores(player, lo + 1, hi)
  }

  /** Position `i` holds the score `lo + i`. */
  lemma {:induction false} ScoresAt(player: string, lo: int, hi: int)
    requires lo <= hi
    ensures forall i :: 0 <= i < hi - lo ==> Scores(player, lo, hi)[i] == Ranking.Entry(player, lo + i)
    decreases hi - lo
  {
    if lo < hi {
      ScoresAt(player, lo + 1, hi);
      var r := Scores(player, lo, hi);
      assert r == [Ranking.Entry(player, lo)] + Scores(player, lo + 1, hi);
      forall i | 0 < i < hi - lo ensures r[i] == Ranking.Entry(player, lo + i) {
        assert r[i] == Scores(player, lo + 1, hi)[i - 1];
      }
    }
  }

  /** Appending the score `hi`: what a correct answer does to the session log. */
  lemma ScoresSnoc(player: string, lo: int, hi: int)
    requires lo <= hi
    ensures Scores(player, lo, hi) + [Ranking.Entry(player, hi)] == Scores(player, lo, hi + 1)
  {
    ScoresAt(player, lo, hi);
    ScoresAt(player, lo, hi + 1);
    var a, b := Scores(player, lo, hi) + [Ranking.Entry(player, hi)], Scores(player, lo, hi + 1);
    assert forall i :: 0 <= i < |a| ==> a[i] == b[i];
  }

  /** Prepending the score `lo` to the scores from `lo + 1`. Proved apart
      from `CorrectAnswersNotify`, whose context makes the sequence equality
      expensive there. */
  lemma ScoresCons(player: string, lo: int, hi: int, first: seq<Ranking.Entry>, rest: seq<Ranking.Entry>)
    requires lo < hi
    requires first == [Ranking.Entry(player, lo)] && rest == Scores(player, lo + 1, hi)
    ensures first + rest == Scores(player, lo, hi)
  {
  }

  /** `validateAnswerAI` accepts each answer at the clue it is given for when
      the answers are submitted in turn from clue `first`: the `i`-th at clue
      `first + i`. What it says of any other answer is left open. */
  predicate AcceptsInTurn(clues: ClueTable, first: int, answers: seq<string>, grader: Grader)
  {
    forall i :: 0 <= i < |answers| && first + i in clues ==>
      grader(first + i, clues[first + i].question, answers[i]) == Success(true)
  }

  /** The first answer is accepted at `first`, and the rest in turn from `first + 1`. */
  lemma AcceptsInTurnRest(clues: ClueTable, first: int, answers: seq<string>, grader: Grader)
    requires AcceptsInTurn(clues, first, answers, grader) && answers != []
    ensures first in clues ==> grader(first, clues[first].question, answers[0]) == Success(true)
    ensures AcceptsInTurn(clues, first + 1, answers[1..], grader)
  {
    forall i | 0 <= i < |answers| - 1 && first + 1 + i in clues
      ensures grader(first + 1 + i, clues[first + 1 + i].question, answers[1..][i]) == Success(true)
    {
      assert answers[1..][i] == answers[i + 1];
    }
  }

  /** One correct answer from a running game: the old clue number is
      notified and the game moves to the next clue, congratulating after the last. */
  lemma CorrectStep(clues: ClueTable, s: GameState, answer: string, grader: Grader)
    requires Consistent(clues, s) && !s.paused && !s.completed
    requires s.currentClue in clues && Judgement(clues, s, answer, grader) == Success(true)
    ensures var step := Submit(clues, s, answer, grader);
      && step.notified == [Ranking.Entry(s.player, s.currentClue)]
      && step.state.currentClue == s.currentClue + 1
      && Consistent(clues, step.state) && !step.state.paused
      && step.state.player == s.player && step.state.totalClues == s.totalClues
      && (step.state.completed <==> s.currentClue == s.totalClues)
      && step.result == Success(Response(true, if s.currentClue == s.totalClues then TreasureMessage else CorrectMessage))
  {
    SubmitGraded(clues, s, answer, grader);
    SubmitKeepsValid(clues, s, answer, grader);
  }

  /** The first turn of a run of accepted answers: `CorrectStep` applies to
      it, and the rest of the run starts from a running game at the next clue. */
  lemma CorrectTurn(clues: ClueTable, s: GameState, answers: seq<string>, grader: Grader)
    requires Consistent(clues, s) && !s.paused && !s.completed
    requires AcceptsInTurn(clues, s.currentClue, answers, grader)
    requires |answers| == s.totalClues - s.currentClue + 1
    ensures var step := Submit(clues, s, answers[0], grader);
      && step.notified == [Ranking.Entry(s.player, s.currentClue)]
      && step.state.currentClue == s.currentClue + 1
      && step.state.player == s.player && step.state.totalClues == s.totalClues
      && (step.state.completed <==> |answers| == 1)
      && step.result == Success(Response(true, if |answers| == 1 then TreasureMessage else CorrectMessage))
      && (|answers| > 1 ==>
            && Consistent(clues, step.state) && !step.state.paused && !step.state.completed
            && AcceptsInTurn(clues, step.state.currentClue, answers[1..], grader)
            && |answers[1..]| == step.state.totalClues - step.state.currentClue + 1)
  {
    AcceptsInTurnRest(clues, s.currentClue, answers, grader);
    assert s.currentClue in clues;
    CorrectStep(clues, s, answers[0], grader);
  }

  /** From a running game at clue `c`, one correct answer per remaining clue
      finds the treasure, and the clues are served in order `c`, `c + 1`, ...:
      each notified score is the clue just solved. */
  lemma CorrectAnswersFindTreasure(clues: ClueTable, s: GameState, answers: seq<string>, grader: Grader)
    requires Consistent(clues, s) && !s.paused && !s.completed
    requires AcceptsInTurn(clues, s.currentClue, answers, grader)
    requires |answers| == s.totalClues - s.currentClue + 1
    ensures FinalState(clues, s, answers, grader).completed
    ensures FinalState(clues, s, answers, grader).currentClue == s.totalClues + 1
    ensures Notifications(clues, s, answers, grader) == Scores(s.player, s.currentClue, s.totalClues + 1)
  {
    CorrectAnswersFinish(clues, s, answers, grader);
    CorrectAnswersNotify(clues, s, answers, grader);
  }

  lemma {:induction false} CorrectAnswersFinish(clues: ClueTable, s: GameState, answers: seq<string>, grader: Grader)
    requires Consistent(clues, s) && !s.paused && !s.completed
    requires AcceptsInTurn(clues, s.currentClue, answers, grader)
    requires |answers| == s.totalClues - s.currentClue + 1
    ensures FinalState(clues, s, answers, grader).completed
    ensures FinalState(clues, s, answers, grader).currentClue == s.totalClues + 1
    decreases |answers|
  {
    CorrectTurn(clues, s, answers, grader);
    var step := Submit(clues, s, answers[0], grader);
    if |answers| > 1 {
      CorrectAnswersFinish(clues, step.state, answers[1..], grader);
    }
  }

  lemma {:induction false} CorrectAnswersNotify(clues: ClueTable, s: GameState, answers: seq<string>, grader: Grader)
    requires Consistent(clues, s) && !s.paused && !s.completed
    requires AcceptsInTurn(clues, s.currentClue, answers, grader)
    requires |answers| == s.totalClues - s.currentClue + 1
    ensures Notifications(clues, s, answers, grader) == Scores(s.player, s.currentClue, s.totalClues + 1)
    decreases |answers|
  {
    CorrectTurn(clues, s, answers, grader);
    var step := Submit(clues, s, answers[0], grader);
    var rest := Notifications(clues, step.state, answers[1..], grader);
    var later := Scores(s.player, s.currentClue + 1, s.totalClues + 1);
    if |answers| > 1 {
      CorrectAnswersNotify(clues, step.state, answers[1..], grader);
    } else {
      assert |rest| <= |answers[1..]| == 0 && |later| == 0;
    }
    assert rest == later;
    NotificationsCons(clues, s, answers, grader);
    ScoresCons(s.player, s.currentClue, s.totalClues + 1, step.notified, rest);
  }

  /** Along the same run, every reply but the last is "Correct!" and the last
      congratulates. */
  lemma {:induction false} CorrectAnswersReplies(clues: ClueTable, s: GameState, answers: seq<string>, grader: Grader)
    requires Consistent(clues, s) && !s.paused && !s.completed
    requires AcceptsInTurn(clues, s.currentClue, answers, grader)
    requires |answers| == s.totalClues - s.currentClue + 1
    ensures forall i :: 0 <= i < |answers| - 1 ==>
      Replies(clues, s, answers, grader)[i] == Success(Response(true, CorrectMessage))
    ensures Replies(clues, s, answers, grader)[|answers| - 1] == Success(Response(true, TreasureMessage))
    decreases |answers|
  {
    CorrectTurn(clues, s, answers, grader);
    var step := Submit(clues, s, answers[0], grader);
    var rest := Replies(clues, step.state, answers[1..], grader);
    var results := Replies(clues, s, answers, grader);
    assert results == [step.result] + rest;
    if |answers| > 1 {
      CorrectAnswersReplies(clues, step.state, answers[1..], grader);
      assert step.result == Success(Response(true, CorrectMessage));
      forall i | 0 <= i < |answers| - 1
        ensures results[i] == Success(Response(true, CorrectMessage))
      {
        if i > 0 {
          assert results[i] == rest[i - 1];
        }
      }
      assert results[|answers| - 1] == rest[|answers| - 2];
    } else {
      assert step.result == Success(Response(true, TreasureMessage));
    }
  }

  /** Submissions while paused change nothing and all report "Game is paused". */
  lemma {:induction false} PausedPlayChangesNothing(clues: ClueTable, s: GameState, answers: seq<string>, grader: Grader)
    requires s.paused
    ensures FinalState(clues, s, answers, grader) == s
    ensures Notifications(clues, s, answers, grader) == []
    ensures forall i :: 0 <= i < |answers| ==>
      Replies(clues, s, answers, grader)[i] == Success(Response(false, PausedMessage))
    decreases |answers|
  {
    if answers != [] {
      PausedPlayChangesNothing(clues, s, answers[1..], grader);
      var results := Replies(clues, s, answers, grader);
      forall i | 0 < i < |answers|
        ensures results[i] == Success(Response(false, PausedMessage))
      {
        assert results[i] == Replies(clues, s, answers[1..], grader)[i - 1];
      }
    }
  }

  /** The leaderboard after a whole treasure hunt: replaying the notifications
      of a game that found the treasure onto any leaderboard leaves the player
      with a score equal to the number of clues, everyone else untouched. */
  lemma TreasureHuntScore(clues: ClueTable, board: seq<Ranking.Entry>, player: string, totalClues: int,
                          answers: seq<string>, grader: Grader)
    requires Clues.Complete(clues)
    requires Ranking.UniquePlayers(board)
    requires 1 <= totalClues <= Clues.LastClue
    requires AcceptsInTurn(clues, 1, answers, grader) && |answers| == totalClues
    ensures forall e :: e in Ranking.Replay(board, Notifications(clues, Start(clues, player, totalClues), answers, grader)) <==>
      e == Ranking.Entry(player, totalClues) || (e in board && e.player != player)
    ensures Ranking.UniquePlayers(Ranking.Replay(board, Notifications(clues, Start(clues, player, totalClues), answers, grader)))
    ensures Ranking.SortedDesc(Ranking.Replay(board, Notifications(clues, Start(clues, player, totalClues), answers, grader)))
  {
    var ns := Notifications(clues, Start(clues, player, totalClues), answers, grader);
    HuntNotifications(clues, player, totalClues, answers, grader);
    Ranking.ReplayOnePlayer(board, player, ns);
  }

  /** The notifications of a whole treasure hunt: one per clue, all for the
      player, the last one with the number of clues. */
  lemma HuntNotifications(clues: ClueTable, player: string, totalClues: int, answers: seq<string>, grader: Grader)
    requires Clues.Complete(clues)
    requires 1 <= totalClues <= Clues.LastClue
    requires AcceptsInTurn(clues, 1, answers, grader) && |answers| == totalClues
    ensures var ns := Notifications(clues, Start(clues, player, totalClues), answers, grader);
      && ns != [] && ns[|ns| - 1] == Ranking.Entry(player, totalClues)
      && forall i :: 0 <= i < |ns| ==> ns[i].player == player
  {
    var s := Start(clues, player, totalClues);
    CorrectAnswersNotify(clues, s, answers, grader);
    ScoresAt(player, 1, totalClues + 1);
  }
}
