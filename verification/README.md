# question-time in Dafny

A model of the core of *question-time*, a treasure-hunt quiz run on Temporal
workflows, with proofs of what its code promises.

- **The clue table and `getClue`** (module `Clues`, clues.dfy). There are ten
  clues under the keys 1 to 10. A lookup returns a clue's hint and question and
  fails with "Invalid clue number." on any other key.
- **The answer check of `validateAnswerAI`** (module `Grading`, grading.dfy).
  It covers the three ways the activity throws and the verdict rule: the
  lower-cased reply must be exactly "yes". The outcome of the chat request is an
  input.
- **The per-player game `questionTimeWorkflow`**, in two forms:
  - as values (module `GameModel`, game.dfy): the `GameState` record, the effect
    of pause, resume, `submitAnswer` and one wake-up of the timer loop, and what
    whole runs of them lead to;
  - as an object (module `GameSession`, session.dfy): a `Session` class whose
    fields the handlers update in place. Each method is proved to have the
    effect that `GameModel` gives it.

  The answer check `validateAnswerAI` is an oracle passed to `submitAnswer`. The leaderboard
  notifications a session sends are kept in a ghost log. The session keeps one
  invariant: the log holds exactly the scores 1, 2, ..., `currentClue - 1`.
- **The leaderboard `LeaderBoardWorkflow`**, also in two forms:
  - as values (module `Ranking`, ranking.dfy): upsert by exact player name,
    then a stable sort by descending score, and the replay of a series of
    update signals;
  - as an object (module `LeaderBoard`, leaderboard.dfy): a `Leaderboard` class
    over an array that grows on push. Its update finds the player, overwrites
    or pushes, then sorts in place by insertion sort. It is proved equal to the
    value model.
- **The `GameStatus` display helpers** (module `GameStatus`, status.dfy):
  `formatTime` as JavaScript computes it, and the "Completed" label.

Where the design description and the code differ, the model follows the code:

- Clues are served in order 1, 2, 3, ..., not chosen at random.
- The score sent to the leaderboard is the number of the clue just solved.
- Pause and resume are accepted after the game has completed.
- An update sorts the current list stably. Equal scores therefore keep their
  order in the current list, which is not in general the order in which
  players joined.
- The credential is checked on every grading call.

The game model takes the clue table as a parameter. The running workflow uses
`Clues.Table()`. Every property of the game holds for any table with a clue
under each key from 1 to 10, a condition `Clues.Table` is proved to meet.

## Model

| member | source | states |
|---|---|---|
| Clues.Table | backend/src/activities.ts:11-62 | the keys are exactly 1 to 10, and every clue has a non-empty hint, question and answer |
| Clues.ErrorMessage | backend/src/activities.ts:67 | the message of the lookup error is "Invalid clue number." (a definition, no contract) |
| Clues.Lookup | backend/src/activities.ts:64-72 | fails with `InvalidClueNumber` exactly when the key is missing; otherwise returns that clue's hint and question |
| Clues.GetClue | backend/src/activities.ts:64-73 | fails exactly when the number is outside 1..10; otherwise returns the table's hint and question for it |
| Clues.LookupIgnoresAnswers | backend/src/activities.ts:72 | two tables that differ only in their answers give the same lookup result, so the answer never leaves `getClue` |
| Grading.Verdict | backend/src/activities.ts:107-109 | correct exactly when a reply is present and lower-cases to "yes"; a missing reply, or a same-length lower-casing of a reply not three characters long, is incorrect |
| Grading.ValidateAnswer | backend/src/activities.ts:75-113 | a missing or empty key fails with `ApiKeyNotSet` before anything else; an unknown clue number fails next; a failed request fails, and with the key set and a known clue it fails with `ValidationFailed` ("Failed to validate answer."); it succeeds exactly when the key is set, the clue exists and a reply came back, and then it returns the verdict on that reply |
| Grading.ErrorMessage | backend/src/activities.ts:76-113 | the messages of the three errors: "OpenAI API key is not set.", the TypeError of reading `answer` of an undefined clue, and "Failed to validate answer." (a definition, no contract) |
| Grading.AsciiLower | backend/src/activities.ts:107 | keeps the length and lower-cases each character; an ASCII stand-in for `toLowerCase` used by the examples |
| Grading.VerdictExamples | backend/src/activities.ts:107-109 | "Yes" and "YES" are accepted; "Yes.", "No" and a missing reply are refused |
| Ranking.FindIndex | backend/src/workflows.ts:127 | the index of the first entry for the player, or the length when there is none; no earlier entry has that player |
| Ranking.FindIndexIsFirst | backend/src/workflows.ts:127 | any index that passes the `find` test from the left is the one `FindIndex` gives |
| Ranking.Upsert | backend/src/workflows.ts:127-132 | the new entry is present; the length grows by one only for a new player; other players' entries keep their places; a new player is appended; unique players stay unique, and then the entries are the new one plus the others' old ones |
| Ranking.InsertDesc | backend/src/workflows.ts:133 | one step of the sort; its contract states only that the result is one longer than its input. Where the entry goes (right behind the last entry scoring at least as much) is stated by `LeaderBoard.InsertDescSplit` and `Ranking.InsertDescWithScore` |
| Ranking.SortDesc | backend/src/workflows.ts:133 | the sorted list is a permutation of its input |
| Ranking.SortDescSorted | backend/src/workflows.ts:133 | the result is in descending order of score |
| Ranking.SortDescUnique | backend/src/workflows.ts:133 | sorting keeps players unique |
| Ranking.SortDescStable | backend/src/workflows.ts:133 | for every score, the entries with that score keep their relative order (the sort is stable) |
| Ranking.SortDescOfSorted | backend/src/workflows.ts:133 | a list already in descending order is left unchanged |
| Ranking.InsertDescPermutes | backend/src/workflows.ts:133 | one insertion step adds exactly the inserted entry to the multiset |
| Ranking.InsertDescSorted | backend/src/workflows.ts:133 | inserting into a descending list keeps it descending |
| Ranking.InsertDescWithScore | backend/src/workflows.ts:133 | the inserted entry goes after every entry with the same score |
| Ranking.Update | backend/src/workflows.ts:125-133 | after an update the list is descending and holds the given entry; the length grows only for a new player; unique players stay unique; then the entries are exactly the new one and every other player's unchanged one |
| Ranking.UpdateIsStableSort | backend/src/workflows.ts:133 | the update is a permutation of the upserted list that keeps, score by score, the upserted order |
| Ranking.UpdateIdempotent | backend/src/workflows.ts:125-133 | repeating the same update gives the same list |
| Ranking.UpdateLastWriteWins | backend/src/workflows.ts:128-129 | two updates for one player hold the same entries as the second one alone: the later score wins, not the larger |
| Ranking.Replay | backend/src/workflows.ts:125-133 | the board after a series of `updateLeaderboard` signals handled in order: unique players stay unique, and after at least one signal the board is descending |
| Ranking.ReplayOnePlayer | backend/src/workflows.ts:125-133 | after any series of updates for one player, the board is unique and descending, and holds that player's last entry plus every other player's old entry |
| Ranking.TiesFollowCurrentOrder | backend/src/workflows.ts:133 | a player who drops to a tie goes ahead of a player who joined earlier, because the tie order is that of the current list |
| Ranking.UpdateJoinsEmpty | backend/src/workflows.ts:131 | the first update of an empty board gives that one entry |
| Ranking.UpdateNewcomerLeads | backend/src/workflows.ts:131-133 | a newcomer with a higher score is sorted ahead of the existing entry |
| Ranking.UpdateDropsToTie | backend/src/workflows.ts:129-133 | lowering a leader's score to a tie keeps the leader's place |
| LeaderBoard.Leaderboard.constructor | backend/src/workflows.ts:123 | starts with the empty list |
| LeaderBoard.Leaderboard.Update | backend/src/workflows.ts:125-133 | the in-place handler leaves exactly `Ranking.Update` of the old list and keeps the board unique and descending |
| LeaderBoard.Leaderboard.Put | backend/src/workflows.ts:127-132 | the find, overwrite-or-push loop leaves exactly `Ranking.Upsert` of the old list |
| LeaderBoard.Leaderboard.Push | backend/src/workflows.ts:131 | appends one entry, growing the array when full |
| LeaderBoard.Leaderboard.GetLeaderboard | backend/src/workflows.ts:137-139 | returns the list as stored, which is descending with unique players |
| LeaderBoard.SortByScoreDesc | backend/src/workflows.ts:133 | sorts the array prefix in place into exactly `Ranking.SortDesc` of its old contents and leaves the rest alone |
| LeaderBoard.InsertAt | backend/src/workflows.ts:133 | one pass of insertion sort: the prefix becomes the old sorted prefix with the next entry inserted |
| LeaderBoard.InsertDescSplit | backend/src/workflows.ts:133 | inserting lands the entry right after the last entry whose score is at least its own |
| GameModel.Start | backend/src/workflows.ts:33-50 | the first state: clue 1 shown, not paused or completed, the full 120000 ms, no verdict yet; consistent with any complete table |
| GameModel.Pause | backend/src/workflows.ts:52-55 | sets `paused` and changes no other field, whatever the state, even after completion |
| GameModel.Resume | backend/src/workflows.ts:57-60 | clears `paused` and changes no other field |
| GameModel.Submit | backend/src/workflows.ts:62-94 | player, clue count, pause flag and clock are never touched; while paused the reply is "Game is paused" and nothing changes, even when completed; otherwise, once completed, it is "Game is completed" and nothing changes; it sends at most one notification, for the player with the clue number the answer was for |
| GameModel.SubmitGraded | backend/src/workflows.ts:71-93 | a grading failure propagates and leaves clue, completion, verdict and hint unchanged; a wrong answer records false and replies "Incorrect answer, try again."; a right answer notifies `(player, old clue)`, advances by one, and either completes with the treasure message or shows the next clue with "Correct!" |
| GameModel.Judgement | backend/src/workflows.ts:74 | what `validateAnswerAI` says about an answer to the current clue, asked with that clue's question (a definition, no contract) |
| GameModel.Advance | backend/src/workflows.ts:77-90 | the correct-answer branch: one notification with the pre-increment clue, the clue up by one, then treasure or the next clue's question and hint; from a consistent state it never fails |
| GameModel.SubmitKeepsValid | backend/src/workflows.ts:71-90 | every submission keeps the state consistent with the table, and `getClue` never fails while `totalClues <= 10` |
| GameModel.SubmitSucceedsIffCorrect | backend/src/workflows.ts:62-94 | in a live game a submission reports success exactly when `validateAnswerAI` said correct |
| GameModel.Begin | backend/src/workflows.ts:33-50 | the session starts with the timer loop live and the first state; it is a valid run when `totalClues` is in 1..10 |
| GameModel.SubmitIn | backend/src/workflows.ts:62-94 | a submission leaves the timer loop alone and keeps a valid, consistent run valid and consistent |
| GameModel.Tick | backend/src/workflows.ts:99-110 | a wake-up after the loop ended does nothing; a paused live game is unchanged; an unpaused one loses time; the loop stays live exactly when not completed and either paused or with more than one tick left; when it ends the game is completed with 0 ms; the clock stays a non-negative multiple of 1000 |
| GameModel.TickShows | backend/src/workflows.ts:99-110 | a tick never changes the question and hint on show |
| GameModel.ClockRunsOut | backend/src/workflows.ts:34-35 | unpaused, n ticks take exactly n * 1000 ms; the loop is live until the clock reaches 0, at which point the game is completed; nothing else changes |
| GameModel.PausedClockStands | backend/src/workflows.ts:100-105 | while paused, any number of ticks changes nothing |
| GameModel.Ticks | backend/src/workflows.ts:100-106 | n wake-ups of the loop: none after the loop ended, the run stays valid, and only `completed` and the clock can change |
| GameModel.Replies | backend/src/workflows.ts:62-94 | one reply per submitted answer |
| GameModel.FinalState | backend/src/workflows.ts:62-94 | the state after a series of submissions: player, clue count, pause flag and clock are never changed by them |
| GameModel.Notifications | backend/src/workflows.ts:79 | the leaderboard notifications of a series of submissions, in order: at most one per answer, each for the session's player |
| GameModel.Scores | backend/src/workflows.ts:79 | the notifications of clues lo to hi-1 number hi - lo |
| GameModel.ScoresAt | backend/src/workflows.ts:79 | its i-th notification is `(player, lo + i)` |
| GameModel.CorrectStep | backend/src/workflows.ts:77-90 | an answer `validateAnswerAI` accepts at the current clue, in a live consistent game, notifies the old clue, advances by one, stays consistent and completes exactly on the last clue, with the matching message |
| GameModel.CorrectAnswersFindTreasure | backend/src/workflows.ts:77-84 | answers that `validateAnswerAI` accepts in turn, one per remaining clue (the i-th at the i-th clue from the current one, whatever it says of other answers), complete the game past the last clue and notifies the scores of every clue in order |
| GameModel.CorrectAnswersFinish | backend/src/workflows.ts:80-84 | the same run ends completed at `totalClues + 1` |
| GameModel.CorrectAnswersNotify | backend/src/workflows.ts:79 | the same run sends exactly the scores current clue, ..., `totalClues` |
| GameModel.CorrectAnswersReplies | backend/src/workflows.ts:84-89 | the same run replies "Correct!" to every answer but the last and the treasure message to the last |
| GameModel.PausedPlayChangesNothing | backend/src/workflows.ts:63-65 | any number of submissions while paused changes nothing, notifies nobody and each gets "Game is paused" |
| GameModel.HuntNotifications | backend/src/workflows.ts:79 | a new game given one answer per clue, each accepted at its clue, notifies only its player and ends with the score `totalClues` |
| GameModel.TreasureHuntScore | backend/src/workflows.ts:125-133 | after a new game given one answer per clue, each accepted at its clue, replaying its notifications onto a board with unique players leaves the board unique and descending, holding the player once with score `totalClues` and every other player's old entry |
| GameSession.Session.constructor | backend/src/workflows.ts:33-50 | the session starts as `GameModel.Begin` with the real clue table and an empty notification log, and satisfies the invariant |
| GameSession.Session.Pause | backend/src/workflows.ts:52-55 | updates the fields as `GameModel.Pause`; keeps the invariant |
| GameSession.Session.Resume | backend/src/workflows.ts:57-60 | updates the fields as `GameModel.Resume`; keeps the invariant |
| GameSession.Session.SubmitAnswer | backend/src/workflows.ts:62-94 | updates the fields, replies and appends to the log exactly as `GameModel.Submit`; keeps the invariant |
| GameSession.Session.AdvanceToNextClue | backend/src/workflows.ts:77-90 | the correct-answer branch in place, exactly as `GameModel.Advance`; keeps the invariant |
| GameSession.Session.Tick | backend/src/workflows.ts:99-110 | one wake-up of the timer loop, exactly as `GameModel.Tick`; keeps the invariant |
| GameSession.Session.RunOutClock | backend/src/workflows.ts:100-110 | the whole timer loop of an unpaused game: ends completed with 0 ms and nothing else changed |
| GameSession.Session.GetGameState | backend/src/workflows.ts:96 | returns the record as held, which shows the current clue's question and hint |
| GameStatus.NatToString | frontend/src/components/GameStatus.tsx:24 | decimal digits, one for a number under 10 and two under 100 |
| GameStatus.ParseNatToString | frontend/src/components/GameStatus.tsx:24 | the digits read back as the number |
| GameStatus.IntToString | frontend/src/components/GameStatus.tsx:24 | starts with '-' or a digit, and is the decimal form for a non-negative number |
| GameStatus.JsRem | frontend/src/components/GameStatus.tsx:23 | JavaScript `%`: for a non-negative dividend it is Dafny's remainder; for a negative one it lies in (-60, 0] |
| GameStatus.JsRemOdd | frontend/src/components/GameStatus.tsx:23 | negating the dividend negates the remainder (truncation, not flooring) |
| GameStatus.SecondsField | frontend/src/components/GameStatus.tsx:24 | the seconds field: "0" before the number exactly when it is below 10 (a definition; `GameStatus.SecondsFieldDigits` states its properties) |
| GameStatus.FormatTime | frontend/src/components/GameStatus.tsx:21-25 | `formatTime`: floored minutes, ":", and the field of the JavaScript remainder (a definition; the next four rows state its properties) |
| GameStatus.FormatTimeLayout | frontend/src/components/GameStatus.tsx:24 | for seconds >= 0 the text is the minutes' digits, ':' and the seconds field, the ':' third from the end |
| GameStatus.SecondsFieldDigits | frontend/src/components/GameStatus.tsx:24 | a seconds field below 60 is two digits that read back as the seconds, with a leading '0' exactly below 10 |
| GameStatus.FormatTimeFields | frontend/src/components/GameStatus.tsx:21-25 | for seconds >= 0 the text is minutes, ':' and two digits; the minutes read as seconds / 60 and the seconds as seconds % 60 < 60, so minutes * 60 + seconds gives the input back; zero padding exactly when seconds < 10 |
| GameStatus.FormatTimeRoundTrip | frontend/src/components/GameStatus.tsx:21-25 | reading a formatted time back as `m:ss` gives the input: minutes never roll over into hours |
| GameStatus.FormatTimeExamples | frontend/src/components/GameStatus.tsx:21-25 | 120 gives "2:00", 65 gives "1:05", 0 gives "0:00", and -5 gives "-1:0-5" |
| GameStatus.ClueLabel | frontend/src/components/GameStatus.tsx:32 | "Completed" exactly when the current clue is past the last; otherwise digits that read back as the clue number |
| GameStatus.ClueLabelOfGame | frontend/src/components/GameStatus.tsx:32 | for a valid game state "Completed" is shown only when the game is completed, and otherwise the clue number is shown |

## Left out

- The Temporal runtime is not modelled: `wf.sleep`, dispatch of signals, updates and queries, `wf.condition`, and handlers running concurrently with the timer loop. Handlers and ticks run one at a time, as methods.
- Activity timeouts and retries are not modelled. The activities are called with Temporal's default retry policy, which has no limit on attempts, and the plain `Error`s thrown at backend/src/activities.ts:67, 78 and 112 are retryable. So while the game runs, a failing `getClue` or `validateAnswerAI` keeps being retried until the workflow ends, and its error never reaches the caller of `submitAnswer`. The model's `Failure` outcomes follow the error propagation the design describes, not behaviour the running program can show.
- GameModel.SubmitIn, GameSession.Session.Pause, GameSession.Session.Resume and GameSession.Session.SubmitAnswer: accept commands after the timer loop has ended (`timerLive` false). Once the loop exits, `questionTimeWorkflow` returns (backend/src/workflows.ts:109-112), and the runtime rejects any later signal or update to the closed workflow. In the model such a command still takes effect: `Pause`, for instance, sets `paused`, and a query would show it.
- GameModel.Advance: assumes the `updateLeaderboard` activity (backend/src/workflows.ts:79) succeeds. If it threw, `submitAnswer` would fail after recording `lastAnswerCorrect` as true and before advancing the clue. That path is not modelled: on a correct answer the model always records the notification and advances.
- GameSession.Session.AdvanceToNextClue: makes the same assumption about `updateLeaderboard`, as the in-place form of `GameModel.Advance`.
- The chat-completion request, its prompt and the JSON shape of its reply are not modelled. Its outcome (a reply text, no text, or a thrown error) is an input to `Grading.ValidateAnswer`. Within the game, `validateAnswerAI` is an oracle.
- `toLowerCase` is a parameter of `Grading.Verdict`, because Unicode case folding is not modelled. `Grading.AsciiLower` is the ASCII instance used by the examples.
- The `setTimeout` delay in `getClue` is not modelled.
- `updateLeaderboard` and `getLeaderboard` go over the network. A game's notifications are a ghost log. `GameModel.TreasureHuntScore` connects that log to the leaderboard by replaying it.
- Console logging is not modelled.
- backend/src/api.ts is not part of this model. It passes `totalQuestions` where the workflow reads `totalClues`, so it is not reproduced. `GameSession.Session.constructor` instead takes `totalClues` with `1 <= totalClues <= 10`. `GameModel` itself accepts any `totalClues`, and with a missing clue `submitAnswer` fails with the lookup error.
- The React components, the polling and the ms-to-seconds conversion in the front end are not part of this model.
- GameStatus.FormatTimeFields: states the `m:ss` layout only for seconds >= 0. The clock never goes negative, so a negative count appears only in `GameStatus.FormatTimeExamples`.
- Array capacity growth in `LeaderBoard.Leaderboard.Push` stands in for JavaScript's growable array. How an engine allocates memory is not modelled.
