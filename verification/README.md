# TriviaChain in Dafny

A model of the `TriviaChain` contract (an Arbitrum Stylus contract written in Rust).
It runs timed multiplayer trivia sessions:
- a host creates a session behind a room code and a player cap;
- players join while the session is Created;
- the host starts the session and releases questions;
- players submit answers, scored by speed, difficulty and streak;
- the host ends the session, which returns the winner tracked during play.

The project has four modules:

- `TriviaTypes` (Types.dfy): the storage records `GameSession`, `Player` and `Answer`, the
  `TriviaError` variants and a `Result` type. Addresses are `nat`, with 0 as the zero address.
  Room codes, display names and answer hashes are opaque `nat`s, compared only for equality.
  Storage mappings read as all-zero records for keys never written (`PlayerOf`, `AnswerOf`,
  `SessionIn`), as contract storage does. An unknown session id therefore reads as an
  all-zero session: there is no "session not found".
- `Scoring` (Scoring.dfy): the point computation that `submit_answer` does inline, as pure
  functions, with its bounds and monotonicity lemmas.
- `SessionRules` (Rules.dfy): what each operation does to one session record, as a pure
  function returning either an error or the new record. The module also holds the session
  invariant and lemmas about single operations and about any sequence of operations
  (`Run`).
- `Chain` (Chain.dfy): the class `TriviaChain` with the contract's storage
  (`sessions: map<nat, GameSession>`, `nextSessionId`, `owner`) and its public methods.
  Each method takes the caller as a parameter, and `StartSession`, `StartQuestion` and
  `SubmitAnswer` also take the block time. Each method checks in the contract's order and
  writes the session record back. Its postcondition says the new store is the old
  one with that record replaced as `SessionRules` prescribes. On an error nothing changes.
  Each method except `Initialize` also keeps the store invariant `Valid()`; `Initialize`
  keeps it only under the condition described below.

The session invariant (`SessionRules.Invariant`) has two parts:
- `player_count == |player_list| <= max_players`, no address listed twice, and the listed
  addresses are exactly the active players, and a player who is not active has score 0;
- nobody's score exceeds `winning_score`, and while that score is positive the recorded
  winner holds exactly that score.

Each per-session operation (join, start, question start, submit and end, collected in
`SessionRules.Run`) preserves the invariant, and so does any sequence of them. Further lemmas
show that, over any sequence of these five operations:
- the status only moves Created → Active → Completed;
- a Completed session is frozen;
- `winning_score` and every joined player's score never decrease;
- join order is kept;
- an answer recorded at a nonzero time is never overwritten.

`create_session` is not among those five: it writes its fields over whatever record the
counter points at. `initialize` is not guarded against sessions created before it. When two
or more sessions were created first, it puts the counter back to 1, so the next
`create_session` rewrites the existing session 1. That rewrite sets the status back to
Created, sets the host to the new caller and resets `player_count` to 0. It keeps the old
`player_list`, players, scores, winner and answers. A Completed session 1 is therefore
reopened as Created under the new host. `SessionRules.CreateSession` states these writes.
`Chain.LateInitializeBreaksRoster` shows the sequence that does this.
`SessionRules.CreateSessionOverJoinedSlot` shows the rewrite breaking the roster. `Initialize`
preserves `Valid()` whenever at most one session (id 0) was created before it, because the
counter then already points at an unused id.

Where the code differs from what a reader might expect, the model follows the code:
- a difficulty other than 0 or 1 gets multiplier 200, not 100;
- the correct-answer hash and the difficulty come from the submitter;
- the time limit is the session-wide question duration;
- a wrong answer still earns the scaled time bonus;
- a zero duration is not rejected. It causes no division, because the bonus is only computed
  when the response time is below the limit;
- `end_session` does no aggregation.

## Model

| member | source | states |
|---|---|---|
| `Scoring.TimeBonus` | src/lib.rs:352-357 | the time bonus is at most 50, is 0 once the response time reaches the limit, and is 50 for an instant answer under a positive limit |
| `Scoring.DifficultyMultiplier` | src/lib.rs:365-371 | the multiplier lies between 100 and 200, and every difficulty of 2 or more falls back to 200 |
| `Scoring.Points` | src/lib.rs:349-384 | a correct answer earns at least 100 points; an incorrect one earns at most 100 |
| `Scoring.TimeBonusAntitone` | src/lib.rs:352-357 | an earlier answer never gets a smaller time bonus |
| `Scoring.FasterAnswerEarnsAtLeastAsMuch` | src/lib.rs:352-384 | with everything else fixed, answering sooner never earns fewer points |
| `Scoring.HarderQuestionEarnsAtLeastAsMuch` | src/lib.rs:365-384 | a larger difficulty multiplier never earns fewer points |
| `Scoring.CorrectAnswerEarnsMore` | src/lib.rs:359-384 | a correct answer earns exactly the multiplier plus the streak bonus more than an incorrect one at the same moment |
| `Scoring.IncorrectAnswerEarnsTimeBonus` | src/lib.rs:352-373 | an incorrect answer earns the scaled time bonus: at least 50 points when instant, 0 at or past the limit |
| `Scoring.StreakBonusFromSecondCorrectAnswer` | src/lib.rs:375-384 | the streak bonus is 10 points per answer in the streak, from the second consecutive correct answer on |
| `Scoring.WorkedExamples` | src/lib.rs:352-384 | an instant correct Easy answer under a 10 s limit earns 150; a second one at the limit earns 120; a first correct Hard answer after 5 of 30 s earns 282 |
| `SessionRules.NoSessionSatisfiesInvariant` | src/lib.rs:22-38 | the all-zero session read for an unused id satisfies the invariant and has capacity 0 |
| `SessionRules.CreateSession` | src/lib.rs:148-160 | the record at the new id gets that id, the caller as host, the room code, status Created, the capacity, the question duration, player count 0 and question index 0; every other field (players, player list, winner, winning score, answers, times) is kept from the record already stored there |
| `SessionRules.JoinSession` | src/lib.rs:193-225 | a join fails with InvalidRoomCode, then SessionAlreadyActive, then SessionFull, then PlayerAlreadyJoined, the first failing check winning; it succeeds exactly when the room code matches, the status is Created, the room is below capacity and the caller is not active; it then appends the caller, adds one to the count, resets the caller's record and changes nothing else |
| `SessionRules.StartSession` | src/lib.rs:244-256 | start fails with Unauthorized for a non-host before SessionAlreadyActive for a session that is not Created; it succeeds exactly for the host on a Created session, and then sets the status to Active and the start time to the block time, changing nothing else |
| `SessionRules.StartQuestion` | src/lib.rs:283-295 | a question start fails with Unauthorized for a non-host before SessionNotActive for a session that is not Active; it succeeds exactly for the host on an Active session, and then sets the question index to the given one and its start time to the block time, changing nothing else |
| `SessionRules.SubmitAnswer` | src/lib.rs:318-347 | a submission fails with SessionNotActive, then InvalidQuestionIndex, then PlayerNotInSession, then AlreadyAnswered, then QuestionNotActive, the first failing check winning; it is accepted exactly when the session is Active, the index is current, the caller is active, no answer is recorded and the deadline has not passed |
| `SessionRules.EndSession` | src/lib.rs:436-450 | end fails with Unauthorized for a non-host before SessionNotActive for a session that is not Active; it succeeds exactly for the host on an Active session, and then changes only the status (to Completed) |
| `SessionRules.CreateSessionOnUnusedSlot` | src/lib.rs:148-162 | creating over a never-joinable slot gives a Created session with the given host, code, capacity and duration, an empty roster and question index 0, and the invariant holds |
| `SessionRules.CreateSessionOverJoinedSlot` | src/lib.rs:148-162 | creating over a record that has a listed player leaves a roster whose count disagrees with the list |
| `SessionRules.JoinSessionPreservesInvariant` | src/lib.rs:203-225 | a successful join keeps the roster and leader invariants, including no duplicates and count equal to list length within capacity |
| `SessionRules.JoinSessionCapacity` | src/lib.rs:203-205 | for a newcomer past the room-code and status checks, a join fails with SessionFull exactly when the count has reached the cap, and succeeds otherwise |
| `SessionRules.JoinSessionAdmitsOnce` | src/lib.rs:203-211 | after a successful join, the same caller's next join fails: with SessionFull if the room is now full, else PlayerAlreadyJoined |
| `SessionRules.StartSessionPreservesInvariant` | src/lib.rs:254-256 | starting a session keeps the invariant |
| `SessionRules.StartQuestionPreservesInvariant` | src/lib.rs:291-295 | starting a question keeps the invariant |
| `SessionRules.EndSessionPreservesInvariant` | src/lib.rs:449-450 | ending a session keeps the invariant |
| `SessionRules.EndSessionReturnsLeader` | src/lib.rs:444-463 | the winner returned by end_session has the highest score in the session, and is an active player unless it is the zero address |
| `SessionRules.SubmitAnswerUpdatesPlayer` | src/lib.rs:349-399 | an accepted answer earns the computed points. If correct, the streak and the correct count each go up by one; if wrong, the streak resets and the count stays. The score grows by exactly the points; no other player changes |
| `SessionRules.SubmitAnswerTracksLeader` | src/lib.rs:401-407 | the winner becomes the caller with the new total only when that total is strictly greater; otherwise winner and winning score stay, so ties keep the earlier leader |
| `SessionRules.SubmitAnswerRecordsAnswer` | src/lib.rs:409-415 | the answer record for (index, caller) holds the hash, the time, the correctness and the points; all other answer records, the roster, the status, the question and every other field except players, winner and winning score stay |
| `SessionRules.RepeatSubmissionRejected` | src/lib.rs:338-415 | after an accepted submission at a nonzero time, any second submission for the same question by the same caller fails with AlreadyAnswered |
| `SessionRules.SubmitAnswerPreservesInvariant` | src/lib.rs:386-415 | an accepted answer keeps the roster and leader invariants |
| `SessionRules.StepPreservesInvariant` | src/lib.rs:178-464 | every per-session call (join, start, question start, submit, end), accepted or rejected, keeps the session invariant |
| `SessionRules.RunPreservesInvariant` | src/lib.rs:178-464 | after any sequence of per-session calls (join, start, question start, submit, end) the roster and leader invariants still hold |
| `SessionRules.StepStatus` | src/lib.rs:239-450 | a call either keeps the status, or is start_session by the host moving Created to Active, or end_session by the host moving Active to Completed |
| `SessionRules.RunStatusNeverDecreases` | src/lib.rs:239-450 | across any sequence of per-session calls (create_session is not one) the status never goes back |
| `SessionRules.CompletedSessionIsFrozen` | src/lib.rs:178-450 | no sequence of per-session calls changes a Completed session; only a create_session that rewrites the slot can |
| `SessionRules.RunKeepsLeaderScoreAndJoinOrder` | src/lib.rs:213-407 | across any sequence of calls, winning_score never decreases and the old player_list stays a prefix of the new one |
| `SessionRules.RunScoresNeverDecrease` | src/lib.rs:207-399 | across any sequence of calls, a joined player stays active and their score never decreases |
| `SessionRules.RunKeepsRecordedAnswers` | src/lib.rs:338-415 | across any sequence of calls, an answer recorded at a nonzero time stays unchanged (write-once) |
| `Chain.TriviaChain.constructor` | src/lib.rs:14-20 | fresh storage has no sessions, counter 0 and the zero owner, and satisfies the store invariant |
| `Chain.TriviaChain.Initialize` | src/lib.rs:133-140 | while the owner is zero, records the caller as owner and sets the counter to 1; otherwise fails with Unauthorized and changes nothing; the store invariant is kept when at most one session existed before |
| `Chain.TriviaChain.CreateSession` | src/lib.rs:142-176 | returns the old counter, increments the counter by exactly one, stores `SessionRules.CreateSession` of the record already at that id, and in a valid store the new session has an empty roster and the store stays valid |
| `Chain.TriviaChain.JoinSession` | src/lib.rs:178-237 | the stored session changes exactly as `SessionRules.JoinSession` says, or not at all on an error, and the store invariant is kept |
| `Chain.TriviaChain.StartSession` | src/lib.rs:239-269 | the stored session changes exactly as `SessionRules.StartSession` says, or not at all on an error, and the store invariant is kept |
| `Chain.TriviaChain.StartQuestion` | src/lib.rs:271-298 | the stored session changes exactly as `SessionRules.StartQuestion` says, or not at all on an error, and the store invariant is kept |
| `Chain.TriviaChain.SubmitAnswer` | src/lib.rs:300-427 | returns the points and stores the session as `SessionRules.SubmitAnswer` says, or the error with nothing changed; the store invariant is kept |
| `Chain.TriviaChain.EndSession` | src/lib.rs:429-464 | stores the Completed session and returns the tracked winner, who in a valid store holds the highest score of the session, or the error with nothing changed |
| `Chain.TriviaChain.GetWinner` | src/lib.rs:467-469 | in a valid store the reported winner has a score no player exceeds, and is an active player unless zero |
| `Chain.TriviaChain.GetPlayerScore` | src/lib.rs:471-478 | in a valid store a player's score never exceeds the winning score, and is 0 for an address that has not joined |
| `Chain.TwoPlayerGame` | src/lib.rs:142-464 | in a two-player game: the third join is SessionFull; a correct Hard answer after 5 of 30 s earns 282; a repeat is AlreadyAnswered; an answer at 31 s is QuestionNotActive; the scorer wins |
| `Chain.LateInitializeBreaksRoster` | src/lib.rs:133-162 | calling create_session before initialize, then initialize, then create_session again leaves session 1 with player_count 0 and one listed player |

## Left out

- Events (`log` of SessionCreated, PlayerJoined, SessionStarted, AnswerSubmitted, SessionEnded) and the `sol!` error and event declarations: these only notify observers and do not affect state.
- `msg_sender()` and `block_timestamp()` are host-environment calls; they become the `caller` and `now` parameters. `create_session` and `end_session` read the timestamp only for their events, so those methods take no time parameter.
- The storage, entry-point and error-encoding macros and the ABI encoding: these are framework plumbing. Storage is modelled as Dafny maps and sequences.
- U256 arithmetic is modelled with unbounded naturals; overflow and wrap-around are not modelled.
- Scoring.Elapsed: when `now` is below the question start, the elapsed time is read as 0. The contract's U256 subtraction would wrap around instead. Block timestamps never decrease, so this does not arise.
- The byte contents of room codes, display names and answer hashes: they are only compared for equality.
- Cross-session player statistics, leaderboards and end-of-session aggregation: the contract has none of them.
- The `SessionNotFound` error is declared but never raised; an unknown id reads as an all-zero session.
- Chain.TriviaChain.Initialize: promises `Valid()` afterwards only when an owner was already set or the counter was at most 1. Without either condition the contract really can break the roster, as `Chain.LateInitializeBreaksRoster` shows.
