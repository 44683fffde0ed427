/** What each TriviaChain operation does to one session, as pure functions of the
    session record read at call entry. An operation either fails with an error and
    leaves the record as it was, or succeeds with the new record. The methods of
    Chain.TriviaChain are proved to write exactly these records. */
module SessionRules {
  import opened TriviaTypes
  import opened Scoring

  // ---------------------------------------------------------------------------
  // Invariants of one session

  ghost predicate NoDuplicates(xs: seq<Address>) {
    forall i, j :: 0 <= i < j < |xs| ==> xs[i] != xs[j]
  }

  /** The roster: player_count is the length of player_list and never above
      max_players, nobody is listed twice, the listed addresses are exactly the active
      players, and a player who never joined holds no score. */
  ghost predicate RosterOk(s: GameSession) {
    && s.playerCount == |s.playerList| <= s.maxPlayers
    && NoDuplicates(s.playerList)
    && (forall a :: PlayerOf(s, a).isActive <==> a in s.playerList)
    && (forall a :: !PlayerOf(s, a).isActive ==> PlayerOf(s, a).score == 0)
  }

  /** The incrementally tracked leader: nobody scores above winning_score, and while
      it is positive the recorded winner holds exactly that score. */
  ghost predicate LeaderOk(s: GameSession) {
    && (forall a :: PlayerOf(s, a).score <= s.winningScore)
    && (s.winningScore == 0 ==> s.winner == ZERO_ADDRESS)
    && (s.winningScore > 0 ==> PlayerOf(s, s.winner).score == s.winningScore)
  }

  ghost predicate Invariant(s: GameSession) {
    RosterOk(s) && LeaderOk(s)
  }

  lemma NoSessionSatisfiesInvariant()
    ensures Invariant(NO_SESSION) && NO_SESSION.maxPlayers == 0
  {
  }

  // ---------------------------------------------------------------------------
  // The operations

  /** create_session's writes to the record at the new id; every field it does not
      name (players, player_list, winner, winning_score, answers, times) is kept, so
      over a record that is already in use the session is reopened as Created under the
      new host. */
  function CreateSession(s: GameSession, id: nat, host: Address, roomCode: Bytes32, maxPlayers: nat, duration: nat): (r: GameSession)
    ensures r.sessionId == id && r.host == host && r.roomCode == roomCode && r.status == CREATED
    ensures r.maxPlayers == maxPlayers && r.questionDuration == duration
    ensures r.playerCount == 0 && r.currentQuestionIndex == 0
    ensures r.(sessionId := s.sessionId, host := s.host, roomCode := s.roomCode, status := s.status,
               maxPlayers := s.maxPlayers, questionDuration := s.questionDuration,
               playerCount := s.playerCount, currentQuestionIndex := s.currentQuestionIndex) == s
  {
    s.(sessionId := id, host := host, roomCode := roomCode, status := CREATED, maxPlayers := maxPlayers,
       questionDuration := duration, playerCount := 0, currentQuestionIndex := 0)
  }

  function JoinSession(s: GameSession, caller: Address, roomCode: Bytes32, displayName: Bytes32): (r: Result<GameSession>)
    ensures s.roomCode != roomCode ==> r == Err(InvalidRoomCode)
    ensures s.roomCode == roomCode && s.status != CREATED ==> r == Err(SessionAlreadyActive)
    ensures s.roomCode == roomCode && s.status == CREATED && s.playerCount >= s.maxPlayers ==> r == Err(SessionFull)
    ensures s.roomCode == roomCode && s.status == CREATED && s.playerCount < s.maxPlayers && PlayerOf(s, caller).isActive
      ==> r == Err(PlayerAlreadyJoined)
    ensures r.Ok? <==> s.roomCode == roomCode && s.status == CREATED && s.playerCount < s.maxPlayers && !PlayerOf(s, caller).isActive
    ensures r.Ok? ==>
      && r.value.playerList == s.playerList + [caller]
      && r.value.playerCount == s.playerCount + 1
      && PlayerOf(r.value, caller) == Player(caller, displayName, 0, 0, 0, true)
      && (forall a :: a != caller ==> PlayerOf(r.value, a) == PlayerOf(s, a))
      && r.value.(players := s.players, playerList := s.playerList, playerCount := s.playerCount) == s
  {
    if s.roomCode != roomCode then Err(InvalidRoomCode)
    else if s.status != CREATED then Err(SessionAlreadyActive)
    else if s.playerCount >= s.maxPlayers then Err(SessionFull)
    else if PlayerOf(s, caller).isActive then Err(PlayerAlreadyJoined)
    else
      Ok(s.(players := s.players[caller := Player(caller, displayName, 0, 0, 0, true)],
            playerList := s.playerList + [caller],
            playerCount := s.playerCount + 1))
  }

  function StartSession(s: GameSession, caller: Address, now: nat): (r: Result<GameSession>)
    ensures caller != s.host ==> r == Err(Unauthorized)
    ensures caller == s.host && s.status != CREATED ==> r == Err(SessionAlreadyActive)
    ensures r.Ok? <==> caller == s.host && s.status == CREATED
    ensures r.Ok? ==> r.value.status == ACTIVE && r.value.startTime == now
    ensures r.Ok? ==> r.value.(status := s.status, startTime := s.startTime) == s
  {
    if s.host != caller then Err(Unauthorized)
    else if s.status != CREATED then Err(SessionAlreadyActive)
    else Ok(s.(status := ACTIVE, startTime := now))
  }

  function StartQuestion(s: GameSession, caller: Address, now: nat, index: nat): (r: Result<GameSession>)
    ensures caller != s.host ==> r == Err(Unauthorized)
    ensures caller == s.host && s.status != ACTIVE ==> r == Err(SessionNotActive)
    ensures r.Ok? <==> caller == s.host && s.status == ACTIVE
    ensures r.Ok? ==> r.value.currentQuestionIndex == index && r.value.questionStartTime == now
    ensures r.Ok? ==> r.value.(currentQuestionIndex := s.currentQuestionIndex, questionStartTime := s.questionStartTime) == s
  {
    if s.host != caller then Err(Unauthorized)
    else if s.status != ACTIVE then Err(SessionNotActive)
    else Ok(s.(currentQuestionIndex := index, questionStartTime := now))
  }

  /** submit_answer: five rejections in order, then the points, the player's new
      streak, correct count and score, the leader and the answer record. */
  function SubmitAnswer(s: GameSession, caller: Address, now: nat, index: nat, answerHash: Bytes32, correctHash: Bytes32, difficulty: Byte): (r: Result<(nat, GameSession)>)
    ensures s.status != ACTIVE ==> r == Err(SessionNotActive)
    ensures s.status == ACTIVE && s.currentQuestionIndex != index ==> r == Err(InvalidQuestionIndex)
    ensures s.status == ACTIVE && s.currentQuestionIndex == index && !PlayerOf(s, caller).isActive
      ==> r == Err(PlayerNotInSession)
    ensures s.status == ACTIVE && s.currentQuestionIndex == index && PlayerOf(s, caller).isActive
      && AnswerOf(s, index, caller).submitTime != 0
      ==> r == Err(AlreadyAnswered)
    ensures s.status == ACTIVE && s.currentQuestionIndex == index && PlayerOf(s, caller).isActive
      && AnswerOf(s, index, caller).submitTime == 0 && now > s.questionStartTime + s.questionDuration
      ==> r == Err(QuestionNotActive)
    ensures r.Ok? <==>
      && s.status == ACTIVE
      && s.currentQuestionIndex == index
      && PlayerOf(s, caller).isActive
      && AnswerOf(s, index, caller).submitTime == 0
      && now <= s.questionStartTime + s.questionDuration
  {
    if s.status != ACTIVE then Err(SessionNotActive)
    else if s.currentQuestionIndex != index then Err(InvalidQuestionIndex)
    else if !PlayerOf(s, caller).isActive then Err(PlayerNotInSession)
    else if AnswerOf(s, index, caller).submitTime != 0 then Err(AlreadyAnswered)
    else if now > s.questionStartTime + s.questionDuration then Err(QuestionNotActive)
    else
      var player := PlayerOf(s, caller);
      var isCorrect := answerHash == correctHash;
      var points := Points(isCorrect, Elapsed(now, s.questionStartTime), s.questionDuration, difficulty, player.currentStreak);
      var total := player.score + points;
      var updated :=
        if isCorrect then player.(currentStreak := player.currentStreak + 1, correctAnswers := player.correctAnswers + 1, score := total)
        else player.(currentStreak := 0, score := total);
      var withPlayer := s.(players := s.players[caller := updated]);
      var withLeader := if total > s.winningScore then withPlayer.(winner := caller, winningScore := total) else withPlayer;
      Ok((points, withLeader.(answers := s.answers[(index, caller) := Answer(answerHash, now, isCorrect, points)])))
  }

  function EndSession(s: GameSession, caller: Address): (r: Result<(Address, GameSession)>)
    ensures caller != s.host ==> r == Err(Unauthorized)
    ensures caller == s.host && s.status != ACTIVE ==> r == Err(SessionNotActive)
    ensures r.Ok? <==> caller == s.host && s.status == ACTIVE
    ensures r.Ok? ==> r.value.1.status == COMPLETED && r.value.1.(status := s.status) == s
  {
    if s.host != caller then Err(Unauthorized)
    else if s.status != ACTIVE then Err(SessionNotActive)
    else Ok((s.winner, s.(status := COMPLETED)))
  }

  // ---------------------------------------------------------------------------
  // One operation at a time

  /** create_session over a slot no one can have joined yields a fresh Created session
      with an empty roster that satisfies the invariant. */
  lemma CreateSessionOnUnusedSlot(s: GameSession, id: nat, host: Address, roomCode: Bytes32, maxPlayers: nat, duration: nat)
    requires Invariant(s) && s.maxPlayers == 0
    ensures var c := CreateSession(s, id, host, roomCode, maxPlayers, duration);
      && Invariant(c)
      && c.status == CREATED && c.host == host && c.roomCode == roomCode
      && c.maxPlayers == maxPlayers && c.questionDuration == duration
      && c.playerList == [] && c.playerCount == 0 && c.currentQuestionIndex == 0
      && forall a :: !PlayerOf(c, a).isActive
  {
  }

  /** create_session over a record that already has a joined player keeps the stale
      player_list while resetting player_count to 0, so the roster breaks. */
  lemma CreateSessionOverJoinedSlot(s: GameSession, id: nat, host: Address, roomCode: Bytes32, maxPlayers: nat, duration: nat)
    requires s.playerList != []
    ensures !RosterOk(CreateSession(s, id, host, roomCode, maxPlayers, duration))
  {
  }

  lemma JoinSessionPreservesInvariant(s: GameSession, caller: Address, roomCode: Bytes32, displayName: Bytes32)
    requires Invariant(s) && JoinSession(s, caller, roomCode, displayName).Ok?
    ensures Invariant(JoinSession(s, caller, roomCode, displayName).value)
  {
  }

  /** Capacity: a join that passes the room-code and status checks by a newcomer fails
      with SessionFull exactly when player_count has reached max_players. */
  lemma JoinSessionCapacity(s: GameSession, caller: Address, roomCode: Bytes32, displayName: Bytes32)
    requires s.roomCode == roomCode && s.status == CREATED && !PlayerOf(s, caller).isActive
    ensures s.playerCount >= s.maxPlayers ==> JoinSession(s, caller, roomCode, displayName) == Err(SessionFull)
    ensures s.playerCount < s.maxPlayers ==> JoinSession(s, caller, roomCode, displayName).Ok?
  {
  }

  /** Nobody is admitted twice: once a join succeeds, the same caller's next join
      fails, with SessionFull if that join filled the room, else PlayerAlreadyJoined. */
  lemma JoinSessionAdmitsOnce(s: GameSession, caller: Address, roomCode: Bytes32, name1: Bytes32, name2: Bytes32)
    requires JoinSession(s, caller, roomCode, name1).Ok?
    ensures var t := JoinSession(s, caller, roomCode, name1).value;
      JoinSession(t, caller, roomCode, name2)
        == if t.playerCount >= t.maxPlayers then Err(SessionFull) else Err(PlayerAlreadyJoined)
  {
  }

  lemma StartSessionPreservesInvariant(s: GameSession, caller: Address, now: nat)
    requires Invariant(s) && StartSession(s, caller, now).Ok?
    ensures Invariant(StartSession(s, caller, now).value)
  {
  }

  lemma StartQuestionPreservesInvariant(s: GameSession, caller: Address, now: nat, index: nat)
    requires Invariant(s) && StartQuestion(s, caller, now, index).Ok?
    ensures Invariant(StartQuestion(s, caller, now, index).value)
  {
  }

  lemma EndSessionPreservesInvariant(s: GameSession, caller: Address)
    requires Invariant(s) && EndSession(s, caller).Ok?
    ensures Invariant(EndSession(s, caller).value.1)
  {
  }

  /** end_session returns the tracked winner, who holds the highest score of the
      session (the zero address when nobody ever scored above 0). */
  lemma EndSessionReturnsLeader(s: GameSession, caller: Address)
    requires Invariant(s) && EndSession(s, caller).Ok?
    ensures var (w, t) := EndSession(s, caller).value;
      && (forall a :: PlayerOf(t, a).score <= PlayerOf(t, w).score)
      && (w == ZERO_ADDRESS || PlayerOf(t, w).isActive)
  {
    var (w, t) := EndSession(s, caller).value;
    assert forall a :: PlayerOf(t, a) == PlayerOf(s, a);
    if s.winningScore == 0 {
      forall a ensures PlayerOf(t, a).score <= PlayerOf(t, w).score {
        assert PlayerOf(s, a).score <= s.winningScore;
      }
    }
  }

  /** The player's record after an accepted submission: a correct answer extends the
      streak and the correct count, an incorrect one resets the streak; the score
      grows by exactly the points returned. No other player changes. */
  lemma SubmitAnswerUpdatesPlayer(s: GameSession, caller: Address, now: nat, index: nat, answerHash: Bytes32, correctHash: Bytes32, difficulty: Byte)
    requires SubmitAnswer(s, caller, now, index, answerHash, correctHash, difficulty).Ok?
    ensures var (points, t) := SubmitAnswer(s, caller, now, index, answerHash, correctHash, difficulty).value;
      var p, q := PlayerOf(s, caller), PlayerOf(t, caller);
      && points == Points(answerHash == correctHash, Elapsed(now, s.questionStartTime), s.questionDuration, difficulty, p.currentStreak)
      && q.score == p.score + points
      && q.currentStreak == (if answerHash == correctHash then p.currentStreak + 1 else 0)
      && q.correctAnswers == (if answerHash == correctHash then p.correctAnswers + 1 else p.correctAnswers)
      && q.isActive && q.playerAddress == p.playerAddress && q.displayName == p.displayName
      && (forall a :: a != caller ==> PlayerOf(t, a) == PlayerOf(s, a))
  {
  }

  /** Leader tracking: winning_score becomes max(winning_score, new total); the winner
      changes to the caller only on a strictly greater total, so ties keep the earlier
      leader. */
  lemma SubmitAnswerTracksLeader(s: GameSession, caller: Address, now: nat, index: nat, answerHash: Bytes32, correctHash: Bytes32, difficulty: Byte)
    requires SubmitAnswer(s, caller, now, index, answerHash, correctHash, difficulty).Ok?
    ensures var t := SubmitAnswer(s, caller, now, index, answerHash, correctHash, difficulty).value.1;
      var total := PlayerOf(t, caller).score;
      && (total > s.winningScore ==> t.winner == caller && t.winningScore == total)
      && (total <= s.winningScore ==> t.winner == s.winner && t.winningScore == s.winningScore)
  {
  }

  /** The answer record for (index, caller) holds the hash, the time, the correctness
      and the points; every other answer record and the rest of the session stay. */
  lemma SubmitAnswerRecordsAnswer(s: GameSession, caller: Address, now: nat, index: nat, answerHash: Bytes32, correctHash: Bytes32, difficulty: Byte)
    requires SubmitAnswer(s, caller, now, index, answerHash, correctHash, difficulty).Ok?
    ensures var (points, t) := SubmitAnswer(s, caller, now, index, answerHash, correctHash, difficulty).value;
      && AnswerOf(t, index, caller) == Answer(answerHash, now, answerHash == correctHash, points)
      && (forall i: nat, a: Address :: (i, a) != (index, caller) ==> AnswerOf(t, i, a) == AnswerOf(s, i, a))
      && t.playerList == s.playerList && t.playerCount == s.playerCount && t.status == s.status
      && t.currentQuestionIndex == s.currentQuestionIndex && t.questionStartTime == s.questionStartTime
      && t.(players := s.players, winner := s.winner, winningScore := s.winningScore, answers := s.answers) == s
  {
  }

  /** A repeated submission for the same question is rejected with AlreadyAnswered,
      whatever its payload, as long as the first one was recorded at a nonzero time. */
  lemma RepeatSubmissionRejected(s: GameSession, caller: Address, now: nat, index: nat, answerHash: Bytes32, correctHash: Bytes32, difficulty: Byte,
                                 now2: nat, answerHash2: Bytes32, correctHash2: Bytes32, difficulty2: Byte)
    requires SubmitAnswer(s, caller, now, index, answerHash, correctHash, difficulty).Ok? && now != 0
    ensures var t := SubmitAnswer(s, caller, now, index, answerHash, correctHash, difficulty).value.1;
      SubmitAnswer(t, caller, now2, index, answerHash2, correctHash2, difficulty2) == Err(AlreadyAnswered)
  {
  }

  lemma SubmitAnswerPreservesInvariant(s: GameSession, caller: Address, now: nat, index: nat, answerHash: Bytes32, correctHash: Bytes32, difficulty: Byte)
    requires Invariant(s) && SubmitAnswer(s, caller, now, index, answerHash, correctHash, difficulty).Ok?
    ensures Invariant(SubmitAnswer(s, caller, now, index, answerHash, correctHash, difficulty).value.1)
  {
  }

  // ---------------------------------------------------------------------------
  // Any sequence of operations on one session

  datatype Call =
    | JoinCall(caller: Address, roomCode: Bytes32, displayName: Bytes32)
    | StartCall(caller: Address, now: nat)
    | QuestionCall(caller: Address, now: nat, index: nat)
    | SubmitCall(caller: Address, now: nat, index: nat, answerHash: Bytes32, correctHash: Bytes32, difficulty: Byte)
    | EndCall(caller: Address)

  /** The record after one call; a rejected call leaves it unchanged. */
  function Step(s: GameSession, c: Call): GameSession {
    match c
    case JoinCall(caller, roomCode, name) =>
      var r := JoinSession(s, caller, roomCode, name); if r.Ok? then r.value else s
    case StartCall(caller, now) =>
      var r := StartSession(s, caller, now); if r.Ok? then r.value else s
    case QuestionCall(caller, now, index) =>
      var r := StartQuestion(s, caller, now, index); if r.Ok? then r.value else s
    case SubmitCall(caller, now, index, h, ch, d) =>
      var r := SubmitAnswer(s, caller, now, index, h, ch, d); if r.Ok? then r.value.1 else s
    case EndCall(caller) =>
      var r := EndSession(s, caller); if r.Ok? then r.value.1 else s
  }

  function Run(s: GameSession, calls: seq<Call>): GameSession
    decreases |calls|
  {
    if calls == [] then s else Run(Step(s, calls[0]), calls[1..])
  }

  lemma StepPreservesInvariant(s: GameSession, c: Call)
    requires Invariant(s)
    ensures Invariant(Step(s, c))
  {
  }

  /** The roster and leader invariants hold after any sequence of calls. */
  lemma {:induction false} RunPreservesInvariant(s: GameSession, calls: seq<Call>)
    requires Invariant(s)
    ensures Invariant(Run(s, calls))
    decreases |calls|
  {
    if calls != [] {
      StepPreservesInvariant(s, calls[0]);
      RunPreservesInvariant(Step(s, calls[0]), calls[1..]);
    }
  }

  /** Status moves only Created -> Active (start_session by the host) and
      Active -> Completed (end_session by the host); every other call keeps it. */
  lemma StepStatus(s: GameSession, c: Call)
    ensures var t := Step(s, c);
      || t.status == s.status
      || (c.StartCall? && c.caller == s.host && s.status == CREATED && t.status == ACTIVE)
      || (c.EndCall? && c.caller == s.host && s.status == ACTIVE && t.status == COMPLETED)
  {
  }

  lemma {:induction false} RunStatusNeverDecreases(s: GameSession, calls: seq<Call>)
    ensures s.status <= Run(s, calls).status
    decreases |calls|
  {
    if calls != [] {
      StepStatus(s, calls[0]);
      RunStatusNeverDecreases(Step(s, calls[0]), calls[1..]);
    }
  }

  /** A Completed session rejects every call, so no sequence of calls changes it. */
  lemma {:induction false} CompletedSessionIsFrozen(s: GameSession, calls: seq<Call>)
    requires s.status == COMPLETED
    ensures Run(s, calls) == s
    decreases |calls|
  {
    if calls != [] {
      assert Step(s, calls[0]) == s;
      CompletedSessionIsFrozen(s, calls[1..]);
    }
  }

  /** winning_score never decreases, and players are never removed from player_list
      nor reordered: the old list is a prefix of the new one. */
  lemma {:induction false} RunKeepsLeaderScoreAndJoinOrder(s: GameSession, calls: seq<Call>)
    ensures s.winningScore <= Run(s, calls).winningScore
    ensures s.playerList <= Run(s, calls).playerList
    decreases |calls|
  {
    if calls != [] {
      var t := Step(s, calls[0]);
      assert s.winningScore <= t.winningScore && s.playerList <= t.playerList;
      RunKeepsLeaderScoreAndJoinOrder(t, calls[1..]);
    }
  }

  /** A joined player stays joined and their score never decreases. */
  lemma {:induction false} RunScoresNeverDecrease(s: GameSession, calls: seq<Call>, a: Address)
    requires PlayerOf(s, a).isActive
    ensures PlayerOf(Run(s, calls), a).isActive
    ensures PlayerOf(s, a).score <= PlayerOf(Run(s, calls), a).score
    decreases |calls|
  {
    if calls != [] {
      var t := Step(s, calls[0]);
      match calls[0] {
        case SubmitCall(caller, now, index, h, ch, d) =>
          if SubmitAnswer(s, caller, now, index, h, ch, d).Ok? { SubmitAnswerUpdatesPlayer(s, caller, now, index, h, ch, d); }
        case _ =>
      }
      assert PlayerOf(t, a).isActive && PlayerOf(s, a).score <= PlayerOf(t, a).score;
      RunScoresNeverDecrease(t, calls[1..], a);
    }
  }

  /** Answers are write-once: a record with a nonzero submit time survives any
      sequence of calls unchanged. */
  lemma {:induction false} RunKeepsRecordedAnswers(s: GameSession, calls: seq<Call>, index: nat, a: Address)
    requires AnswerOf(s, index, a).submitTime != 0
    ensures AnswerOf(Run(s, calls), index, a) == AnswerOf(s, index, a)
    decreases |calls|
  {
    if calls != [] {
      var t := Step(s, calls[0]);
      match calls[0] {
        case SubmitCall(caller, now, i, h, ch, d) =>
          if SubmitAnswer(s, caller, now, i, h, ch, d).Ok? { SubmitAnswerRecordsAnswer(s, caller, now, i, h, ch, d); }
        case _ =>
      }
      assert AnswerOf(t, index, a) == AnswerOf(s, index, a);
      RunKeepsRecordedAnswers(t, calls[1..], index, a);
    }
  }
}
