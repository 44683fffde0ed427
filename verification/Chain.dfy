/** The TriviaChain contract: a store of sessions keyed by id, the next id to hand
    out and the owner. Each public method reads the session record, checks in the
    contract's order, and writes the record back; its postcondition says the new
    store is the old one with that record replaced by what SessionRules prescribes.
    The caller's address and the block timestamp are parameters. */
module Chain {
  import opened TriviaTypes
  import opened Scoring
  import R = SessionRules

  /** The store invariant: every session satisfies the session invariant, and every id
      at or beyond the counter still has max_players 0, so nobody can join it before
      create_session writes it. */
  ghost predicate StoreOk(sessions: map<nat, GameSession>, nextId: nat) {
    forall id: nat :: R.Invariant(SessionIn(sessions, id)) && (id >= nextId ==> SessionIn(sessions, id).maxPlayers == 0)
  }

  lemma EmptyStoreOk(nextId: nat)
    ensures StoreOk(map[], nextId)
  {
  }

  /** Replacing one record by one that keeps the invariant keeps the store invariant. */
  lemma StoreUpdate(sessions: map<nat, GameSession>, nextId: nat, id: nat, s: GameSession)
    requires StoreOk(sessions, nextId) && R.Invariant(s)
    requires id >= nextId ==> s.maxPlayers == 0
    ensures StoreOk(sessions[id := s], nextId)
  {
    var updated := sessions[id := s];
    forall i: nat ensures R.Invariant(SessionIn(updated, i)) && (i >= nextId ==> SessionIn(updated, i).maxPlayers == 0) {
      if i != id {
        assert SessionIn(updated, i) == SessionIn(sessions, i);
      }
    }
  }

  /** Writing a record that keeps the invariant at the counter and moving the counter
      past it keeps the store invariant, whatever the record's capacity. */
  lemma StoreAdvance(sessions: map<nat, GameSession>, nextId: nat, s: GameSession)
    requires StoreOk(sessions, nextId) && R.Invariant(s)
    ensures StoreOk(sessions[nextId := s], nextId + 1)
  {
    var updated := sessions[nextId := s];
    forall i: nat ensures R.Invariant(SessionIn(updated, i)) && (i >= nextId + 1 ==> SessionIn(updated, i).maxPlayers == 0) {
      if i != nextId {
        assert SessionIn(updated, i) == SessionIn(sessions, i);
      }
    }
  }

  class TriviaChain {
    var sessions: map<nat, GameSession>
    var nextSessionId: nat
    var owner: Address

    /** Freshly deployed storage: no sessions, counter 0, zero owner. */
    constructor ()
      ensures sessions == map[] && nextSessionId == 0 && owner == ZERO_ADDRESS
      ensures Valid()
    {
      sessions := map[];
      nextSessionId := 0;
      owner := ZERO_ADDRESS;
      EmptyStoreOk(0);
    }

    function SessionAt(id: nat): GameSession
      reads this
    {
      SessionIn(sessions, id)
    }

    ghost predicate Valid()
      reads this
    {
      StoreOk(sessions, nextSessionId)
    }

    /** One-shot while the owner is the zero address: records the caller as owner and
        sets the counter to 1. Rejected with Unauthorized once an owner is set. */
    method Initialize(caller: Address) returns (r: Result<()>)
      modifies this
      ensures sessions == old(sessions)
      ensures old(owner) != ZERO_ADDRESS ==>
        r == Err(Unauthorized) && owner == old(owner) && nextSessionId == old(nextSessionId)
      ensures old(owner) == ZERO_ADDRESS ==>
        r == Ok(()) && owner == caller && nextSessionId == 1
      ensures old(Valid()) && (old(owner) != ZERO_ADDRESS || old(nextSessionId) <= 1) ==> Valid()
    {
      if owner != ZERO_ADDRESS {
        return Err(Unauthorized);
      }
      owner := caller;
      nextSessionId := 1;
      r := Ok(());
    }

    /** Hands out the current counter value as the new id, increments the counter by
        one, and writes the new session's host, room code, status Created, capacity,
        question duration, player count 0 and question index 0. */
    method CreateSession(caller: Address, roomCode: Bytes32, maxPlayers: nat, questionDuration: nat) returns (id: nat)
      modifies this
      ensures id == old(nextSessionId) && nextSessionId == id + 1 && owner == old(owner)
      ensures sessions == old(sessions)[id := R.CreateSession(old(SessionAt(id)), id, caller, roomCode, maxPlayers, questionDuration)]
      ensures old(Valid()) ==>
        && Valid()
        && SessionAt(id).playerList == []
        && forall a :: !PlayerOf(SessionAt(id), a).isActive
    {
      ghost var wasValid := Valid();
      id := nextSessionId;
      var session := SessionAt(id);
      session := session.(sessionId := id, host := caller, roomCode := roomCode, status := CREATED,
                          maxPlayers := maxPlayers, questionDuration := questionDuration,
                          playerCount := 0, currentQuestionIndex := 0);
      sessions := sessions[id := session];
      nextSessionId := id + 1;
      if wasValid {
        R.CreateSessionOnUnusedSlot(old(SessionAt(id)), id, caller, roomCode, maxPlayers, questionDuration);
        StoreAdvance(old(sessions), id, session);
      }
    }

    /** Admits the caller: InvalidRoomCode, SessionAlreadyActive, SessionFull and
        PlayerAlreadyJoined are checked in that order; on success the caller's player
        record is reset and active, the caller is appended to player_list and
        player_count grows by one. A rejected call changes nothing. */
    method JoinSession(caller: Address, id: nat, roomCode: Bytes32, displayName: Bytes32) returns (r: Result<()>)
      modifies this
      ensures nextSessionId == old(nextSessionId) && owner == old(owner)
      ensures match R.JoinSession(old(SessionAt(id)), caller, roomCode, displayName)
        case Err(e) => r == Err(e) && sessions == old(sessions)
        case Ok(s) => r == Ok(()) && sessions == old(sessions)[id := s]
      ensures old(Valid()) ==> Valid()
    {
      ghost var wasValid := Valid();
      var session := SessionAt(id);
      if session.roomCode != roomCode {
        return Err(InvalidRoomCode);
      }
      if session.status != CREATED {
        return Err(SessionAlreadyActive);
      }
      if session.playerCount >= session.maxPlayers {
        return Err(SessionFull);
      }
      if PlayerOf(session, caller).isActive {
        return Err(PlayerAlreadyJoined);
      }
      var player := Player(caller, displayName, 0, 0, 0, true);
      session := session.(players := session.players[caller := player]);
      session := session.(playerList := session.playerList + [caller]);
      session := session.(playerCount := session.playerCount + 1);
      sessions := sessions[id := session];
      r := Ok(());
      if wasValid {
        R.JoinSessionPreservesInvariant(old(SessionAt(id)), caller, roomCode, displayName);
        StoreUpdate(old(sessions), nextSessionId, id, session);
      }
    }

    /** Host-only Created -> Active transition recording the start time:
        Unauthorized unless the caller is the host, then SessionAlreadyActive unless
        the status is Created. */
    method StartSession(caller: Address, now: nat, id: nat) returns (r: Result<()>)
      modifies this
      ensures nextSessionId == old(nextSessionId) && owner == old(owner)
      ensures match R.StartSession(old(SessionAt(id)), caller, now)
        case Err(e) => r == Err(e) && sessions == old(sessions)
        case Ok(s) => r == Ok(()) && sessions == old(sessions)[id := s]
      ensures old(Valid()) ==> Valid()
    {
      ghost var wasValid := Valid();
      var session := SessionAt(id);
      if session.host != caller {
        return Err(Unauthorized);
      }
      if session.status != CREATED {
        return Err(SessionAlreadyActive);
      }
      session := session.(status := ACTIVE, startTime := now);
      sessions := sessions[id := session];
      r := Ok(());
      if wasValid {
        R.StartSessionPreservesInvariant(old(SessionAt(id)), caller, now);
        StoreUpdate(old(sessions), nextSessionId, id, session);
      }
    }

    /** Host-only, Active sessions only: sets the current question index and its start
        time, and nothing else. */
    method StartQuestion(caller: Address, now: nat, id: nat, index: nat) returns (r: Result<()>)
      modifies this
      ensures nextSessionId == old(nextSessionId) && owner == old(owner)
      ensures match R.StartQuestion(old(SessionAt(id)), caller, now, index)
        case Err(e) => r == Err(e) && sessions == old(sessions)
        case Ok(s) => r == Ok(()) && sessions == old(sessions)[id := s]
      ensures old(Valid()) ==> Valid()
    {
      ghost var wasValid := Valid();
      var session := SessionAt(id);
      if session.host != caller {
        return Err(Unauthorized);
      }
      if session.status != ACTIVE {
        return Err(SessionNotActive);
      }
      session := session.(currentQuestionIndex := index, questionStartTime := now);
      sessions := sessions[id := session];
      r := Ok(());
      if wasValid {
        R.StartQuestionPreservesInvariant(old(SessionAt(id)), caller, now, index);
        StoreUpdate(old(sessions), nextSessionId, id, session);
      }
    }

    /** Scores one answer. The correct-answer hash and the difficulty come from the
        submitter; the time limit is the session's question duration. Rejections, in
        order: SessionNotActive, InvalidQuestionIndex, PlayerNotInSession,
        AlreadyAnswered, QuestionNotActive. On success returns the points and updates
        the player's streak, correct count and score, the leader and the answer. */
    method SubmitAnswer(caller: Address, now: nat, id: nat, index: nat, answerHash: Bytes32, correctHash: Bytes32, difficulty: Byte)
      returns (r: Result<nat>)
      modifies this
      ensures nextSessionId == old(nextSessionId) && owner == old(owner)
      ensures match R.SubmitAnswer(old(SessionAt(id)), caller, now, index, answerHash, correctHash, difficulty)
        case Err(e) => r == Err(e) && sessions == old(sessions)
        case Ok(res) => r == Ok(res.0) && sessions == old(sessions)[id := res.1]
      ensures old(Valid()) ==> Valid()
    {
      ghost var wasValid := Valid();
      var session := SessionAt(id);
      if session.status != ACTIVE {
        return Err(SessionNotActive);
      }
      if session.currentQuestionIndex != index {
        return Err(InvalidQuestionIndex);
      }
      var player := PlayerOf(session, caller);
      if !player.isActive {
        return Err(PlayerNotInSession);
      }
      if AnswerOf(session, index, caller).submitTime != 0 {
        return Err(AlreadyAnswered);
      }
      if now > session.questionStartTime + session.questionDuration {
        return Err(QuestionNotActive);
      }
      var isCorrect := answerHash == correctHash;
      var points := Points(isCorrect, Elapsed(now, session.questionStartTime), session.questionDuration, difficulty, player.currentStreak);
      var oldScore := player.score;
      if isCorrect {
        player := player.(currentStreak := player.currentStreak + 1, correctAnswers := player.correctAnswers + 1);
      } else {
        player := player.(currentStreak := 0);
      }
      player := player.(score := oldScore + points);
      var original := session;
      session := session.(players := session.players[caller := player]);
      var newTotal := oldScore + points;
      if newTotal > session.winningScore {
        session := session.(winner := caller, winningScore := newTotal);
      }
      session := session.(answers := session.answers[(index, caller) := Answer(answerHash, now, isCorrect, points)]);
      sessions := sessions[id := session];
      r := Ok(points);
      assert R.SubmitAnswer(original, caller, now, index, answerHash, correctHash, difficulty) == Ok((points, session));
      if wasValid {
        R.SubmitAnswerPreservesInvariant(original, caller, now, index, answerHash, correctHash, difficulty);
        StoreUpdate(old(sessions), nextSessionId, id, session);
      }
    }

    /** Host-only Active -> Completed transition returning the tracked winner:
        Unauthorized unless the caller is the host, then SessionNotActive unless the
        status is Active. No aggregation happens. */
    method EndSession(caller: Address, id: nat) returns (r: Result<Address>)
      modifies this
      ensures nextSessionId == old(nextSessionId) && owner == old(owner)
      ensures match R.EndSession(old(SessionAt(id)), caller)
        case Err(e) => r == Err(e) && sessions == old(sessions)
        case Ok(res) => r == Ok(res.0) && sessions == old(sessions)[id := res.1]
      ensures old(Valid()) && r.Ok? ==>
        forall a :: GetPlayerScore(id, a) <= GetPlayerScore(id, r.value)
      ensures old(Valid()) ==> Valid()
    {
      ghost var wasValid := Valid();
      var session := SessionAt(id);
      if session.host != caller {
        return Err(Unauthorized);
      }
      if session.status != ACTIVE {
        return Err(SessionNotActive);
      }
      var winner := session.winner;
      session := session.(status := COMPLETED);
      sessions := sessions[id := session];
      r := Ok(winner);
      if wasValid {
        R.EndSessionPreservesInvariant(old(SessionAt(id)), caller);
        R.EndSessionReturnsLeader(old(SessionAt(id)), caller);
        StoreUpdate(old(sessions), nextSessionId, id, session);
      }
    }

    /** The session's tracked winner: in a valid store, a player with the highest
        score of the session (the zero address while nobody has scored). */
    function GetWinner(id: nat): (w: Address)
      reads this
      ensures Valid() ==> forall a :: GetPlayerScore(id, a) <= GetPlayerScore(id, w)
      ensures Valid() && w != ZERO_ADDRESS ==> PlayerOf(SessionAt(id), w).isActive
    {
      var s := SessionAt(id);
      assert Valid() ==> R.Invariant(s);
      assert Valid() && s.winningScore == 0 ==> forall a :: PlayerOf(s, a).score <= 0;
      s.winner
    }

    /** A player's score in a session: never above the session's winning score, and 0
        for an address that has not joined. */
    function GetPlayerScore(id: nat, player: Address): (score: nat)
      reads this
      ensures Valid() ==> score <= SessionAt(id).winningScore
      ensures Valid() && !PlayerOf(SessionAt(id), player).isActive ==> score == 0
    {
      assert Valid() ==> R.Invariant(SessionAt(id));
      PlayerOf(SessionAt(id), player).score
    }
  }

  /** A two-player game, using the contracts alone: the third join finds the room
      full, a correct Hard answer after 5 of 30 seconds earns 282 points, a second
      submission by the same player is AlreadyAnswered, an answer after 31 seconds is
      QuestionNotActive, and end_session returns the scoring player. */
  method TwoPlayerGame() returns (winner: Result<Address>)
    ensures winner == Ok(11)
  {
    var chain := new TriviaChain();
    var _ := chain.Initialize(1);
    var id := chain.CreateSession(10, 77, 2, 30);
    assert id == 1 && chain.SessionAt(id) == R.CreateSession(NO_SESSION, 1, 10, 77, 2, 30);
    var j1 := chain.JoinSession(11, id, 77, 0);
    assert j1 == Ok(());
    var j2 := chain.JoinSession(12, id, 77, 0);
    assert j2 == Ok(()) && chain.SessionAt(id).playerCount == 2;
    var j3 := chain.JoinSession(13, id, 77, 0);
    assert j3 == Err(SessionFull);
    var started := chain.StartSession(10, 1000, id);
    assert started == Ok(());
    var question := chain.StartQuestion(10, 1000, id, 0);
    assert question == Ok(());
    ghost var before := chain.SessionAt(id);
    assert before.status == ACTIVE && before.currentQuestionIndex == 0 && before.questionStartTime == 1000;
    assert before.questionDuration == 30 && before.winningScore == 0;
    assert PlayerOf(before, 11) == Player(11, 0, 0, 0, 0, true) && AnswerOf(before, 0, 11) == NO_ANSWER;
    assert PlayerOf(before, 12).isActive && AnswerOf(before, 0, 12) == NO_ANSWER;
    WorkedExamples();
    var a := chain.SubmitAnswer(11, 1005, id, 0, 5, 5, 2);
    assert a == Ok(282);
    ghost var after := chain.SessionAt(id);
    assert after.winner == 11 && after.status == ACTIVE && after.host == 10;
    var again := chain.SubmitAnswer(11, 1006, id, 0, 5, 5, 2);
    assert again == Err(AlreadyAnswered);
    var late := chain.SubmitAnswer(12, 1031, id, 0, 5, 5, 2);
    assert late == Err(QuestionNotActive);
    winner := chain.EndSession(10, id);
  }

  /** initialize is not guarded against earlier sessions: create_session before
      initialize hands out ids 0 and 1, initialize puts the counter back to 1, and the
      next create_session rewrites session 1 with player_count 0 while its joined
      player stays in player_list. */
  method LateInitializeBreaksRoster() returns (count: nat, list: seq<Address>)
    ensures count == 0 && list == [5]
  {
    var chain := new TriviaChain();
    var first := chain.CreateSession(10, 77, 4, 30);
    var second := chain.CreateSession(10, 77, 4, 30);
    assert second == 1;
    var joined := chain.JoinSession(5, second, 77, 0);
    assert joined == Ok(());
    var init := chain.Initialize(10);
    var again := chain.CreateSession(10, 78, 4, 30);
    assert again == 1;
    count := chain.SessionAt(1).playerCount;
    list := chain.SessionAt(1).playerList;
  }
}
