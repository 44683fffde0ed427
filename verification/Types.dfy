/** Storage records of the TriviaChain contract.
    Every mapping of the contract reads as an all-zero record for a key that was
    never written; the lookups below (PlayerOf, AnswerOf, SessionIn) reproduce that. */
module TriviaTypes {

  /** An account address; 0 is the zero address. */
  type Address = nat
  const ZERO_ADDRESS: Address := 0

  /** A 32-byte value (room code, display name, answer hash). The contract only ever
      compares these for equality, so they are opaque here; 0 stands for all-zero bytes. */
  type Bytes32 = nat

  /** An unsigned 8-bit value: the session status and the question difficulty. */
  type Byte = x: nat | x < 256

  /** Session status values. */
  const CREATED: Byte := 0
  const ACTIVE: Byte := 1
  const COMPLETED: Byte := 2

  /** The contract's error variants. SessionNotFound is declared but never raised. */
  datatype TriviaError =
    | Unauthorized
    | SessionNotFound
    | SessionAlreadyActive
    | SessionNotActive
    | SessionFull
    | PlayerNotInSession
    | PlayerAlreadyJoined
    | InvalidRoomCode
    | InvalidQuestionIndex
    | QuestionNotActive
    | AlreadyAnswered

  datatype Result<T> = Ok(value: T) | Err(error: TriviaError)

  datatype Player = Player(
    playerAddress: Address,
    displayName: Bytes32,
    score: nat,
    currentStreak: nat,
    correctAnswers: nat,
    isActive: bool)

  datatype Answer = Answer(
    answerHash: Bytes32,
    submitTime: nat,
    isCorrect: bool,
    pointsEarned: nat)

  /** One session; `answers` is keyed by (question index, player address). */
  datatype GameSession = GameSession(
    sessionId: nat,
    host: Address,
    roomCode: Bytes32,
    status: Byte,
    startTime: nat,
    currentQuestionIndex: nat,
    questionStartTime: nat,
    questionDuration: nat,
    players: map<Address, Player>,
    playerList: seq<Address>,
    playerCount: nat,
    maxPlayers: nat,
    winner: Address,
    winningScore: nat,
    answers: map<(nat, Address), Answer>)

  /** The all-zero records a storage mapping yields for a key never written. */
  const NO_PLAYER: Player := Player(ZERO_ADDRESS, 0, 0, 0, 0, false)
  const NO_ANSWER: Answer := Answer(0, 0, false, 0)
  const NO_SESSION: GameSession :=
    GameSession(0, ZERO_ADDRESS, 0, CREATED, 0, 0, 0, 0, map[], [], 0, 0, ZERO_ADDRESS, 0, map[])

  function PlayerOf(s: GameSession, a: Address): Player {
    if a in s.players then s.players[a] else NO_PLAYER
  }

  function AnswerOf(s: GameSession, index: nat, a: Address): Answer {
    if (index, a) in s.answers then s.answers[(index, a)] else NO_ANSWER
  }

  function SessionIn(sessions: map<nat, GameSession>, id: nat): GameSession {
    if id in sessions then sessions[id] else NO_SESSION
  }
}
