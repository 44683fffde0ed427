/** The point computation that submit_answer performs inline, lifted into pure functions. */
module Scoring {
  import opened TriviaTypes

  /** Seconds since the question started. A clock that reads earlier than the start
      counts as no time elapsed (block timestamps never decrease, so it does not arise). */
  function Elapsed(now: nat, start: nat): nat {
    if now >= start then now - start else 0
  }

  /** Bonus for answering early: (limit - rt) * 50 / limit while rt < limit, else 0.
      There is no division when the limit is 0, because rt < 0 never holds. */
  function TimeBonus(responseTime: nat, timeLimit: nat): (b: nat)
    ensures b <= 50
    ensures responseTime >= timeLimit ==> b == 0
    ensures responseTime == 0 && timeLimit > 0 ==> b == 50
  {
    if responseTime < timeLimit then (timeLimit - responseTime) * 50 / timeLimit
    else 0
  }

  /** Percentage multiplier: 100 for difficulty 0, 150 for 1, 200 for every other value. */
  function DifficultyMultiplier(difficulty: Byte): (m: nat)
    ensures 100 <= m <= 200
    ensures difficulty >= 2 ==> m == 200
  {
    if difficulty == 0 then 100 else if difficulty == 1 then 150 else 200
  }

  function BasePoints(isCorrect: bool): nat {
    if isCorrect then 100 else 0
  }

  function NewStreak(isCorrect: bool, priorStreak: nat): nat {
    if isCorrect then priorStreak + 1 else 0
  }

  function StreakBonus(isCorrect: bool, newStreak: nat): nat {
    if isCorrect && newStreak >= 2 then newStreak * 10 else 0
  }

  /** Points earned by one submission. */
  function Points(isCorrect: bool, responseTime: nat, timeLimit: nat, difficulty: Byte, priorStreak: nat): (p: nat)
    ensures !isCorrect ==> p <= 100
    ensures isCorrect ==> 100 <= p
  {
    var m := DifficultyMultiplier(difficulty);
    var tb := TimeBonus(responseTime, timeLimit);
    RawPointsBounds(isCorrect, tb, m);
    (BasePoints(isCorrect) + tb) * m / 100 + StreakBonus(isCorrect, NewStreak(isCorrect, priorStreak))
  }

  // ---------------------------------------------------------------------------
  // Arithmetic helpers

  lemma MulLtCancel(a: nat, b: nat, d: nat)
    requires a * d < b * d
    ensures a < b
  {
  }

  lemma LeDiv(k: nat, d: nat, y: nat)
    requires d > 0 && k * d <= y
    ensures k <= y / d
  {
    assert y < (y / d + 1) * d;
    MulLtCancel(k, y / d + 1, d);
  }

  lemma DivMonotone(x: nat, y: nat, d: nat)
    requires d > 0 && x <= y
    ensures x / d <= y / d
  {
    assert (x / d) * d <= x;
    LeDiv(x / d, d, y);
  }

  lemma RawPointsBounds(isCorrect: bool, tb: nat, m: nat)
    requires tb <= 50 && 100 <= m <= 200
    ensures !isCorrect ==> (BasePoints(isCorrect) + tb) * m / 100 <= 100
    ensures isCorrect ==> 100 <= (BasePoints(isCorrect) + tb) * m / 100
  {
  }

  /** Raising either factor never lowers a scaled product. */
  lemma MulDivMonotone(a: nat, b: nat, m: nat, n: nat)
    requires a <= b && m <= n
    ensures a * m / 100 <= b * n / 100
  {
    assert a * m <= b * m <= b * n;
    DivMonotone(a * m, b * n, 100);
  }

  // ---------------------------------------------------------------------------
  // Properties of the scoring rule

  /** An answer given sooner never earns a smaller time bonus. */
  lemma TimeBonusAntitone(rt1: nat, rt2: nat, timeLimit: nat)
    requires rt1 <= rt2
    ensures TimeBonus(rt1, timeLimit) >= TimeBonus(rt2, timeLimit)
  {
    if rt2 < timeLimit {
      assert (timeLimit - rt2) * 50 <= (timeLimit - rt1) * 50;
      DivMonotone((timeLimit - rt2) * 50, (timeLimit - rt1) * 50, timeLimit);
    }
  }

  /** With everything else fixed, answering sooner never earns fewer points. */
  lemma FasterAnswerEarnsAtLeastAsMuch(isCorrect: bool, rt1: nat, rt2: nat, timeLimit: nat, difficulty: Byte, priorStreak: nat)
    requires rt1 <= rt2
    ensures Points(isCorrect, rt1, timeLimit, difficulty, priorStreak) >= Points(isCorrect, rt2, timeLimit, difficulty, priorStreak)
  {
    TimeBonusAntitone(rt1, rt2, timeLimit);
    var m := DifficultyMultiplier(difficulty);
    MulDivMonotone(BasePoints(isCorrect) + TimeBonus(rt2, timeLimit), BasePoints(isCorrect) + TimeBonus(rt1, timeLimit), m, m);
  }

  /** A harder question (larger multiplier) never earns fewer points. */
  lemma HarderQuestionEarnsAtLeastAsMuch(isCorrect: bool, responseTime: nat, timeLimit: nat, d1: Byte, d2: Byte, priorStreak: nat)
    requires DifficultyMultiplier(d1) <= DifficultyMultiplier(d2)
    ensures Points(isCorrect, responseTime, timeLimit, d1, priorStreak) <= Points(isCorrect, responseTime, timeLimit, d2, priorStreak)
  {
  }

  /** A correct answer earns the full multiplier plus any streak bonus more than an
      incorrect one submitted at the same moment. */
  lemma CorrectAnswerEarnsMore(responseTime: nat, timeLimit: nat, difficulty: Byte, priorStreak: nat)
    ensures Points(true, responseTime, timeLimit, difficulty, priorStreak)
         == Points(false, responseTime, timeLimit, difficulty, priorStreak)
            + DifficultyMultiplier(difficulty)
            + StreakBonus(true, priorStreak + 1)
  {
  }

  /** An incorrect answer still earns the scaled time bonus: answering instantly
      under a positive limit gives at least 50 points, and no streak bonus. */
  lemma IncorrectAnswerEarnsTimeBonus(responseTime: nat, timeLimit: nat, difficulty: Byte, priorStreak: nat)
    ensures Points(false, responseTime, timeLimit, difficulty, priorStreak)
         == TimeBonus(responseTime, timeLimit) * DifficultyMultiplier(difficulty) / 100
    ensures responseTime == 0 && timeLimit > 0 ==> Points(false, responseTime, timeLimit, difficulty, priorStreak) >= 50
    ensures responseTime >= timeLimit ==> Points(false, responseTime, timeLimit, difficulty, priorStreak) == 0
  {
  }

  /** The streak bonus starts with the second consecutive correct answer and is ten
      points per answer in the streak. */
  lemma StreakBonusFromSecondCorrectAnswer(responseTime: nat, timeLimit: nat, difficulty: Byte, priorStreak: nat)
    ensures Points(true, responseTime, timeLimit, difficulty, priorStreak)
         == Points(true, responseTime, timeLimit, difficulty, 0)
            + (if priorStreak >= 1 then (priorStreak + 1) * 10 else 0)
  {
  }

  /** Worked values: an instant correct Easy answer under a 10-second limit (150),
      a second correct Easy answer at the limit (120), and a first correct Hard answer
      after 5 of 30 seconds (282). */
  lemma WorkedExamples()
    ensures Points(true, 0, 10, 0, 0) == 150
    ensures Points(true, 10, 10, 0, 1) == 120
    ensures Points(true, 5, 30, 2, 0) == 282
  {
  }
}
