/**
 * Grading and scoring of one submitted answer. Both answer endpoints grade the
 * same way; they differ only in the time under which a correct answer earns
 * the quick-answer bonus (15 seconds in a game room, 30 seconds alone).
 */
module Scoring {
  import opened Basics
  import opened Text

  const BasePoints := 10
  const QuickBonus := 5
  /** Bonus threshold of the multiplayer endpoint (GameRoomController::submitAnswer). */
  const RoomQuickSeconds := 15
  /** Bonus threshold of the single-player endpoint (GameController::submitAnswer). */
  const SoloQuickSeconds := 30

  /** The validation rules of both answer endpoints: a non-blank answer and a time that is not negative. */
  predicate ValidAnswerRequest(userAnswer: string, timeTaken: Option<int>) {
    !IsBlank(userAnswer) && (timeTaken.None? || timeTaken.value >= 0)
  }

  /** The answer key both endpoints compare: lower-cased, trimmed text. */
  function AnswerKey(s: string): string {
    Lower(Trim(s))
  }

  /** `strtolower(trim($answer)) === strtolower(trim($correct))`. */
  predicate IsCorrectAnswer(userAnswer: string, correctAnswer: string) {
    AnswerKey(userAnswer) == AnswerKey(correctAnswer)
  }

  /** PHP truthiness of `$time_taken` (null and 0 are false) followed by `< limit`. */
  predicate IsQuick(timeTaken: Option<int>, limit: int) {
    timeTaken.Some? && timeTaken.value != 0 && timeTaken.value < limit
  }

  /** Points for one answer: 10 when correct, 5 more when also quick, nothing when wrong. */
  function ScoreEarned(isCorrect: bool, timeTaken: Option<int>, limit: int): (score: nat)
    ensures score == 0 || score == BasePoints || score == BasePoints + QuickBonus
    ensures score == 0 <==> !isCorrect
    ensures score == BasePoints + QuickBonus <==> isCorrect && IsQuick(timeTaken, limit)
  {
    var base := if isCorrect then BasePoints else 0;
    if isCorrect && IsQuick(timeTaken, limit) then base + QuickBonus else base
  }

  /** Grading ignores surrounding whitespace: a padded answer is graded like the bare one. */
  lemma GradingIgnoresPadding(before: string, answer: string, after: string, correctAnswer: string)
    requires AllTrimmable(before) && AllTrimmable(after)
    ensures IsCorrectAnswer(before + answer + after, correctAnswer) == IsCorrectAnswer(answer, correctAnswer)
  {
    TrimIgnoresPadding(before, answer, after);
  }

  /** Grading ignores letter case: shouting the answer is graded like the answer itself. */
  lemma GradingIgnoresCase(answer: string, correctAnswer: string)
    ensures IsCorrectAnswer(Upper(answer), correctAnswer) == IsCorrectAnswer(answer, correctAnswer)
  {
    TrimUpper(answer);
    LowerOfUpper(Trim(answer));
  }

  /** The room bonus window lies inside the single-player one, so every room bonus is also a solo bonus. */
  lemma RoomBonusImpliesSoloBonus(isCorrect: bool, timeTaken: Option<int>)
    ensures ScoreEarned(isCorrect, timeTaken, RoomQuickSeconds) <= ScoreEarned(isCorrect, timeTaken, SoloQuickSeconds)
    ensures ScoreEarned(isCorrect, Some(20), RoomQuickSeconds) < ScoreEarned(isCorrect, Some(20), SoloQuickSeconds) <==> isCorrect
  {
  }
}
