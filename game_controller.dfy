/**
 * The single-player endpoints (app/Http/Controllers/Api/GameController.php):
 * answering one question alone, which records the answer, credits the
 * member, updates the member's progress in the question's category and may
 * raise the member's level; and the member's overall statistics.
 */
module GameController {
  import opened Basics
  import opened Questions
  import opened Scoring
  import opened Schema

  /** One row of `game_results`: an answer given outside any room. */
  datatype GameResult = GameResult(
    memberId: MemberId,
    questionId: QuestionId,
    categoryId: CategoryId,
    userAnswer: string,
    isCorrect: bool,
    timeTaken: Option<int>,
    scoreEarned: nat)

  /** The part of a `members` row the game changes. */
  datatype Member = Member(name: string, score: nat, level: int)

  /** One row of `category_progress` (unique per member and category). */
  datatype CategoryProgress = CategoryProgress(
    questionsAttempted: nat,
    questionsCorrect: nat,
    totalScore: nat,
    completionPercentage: real,
    lastPlayedAt: Option<Clock>)

  predicate ProgressValid(progress: map<(MemberId, CategoryId), CategoryProgress>) {
    forall k :: k in progress ==>
      progress[k].questionsCorrect <= progress[k].questionsAttempted
      && 0.0 <= progress[k].completionPercentage <= 100.0
  }

  /** The `game_results` rows of member `m`, in table order. */
  function ResultsOf(results: seq<GameResult>, m: MemberId): (mine: seq<GameResult>)
    ensures |mine| <= |results|
    ensures forall g :: g in mine ==> g in results && g.memberId == m
  {
    if results == [] then []
    else
      var last := results[|results| - 1];
      ResultsOf(results[..|results| - 1], m) + (if last.memberId == m then [last] else [])
  }

  /** The rows of category `c`, in table order. */
  function InCategory(results: seq<GameResult>, c: CategoryId): (rows: seq<GameResult>)
    ensures |rows| <= |results|
    ensures forall g :: g in rows ==> g in results && g.categoryId == c
  {
    if results == [] then []
    else
      var last := results[|results| - 1];
      InCategory(results[..|results| - 1], c) + (if last.categoryId == c then [last] else [])
  }

  /** `ResultsOf` keeps every row of the member, as often as the table holds it, and no other row. */
  lemma {:induction false} ResultsOfExact(results: seq<GameResult>, m: MemberId)
    ensures forall g :: g in results && g.memberId == m ==> g in ResultsOf(results, m)
    ensures forall g :: multiset(ResultsOf(results, m))[g] == if g.memberId == m then multiset(results)[g] else 0
  {
    if results != [] {
      var init := results[..|results| - 1];
      ResultsOfExact(init, m);
      assert results == init + [results[|results| - 1]];
    }
  }

  /** `InCategory` keeps every row of the category, as often as the table holds it, and no other row. */
  lemma {:induction false} InCategoryExact(results: seq<GameResult>, c: CategoryId)
    ensures forall g :: g in results && g.categoryId == c ==> g in InCategory(results, c)
    ensures forall g :: multiset(InCategory(results, c))[g] == if g.categoryId == c then multiset(results)[g] else 0
  {
    if results != [] {
      var init := results[..|results| - 1];
      InCategoryExact(init, c);
      assert results == init + [results[|results| - 1]];
    }
  }

  /** `where('is_correct', true)->count()`. */
  function CorrectCount(results: seq<GameResult>): (n: nat)
    ensures n <= |results|
  {
    if results == [] then 0
    else CorrectCount(results[..|results| - 1]) + (if results[|results| - 1].isCorrect then 1 else 0)
  }

  /** `sum('score_earned')`. */
  function ScoreTotal(results: seq<GameResult>): nat {
    if results == [] then 0
    else ScoreTotal(results[..|results| - 1]) + results[|results| - 1].scoreEarned
  }

  /** The rows member `m` answered in category `c`. */
  function Tally(results: seq<GameResult>, m: MemberId, c: CategoryId): seq<GameResult> {
    InCategory(ResultsOf(results, m), c)
  }

  /**
   * Each `category_progress` row sums up exactly the member's `game_results`
   * rows in that category, and every such row has its progress row.
   */
  predicate ProgressTallies(progress: map<(MemberId, CategoryId), CategoryProgress>, results: seq<GameResult>) {
    && (forall k {:trigger TalliesRow(progress[k], results, k)} :: k in progress ==> TalliesRow(progress[k], results, k))
    && (forall i :: 0 <= i < |results| ==> (results[i].memberId, results[i].categoryId) in progress)
  }

  /** Appending one row adds it to exactly the tallies of its own member and category. */
  lemma TallyAppend(results: seq<GameResult>, g: GameResult, m: MemberId, c: CategoryId)
    ensures Tally(results + [g], m, c) == Tally(results, m, c) + (if g.memberId == m && g.categoryId == c then [g] else [])
  {
    var s := results + [g];
    assert s[..|s| - 1] == results;
    var mine := ResultsOf(results, m);
    if g.memberId == m {
      assert (mine + [g])[..|mine + [g]| - 1] == mine;
    } else {
      assert ResultsOf(s, m) == mine;
    }
  }

  lemma CountsAppend(rows: seq<GameResult>, g: GameResult)
    ensures CorrectCount(rows + [g]) == CorrectCount(rows) + (if g.isCorrect then 1 else 0)
    ensures ScoreTotal(rows + [g]) == ScoreTotal(rows) + g.scoreEarned
  {
    assert (rows + [g])[..|rows|] == rows;
  }

  /** A member and category without any row have an empty tally. */
  lemma {:induction false} UnrecordedTallyEmpty(results: seq<GameResult>, m: MemberId, c: CategoryId)
    requires forall i :: 0 <= i < |results| ==> (results[i].memberId, results[i].categoryId) != (m, c)
    ensures Tally(results, m, c) == []
  {
    if results != [] {
      var init := results[..|results| - 1];
      var last := results[|results| - 1];
      assert forall i :: 0 <= i < |init| ==> init[i] == results[i];
      UnrecordedTallyEmpty(init, m, c);
      TallyAppend(init, last, m, c);
      assert init + [last] == results;
    }
  }

  /**
   * Recording answer `g` on its progress row (created with zero counters when
   * missing) keeps every progress row equal to the tally of its results.
   */
  lemma RecordKeepsTallies(progress: map<(MemberId, CategoryId), CategoryProgress>, results: seq<GameResult>,
                           g: GameResult, row: CategoryProgress)
    requires ProgressTallies(progress, results)
    requires var k := (g.memberId, g.categoryId);
      && row.questionsAttempted == (if k in progress then progress[k].questionsAttempted else 0) + 1
      && row.questionsCorrect == (if k in progress then progress[k].questionsCorrect else 0) + (if g.isCorrect then 1 else 0)
      && row.totalScore == (if k in progress then progress[k].totalScore else 0) + g.scoreEarned
    ensures ProgressTallies(progress[(g.memberId, g.categoryId) := row], results + [g])
  {
    RecordKeepsRowTallies(progress, results, g, row);
    RecordKeepsKeys(progress, results, g, row);
  }

  /** The rows half of `RecordKeepsTallies`: every progress row still tallies its results. */
  lemma RecordKeepsRowTallies(progress: map<(MemberId, CategoryId), CategoryProgress>, results: seq<GameResult>,
                              g: GameResult, row: CategoryProgress)
    requires ProgressTallies(progress, results)
    requires var k := (g.memberId, g.categoryId);
      && row.questionsAttempted == (if k in progress then progress[k].questionsAttempted else 0) + 1
      && row.questionsCorrect == (if k in progress then progress[k].questionsCorrect else 0) + (if g.isCorrect then 1 else 0)
      && row.totalScore == (if k in progress then progress[k].totalScore else 0) + g.scoreEarned
    ensures var p := progress[(g.memberId, g.categoryId) := row];
      forall k' {:trigger TalliesRow(p[k'], results + [g], k')} :: k' in p ==> TalliesRow(p[k'], results + [g], k')
  {
    var p := progress[(g.memberId, g.categoryId) := row];
    var s := results + [g];
    var k := (g.memberId, g.categoryId);
    var before := if k in progress then progress[k] else CategoryProgress(0, 0, 0, 0.0, None);
    if k !in progress {
      UnrecordedTallyEmpty(results, k.0, k.1);
    }
    RecordGrowsOwnTally(before, row, results, g);
    forall k' | k' in p ensures TalliesRow(p[k'], s, k') {
      if k' != k {
        RecordKeepsOtherTally(progress[k'], results, g, k');
      }
    }
  }

  /** The keys half of `RecordKeepsTallies`: every result row still has its progress row. */
  lemma RecordKeepsKeys(progress: map<(MemberId, CategoryId), CategoryProgress>, results: seq<GameResult>,
                        g: GameResult, row: CategoryProgress)
    requires forall i :: 0 <= i < |results| ==> (results[i].memberId, results[i].categoryId) in progress
    ensures var p := progress[(g.memberId, g.categoryId) := row];
      var s := results + [g];
      forall i :: 0 <= i < |s| ==> (s[i].memberId, s[i].categoryId) in p
  {
    var p := progress[(g.memberId, g.categoryId) := row];
    var s := results + [g];
    forall i | 0 <= i < |s| ensures (s[i].memberId, s[i].categoryId) in p {
      if i < |results| {
        assert s[i] == results[i];
      }
    }
  }

  /** Progress row `row` of member and category `k` sums up exactly their rows of `results`. */
  predicate TalliesRow(row: CategoryProgress, results: seq<GameResult>, k: (MemberId, CategoryId)) {
    var rows := Tally(results, k.0, k.1);
    row.questionsAttempted == |rows| && row.questionsCorrect == CorrectCount(rows) && row.totalScore == ScoreTotal(rows)
  }

  /** Another member's or category's tally is not touched by appending `g`. */
  lemma RecordKeepsOtherTally(row: CategoryProgress, results: seq<GameResult>, g: GameResult, k: (MemberId, CategoryId))
    requires TalliesRow(row, results, k) && k != (g.memberId, g.categoryId)
    ensures TalliesRow(row, results + [g], k)
  {
    TallyAppend(results, g, k.0, k.1);
    assert Tally(results, k.0, k.1) + [] == Tally(results, k.0, k.1);
  }

  /** `g`'s own tally grows by `g`: one more attempt, one more correct answer when it is correct, its score. */
  lemma RecordGrowsOwnTally(before: CategoryProgress, row: CategoryProgress, results: seq<GameResult>, g: GameResult)
    requires TalliesRow(before, results, (g.memberId, g.categoryId))
    requires row.questionsAttempted == before.questionsAttempted + 1
    requires row.questionsCorrect == before.questionsCorrect + (if g.isCorrect then 1 else 0)
    requires row.totalScore == before.totalScore + g.scoreEarned
    ensures TalliesRow(row, results + [g], (g.memberId, g.categoryId))
  {
    var rows := Tally(results, g.memberId, g.categoryId);
    TallyAppend(results, g, g.memberId, g.categoryId);
    assert Tally(results + [g], g.memberId, g.categoryId) == rows + [g];
    CountsAppend(rows, g);
  }

  /**
   * The tables single-player answering writes: the members' score and level,
   * `category_progress` keyed by member and category, and `game_results` in
   * insertion order. Every progress row stays within its bounds and sums up
   * exactly the member's results in its category.
   */
  class SoloRecords {
    var members: map<MemberId, Member>
    var progress: map<(MemberId, CategoryId), CategoryProgress>
    var gameResults: seq<GameResult>
    /** The question bank: read, never written. */
    const questions: map<QuestionId, Question>

    ghost predicate Valid()
      reads this
    {
      ProgressValid(progress) && ProgressTallies(progress, gameResults)
    }

    constructor (questions: map<QuestionId, Question>, members: map<MemberId, Member>)
      ensures Valid()
      ensures this.questions == questions && this.members == members && progress == map[] && gameResults == []
    {
      this.questions := questions;
      this.members := members;
      progress := map[];
      gameResults := [];
    }
  }

  const PointsPerLevel := 100

  /** The level a score earns: level 1 below 100 points, one more for every further 100 (`floor($score / 100) + 1`). */
  function LevelFor(score: nat): (level: int)
    ensures level >= 1
    ensures (level - 1) * PointsPerLevel <= score < level * PointsPerLevel
  {
    score / PointsPerLevel + 1
  }

  /** A higher score never earns a lower level. */
  lemma LevelForMonotone(a: nat, b: nat)
    requires a <= b
    ensures LevelFor(a) <= LevelFor(b)
  {
  }

  /**
   * `checkLevelUp`: the member's level becomes the level their score earns
   * when that is higher, and stays as it is otherwise.
   */
  method CheckLevelUp(db: SoloRecords, m: MemberId)
    requires m in db.members
    modifies db`members
    ensures m in db.members
    ensures var before := old(db.members)[m];
      && db.members == old(db.members)[m := before.(level := db.members[m].level)]
      && db.members[m].level >= before.level
      && db.members[m].level >= LevelFor(before.score)
      && (db.members[m].level == before.level || db.members[m].level == LevelFor(before.score))
  {
    var member := db.members[m];
    var newLevel := LevelFor(member.score);
    if newLevel > member.level {
      db.members := db.members[m := member.(level := newLevel)];
    }
  }

  /**
   * `completion_percentage` of a progress row: the share of correct answers
   * among the attempted ones, as a percentage. It is computed only after the
   * attempt has been counted, so there is always at least one attempt.
   */
  function CompletionPercentage(correct: nat, attempted: nat): (pct: real)
    requires 1 <= attempted && correct <= attempted
    ensures 0.0 <= pct <= 100.0
    ensures pct * attempted as real == correct as real * 100.0
  {
    (correct as real / attempted as real) * 100.0
  }

  /** `CategoryProgress::firstOrCreate(...)`: the member's row for the category, or a new one with zero counters. */
  function ProgressOrNew(progress: map<(MemberId, CategoryId), CategoryProgress>, k: (MemberId, CategoryId)): (row: CategoryProgress)
    ensures k in progress ==> row == progress[k]
    ensures k !in progress ==> row.questionsAttempted == 0 && row.questionsCorrect == 0 && row.totalScore == 0
  {
    if k in progress then progress[k] else CategoryProgress(0, 0, 0, 0.0, None)
  }

  /** A progress row after one more answer worth `score` points. */
  function Recorded(row: CategoryProgress, isCorrect: bool, score: nat, now: Clock): (next: CategoryProgress)
    requires row.questionsCorrect <= row.questionsAttempted
    ensures next.questionsAttempted == row.questionsAttempted + 1
    ensures next.questionsCorrect == row.questionsCorrect + (if isCorrect then 1 else 0)
    ensures next.questionsCorrect <= next.questionsAttempted
    ensures next.totalScore == row.totalScore + score
    ensures next.completionPercentage == CompletionPercentage(next.questionsCorrect, next.questionsAttempted)
    ensures next.lastPlayedAt == Some(now)
  {
    var attempted := row.questionsAttempted + 1;
    var correct := row.questionsCorrect + (if isCorrect then 1 else 0);
    CategoryProgress(attempted, correct, row.totalScore + score, CompletionPercentage(correct, attempted), Some(now))
  }

  /**
   * Counting answer `g` on its progress row, created with zero counters when
   * missing, keeps every row within its bounds and equal to the tally of the
   * member's results in that category.
   */
  lemma RecordKeepsProgress(progress: map<(MemberId, CategoryId), CategoryProgress>, results: seq<GameResult>,
                            g: GameResult, row: CategoryProgress, now: Clock)
    requires ProgressValid(progress) && ProgressTallies(progress, results)
    requires var k := (g.memberId, g.categoryId);
      row == Recorded(ProgressOrNew(progress, k), g.isCorrect, g.scoreEarned, now)
    ensures ProgressValid(progress[(g.memberId, g.categoryId) := row])
    ensures ProgressTallies(progress[(g.memberId, g.categoryId) := row], results + [g])
  {
    RecordKeepsTallies(progress, results, g, row);
  }

  /** What the single-player `submitAnswer` reports back. */
  datatype SoloFeedback = SoloFeedback(
    isCorrect: bool,
    scoreEarned: nat,
    correctAnswer: string,
    explanation: Option<string>,
    memberScore: nat,
    memberLevel: int)

  /**
   * `submitAnswer` (single player): grades the answer to question `qid`,
   * records it in `game_results`, adds its points to the member's score,
   * counts it on the member's progress row of the question's category
   * (created when missing) and then applies `checkLevelUp`.
   */
  method SubmitAnswer(db: SoloRecords, m: MemberId, qid: QuestionId, userAnswer: string, timeTaken: Option<int>, now: Clock)
    returns (res: Result<SoloFeedback>)
    requires db.Valid() && m in db.members
    modifies db`gameResults, db`members, db`progress
    ensures db.Valid() && m in db.members
    ensures res.Err? <==> qid !in db.questions || !ValidAnswerRequest(userAnswer, timeTaken)
    ensures res.Err? ==> res.error == ValidationFailed
    ensures res.Err? ==>
      db.gameResults == old(db.gameResults) && db.members == old(db.members) && db.progress == old(db.progress)
    ensures res.Ok? ==>
      var q := db.questions[qid];
      var k := (m, q.categoryId);
      var before := old(db.members)[m];
      var fb := res.value;
      && (fb.isCorrect <==> IsCorrectAnswer(userAnswer, q.correctAnswer))
      && fb.scoreEarned == ScoreEarned(fb.isCorrect, timeTaken, SoloQuickSeconds)
      && fb.correctAnswer == q.correctAnswer && fb.explanation == q.explanation
      && db.gameResults == old(db.gameResults) + [GameResult(m, qid, q.categoryId, userAnswer, fb.isCorrect,
                                                             timeTaken, fb.scoreEarned)]
      && db.members == old(db.members)[m := before.(score := before.score + fb.scoreEarned, level := db.members[m].level)]
      && db.members[m].level >= before.level
      && db.members[m].level >= LevelFor(db.members[m].score)
      && (db.members[m].level == before.level || db.members[m].level == LevelFor(db.members[m].score))
      && fb.memberScore == db.members[m].score && fb.memberLevel == db.members[m].level
      && db.progress == old(db.progress)[k := Recorded(ProgressOrNew(old(db.progress), k), fb.isCorrect, fb.scoreEarned, now)]
  {
    if qid !in db.questions || !ValidAnswerRequest(userAnswer, timeTaken) {
      return Err(ValidationFailed);
    }
    var q := db.questions[qid];
    var isCorrect := IsCorrectAnswer(userAnswer, q.correctAnswer);
    var score := ScoreEarned(isCorrect, timeTaken, SoloQuickSeconds);
    var result := GameResult(m, qid, q.categoryId, userAnswer, isCorrect, timeTaken, score);
    var k := (m, q.categoryId);
    var row := Recorded(ProgressOrNew(db.progress, k), isCorrect, score, now);
    RecordKeepsProgress(db.progress, db.gameResults, result, row, now);
    db.gameResults := db.gameResults + [result];
    var member := db.members[m];
    var credited := member.(score := member.score + score);
    ghost var before := db.members;
    db.members := db.members[m := credited];
    db.progress := db.progress[k := row];
    CheckLevelUp(db, m);
    assert db.members == before[m := credited.(level := db.members[m].level)] by {
      assert db.members == before[m := credited][m := credited.(level := db.members[m].level)];
    }
    res := Ok(SoloFeedback(isCorrect, score, q.correctAnswer, q.explanation, db.members[m].score, db.members[m].level));
  }

  /** What `getStats` reports. */
  datatype Stats = Stats(
    totalQuestionsAttempted: nat,
    totalCorrectAnswers: nat,
    totalScore: nat,
    currentLevel: int,
    accuracyRate: real)

  /**
   * `getStats` (before its rounding to two decimals): the member's answers
   * and correct answers over all `game_results`, their score and level, and
   * the share of correct answers as a percentage, 0 before any answer.
   */
  function GetStats(members: map<MemberId, Member>, results: seq<GameResult>, m: MemberId): (st: Stats)
    requires m in members
    ensures st.totalQuestionsAttempted == |ResultsOf(results, m)|
    ensures st.totalCorrectAnswers == CorrectCount(ResultsOf(results, m))
    ensures st.totalCorrectAnswers <= st.totalQuestionsAttempted
    ensures st.totalScore == members[m].score && st.currentLevel == members[m].level
    ensures st.totalQuestionsAttempted == 0 ==> st.accuracyRate == 0.0
    ensures st.totalQuestionsAttempted > 0 ==>
      st.accuracyRate == CompletionPercentage(st.totalCorrectAnswers, st.totalQuestionsAttempted)
    ensures 0.0 <= st.accuracyRate <= 100.0
  {
    var mine := ResultsOf(results, m);
    var attempted := |mine|;
    var correct := CorrectCount(mine);
    if attempted > 0 then
      var rate := CompletionPercentage(correct, attempted);
      Stats(attempted, correct, members[m].score, members[m].level, rate)
    else
      Stats(attempted, correct, members[m].score, members[m].level, 0.0)
  }

  /** The member's rows of `game_results` grow by exactly the answers the member records. */
  lemma ResultsOfAppend(results: seq<GameResult>, g: GameResult, m: MemberId)
    ensures ResultsOf(results + [g], m) == ResultsOf(results, m) + (if g.memberId == m then [g] else [])
  {
    assert (results + [g])[..|results|] == results;
  }

  /**
   * Recording one answer of member `m` raises `m`'s attempted count by one
   * and `m`'s correct count by one exactly when the answer is correct; the
   * statistics of every other member stay as they were.
   */
  lemma StatsAfterAnswer(members: map<MemberId, Member>, results: seq<GameResult>, g: GameResult, m: MemberId)
    requires m in members
    ensures var before := GetStats(members, results, m);
      var after := GetStats(members, results + [g], m);
      && (g.memberId == m ==>
            after.totalQuestionsAttempted == before.totalQuestionsAttempted + 1
            && after.totalCorrectAnswers == before.totalCorrectAnswers + (if g.isCorrect then 1 else 0))
      && (g.memberId != m ==> after == before)
  {
    ResultsOfAppend(results, g, m);
    CountsAppend(ResultsOf(results, m), g);
    assert ResultsOf(results, m) + [] == ResultsOf(results, m);
  }
}
