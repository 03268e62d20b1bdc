/**
 * The game-session endpoints (app/Http/Controllers/Api/GameSessionController.php):
 * the owner's round control (next, skip, pause, resume and the shared finish
 * step) as in-place updates of the `Database`, and the read-only views a
 * player asks for (game state, results of the current question, summary).
 */
module SessionController {
  import opened Basics
  import opened Questions
  import opened Players
  import opened Rooms
  import opened Schema

  /** The questions already answered in room `r`: `pluck('question_id')` over its result rows. */
  function UsedQuestions(answers: seq<RoundAnswer>, r: RoomId): set<QuestionId> {
    set i | 0 <= i < |answers| && answers[i].roomId == r :: answers[i].questionId
  }

  /** A question `nextQuestion` may pick: of the room's category and never answered in the room. */
  predicate Eligible(questions: map<QuestionId, Question>, c: CategoryId, used: set<QuestionId>, q: QuestionId) {
    q in questions && questions[q].categoryId == c && q !in used
  }

  predicate HasEligible(questions: map<QuestionId, Question>, c: CategoryId, used: set<QuestionId>) {
    exists q :: q in questions && Eligible(questions, c, used, q)
  }

  /** What `nextQuestion` reports: the new question and round, or that the game finished. */
  datatype Step = NextRound(questionId: QuestionId, round: int) | GameOver

  /** The room after `finishGame`: finished, with its end time set, and nothing else changed. */
  function Closed(room: Room, now: Clock): Room {
    room.(status := Finished, endedAt := Some(now))
  }

  /**
   * One advance of a playing room: it finishes, with its round unchanged,
   * when the last round has been played or no eligible question is left;
   * otherwise it moves to the next round on an eligible question.
   */
  predicate Advances(before: Room, after: Room, step: Step, used: set<QuestionId>,
                     questions: map<QuestionId, Question>, now: Clock) {
    if before.currentRound >= before.totalRounds || !HasEligible(questions, before.categoryId, used) then
      step == GameOver && after == Closed(before, now)
    else
      && step.NextRound?
      && Eligible(questions, before.categoryId, used, step.questionId)
      && step.round == before.currentRound + 1
      && after == before.(currentQuestionId := Some(step.questionId), currentRound := step.round)
  }

  /** Every room can be advanced: it either finishes or moves on to an eligible question. */
  lemma AdvanceAlwaysPossible(before: Room, used: set<QuestionId>, questions: map<QuestionId, Question>, now: Clock)
    ensures exists after, step :: Advances(before, after, step, used, questions, now)
  {
    if before.currentRound >= before.totalRounds || !HasEligible(questions, before.categoryId, used) {
      assert Advances(before, Closed(before, now), GameOver, used, questions, now);
    } else {
      var q :| q in questions && Eligible(questions, before.categoryId, used, q);
      var step := NextRound(q, before.currentRound + 1);
      assert Advances(before, before.(currentQuestionId := Some(q), currentRound := step.round), step, used, questions, now);
    }
  }

  /** A finished game keeps its round; an advanced one gains exactly one round and never passes the last. */
  lemma AdvanceKeepsRoundBound(before: Room, after: Room, step: Step, used: set<QuestionId>,
                               questions: map<QuestionId, Question>, now: Clock)
    requires Advances(before, after, step, used, questions, now)
    requires before.currentRound <= before.totalRounds
    ensures after.totalRounds == before.totalRounds && after.currentRound <= after.totalRounds
    ensures step == GameOver ==> after.currentRound == before.currentRound && after.status == Finished
    ensures step.NextRound? ==> after.currentRound == before.currentRound + 1 && after.status == before.status
  {
  }

  /** The next question is never one that somebody already answered in the room. */
  lemma AdvanceSkipsAnsweredQuestions(before: Room, after: Room, step: Step, answers: seq<RoundAnswer>, r: RoomId,
                                      questions: map<QuestionId, Question>, now: Clock)
    requires Advances(before, after, step, UsedQuestions(answers, r), questions, now)
    requires step.NextRound?
    ensures forall i :: 0 <= i < |answers| && answers[i].roomId == r ==> answers[i].questionId != step.questionId
  {
    forall i | 0 <= i < |answers| && answers[i].roomId == r ensures answers[i].questionId != step.questionId {
      assert answers[i].questionId in UsedQuestions(answers, r);
    }
  }

  /**
   * The advance as written: on an exhausted category `finishGame` runs inside
   * a transaction that is never committed, so the finish is rolled back when
   * the request ends and the room keeps playing, although the reply says the
   * game finished.
   */
  predicate AdvancesAsWritten(before: Room, after: Room, step: Step, used: set<QuestionId>,
                              questions: map<QuestionId, Question>, now: Clock) {
    if before.currentRound >= before.totalRounds then
      step == GameOver && after == Closed(before, now)
    else if !HasEligible(questions, before.categoryId, used) then
      step == GameOver && after == before
    else
      Advances(before, after, step, used, questions, now)
  }

  /** A playing room in round 1 of 3 whose category has no question left is reported over, yet stays playing. */
  lemma ExhaustedCategoryKeepsPlayingAsWritten()
    ensures var room := Room("quiz", "A1B2C3", Playing, 4, 1, 1, 9, Some(3), 1, 3, 30, Some(0), None);
      && AdvancesAsWritten(room, room, GameOver, {3}, map[], 5)
      && room.status == Playing
      && !Advances(room, room, GameOver, {3}, map[], 5)
  {
  }

  /** With the finish committed, a step reported as the end of the game always leaves the room finished. */
  lemma ReportedGameOverIsFinished(before: Room, after: Room, used: set<QuestionId>,
                                   questions: map<QuestionId, Question>, now: Clock)
    requires Advances(before, after, GameOver, used, questions, now)
    ensures after.status == Finished && after.endedAt == Some(now)
    ensures after.(status := before.status, endedAt := before.endedAt) == before
  {
  }

  /** `finishGame`: finishes room `r` and stamps its end time. */
  method FinishGame(db: Database, r: RoomId, now: Clock)
    requires db.Valid() && r in db.rooms
    modifies db`rooms
    ensures db.Valid()
    ensures db.rooms == old(db.rooms)[r := Closed(old(db.rooms)[r], now)]
  {
    var closed := Closed(db.rooms[r], now);
    RoomUpdateKeepsTables(db.rooms, db.nextRoomId, db.players, db.questions, r, closed);
    db.rooms := db.rooms[r := closed];
  }

  /**
   * `nextQuestion`: only the owner of a playing room may advance it; the room
   * then advances as `Advances` says, on some eligible question.
   */
  method NextQuestion(db: Database, r: RoomId, m: MemberId, now: Clock) returns (res: Result<Step>)
    requires db.Valid()
    modifies db`rooms
    ensures db.Valid()
    ensures r !in old(db.rooms) ==> res == Err(RoomNotFound)
    ensures r in old(db.rooms) ==>
      var room := old(db.rooms)[r];
      (res.Err? <==> !IsOwner(room, m) || room.status != Playing)
      && (res.Err? ==> res.error == if !IsOwner(room, m) then NotOwner else GameNotActive)
    ensures res.Err? ==> db.rooms == old(db.rooms)
    ensures res.Ok? ==>
      && r in db.rooms && db.rooms == old(db.rooms)[r := db.rooms[r]]
      && Advances(old(db.rooms)[r], db.rooms[r], res.value, UsedQuestions(db.answers, r), db.questions, now)
  {
    if r !in db.rooms {
      return Err(RoomNotFound);
    }
    var room := db.rooms[r];
    if !IsOwner(room, m) {
      return Err(NotOwner);
    }
    if room.status != Playing {
      return Err(GameNotActive);
    }
    if room.currentRound >= room.totalRounds {
      FinishGame(db, r, now);
      return Ok(GameOver);
    }
    var used := UsedQuestions(db.answers, r);
    if !HasEligible(db.questions, room.categoryId, used) {
      FinishGame(db, r, now);
      return Ok(GameOver);
    }
    var q :| q in db.questions && Eligible(db.questions, room.categoryId, used, q);
    var advanced := room.(currentQuestionId := Some(q), currentRound := room.currentRound + 1);
    RoomUpdateKeepsTables(db.rooms, db.nextRoomId, db.players, db.questions, r, advanced);
    db.rooms := db.rooms[r := advanced];
    res := Ok(NextRound(q, advanced.currentRound));
  }

  /** `skipQuestion`: the same guards as `nextQuestion`, then exactly its effect. */
  method SkipQuestion(db: Database, r: RoomId, m: MemberId, now: Clock) returns (res: Result<Step>)
    requires db.Valid()
    modifies db`rooms
    ensures db.Valid()
    ensures r !in old(db.rooms) ==> res == Err(RoomNotFound)
    ensures r in old(db.rooms) ==>
      var room := old(db.rooms)[r];
      (res.Err? <==> !IsOwner(room, m) || room.status != Playing)
      && (res.Err? ==> res.error == if !IsOwner(room, m) then NotOwner else GameNotActive)
    ensures res.Err? ==> db.rooms == old(db.rooms)
    ensures res.Ok? ==>
      && r in db.rooms && db.rooms == old(db.rooms)[r := db.rooms[r]]
      && Advances(old(db.rooms)[r], db.rooms[r], res.value, UsedQuestions(db.answers, r), db.questions, now)
  {
    if r !in db.rooms {
      return Err(RoomNotFound);
    }
    if !IsOwner(db.rooms[r], m) {
      return Err(NotOwner);
    }
    if db.rooms[r].status != Playing {
      return Err(GameNotActive);
    }
    res := NextQuestion(db, r, m, now);
  }

  /** `pauseGame`: the owner pauses a playing room, and nothing else. */
  method PauseGame(db: Database, r: RoomId, m: MemberId) returns (res: Outcome)
    requires db.Valid()
    modifies db`rooms
    ensures db.Valid()
    ensures r !in old(db.rooms) ==> res == Refused(RoomNotFound)
    ensures r in old(db.rooms) ==>
      var room := old(db.rooms)[r];
      res == if !IsOwner(room, m) then Refused(NotOwner)
             else if room.status != Playing then Refused(GameNotActive)
             else Done
    ensures res.Refused? ==> db.rooms == old(db.rooms)
    ensures res.Done? ==> db.rooms == old(db.rooms)[r := old(db.rooms)[r].(status := Paused)]
  {
    if r !in db.rooms {
      return Refused(RoomNotFound);
    }
    var room := db.rooms[r];
    if !IsOwner(room, m) {
      return Refused(NotOwner);
    }
    if room.status != Playing {
      return Refused(GameNotActive);
    }
    var paused := room.(status := Paused);
    RoomUpdateKeepsTables(db.rooms, db.nextRoomId, db.players, db.questions, r, paused);
    db.rooms := db.rooms[r := paused];
    res := Done;
  }

  /** `resumeGame`: the owner resumes a paused room, and nothing else. */
  method ResumeGame(db: Database, r: RoomId, m: MemberId) returns (res: Outcome)
    requires db.Valid()
    modifies db`rooms
    ensures db.Valid()
    ensures r !in old(db.rooms) ==> res == Refused(RoomNotFound)
    ensures r in old(db.rooms) ==>
      var room := old(db.rooms)[r];
      res == if !IsOwner(room, m) then Refused(NotOwner)
             else if room.status != Paused then Refused(GameNotPaused)
             else Done
    ensures res.Refused? ==> db.rooms == old(db.rooms)
    ensures res.Done? ==> db.rooms == old(db.rooms)[r := old(db.rooms)[r].(status := Playing)]
  {
    if r !in db.rooms {
      return Refused(RoomNotFound);
    }
    var room := db.rooms[r];
    if !IsOwner(room, m) {
      return Refused(NotOwner);
    }
    if room.status != Paused {
      return Refused(GameNotPaused);
    }
    var resumed := room.(status := Playing);
    RoomUpdateKeepsTables(db.rooms, db.nextRoomId, db.players, db.questions, r, resumed);
    db.rooms := db.rooms[r := resumed];
    res := Done;
  }

  /** Pausing and then resuming a playing room gives the room back exactly as it was. */
  lemma PauseThenResumeRestores(room: Room)
    requires room.status == Playing
    ensures room.(status := Paused).(status := Playing) == room
  {
  }

  // ----- Read-only views -----

  /** A player's figures as the views show them. */
  datatype PlayerStats = PlayerStats(
    currentScore: nat,
    answersCorrect: nat,
    answersIncorrect: nat,
    isReady: bool,
    accuracyRate: real)

  function StatsOf(p: Player): PlayerStats {
    PlayerStats(p.currentScore, p.answersCorrect, p.answersIncorrect, p.isReady, PlayerAccuracy(p))
  }

  /**
   * What a player may see of the current question: no answer, no
   * explanation. `difficulty` reads an attribute the question does not
   * have (its column is `difficulty_level`), so it is always null.
   */
  datatype QuestionView = QuestionView(id: QuestionId, questionText: string, options: Options, difficulty: Option<int>)

  datatype RoomView = RoomView(
    id: RoomId,
    name: string,
    status: Status,
    currentRound: int,
    totalRounds: int,
    timePerQuestion: int,
    startedAt: Option<Clock>)

  datatype GameState = GameState(
    room: RoomView,
    currentQuestion: Option<QuestionView>,
    players: map<MemberId, PlayerStats>,
    myStats: PlayerStats,
    hasAnsweredCurrentQuestion: Option<bool>)

  /** The room's current question, when its id is set and names a question. */
  function CurrentQuestion(room: Room, questions: map<QuestionId, Question>): (q: Option<QuestionId>)
    ensures q.Some? <==> room.currentQuestionId.Some? && room.currentQuestionId.value in questions
    ensures q.Some? ==> q.value == room.currentQuestionId.value
  {
    if room.currentQuestionId.Some? && room.currentQuestionId.value in questions then room.currentQuestionId else None
  }

  /** The active players of room `r`, by member, with their figures. */
  function ActivePlayerStats(players: PlayerTable, r: RoomId): (view: map<MemberId, PlayerStats>)
    ensures forall mm :: mm in view <==> IsActiveMember(players, r, mm)
    ensures forall mm :: mm in view ==> IsActiveMember(players, r, mm) && view[mm] == StatsOf(players[(r, mm)])
  {
    var seats := ActiveSeats(players, r);
    var view := map k | k in seats :: k.1 := StatsOf(players[k]);
    assert forall mm :: mm in view ==> (r, mm) in seats;
    assert forall mm :: IsActiveMember(players, r, mm) ==> (r, mm) in seats;
    view
  }

  /**
   * `getGameState`: for a member with a record in the room (left or not),
   * the room, the current question without its answer, the active players,
   * the member's own figures and, only while playing on an existing current
   * question, whether the member already answered it in this round.
   */
  function GetGameState(rooms: map<RoomId, Room>, players: PlayerTable, answers: seq<RoundAnswer>,
                        questions: map<QuestionId, Question>, r: RoomId, m: MemberId): (res: Result<GameState>)
    ensures r !in rooms ==> res == Err(RoomNotFound)
    ensures r in rooms ==> (res.Ok? <==> HasPlayer(players, r, m)) && (res.Err? ==> res.error == NotInRoom)
    ensures res.Ok? ==>
      var room := rooms[r];
      var st := res.value;
      && st.room == RoomView(r, room.name, room.status, room.currentRound, room.totalRounds, room.timePerQuestion, room.startedAt)
      && (forall mm :: mm in st.players <==> IsActiveMember(players, r, mm))
      && st.players == ActivePlayerStats(players, r)
      && st.myStats == StatsOf(players[(r, m)])
      && (st.currentQuestion.Some? <==> CurrentQuestion(room, questions).Some?)
      && (st.currentQuestion.Some? ==>
            var v := st.currentQuestion.value;
            CurrentQuestion(room, questions) == Some(v.id)
            && v.questionText == questions[v.id].questionText && v.options == questions[v.id].options
            && v.difficulty.None?)
      && (st.hasAnsweredCurrentQuestion.Some? <==> room.status == Playing && CurrentQuestion(room, questions).Some?)
      && (st.hasAnsweredCurrentQuestion.Some? ==>
            st.hasAnsweredCurrentQuestion.value
            == HasAnswered(answers, r, m, room.currentQuestionId.value, room.currentRound))
  {
    if r !in rooms then Err(RoomNotFound)
    else if !HasPlayer(players, r, m) then Err(NotInRoom)
    else
      var room := rooms[r];
      var cq := CurrentQuestion(room, questions);
      var view := if cq.Some? then
                    Some(QuestionView(cq.value, questions[cq.value].questionText, questions[cq.value].options, None))
                  else None;
      var answered := if room.status == Playing && cq.Some? then
                        Some(HasAnswered(answers, r, m, cq.value, room.currentRound))
                      else None;
      Ok(GameState(
        RoomView(r, room.name, room.status, room.currentRound, room.totalRounds, room.timePerQuestion, room.startedAt),
        view, ActivePlayerStats(players, r), StatsOf(players[(r, m)]), answered))
  }

  /** The result rows of room `r` for question `q` in round `round`, in table order. */
  function RoundResults(answers: seq<RoundAnswer>, r: RoomId, q: QuestionId, round: int): (rows: seq<RoundAnswer>)
    ensures |rows| <= |answers|
    ensures forall a :: a in rows <==> a in answers && a.roomId == r && a.questionId == q && a.roundNumber == round
  {
    if answers == [] then []
    else
      var rest := RoundResults(answers[1..], r, q, round);
      assert forall a :: a in answers <==> a == answers[0] || a in answers[1..];
      var a := answers[0];
      if a.roomId == r && a.questionId == q && a.roundNumber == round then [a] + rest else rest
  }

  /** The result rows of member `m` in room `r`, over all rounds, in table order. */
  function MemberResults(answers: seq<RoundAnswer>, r: RoomId, m: MemberId): (rows: seq<RoundAnswer>)
    ensures |rows| <= |answers|
    ensures forall a :: a in rows <==> a in answers && a.roomId == r && a.memberId == m
  {
    if answers == [] then []
    else
      var rest := MemberResults(answers[1..], r, m);
      assert forall a :: a in answers <==> a == answers[0] || a in answers[1..];
      var a := answers[0];
      if a.roomId == r && a.memberId == m then [a] + rest else rest
  }

  /** `RoundResults` keeps every matching row, as often as the table holds it, and no other row. */
  lemma {:induction false} RoundResultsExact(answers: seq<RoundAnswer>, r: RoomId, q: QuestionId, round: int, x: RoundAnswer)
    ensures multiset(RoundResults(answers, r, q, round))[x]
            == if x.roomId == r && x.questionId == q && x.roundNumber == round then multiset(answers)[x] else 0
  {
    if answers != [] {
      var a := answers[0];
      RoundResultsExact(answers[1..], r, q, round, x);
      assert RoundResults(answers, r, q, round)
             == (if a.roomId == r && a.questionId == q && a.roundNumber == round then [a] else [])
                + RoundResults(answers[1..], r, q, round);
      assert answers == [a] + answers[1..];
    }
  }

  /** `MemberResults` keeps every row of the member in the room, as often as the table holds it, and no other row. */
  lemma {:induction false} MemberResultsExact(answers: seq<RoundAnswer>, r: RoomId, m: MemberId, x: RoundAnswer)
    ensures multiset(MemberResults(answers, r, m))[x]
            == if x.roomId == r && x.memberId == m then multiset(answers)[x] else 0
  {
    if answers != [] {
      var a := answers[0];
      MemberResultsExact(answers[1..], r, m, x);
      assert MemberResults(answers, r, m)
             == (if a.roomId == r && a.memberId == m then [a] else []) + MemberResults(answers[1..], r, m);
      assert answers == [a] + answers[1..];
    }
  }

  /** `where('is_correct', true)->count()`. */
  function CountCorrect(rows: seq<RoundAnswer>): (n: nat)
    ensures n == |set i | 0 <= i < |rows| && rows[i].isCorrect|
    ensures n <= |rows|
    ensures n == 0 <==> forall i :: 0 <= i < |rows| ==> !rows[i].isCorrect
  {
    if rows == [] then 0
    else
      var init := rows[..|rows| - 1];
      CorrectPositionsSplit(rows);
      CountCorrect(init) + (if rows[|rows| - 1].isCorrect then 1 else 0)
  }

  /** The correct positions of `rows` are those of all rows but the last, and the last one when it is correct. */
  lemma CorrectPositionsSplit(rows: seq<RoundAnswer>)
    requires rows != []
    ensures var init := rows[..|rows| - 1];
      |set i | 0 <= i < |rows| && rows[i].isCorrect|
        == |set i | 0 <= i < |init| && init[i].isCorrect| + (if rows[|rows| - 1].isCorrect then 1 else 0)
  {
    var init := rows[..|rows| - 1];
    var last := |rows| - 1;
    var before := set i | 0 <= i < |init| && init[i].isCorrect;
    var here: set<int> := if rows[last].isCorrect then {last} else {};
    assert (set i | 0 <= i < |rows| && rows[i].isCorrect) == before + here;
    assert before * here == {};
  }

  /** `min('time_taken')`: the smallest time recorded, ignoring null times; null when there is none. */
  function FastestTime(rows: seq<RoundAnswer>): (t: Option<int>)
    ensures t.None? <==> forall i :: 0 <= i < |rows| ==> rows[i].timeTaken.None?
    ensures t.Some? ==> exists i :: 0 <= i < |rows| && rows[i].timeTaken == t
    ensures t.Some? ==> forall i :: 0 <= i < |rows| && rows[i].timeTaken.Some? ==> t.value <= rows[i].timeTaken.value
  {
    if rows == [] then None
    else
      var rest := FastestTime(rows[1..]);
      var here := rows[0].timeTaken;
      if here.None? then rest
      else if rest.None? || here.value <= rest.value then here
      else rest
  }

  /** `max('time_taken')`: the largest time recorded, ignoring null times; null when there is none. */
  function SlowestTime(rows: seq<RoundAnswer>): (t: Option<int>)
    ensures t.None? <==> forall i :: 0 <= i < |rows| ==> rows[i].timeTaken.None?
    ensures t.Some? ==> exists i :: 0 <= i < |rows| && rows[i].timeTaken == t
    ensures t.Some? ==> forall i :: 0 <= i < |rows| && rows[i].timeTaken.Some? ==> rows[i].timeTaken.value <= t.value
  {
    if rows == [] then None
    else
      var rest := SlowestTime(rows[1..]);
      var here := rows[0].timeTaken;
      if here.None? then rest
      else if rest.None? || here.value >= rest.value then here
      else rest
  }

  datatype QuestionResults = QuestionResults(
    questionId: QuestionId,
    questionText: string,
    correctAnswer: string,
    explanation: Option<string>,
    results: seq<RoundAnswer>,
    totalAnswers: nat,
    correctAnswers: nat,
    fastestTime: Option<int>)

  /**
   * `getQuestionResults`: for a member with a record in the room, every answer
   * to the current question in the current round, with the answer revealed
   * and the counts. A room with no current question fails when its
   * question's fields are read.
   */
  function GetQuestionResults(rooms: map<RoomId, Room>, players: PlayerTable, answers: seq<RoundAnswer>,
                              questions: map<QuestionId, Question>, r: RoomId, m: MemberId): (res: Result<QuestionResults>)
    ensures r !in rooms ==> res == Err(RoomNotFound)
    ensures r in rooms ==>
      (res.Ok? <==> HasPlayer(players, r, m) && CurrentQuestion(rooms[r], questions).Some?)
      && (res.Err? ==> res.error == if !HasPlayer(players, r, m) then NotInRoom else NoCurrentQuestion)
    ensures res.Ok? ==>
      var room := rooms[r];
      var qr := res.value;
      && qr.questionId == room.currentQuestionId.value
      && qr.questionText == questions[qr.questionId].questionText
      && qr.correctAnswer == questions[qr.questionId].correctAnswer
      && qr.explanation == questions[qr.questionId].explanation
      && (forall a :: a in qr.results <==>
            a in answers && a.roomId == r && a.questionId == qr.questionId && a.roundNumber == room.currentRound)
      && qr.totalAnswers == |qr.results|
      && qr.correctAnswers == CountCorrect(qr.results)
      && qr.correctAnswers <= qr.totalAnswers
      && qr.fastestTime == FastestTime(qr.results)
  {
    if r !in rooms then Err(RoomNotFound)
    else if !HasPlayer(players, r, m) then Err(NotInRoom)
    else
      var room := rooms[r];
      var cq := CurrentQuestion(room, questions);
      if cq.None? then Err(NoCurrentQuestion)
      else
        var q := questions[cq.value];
        var rows := RoundResults(answers, r, cq.value, room.currentRound);
        Ok(QuestionResults(cq.value, q.questionText, q.correctAnswer, q.explanation, rows,
                           |rows|, CountCorrect(rows), FastestTime(rows)))
  }

  /** One line of the final rankings. */
  datatype RankEntry = RankEntry(
    rank: nat,
    memberId: MemberId,
    finalScore: nat,
    answersCorrect: nat,
    answersIncorrect: nat,
    accuracyRate: real)

  function EntryOf(rank: nat, p: Player): RankEntry {
    RankEntry(rank, p.memberId, p.currentScore, p.answersCorrect, p.answersIncorrect, PlayerAccuracy(p))
  }

  /** Numbers the rows from `start + 1` on: `map(fn ($player, $index) => rank $index + 1)`. */
  function RankFrom(rows: seq<Player>, start: nat): (entries: seq<RankEntry>)
    ensures |entries| == |rows|
    ensures forall i :: 0 <= i < |rows| ==> entries[i] == EntryOf(start + i + 1, rows[i])
  {
    if rows == [] then [] else [EntryOf(start + 1, rows[0])] + RankFrom(rows[1..], start + 1)
  }

  /** The final rankings of room `r`: its active players in standings order, ranked 1, 2, .... */
  ghost function FinalRankings(players: PlayerTable, r: RoomId): (rankings: seq<RankEntry>)
    ensures |rankings| == |ActiveSeats(players, r)|
  {
    var rows := ActiveRows(players, r);
    var sorted := SortByStanding(rows);
    assert |sorted| == |multiset(sorted)| == |multiset(rows)| == |rows|;
    RankFrom(sorted, 0)
  }

  /** The position of `m` in the rankings (`search`), if it is there. */
  function SearchMember(rankings: seq<RankEntry>, m: MemberId): (i: Option<nat>)
    ensures i.None? <==> forall j :: 0 <= j < |rankings| ==> rankings[j].memberId != m
    ensures i.Some? ==> i.value < |rankings| && rankings[i.value].memberId == m
                        && forall j :: 0 <= j < i.value ==> rankings[j].memberId != m
  {
    if rankings == [] then None
    else if rankings[0].memberId == m then Some(0)
    else
      var rest := SearchMember(rankings[1..], m);
      if rest.None? then None else Some(rest.value + 1)
  }

  /**
   * `my_rank` as written: `search(...) + 1`, where a failed search gives
   * `false` and `false + 1` is 1 in PHP.
   */
  function MyRankAsWritten(rankings: seq<RankEntry>, m: MemberId): (rank: nat)
    ensures rank >= 1
  {
    var i := SearchMember(rankings, m);
    if i.Some? then i.value + 1 else 1
  }

  /** A member missing from the rankings is reported as ranked first. */
  lemma MyRankAsWrittenRanksAbsentMemberFirst()
    ensures var rankings := [RankEntry(1, 7, 30, 3, 0, 100.0)];
            MyRankAsWritten(rankings, 8) == 1 && rankings[0].rank == 1 && rankings[0].memberId != 8
  {
  }

  /** `my_rank` as intended: the member's rank, or none when the member is not among the ranked players. */
  function MyRank(rankings: seq<RankEntry>, m: MemberId): (rank: Option<nat>)
    ensures rank.None? <==> forall j :: 0 <= j < |rankings| ==> rankings[j].memberId != m
    ensures rank.Some? ==> exists j :: 0 <= j < |rankings| && rankings[j].memberId == m && rank.value == j + 1
  {
    var i := SearchMember(rankings, m);
    if i.Some? then Some(i.value + 1) else None
  }

  /** Both agree for every member who is in the rankings. */
  lemma MyRankAgreesWhenRanked(rankings: seq<RankEntry>, m: MemberId)
    requires exists j :: 0 <= j < |rankings| && rankings[j].memberId == m
    ensures MyRank(rankings, m) == Some(MyRankAsWritten(rankings, m))
  {
  }

  datatype Performance = Performance(
    finalScore: nat,
    totalQuestions: nat,
    correctAnswers: nat,
    accuracyRate: real,
    fastestAnswer: Option<int>,
    slowestAnswer: Option<int>,
    myRank: Option<nat>)

  datatype Summary = Summary(
    roomId: RoomId,
    name: string,
    status: Status,
    rankings: seq<RankEntry>,
    me: Performance,
    totalPlayers: nat,
    totalQuestions: int)

  /**
   * `getGameSummary`: for a member with a record in the room, the final
   * rankings of its active players, the member's own performance over all
   * rounds, and the number of players and of rounds played.
   */
  ghost function GetGameSummary(rooms: map<RoomId, Room>, players: PlayerTable, answers: seq<RoundAnswer>,
                                r: RoomId, m: MemberId): (res: Result<Summary>)
    ensures r !in rooms ==> res == Err(RoomNotFound)
    ensures r in rooms ==> (res.Ok? <==> HasPlayer(players, r, m)) && (res.Err? ==> res.error == NotInRoom)
    ensures res.Ok? ==>
      var s := res.value;
      && s.roomId == r && s.name == rooms[r].name && s.status == rooms[r].status
      && s.rankings == FinalRankings(players, r)
      && s.totalPlayers == |ActiveSeats(players, r)|
      && s.totalQuestions == rooms[r].currentRound
      && s.me.finalScore == players[(r, m)].currentScore
      && s.me.accuracyRate == PlayerAccuracy(players[(r, m)])
      && s.me.totalQuestions == |MemberResults(answers, r, m)|
      && s.me.correctAnswers == CountCorrect(MemberResults(answers, r, m))
      && s.me.correctAnswers <= s.me.totalQuestions
      && s.me.fastestAnswer == FastestTime(MemberResults(answers, r, m))
      && s.me.slowestAnswer == SlowestTime(MemberResults(answers, r, m))
      && s.me.myRank == MyRank(s.rankings, m)
  {
    if r !in rooms then Err(RoomNotFound)
    else if !HasPlayer(players, r, m) then Err(NotInRoom)
    else
      var p := players[(r, m)];
      var rankings := FinalRankings(players, r);
      var mine := MemberResults(answers, r, m);
      var me := Performance(p.currentScore, |mine|, CountCorrect(mine), PlayerAccuracy(p),
                            FastestTime(mine), SlowestTime(mine), MyRank(rankings, m));
      Ok(Summary(r, rooms[r].name, rooms[r].status, rankings, me, |rankings|, rooms[r].currentRound))
  }

  /**
   * The final rankings hold one line per active player, ranked 1, 2, ... in
   * order, by score and then by correct answers, both descending.
   */
  lemma FinalRankingsOrdered(players: PlayerTable, r: RoomId)
    ensures var rankings := FinalRankings(players, r);
      && (forall i :: 0 <= i < |rankings| ==> rankings[i].rank == i + 1)
      && (forall i, j :: 0 <= i < j < |rankings| ==>
            rankings[i].finalScore > rankings[j].finalScore
            || (rankings[i].finalScore == rankings[j].finalScore && rankings[i].answersCorrect >= rankings[j].answersCorrect))
  {
    var sorted := SortByStanding(ActiveRows(players, r));
    var rankings := FinalRankings(players, r);
    forall i, j | 0 <= i < j < |rankings|
      ensures rankings[i].finalScore > rankings[j].finalScore
              || (rankings[i].finalScore == rankings[j].finalScore && rankings[i].answersCorrect >= rankings[j].answersCorrect)
    {
      assert RanksAtLeast(sorted[i], sorted[j]);
    }
  }

  /**
   * Every line of the final rankings is an active player's own record:
   * their score and counters, numbered by position.
   */
  lemma RankingsAreActiveRecords(players: PlayerTable, r: RoomId)
    requires SeatsMatch(players)
    ensures var rankings := FinalRankings(players, r);
      forall i :: 0 <= i < |rankings| ==>
        IsActiveMember(players, r, rankings[i].memberId)
        && rankings[i] == EntryOf(i + 1, players[(r, rankings[i].memberId)])
  {
    var rows := ActiveRows(players, r);
    var sorted := SortByStanding(rows);
    var rankings := FinalRankings(players, r);
    forall i | 0 <= i < |rankings|
      ensures IsActiveMember(players, r, rankings[i].memberId)
              && rankings[i] == EntryOf(i + 1, players[(r, rankings[i].memberId)])
    {
      var p := sorted[i];
      assert p in multiset(sorted);
      assert p in rows;
      var k :| k in ActiveSeats(players, r) && players[k] == p;
      assert k == (r, p.memberId);
      assert rankings[i] == EntryOf(i + 1, p);
    }
  }

  /** An active member is ranked, at the position of their own line. */
  lemma ActiveMemberIsRanked(players: PlayerTable, r: RoomId, m: MemberId)
    requires SeatsMatch(players)
    requires IsActiveMember(players, r, m)
    ensures var rankings := FinalRankings(players, r);
            var rank := MyRank(rankings, m);
            rank.Some? && rankings[rank.value - 1].memberId == m && rankings[rank.value - 1].rank == rank.value
  {
    var rows := ActiveRows(players, r);
    var sorted := SortByStanding(rows);
    var p := players[(r, m)];
    assert (r, m) in ActiveSeats(players, r);
    assert p in rows;
    assert p in multiset(rows);
    assert p in sorted;
    var i :| 0 <= i < |sorted| && sorted[i] == p;
    var rankings := FinalRankings(players, r);
    assert rankings[i].memberId == m;
    var rank := MyRank(rankings, m);
    var j :| 0 <= j < |rankings| && rankings[j].memberId == m && rank.value == j + 1;
    assert rankings[j].rank == j + 1;
  }
}
