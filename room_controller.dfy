/**
 * The game-room endpoints (app/Http/Controllers/Api/GameRoomController.php).
 * Each action is one atomic step on the `Database`: a chain of guards, each of
 * which refuses the action with every table unchanged, then a few in-place
 * updates. Every action keeps `Database.Valid()`.
 */
module RoomController {
  import opened Basics
  import opened Text
  import opened Questions
  import opened Scoring
  import opened Players
  import opened Rooms
  import opened Schema

  /** The `store` request; absent optional fields are `None`. */
  datatype StoreRequest = StoreRequest(
    name: string,
    categoryId: CategoryId,
    maxPlayers: Option<int>,
    totalRounds: Option<int>,
    timePerQuestion: Option<int>)

  const DefaultMaxPlayers := 6
  const DefaultTotalRounds := 10
  const DefaultTimePerQuestion := 30
  const MaxNameLength := 255

  predicate InRange(v: Option<int>, lo: int, hi: int) {
    v.None? || lo <= v.value <= hi
  }

  /** The validation rules of `store`; a `required` string may not be blank. */
  predicate ValidStoreRequest(req: StoreRequest, categories: set<CategoryId>) {
    && !IsBlank(req.name)
    && |req.name| <= MaxNameLength
    && req.categoryId in categories
    && InRange(req.maxPlayers, 2, 6)
    && InRange(req.totalRounds, 5, 20)
    && InRange(req.timePerQuestion, 10, 120)
  }

  /** The room `store` creates: waiting, owned by its creator who is its one player, at round 0. */
  function NewRoom(req: StoreRequest, owner: MemberId, code: string): Room {
    Room(req.name, code, Waiting, req.maxPlayers.GetOr(DefaultMaxPlayers), 1, owner, req.categoryId,
         None, 0, req.totalRounds.GetOr(DefaultTotalRounds), req.timePerQuestion.GetOr(DefaultTimePerQuestion),
         None, None)
  }

  /** A fresh player record: no score, no answers, not left. */
  function NewPlayer(r: RoomId, m: MemberId, ready: bool, now: Clock): Player {
    Player(r, m, ready, 0, 0, 0, Some(now), None)
  }

  predicate OwnsLiveRoom(rooms: map<RoomId, Room>, m: MemberId) {
    exists r :: r in rooms && rooms[r].ownerId == m && IsLive(rooms[r].status)
  }

  predicate CodeInUse(rooms: map<RoomId, Room>, code: string) {
    exists r :: r in rooms && rooms[r].code == code
  }

  /** `m` holds an active record in some room that is waiting, playing or paused. */
  predicate InLiveRoom(rooms: map<RoomId, Room>, players: PlayerTable, m: MemberId) {
    exists k :: k in players && k.1 == m && IsActive(players[k]) && k.0 in rooms && IsLive(rooms[k.0].status)
  }

  /** Some active player of room `r` is not ready. */
  predicate HasUnreadyPlayer(players: PlayerTable, r: RoomId) {
    exists k :: k in ActiveSeats(players, r) && !players[k].isReady
  }

  /** Some active player of room `r` other than `m`: a candidate for the ownership. */
  predicate HasOtherActivePlayer(players: PlayerTable, r: RoomId, m: MemberId) {
    exists k :: k in ActiveSeats(players, r) && k.1 != m
  }

  predicate CategoryHasQuestion(questions: map<QuestionId, Question>, c: CategoryId) {
    exists q :: q in questions && questions[q].categoryId == c
  }

  /**
   * `generateUniqueCode`: draws digests until the code made from one is not
   * used by any room, and returns that first unused code. `digests` are the
   * successive values of `md5(uniqid())` the loop would draw; one of them
   * must give an unused code, or the loop would not end.
   */
  method GenerateUniqueCode(rooms: map<RoomId, Room>, digests: seq<string>) returns (code: string)
    requires forall k :: 0 <= k < |digests| ==> IsMd5Digest(digests[k])
    requires exists k :: 0 <= k < |digests| && !CodeInUse(rooms, GenerateCode(digests[k]))
    ensures IsRoomCode(code) && !CodeInUse(rooms, code)
    ensures exists k :: 0 <= k < |digests| && code == GenerateCode(digests[k])
                        && forall j :: 0 <= j < k ==> CodeInUse(rooms, GenerateCode(digests[j]))
  {
    ghost var bound :| 0 <= bound < |digests| && !CodeInUse(rooms, GenerateCode(digests[bound]));
    var k := 0;
    code := GenerateCode(digests[k]);
    while CodeInUse(rooms, code)
      invariant k <= bound
      invariant code == GenerateCode(digests[k])
      invariant forall j :: 0 <= j < k ==> CodeInUse(rooms, GenerateCode(digests[j]))
      decreases bound - k
    {
      k := k + 1;
      code := GenerateCode(digests[k]);
    }
  }

  /**
   * `store`: creates a waiting room owned by `m`, with `m` as its one (ready)
   * player, unless the request is invalid or `m` already owns a room that is
   * waiting, playing or paused.
   */
  method Store(db: Database, m: MemberId, req: StoreRequest, digests: seq<string>, now: Clock)
    returns (res: Result<RoomId>)
    requires db.Valid()
    requires forall k :: 0 <= k < |digests| ==> IsMd5Digest(digests[k])
    requires exists k :: 0 <= k < |digests| && !CodeInUse(db.rooms, GenerateCode(digests[k]))
    modifies db`rooms, db`players, db`nextRoomId
    ensures db.Valid()
    ensures res.Err? <==> !ValidStoreRequest(req, db.categories) || OwnsLiveRoom(old(db.rooms), m)
    ensures res.Err? ==> res.error == if !ValidStoreRequest(req, db.categories) then ValidationFailed
                                      else AlreadyOwnsActiveRoom
    ensures res.Err? ==> db.rooms == old(db.rooms) && db.players == old(db.players) && db.nextRoomId == old(db.nextRoomId)
    ensures res.Ok? ==>
      var id := res.value;
      && id == old(db.nextRoomId) && id !in old(db.rooms) && id in db.rooms
      && db.rooms == old(db.rooms)[id := NewRoom(req, m, db.rooms[id].code)]
      && IsRoomCode(db.rooms[id].code) && !CodeInUse(old(db.rooms), db.rooms[id].code)
      && db.players == old(db.players)[(id, m) := NewPlayer(id, m, true, now)]
      && ActiveSeats(db.players, id) == {(id, m)}
  {
    if !ValidStoreRequest(req, db.categories) {
      return Err(ValidationFailed);
    }
    if OwnsLiveRoom(db.rooms, m) {
      return Err(AlreadyOwnsActiveRoom);
    }
    var code := GenerateUniqueCode(db.rooms, digests);
    var id := db.nextRoomId;
    var room := NewRoom(req, m, code);
    var row := NewPlayer(id, m, true, now);
    StoreKeepsTables(db.rooms, id, db.players, db.questions, room, row);
    db.rooms := db.rooms[id := room];
    db.players := db.players[(id, m) := row];
    db.nextRoomId := id + 1;
    res := Ok(id);
  }

  /**
   * `join`: adds `m` as a not-ready player of room `r` and counts them, only
   * when the room is waiting and not full, `m` never had a record in it (even
   * one that has left) and `m` is not active in another live room.
   */
  method Join(db: Database, r: RoomId, m: MemberId, now: Clock) returns (res: Outcome)
    requires db.Valid()
    modifies db`rooms, db`players
    ensures db.Valid()
    ensures r !in old(db.rooms) ==> res == Refused(RoomNotFound)
    ensures r in old(db.rooms) ==>
      var room := old(db.rooms)[r];
      res == if room.status != Waiting then Refused(NotJoinable)
             else if IsFull(room) then Refused(RoomFull)
             else if HasPlayer(old(db.players), r, m) then Refused(AlreadyInRoom)
             else if InLiveRoom(old(db.rooms), old(db.players), m) then Refused(InAnotherActiveRoom)
             else Done
    ensures res.Refused? ==> db.rooms == old(db.rooms) && db.players == old(db.players)
    ensures res.Done? ==>
      && db.players == old(db.players)[(r, m) := NewPlayer(r, m, false, now)]
      && db.rooms == old(db.rooms)[r := old(db.rooms)[r].(currentPlayers := old(db.rooms)[r].currentPlayers + 1)]
      && |ActiveSeats(db.players, r)| == |ActiveSeats(old(db.players), r)| + 1
  {
    if r !in db.rooms {
      return Refused(RoomNotFound);
    }
    var room := db.rooms[r];
    if room.status != Waiting {
      return Refused(NotJoinable);
    }
    if IsFull(room) {
      return Refused(RoomFull);
    }
    if HasPlayer(db.players, r, m) {
      return Refused(AlreadyInRoom);
    }
    if InLiveRoom(db.rooms, db.players, m) {
      return Refused(InAnotherActiveRoom);
    }
    var row := NewPlayer(r, m, false, now);
    JoinKeepsTables(db.rooms, db.nextRoomId, db.players, db.questions, r, row);
    db.players := db.players[(r, m) := row];
    db.rooms := db.rooms[r := room.(currentPlayers := room.currentPlayers + 1)];
    res := Done;
  }

  /**
   * The member who inherits room `r` when its owner `m` leaves: some other
   * active player of the room (the database's first match), if there is one.
   */
  method Heir(players: PlayerTable, r: RoomId, m: MemberId) returns (heir: Option<MemberId>)
    ensures heir.Some? <==> HasOtherActivePlayer(players, r, m)
    ensures heir.Some? ==> heir.value != m && IsActiveMember(players, r, heir.value)
  {
    if HasOtherActivePlayer(players, r, m) {
      var k :| k in ActiveSeats(players, r) && k.1 != m;
      return Some(k.1);
    }
    return None;
  }

  /**
   * `leave`: marks `m`'s record as left and uncounts it. When the owner
   * leaves, the ownership passes to some other active player of the room, or
   * the room finishes when there is none; anyone else leaving changes neither.
   */
  method Leave(db: Database, r: RoomId, m: MemberId, now: Clock) returns (res: Outcome)
    requires db.Valid()
    modifies db`rooms, db`players
    ensures db.Valid()
    ensures r !in old(db.rooms) ==> res == Refused(RoomNotFound)
    ensures r in old(db.rooms) ==>
      res == if !HasPlayer(old(db.players), r, m) then Refused(NotInRoom)
             else if !IsActive(old(db.players)[(r, m)]) then Refused(AlreadyLeft)
             else Done
    ensures res.Refused? ==> db.rooms == old(db.rooms) && db.players == old(db.players)
    ensures res.Done? ==>
      var room := old(db.rooms)[r];
      && db.players == old(db.players)[(r, m) := old(db.players)[(r, m)].(leftAt := Some(now))]
      && |ActiveSeats(db.players, r)| == |ActiveSeats(old(db.players), r)| - 1
      && r in db.rooms && db.rooms == old(db.rooms)[r := db.rooms[r]]
      && (!IsOwner(room, m) ==> db.rooms[r] == room.(currentPlayers := room.currentPlayers - 1))
      && (IsOwner(room, m) && HasOtherActivePlayer(db.players, r, m) ==>
            && db.rooms[r] == room.(currentPlayers := room.currentPlayers - 1, ownerId := db.rooms[r].ownerId)
            && db.rooms[r].ownerId != m && IsActiveMember(db.players, r, db.rooms[r].ownerId))
      && (IsOwner(room, m) && !HasOtherActivePlayer(db.players, r, m) ==>
            db.rooms[r] == room.(currentPlayers := room.currentPlayers - 1, status := Finished))
  {
    if r !in db.rooms {
      return Refused(RoomNotFound);
    }
    if !HasPlayer(db.players, r, m) {
      return Refused(NotInRoom);
    }
    if !IsActive(db.players[(r, m)]) {
      return Refused(AlreadyLeft);
    }
    var row := db.players[(r, m)].(leftAt := Some(now));
    var rows := db.players[(r, m) := row];
    var room := db.rooms[r];
    room := room.(currentPlayers := room.currentPlayers - 1);
    if IsOwner(room, m) {
      var heir := Heir(rows, r, m);
      room := if heir.Some? then room.(ownerId := heir.value) else room.(status := Finished);
    }
    ghost var rooms := db.rooms;
    LeaveKeepsTables(db.rooms, db.nextRoomId, db.players, db.questions, r, m, row, room);
    db.players := rows;
    db.rooms := db.rooms[r := room];
    assert db.rooms == rooms[r := db.rooms[r]];
    res := Done;
  }

  /** A player's record with its ready flag flipped and nothing else changed. */
  function Toggled(p: Player): (q: Player)
    ensures q.isReady == !p.isReady && q.(isReady := p.isReady) == p
  {
    p.(isReady := !p.isReady)
  }

  /** Toggling the same record twice puts the player table back as it was. */
  lemma ToggleTwiceRestores(players: PlayerTable, k: Seat)
    requires k in players
    ensures var once := players[k := Toggled(players[k])];
            once[k := Toggled(once[k])] == players
  {
  }

  /**
   * `toggleReady`: in a waiting room, flips the ready flag of `m`'s record and
   * returns its new value. The record is found whether or not it has left.
   */
  method ToggleReady(db: Database, r: RoomId, m: MemberId) returns (res: Result<bool>)
    requires db.Valid()
    modifies db`players
    ensures db.Valid()
    ensures r !in db.rooms ==> res == Err(RoomNotFound)
    ensures r in db.rooms && res.Err? ==>
      res.error == if db.rooms[r].status != Waiting then ReadyLocked else NotInRoom
    ensures res.Ok? <==> r in db.rooms && db.rooms[r].status == Waiting && HasPlayer(old(db.players), r, m)
    ensures res.Err? ==> db.players == old(db.players)
    ensures res.Ok? ==>
      && db.players == old(db.players)[(r, m) := Toggled(old(db.players)[(r, m)])]
      && res.value == !old(db.players)[(r, m)].isReady
  {
    if r !in db.rooms {
      return Err(RoomNotFound);
    }
    if db.rooms[r].status != Waiting {
      return Err(ReadyLocked);
    }
    if !HasPlayer(db.players, r, m) {
      return Err(NotInRoom);
    }
    var row := Toggled(db.players[(r, m)]);
    SeatUpdateKeepsTables(db.rooms, db.nextRoomId, db.players, db.questions, (r, m), row);
    db.players := db.players[(r, m) := row];
    res := Ok(row.isReady);
  }

  /**
   * `start`: the owner starts a waiting room of at least two players, all of
   * them ready, on some question of the room's category, at round 1.
   */
  method Start(db: Database, r: RoomId, m: MemberId, now: Clock) returns (res: Result<QuestionId>)
    requires db.Valid()
    modifies db`rooms
    ensures db.Valid()
    ensures r !in old(db.rooms) ==> res == Err(RoomNotFound)
    ensures r in old(db.rooms) && res.Err? ==>
      var room := old(db.rooms)[r];
      res.error == if !IsOwner(room, m) then NotOwner
                   else if !CanStart(room) then CannotStart
                   else if HasUnreadyPlayer(db.players, r) then PlayersNotReady
                   else NoQuestions
    ensures res.Ok? <==>
      && r in old(db.rooms) && IsOwner(old(db.rooms)[r], m) && CanStart(old(db.rooms)[r])
      && !HasUnreadyPlayer(db.players, r) && CategoryHasQuestion(db.questions, old(db.rooms)[r].categoryId)
    ensures res.Err? ==> db.rooms == old(db.rooms)
    ensures res.Ok? ==>
      var room := old(db.rooms)[r];
      && res.value in db.questions && db.questions[res.value].categoryId == room.categoryId
      && db.rooms == old(db.rooms)[r := room.(status := Playing, currentRound := 1,
                                              currentQuestionId := Some(res.value), startedAt := Some(now))]
      && |ActiveSeats(db.players, r)| >= 2
      && forall k :: k in ActiveSeats(db.players, r) ==> db.players[k].isReady
  {
    if r !in db.rooms {
      return Err(RoomNotFound);
    }
    var room := db.rooms[r];
    if !IsOwner(room, m) {
      return Err(NotOwner);
    }
    if !CanStart(room) {
      return Err(CannotStart);
    }
    if HasUnreadyPlayer(db.players, r) {
      return Err(PlayersNotReady);
    }
    if !CategoryHasQuestion(db.questions, room.categoryId) {
      return Err(NoQuestions);
    }
    var q :| q in db.questions && db.questions[q].categoryId == room.categoryId;
    var started := room.(status := Playing, currentRound := 1, currentQuestionId := Some(q), startedAt := Some(now));
    RoomUpdateKeepsTables(db.rooms, db.nextRoomId, db.players, db.questions, r, started);
    db.rooms := db.rooms[r := started];
    res := Ok(q);
  }

  /**
   * `canStart` passes a room whose second player is not ready; only the
   * separate readiness check of `start` refuses it.
   */
  lemma CanStartIgnoresReadiness()
    ensures var room := Room("quiz", "A1B2C3", Waiting, 4, 2, 1, 9, None, 0, 5, 30, None, None);
      var players := map[(7, 1) := NewPlayer(7, 1, true, 0), (7, 2) := NewPlayer(7, 2, false, 0)];
      CanStart(room) && HasUnreadyPlayer(players, 7)
  {
    var players := map[(7, 1) := NewPlayer(7, 1, true, 0), (7, 2) := NewPlayer(7, 2, false, 0)];
    assert (7, 2) in ActiveSeats(players, 7);
  }

  /** What `submitAnswer` reports back to the player. */
  datatype AnswerFeedback = AnswerFeedback(
    isCorrect: bool,
    scoreEarned: nat,
    correctAnswer: string,
    explanation: Option<string>,
    currentScore: nat)

  /** A player's record after an answer worth `score` points. */
  function Credit(p: Player, isCorrect: bool, score: nat): (c: Player)
    ensures c.currentScore == p.currentScore + score
    ensures c.answersCorrect + c.answersIncorrect == p.answersCorrect + p.answersIncorrect + 1
    ensures isCorrect <==> c.answersCorrect == p.answersCorrect + 1
    ensures !isCorrect <==> c.answersIncorrect == p.answersIncorrect + 1
    ensures c.(currentScore := p.currentScore, answersCorrect := p.answersCorrect, answersIncorrect := p.answersIncorrect) == p
  {
    p.(currentScore := p.currentScore + score,
       answersCorrect := p.answersCorrect + (if isCorrect then 1 else 0),
       answersIncorrect := p.answersIncorrect + (if isCorrect then 0 else 1))
  }

  /**
   * `submitAnswer`: grades `m`'s answer to the current question of a playing
   * room, records it once per player, question and round, and credits the
   * player's record. The record is found whether or not it has left.
   */
  method SubmitAnswer(db: Database, r: RoomId, m: MemberId, userAnswer: string, timeTaken: Option<int>, now: Clock)
    returns (res: Result<AnswerFeedback>)
    requires db.Valid()
    modifies db`players, db`answers
    ensures db.Valid()
    ensures !ValidAnswerRequest(userAnswer, timeTaken) ==> res == Err(ValidationFailed)
    ensures ValidAnswerRequest(userAnswer, timeTaken) && r !in db.rooms ==> res == Err(RoomNotFound)
    ensures ValidAnswerRequest(userAnswer, timeTaken) && r in db.rooms && res.Err? ==>
      res.error == if db.rooms[r].status != Playing then GameNotActive
                   else if !HasPlayer(old(db.players), r, m) then NotInRoom
                   else AlreadyAnswered
    ensures res.Ok? <==>
      && ValidAnswerRequest(userAnswer, timeTaken) && r in db.rooms && db.rooms[r].status == Playing
      && HasPlayer(old(db.players), r, m)
      && !HasAnswered(old(db.answers), r, m, db.rooms[r].currentQuestionId.value, db.rooms[r].currentRound)
    ensures res.Err? ==> db.players == old(db.players) && db.answers == old(db.answers)
    ensures res.Ok? ==>
      var room := db.rooms[r];
      var qid := room.currentQuestionId.value;
      var q := db.questions[qid];
      var fb := res.value;
      && (fb.isCorrect <==> IsCorrectAnswer(userAnswer, q.correctAnswer))
      && fb.scoreEarned == ScoreEarned(fb.isCorrect, timeTaken, RoomQuickSeconds)
      && fb.correctAnswer == q.correctAnswer && fb.explanation == q.explanation
      && db.answers == old(db.answers) + [RoundAnswer(r, m, qid, userAnswer, fb.isCorrect, timeTaken,
                                                      fb.scoreEarned, room.currentRound, now)]
      && db.players == old(db.players)[(r, m) := Credit(old(db.players)[(r, m)], fb.isCorrect, fb.scoreEarned)]
      && fb.currentScore == old(db.players)[(r, m)].currentScore + fb.scoreEarned
  {
    if !ValidAnswerRequest(userAnswer, timeTaken) {
      return Err(ValidationFailed);
    }
    if r !in db.rooms {
      return Err(RoomNotFound);
    }
    var room := db.rooms[r];
    if room.status != Playing {
      return Err(GameNotActive);
    }
    if !HasPlayer(db.players, r, m) {
      return Err(NotInRoom);
    }
    var qid := room.currentQuestionId.value;
    if HasAnswered(db.answers, r, m, qid, room.currentRound) {
      return Err(AlreadyAnswered);
    }
    var q := db.questions[qid];
    var isCorrect := IsCorrectAnswer(userAnswer, q.correctAnswer);
    var score := ScoreEarned(isCorrect, timeTaken, RoomQuickSeconds);
    var row := Credit(db.players[(r, m)], isCorrect, score);
    var answer := RoundAnswer(r, m, qid, userAnswer, isCorrect, timeTaken, score, room.currentRound, now);
    SeatUpdateKeepsTables(db.rooms, db.nextRoomId, db.players, db.questions, (r, m), row);
    AppendAnswerKeepsUnique(db.answers, answer);
    db.answers := db.answers + [answer];
    db.players := db.players[(r, m) := row];
    res := Ok(AnswerFeedback(isCorrect, score, q.correctAnswer, q.explanation, row.currentScore));
  }

  /** `end`: the owner finishes a room that has not finished yet. */
  method End(db: Database, r: RoomId, m: MemberId, now: Clock) returns (res: Outcome)
    requires db.Valid()
    modifies db`rooms
    ensures db.Valid()
    ensures r !in old(db.rooms) ==> res == Refused(RoomNotFound)
    ensures r in old(db.rooms) ==>
      var room := old(db.rooms)[r];
      res == if !IsOwner(room, m) then Refused(NotOwner)
             else if room.status == Finished then Refused(AlreadyEnded)
             else Done
    ensures res.Refused? ==> db.rooms == old(db.rooms)
    ensures res.Done? ==> db.rooms == old(db.rooms)[r := old(db.rooms)[r].(status := Finished, endedAt := Some(now))]
  {
    if r !in db.rooms {
      return Refused(RoomNotFound);
    }
    var room := db.rooms[r];
    if !IsOwner(room, m) {
      return Refused(NotOwner);
    }
    if room.status == Finished {
      return Refused(AlreadyEnded);
    }
    var ended := room.(status := Finished, endedAt := Some(now));
    RoomUpdateKeepsTables(db.rooms, db.nextRoomId, db.players, db.questions, r, ended);
    db.rooms := db.rooms[r := ended];
    res := Done;
  }

  /** The `index` request; absent query parameters are `None`. */
  datatype IndexRequest = IndexRequest(
    status: Option<string>,
    categoryId: Option<CategoryId>,
    page: Option<int>,
    perPage: Option<int>)

  /** The status names the `status` filter accepts; `paused` is not among them. */
  function StatusNamed(name: string): (s: Option<Status>)
    ensures s.Some? ==> s.value != Paused && StatusName(s.value) == name
    ensures s.None? <==> name != StatusName(Waiting) && name != StatusName(Playing) && name != StatusName(Finished)
  {
    if name == "waiting" then Some(Waiting)
    else if name == "playing" then Some(Playing)
    else if name == "finished" then Some(Finished)
    else None
  }

  /** Every status but `paused` is accepted under its own name, and read back as itself. */
  lemma StatusNamedRoundTrip(st: Status)
    ensures StatusNamed(StatusName(st)) == if st == Paused then None else Some(st)
  {
  }

  predicate ValidIndexRequest(req: IndexRequest, categories: set<CategoryId>) {
    && (req.status.None? || StatusNamed(req.status.value).Some?)
    && (req.categoryId.None? || req.categoryId.value in categories)
    && (req.page.None? || req.page.value >= 1)
    && (req.perPage.None? || 1 <= req.perPage.value <= 50)
  }

  /** Whether `index` lists `room`: the status and category filters, and no full room unless another status is asked for. */
  predicate Listed(room: Room, req: IndexRequest) {
    && (req.status.None? || StatusNamed(req.status.value) == Some(room.status))
    && (req.categoryId.None? || room.categoryId == req.categoryId.value)
    && ((req.status.None? || req.status.value == "waiting") ==> !IsFull(room))
  }

  /**
   * `index`: the ids of the rooms the query selects. Ordering and paging are
   * not modelled, so the result is the set of every selected room.
   */
  function Index(rooms: map<RoomId, Room>, categories: set<CategoryId>, req: IndexRequest): (res: Result<set<RoomId>>)
    ensures res.Err? <==> !ValidIndexRequest(req, categories)
    ensures res.Err? ==> res.error == ValidationFailed
    ensures res.Ok? ==> forall r :: r in res.value <==> r in rooms && Listed(rooms[r], req)
  {
    if !ValidIndexRequest(req, categories) then Err(ValidationFailed)
    else Ok(set r | r in rooms && Listed(rooms[r], req))
  }

  /** With no filter, `index` lists exactly the rooms that are not full, whatever their status. */
  lemma IndexDefaultListsOpenRooms(rooms: map<RoomId, Room>, categories: set<CategoryId>, r: RoomId)
    requires r in rooms
    ensures var res := Index(rooms, categories, IndexRequest(None, None, None, None));
            res.Ok? && (r in res.value <==> !IsFull(rooms[r]))
  {
  }

  /** A paused room can be listed only by the default query, never by a status filter. */
  lemma IndexNeverFiltersPaused(rooms: map<RoomId, Room>, categories: set<CategoryId>, req: IndexRequest, r: RoomId)
    requires req.status.Some?
    requires r in rooms && rooms[r].status == Paused
    ensures var res := Index(rooms, categories, req);
            res.Err? || r !in res.value
  {
  }

  /** A full room is still listed when playing or finished rooms are asked for. */
  lemma IndexListsFullRoomsOfOtherStatuses(rooms: map<RoomId, Room>, categories: set<CategoryId>, r: RoomId)
    requires r in rooms && rooms[r].status == Finished
    ensures var res := Index(rooms, categories, IndexRequest(Some("finished"), None, None, None));
            res.Ok? && r in res.value
  {
  }

  /**
   * `findByCode`: a code of six characters, not blank, is upper-cased and
   * looked up; the unique index on `code` makes the match unique.
   */
  ghost function FindByCode(rooms: map<RoomId, Room>, code: string): (res: Result<RoomId>)
    ensures IsBlank(code) || |code| != CodeLength ==> res == Err(ValidationFailed)
    ensures !IsBlank(code) && |code| == CodeLength ==>
      (res.Ok? <==> CodeInUse(rooms, Upper(code))) && (res.Err? ==> res.error == RoomNotFound)
    ensures res.Ok? ==> res.value in rooms && rooms[res.value].code == Upper(code)
  {
    if IsBlank(code) || |code| != CodeLength then Err(ValidationFailed)
    else if CodeInUse(rooms, Upper(code)) then
      var r :| r in rooms && rooms[r].code == Upper(code);
      Ok(r)
    else Err(RoomNotFound)
  }

  /** A well-formed room code is already upper case. */
  lemma UpperOfRoomCode(code: string)
    requires IsRoomCode(code)
    ensures Upper(code) == code
  {
    UpperSpec(code);
  }

  /** Every room is found by its own code, typed in upper or in lower case. */
  lemma FindByOwnCode(rooms: map<RoomId, Room>, r: RoomId)
    requires CodesUnique(rooms)
    requires r in rooms && IsRoomCode(rooms[r].code)
    ensures FindByCode(rooms, rooms[r].code) == Ok(r)
    ensures FindByCode(rooms, Lower(rooms[r].code)) == Ok(r)
  {
    var code := rooms[r].code;
    UpperOfRoomCode(code);
    UpperOfLower(code);
    assert !IsTrimmable(code[0]) && !IsTrimmable(Lower(code)[0]) by {
      LowerSpec(code);
    }
  }

  /**
   * `leaderboard`: the active players of the room in standings order (the
   * order among exact ties is whatever the database returns).
   */
  ghost function Leaderboard(rooms: map<RoomId, Room>, players: PlayerTable, r: RoomId): (res: Result<seq<Player>>)
    ensures r !in rooms <==> res == Err(RoomNotFound)
    ensures res.Ok? ==> Ranked(res.value) && |res.value| == |ActiveSeats(players, r)|
    ensures res.Ok? ==> forall p :: p in res.value <==> exists k :: k in ActiveSeats(players, r) && players[k] == p
  {
    if r !in rooms then Err(RoomNotFound)
    else
      var rows := ActiveRows(players, r);
      var ranked := SortByStanding(rows);
      assert forall p :: p in ranked <==> p in rows by {
        forall p ensures p in ranked <==> p in rows {
          assert p in ranked <==> p in multiset(ranked);
          assert p in rows <==> p in multiset(rows);
        }
      }
      assert |ranked| == |multiset(ranked)| == |multiset(rows)| == |rows|;
      Ok(ranked)
  }

  /** A new waiting room with its owner as its one active player keeps every table invariant. */
  lemma StoreKeepsTables(rooms: map<RoomId, Room>, next: RoomId, players: PlayerTable,
                         questions: map<QuestionId, Question>, room: Room, row: Player)
    requires RoomTablesValid(rooms, next, players, questions)
    requires row.roomId == next && row.memberId == room.ownerId && IsActive(row)
    requires room.status == Waiting && room.currentPlayers == 1 <= room.maxPlayers
    requires 1 <= room.totalRounds && room.currentRound == 0
    requires IsRoomCode(room.code) && !CodeInUse(rooms, room.code)
    ensures RoomTablesValid(rooms[next := room], next + 1, players[(next, room.ownerId) := row], questions)
    ensures ActiveSeats(players[(next, room.ownerId) := row], next) == {(next, room.ownerId)}
  {
    var k := (next, room.ownerId);
    var rows := players[k := row];
    var rs := rooms[next := room];
    assert k !in players;
    assert ActiveSeats(rows, next) == {k};
    forall r' | r' in rs ensures RoomInvariant(rs[r'], r', rows, questions) {
      if r' != next {
        ActiveCountAfterStore(players, k, row, r');
        assert rs[r'] == rooms[r'];
        assert IsActiveMember(rows, r', rooms[r'].ownerId) == IsActiveMember(players, r', rooms[r'].ownerId);
      }
    }
    forall r1, r2 | r1 in rs && r2 in rs && r1 != r2 ensures rs[r1].code != rs[r2].code {
      if r1 != next && r2 != next {
        assert rs[r1].code == rooms[r1].code && rs[r2].code == rooms[r2].code;
      }
    }
  }

  /** A new active record of a member who had none in a room that is not full keeps every table invariant. */
  lemma JoinKeepsTables(rooms: map<RoomId, Room>, next: RoomId, players: PlayerTable,
                        questions: map<QuestionId, Question>, r: RoomId, row: Player)
    requires RoomTablesValid(rooms, next, players, questions)
    requires r in rooms && !IsFull(rooms[r])
    requires row.roomId == r && IsActive(row) && !HasPlayer(players, r, row.memberId)
    ensures RoomTablesValid(rooms[r := rooms[r].(currentPlayers := rooms[r].currentPlayers + 1)], next,
                            players[(r, row.memberId) := row], questions)
    ensures |ActiveSeats(players[(r, row.memberId) := row], r)| == |ActiveSeats(players, r)| + 1
  {
    var k := (r, row.memberId);
    var rows := players[k := row];
    var rs := rooms[r := rooms[r].(currentPlayers := rooms[r].currentPlayers + 1)];
    ActiveCountAfterStore(players, k, row, r);
    forall r' | r' in rs ensures RoomInvariant(rs[r'], r', rows, questions) {
      ActiveCountAfterStore(players, k, row, r');
      assert IsActiveMember(rows, r', rs[r'].ownerId) <== IsActiveMember(players, r', rs[r'].ownerId);
    }
    forall r1, r2 | r1 in rs && r2 in rs && r1 != r2 ensures rs[r1].code != rs[r2].code {
      assert rs[r1].code == rooms[r1].code && rs[r2].code == rooms[r2].code;
    }
  }

  /**
   * Marking `m`'s active record of room `r` as left, uncounting it, and
   * handing the room to a member still active in it (or finishing it) keeps
   * every table invariant.
   */
  lemma LeaveKeepsTables(rooms: map<RoomId, Room>, next: RoomId, players: PlayerTable,
                         questions: map<QuestionId, Question>, r: RoomId, m: MemberId, row: Player, room: Room)
    requires RoomTablesValid(rooms, next, players, questions)
    requires r in rooms && IsActiveMember(players, r, m)
    requires row == players[(r, m)].(leftAt := row.leftAt) && !IsActive(row)
    requires room == rooms[r].(currentPlayers := rooms[r].currentPlayers - 1, ownerId := room.ownerId, status := room.status)
    requires room.status == rooms[r].status || room.status == Finished
    requires room.status != Finished ==> IsActiveMember(players[(r, m) := row], r, room.ownerId)
    ensures RoomTablesValid(rooms[r := room], next, players[(r, m) := row], questions)
    ensures |ActiveSeats(players[(r, m) := row], r)| == |ActiveSeats(players, r)| - 1
  {
    var k := (r, m);
    var rows := players[k := row];
    var rs := rooms[r := room];
    ActiveCountAfterStore(players, k, row, r);
    assert Contribution(k, players[k], r) == 1 && Contribution(k, row, r) == 0;
    forall r' | r' in rs ensures RoomInvariant(rs[r'], r', rows, questions) {
      ActiveCountAfterStore(players, k, row, r');
      if r' != r {
        assert rs[r'] == rooms[r'];
        assert IsActiveMember(rows, r', rooms[r'].ownerId) == IsActiveMember(players, r', rooms[r'].ownerId);
      }
    }
    forall r1, r2 | r1 in rs && r2 in rs && r1 != r2 ensures rs[r1].code != rs[r2].code {
      assert rs[r1].code == rooms[r1].code && rs[r2].code == rooms[r2].code;
    }
  }
}
