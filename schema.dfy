/**
 * The tables the room controllers read and write, as one `Database` object
 * whose fields are the tables, and the invariants every room action keeps:
 * the room counters agree with the player records, rounds stay within their
 * bound, an unfinished room is owned by one of its active players, codes and
 * seats are unique, and at most one answer is recorded per player, question
 * and round.
 */
module Schema {
  import opened Basics
  import opened Questions
  import opened Players
  import opened Rooms

  /** One row of `game_room_results`: a player's answer in one round of a room. */
  datatype RoundAnswer = RoundAnswer(
    roomId: RoomId,
    memberId: MemberId,
    questionId: QuestionId,
    userAnswer: string,
    isCorrect: bool,
    timeTaken: Option<int>,
    scoreEarned: nat,
    roundNumber: int,
    answeredAt: Clock)

  /** Why a controller action was refused; each refusal leaves every table as it was. */
  datatype Error =
    | ValidationFailed      // the request failed `$request->validate(...)`
    | RoomNotFound          // `findOrFail` / `findByCode` found no room
    | AlreadyOwnsActiveRoom
    | NotJoinable
    | RoomFull
    | AlreadyInRoom
    | InAnotherActiveRoom
    | NotInRoom
    | AlreadyLeft
    | ReadyLocked
    | NotOwner              // the 403 of the owner-only actions
    | CannotStart
    | PlayersNotReady
    | NoQuestions
    | GameNotActive
    | GameNotPaused
    | AlreadyAnswered
    | AlreadyEnded
    | NoCurrentQuestion     // a property read on a missing current question (an error response)

  datatype Result<+T> = Ok(value: T) | Err(error: Error)

  datatype Outcome = Done | Refused(error: Error)

  /** Member `m` has already answered question `q` in round `round` of room `r`. */
  predicate HasAnswered(answers: seq<RoundAnswer>, r: RoomId, m: MemberId, q: QuestionId, round: int) {
    exists i :: 0 <= i < |answers| && answers[i].roomId == r && answers[i].memberId == m
                && answers[i].questionId == q && answers[i].roundNumber == round
  }

  predicate AnswersUnique(answers: seq<RoundAnswer>) {
    forall i, j :: 0 <= i < j < |answers| ==>
      !(answers[i].roomId == answers[j].roomId && answers[i].memberId == answers[j].memberId
        && answers[i].questionId == answers[j].questionId && answers[i].roundNumber == answers[j].roundNumber)
  }

  /** The unique index on `code`. */
  predicate CodesUnique(rooms: map<RoomId, Room>) {
    forall r1, r2 :: r1 in rooms && r2 in rooms && r1 != r2 ==> rooms[r1].code != rooms[r2].code
  }

  predicate RoomInvariant(room: Room, r: RoomId, players: PlayerTable, questions: map<QuestionId, Question>) {
    && room.currentPlayers == |ActiveSeats(players, r)|
    && room.currentPlayers <= room.maxPlayers
    && 1 <= room.totalRounds
    && 0 <= room.currentRound <= room.totalRounds
    && (room.status != Finished ==> IsActiveMember(players, r, room.ownerId))
    && ((room.status == Playing || room.status == Paused) ==>
          room.currentQuestionId.Some? && room.currentQuestionId.value in questions)
    && IsRoomCode(room.code)
  }

  /** In a room that keeps the invariant, `isFull` means the room is exactly at capacity. */
  lemma FullMeansAtCapacity(room: Room, r: RoomId, players: PlayerTable, questions: map<QuestionId, Question>)
    requires RoomInvariant(room, r, players, questions)
    ensures IsFull(room) <==> |ActiveSeats(players, r)| == room.maxPlayers
  {
  }

  /**
   * `canStart` counts players through `current_players`; in a room that keeps
   * the invariant this means at least two active player records.
   */
  lemma CanStartMeansTwoActivePlayers(room: Room, r: RoomId, players: PlayerTable, questions: map<QuestionId, Question>)
    requires RoomInvariant(room, r, players, questions)
    ensures CanStart(room) <==> room.status == Waiting && |ActiveSeats(players, r)| >= 2
  {
  }

  /** Whoever `isOwner` accepts for a room that has not finished holds an active record in it. */
  lemma OwnerOfUnfinishedRoomIsActive(room: Room, r: RoomId, players: PlayerTable, questions: map<QuestionId, Question>,
                                      m: MemberId)
    requires RoomInvariant(room, r, players, questions)
    requires room.status != Finished && IsOwner(room, m)
    ensures HasPlayer(players, r, m) && IsActive(players[(r, m)]) && (r, m) in ActiveSeats(players, r)
  {
  }

  /** The rooms and player records agree with each other. */
  predicate RoomTablesValid(rooms: map<RoomId, Room>, nextRoomId: RoomId, players: PlayerTable,
                            questions: map<QuestionId, Question>) {
    && (forall r :: r in rooms ==> r < nextRoomId)
    && (forall k :: k in players ==> k.0 in rooms)
    && SeatsMatch(players)
    && (forall r :: r in rooms ==> RoomInvariant(rooms[r], r, players, questions))
    && CodesUnique(rooms)
  }

  class Database {
    var rooms: map<RoomId, Room>
    /** The next auto-increment id of `game_rooms`. */
    var nextRoomId: RoomId
    var players: PlayerTable
    var answers: seq<RoundAnswer>
    /** The question bank and the category ids: read, never written, by the game. */
    const questions: map<QuestionId, Question>
    const categories: set<CategoryId>

    ghost predicate Valid()
      reads this
    {
      RoomTablesValid(rooms, nextRoomId, players, questions) && AnswersUnique(answers)
    }

    constructor (categories: set<CategoryId>, questions: map<QuestionId, Question>)
      ensures Valid()
      ensures this.categories == categories && this.questions == questions
      ensures rooms == map[] && players == map[] && answers == []
    {
      this.categories := categories;
      this.questions := questions;
      rooms := map[];
      nextRoomId := 0;
      players := map[];
      answers := [];
    }
  }

  /**
   * Changing a record's flags or counters, while keeping its seat and its
   * `left_at`, keeps the room tables valid.
   */
  lemma SeatUpdateKeepsTables(rooms: map<RoomId, Room>, next: RoomId, players: PlayerTable,
                              questions: map<QuestionId, Question>, k: Seat, p: Player)
    requires RoomTablesValid(rooms, next, players, questions)
    requires k in players && p.roomId == k.0 && p.memberId == k.1 && p.leftAt == players[k].leftAt
    ensures RoomTablesValid(rooms, next, players[k := p], questions)
  {
    var rows := players[k := p];
    assert rows.Keys == players.Keys;
    forall k' | k' in rows ensures rows[k'].roomId == k'.0 && rows[k'].memberId == k'.1 {
      if k' != k {
        assert rows[k'] == players[k'];
      }
    }
    forall r | r in rooms ensures RoomInvariant(rooms[r], r, rows, questions) {
      SeatUpdateKeepsRoom(rooms[r], r, players, questions, k, p);
    }
  }

  lemma SeatUpdateKeepsRoom(room: Room, r: RoomId, players: PlayerTable, questions: map<QuestionId, Question>,
                            k: Seat, p: Player)
    requires RoomInvariant(room, r, players, questions)
    requires k in players && p.leftAt == players[k].leftAt
    ensures RoomInvariant(room, r, players[k := p], questions)
  {
    ActiveSeatsUnchanged(players, k, p, r);
    assert IsActiveMember(players[k := p], r, room.ownerId) == IsActiveMember(players, r, room.ownerId);
  }

  /** Replacing one room by a record that keeps its code and meets the room invariant keeps the room tables valid. */
  lemma RoomUpdateKeepsTables(rooms: map<RoomId, Room>, next: RoomId, players: PlayerTable,
                              questions: map<QuestionId, Question>, r: RoomId, room: Room)
    requires RoomTablesValid(rooms, next, players, questions)
    requires r in rooms && room.code == rooms[r].code
    requires RoomInvariant(room, r, players, questions)
    ensures RoomTablesValid(rooms[r := room], next, players, questions)
  {
    var rs := rooms[r := room];
    forall r1, r2 | r1 in rs && r2 in rs && r1 != r2 ensures rs[r1].code != rs[r2].code {
      assert rs[r1].code == rooms[r1].code && rs[r2].code == rooms[r2].code;
    }
  }

  /** Recording an answer nobody gave yet for its player, question and round keeps answers unique. */
  lemma AppendAnswerKeepsUnique(answers: seq<RoundAnswer>, a: RoundAnswer)
    requires AnswersUnique(answers)
    requires !HasAnswered(answers, a.roomId, a.memberId, a.questionId, a.roundNumber)
    ensures AnswersUnique(answers + [a])
  {
    var s := answers + [a];
    forall i, j | 0 <= i < j < |s|
      ensures !(s[i].roomId == s[j].roomId && s[i].memberId == s[j].memberId
                && s[i].questionId == s[j].questionId && s[i].roundNumber == s[j].roundNumber)
    {
      if j == |answers| {
        assert s[i] == answers[i];
      } else {
        assert s[i] == answers[i] && s[j] == answers[j];
      }
    }
  }
}
