/**
 * A game room (app/Models/GameRoom.php): its record, its status constants, the
 * predicates the controllers guard on, the lookup of a member's player record
 * and the shape of the six-character room code.
 */
module Rooms {
  import opened Basics
  import opened Text
  import opened Players

  /** The `status` enum column; its four constants are the only values it holds. */
  datatype Status = Waiting | Playing | Finished | Paused

  /** The value stored in the `status` column for each status (the `STATUS_*` constants). */
  function StatusName(s: Status): string {
    match s
    case Waiting => "waiting"
    case Playing => "playing"
    case Finished => "finished"
    case Paused => "paused"
  }

  /** The statuses the controllers treat as an active room: `whereIn('status', ['waiting', 'playing', 'paused'])`. */
  predicate IsLive(s: Status) {
    s == Waiting || s == Playing || s == Paused
  }

  datatype Room = Room(
    name: string,
    code: string,
    status: Status,
    maxPlayers: int,
    currentPlayers: int,
    ownerId: MemberId,
    categoryId: CategoryId,
    currentQuestionId: Option<QuestionId>,
    currentRound: int,
    totalRounds: int,
    timePerQuestion: int,
    startedAt: Option<Clock>,
    endedAt: Option<Clock>)

  predicate IsFull(room: Room) {
    room.currentPlayers >= room.maxPlayers
  }

  /** `canStart`: a waiting room with at least two players; readiness is not part of it. */
  predicate CanStart(room: Room) {
    room.status == Waiting && room.currentPlayers >= 2
  }

  predicate IsOwner(room: Room, m: MemberId) {
    room.ownerId == m
  }

  /** `hasPlayer`: `m` has a record in room `r`, whether or not it has left. */
  predicate HasPlayer(players: PlayerTable, r: RoomId, m: MemberId) {
    (r, m) in players
  }

  /**
   * `getPlayer`: `m`'s record in room `r`, whether or not it has left; there
   * is one exactly when `hasPlayer` holds, and it belongs to that room and member.
   */
  function GetPlayer(players: PlayerTable, r: RoomId, m: MemberId): (found: Option<Player>)
    requires SeatsMatch(players)
    ensures found.Some? <==> HasPlayer(players, r, m)
    ensures found.Some? ==> found.value.roomId == r && found.value.memberId == m
  {
    if (r, m) in players then Some(players[(r, m)]) else None
  }

  const CodeLength := 6
  const DigestLength := 32

  predicate IsLowerHexDigit(c: char) {
    ('0' <= c <= '9') || ('a' <= c <= 'f')
  }

  predicate IsUpperHexDigit(c: char) {
    ('0' <= c <= '9') || ('A' <= c <= 'F')
  }

  /** What `md5(...)` returns: 32 lower-case hexadecimal digits. */
  predicate IsMd5Digest(d: string) {
    |d| == DigestLength && forall i :: 0 <= i < |d| ==> IsLowerHexDigit(d[i])
  }

  /** A well-formed room code: six upper-case hexadecimal digits. */
  predicate IsRoomCode(code: string) {
    |code| == CodeLength && forall i :: 0 <= i < |code| ==> IsUpperHexDigit(code[i])
  }

  /** `generateCode`: the first six digits of the digest, upper-cased; always a well-formed room code. */
  function GenerateCode(digest: string): (code: string)
    requires IsMd5Digest(digest)
    ensures IsRoomCode(code)
  {
    UpperSpec(digest[..CodeLength]);
    Upper(digest[..CodeLength])
  }

  /** Lower-casing a generated code gives back the digest's prefix it was made from. */
  lemma GenerateCodeKeepsDigits(digest: string)
    requires IsMd5Digest(digest)
    ensures Lower(GenerateCode(digest)) == digest[..CodeLength]
  {
    var code := GenerateCode(digest);
    UpperSpec(digest[..CodeLength]);
    LowerSpec(code);
    forall i | 0 <= i < CodeLength ensures LowerChar(code[i]) == digest[i] {
      assert IsLowerHexDigit(digest[i]);
    }
  }
}
