/**
 * Player records of the `game_room_players` table (app/Models/GameRoomPlayer.php)
 * and the queries the controllers run over them: the active players of a room
 * and the standings order used by the leaderboard and the final rankings.
 */
module Players {
  import opened Basics

  datatype Player = Player(
    roomId: RoomId,
    memberId: MemberId,
    isReady: bool,
    currentScore: nat,
    answersCorrect: nat,
    answersIncorrect: nat,
    joinedAt: Option<Clock>,
    leftAt: Option<Clock>)

  /** `isActive`: a player is active until `left_at` is set. */
  predicate IsActive(p: Player) {
    p.leftAt.None?
  }

  /**
   * `getAccuracyRate` before its rounding to two decimals: the share of
   * correct answers as a percentage, 0 before any answer.
   */
  function AccuracyRate(correct: nat, incorrect: nat): (rate: real)
    ensures correct + incorrect == 0 ==> rate == 0.0
    ensures correct + incorrect > 0 ==> rate * (correct + incorrect) as real == correct as real * 100.0
    ensures 0.0 <= rate <= 100.0
    ensures correct == 0 ==> rate == 0.0
    ensures correct > 0 && incorrect == 0 ==> rate == 100.0
  {
    var total := correct + incorrect;
    if total > 0 then
      ShareBounds(correct as real, total as real);
      (correct as real / total as real) * 100.0
    else 0.0
  }

  /** A part of a positive whole is a share between 0 and 1 of it. */
  lemma ShareBounds(part: real, whole: real)
    requires 0.0 <= part <= whole && whole > 0.0
    ensures 0.0 <= part / whole <= 1.0 && part / whole * whole == part
  {
  }

  function PlayerAccuracy(p: Player): real {
    AccuracyRate(p.answersCorrect, p.answersIncorrect)
  }

  /** A seat: the (`game_room_id`, `member_id`) pair, unique in `game_room_players`. */
  type Seat = (RoomId, MemberId)

  /** The `game_room_players` table, keyed by its unique seat. */
  type PlayerTable = map<Seat, Player>

  /** Every record is stored under its own room and member. */
  predicate SeatsMatch(players: PlayerTable) {
    forall k :: k in players ==> players[k].roomId == k.0 && players[k].memberId == k.1
  }

  /** The seats of room `r`'s active players (`players()->whereNull('left_at')`). */
  function ActiveSeats(players: PlayerTable, r: RoomId): set<Seat> {
    set k | k in players && k.0 == r && IsActive(players[k])
  }

  /** Member `m` holds an active record in room `r`. */
  predicate IsActiveMember(players: PlayerTable, r: RoomId, m: MemberId) {
    (r, m) in players && IsActive(players[(r, m)])
  }

  /** Whether seat `k` holding `p` counts among room `r`'s active players. */
  function Contribution(k: Seat, p: Player, r: RoomId): nat {
    if k.0 == r && IsActive(p) then 1 else 0
  }

  /**
   * Storing `p` at seat `k` changes the number of active players of any room
   * by what the new record contributes minus what the old one did.
   */
  lemma ActiveCountAfterStore(players: PlayerTable, k: Seat, p: Player, r: RoomId)
    ensures |ActiveSeats(players[k := p], r)| + (if k in players then Contribution(k, players[k], r) else 0)
         == |ActiveSeats(players, r)| + Contribution(k, p, r)
  {
    var before := ActiveSeats(players, r);
    var after := ActiveSeats(players[k := p], r);
    assert after - {k} == before - {k};
    assert k in before <==> k in players && Contribution(k, players[k], r) == 1;
    assert k in after <==> Contribution(k, p, r) == 1;
    CardWithout(before, k);
    CardWithout(after, k);
  }

  /** Setting `left_at` on an active record removes exactly its seat from the room's active players. */
  lemma LeavingDeactivates(players: PlayerTable, k: Seat, t: Clock)
    requires k in players && IsActive(players[k])
    ensures var after := players[k := players[k].(leftAt := Some(t))];
      && !IsActive(after[k])
      && ActiveSeats(after, k.0) == ActiveSeats(players, k.0) - {k}
      && |ActiveSeats(after, k.0)| == |ActiveSeats(players, k.0)| - 1
  {
    var after := players[k := players[k].(leftAt := Some(t))];
    assert ActiveSeats(after, k.0) == ActiveSeats(players, k.0) - {k};
    CardWithout(ActiveSeats(players, k.0), k);
  }

  lemma CardWithout<T>(s: set<T>, x: T)
    ensures |s| == |s - {x}| + (if x in s then 1 else 0)
  {
    if x in s {
      assert s == (s - {x}) + {x};
    } else {
      assert s - {x} == s;
    }
  }

  /** A record whose room and activity stay the same leaves every room's active seats as they were. */
  lemma ActiveSeatsUnchanged(players: PlayerTable, k: Seat, p: Player, r: RoomId)
    requires k in players && IsActive(p) == IsActive(players[k])
    ensures ActiveSeats(players[k := p], r) == ActiveSeats(players, r)
  {
  }

  /** The records at `seats`, one per seat, in no particular order (the order a query without `ORDER BY` returns). */
  ghost function RowsOf(players: PlayerTable, seats: set<Seat>): (rows: seq<Player>)
    requires seats <= players.Keys
    ensures |rows| == |seats|
    ensures forall k :: k in seats ==> players[k] in rows
    ensures forall p :: p in rows ==> exists k :: k in seats && players[k] == p
    decreases seats
  {
    if seats == {} then []
    else
      var k :| k in seats;
      [players[k]] + RowsOf(players, seats - {k})
  }

  /** The records of room `r`'s active players. */
  ghost function ActiveRows(players: PlayerTable, r: RoomId): (rows: seq<Player>)
    ensures |rows| == |ActiveSeats(players, r)|
    ensures forall p :: p in rows <==> exists k :: k in ActiveSeats(players, r) && players[k] == p
  {
    RowsOf(players, ActiveSeats(players, r))
  }

  /**
   * The standings order: higher `current_score` first, and on equal scores
   * more `answers_correct` first (`orderBy('current_score', 'desc')->orderBy('answers_correct', 'desc')`).
   */
  predicate RanksAtLeast(a: Player, b: Player) {
    a.currentScore > b.currentScore
    || (a.currentScore == b.currentScore && a.answersCorrect >= b.answersCorrect)
  }

  predicate Ranked(s: seq<Player>) {
    forall i, j :: 0 <= i < j < |s| ==> RanksAtLeast(s[i], s[j])
  }

  predicate RanksAtLeastAll(x: Player, s: seq<Player>) {
    forall y :: y in s ==> RanksAtLeast(x, y)
  }

  lemma RankedCons(x: Player, s: seq<Player>)
    requires Ranked(s) && RanksAtLeastAll(x, s)
    ensures Ranked([x] + s)
  {
    var t := [x] + s;
    forall i, j | 0 <= i < j < |t| ensures RanksAtLeast(t[i], t[j]) {
      if i > 0 {
        assert t[i] == s[i - 1] && t[j] == s[j - 1];
      } else {
        assert t[j] in s;
      }
    }
  }

  function InsertByStanding(p: Player, s: seq<Player>): (r: seq<Player>)
    requires Ranked(s)
    ensures Ranked(r)
    ensures multiset(r) == multiset(s) + multiset{p}
  {
    if s == [] then [p]
    else if RanksAtLeast(p, s[0]) then
      assert RanksAtLeastAll(p, s) by {
        forall y | y in s ensures RanksAtLeast(p, y) {
          var k :| 0 <= k < |s| && s[k] == y;
          if k > 0 { assert RanksAtLeast(s[0], s[k]); }
        }
      }
      RankedCons(p, s);
      [p] + s
    else
      var rest := InsertByStanding(p, s[1..]);
      assert s == [s[0]] + s[1..];
      assert RanksAtLeastAll(s[0], rest) by {
        forall y | y in rest ensures RanksAtLeast(s[0], y) {
          assert y in multiset(rest);
          if y != p {
            assert y in multiset(s[1..]);
            var k :| 0 <= k < |s[1..]| && s[1..][k] == y;
            assert s[k + 1] == y;
          }
        }
      }
      RankedCons(s[0], rest);
      [s[0]] + rest
  }

  /** The rows reordered into standings order: a permutation that is ranked. */
  function SortByStanding(s: seq<Player>): (r: seq<Player>)
    ensures Ranked(r)
    ensures multiset(r) == multiset(s)
  {
    if s == [] then []
    else
      assert s == [s[0]] + s[1..];
      InsertByStanding(s[0], SortByStanding(s[1..]))
  }
}
