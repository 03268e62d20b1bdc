# Game rooms of the English quiz backend, in Dafny

This project models the multiplayer game-room core of a Laravel quiz backend.
Members create rooms, join and leave them, mark themselves ready, and start a game.
They answer one question per round and are scored and ranked.
Beside the rooms sits single-player answering, which updates a member's score, level and per-category progress.

The model follows the controllers action by action:

- `Schema.Database` is a class whose fields are the tables the room actions write: rooms, player records keyed by their unique (room, member) seat, and round answers.
- `RoomController` models `GameRoomController`. `Store`, `Join`, `Leave`, `ToggleReady`, `Start`, `SubmitAnswer` and `End` are methods that run a guard chain and then update the tables in place. Each one is proved to keep `Database.Valid()`:
  - `current_players` equals the number of active player records;
  - `current_round` stays between 0 and `total_rounds`;
  - a room that has not finished is owned by one of its active players;
  - a playing or paused room has a current question;
  - room codes are unique and well-formed;
  - at most one answer is recorded per player, question and round.
- `SessionController` models `GameSessionController`. Round control (`NextQuestion`, `SkipQuestion`, `PauseGame`, `ResumeGame`, `FinishGame`) is a set of methods on the same `Database`. The views (`GetGameState`, `GetQuestionResults`, `GetGameSummary`) are functions.
- `GameController` models the single-player `GameController` over its own class, `SoloRecords`. Its invariant is that every `category_progress` row sums up exactly the member's `game_results` rows in that category.
- `Rooms`, `Players` and `Questions` model the `GameRoom`, `GameRoomPlayer` and `Question` models. `Scoring` holds the grading and points rules. `Text` models PHP's `trim`, `strtolower` and `strtoupper`.

Every refusal is an `Err`/`Refused` value and leaves every table unchanged.
The random choices (`inRandomOrder()->first()`, and `first()` without an order when a new owner is picked) are nondeterministic choices among the eligible rows.

Some behaviour of the code differs from what its own messages and names suggest; the model follows the code:

- The refusal message of `start` (app/Http/Controllers/Api/GameRoomController.php:335) says that all players must be ready, but `canStart` (app/Models/GameRoom.php:78-81) only checks the status and the player count. `start` checks readiness separately, at GameRoomController.php:340-348 (`RoomController.CanStartIgnoresReadiness`).
- `join` refuses any member who has a record in the room (GameRoomController.php:162-167), even a record that has left.
- `getPlayer` (app/Models/GameRoom.php:93-96) ignores `left_at`. So a member who has left can still toggle ready, submit answers and read the views.
- The new owner is whichever other active player the unordered `first()` at GameRoomController.php:250-253 returns, not necessarily the earliest to join.
- `store` only refuses a member who owns a live room (GameRoomController.php:71-81). It does not check active memberships in other rooms, so "one active membership per member across live rooms" is not an invariant of the code and is not claimed.
- `start` and `nextQuestion` pick questions without looking at `is_active` (GameRoomController.php:355-357, GameSessionController.php:120-123).

## Model

| member | source | states |
|---|---|---|
| Questions.GetOptionTexts | app/Models/Question.php:42-51 | no texts when `options` is not an array; otherwise one text per option, in order, `''` where `text` is missing |
| Questions.IsCorrectAnswerValid | app/Models/Question.php:56-64 | true for every non-multiple-choice question; for multiple choice, true exactly when some option's text equals the correct answer, and false when options is not an array |
| Questions.GetOptionsCount | app/Models/Question.php:69-76 | 0 when options is not an array, otherwise the number of option texts |
| Questions.IsFillInTheBlank | app/Models/Question.php:81-92 | a fill-in-the-blank question is never also multiple choice |
| Scoring.ScoreEarned | app/Http/Controllers/Api/GameRoomController.php:439-444 | points are 0, 10 or 15; 0 exactly when wrong; 15 exactly when correct with a non-zero time under the threshold |
| Scoring.GradingIgnoresPadding | app/Http/Controllers/Api/GameController.php:25 | surrounding whitespace added to an answer never changes its grade |
| Scoring.GradingIgnoresCase | app/Http/Controllers/Api/GameRoomController.php:438 | upper-casing an answer never changes its grade |
| Scoring.RoomBonusImpliesSoloBonus | app/Http/Controllers/Api/GameController.php:29 | an answer that earns the 15-second room bonus also earns the 30-second solo bonus; a correct answer in 20 s earns only the solo one |
| Text.BlankIffTrimsToEmpty | app/Http/Controllers/Api/GameController.php:18 | a string is refused as blank exactly when `trim` leaves nothing of it |
| Players.AccuracyRate | app/Models/GameRoomPlayer.php:48-52 | 0 before any answer; otherwise correct/total*100, within [0, 100]; 100 with no wrong answer and at least one right one; 0 with no right answer |
| Players.LeavingDeactivates | app/Models/GameRoomPlayer.php:43-46 | setting `left_at` makes a record inactive and removes exactly its seat from the room's active players, one fewer |
| Players.ActiveCountAfterStore | app/Models/GameRoomPlayer.php:43-46 | writing one record changes a room's active count by what the new record contributes minus what the old one did |
| Players.SortByStanding | app/Http/Controllers/Api/GameRoomController.php:525-530 | the rows come back as a permutation ordered by score, then correct answers, both descending |
| Rooms.GetPlayer | app/Models/GameRoom.php:88-96 | a record is found exactly when `hasPlayer` holds, whether or not it has left, and it belongs to that room and member |
| Rooms.GenerateCode | app/Models/GameRoom.php:98-101 | always six upper-case hexadecimal characters |
| Rooms.GenerateCodeKeepsDigits | app/Models/GameRoom.php:100 | lower-casing the code gives back the first six digits of the digest |
| Schema.FullMeansAtCapacity | app/Models/GameRoom.php:73-76 | in a valid room, `isFull` holds exactly when the active players fill `max_players` |
| Schema.CanStartMeansTwoActivePlayers | app/Models/GameRoom.php:78-81 | in a valid room, `canStart` holds exactly when it is waiting with at least two active players |
| Schema.OwnerOfUnfinishedRoomIsActive | app/Models/GameRoom.php:83-86 | whoever `isOwner` accepts for an unfinished room holds an active record in it |
| Schema.SeatUpdateKeepsTables | app/Http/Controllers/Api/GameRoomController.php:462-467 | changing a record's flags or counters without touching `left_at` keeps the tables valid |
| Schema.RoomUpdateKeepsTables | app/Http/Controllers/Api/GameRoomController.php:366-371 | replacing a room by one with the same code that meets the room invariant keeps the tables valid |
| Schema.AppendAnswerKeepsUnique | app/Http/Controllers/Api/GameRoomController.php:422-435 | recording an answer nobody gave yet for its player, question and round keeps answers unique |
| RoomController.GenerateUniqueCode | app/Http/Controllers/Api/GameRoomController.php:588-595 | returns a well-formed code used by no room, made from the first digest whose code is unused |
| RoomController.Store | app/Http/Controllers/Api/GameRoomController.php:59-106 | refused with no change for an invalid request or an owner of a live room; otherwise a new waiting room at round 0 with a fresh unique code, whose one active player is its ready creator |
| RoomController.StoreKeepsTables | database/migrations/2025_09_01_100320_create_game_rooms_table.php:17-24 | a new room with a unique code, round 0 and its owner as its one active player keeps every table invariant |
| RoomController.Join | app/Http/Controllers/Api/GameRoomController.php:142-195 | refused with no change unless the room is waiting, not full, never joined by the member and the member is not active in another live room; otherwise one not-ready record is added and `current_players` grows by exactly 1 |
| RoomController.JoinKeepsTables | database/migrations/2025_09_01_100350_create_game_room_players_table.php:26 | a new active record for a member without one, in a room that is not full, keeps every table invariant and adds one active player |
| RoomController.Heir | app/Http/Controllers/Api/GameRoomController.php:250-253 | finds an heir exactly when another active player exists, and the heir is such a player |
| RoomController.Leave | app/Http/Controllers/Api/GameRoomController.php:220-261 | refused with no change without a record or after leaving; otherwise sets `left_at` and removes one active player; an owner hands the room to another active player or finishes it; anyone else changes neither owner nor status |
| RoomController.LeaveKeepsTables | app/Http/Controllers/Api/GameRoomController.php:240-259 | leaving, with the hand-over or the finish, keeps every table invariant |
| RoomController.Toggled | app/Http/Controllers/Api/GameRoomController.php:305 | the ready flag is flipped and nothing else changes |
| RoomController.ToggleTwiceRestores | app/Http/Controllers/Api/GameRoomController.php:305 | toggling twice restores the player table |
| RoomController.ToggleReady | app/Http/Controllers/Api/GameRoomController.php:285-305 | works only in a waiting room and for a member with a record (left or not); flips only that record's flag and returns its new value |
| RoomController.Start | app/Http/Controllers/Api/GameRoomController.php:320-372 | succeeds exactly for the owner, when `canStart` holds, no active player is unready and the category has a question; then the room plays round 1 on a question of its category; every refusal changes nothing |
| RoomController.CanStartIgnoresReadiness | app/Http/Controllers/Api/GameRoomController.php:332-348 | `canStart` can hold while an active player is not ready |
| RoomController.Credit | app/Http/Controllers/Api/GameRoomController.php:462-467 | the score grows by the points; exactly one of the correct and incorrect counters grows by 1, the correct one exactly when the answer is correct; nothing else in the record changes |
| RoomController.SubmitAnswer | app/Http/Controllers/Api/GameRoomController.php:397-467 | only in a playing room, for a member with a record, once per question and round; correct exactly when the trimmed lower-cased texts match; one answer row is added; the score grows by the points and exactly one counter grows by 1 |
| RoomController.End | app/Http/Controllers/Api/GameRoomController.php:552-576 | only the owner ends a room that has not finished; it finishes with its end time set and nothing else changes |
| RoomController.StatusNamed | app/Http/Controllers/Api/GameRoomController.php:23 | accepts exactly the stored names of `waiting`, `playing` and `finished`, and reads each back as the status stored under it; never `paused` |
| RoomController.StatusNamedRoundTrip | app/Http/Controllers/Api/GameRoomController.php:23 | every status but `paused` is accepted under its own stored name and read back as itself; `paused` is refused |
| RoomController.Index | app/Http/Controllers/Api/GameRoomController.php:20-46 | refused exactly for an invalid filter; otherwise exactly the rooms matching the status and category filters, without full rooms when the status is absent or `waiting` |
| RoomController.IndexDefaultListsOpenRooms | app/Http/Controllers/Api/GameRoomController.php:43-45 | with no filter, a room is listed exactly when it is not full |
| RoomController.IndexNeverFiltersPaused | app/Http/Controllers/Api/GameRoomController.php:22-35 | a paused room is never listed under a status filter |
| RoomController.IndexListsFullRoomsOfOtherStatuses | app/Http/Controllers/Api/GameRoomController.php:43-45 | a full finished room is listed when finished rooms are asked for |
| RoomController.FindByCode | app/Http/Controllers/Api/GameRoomController.php:497-512 | a blank code or one not of six characters is refused; otherwise the room whose code is the upper-cased input, or not found exactly when none has it |
| RoomController.FindByOwnCode | app/Http/Controllers/Api/GameRoomController.php:503 | every room is found by its own code typed in upper or lower case |
| RoomController.Leaderboard | app/Http/Controllers/Api/GameRoomController.php:523-541 | exactly the room's active players, one line each, in standings order |
| SessionController.AdvanceAlwaysPossible | app/Http/Controllers/Api/GameSessionController.php:108-134 | from every room an advance exists: the finish when the rounds or the questions are used up, otherwise a next round on an eligible question |
| SessionController.AdvanceKeepsRoundBound | app/Http/Controllers/Api/GameSessionController.php:108-134 | an advance either finishes with the round unchanged or adds exactly one round, never passing `total_rounds` |
| SessionController.AdvanceSkipsAnsweredQuestions | app/Http/Controllers/Api/GameSessionController.php:116-122 | the next question is never one already answered in the room |
| SessionController.ReportedGameOverIsFinished | app/Http/Controllers/Api/GameSessionController.php:392-397 | an advance reported as game over leaves the room finished with its end time, and changes nothing else |
| SessionController.FinishGame | app/Http/Controllers/Api/GameSessionController.php:392-397 | the room finishes with its end time set, and the tables stay valid |
| SessionController.NextQuestion | app/Http/Controllers/Api/GameSessionController.php:89-134 | refused with no change unless the owner asks and the room is playing; then the room finishes when the rounds or the questions are used up, and otherwise moves to the next round on an unanswered question of its category |
| SessionController.SkipQuestion | app/Http/Controllers/Api/GameSessionController.php:367-386 | the same guards as `nextQuestion`, then exactly its effect |
| SessionController.PauseGame | app/Http/Controllers/Api/GameSessionController.php:168-194 | only the owner, and only playing to paused; any other status is refused with no change |
| SessionController.ResumeGame | app/Http/Controllers/Api/GameSessionController.php:201-227 | only the owner, and only paused to playing; any other status is refused with no change |
| SessionController.PauseThenResumeRestores | app/Http/Controllers/Api/GameSessionController.php:187 | pausing then resuming gives the room back unchanged |
| SessionController.ActivePlayerStats | app/Http/Controllers/Api/GameSessionController.php:49-58 | lists exactly the active players, each with their own figures |
| SessionController.GetGameState | app/Http/Controllers/Api/GameSessionController.php:18-84 | only for a member with a record; the room view carries the room's own id, name, status, rounds, time per question and start time; the question view carries no answer and no explanation; the answered flag appears exactly while playing on an existing question; the players are exactly the active ones, each with their own record's figures |
| SessionController.FastestTime | app/Http/Controllers/Api/GameSessionController.php:270 | the smallest recorded time, or none when no row has a time |
| SessionController.RoundResultsExact | app/Http/Controllers/Api/GameSessionController.php:247-251 | the answers of the room to the question in the round and only those, each as often as the table holds it |
| SessionController.MemberResultsExact | app/Http/Controllers/Api/GameSessionController.php:321-324 | the member's answers in the room and only those, each as often as the table holds it |
| SessionController.CountCorrect | app/Http/Controllers/Api/GameSessionController.php:271 | the number of rows marked correct: the size of the set of their positions, 0 exactly when none is correct |
| SessionController.GetQuestionResults | app/Http/Controllers/Api/GameSessionController.php:234-281 | exactly the answers to the current question in the current round; the question's text, correct answer and explanation; the total is their number, the correct answers their correct count, the fastest time their smallest time |
| SessionController.MyRank | app/Http/Controllers/Api/GameSessionController.php:334-336 | the position (from 1) of the member's line in the rankings, or none exactly when the member is not ranked |
| SessionController.MyRankAgreesWhenRanked | app/Http/Controllers/Api/GameSessionController.php:334-336 | for a ranked member the rank as written and as intended agree |
| SessionController.FinalRankings | app/Http/Controllers/Api/GameSessionController.php:300-318 | one ranking line per active player |
| SessionController.RankingsAreActiveRecords | app/Http/Controllers/Api/GameSessionController.php:300-318 | line i is the record of an active player, with its own score, correct and incorrect answers and accuracy, and rank i + 1 |
| SessionController.GetGameSummary | app/Http/Controllers/Api/GameSessionController.php:286-340 | only for a member with a record; the room's id, name and status; the rankings of the active players and their count, the rounds played; the member's score and accuracy from their record, their answer count, correct count, fastest and slowest time over their answers in the room, and their rank |
| SessionController.FinalRankingsOrdered | app/Http/Controllers/Api/GameSessionController.php:300-318 | rank = position + 1, ordered by score and then correct answers, both descending |
| SessionController.ActiveMemberIsRanked | app/Http/Controllers/Api/GameSessionController.php:300-336 | every active member is ranked, at the position of their own line |
| GameController.ResultsOf | app/Http/Controllers/Api/GameController.php:132 | only rows of the member, taken from the table, never more than the table holds |
| GameController.ResultsOfExact | app/Http/Controllers/Api/GameController.php:132 | every row of the member is kept, as often as the table holds it, and every other row not at all |
| GameController.InCategoryExact | app/Http/Controllers/Api/GameController.php:49-60 | the rows of the category and only those, each as often as the table holds it |
| GameController.LevelFor | app/Http/Controllers/Api/GameController.php:155 | the level is at least 1 and the score lies in its 100-point band |
| GameController.LevelForMonotone | app/Http/Controllers/Api/GameController.php:155 | a higher score never earns a lower level |
| GameController.CheckLevelUp | app/Http/Controllers/Api/GameController.php:149-160 | the level never decreases, reaches at least the level the score earns, and nothing else changes |
| GameController.CompletionPercentage | app/Http/Controllers/Api/GameController.php:67-70 | computed only after at least one attempt; lies in [0, 100] and is correct/attempted*100 |
| GameController.ProgressOrNew | app/Http/Controllers/Api/GameController.php:49-60 | the existing progress row, or a new one with zero counters |
| GameController.Recorded | app/Http/Controllers/Api/GameController.php:62-70 | attempts grow by 1; correct answers grow by 1 only when correct and never pass the attempts; the total grows by the points |
| GameController.RecordKeepsProgress | app/Http/Controllers/Api/GameController.php:35-70 | counting an answer keeps every progress row within bounds and equal to the tally of its results |
| GameController.SubmitAnswer | app/Http/Controllers/Api/GameController.php:14-86 | refused exactly for an unknown question or an invalid answer; correct exactly when the trimmed lower-cased texts match; 15 points need a non-zero time under 30 s; the score grows by exactly the points; the progress row is updated; the level becomes the larger of the old level and the level the new score earns |
| GameController.GetStats | app/Http/Controllers/Api/GameController.php:127-141 | the member's attempts and correct answers over all results; accuracy 0 before any attempt, otherwise correct/attempted*100 within [0, 100] |
| GameController.StatsAfterAnswer | app/Http/Controllers/Api/GameController.php:35-43 | one recorded answer adds one attempt, and one correct answer exactly when it is correct, to its member's statistics only |

## Left out

- HTTP validation messages, JSON responses and status codes: each action returns a `Result` or `Outcome` value instead.
- The 500 responses after a database exception: the tables are assumed never to fail.
- Transactions and concurrency: each action is one atomic step.
- Broadcasting: every `broadcast*` method is an empty placeholder in the code.
- Randomness: `inRandomOrder()->first()` and the unordered `first()` that picks a new owner are nondeterministic choices.
- `md5(uniqid())` is a sequence of digests passed in by the caller. `RoomController.GenerateUniqueCode` requires that one of them gives an unused code, since otherwise the loop never ends.
- Clocks: `now()` is an abstract `Clock` parameter; only set or null matters.
- Authentication: the acting member is a parameter. The single-player `SubmitAnswer` requires the member to exist, as the authenticated user always does.
- Member names and other loaded relations in the responses, the `settings` column, `withCount('players')`, ordering by `created_at` and pagination in `index`.
- `show`, and the single-player `getLeaderboard` and `getProgress`: thin queries with no logic.
- `average_time`, `game_duration` and the category name in the views.
- Ids compare as plain integers in `isOwner`, and PHP's loose `in_array` in `isCorrectAnswerValid` is exact string equality.
- Players.AccuracyRate: the exact share, without PHP's rounding to two decimals.
- GameController.GetStats: the exact share, without PHP's rounding to two decimals.
- GameController.CompletionPercentage: an exact real instead of the decimal column.
- RoomController.Index: returns the set of selected rooms, not a page in creation order.
- RoomController.Leaderboard: the order among players tied on both keys is left open, as in the query.
- `strtolower`/`strtoupper` map ASCII letters only, as in PHP 8.2 and later.

## Findings

| source | as written | input that shows it | evidently intended | confidence | as-written member | corrected member |
|---|---|---|---|---|---|---|
| app/Http/Controllers/Api/GameSessionController.php:113-128 | when no question is left, `finishGame` runs inside the transaction opened at line 113, and the action returns without committing it, so the finish is rolled back when the connection closes while the reply says the game finished | a playing room in round 1 of 3 whose category has no unanswered question | the room finishes, with its end time set | medium, not executed | SessionController.ExhaustedCategoryKeepsPlayingAsWritten | SessionController.NextQuestion |
| app/Http/Controllers/Api/GameSessionController.php:334-336 | `search` returns `false` for a member missing from the rankings, and `false + 1` is 1 | a member who has left the room asks for the summary while another player is ranked first | no rank for a member who is not ranked | high, not executed | SessionController.MyRankAsWrittenRanksAbsentMemberFirst | SessionController.MyRank |
