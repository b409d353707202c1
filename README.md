# Kode-Kaisen battle rooms, modelled in Dafny

Kode-Kaisen runs head-to-head coding battles. A Socket.IO server keeps one
record per battle room: its players, its problem, whether the battle is on,
the clock, and the winner. Five socket events update these records in place:

- `join-battle`
- `code-change`
- `run-tests`
- `start-battle`, which also schedules a repeating one-second tick
- `disconnect`

Each browser runs a React arena component. It keeps a local copy of the room,
merges the server's messages into that copy, counts the clock down locally,
and formats the clock as `M:SS`. A scoreboard ranks the players by score.

This project models those three parts.

- `common.dfy`: players, the problem record, and the protocol constants. A
  passed case has status id 3 and earns 10 points, a battle lasts 300 seconds,
  and the first catalogue problem has 3 test cases.
- `grading.dfy`: the `run-tests` loop. It counts accepted verdicts and builds
  the per-case `test-result` messages.
- `scoreboard.dfy`: the stable descending sort, `findIndex`, the 1-based rank,
  typing speed, and the total of passed cases.
- `rooms.dfy`: a room as a value, and each server event as a function on it.
  It also holds event sequences (`Run`) and the registry as a map from room key
  to room value. These are the specification functions.
- `server.dfy`: the server's own state as classes updated in place.
  - `Room` has one field per room field, plus a count of live intervals.
  - `Registry` holds the `rooms` map.
  - Every handler is a method proved to leave the state the matching
    specification function gives.
  - The `disconnect` handler is a loop over the room keys.
- `arena.dfy`: the client reducers, the local countdown, `formatTime` and its
  read-back, and the run and start guards. Lemmas relate these to the server
  functions.
  - `ParseClock` is the reader of the standard "M:SS" form. It takes minutes
    with no leading zero, a colon, then two digits below 60, and it refuses any
    other text. `formatTime` and this reader are inverse on clocks that are
    not negative, so the read-back fixes the text.

Scores and clocks are unbounded integers. The source holds them as JavaScript
numbers, but in the modelled flows they stay small integers. `Object.values` and
`Object.keys` follow insertion order, because socket ids are not integer-like
keys. So a room keeps the join order of its player keys in `order`. The
time-out winner is the head of that roster after a stable sort by descending
score. That is the first player in join order whose score is maximal.

## Model

| member | source | states |
|---|---|---|
| Grading.Passed | server.ts:100-103 | The pass count never exceeds the number of verdicts. |
| Grading.ScoreRun | server.ts:100-109 | The loop's count equals the number of verdicts with status 3. It emits one message per verdict, in verdict order. A message says "passed" exactly when its verdict is 3. Its score is the pre-run score plus 10 for a passed case, otherwise the pre-run score: a projection, not a running total. |
| Grading.AllPassedIff | server.ts:114 | The count equals the number of cases exactly when every verdict is 3. |
| Grading.PassedAppend | server.ts:100-103 | The count over two verdict lists joined together is the sum of their counts. |
| Grading.CaseReport | server.ts:104-108 | One `test-result` message carries the player's id. It says "passed" exactly when the verdict is 3, and its score is the pre-run score plus 10 if passed, otherwise the pre-run score. |
| Grading.Report | server.ts:101-109 | One message per verdict. The i-th says "passed" exactly when the i-th verdict is 3, and every score lies between the pre-run score and 10 above it. |
| ScoreBoard.Insert | src/components/ScoreBoard.tsx:21 | One insertion step of the sort adds exactly the inserted player to the multiset of the list. The new head is that player or the old head. |
| ScoreBoard.InsertSorted | src/components/ScoreBoard.tsx:21 | Inserting into a list ordered by non-increasing score keeps it ordered. |
| ScoreBoard.SortByScore | src/components/ScoreBoard.tsx:21 | The sorted copy is a permutation of the players (same multiset and length), ordered by non-increasing score. |
| ScoreBoard.InsertWithScore | src/components/ScoreBoard.tsx:21 | An insertion keeps, for every score, the order of the players with that score, and places the inserted player in front of its ties. |
| ScoreBoard.SortKeepsTies | src/components/ScoreBoard.tsx:21 | The sort is stable. For every score, the players with that score appear in the sorted copy in their original order. |
| ScoreBoard.SortHeadIsFirstTop | server.ts:144-145 | The head of the sorted list is the first player, in list order, whose score is maximal. |
| ScoreBoard.FirstTopOf | server.ts:142-145 | A non-empty list has a first top-scoring position. |
| ScoreBoard.FirstTopUnique | server.ts:142-145 | That position is unique. |
| ScoreBoard.FindIndex | src/components/ScoreBoard.tsx:24 | `findIndex` returns -1 when no player has the id. Otherwise it returns the first position whose id matches. |
| ScoreBoard.Rank | src/components/ScoreBoard.tsx:23-25 | The rank lies in 0..n. It is 0 exactly when no player has the id. A positive rank r puts the player at position r-1 of the sorted copy. |
| ScoreBoard.AbsentFromSorted | src/components/ScoreBoard.tsx:21-25 | An id is missing from the players exactly when it is missing from the sorted copy. |
| ScoreBoard.SortDistinct | src/components/ScoreBoard.tsx:21 | Sorting keeps ids distinct. |
| ScoreBoard.RankOfPosition | src/components/ScoreBoard.tsx:50-52 | With distinct ids, the rank of the player at position `index` of the sorted list is `index + 1`. The player ranked 1 has the highest score. |
| ScoreBoard.Utf16Length | src/components/ScoreBoard.tsx:29 | A JavaScript string's `length` counts UTF-16 code units: a single character counts 2 beyond U+FFFF and 1 otherwise. The length lies between the number of characters and twice that, and equals it when no character lies beyond U+FFFF. |
| ScoreBoard.Utf16LengthAppend | src/components/ScoreBoard.tsx:29 | The `length` of joined strings is the sum of their lengths. With the one-character rule this fixes the `length` of every string. |
| ScoreBoard.TypingSpeed | src/components/ScoreBoard.tsx:27-30 | The speed is the UTF-16 length of the code. It is zero exactly when the code is empty, and lies between the number of characters and twice that. |
| ScoreBoard.AstralCharCountsTwice | src/components/ScoreBoard.tsx:29 | Code made of one emoji has a typing speed of 2. |
| ScoreBoard.TotalPassedOfRanking | src/components/ScoreBoard.tsx:136 | The "Total Passed" sum over the players equals the sum over the ranking. |
| ScoreBoard.TotalPassed | src/components/ScoreBoard.tsx:136 | With non-negative counts, the total is non-negative and at least every single player's count. |
| Rooms.Roster | server.ts:142 | `Object.values` lists the players in join order, one per key. |
| Rooms.SizeOfWellFormed | server.ts:129 | The number of player keys equals the roster length. |
| Rooms.NewRoom | server.ts:56-64 | A new room is well formed, has no players, holds the first problem, is in the lobby with 300 s, and has no winner and no intervals. |
| Rooms.StarterCode | server.ts:71 | `room.problem?.starterCode \|\| ''` is the problem's starter code, or the empty text without a problem. |
| Rooms.Joined | server.ts:66-75 | The joiner's entry is (re)set with the starter code, score 0, count 0 and ready. No other player changes. A new key goes to the end of the join order and a re-join keeps its place. Problem, phase, clock, winner and timers are kept. |
| Rooms.JoinAll | server.ts:53-75 | Registry-level join. The key set gains `roomId` and no other room changes. The room is the joined old room, or the joined new room if the key was absent. |
| Rooms.JoinCreatesOnlyWhenAbsent | server.ts:56-64 | A missing key gets a room with only the joiner, the first problem, in the lobby, 300 s, no winner and no intervals. An existing room keeps all its non-player fields. |
| Rooms.CodeChanged | server.ts:82-87 | Only the named player's code changes. Keys, other players and every room field stay. |
| Rooms.Graded | server.ts:100-118 | The count is overwritten with the number of accepted verdicts. The score grows by 10 times that count, so it never decreases. Nothing else about the player changes and the other players stay. If every case passed, the submitter wins and the battle stops. Otherwise winner and phase stay. |
| Rooms.RunTests | server.ts:94-118 | When the room is not running, has no problem, has no such player, or the service failed, nothing changes. Otherwise the room is the `Graded` room. The room stays well formed, keeps its keys and order, and a present player's score never decreases. |
| Rooms.RunReport | server.ts:101-109 | No messages when the run is refused. Otherwise one message per verdict, each naming the submitter, "passed" exactly for verdict 3, scored from the pre-run score. |
| Rooms.Started | server.ts:126-135 | With fewer than two players, nothing changes. Otherwise the room starts with 300 s, no winner and one more live interval, even if a battle is already on. |
| Rooms.TimeWinnerIsFirstTop | server.ts:142-145 | The time-out winner is the first player in join order with a maximal score. That player's score bounds every other player's, and all earlier players score strictly less. |
| Rooms.TimeWinner | server.ts:142-145 | The time-out winner is a player of the room, and no player scores more. |
| Rooms.Ticked | server.ts:135-148 | A tick takes exactly one second off the clock. Above zero, nothing else changes. At zero or below, the battle stops and that interval is cleared. An occupied room then gets the time-out winner; an empty one keeps its winner. |
| Rooms.RemoveId | server.ts:159 | The join order without the leaver holds exactly the other keys. Without the leaver in it, the order is unchanged. |
| Rooms.RemoveIdKeepsOrder | server.ts:159 | With distinct keys, removing the leaver at position i leaves the keys before i followed by the keys after i. |
| Rooms.Removed | server.ts:159 | `delete room.players[id]` removes exactly that player, and the join order loses exactly that id (`RemoveId`). The other fields stay and a well-formed room stays well formed. |
| Rooms.Step | server.ts:53-159 | Every enabled event keeps a room well formed: distinct join order, order matching the keys, ids matching keys. |
| Rooms.Run | server.ts:53-159 | Any sequence of enabled events keeps a room well formed. |
| Rooms.RunAppend | server.ts:135-151 | Running two event sequences one after the other is running their concatenation. |
| Rooms.ScoreNeverDecreases | server.ts:111-112 | Events that neither re-join nor remove a player never lower that player's score, and the player stays present. |
| Rooms.RunsAccumulate | server.ts:111-112 | After two gradings the score holds the points of both runs. The count holds only the second run's. |
| Rooms.RerunAfterRestart | server.ts:95-133 | A fully passing run makes the submitter winner and stops the battle. A repeat submission is then ignored. After a restart, the same run adds its full points again. |
| Rooms.CountdownEnds | server.ts:135-148 | With a live interval and t > 0 seconds left, t ticks bring the clock to exactly 0. The battle stops, that interval is cleared and the players are unchanged. The winner is the time-out winner, or the old winner in an empty room. |
| Rooms.DoubleStartOverrunsClock | server.ts:129-138 | Starting twice leaves two intervals on one clock. After 301 ticks, the clock shows -1 and both intervals are cleared. |
| Rooms.CompletionWinnerReplacedAtTimeout | server.ts:114-146 | A concrete room in which "a" wins by completion while "b" has more points. The still-running interval's last tick replaces the winner with "b". |
| Rooms.AfterDisconnectOccupied | server.ts:158-165 | A room that survives a disconnect is still well formed and has a player. |
| Rooms.AfterDisconnect | server.ts:158-165 | A room is deleted exactly when the leaver was its only player. A surviving room loses exactly the leaver's key and keeps every field but its players and order. A room without the leaver is unchanged. |
| Rooms.DisconnectAll | server.ts:156-168 | A room remains exactly when the leaver was not its only player. A remaining room is the room after removing the leaver. The registry invariant holds. |
| Rooms.LeaveOne | server.ts:158-166 | One loop step touches only the visited key and adds none. |
| Rooms.LeaveOneCases | server.ts:158-166 | The step leaves a room without the id alone and deletes a room whose only player leaves. Otherwise it stores the room minus the player. |
| Rooms.DisconnectPart | server.ts:157 | After visiting the keys in `done`, the registry holds the unvisited keys plus the visited rooms that keep a player. |
| Rooms.DisconnectPartStep | server.ts:157-166 | Visiting one more key is exactly one `LeaveOne` step on the partial result. |
| Rooms.DisconnectPartBounds | server.ts:157 | The loop starts from the registry. Once every key is visited, the result is `DisconnectAll`. |
| Rooms.DisconnectRemovesEverywhere | server.ts:156-168 | After a disconnect, no room holds the id. Rooms that never held it are unchanged. A room it shared keeps its phase and winner and loses exactly that key. Every deleted room had the leaver as its only player. |
| Server.Room.constructor | server.ts:57-63 | A new room has no players, the first problem, no battle, 300 s, no winner and no intervals. |
| Server.Room.Join | server.ts:68-75 | The fields afterwards are the `Joined` state of the fields before. |
| Server.Room.ChangeCode | server.ts:87 | The fields afterwards are the `CodeChanged` state. |
| Server.Room.RunTests | server.ts:95-123 | The fields afterwards are the guarded `Graded` state. The messages are the per-case projections from the pre-run score. There are none when the guard fails, the service fails, or the player is gone. |
| Server.Room.Start | server.ts:129-135 | The fields afterwards are the `Started` state. |
| Server.Room.Tick | server.ts:136-148 | The fields afterwards are the `Ticked` state. The winner is taken from a stable sort of the roster. |
| Server.Room.Leave | server.ts:159 | The fields afterwards are the `Removed` state. |
| Server.Registry.constructor | server.ts:48 | The registry starts empty. |
| Server.Registry.Drop | server.ts:162 | `rooms.delete(key)` removes exactly that key from the map and from its abstract value. |
| Server.Registry.Join | server.ts:53-80 | The registry value becomes `JoinAll`. Existing room objects stay under their keys, and a missing key gets a fresh room. |
| Server.Registry.JoinNew | server.ts:56-64 | A fresh room is registered under the new key, and the value gains the joined new room. |
| Server.Registry.Register | server.ts:57 | `rooms.set` adds the new room under its key. Nothing else changes. |
| Server.Registry.ChangeCode | server.ts:82-90 | An unknown room is a no-op. Otherwise only that room's value becomes `CodeChanged`. |
| Server.Registry.RunTests | server.ts:92-124 | An unknown room changes nothing and sends nothing. Otherwise only that room changes, to `RunTests`, and the messages are `RunReport`. |
| Server.Registry.Start | server.ts:126-154 | An unknown room is a no-op. Otherwise only that room's value becomes `Started`. |
| Server.Registry.Tick | server.ts:135-151 | Only the ticked room's value changes, to `Ticked`. |
| Server.Registry.LeaveRoom | server.ts:158-166 | One `forEach` iteration turns the value into `LeaveOne` and deletes at most the visited key. It changes no other room object, and no room of the registry the loop started from loses an interval, even when deleted. When it deletes the key, the socket was a player there and the deleted room object's state is the old state with that player removed. |
| Server.Registry.Disconnect | server.ts:156-168 | The loop turns the registry value into `DisconnectAll`. It changes only the registry and its room objects. Surviving keys keep their room objects, and every room it visited, deleted or not, keeps its live intervals. Every deleted room held the socket, and its room object's state is its old state with the socket's player removed. |
| Server.Registry.VisitRoom | server.ts:157-166 | One step of the loop keeps the loop state, with one key fewer to visit. |
| Arena.Initial | src/components/BattleArena.tsx:34-40 | The client starts with no players, no battle and 300 s. |
| Arena.CodeUpdated | src/components/BattleArena.tsx:81-90 | The spread update adds the id if absent, as an entry with only code and at the end of the key order. It sets that entry's code and keeps all its other fields. No other entry or state field changes. |
| Arena.OnCodeUpdate | src/components/BattleArena.tsx:79-91 | With the local id in scope, an update about the local player is ignored. Any other update is `CodeUpdated`. |
| Arena.OnCodeUpdateAsWritten | src/components/BattleArena.tsx:79-91 | The handler as registered compares against the empty id it captured. An update naming the empty id is ignored, and every other update is applied as `CodeUpdated`, the local player's own included. |
| Arena.OwnUpdateNotIgnored | src/components/BattleArena.tsx:79-80 | For an assigned local id, an update about the local player is ignored by the intended handler. The handler as written applies it. |
| Arena.LatestCodeWins | src/components/BattleArena.tsx:81-90 | Two code updates about one player leave only the second visible. |
| Arena.OnTestResult | src/components/BattleArena.tsx:102-112 | The update fails exactly when the id is absent. Otherwise the entry takes the carried score, and its count goes up by one exactly when the case passed. No other entry or field changes. |
| Arena.ApplyResults | src/components/BattleArena.tsx:102-112 | When every message names a known player, all of them apply. The result then differs only in its players, has the same keys, and a player that no message names keeps its entry. |
| Arena.ResultsAccumulate | src/components/BattleArena.tsx:102-112 | Applying a run's messages raises the local count by the run's accepted verdicts. Only that player's score and count change. |
| Arena.OnBattleEnded | src/components/BattleArena.tsx:116-117 | Sets the winner and stops the battle. Nothing else changes. |
| Arena.Countdown | src/components/BattleArena.tsx:129-136 | Timer steps change only the clock, and a non-negative clock stays between 0 and where it started. |
| Arena.CountdownStep | src/components/BattleArena.tsx:129-136 | One timer step changes only the clock. |
| Arena.CountdownStopsAtZero | src/components/BattleArena.tsx:129-136 | From a non-negative clock, n steps take n seconds off while the battle is on, stop at 0 and never go below. Nothing else changes. |
| Arena.EndedClockStands | src/components/BattleArena.tsx:116-136 | After `battle-ended`, the local clock no longer moves. |
| Arena.KnownPlayers | src/components/BattleArena.tsx:69-71 | A server player record becomes a record of full entries with the same keys. |
| Arena.FromRoomAsWritten | src/components/BattleArena.tsx:69-71 | The snapshot replaces the local state: same keys and order, full entries, phase, clock and winner. The client's `currentProblem` is absent because the server sends `problem`. For a well-formed room it is the intended snapshot with the problem lost. |
| Arena.ProblemLost | src/components/BattleArena.tsx:289 | After any snapshot of a room with a problem, the client's problem is not that problem. |
| Arena.FromRoom | src/components/BattleArena.tsx:69-71 | The intended snapshot copies the room: same keys and order, full entries, problem, phase, clock and winner. |
| Arena.CodeUpdateMirrorsServer | src/components/BattleArena.tsx:79-91 | On a client that mirrors the room, another player's `code-update` yields the mirror of the server's `CodeChanged` room. |
| Arena.CountsDisagreeDuringRun | src/components/BattleArena.tsx:109 | After a run's messages, the client shows the old count plus this run's. The server, and its next snapshot, holds only this run's count. |
| Arena.CodeChangeRequest | src/components/BattleArena.tsx:138-143 | A `code-change` goes out exactly when connected with an assigned id, carrying that id and the code, empty or not. |
| Arena.EditReachesServer | src/components/BattleArena.tsx:138-143 | An edit of an assigned player that the room holds reaches the server, which stores exactly that text for the player. |
| Arena.StartBattleRequest | src/components/BattleArena.tsx:151-155 | A `start-battle` naming the room goes out exactly when connected. |
| Arena.RunTestsRequest | src/components/BattleArena.tsx:145-149 | A request goes out exactly when connected with an assigned id and non-empty code. It carries that id and code. |
| Arena.CanRun | src/components/BattleArena.tsx:291 | The run button is enabled only during a battle, and pressing it with a connection and an assigned id sends a request. |
| Arena.RequestFromMirrorIsGraded | src/components/BattleArena.tsx:291 | A request from an enabled run button on a mirroring client passes the server's guard and is graded. |
| Arena.ShowStartButton | src/components/BattleArena.tsx:314 | The start button shows only in the lobby and with at least two players. |
| Arena.StartButtonHonoured | src/components/BattleArena.tsx:314 | When the button shows on a mirroring client, the server accepts `start-battle`: 300 s, no winner, one more interval. |
| Arena.ThirdPlayerHidesButton | src/components/BattleArena.tsx:314 | With three players and no battle, the button is hidden though the server would start. |
| Arena.DigitChar | src/components/BattleArena.tsx:191 | A digit value maps to a digit character that reads back as that value. |
| Arena.Digits | src/components/BattleArena.tsx:191 | The numeral is non-empty, all digits, one character exactly below 10, and at most two below 100. From 10 on it does not start with '0'. |
| Arena.DigitsOfValue | src/components/BattleArena.tsx:191 | A numeral with no leading zero is the numeral of the number it denotes, so `toString` gives the only such numeral of a number. |
| Arena.ValueOfDigits | src/components/BattleArena.tsx:191 | The numeral of n reads back as n. |
| Arena.IntToString | src/components/BattleArena.tsx:191 | `toString` gives the numeral, with a leading minus for negatives. |
| Arena.PadStart2 | src/components/BattleArena.tsx:191 | `padStart(2, '0')` gives length max(2, \|s\|), ends with s, and is preceded only by zeros. |
| Arena.JsRemainder | src/components/BattleArena.tsx:190 | JavaScript's `%` agrees with the modulus for non-negative dividends. It takes the dividend's sign otherwise, and its magnitude stays below the divisor. |
| Arena.FormatTime | src/components/BattleArena.tsx:188-192 | For s ≥ 0 the text is exactly the numeral of s / 60, a colon, then the tens and units digit of s mod 60. |
| Arena.FormatTimeReadsBack | src/components/BattleArena.tsx:188-192 | For s ≥ 0 the standard "M:SS" reader gives s back from `formatTime(s)`. |
| Arena.OnlyFormatTimeReadsBack | src/components/BattleArena.tsx:188-192 | Any text the standard reader accepts is `formatTime` of the value it reads. With the read-back this fixes the text of every clock. |
| Arena.StandardClock | src/components/BattleArena.tsx:191 | A text the standard reader accepts is the numeral of some minutes, a colon, then the two digits of some seconds below 60, and reads as minutes × 60 + seconds. |
| Arena.ClockText | src/components/BattleArena.tsx:191 | For minutes m ≥ 0 and seconds 0 ≤ r < 60 the template gives exactly the numeral of m, a colon, then the tens and units digit of r. |
| Arena.TwoDigits | src/components/BattleArena.tsx:191 | A padded value below 60 is its tens digit then its units digit. |
| Arena.ReadBack | src/components/BattleArena.tsx:191 | A numeral with no leading zero, a colon, a tens digit below 6 and a units digit read back as minutes × 60 + tens × 10 + units. |
| Arena.FullClockText | src/components/BattleArena.tsx:188-192 | A full battle shows "5:00". |
| Arena.OverrunClockText | src/components/BattleArena.tsx:188-192 | For the clock of -1 that a doubly started room reaches, `formatTime` would return "-1:-1". The arena does not draw it, because the tick that reaches -1 also ends the battle. |

## Left out

- Sockets and broadcasts: `socket.join` and every `emit` are not modelled. This covers `player-assigned`, the `code-update` relay, `battle-state-update` and `battle-ended`. The client side appears only as reducers applied to the messages.
- Real time:
  - Intervals and timeouts are explicit `Tick` and `CountdownStep` calls.
  - A room counts its live intervals.
  - How ticks of different rooms and other events interleave in time is not modelled.
- Server.Registry.Tick: requires the room to be registered. An interval of a room that `disconnect` deleted goes on ticking the detached object; only `Server.Room.Tick` covers it.
- Server.Registry.RunTests: evaluates the guard in the same step as the grading. The source checks it before `await executeCode` and updates the room after the await. So a room whose battle ended, or whose player left, while the service was working is modelled as the room at answer time.
- The execution service:
  - `executeCode` and its HTTP call are not part of this model.
  - Its answer is a parameter: a list of status ids, or `None` when the call throws. A result without a status is any id other than 3.
  - The `catch` that logs and changes nothing is the `None` outcome.
- The problem catalogue is reduced to its first entry: starter code and 3 test cases. `src/lib/problems.ts` is otherwise not part of this model.
- Server.Room.ChangeCode: requires the player to be in the room, because `room.players[playerId].code = code` throws an uncaught error otherwise. Server.Registry.ChangeCode asks for this only when the room exists.
- Arena.OnTestResult: a `Partial` entry keeps only code and score. The `NaN` or missing count and the other missing fields of such an object are not represented. A throwing updater is `None`; what React does after it throws is not modelled.
- Display only:
  - the progress percentage and average speed (floating point);
  - the particles (`Math.random`, `Date.now`);
  - the red clock below 60 s;
  - the player count text;
  - the editors' read-only flag.
- Server.Registry.Disconnect: visits the keys in an arbitrary order, while `Map.forEach` uses insertion order. The result is the same for every order.
- `isReady` is always true and nothing reads it, so it is carried but never constrained.

## Findings

| source | as written | input that shows it | evidently intended | confidence | as-written member | corrected member |
|---|---|---|---|---|---|---|
| src/components/BattleArena.tsx:79-80 | The `code-update` handler is registered once, when `playerId` is still `''`. It compares each update against that empty id forever. | A `code-update` whose id is the local player's assigned id is applied to the local copy instead of being ignored. The server's `socket.to` never sends one, so this stays hidden. | Compare against the assigned local id, so the local player's own updates are ignored. | not executed; masked in practice because the server relays with `socket.to` | Arena.OnCodeUpdateAsWritten (shown by Arena.OwnUpdateNotIgnored) | Arena.OnCodeUpdate (Arena.CodeUpdateMirrorsServer) |
| src/components/BattleArena.tsx:69-71 | The server's room object has `problem`. The client stores it whole and reads `currentProblem`, which the object does not have. | Any `battle-state-update` of a room with a problem leaves `currentProblem` undefined, so the test runner at line 289 gets no problem. | The client's problem is the room's problem. | not executed | Arena.FromRoomAsWritten (shown by Arena.ProblemLost) | Arena.FromRoom |
