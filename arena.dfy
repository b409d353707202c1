/** The browser client of a battle: the local copy of the room that the
    Socket.IO handlers of the arena component update, its one-second local
    countdown, the clock text, and the guards on the buttons. Every reducer
    is a pure function of the previous local state and one message. */
module Arena {
  import opened Common
  import Grading
  import Rooms

  /** A value of the local `players` record. A `code-update` for an id the
      client has never seen spreads `undefined`, which leaves an object with
      only `code`; a later `test-result` adds `score`, while its
      `testsPassedCount` becomes `NaN` or stays undefined. `Partial` keeps
      those two fields and nothing else. */
  datatype Entry = Known(player: Player) | Partial(code: string, score: Option<int>)

  /** The component's `battleState`. `order` is the key order of `players`,
      which `Object.values` follows. */
  datatype BattleState = BattleState(
    order: seq<string>,
    players: map<string, Entry>,
    currentProblem: Option<Problem>,
    battleStarted: bool,
    timeLeft: int,
    winner: Option<string>)

  /** Each key of `players` appears once in `order`. */
  ghost predicate Consistent(s: BattleState) {
    && Rooms.NoDuplicates(s.order)
    && (forall k :: k in s.players <==> k in s.order)
  }

  /** The state before any message: nobody, no problem, a full clock. */
  function Initial(): (r: BattleState)
    ensures Consistent(r) && r.players == map[] && !r.battleStarted && r.timeLeft == BattleSeconds
  {
    BattleState([], map[], None, false, BattleSeconds, None)
  }

  function EntryCode(e: Entry): string {
    match e
    case Known(p) => p.code
    case Partial(code, _) => code
  }

  // ---------------------------------------------------------------- code-update

  /** The state update of `code-update`: only the code of the entry under
      `id` changes; an unknown id gets a `Partial` entry at the end. */
  function CodeUpdated(s: BattleState, id: string, code: string): (r: BattleState)
    requires Consistent(s)
    ensures Consistent(r)
    ensures r.players.Keys == s.players.Keys + {id}
    ensures EntryCode(r.players[id]) == code
    ensures id in s.players && s.players[id].Known? ==>
              r.players[id] == Known(s.players[id].player.(code := code))
    ensures id in s.players && s.players[id].Partial? ==>
              r.players[id] == s.players[id].(code := code)
    ensures id !in s.players ==> r.players[id] == Partial(code, None) && r.order == s.order + [id]
    ensures id in s.players ==> r.order == s.order
    ensures forall k :: k in s.players && k != id ==> r.players[k] == s.players[k]
    ensures r == s.(players := r.players, order := r.order)
  {
    var entry := if id !in s.players then Partial(code, None)
                 else match s.players[id]
                      case Known(p) => Known(p.(code := code))
                      case Partial(_, score) => Partial(code, score);
    var order := if id in s.players then s.order else s.order + [id];
    assert forall k :: k in order <==> k in s.order || k == id;
    s.(players := s.players[id := entry], order := order)
  }

  /** The `code-update` handler as intended: an update about the local player
      `localId` is ignored, any other is applied. */
  function OnCodeUpdate(s: BattleState, localId: string, id: string, code: string): (r: BattleState)
    requires Consistent(s)
    ensures Consistent(r)
    ensures id == localId ==> r == s
    ensures id != localId ==> r == CodeUpdated(s, id, code)
  {
    if id != localId then CodeUpdated(s, id, code) else s
  }

  /** The `code-update` handler as written: it is registered once when the
      component mounts, so the `playerId` it compares against is the initial
      empty string, whatever id the server assigns later. */
  function OnCodeUpdateAsWritten(s: BattleState, id: string, code: string): (r: BattleState)
    requires Consistent(s)
    ensures Consistent(r)
    ensures r == OnCodeUpdate(s, "", id, code)
    ensures id == "" ==> r == s
    ensures id != "" ==> r == CodeUpdated(s, id, code)
  {
    OnCodeUpdate(s, "", id, code)
  }

  /** As written, an update about the local player is applied rather than
      ignored: after `player-assigned` the local id is not empty. */
  lemma OwnUpdateNotIgnored(s: BattleState, localId: string, code: string)
    requires Consistent(s) && localId != "" && localId in s.players
    requires EntryCode(s.players[localId]) != code
    ensures OnCodeUpdate(s, localId, localId, code) == s
    ensures OnCodeUpdateAsWritten(s, localId, code) != s
  {
    var r := OnCodeUpdateAsWritten(s, localId, code);
    assert EntryCode(r.players[localId]) != EntryCode(s.players[localId]);
  }

  /** Only the latest of two updates about the same player is visible. */
  lemma {:induction false} LatestCodeWins(s: BattleState, id: string, first: string, second: string)
    requires Consistent(s)
    ensures CodeUpdated(CodeUpdated(s, id, first), id, second) == CodeUpdated(s, id, second)
  {
    var a := CodeUpdated(CodeUpdated(s, id, first), id, second);
    var b := CodeUpdated(s, id, second);
    assert a.order == b.order;
    assert a.players == b.players;
  }

  // ---------------------------------------------------------------- test-result

  /** The `test-result` handler: the entry under `id` takes the carried score,
      and its pass count goes up by one when the case passed. The updater
      throws on an id missing from the record (`None`). */
  function OnTestResult(s: BattleState, id: string, passed: bool, score: int): (r: Option<BattleState>)
    ensures r.None? <==> id !in s.players
    ensures r.Some? ==> r.value == s.(players := r.value.players)
    ensures r.Some? ==> r.value.players.Keys == s.players.Keys
    ensures r.Some? ==> forall k :: k in s.players && k != id ==> r.value.players[k] == s.players[k]
    ensures r.Some? && s.players[id].Known? ==>
              r.value.players[id] == Known(s.players[id].player.(
                score := score,
                testsPassedCount := s.players[id].player.testsPassedCount + if passed then 1 else 0))
    ensures r.Some? && s.players[id].Partial? ==>
              r.value.players[id] == Partial(s.players[id].code, Some(score))
  {
    if id !in s.players then None
    else
      var entry := match s.players[id]
                   case Known(p) =>
                     Known(p.(score := score,
                              testsPassedCount := if passed then p.testsPassedCount + 1 else p.testsPassedCount))
                   case Partial(code, _) => Partial(code, Some(score));
      Some(s.(players := s.players[id := entry]))
  }

  /** The messages of one run applied in the order they arrive. */
  function ApplyResults(s: BattleState, events: seq<Grading.TestResult>): (r: Option<BattleState>)
    ensures (forall i :: 0 <= i < |events| ==> events[i].playerId in s.players) ==> r.Some?
    ensures r.Some? ==> r.value == s.(players := r.value.players) && r.value.players.Keys == s.players.Keys
    ensures r.Some? ==> forall k :: k in s.players && (forall i :: 0 <= i < |events| ==> events[i].playerId != k)
                                    ==> r.value.players[k] == s.players[k]
    decreases |events|
  {
    if events == [] then Some(s)
    else
      match ApplyResults(s, events[..|events| - 1])
      case None => None
      case Some(t) =>
        var e := events[|events| - 1];
        OnTestResult(t, e.playerId, e.passed, e.score)
  }

  /** Applying the messages of a run about a known player raises its local
      pass count by the number of passed cases of that run; the record keeps
      its keys and nothing but that player's score and count changes. */
  lemma {:induction false} ResultsAccumulate(s: BattleState, id: string, baseScore: int, verdicts: seq<int>)
    requires id in s.players && s.players[id].Known?
    ensures var r := ApplyResults(s, Grading.Report(id, baseScore, verdicts));
            && r.Some?
            && r.value == s.(players := r.value.players)
            && r.value.players.Keys == s.players.Keys
            && (forall k :: k in s.players && k != id ==> r.value.players[k] == s.players[k])
            && r.value.players[id].Known?
            && r.value.players[id].player
               == s.players[id].player.(
                    score := r.value.players[id].player.score,
                    testsPassedCount := s.players[id].player.testsPassedCount + Grading.Passed(verdicts))
    decreases |verdicts|
  {
    var events := Grading.Report(id, baseScore, verdicts);
    if verdicts != [] {
      var init := verdicts[..|verdicts| - 1];
      assert events[..|events| - 1] == Grading.Report(id, baseScore, init);
      ResultsAccumulate(s, id, baseScore, init);
    }
  }

  // --------------------------------------------- battle-ended, countdown

  /** The `battle-ended` handler. */
  function OnBattleEnded(s: BattleState, winner: string): (r: BattleState)
    ensures r.winner == Some(winner) && !r.battleStarted
    ensures r == s.(winner := r.winner, battleStarted := r.battleStarted)
  {
    s.(winner := Some(winner), battleStarted := false)
  }

  /** One run of the timer effect: while the battle is on and time is left,
      a second is taken off the clock. */
  function CountdownStep(s: BattleState): (r: BattleState)
    ensures r == s.(timeLeft := r.timeLeft)
  {
    if s.battleStarted && s.timeLeft > 0 then s.(timeLeft := s.timeLeft - 1) else s
  }

  /** `n` runs of the timer effect. */
  function Countdown(s: BattleState, n: nat): (r: BattleState)
    ensures r == s.(timeLeft := r.timeLeft)
    ensures s.timeLeft >= 0 ==> 0 <= r.timeLeft <= s.timeLeft
    decreases n
  {
    if n == 0 then s else Countdown(CountdownStep(s), n - 1)
  }

  /** From a clock that is not negative, the local countdown takes one second
      per step while the battle is on, stops at zero and never goes below it;
      nothing but the clock changes. */
  lemma {:induction false} CountdownStopsAtZero(s: BattleState, n: nat)
    requires s.timeLeft >= 0
    ensures var r := Countdown(s, n);
            && r == s.(timeLeft := r.timeLeft)
            && r.timeLeft == if !s.battleStarted then s.timeLeft
                             else if n <= s.timeLeft then s.timeLeft - n
                             else 0
    decreases n
  {
    if n > 0 {
      CountdownStopsAtZero(CountdownStep(s), n - 1);
    }
  }

  /** Once `battle-ended` has arrived, the local clock stands still. */
  lemma EndedClockStands(s: BattleState, winner: string, n: nat)
    requires s.timeLeft >= 0
    ensures Countdown(OnBattleEnded(s, winner), n) == OnBattleEnded(s, winner)
  {
    CountdownStopsAtZero(OnBattleEnded(s, winner), n);
  }

  // -------------------------------------------------- battle-state-update

  /** The local record a server room becomes. */
  function KnownPlayers(players: map<string, Player>): (r: map<string, Entry>)
    ensures r.Keys == players.Keys
    ensures forall k :: k in players ==> r[k] == Known(players[k])
  {
    map k | k in players :: Known(players[k])
  }

  /** `battle-state-update` as written: the received room replaces the whole
      local state. The room carries its problem under `problem`, but the
      client reads `currentProblem`, which the room does not have. */
  function FromRoomAsWritten(room: Rooms.RoomState): (r: BattleState)
    ensures r.currentProblem == None
    ensures r.players.Keys == room.players.Keys && r.order == room.order
    ensures forall k :: k in room.players ==> r.players[k] == Known(room.players[k])
    ensures r.battleStarted == room.battleStarted && r.timeLeft == room.timeLeft && r.winner == room.winner
    ensures Rooms.WellFormed(room) ==> r == FromRoom(room).(currentProblem := None)
  {
    BattleState(room.order, KnownPlayers(room.players), None, room.battleStarted, room.timeLeft, room.winner)
  }

  /** As written, every state update erases the problem from the client,
      although every room the server creates has one. */
  lemma ProblemLost(room: Rooms.RoomState)
    requires room.problem.Some?
    ensures FromRoomAsWritten(room).currentProblem != room.problem
  {
  }

  /** `battle-state-update` as intended: the local state becomes a copy of
      the server room, its problem included. */
  function FromRoom(room: Rooms.RoomState): (r: BattleState)
    requires Rooms.WellFormed(room)
    ensures Consistent(r)
    ensures r.order == room.order && r.players.Keys == room.players.Keys
    ensures forall k :: k in room.players ==> r.players[k] == Known(room.players[k])
    ensures && r.currentProblem == room.problem && r.battleStarted == room.battleStarted
            && r.timeLeft == room.timeLeft && r.winner == room.winner
  {
    BattleState(room.order, KnownPlayers(room.players), room.problem, room.battleStarted, room.timeLeft, room.winner)
  }

  /** A `code-update` about another player brings a client that mirrors the
      room to the mirror of the room after the server's own change. */
  lemma CodeUpdateMirrorsServer(room: Rooms.RoomState, localId: string, id: string, code: string)
    requires Rooms.WellFormed(room) && id in room.players && id != localId
    ensures OnCodeUpdate(FromRoom(room), localId, id, code) == FromRoom(Rooms.CodeChanged(room, id, code))
  {
    var c := FromRoom(room);
    var changed := Rooms.CodeChanged(room, id, code);
    var a, b := CodeUpdated(c, id, code), FromRoom(changed);
    assert a.players == b.players by {
      assert a.players.Keys == b.players.Keys;
      forall k | k in a.players ensures a.players[k] == b.players[k] {
        if k == id {
          assert c.players[id] == Known(room.players[id]);
        }
      }
    }
    assert a.order == b.order;
  }

  /** The client counts passed cases up across runs while the server stores
      the count of the latest run only: after a run's messages, a client that
      mirrored the room shows the earlier count plus this run's, and the
      server's next snapshot brings it back to this run's count. */
  lemma CountsDisagreeDuringRun(room: Rooms.RoomState, id: string, verdicts: seq<int>)
    requires Rooms.WellFormed(room) && id in room.players
    requires room.battleStarted && room.problem.Some?
    ensures var events := Rooms.RunReport(room, id, Some(verdicts));
            var client := ApplyResults(FromRoom(room), events);
            var server := Rooms.RunTests(room, id, Some(verdicts));
            && client.Some?
            && client.value.players[id].Known?
            && client.value.players[id].player.testsPassedCount
               == room.players[id].testsPassedCount + Grading.Passed(verdicts)
            && server.players[id].testsPassedCount == Grading.Passed(verdicts)
            && FromRoom(server).players[id].player.testsPassedCount == Grading.Passed(verdicts)
  {
    ResultsAccumulate(FromRoom(room), id, room.players[id].score, verdicts);
  }

  // ---------------------------------------------------------------- guards

  /** A `run-tests` message of the client. */
  datatype RunRequest = RunRequest(playerId: string, code: string)

  /** The run button's action: a request goes out only with a connection, an
      assigned id and some code in the editor. */
  function RunTestsRequest(connected: bool, playerId: string, myCode: string): (r: Option<RunRequest>)
    ensures r.Some? <==> connected && playerId != "" && myCode != ""
    ensures r.Some? ==> r.value.playerId == playerId && r.value.code == myCode
  {
    if connected && playerId != "" && myCode != "" then Some(RunRequest(playerId, myCode)) else None
  }

  /** A `code-change` message of the client. */
  datatype CodeChange = CodeChange(playerId: string, code: string)

  /** `handleCodeChange`: the editor always takes the new text, but the
      message goes out only with a connection and an assigned id. Unlike a
      run, empty code is sent too. */
  function CodeChangeRequest(connected: bool, playerId: string, code: string): (r: Option<CodeChange>)
    ensures r.Some? <==> connected && playerId != ""
    ensures r.Some? ==> r.value.playerId == playerId && r.value.code == code
  {
    if connected && playerId != "" then Some(CodeChange(playerId, code)) else None
  }

  /** An edit of a client with an assigned id that the room holds reaches the
      server, and the server's `code-change` gives that player exactly the
      edited text. */
  lemma EditReachesServer(room: Rooms.RoomState, localId: string, code: string)
    requires Rooms.WellFormed(room) && localId != "" && localId in room.players
    ensures var m := CodeChangeRequest(true, localId, code);
            && m.Some? && m.value.playerId in room.players
            && Rooms.CodeChanged(room, m.value.playerId, m.value.code).players[localId].code == code
  {
  }

  /** `startBattle`: the message names the room and goes out whenever there
      is a connection. The client checks neither the phase nor the player
      count here; only the button's visibility and the server do. */
  function StartBattleRequest(connected: bool, roomId: string): (r: Option<string>)
    ensures r.Some? <==> connected
    ensures r.Some? ==> r.value == roomId
  {
    if connected then Some(roomId) else None
  }

  /** The run button is enabled while the battle is on and the editor holds code. */
  predicate CanRun(s: BattleState, myCode: string)
    ensures CanRun(s, myCode) ==> s.battleStarted
    ensures forall id :: id != "" && CanRun(s, myCode) ==> RunTestsRequest(true, id, myCode).Some?
  {
    s.battleStarted && myCode != ""
  }

  /** A request the enabled button sends from a client that mirrors the room
      is graded by the server rather than ignored. */
  lemma RequestFromMirrorIsGraded(room: Rooms.RoomState, localId: string, myCode: string, verdicts: seq<int>)
    requires Rooms.WellFormed(room) && localId in room.players && room.problem.Some?
    requires CanRun(FromRoom(room), myCode) && RunTestsRequest(true, localId, myCode).Some?
    ensures Rooms.RunTests(room, localId, Some(verdicts)) == Rooms.Graded(room, localId, verdicts)
  {
  }

  /** The start button shows while no battle is on and exactly two players
      are in the record. */
  predicate ShowStartButton(s: BattleState)
    ensures ShowStartButton(s) ==> !s.battleStarted && |s.players| >= 2
  {
    !s.battleStarted && |s.players| == 2
  }

  /** Pressing the start button of a client that mirrors the room starts a
      battle on the server: the room has at least the two players the server
      asks for. */
  lemma StartButtonHonoured(room: Rooms.RoomState)
    requires Rooms.WellFormed(room) && ShowStartButton(FromRoom(room))
    ensures var r := Rooms.Started(room);
            r.battleStarted && r.timeLeft == BattleSeconds && r.winner == None && r.timers == room.timers + 1
  {
    var c := FromRoom(room);
    assert |c.players| == |c.players.Keys| == |room.players.Keys| == |room.players|;
  }

  /** A third player hides the button although the server would still start. */
  lemma ThirdPlayerHidesButton(room: Rooms.RoomState)
    requires Rooms.WellFormed(room) && |room.players| == 3 && !room.battleStarted
    ensures !ShowStartButton(FromRoom(room)) && Rooms.Started(room).battleStarted
  {
    var c := FromRoom(room);
    assert |c.players| == |c.players.Keys| == |room.players.Keys| == |room.players|;
  }

  // ---------------------------------------------------------------- formatTime

  predicate IsDigit(c: char) {
    '0' <= c <= '9'
  }

  /** Every character of `s` is a decimal digit. */
  predicate AllDigits(s: string)
    decreases |s|
  {
    s == [] || (AllDigits(s[..|s| - 1]) && IsDigit(s[|s| - 1]))
  }

  function DigitValue(c: char): int
    requires IsDigit(c)
  {
    c as int - '0' as int
  }

  function DigitChar(d: int): (c: char)
    requires 0 <= d < 10
    ensures IsDigit(c) && DigitValue(c) == d
  {
    ('0' as int + d) as char
  }

  lemma DigitCharOfValue(c: char)
    requires IsDigit(c)
    ensures DigitChar(DigitValue(c)) == c
  {
  }

  /** A numeral in standard form: no leading zero unless it is "0" itself. */
  predicate NoLeadingZero(s: string) {
    s != [] && (|s| == 1 || s[0] != '0')
  }

  /** The decimal numeral of `n`, without leading zeros. */
  function Digits(n: nat): (r: string)
    ensures 1 <= |r| && AllDigits(r)
    ensures n < 10 <==> |r| == 1
    ensures n < 100 ==> |r| <= 2
    ensures n >= 10 ==> r[0] != '0'
    decreases n
  {
    if n < 10 then
      assert [DigitChar(n)][..0] == [];
      [DigitChar(n)]
    else
      var init := Digits(n / 10);
      assert n / 10 < 10 ==> DigitValue(init[0]) == n / 10;
      assert (init + [DigitChar(n % 10)])[..|init|] == init;
      assert (init + [DigitChar(n % 10)])[0] == init[0];
      init + [DigitChar(n % 10)]
  }

  /** The number a string of decimal digits denotes. */
  function Value(s: string): nat
    requires AllDigits(s)
  {
    if s == [] then 0 else Value(s[..|s| - 1]) * 10 + DigitValue(s[|s| - 1])
  }

  lemma {:induction false} ValueOfDigits(n: nat)
    ensures Value(Digits(n)) == n
    decreases n
  {
    if n >= 10 {
      var ds := Digits(n);
      assert ds[..|ds| - 1] == Digits(n / 10);
      ValueOfDigits(n / 10);
    }
  }

  /** A numeral in standard form other than "0" denotes a positive number. */
  lemma {:induction false} ValuePositive(s: string)
    requires AllDigits(s) && s != [] && s[0] != '0'
    ensures Value(s) > 0
    decreases |s|
  {
    var init := s[..|s| - 1];
    if |s| > 1 {
      assert init[0] == s[0];
      ValuePositive(init);
    } else {
      assert init == [];
    }
  }

  /** A numeral in standard form is the numeral of the number it denotes. */
  lemma {:induction false} DigitsOfValue(s: string)
    requires AllDigits(s) && NoLeadingZero(s)
    ensures Digits(Value(s)) == s
    decreases |s|
  {
    var init, c := s[..|s| - 1], s[|s| - 1];
    DigitCharOfValue(c);
    if |s| == 1 {
      assert init == [] && s == [c];
    } else {
      assert init[0] == s[0];
      ValuePositive(init);
      DigitsOfValue(init);
      var v := Value(s);
      assert v / 10 == Value(init) && v % 10 == DigitValue(c);
      assert s == init + [c];
    }
  }

  /** `Number.prototype.toString()` of an integer. */
  function IntToString(n: int): (r: string)
    ensures n >= 0 ==> r == Digits(n)
    ensures n < 0 ==> r == "-" + Digits(-n)
  {
    if n < 0 then "-" + Digits(-n) else Digits(n)
  }

  /** `padStart(2, '0')`. */
  function PadStart2(s: string): (r: string)
    ensures |r| == if |s| < 2 then 2 else |s|
    ensures r[|r| - |s|..] == s
    ensures forall i :: 0 <= i < |r| - |s| ==> r[i] == '0'
  {
    if |s| >= 2 then s else seq(2 - |s|, _ => '0') + s
  }

  /** JavaScript's `%`: the remainder takes the sign of the dividend. */
  function JsRemainder(a: int, b: int): (r: int)
    requires b > 0
    ensures a >= 0 ==> r == a % b
    ensures a < 0 ==> r == -((-a) % b)
    ensures -b < r < b
  {
    if a >= 0 then a % b else -((-a) % b)
  }

  /** `formatTime`: floor of the minutes, a colon, then the remainder of the
      seconds padded to two characters. For a clock that is not negative the
      text is the numeral of the minutes, a colon, then the tens and the
      units digit of the seconds past the minute. */
  function FormatTime(seconds: int): (text: string)
    ensures seconds >= 0 ==>
      text == Digits(seconds / 60) + ":" + [DigitChar(seconds % 60 / 10), DigitChar(seconds % 60 % 10)]
  {
    ClockText(seconds / 60, JsRemainder(seconds, 60))
  }

  /** A clock that is not negative is read back from its text. */
  lemma {:induction false} FormatTimeReadsBack(seconds: int)
    requires seconds >= 0
    ensures ParseClock(FormatTime(seconds)) == Some(seconds)
  {
    var m, r := seconds / 60, seconds % 60;
    MinutesNumeral(m);
    assert r / 10 < 6;
    ReadBack(FormatTime(seconds), Digits(m), r / 10, r % 10, seconds);
  }

  /** The template literal of `formatTime`. For minutes that are not
      negative and seconds below sixty, the text is the numeral of the
      minutes, a colon, then the tens and the units digit of the seconds. */
  function ClockText(mins: int, secs: int): (text: string)
    ensures mins >= 0 && 0 <= secs < 60 ==>
      text == Digits(mins) + ":" + [DigitChar(secs / 10), DigitChar(secs % 10)]
  {
    var t := IntToString(mins) + ":" + PadStart2(IntToString(secs));
    if mins >= 0 && 0 <= secs < 60 then
      SecondsNumeral(secs);
      t
    else t
  }

  /** The minutes field is a numeral in standard form for the minutes. */
  lemma {:induction false} MinutesNumeral(mins: nat)
    ensures AllDigits(Digits(mins)) && NoLeadingZero(Digits(mins))
    ensures Value(Digits(mins)) == mins
  {
    ValueOfDigits(mins);
  }

  /** The seconds field below sixty is its tens digit, below six, then its
      units digit. */
  lemma {:induction false} SecondsNumeral(secs: nat)
    requires secs < 60
    ensures secs / 10 < 6 && secs % 10 < 10
    ensures PadStart2(IntToString(secs)) == [DigitChar(secs / 10), DigitChar(secs % 10)]
    ensures secs / 10 * 10 + secs % 10 == secs
  {
    TwoDigits(secs);
  }

  /** Reads back a clock in standard "M:SS" form: the minutes without a
      leading zero, a colon, then two digits of seconds below sixty. Any
      other text is refused. */
  function ParseClock(t: string): Option<int> {
    var n := |t|;
    if && n >= 4 && t[n - 3] == ':' && AllDigits(t[..n - 3]) && NoLeadingZero(t[..n - 3])
       && IsDigit(t[n - 2]) && t[n - 2] <= '5' && IsDigit(t[n - 1])
    then Some(Value(t[..n - 3]) * 60 + DigitValue(t[n - 2]) * 10 + DigitValue(t[n - 1]))
    else None
  }

  /** Below sixty, the padded numeral is the tens digit then the units digit. */
  lemma {:induction false} TwoDigits(r: nat)
    requires r < 60
    ensures PadStart2(Digits(r)) == [DigitChar(r / 10), DigitChar(r % 10)]
  {
    if r < 10 {
      assert r / 10 == 0 && r % 10 == r;
      assert Digits(r) == [DigitChar(r)];
      assert PadStart2(Digits(r)) == seq(1, _ => '0') + [DigitChar(r)];
      assert seq(1, _ => '0') == [DigitChar(0)];
    } else {
      assert Digits(r / 10) == [DigitChar(r / 10)];
      assert Digits(r) == [DigitChar(r / 10), DigitChar(r % 10)];
      assert PadStart2(Digits(r)) == Digits(r);
    }
  }

  /** Splitting "M:SS" at the colon gives back both fields. */
  lemma ReadBack(t: string, mins: string, tens: nat, units: nat, v: int)
    requires AllDigits(mins) && NoLeadingZero(mins) && tens < 6 && units < 10
    requires t == mins + ":" + [DigitChar(tens), DigitChar(units)]
    requires v == Value(mins) * 60 + tens * 10 + units
    ensures ParseClock(t) == Some(v)
  {
    assert t[..|t| - 3] == mins;
  }

  /** A clock the reader accepts is in standard form: the numeral of some
      minutes, a colon, then the two digits of some seconds below sixty. */
  lemma StandardClock(t: string) returns (m: nat, secs: nat)
    requires ParseClock(t).Some?
    ensures secs < 60 && ParseClock(t).value == m * 60 + secs
    ensures t == Digits(m) + ":" + [DigitChar(secs / 10), DigitChar(secs % 10)]
  {
    var n := |t|;
    var mins, a, b := t[..n - 3], t[n - 2], t[n - 1];
    m, secs := Value(mins), DigitValue(a) * 10 + DigitValue(b);
    assert Digits(m) == mins by {
      DigitsOfValue(mins);
    }
    assert [DigitChar(secs / 10), DigitChar(secs % 10)] == [a, b] by {
      assert secs / 10 == DigitValue(a) && secs % 10 == DigitValue(b);
      DigitCharOfValue(a);
      DigitCharOfValue(b);
    }
    SplitClock(t);
  }

  /** The reader accepts no text but the one `formatTime` gives for its value,
      so the read-back of `FormatTime` fixes its text for every clock. */
  lemma {:induction false} OnlyFormatTimeReadsBack(t: string)
    requires ParseClock(t).Some?
    ensures FormatTime(ParseClock(t).value) == t
  {
    var m, secs := StandardClock(t);
    var v := m * 60 + secs;
    assert v / 60 == m && v % 60 == secs;
  }

  /** A text with a colon third from the end is its head, the colon and its
      last two characters. */
  lemma SplitClock(t: string)
    requires |t| >= 4 && t[|t| - 3] == ':'
    ensures t == t[..|t| - 3] + ":" + [t[|t| - 2], t[|t| - 1]]
  {
  }

  /** The full battle shows as "5:00". */
  lemma FullClockText()
    ensures FormatTime(BattleSeconds) == "5:00"
  {
    assert BattleSeconds / 60 == 5 && BattleSeconds % 60 == 0;
    assert Digits(5) == "5";
    assert [DigitChar(0), DigitChar(0)] == "00";
  }

  /** For the clock of -1 that a room reaches when two intervals share it,
      `formatTime` returns "-1:-1": the floor gives -1 minutes and the
      remainder keeps the sign. The arena does not draw it, because the tick
      that reaches -1 also ends the battle. */
  lemma OverrunClockText()
    ensures FormatTime(-1) == "-1:-1"
  {
    assert -1 / 60 == -1 && JsRemainder(-1, 60) == -1;
    assert IntToString(-1) == "-1" by {
      assert Digits(1) == "1";
    }
    assert PadStart2("-1") == "-1";
  }
}
