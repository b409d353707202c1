/** The state of a battle room as a value, and what each server event does to
    it. The `Room` and `Registry` classes of module Server update their fields
    in place and are proved to follow these functions. */
module Rooms {
  import opened Common
  import ScoreBoard
  import Grading

  /** `RoomState` of the server. `order` is the key order of the `players`
      record (join order), which `Object.values` follows; `timers` counts the
      repeating ticks still scheduled for this room. */
  datatype RoomState = RoomState(
    order: seq<string>,
    players: map<string, Player>,
    problem: Option<Problem>,
    battleStarted: bool,
    timeLeft: int,
    winner: Option<string>,
    timers: nat)

  predicate NoDuplicates(ids: seq<string>) {
    forall i, j :: 0 <= i < j < |ids| ==> ids[i] != ids[j]
  }

  /** Each player key appears once in `order`, and a player's id is its key. */
  ghost predicate WellFormed(s: RoomState) {
    && NoDuplicates(s.order)
    && (forall k :: k in s.players <==> k in s.order)
    && (forall k :: k in s.players ==> s.players[k].id == k)
  }

  /** The room `join-battle` creates for an unknown key. */
  function NewRoom(): (r: RoomState)
    ensures WellFormed(r) && r.players == map[] && r.order == []
    ensures r.problem == Some(DefaultProblem) && !r.battleStarted
    ensures r.timeLeft == BattleSeconds && r.winner == None && r.timers == 0
  {
    RoomState([], map[], Some(DefaultProblem), false, BattleSeconds, None, 0)
  }

  /** `room.problem?.starterCode || ''`: a room's starter code, or the empty
      text when it has no problem (an empty starter code is empty either way). */
  function StarterCode(problem: Option<Problem>): (r: string)
    ensures problem.Some? ==> r == problem.value.starterCode
    ensures problem.None? ==> r == ""
  {
    match problem
    case Some(p) => p.starterCode
    case None => ""
  }

  /** `Object.values(room.players)`: the players in join order. */
  function Roster(order: seq<string>, players: map<string, Player>): (r: seq<Player>)
    requires forall i :: 0 <= i < |order| ==> order[i] in players
    ensures |r| == |order|
    ensures forall i :: 0 <= i < |r| ==> r[i] == players[order[i]]
  {
    seq(|order|, i requires 0 <= i < |order| => players[order[i]])
  }

  lemma SizeOfWellFormed(s: RoomState)
    requires WellFormed(s)
    ensures |s.players| == |s.order|
  {
    DistinctCount(s.order, s.players.Keys);
  }

  /** A list without repeats has as many entries as the set of its entries. */
  lemma {:induction false} DistinctCount(order: seq<string>, keys: set<string>)
    requires NoDuplicates(order)
    requires forall k :: k in keys <==> k in order
    ensures |keys| == |order|
    decreases |order|
  {
    if order != [] {
      var n := |order| - 1;
      var init, last := order[..n], order[n];
      assert order == init + [last];
      forall k | k in init ensures k != last {
        var j :| 0 <= j < n && init[j] == k;
        assert order[j] == k;
      }
      assert NoDuplicates(init) by {
        forall i, j | 0 <= i < j < |init| ensures init[i] != init[j] {
          assert init[i] == order[i] && init[j] == order[j];
        }
      }
      DistinctCount(init, keys - {last});
    }
  }

  /** `join-battle` on an existing room: the player keyed `id` is (re)set to a
      fresh entry with the starter code. Every other player and every room
      field stays as it was; a new key goes to the end of the join order and
      a re-join keeps its place. */
  function Joined(s: RoomState, id: string, name: string): (r: RoomState)
    requires WellFormed(s)
    ensures WellFormed(r)
    ensures id in r.players && r.players[id] == Player(id, name, StarterCode(s.problem), 0, 0, true)
    ensures forall k :: k != id ==> (k in r.players <==> k in s.players)
    ensures forall k :: k != id && k in s.players ==> r.players[k] == s.players[k]
    ensures r.order == if id in s.players then s.order else s.order + [id]
    ensures && r.problem == s.problem && r.battleStarted == s.battleStarted && r.timeLeft == s.timeLeft
            && r.winner == s.winner && r.timers == s.timers
  {
    var order := if id in s.players then s.order else s.order + [id];
    assert forall k :: k in order <==> k in s.order || k == id;
    s.(players := s.players[id := Player(id, name, StarterCode(s.problem), 0, 0, true)], order := order)
  }

  /** `code-change`: only the code of player `id` changes. */
  function CodeChanged(s: RoomState, id: string, code: string): (r: RoomState)
    requires WellFormed(s) && id in s.players
    ensures WellFormed(r)
    ensures r.players.Keys == s.players.Keys
    ensures r.players[id] == s.players[id].(code := code)
    ensures forall k :: k in s.players && k != id ==> r.players[k] == s.players[k]
    ensures r == s.(players := r.players)
  {
    s.(players := s.players[id := s.players[id].(code := code)])
  }

  /** Applying a run whose verdicts are `verdicts`: `testsPassedCount` is
      overwritten by this run's pass count, `score` grows by ten points per
      passed case, and passing every test case ends the battle with `id` as
      winner. Nothing else changes. */
  function Graded(s: RoomState, id: string, verdicts: seq<int>): (r: RoomState)
    requires WellFormed(s) && id in s.players && s.problem.Some?
    ensures WellFormed(r)
    ensures r.players.Keys == s.players.Keys && r.order == s.order
    ensures r.players[id].testsPassedCount == Grading.Passed(verdicts)
    ensures r.players[id].score == s.players[id].score + PointsPerCase * Grading.Passed(verdicts)
    ensures r.players[id].score >= s.players[id].score
    ensures r.players[id] == s.players[id].(testsPassedCount := r.players[id].testsPassedCount,
                                            score := r.players[id].score)
    ensures forall k :: k in s.players && k != id ==> r.players[k] == s.players[k]
    ensures Grading.Passed(verdicts) == s.problem.value.testCaseCount ==>
              r.winner == Some(id) && !r.battleStarted
    ensures Grading.Passed(verdicts) != s.problem.value.testCaseCount ==>
              r.winner == s.winner && r.battleStarted == s.battleStarted
    ensures r.problem == s.problem && r.timeLeft == s.timeLeft && r.timers == s.timers
  {
    var p := s.players[id];
    var n := Grading.Passed(verdicts);
    var s' := s.(players := s.players[id := p.(testsPassedCount := n, score := p.score + n * PointsPerCase)]);
    if n == s.problem.value.testCaseCount then s'.(winner := Some(id), battleStarted := false) else s'
  }

  /** The guard of `run-tests` once the room is found: nothing happens unless
      the battle is on and the room has a problem. `outcome` is the execution
      service's answer; `None` stands for a call that threw, and a player who
      is no longer in the room makes the handler throw before any change. In
      both cases the exception is caught and the room is left as it was. */
  function RunTests(s: RoomState, id: string, outcome: Option<seq<int>>): (r: RoomState)
    requires WellFormed(s)
    ensures WellFormed(r) && r.players.Keys == s.players.Keys && r.order == s.order
    ensures !s.battleStarted || s.problem.None? || outcome.None? || id !in s.players ==> r == s
    ensures s.battleStarted && s.problem.Some? && outcome.Some? && id in s.players ==>
              r == Graded(s, id, outcome.value)
    ensures id in s.players ==> r.players[id].score >= s.players[id].score
  {
    if !s.battleStarted || s.problem.None? || outcome.None? || id !in s.players then s
    else Graded(s, id, outcome.value)
  }

  /** The `test-result` messages a run sends to the submitter. */
  function RunReport(s: RoomState, id: string, outcome: Option<seq<int>>): (r: seq<Grading.TestResult>)
    requires WellFormed(s)
    ensures !s.battleStarted || s.problem.None? || outcome.None? || id !in s.players ==> r == []
    ensures s.battleStarted && s.problem.Some? && outcome.Some? && id in s.players ==>
              && |r| == |outcome.value|
              && forall i :: 0 <= i < |r| ==>
                   && r[i].playerId == id
                   && (r[i].passed <==> outcome.value[i] == Accepted)
                   && r[i].score == s.players[id].score + (if r[i].passed then PointsPerCase else 0)
  {
    if !s.battleStarted || s.problem.None? || outcome.None? || id !in s.players then []
    else Grading.Report(id, s.players[id].score, outcome.value)
  }

  /** `start-battle`: ignored with fewer than two players; otherwise the battle
      is (re)started with a full clock and no winner, and one more repeating
      tick is scheduled, whether or not one is already running. Scores are kept. */
  function Started(s: RoomState): (r: RoomState)
    ensures |s.players| < 2 ==> r == s
    ensures |s.players| >= 2 ==>
              r == s.(battleStarted := true, timeLeft := BattleSeconds, winner := None, timers := s.timers + 1)
  {
    if |s.players| < 2 then s
    else s.(battleStarted := true, timeLeft := BattleSeconds, winner := None, timers := s.timers + 1)
  }

  /** The player a time-out declares winner: the head of the roster sorted by
      descending score with a stable sort. */
  function TimeWinner(s: RoomState): (r: string)
    requires WellFormed(s) && s.order != []
    ensures r in s.players
    ensures forall k :: k in s.players ==> s.players[k].score <= s.players[r].score
  {
    var roster := Roster(s.order, s.players);
    var i := ScoreBoard.FirstTopOf(roster);
    ScoreBoard.SortHeadIsFirstTop(roster, i);
    assert forall k :: k in s.players ==> s.players[k].score <= roster[i].score by {
      forall k | k in s.players ensures s.players[k].score <= roster[i].score {
        var j :| 0 <= j < |s.order| && s.order[j] == k;
        assert roster[j] == s.players[k];
      }
    }
    ScoreBoard.SortByScore(roster)[0].id
  }

  /** The time-out winner is the first player, in join order, whose score is
      maximal among the room's players. */
  lemma TimeWinnerIsFirstTop(s: RoomState, i: int)
    requires WellFormed(s)
    requires ScoreBoard.IsFirstTop(Roster(s.order, s.players), i)
    ensures TimeWinner(s) == s.order[i]
    ensures s.order[i] in s.players
    ensures forall k :: k in s.players ==> s.players[k].score <= s.players[s.order[i]].score
    ensures forall j :: 0 <= j < i ==> s.players[s.order[j]].score < s.players[s.order[i]].score
  {
    var roster := Roster(s.order, s.players);
    ScoreBoard.SortHeadIsFirstTop(roster, i);
    forall k | k in s.players ensures s.players[k].score <= s.players[s.order[i]].score {
      var j :| 0 <= j < |s.order| && s.order[j] == k;
      assert roster[j] == s.players[k];
    }
  }

  /** One tick of a scheduled interval. The clock drops by one second; when it
      reaches zero or below, this interval is cleared, the battle ends, and if
      anyone is in the room the time-out winner replaces any earlier winner. */
  function Ticked(s: RoomState): (r: RoomState)
    requires WellFormed(s) && s.timers > 0
    ensures WellFormed(r)
    ensures r.timeLeft == s.timeLeft - 1
    ensures r.timeLeft > 0 ==> r == s.(timeLeft := r.timeLeft)
    ensures r.timeLeft <= 0 ==> !r.battleStarted && r.timers == s.timers - 1
    ensures r.timeLeft <= 0 ==> r.winner == if s.order == [] then s.winner else Some(TimeWinner(s))
    ensures r.players == s.players && r.order == s.order && r.problem == s.problem
  {
    var left := s.timeLeft - 1;
    if left > 0 then s.(timeLeft := left)
    else
      s.(timeLeft := left, timers := s.timers - 1, battleStarted := false,
         winner := if s.order == [] then s.winner else Some(TimeWinner(s)))
  }

  /** `ids` without `id`. */
  function RemoveId(ids: seq<string>, id: string): (r: seq<string>)
    ensures forall k :: k in r <==> k in ids && k != id
    ensures id !in ids ==> r == ids
  {
    if ids == [] then []
    else
      assert forall k :: k in ids <==> k == ids[0] || k in ids[1..];
      (if ids[0] == id then [] else [ids[0]]) + RemoveId(ids[1..], id)
  }

  /** Removing the one occurrence of `id` keeps the other keys in their
      order, as `delete` does to the key order of an object. */
  lemma {:induction false} RemoveIdKeepsOrder(ids: seq<string>, id: string, i: int)
    requires NoDuplicates(ids) && 0 <= i < |ids| && ids[i] == id
    ensures RemoveId(ids, id) == ids[..i] + ids[i + 1..]
  {
    var tail := ids[1..];
    if i == 0 {
      assert id !in tail by {
        forall j | 0 <= j < |tail| ensures tail[j] != id {
          assert tail[j] == ids[j + 1];
        }
      }
    } else {
      assert NoDuplicates(tail) by {
        forall a, b | 0 <= a < b < |tail| ensures tail[a] != tail[b] {
          assert tail[a] == ids[a + 1] && tail[b] == ids[b + 1];
        }
      }
      RemoveIdKeepsOrder(tail, id, i - 1);
      assert ids[..i] == [ids[0]] + tail[..i - 1];
      assert ids[i + 1..] == tail[i..];
    }
  }

  lemma {:induction false} RemoveIdKeepsDistinct(ids: seq<string>, id: string)
    ensures NoDuplicates(ids) ==> NoDuplicates(RemoveId(ids, id))
  {
    if ids != [] && NoDuplicates(ids) {
      var tail := ids[1..];
      assert forall j :: 0 <= j < |tail| ==> tail[j] == ids[j + 1];
      RemoveIdKeepsDistinct(tail, id);
      var rest := RemoveId(tail, id);
      forall j | 0 <= j < |tail| ensures tail[j] != ids[0] {
        assert tail[j] == ids[j + 1];
      }
      assert ids[0] !in rest;
      assert forall j :: 1 <= j < |[ids[0]] + rest| ==> ([ids[0]] + rest)[j] == rest[j - 1];
    }
  }

  /** `delete room.players[id]`: the player leaves; everything else stays,
      including a winner already declared and any running timer. */
  function Removed(s: RoomState, id: string): (r: RoomState)
    requires id in s.players
    ensures WellFormed(s) ==> WellFormed(r)
    ensures r.players == s.players - {id}
    ensures r.order == RemoveId(s.order, id)
    ensures r == s.(players := r.players, order := r.order)
  {
    RemoveIdKeepsDistinct(s.order, id);
    s.(players := s.players - {id}, order := RemoveId(s.order, id))
  }

  /** The server events that change one room. */
  datatype Event =
    | Join(joiner: string, name: string)
    | ChangeCode(editor: string, code: string)
    | RunTestsEvent(submitter: string, outcome: Option<seq<int>>)
    | Start
    | Tick
    | Leave(leaver: string)

  /** An event can occur: code changes come from present players, ticks from
      a live interval, and leaving only concerns present players. */
  predicate Enabled(s: RoomState, e: Event) {
    match e
    case ChangeCode(id, _) => id in s.players
    case Tick => s.timers > 0
    case Leave(id) => id in s.players
    case _ => true
  }

  function Step(s: RoomState, e: Event): (r: RoomState)
    requires WellFormed(s) && Enabled(s, e)
    ensures WellFormed(r)
  {
    match e
    case Join(id, name) => Joined(s, id, name)
    case ChangeCode(id, code) => CodeChanged(s, id, code)
    case RunTestsEvent(id, outcome) => RunTests(s, id, outcome)
    case Start => Started(s)
    case Tick => Ticked(s)
    case Leave(id) => Removed(s, id)
  }

  /** The room after a sequence of events, or `None` if some event in it could
      not have occurred. */
  function Run(s: RoomState, es: seq<Event>): (r: Option<RoomState>)
    requires WellFormed(s)
    ensures r.Some? ==> WellFormed(r.value)
    decreases |es|
  {
    if es == [] then Some(s)
    else if !Enabled(s, es[0]) then None
    else Run(Step(s, es[0]), es[1..])
  }

  lemma {:induction false} RunAppend(s: RoomState, a: seq<Event>, b: seq<Event>)
    requires WellFormed(s) && Run(s, a).Some?
    ensures Run(s, a + b) == Run(Run(s, a).value, b)
    decreases |a|
  {
    if a == [] {
      assert a + b == b;
    } else {
      assert (a + b)[0] == a[0] && (a + b)[1..] == a[1..] + b;
      RunAppend(Step(s, a[0]), a[1..], b);
    }
  }

  /** The event re-joins or removes player `id`. */
  predicate Replaces(e: Event, id: string) {
    (e.Join? && e.joiner == id) || (e.Leave? && e.leaver == id)
  }

  /** A player's score never goes down, through any events that neither
      remove that player nor re-join with the same id (a re-join resets the
      score to 0). */
  lemma {:induction false} ScoreNeverDecreases(s: RoomState, es: seq<Event>, id: string)
    requires WellFormed(s) && id in s.players
    requires Run(s, es).Some?
    requires forall i :: 0 <= i < |es| ==> !Replaces(es[i], id)
    ensures id in Run(s, es).value.players
    ensures Run(s, es).value.players[id].score >= s.players[id].score
    decreases |es|
  {
    if es != [] {
      var t := Step(s, es[0]);
      assert !Replaces(es[0], id);
      assert id in t.players && t.players[id].score >= s.players[id].score;
      forall i | 0 <= i < |es[1..]| ensures !Replaces(es[1..][i], id) {
        assert es[1..][i] == es[i + 1];
      }
      ScoreNeverDecreases(t, es[1..], id);
    }
  }

  /** Runs accumulate: two successful gradings add the points of both runs,
      while `testsPassedCount` holds only the second run's count. */
  lemma RunsAccumulate(s: RoomState, id: string, first: seq<int>, second: seq<int>)
    requires WellFormed(s) && id in s.players && s.battleStarted && s.problem.Some?
    requires Grading.Passed(first) != s.problem.value.testCaseCount
    ensures var t := RunTests(RunTests(s, id, Some(first)), id, Some(second));
            && t.players[id].score
               == s.players[id].score + PointsPerCase * (Grading.Passed(first) + Grading.Passed(second))
            && t.players[id].testsPassedCount == Grading.Passed(second)
  {
  }

  /** A fully passing run ends the battle, so submitting again does nothing
      until `start-battle` is accepted again; `start-battle` keeps scores, so
      the next fully passing run adds the full points once more. */
  lemma RerunAfterRestart(s: RoomState, id: string, verdicts: seq<int>)
    requires WellFormed(s) && id in s.players && s.battleStarted && s.problem.Some?
    requires |s.players| >= 2
    requires |verdicts| == s.problem.value.testCaseCount
    requires forall i :: 0 <= i < |verdicts| ==> verdicts[i] == Accepted
    ensures var once := RunTests(s, id, Some(verdicts));
            && once.winner == Some(id) && !once.battleStarted
            && RunTests(once, id, Some(verdicts)) == once
            && RunTests(Started(once), id, Some(verdicts)).players[id].score
               == s.players[id].score + 2 * PointsPerCase * |verdicts|
  {
    Grading.AllPassedIff(verdicts);
    var once := RunTests(s, id, Some(verdicts));
    assert once.players.Keys == s.players.Keys;
  }

  function Ticks(n: nat): (r: seq<Event>)
    ensures |r| == n && forall i :: 0 <= i < n ==> r[i] == Tick
  {
    seq(n, _ => Tick)
  }

  /** With a live interval and `t > 0` seconds left, `t` ticks run the clock
      down to zero: the battle ends, that interval is cleared, and a room with
      players gets the time-out winner of its current scores. */
  lemma {:induction false} CountdownEnds(s: RoomState)
    requires WellFormed(s) && s.timers > 0 && s.timeLeft > 0
    ensures var r := Run(s, Ticks(s.timeLeft));
            && r.Some?
            && r.value.timeLeft == 0 && !r.value.battleStarted && r.value.timers == s.timers - 1
            && r.value.players == s.players && r.value.order == s.order
            && r.value.winner == if s.order == [] then s.winner else Some(TimeWinner(s))
    decreases s.timeLeft
  {
    var t := Ticked(s);
    FirstTick(s);
    if s.timeLeft > 1 {
      CountdownEnds(t);
      assert s.order != [] ==> TimeWinner(t) == TimeWinner(s) by {
        assert Roster(t.order, t.players) == Roster(s.order, s.players);
      }
    } else {
      assert Run(t, Ticks(0)) == Some(t);
    }
  }

  /** A run of ticks starts with one tick. */
  lemma FirstTick(s: RoomState)
    requires WellFormed(s) && s.timers > 0 && s.timeLeft > 0
    ensures Run(s, Ticks(s.timeLeft)) == Run(Ticked(s), Ticks(s.timeLeft - 1))
  {
    assert Ticks(s.timeLeft)[1..] == Ticks(s.timeLeft - 1);
  }

  /** `start-battle` twice schedules two intervals that share one clock: the
      clock reaches zero after 300 ticks (150 seconds), one interval is still
      live, and its next tick takes the clock to -1 before clearing itself. */
  lemma DoubleStartOverrunsClock(s: RoomState)
    requires WellFormed(s) && |s.players| >= 2
    ensures var u := Started(Started(s));
            && u.timers == s.timers + 2
            && Run(u, Ticks(BattleSeconds + 1)).Some?
            && Run(u, Ticks(BattleSeconds + 1)).value.timeLeft == -1
            && Run(u, Ticks(BattleSeconds + 1)).value.timers == s.timers
  {
    var u := Started(Started(s));
    CountdownEnds(u);
    assert Ticks(BattleSeconds + 1) == Ticks(BattleSeconds) + [Tick];
    RunAppend(u, Ticks(BattleSeconds), [Tick]);
    var v := Run(u, Ticks(BattleSeconds)).value;
    assert Run(v, [Tick]) == Some(Ticked(v));
  }

  /** A win by completion leaves the interval running: when the clock later
      runs out, the winner is replaced by the top scorer. Here "a" completes
      all three cases while "b" already has 60 points from earlier runs. */
  lemma CompletionWinnerReplacedAtTimeout()
    ensures var s := RoomState(["a", "b"],
                               map["a" := Player("a", "A", "", 0, 0, true),
                                   "b" := Player("b", "B", "", 60, 2, true)],
                               Some(DefaultProblem), true, 1, None, 1);
            && WellFormed(s)
            && RunTests(s, "a", Some([Accepted, Accepted, Accepted])).winner == Some("a")
            && Ticked(RunTests(s, "a", Some([Accepted, Accepted, Accepted]))).winner == Some("b")
  {
    var pa := Player("a", "A", "", 0, 0, true);
    var pb := Player("b", "B", "", 60, 2, true);
    var s := RoomState(["a", "b"], map["a" := pa, "b" := pb], Some(DefaultProblem), true, 1, None, 1);
    assert WellFormed(s);
    var v := [Accepted, Accepted, Accepted];
    Grading.AllPassedIff(v);
    var g := RunTests(s, "a", Some(v));
    assert g.players["a"].score == 30;
    assert g.players["b"] == pb;
    var roster := Roster(g.order, g.players);
    assert roster[0].score == 30 && roster[1].score == 60;
    assert ScoreBoard.IsFirstTop(roster, 1);
    TimeWinnerIsFirstTop(g, 1);
  }

  /** The registry invariant: every room is well formed and has a player
      (its join order is not empty). */
  ghost predicate RegistryValid(m: map<string, RoomState>) {
    forall k :: k in m ==> WellFormed(m[k]) && m[k].order != []
  }

  /** Storing an occupied, well-formed room keeps the registry invariant. */
  lemma RegistryValidUpdate(m: map<string, RoomState>, key: string, s: RoomState)
    requires RegistryValid(m) && WellFormed(s) && s.order != []
    ensures RegistryValid(m[key := s])
  {
  }

  /** Deleting a room keeps the registry invariant. */
  lemma RegistryValidRemove(m: map<string, RoomState>, key: string)
    requires RegistryValid(m)
    ensures RegistryValid(m - {key})
  {
  }

  /** `join-battle` on the registry: the room is created only when its key is
      absent, then the player is added to it. Other rooms are untouched. */
  function JoinAll(m: map<string, RoomState>, roomId: string, id: string, name: string)
    : (r: map<string, RoomState>)
    requires RegistryValid(m)
    ensures RegistryValid(r)
    ensures r.Keys == m.Keys + {roomId}
    ensures forall k :: k in m && k != roomId ==> r[k] == m[k]
    ensures r[roomId] == Joined(if roomId in m then m[roomId] else NewRoom(), id, name)
  {
    var s := if roomId in m then m[roomId] else NewRoom();
    m[roomId := Joined(s, id, name)]
  }

  /** A room created by `join-battle` holds just the joining player, with the
      starter code of the default problem, and is in the lobby with a full
      clock. Joining an existing room keeps its problem, phase, clock, winner
      and timers. */
  lemma JoinCreatesOnlyWhenAbsent(m: map<string, RoomState>, roomId: string, id: string, name: string)
    requires RegistryValid(m)
    ensures var r := JoinAll(m, roomId, id, name)[roomId];
            roomId !in m ==>
              && r.players == map[id := Player(id, name, DefaultProblem.starterCode, 0, 0, true)]
              && r.order == [id]
              && r.problem == Some(DefaultProblem) && !r.battleStarted
              && r.timeLeft == BattleSeconds && r.winner == None && r.timers == 0
    ensures var r := JoinAll(m, roomId, id, name)[roomId];
            roomId in m ==>
              && r.problem == m[roomId].problem && r.battleStarted == m[roomId].battleStarted
              && r.timeLeft == m[roomId].timeLeft && r.winner == m[roomId].winner
              && r.timers == m[roomId].timers
  {
    if roomId !in m {
      var r := JoinAll(m, roomId, id, name)[roomId];
      assert r.players.Keys == {id};
    }
  }

  /** What `disconnect` does to one room: `None` when the room is deleted
      because `id` was its last player. */
  function AfterDisconnect(s: RoomState, id: string): (r: Option<RoomState>)
    ensures r.None? <==> id in s.players && s.players.Keys == {id}
    ensures r.Some? ==> r.value.players.Keys == s.players.Keys - {id}
    ensures r.Some? ==> r.value == s.(players := r.value.players, order := r.value.order)
    ensures r.Some? && id !in s.players ==> r.value == s
  {
    if id !in s.players then Some(s)
    else if s.players.Keys == {id} then None
    else Some(Removed(s, id))
  }

  /** A room that survives `disconnect` is still well formed and occupied. */
  lemma AfterDisconnectOccupied(s: RoomState, id: string)
    requires WellFormed(s) && s.order != [] && AfterDisconnect(s, id).Some?
    ensures WellFormed(AfterDisconnect(s, id).value) && AfterDisconnect(s, id).value.order != []
  {
    if id in s.players {
      var r := AfterDisconnect(s, id).value;
      assert r.players.Keys == s.players.Keys - {id};
      var other :| other in s.players && other != id;
      assert other in r.players;
    } else {
      assert AfterDisconnect(s, id).value == s;
    }
  }

  /** `disconnect` on the registry: `id` leaves every room that has it, and
      exactly the rooms it leaves empty are deleted. */
  function DisconnectAll(m: map<string, RoomState>, id: string): (r: map<string, RoomState>)
    requires RegistryValid(m)
    ensures RegistryValid(r)
    ensures forall k :: k in r <==> k in m && AfterDisconnect(m[k], id).Some?
    ensures forall k :: k in r ==> r[k] == AfterDisconnect(m[k], id).value
  {
    var r := map k | k in m && AfterDisconnect(m[k], id).Some? :: AfterDisconnect(m[k], id).value;
    assert RegistryValid(r) by {
      forall k | k in r ensures WellFormed(r[k]) && r[k].order != [] {
        AfterDisconnectOccupied(m[k], id);
      }
    }
    r
  }

  /** One iteration of the `disconnect` loop: the room under `key` loses `id`,
      and is deleted when that leaves it empty. */
  function LeaveOne(m: map<string, RoomState>, key: string, id: string): (r: map<string, RoomState>)
    requires key in m
    ensures r.Keys <= m.Keys
    ensures forall k :: k in m && k != key ==> k in r && r[k] == m[k]
  {
    match AfterDisconnect(m[key], id)
    case Some(t) => m[key := t]
    case None => m - {key}
  }

  /** The three outcomes of a `LeaveOne` step. */
  lemma LeaveOneCases(m: map<string, RoomState>, key: string, id: string)
    requires key in m
    ensures id !in m[key].players ==> LeaveOne(m, key, id) == m
    ensures id in m[key].players && m[key].players.Keys == {id} ==> LeaveOne(m, key, id) == m - {key}
    ensures id in m[key].players && m[key].players.Keys != {id} ==>
              LeaveOne(m, key, id) == m[key := Removed(m[key], id)]
  {
    if id !in m[key].players {
      assert m[key := m[key]] == m;
    }
  }

  /** The registry once the `disconnect` loop has visited the keys in `done`. */
  function DisconnectPart(m: map<string, RoomState>, id: string, done: set<string>): (r: map<string, RoomState>)
    ensures forall k :: k in r <==> k in m && (k !in done || AfterDisconnect(m[k], id).Some?)
  {
    map k | k in m && (k !in done || AfterDisconnect(m[k], id).Some?) ::
      if k in done then AfterDisconnect(m[k], id).value else m[k]
  }

  /** Visiting one more key is one `LeaveOne` step. */
  lemma DisconnectPartStep(m: map<string, RoomState>, id: string, done: set<string>, key: string)
    requires key in m && key !in done
    ensures key in DisconnectPart(m, id, done)
    ensures LeaveOne(DisconnectPart(m, id, done), key, id) == DisconnectPart(m, id, done + {key})
  {
    var p, q := DisconnectPart(m, id, done), DisconnectPart(m, id, done + {key});
    assert p[key] == m[key];
    var l := LeaveOne(p, key, id);
    assert l.Keys == q.Keys by {
      match AfterDisconnect(m[key], id)
      case Some(_) =>
      case None =>
    }
    forall k | k in l ensures l[k] == q[k] {
      if k != key {
        assert l[k] == p[k];
      }
    }
  }

  /** The loop starts from the registry and, once every key is visited, has
      computed `DisconnectAll`. */
  lemma DisconnectPartBounds(m: map<string, RoomState>, id: string)
    requires RegistryValid(m)
    ensures DisconnectPart(m, id, {}) == m
    ensures DisconnectPart(m, id, m.Keys) == DisconnectAll(m, id)
  {
  }

  /** After `disconnect`, no room holds `id`, rooms that never held it are
      unchanged, and a room that still exists keeps its phase and winner. */
  lemma DisconnectRemovesEverywhere(m: map<string, RoomState>, id: string)
    requires RegistryValid(m)
    ensures var r := DisconnectAll(m, id);
            && (forall k :: k in r ==> id !in r[k].players)
            && (forall k :: k in m && id !in m[k].players ==> k in r && r[k] == m[k])
            && (forall k :: k in m && id in m[k].players && |m[k].players| > 1 ==>
                  k in r && r[k].winner == m[k].winner && r[k].battleStarted == m[k].battleStarted
                  && r[k].players.Keys == m[k].players.Keys - {id})
            && (forall k :: k in m && !(k in r) ==> m[k].players.Keys == {id})
  {
    var r := DisconnectAll(m, id);
    forall k | k in m && id in m[k].players && |m[k].players| > 1
      ensures m[k].players.Keys != {id}
    {
      assert |m[k].players| == |m[k].players.Keys|;
    }
  }
}
