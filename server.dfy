/** The Socket.IO server's mutable state: the registry of rooms and the rooms
    themselves, updated in place by the event handlers. Each handler is proved
    to move the abstract state exactly as the functions of module Rooms say.
    Broadcasts are left out; the `test-result` messages of a run are returned. */
module Server {
  import opened Common
  import Grading
  import ScoreBoard
  import Rooms

  /** One battle room. The interval callbacks of `start-battle` hold the room
      object itself, so they keep ticking it even after the registry has
      dropped it. */
  class Room {
    var order: seq<string>
    var players: map<string, Player>
    var problem: Option<Problem>
    var battleStarted: bool
    var timeLeft: int
    var winner: Option<string>
    var timers: nat
    /** The registry key the room was created under. */
    ghost const key: string

    function State(): Rooms.RoomState
      reads this
    {
      Rooms.RoomState(order, players, problem, battleStarted, timeLeft, winner, timers)
    }

    ghost predicate Valid()
      reads this
    {
      Rooms.WellFormed(State())
    }

    /** The room `join-battle` allocates for an unknown key. */
    constructor (ghost key: string)
      ensures Valid() && State() == Rooms.NewRoom() && this.key == key
    {
      this.key := key;
      order, players := [], map[];
      problem := Some(DefaultProblem);
      battleStarted, timeLeft, winner, timers := false, BattleSeconds, None, 0;
    }

    /** `room.players[socket.id] = {...}` */
    method Join(id: string, name: string)
      requires Valid()
      modifies this
      ensures Valid() && State() == Rooms.Joined(old(State()), id, name)
    {
      if id !in players {
        order := order + [id];
      }
      players := players[id := Player(id, name, Rooms.StarterCode(problem), 0, 0, true)];
    }

    /** `room.players[playerId].code = code`; the handler throws when the
        player is not in the room, so presence is required. */
    method ChangeCode(id: string, code: string)
      requires Valid() && id in players
      modifies this
      ensures Valid() && State() == Rooms.CodeChanged(old(State()), id, code)
    {
      players := players[id := players[id].(code := code)];
    }

    /** The body of `run-tests` once the room is found, with the execution
        service's answer given as `outcome`. */
    method RunTests(id: string, outcome: Option<seq<int>>) returns (events: seq<Grading.TestResult>)
      requires Valid()
      modifies this
      ensures Valid() && State() == Rooms.RunTests(old(State()), id, outcome)
      ensures events == Rooms.RunReport(old(State()), id, outcome)
    {
      if !battleStarted || problem.None? {
        return [];
      }
      if outcome.None? || id !in players {
        // the call or the first access to the player threw; the error is logged
        return [];
      }
      var verdicts := outcome.value;
      var before := players[id];
      var passedCount, reports := Grading.ScoreRun(id, before.score, verdicts);
      // the pass count is stored, then the score grows by ten points per passed case
      players := players[id := before.(testsPassedCount := passedCount,
                                       score := before.score + passedCount * PointsPerCase)];
      if passedCount == problem.value.testCaseCount {
        winner := Some(id);
        battleStarted := false;
      }
      assert State() == Rooms.Graded(old(State()), id, verdicts);
      events := reports;
      assert events == Grading.Report(id, before.score, verdicts);
    }

    /** `start-battle` once the room is found. */
    method Start()
      requires Valid()
      modifies this
      ensures Valid() && State() == Rooms.Started(old(State()))
    {
      if |players| < 2 {
        return;
      }
      battleStarted := true;
      timeLeft := BattleSeconds;
      winner := None;
      timers := timers + 1;
    }

    /** One run of the interval callback of `start-battle`. */
    method Tick()
      requires Valid() && timers > 0
      modifies this
      ensures Valid() && State() == Rooms.Ticked(old(State()))
    {
      ghost var before := State();
      timeLeft := timeLeft - 1;
      if timeLeft <= 0 {
        timers := timers - 1;  // clearInterval(timer)
        battleStarted := false;
        var roster := Rooms.Roster(order, players);
        if |roster| > 0 {
          var ranked := ScoreBoard.SortByScore(roster);
          winner := Some(ranked[0].id);
          assert ranked[0].id == Rooms.TimeWinner(before);
        }
      }
      ghost var after := Rooms.Ticked(before);
      assert order == after.order && players == after.players && problem == after.problem;
      assert timeLeft == after.timeLeft && timers == after.timers;
      assert battleStarted == after.battleStarted && winner == after.winner;
    }

    /** `delete room.players[socket.id]` */
    method Leave(id: string)
      requires Valid() && id in players
      modifies this
      ensures Valid() && State() == Rooms.Removed(old(State()), id)
      ensures timers == old(timers)
    {
      players := players - {id};
      order := Rooms.RemoveId(order, id);
      assert State() == Rooms.Removed(old(State()), id);
    }
  }

  /** The process-wide `rooms` map. `model` is its abstract value: the state
      of the room under each key. */
  class Registry {
    var rooms: map<string, Room>
    ghost var model: map<string, Rooms.RoomState>
    /** Every room object the registry has held; a superset of the values of `rooms`. */
    ghost var Repr: set<Room>

    /** Each room sits under the key it was created for (so distinct keys
        hold distinct rooms), each room's state is the model's, and every
        room is well formed and occupied. */
    ghost predicate Valid()
      reads this, Repr
    {
      && rooms.Keys == model.Keys
      && (forall k :: k in rooms ==> rooms[k] in Repr && rooms[k].key == k)
      && (forall k :: k in rooms ==> rooms[k].State() == model[k])
      && Rooms.RegistryValid(model)
    }

    /** `Valid()` except that the room under `key` may have moved away from
        the model while a handler works on it. */
    ghost predicate ValidExcept(key: string)
      reads this, Repr
    {
      && rooms.Keys == model.Keys
      && (forall k :: k in rooms ==> rooms[k] in Repr && rooms[k].key == k)
      && (forall k :: k in rooms && k != key ==> rooms[k].State() == model[k])
      && Rooms.RegistryValid(model)
    }

    /** Records the new state of the room under `key` in the model. */
    ghost method Store(key: string)
      requires ValidExcept(key) && key in rooms
      requires Rooms.RegistryValid(model[key := rooms[key].State()])
      modifies this
      ensures Valid() && rooms == old(rooms) && Repr == old(Repr)
      ensures model == old(model)[key := rooms[key].State()]
    {
      ghost var st := rooms[key].State();
      model := model[key := st];
      forall k | k in rooms ensures rooms[k].State() == model[k] {
        if k != key {
          assert model[k] == old(model)[k];
        }
      }
    }

    /** `delete rooms[key]` */
    method Drop(key: string)
      requires ValidExcept(key) && key in rooms
      modifies this
      ensures Valid()
      ensures rooms == old(rooms) - {key} && model == old(model) - {key} && Repr == old(Repr)
    {
      Rooms.RegistryValidRemove(model, key);
      rooms := rooms - {key};
      model := model - {key};
    }

    constructor ()
      ensures Valid() && model == map[]
    {
      rooms := map[];
      model := map[];
      Repr := {};
    }

    /** `join-battle`: find or create the room, then (re)set the player. */
    method Join(roomId: string, socketId: string, name: string)
      requires Valid()
      modifies this, if roomId in rooms then {rooms[roomId]} else {}
      ensures Valid()
      ensures model == Rooms.JoinAll(old(model), roomId, socketId, name)
      ensures forall k :: k in old(rooms) ==> k in rooms && rooms[k] == old(rooms)[k]
      ensures roomId !in old(rooms) ==> fresh(rooms[roomId])
    {
      if roomId in rooms {
        var room := rooms[roomId];
        room.Join(socketId, name);
        assert ValidExcept(roomId) by {
          forall k | k in rooms && k != roomId ensures rooms[k].State() == model[k] {
            assert rooms[k] != room;
          }
        }
        Rooms.RegistryValidUpdate(model, roomId, room.State());
        Store(roomId);
      } else {
        JoinNew(roomId, socketId, name);
      }
    }

    /** The branch of `join-battle` that registers a new room. */
    method JoinNew(roomId: string, socketId: string, name: string)
      requires Valid() && roomId !in rooms
      modifies this
      ensures Valid()
      ensures model == old(model)[roomId := Rooms.Joined(Rooms.NewRoom(), socketId, name)]
      ensures roomId in rooms && fresh(rooms[roomId]) && rooms == old(rooms)[roomId := rooms[roomId]]
    {
      var room := new Room(roomId);
      room.Join(socketId, name);
      Rooms.RegistryValidUpdate(model, roomId, room.State());
      Register(roomId, room);
    }

    /** `rooms[key] = room` for a room created under the new key `key`. */
    method Register(key: string, room: Room)
      requires Valid() && key !in rooms && room.key == key
      requires Rooms.RegistryValid(model[key := room.State()])
      modifies this
      ensures Valid() && Repr == old(Repr) + {room}
      ensures rooms == old(rooms)[key := room] && model == old(model)[key := room.State()]
    {
      ghost var st := room.State();
      forall k | k in rooms ensures rooms[k] != room && rooms[k].State() == model[k] {
      }
      rooms, model, Repr := rooms[key := room], model[key := st], Repr + {room};
      assert room.State() == st;
      forall k | k in rooms && k != key ensures rooms[k].State() == model[k] {
        assert rooms[k] == old(rooms)[k];
      }
    }

    /** `code-change`: a no-op for an unknown room; otherwise the player, who
        must be present, gets the new code. */
    method ChangeCode(roomId: string, playerId: string, code: string)
      requires Valid()
      requires roomId in rooms ==> playerId in rooms[roomId].players
      modifies this, if roomId in rooms then {rooms[roomId]} else {}
      ensures Valid() && rooms == old(rooms)
      ensures roomId !in rooms ==> model == old(model)
      ensures roomId in rooms ==>
                model == old(model)[roomId := Rooms.CodeChanged(old(model)[roomId], playerId, code)]
    {
      if roomId !in rooms {
        return;
      }
      var room := rooms[roomId];
      assert room.Valid();
      room.ChangeCode(playerId, code);
      assert ValidExcept(roomId) by {
        forall k | k in rooms && k != roomId ensures rooms[k].State() == model[k] {
          assert rooms[k] != room;
        }
      }
      Rooms.RegistryValidUpdate(model, roomId, room.State());
      Store(roomId);
    }

    /** `run-tests`, applied as one step when the execution service answers. */
    method RunTests(roomId: string, playerId: string, outcome: Option<seq<int>>)
      returns (events: seq<Grading.TestResult>)
      requires Valid()
      modifies this, if roomId in rooms then {rooms[roomId]} else {}
      ensures Valid() && rooms == old(rooms)
      ensures roomId !in rooms ==> model == old(model) && events == []
      ensures roomId in rooms ==>
                && model == old(model)[roomId := Rooms.RunTests(old(model)[roomId], playerId, outcome)]
                && events == Rooms.RunReport(old(model)[roomId], playerId, outcome)
    {
      if roomId !in rooms {
        return [];
      }
      var room := rooms[roomId];
      assert room.Valid();
      events := room.RunTests(playerId, outcome);
      assert ValidExcept(roomId) by {
        forall k | k in rooms && k != roomId ensures rooms[k].State() == model[k] {
          assert rooms[k] != room;
        }
      }
      Rooms.RegistryValidUpdate(model, roomId, room.State());
      Store(roomId);
    }

    /** `start-battle` */
    method Start(roomId: string)
      requires Valid()
      modifies this, if roomId in rooms then {rooms[roomId]} else {}
      ensures Valid() && rooms == old(rooms)
      ensures roomId !in rooms ==> model == old(model)
      ensures roomId in rooms ==> model == old(model)[roomId := Rooms.Started(old(model)[roomId])]
    {
      if roomId !in rooms {
        return;
      }
      var room := rooms[roomId];
      assert room.Valid();
      room.Start();
      assert ValidExcept(roomId) by {
        forall k | k in rooms && k != roomId ensures rooms[k].State() == model[k] {
          assert rooms[k] != room;
        }
      }
      Rooms.RegistryValidUpdate(model, roomId, room.State());
      Store(roomId);
    }

    /** A tick of an interval of the room registered under `roomId`. */
    method Tick(roomId: string)
      requires Valid() && roomId in rooms && rooms[roomId].timers > 0
      modifies this, rooms[roomId]
      ensures Valid() && rooms == old(rooms)
      ensures model == old(model)[roomId := Rooms.Ticked(old(model)[roomId])]
    {
      var room := rooms[roomId];
      assert room.Valid();
      room.Tick();
      assert ValidExcept(roomId) by {
        forall k | k in rooms && k != roomId ensures rooms[k].State() == model[k] {
          assert rooms[k] != room;
        }
      }
      Rooms.RegistryValidUpdate(model, roomId, room.State());
      Store(roomId);
    }

    /** One iteration of `disconnect`: `id` leaves the room under `key` if it
        is there, and the room is deleted if that left it empty. `all` is the
        registry the loop started from and `timers` its rooms' interval
        counts; no room of it has its timers changed. */
    method LeaveRoom(key: string, id: string, ghost all: map<string, Room>, ghost timers: map<string, nat>)
      requires Valid() && key in rooms
      requires forall k :: k in rooms ==> k in all && rooms[k] == all[k]
      requires forall k :: k in all ==> all[k].key == k && k in timers && all[k].timers == timers[k]
      modifies this, rooms[key]
      ensures Valid()
      ensures model == Rooms.LeaveOne(old(model), key, id) && Repr == old(Repr)
      ensures rooms == old(rooms) || rooms == old(rooms) - {key}
      ensures key !in rooms ==>
                id in old(model)[key].players && old(rooms)[key].State() == Rooms.Removed(old(model)[key], id)
      ensures forall k :: k in all ==> all[k].timers == timers[k]
    {
      var room := rooms[key];
      ghost var s := model[key];
      Rooms.LeaveOneCases(model, key, id);
      if id in room.players {
        room.Leave(id);
        assert ValidExcept(key) by {
          forall k | k in rooms && k != key ensures rooms[k].State() == model[k] {
            assert rooms[k] != room;
          }
        }
        if room.players == map[] {
          assert s.players.Keys == {id} by {
            assert room.players == s.players - {id};
          }
          Drop(key);
          assert room.State() == Rooms.Removed(s, id);
        } else {
          assert s.players.Keys != {id} && room.order != [] by {
            var other :| other in room.players;
          }
          Rooms.RegistryValidUpdate(model, key, room.State());
          Store(key);
        }
      }
      forall k | k in all ensures all[k].timers == timers[k] {
        assert k != key ==> all[k] != room;
      }
    }

    /** `disconnect`: visit every registered room; remove the player where
        present and delete the rooms this leaves empty. Every visited room,
        deleted or not, keeps its timers: nothing clears them. */
    method Disconnect(socketId: string)
      requires Valid()
      modifies this, rooms.Values
      ensures Valid()
      ensures model == Rooms.DisconnectAll(old(model), socketId)
      ensures forall k :: k in rooms ==> k in old(rooms) && rooms[k] == old(rooms)[k]
      ensures forall k :: k in old(rooms) ==> old(rooms)[k].timers == old(rooms[k].timers)
      ensures forall k :: k in old(rooms) && k !in rooms ==>
                socketId in old(model)[k].players && old(rooms)[k].State() == Rooms.Removed(old(model)[k], socketId)
    {
      ghost var before := model;
      ghost var all := rooms;
      ghost var timers := map k | k in rooms :: rooms[k].timers;
      var pending := rooms.Keys;
      assert model == Rooms.DisconnectPart(before, socketId, before.Keys - pending) by {
        assert before.Keys - pending == {};
        Rooms.DisconnectPartBounds(before, socketId);
      }
      while pending != {}
        invariant Visiting(socketId, before, pending, all, timers) && Repr == old(Repr)
        decreases pending
      {
        var k :| k in pending;
        assert rooms[k] == all[k] && all[k] in all.Values;
        VisitRoom(k, socketId, before, pending, all, timers);
        pending := pending - {k};
      }
      assert before.Keys - pending == before.Keys;
      Rooms.DisconnectPartBounds(before, socketId);
    }

    /** The state of `Disconnect` with the keys in `pending` still to visit:
        the registry is valid, its model is the partial result over the
        visited keys, it holds only rooms of the registry `all` it started
        from, and every room of `all` still has the interval count recorded
        in `timers`. */
    ghost predicate Visiting(socketId: string, before: map<string, Rooms.RoomState>, pending: set<string>,
                             all: map<string, Room>, timers: map<string, nat>)
      reads this, Repr, all.Values
    {
      && Valid() && pending <= rooms.Keys && pending <= before.Keys
      && model == Rooms.DisconnectPart(before, socketId, before.Keys - pending)
      && (forall k :: k in rooms ==> k in all && rooms[k] == all[k])
      && (forall k :: k in all ==> all[k].key == k && k in timers && all[k].timers == timers[k])
      && (forall k :: k in all && k !in rooms ==>
            k in before && socketId in before[k].players && all[k].State() == Rooms.Removed(before[k], socketId))
    }

    /** One step of `Disconnect`: room `k`, not yet visited, loses the
        socket, and the visited keys grow by `k`. */
    method VisitRoom(k: string, socketId: string, ghost before: map<string, Rooms.RoomState>,
                     ghost pending: set<string>, ghost all: map<string, Room>, ghost timers: map<string, nat>)
      requires Visiting(socketId, before, pending, all, timers) && k in pending
      modifies this, rooms[k]
      ensures Visiting(socketId, before, pending - {k}, all, timers) && Repr == old(Repr)
    {
      ghost var done := before.Keys - pending;
      Rooms.DisconnectPartStep(before, socketId, done, k);
      LeaveRoom(k, socketId, all, timers);
      VisitOne(before.Keys, pending, k);
    }
  }

  /** Moving `k` from the keys still to visit to the visited ones. */
  lemma VisitOne(keys: set<string>, pending: set<string>, k: string)
    requires k in keys && k in pending
    ensures keys - (pending - {k}) == (keys - pending) + {k}
  {
  }

}
