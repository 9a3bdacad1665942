/** Sequences of socket events handled one at a time, as the Node.js event
    loop runs the handlers, and what they leave in the registry and emit. */
module Traces {
  import opened Roster
  import Presence
  import PropertyKeys

  /** The three events the connection handler listens for, each with the
      socket id of the connection it arrived on where the handler uses it. */
  datatype Event =
    | JoinRoom(socketId: string, roomName: string, userName: string)
    | ChatMessage(room: string, message: string, user: Presence.User, timestamp: nat)
    | Disconnect(socketId: string)

  /** The registry after a run, everything emitted in order, and whether the
      run ended in a handler that threw. */
  datatype Trace = Trace(final: Presence.Registry, emitted: seq<Presence.Emit>, threw: bool)

  /** One handler invocation. The chat handler builds the `newMessage` record
      for whatever room the client names and does not read the registry. */
  function Handle(reg: Presence.Registry, ev: Event): (r: Presence.Result<Presence.Handled>)
    requires Presence.Valid(reg)
    ensures r.Ok? ==> Presence.Valid(r.value.next)
  {
    match ev
    case JoinRoom(socketId, roomName, userName) =>
      var r := Presence.Join(reg, roomName, socketId, userName);
      if r.Ok? then
        Presence.JoinPreservesValid(reg, roomName, socketId, userName);
        r
      else r
    case ChatMessage(room, message, user, timestamp) =>
      Presence.Ok(Presence.Handled(reg, Presence.Some(Presence.NewMessage(room, message, user, timestamp))))
    case Disconnect(socketId) =>
      Presence.Ok(Presence.Disconnect(reg, socketId))
  }

  function Emitted(b: Presence.Option<Presence.Emit>): seq<Presence.Emit> {
    if b.Some? then [b.value] else []
  }

  /** Handles the events in order. A handler that throws ends the run: the
      exception escapes the listener and nothing after it is modelled. */
  function Run(reg: Presence.Registry, events: seq<Event>): (t: Trace)
    requires Presence.Valid(reg)
    ensures Presence.Valid(t.final)
    decreases |events|
  {
    if events == [] then Trace(reg, [], false)
    else
      match Handle(reg, events[0])
      case TypeError => Trace(reg, [], true)
      case Ok(h) =>
        var t := Run(h.next, events[1..]);
        Trace(t.final, Emitted(h.broadcast) + t.emitted, t.threw)
  }

  function WithoutChat(events: seq<Event>): (r: seq<Event>)
    ensures forall i :: 0 <= i < |r| ==> !r[i].ChatMessage?
  {
    if events == [] then []
    else (if events[0].ChatMessage? then [] else [events[0]]) + WithoutChat(events[1..])
  }

  function RosterUpdates(emits: seq<Presence.Emit>): seq<Presence.Emit> {
    if emits == [] then []
    else (if emits[0].UpdateUserList? then [emits[0]] else []) + RosterUpdates(emits[1..])
  }

  lemma {:induction false} RosterUpdatesAppend(a: seq<Presence.Emit>, b: seq<Presence.Emit>)
    ensures RosterUpdates(a + b) == RosterUpdates(a) + RosterUpdates(b)
  {
    if a == [] {
      assert a + b == b;
    } else {
      var rest := a[1..];
      var head := if a[0].UpdateUserList? then [a[0]] else [];
      assert (a + b)[0] == a[0] && (a + b)[1..] == rest + b;
      RosterUpdatesAppend(rest, b);
      assert RosterUpdates(a + b) == head + (RosterUpdates(rest) + RosterUpdates(b));
      assert RosterUpdates(a) == head + RosterUpdates(rest);
    }
  }

  /** One step of a run: the head event is handled and the run goes on from
      the registry it leaves, unless it throws. */
  lemma RunStep(reg: Presence.Registry, events: seq<Event>)
    requires Presence.Valid(reg) && events != []
    ensures Handle(reg, events[0]).TypeError? ==> Run(reg, events) == Trace(reg, [], true)
    ensures Handle(reg, events[0]).Ok? ==>
      var h := Handle(reg, events[0]).value;
      var t := Run(h.next, events[1..]);
      Run(reg, events) == Trace(t.final, Emitted(h.broadcast) + t.emitted, t.threw)
  {
  }

  /** `chatMessage` never touches the registry: removing every chat event from
      a run leaves the same final registry, the same throw, and exactly the
      same roster broadcasts in the same order. */
  lemma {:induction false} ChatNeverChangesRegistry(reg: Presence.Registry, events: seq<Event>)
    requires Presence.Valid(reg)
    ensures Run(reg, WithoutChat(events)).final == Run(reg, events).final
    ensures Run(reg, WithoutChat(events)).threw == Run(reg, events).threw
    ensures Run(reg, WithoutChat(events)).emitted == RosterUpdates(Run(reg, events).emitted)
    decreases |events|
  {
    if events != [] {
      var rest := events[1..];
      RunStep(reg, events);
      if events[0].ChatMessage? {
        assert WithoutChat(events) == WithoutChat(rest);
        var h := Handle(reg, events[0]).value;
        ChatNeverChangesRegistry(reg, rest);
        RosterUpdatesAppend(Emitted(h.broadcast), Run(reg, rest).emitted);
      } else {
        var filtered := WithoutChat(events);
        assert filtered == [events[0]] + WithoutChat(rest);
        assert filtered[0] == events[0] && filtered[1..] == WithoutChat(rest);
        RunStep(reg, filtered);
        if Handle(reg, events[0]).Ok? {
          var h := Handle(reg, events[0]).value;
          ChatNeverChangesRegistry(h.next, rest);
          RosterUpdatesAppend(Emitted(h.broadcast), Run(h.next, rest).emitted);
          assert RosterUpdates(Emitted(h.broadcast)) == Emitted(h.broadcast);
        }
      }
    }
  }

  /** A disconnect whose socket id heads the list of the first room visited:
      that entry goes and nothing else changes. */
  lemma DisconnectFromFirstVisited(reg: Presence.Registry, id: string)
    requires Presence.Valid(reg)
    requires |PropertyKeys.ForInOrder(reg.created)| > 0
    requires var first := PropertyKeys.ForInOrder(reg.created)[0];
      first in reg.rooms && |reg.rooms[first]| > 0 && reg.rooms[first][0].id == id
    ensures var first := PropertyKeys.ForInOrder(reg.created)[0];
      var roster := reg.rooms[first][1..];
      Handle(reg, Disconnect(id)) == Presence.Ok(Presence.Handled(
        reg.(rooms := reg.rooms[first := roster]),
        Presence.Some(Presence.UpdateUserList(first, roster))))
  {
    var first := PropertyKeys.ForInOrder(reg.created)[0];
    var roster := reg.rooms[first];
    assert FindIndex(roster, id) == 0;
    assert Splice(roster, 0) == roster[1..];
    Presence.DisconnectAt(reg, id, 0);
  }

  /** The first join into an empty registry creates the room with the joining
      connection as its only entry. */
  lemma JoinIntoEmpty(a: string, alice: string, room: string)
    requires !PropertyKeys.IsInherited(room)
    ensures Handle(Presence.EMPTY, JoinRoom(a, room, alice)) ==
      Presence.Ok(Presence.Handled(Presence.Registry(map[room := [Member(a, alice)]], [room]),
        Presence.Some(Presence.UpdateUserList(room, [Member(a, alice)]))))
  {
    var m := Member(a, alice);
    assert [] + [m] == [m];
    assert Presence.EMPTY.created + [room] == [room];
    var r := Handle(Presence.EMPTY, JoinRoom(a, room, alice));
    assert r.value.next.rooms == map[room := [m]];
  }

  /** A second join into the only room goes after the first entry, even when
      it is the same connection under the same name. */
  lemma JoinSameRoom(a: string, alice: string, b: string, bob: string, room: string)
    ensures Presence.Valid(Presence.Registry(map[room := [Member(a, alice)]], [room]))
    ensures Handle(Presence.Registry(map[room := [Member(a, alice)]], [room]), JoinRoom(b, room, bob)) ==
      Presence.Ok(Presence.Handled(Presence.Registry(map[room := [Member(a, alice), Member(b, bob)]], [room]),
        Presence.Some(Presence.UpdateUserList(room, [Member(a, alice), Member(b, bob)]))))
  {
    var ma, mb := Member(a, alice), Member(b, bob);
    var r1 := Presence.Registry(map[room := [ma]], [room]);
    assert [ma] + [mb] == [ma, mb];
    var r := Handle(r1, JoinRoom(b, room, bob));
    assert r.value.next.rooms == map[room := [ma, mb]];
  }

  /** A connection joining a second room stays listed in the first. */
  lemma JoinSecondRoom(a: string, alice: string, first: string, second: string)
    requires first != second && !PropertyKeys.IsInherited(first) && !PropertyKeys.IsInherited(second)
    ensures Presence.Valid(Presence.Registry(map[first := [Member(a, alice)]], [first]))
    ensures Handle(Presence.Registry(map[first := [Member(a, alice)]], [first]), JoinRoom(a, second, alice)) ==
      Presence.Ok(Presence.Handled(
        Presence.Registry(map[first := [Member(a, alice)], second := [Member(a, alice)]], [first, second]),
        Presence.Some(Presence.UpdateUserList(second, [Member(a, alice)]))))
  {
    var m := Member(a, alice);
    var r1 := Presence.Registry(map[first := [m]], [first]);
    assert [] + [m] == [m];
    assert r1.created + [second] == [first, second];
    var r := Handle(r1, JoinRoom(a, second, alice));
    assert r.value.next.rooms == map[first := [m], second := [m]];
  }

  /** The connection at the head of the only room's list disconnects: the
      entry behind it moves up, and a room left empty is kept. */
  lemma LeaveOnlyRoom(a: string, alice: string, b: string, bob: string, room: string)
    ensures Presence.Valid(Presence.Registry(map[room := [Member(a, alice), Member(b, bob)]], [room]))
    ensures Handle(Presence.Registry(map[room := [Member(a, alice), Member(b, bob)]], [room]), Disconnect(a)) ==
      Presence.Ok(Presence.Handled(Presence.Registry(map[room := [Member(b, bob)]], [room]),
        Presence.Some(Presence.UpdateUserList(room, [Member(b, bob)]))))
  {
    var ma, mb := Member(a, alice), Member(b, bob);
    var r2 := Presence.Registry(map[room := [ma, mb]], [room]);
    assert [ma, mb][1..] == [mb];
    assert r2.rooms[room := [mb]] == map[room := [mb]];
    assert Presence.Valid(r2);
    PropertyKeys.ForInOrderOfOne(room);
    DisconnectFromFirstVisited(r2, a);
  }

  /** A connection listed in two rooms with ordinary names is removed only from
      the one created first; its entry in the other stays behind. */
  lemma StaleEntryInSecondRoom(a: string, alice: string, first: string, second: string)
    requires first != second
    requires !PropertyKeys.IsArrayIndex(first) && !PropertyKeys.IsArrayIndex(second)
    ensures Handle(Presence.Registry(map[first := [Member(a, alice)], second := [Member(a, alice)]], [first, second]), Disconnect(a)) ==
      Presence.Ok(Presence.Handled(
        Presence.Registry(map[first := [], second := [Member(a, alice)]], [first, second]),
        Presence.Some(Presence.UpdateUserList(first, []))))
  {
    var m := Member(a, alice);
    var r2 := Presence.Registry(map[first := [m], second := [m]], [first, second]);
    assert [m][1..] == [];
    assert r2.rooms[first := []] == map[first := [], second := [m]];
    assert Presence.Valid(r2);
    PropertyKeys.ForInOrderOfNames([first, second]);
    DisconnectFromFirstVisited(r2, a);
  }

  /** A room named by an array index is visited before a room created earlier
      under another name, so that is the room the connection is removed from. */
  lemma ArrayIndexRoomVisitedFirst(a: string, alice: string, named: string, index: string)
    requires !PropertyKeys.IsArrayIndex(named) && PropertyKeys.IsArrayIndex(index)
    ensures Handle(Presence.Registry(map[named := [Member(a, alice)], index := [Member(a, alice)]], [named, index]), Disconnect(a)) ==
      Presence.Ok(Presence.Handled(
        Presence.Registry(map[named := [Member(a, alice)], index := []], [named, index]),
        Presence.Some(Presence.UpdateUserList(index, []))))
  {
    var m := Member(a, alice);
    var r2 := Presence.Registry(map[named := [m], index := [m]], [named, index]);
    assert [m][1..] == [];
    assert r2.rooms[index := []] == map[named := [m], index := []];
    assert Presence.Valid(r2);
    PropertyKeys.ForInOrderOfIndexThenName(named, index);
    DisconnectFromFirstVisited(r2, a);
  }

  /** No run makes `usersInRooms` own a key named like an Object.prototype
      property: a join under such a name throws instead of creating it, and
      the other handlers create no keys. */
  lemma {:induction false} RunKeepsShadowFree(reg: Presence.Registry, events: seq<Event>)
    requires Presence.Valid(reg) && Presence.ShadowFree(reg)
    ensures Presence.ShadowFree(Run(reg, events).final)
    decreases |events|
  {
    if events != [] {
      RunStep(reg, events);
      var r := Handle(reg, events[0]);
      if r.Ok? {
        RunKeepsShadowFree(r.value.next, events[1..]);
      }
    }
  }

  /** Joining a room named after an Object.prototype property throws before
      anything is recorded, and the run ends there. */
  lemma InheritedRoomNameThrows(reg: Presence.Registry, a: string, alice: string, roomName: string, events: seq<Event>)
    requires Presence.Valid(reg) && Presence.ShadowFree(reg) && PropertyKeys.IsInherited(roomName)
    ensures var t := Run(reg, [JoinRoom(a, roomName, alice)] + events);
      t.threw && t.final == reg && t.emitted == []
  {
    RunStep(reg, [JoinRoom(a, roomName, alice)] + events);
  }

  /** Whatever happened before, a join under a name inherited from
      Object.prototype throws. */
  lemma InheritedRoomNameAlwaysThrows(history: seq<Event>, a: string, alice: string, roomName: string)
    requires PropertyKeys.IsInherited(roomName)
    ensures var reg := Run(Presence.EMPTY, history).final;
      Handle(reg, JoinRoom(a, roomName, alice)).TypeError?
  {
    RunKeepsShadowFree(Presence.EMPTY, history);
  }
}
