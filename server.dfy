/** The `usersInRooms` object of server.js as the mutable state it is, and the
    socket handlers as methods that update it in place. Each method is proved
    to agree with the value-level handler in `Presence`, so every lemma proved
    there holds of the object as well. */
module Server {
  import opened PropertyKeys
  import opened Roster
  import Presence
  import Traces

  class RoomRegistry {
    /** The own keys of `usersInRooms` with their arrays. */
    var rooms: map<string, seq<Member>>
    /** The own keys in the order they were first assigned. */
    var created: seq<string>

    ghost function Snapshot(): Presence.Registry
      reads this
    {
      Presence.Registry(rooms, created)
    }

    /** Besides the registry invariant, no own key shadows an Object.prototype
        name: the object starts empty and a join never creates such a key. */
    ghost predicate Valid()
      reads this
    {
      Presence.Valid(Snapshot()) && Presence.ShadowFree(Snapshot())
    }

    /** `const usersInRooms = {}`. */
    constructor()
      ensures Valid()
      ensures Snapshot() == Presence.EMPTY
    {
      rooms := map[];
      created := [];
    }

    /** The `joinRoom` handler. The lookup `usersInRooms[roomName]` is falsy
        only for a name that is neither an own key nor inherited from
        Object.prototype; only then is an empty array assigned. The push then
        throws when the lookup still finds no array. */
    method Join(roomName: string, id: string, name: string) returns (r: Presence.Result<Presence.Emit>)
      requires Valid()
      modifies this
      ensures Valid()
      ensures r.TypeError? <==> Presence.Join(old(Snapshot()), roomName, id, name).TypeError?
      ensures r.TypeError? ==> rooms == old(rooms) && created == old(created)
      ensures r.TypeError? <==> IsInherited(roomName)
      ensures r.Ok? ==> Presence.Join(old(Snapshot()), roomName, id, name)
                          == Presence.Ok(Presence.Handled(Snapshot(), Presence.Some(r.value)))
    {
      if roomName !in rooms && !IsInherited(roomName) {
        rooms := rooms[roomName := []];
        created := created + [roomName];
      }
      if roomName !in rooms {
        return Presence.TypeError;
      }
      rooms := rooms[roomName := rooms[roomName] + [Member(id, name)]];
      r := Presence.Ok(Presence.UpdateUserList(roomName, rooms[roomName]));
      Presence.JoinPreservesValid(old(Snapshot()), roomName, id, name);
    }

    /** The `chatMessage` handler: the `newMessage` record for the room the
        client names. It reads nothing of the registry and changes nothing. */
    method ChatMessage(room: string, message: string, user: Presence.User, timestamp: nat)
      returns (e: Presence.Emit)
      ensures e.NewMessage? && e.room == room
      ensures e.message == message && e.user == user && e.timestamp == timestamp
    {
      e := Presence.NewMessage(room, message, user, timestamp);
    }

    /** The `disconnect` handler. Only the `for...in` walk touches the object,
        and it keeps its own keys, so no key shadows Object.prototype after it
        either. */
    method Disconnect(id: string) returns (b: Presence.Option<Presence.Emit>)
      requires Valid()
      modifies this
      ensures Valid()
      ensures Presence.Disconnect(old(Snapshot()), id) == Presence.Handled(Snapshot(), b)
    {
      Presence.DisconnectKeepsShadowFree(Snapshot(), id);
      b := RemoveFromFirstRoom(id);
    }

    /** The `for...in` walk of the disconnect handler: it splices out the first
        entry for `id` in the first room holding one, broadcasts that room's
        list and breaks out of the loop. */
    method RemoveFromFirstRoom(id: string) returns (b: Presence.Option<Presence.Emit>)
      requires Presence.Valid(Snapshot())
      modifies this
      ensures Presence.Disconnect(old(Snapshot()), id) == Presence.Handled(Snapshot(), b)
    {
      ghost var before := Snapshot();
      var keys := ForInOrder(created);
      Presence.ForInVisitsOnlyRooms(before);
      ghost var handled := Presence.Disconnect(before, id);
      b := Presence.None;
      var k := 0;
      while k < |keys|
        invariant 0 <= k <= |keys|
        invariant rooms == before.rooms && created == before.created && b.None?
        invariant Presence.DisconnectFrom(before, keys, id, k) == handled
        decreases |keys| - k
      {
        var roomName := keys[k];
        var userIndex := FindIndex(rooms[roomName], id);
        if userIndex != -1 {
          rooms := rooms[roomName := Splice(rooms[roomName], userIndex)];
          b := Presence.Some(Presence.UpdateUserList(roomName, rooms[roomName]));
          assert handled == Presence.Handled(Snapshot(), b);
          break;
        }
        k := k + 1;
      }
    }

    /** One socket event delivered to its handler. */
    method Dispatch(ev: Traces.Event) returns (r: Presence.Result<Presence.Option<Presence.Emit>>)
      requires Valid()
      modifies this
      ensures Valid()
      ensures r.TypeError? <==> Traces.Handle(old(Snapshot()), ev).TypeError?
      ensures r.TypeError? <==> ev.JoinRoom? && IsInherited(ev.roomName)
      ensures r.TypeError? ==> rooms == old(rooms) && created == old(created)
      ensures r.Ok? ==> Traces.Handle(old(Snapshot()), ev) == Presence.Ok(Presence.Handled(Snapshot(), r.value))
    {
      match ev
      case JoinRoom(socketId, roomName, userName) =>
        var j := Join(roomName, socketId, userName);
        r := if j.TypeError? then Presence.TypeError else Presence.Ok(Presence.Some(j.value));
      case ChatMessage(room, message, user, timestamp) =>
        var e := ChatMessage(room, message, user, timestamp);
        r := Presence.Ok(Presence.Some(e));
      case Disconnect(socketId) =>
        var b := Disconnect(socketId);
        r := Presence.Ok(b);
    }
  }
}
