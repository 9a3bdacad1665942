/** The room registry `usersInRooms` as a value, and what the `joinRoom` and
    `disconnect` handlers do to it, as functions from the registry before the
    event to the registry after it and the roster broadcast it causes. */
module Presence {
  import opened PropertyKeys
  import opened Roster

  datatype Option<T> = None | Some(value: T)

  /** A handler either completes or throws; the only throw in these handlers
      is `usersInRooms[roomName].push is not a function`. */
  datatype Result<T> = Ok(value: T) | TypeError

  /** The `user` object a chat client sends and that is relayed verbatim. */
  datatype User = User(name: string)

  /** An `io.to(room).emit(...)` call: the room it is addressed to and the
      event with its payload. */
  datatype Emit =
    | UpdateUserList(room: string, roster: seq<Member>)
    | NewMessage(room: string, message: string, user: User, timestamp: nat)

  /** `usersInRooms`: each own key of the object with its array, and the
      order in which those keys were first created. */
  datatype Registry = Registry(rooms: map<string, seq<Member>>, created: seq<string>)

  /** The outcome of one handler: the registry after it and what it emitted. */
  datatype Handled = Handled(next: Registry, broadcast: Option<Emit>)

  const EMPTY: Registry := Registry(map[], [])

  /** What holds of `usersInRooms` between events: every own key was created
      once, and the creation order lists exactly the own keys. */
  ghost predicate Valid(reg: Registry) {
    && (forall i, j :: 0 <= i < j < |reg.created| ==> reg.created[i] != reg.created[j])
    && (forall k :: k in reg.rooms <==> k in reg.created)
  }

  /** No own key of `usersInRooms` has the name of an Object.prototype
      property, so every such name still looks up the inherited value. */
  ghost predicate ShadowFree(reg: Registry) {
    forall k :: k in reg.rooms ==> !IsInherited(k)
  }

  /** The list a room has, or the empty list for a room never joined. */
  function RosterOf(reg: Registry, room: string): seq<Member> {
    if room in reg.rooms then reg.rooms[room] else []
  }

  /** The `joinRoom` handler: create the room's list when the lookup is falsy,
      then push `{ id, name }` and broadcast the room's list. A name inherited
      from Object.prototype looks up truthy without being an array, so no list
      is created and the push throws. */
  function Join(reg: Registry, roomName: string, id: string, name: string): (r: Result<Handled>)
    ensures r.TypeError? <==> roomName !in reg.rooms && IsInherited(roomName)
    ensures r.Ok? ==>
      var next := r.value.next;
      && next.rooms.Keys == reg.rooms.Keys + {roomName}
      && next.rooms[roomName] == RosterOf(reg, roomName) + [Member(id, name)]
      && (roomName !in reg.rooms ==> next.rooms[roomName] == [Member(id, name)])
      && (forall k :: k in reg.rooms && k != roomName ==> next.rooms[k] == reg.rooms[k])
      && next.created == (if roomName in reg.rooms then reg.created else reg.created + [roomName])
      && r.value.broadcast == Some(UpdateUserList(roomName, next.rooms[roomName]))
  {
    var looked := roomName in reg.rooms || IsInherited(roomName);
    var reg' := if looked then reg else Registry(reg.rooms[roomName := []], reg.created + [roomName]);
    if roomName !in reg'.rooms then TypeError
    else
      var roster := reg'.rooms[roomName] + [Member(id, name)];
      Ok(Handled(reg'.(rooms := reg'.rooms[roomName := roster]), Some(UpdateUserList(roomName, roster))))
  }

  lemma JoinPreservesValid(reg: Registry, roomName: string, id: string, name: string)
    requires Valid(reg) && Join(reg, roomName, id, name).Ok?
    ensures Valid(Join(reg, roomName, id, name).value.next)
  {
    var next := Join(reg, roomName, id, name).value.next;
    if roomName !in reg.rooms {
      assert next.created == reg.created + [roomName];
      forall i, j | 0 <= i < j < |next.created|
        ensures next.created[i] != next.created[j]
      {
        if j == |reg.created| {
          assert next.created[i] == reg.created[i];
        }
      }
    }
  }

  /** Join does not deduplicate: the room gains one more entry for `id` even
      when `id` is already listed there, and no other room loses its entries
      for `id`. */
  lemma JoinDoesNotDeduplicate(reg: Registry, roomName: string, id: string, name: string)
    requires Join(reg, roomName, id, name).Ok?
    ensures var next := Join(reg, roomName, id, name).value.next;
      && Occurrences(next.rooms[roomName], id) == Occurrences(RosterOf(reg, roomName), id) + 1
      && forall k :: k in reg.rooms ==> Occurrences(next.rooms[k], id) >= Occurrences(reg.rooms[k], id)
  {
    var next := Join(reg, roomName, id, name).value.next;
    OccurrencesPush(RosterOf(reg, roomName), Member(id, name), id);
  }

  /** Every key the `for...in` loop of the disconnect handler visits is an
      own key of the registry. */
  lemma ForInVisitsOnlyRooms(reg: Registry)
    requires Valid(reg)
    ensures forall i :: 0 <= i < |ForInOrder(reg.created)| ==> ForInOrder(reg.created)[i] in reg.rooms
  {
    var keys := ForInOrder(reg.created);
    forall i | 0 <= i < |keys|
      ensures keys[i] in reg.rooms
    {
      assert keys[i] in multiset(keys);
    }
  }

  /** Every own key of the registry is visited by that loop. */
  lemma ForInVisitsEveryRoom(reg: Registry)
    requires Valid(reg)
    ensures forall k :: k in reg.rooms ==> k in ForInOrder(reg.created)
  {
    var keys := ForInOrder(reg.created);
    forall k | k in reg.rooms
      ensures k in keys
    {
      assert k in multiset(reg.created);
    }
  }

  /** `usersInRooms[roomName].splice(i, 1)` followed by the broadcast of that
      room's list. */
  function SpliceOut(reg: Registry, roomName: string, i: nat): (h: Handled)
    requires roomName in reg.rooms && i < |reg.rooms[roomName]|
  {
    var roster := Splice(reg.rooms[roomName], i);
    Handled(reg.(rooms := reg.rooms[roomName := roster]), Some(UpdateUserList(roomName, roster)))
  }

  /** The `for...in` loop of the disconnect handler from the `k`-th visited
      key on: the first room from there whose list holds `id` loses the entry
      `findIndex` reports and is broadcast, and the loop stops there. */
  function DisconnectFrom(reg: Registry, keys: seq<string>, id: string, k: nat): (h: Handled)
    requires k <= |keys|
    requires forall i :: 0 <= i < |keys| ==> keys[i] in reg.rooms
    ensures h.next.created == reg.created && h.next.rooms.Keys == reg.rooms.Keys
    ensures h.broadcast.None? ==> h.next == reg
    decreases |keys| - k
  {
    if k == |keys| then Handled(reg, None)
    else
      var roomName := keys[k];
      var userIndex := FindIndex(reg.rooms[roomName], id);
      if userIndex != -1 then SpliceOut(reg, roomName, userIndex)
      else DisconnectFrom(reg, keys, id, k + 1)
  }

  /** The walk keeps every key, changes nothing when no room from the `k`-th
      on lists `id`, and otherwise broadcasts a room that listed it. */
  lemma {:induction false} DisconnectFromShape(reg: Registry, keys: seq<string>, id: string, k: nat)
    requires k <= |keys|
    requires forall i :: 0 <= i < |keys| ==> keys[i] in reg.rooms
    ensures var h := DisconnectFrom(reg, keys, id, k);
      && h.next.created == reg.created && h.next.rooms.Keys == reg.rooms.Keys
      && (h.broadcast.None? <==> forall j :: k <= j < |keys| ==> !Contains(reg.rooms[keys[j]], id))
      && (h.broadcast.None? ==> h.next == reg)
      && (h.broadcast.Some? ==>
            && h.broadcast.value.UpdateUserList?
            && h.broadcast.value.room in reg.rooms
            && Contains(reg.rooms[h.broadcast.value.room], id)
            && h == SpliceOut(reg, h.broadcast.value.room, FindIndex(reg.rooms[h.broadcast.value.room], id)))
    decreases |keys| - k
  {
    if k < |keys| && FindIndex(reg.rooms[keys[k]], id) == -1 {
      DisconnectFromShape(reg, keys, id, k + 1);
    }
  }

  /** The `disconnect` handler: visit the rooms in `for...in` order, and in the
      first one whose list holds the socket id splice out the first such entry,
      broadcast that room's list and stop. */
  function Disconnect(reg: Registry, id: string): (h: Handled)
    requires Valid(reg)
    ensures Valid(h.next)
    ensures h.next.created == reg.created && h.next.rooms.Keys == reg.rooms.Keys
    ensures h.broadcast.None? ==> h.next == reg
    ensures h.broadcast.Some? ==>
      && h.broadcast.value.UpdateUserList?
      && h.broadcast.value.room in reg.rooms
      && Contains(reg.rooms[h.broadcast.value.room], id)
  {
    ForInVisitsOnlyRooms(reg);
    DisconnectFromShape(reg, ForInOrder(reg.created), id, 0);
    DisconnectFrom(reg, ForInOrder(reg.created), id, 0)
  }

  /** The handler creates no key, so a registry with no key named like an
      Object.prototype property keeps that property. */
  lemma DisconnectKeepsShadowFree(reg: Registry, id: string)
    requires Valid(reg) && ShadowFree(reg)
    ensures ShadowFree(Disconnect(reg, id).next)
  {
    var next := Disconnect(reg, id).next;
    assert next.rooms.Keys == reg.rooms.Keys;
  }

  /** When the `p`-th key is the first from `k` on whose room lists `id`, the
      walk from `k` stops at it. */
  lemma {:induction false} DisconnectFromStopsAt(reg: Registry, keys: seq<string>, id: string, k: nat, p: nat)
    requires k <= p < |keys|
    requires forall i :: 0 <= i < |keys| ==> keys[i] in reg.rooms
    requires FindIndex(reg.rooms[keys[p]], id) != -1
    requires forall q :: k <= q < p ==> FindIndex(reg.rooms[keys[q]], id) == -1
    ensures DisconnectFrom(reg, keys, id, k) == SpliceOut(reg, keys[p], FindIndex(reg.rooms[keys[p]], id))
    decreases p - k
  {
    if k < p {
      DisconnectFromStopsAt(reg, keys, id, k + 1, p);
    }
  }

  /** The disconnect handler when the `p`-th room visited is the first one
      listing `id`: that room's list loses the entry `findIndex` reports and
      is broadcast. */
  lemma DisconnectAt(reg: Registry, id: string, p: nat)
    requires Valid(reg)
    requires p < |ForInOrder(reg.created)|
    requires var keys := ForInOrder(reg.created);
      && keys[p] in reg.rooms && Contains(reg.rooms[keys[p]], id)
      && forall q :: 0 <= q < p ==> keys[q] in reg.rooms && !Contains(reg.rooms[keys[q]], id)
    ensures var roomName := ForInOrder(reg.created)[p];
      var roster := Splice(reg.rooms[roomName], FindIndex(reg.rooms[roomName], id));
      Disconnect(reg, id) == Handled(reg.(rooms := reg.rooms[roomName := roster]), Some(UpdateUserList(roomName, roster)))
  {
    ForInVisitsOnlyRooms(reg);
    DisconnectFromStopsAt(reg, ForInOrder(reg.created), id, 0, p);
  }

  /** The handler broadcasts exactly when some room lists the socket id. */
  lemma DisconnectBroadcastsIffListed(reg: Registry, id: string)
    requires Valid(reg)
    ensures Disconnect(reg, id).broadcast.None? <==> forall k :: k in reg.rooms ==> !Contains(reg.rooms[k], id)
  {
    var keys := ForInOrder(reg.created);
    ForInVisitsOnlyRooms(reg);
    ForInVisitsEveryRoom(reg);
    DisconnectFromShape(reg, keys, id, 0);
  }

  /** The room the walk from the `k`-th key broadcasts is the first one from
      there whose list holds the socket id. */
  lemma {:induction false} DisconnectFromPicksFirst(reg: Registry, keys: seq<string>, id: string, k: nat)
    requires k <= |keys|
    requires forall i :: 0 <= i < |keys| ==> keys[i] in reg.rooms
    ensures var b := DisconnectFrom(reg, keys, id, k).broadcast;
      b.Some? ==>
        exists p :: k <= p < |keys| && keys[p] == b.value.room &&
          forall q :: k <= q < p ==> !Contains(reg.rooms[keys[q]], id)
    decreases |keys| - k
  {
    if k < |keys| {
      var b := DisconnectFrom(reg, keys, id, k).broadcast;
      if FindIndex(reg.rooms[keys[k]], id) == -1 {
        DisconnectFromPicksFirst(reg, keys, id, k + 1);
        if b.Some? {
          var p :| k + 1 <= p < |keys| && keys[p] == b.value.room &&
            forall q :: k + 1 <= q < p ==> !Contains(reg.rooms[keys[q]], id);
          assert forall q :: k <= q < p ==> !Contains(reg.rooms[keys[q]], id);
        }
      } else {
        assert keys[k] == b.value.room;
      }
    }
  }

  /** The room the handler broadcasts is the first room in `for...in` order
      whose list holds the socket id; every room visited before it does not
      list the id. */
  lemma DisconnectPicksFirstRoom(reg: Registry, id: string)
    requires Valid(reg)
    ensures var b := Disconnect(reg, id).broadcast;
      var keys := ForInOrder(reg.created);
      b.Some? ==>
        exists p :: 0 <= p < |keys| && keys[p] == b.value.room &&
          forall q :: 0 <= q < p ==> keys[q] in reg.rooms && !Contains(reg.rooms[keys[q]], id)
  {
    ForInVisitsOnlyRooms(reg);
    DisconnectFromPicksFirst(reg, ForInOrder(reg.created), id, 0);
  }

  /** In the room it picks, the handler removes only the first entry for the
      socket id, keeps the room even when it becomes empty, broadcasts that
      room's new list and leaves every other room as it was, even one that
      also lists the id. */
  lemma DisconnectRemovesFirstEntry(reg: Registry, id: string)
    requires Valid(reg)
    requires exists k :: k in reg.rooms && Contains(reg.rooms[k], id)
    ensures Disconnect(reg, id).broadcast.Some?
    ensures var roomName := Disconnect(reg, id).broadcast.value.room;
      var next := Disconnect(reg, id).next;
      && roomName in reg.rooms && roomName in next.rooms && Contains(reg.rooms[roomName], id)
      && |next.rooms[roomName]| == |reg.rooms[roomName]| - 1
      && next.rooms[roomName] == Splice(reg.rooms[roomName], FindIndex(reg.rooms[roomName], id))
      && (forall other :: Occurrences(next.rooms[roomName], other)
            == Occurrences(reg.rooms[roomName], other) - (if other == id then 1 else 0))
      && (forall k :: k in reg.rooms && k != roomName ==> next.rooms[k] == reg.rooms[k])
      && Disconnect(reg, id).broadcast.value == UpdateUserList(roomName, next.rooms[roomName])
  {
    DisconnectBroadcastsIffListed(reg, id);
    var keys := ForInOrder(reg.created);
    ForInVisitsOnlyRooms(reg);
    DisconnectFromShape(reg, keys, id, 0);
    var h := Disconnect(reg, id);
    assert h == DisconnectFrom(reg, keys, id, 0);
    RemoveFirst(reg.rooms[h.broadcast.value.room], id);
  }
}
