/** The member list of one room: the array `usersInRooms[roomName]` of
    `{ id, name }` records, and the two array operations the handlers apply
    to it, `findIndex` and `splice`. */
module Roster {

  /** One entry of a room's list: the socket id of the connection and the
      display name it gave when it joined. */
  datatype Member = Member(id: string, name: string)

  predicate Contains(roster: seq<Member>, id: string) {
    exists i :: 0 <= i < |roster| && roster[i].id == id
  }

  /** `roster.findIndex(user => user.id === id)`: the position of the first
      entry with that id, or -1 when there is none. */
  function FindIndex(roster: seq<Member>, id: string): (r: int)
    ensures -1 <= r < |roster|
    ensures r == -1 <==> !Contains(roster, id)
    ensures 0 <= r ==> roster[r].id == id && forall j :: 0 <= j < r ==> roster[j].id != id
  {
    if roster == [] then -1
    else if roster[0].id == id then 0
    else
      var r := FindIndex(roster[1..], id);
      if r == -1 then
        assert forall i :: 1 <= i < |roster| ==> roster[i] == roster[1..][i - 1];
        -1
      else r + 1
  }

  /** `roster.splice(start, 1)`: the list with the entry at `start` taken out. */
  function Splice(roster: seq<Member>, start: nat): (r: seq<Member>)
    requires start < |roster|
    ensures |r| == |roster| - 1
    ensures forall j :: 0 <= j < start ==> r[j] == roster[j]
    ensures forall j :: start <= j < |r| ==> r[j] == roster[j + 1]
  {
    assert roster == roster[..start] + [roster[start]] + roster[start + 1..];
    roster[..start] + roster[start + 1..]
  }

  /** How many entries of the list carry `id`. */
  function Occurrences(roster: seq<Member>, id: string): nat
  {
    if roster == [] then 0
    else (if roster[0].id == id then 1 else 0) + Occurrences(roster[1..], id)
  }

  lemma {:induction false} OccurrencesAppend(a: seq<Member>, b: seq<Member>, id: string)
    ensures Occurrences(a + b, id) == Occurrences(a, id) + Occurrences(b, id)
  {
    if a == [] {
      assert a + b == b;
    } else {
      assert (a + b)[1..] == a[1..] + b;
      OccurrencesAppend(a[1..], b, id);
    }
  }

  lemma {:induction false} OccurrencesCountContains(roster: seq<Member>, id: string)
    ensures Occurrences(roster, id) > 0 <==> Contains(roster, id)
  {
    if roster != [] {
      OccurrencesCountContains(roster[1..], id);
      if Contains(roster[1..], id) {
        var i :| 0 <= i < |roster[1..]| && roster[1..][i].id == id;
        assert roster[i + 1].id == id;
      }
      if Contains(roster, id) && roster[0].id != id {
        var i :| 0 <= i < |roster| && roster[i].id == id;
        assert roster[1..][i - 1].id == id;
      }
    }
  }

  /** Appending one member adds one entry for its id and none for any other. */
  lemma OccurrencesPush(roster: seq<Member>, m: Member, id: string)
    ensures Occurrences(roster + [m], id) == Occurrences(roster, id) + (if m.id == id then 1 else 0)
  {
    OccurrencesAppend(roster, [m], id);
    assert [m][1..] == [];
  }

  /** Taking out the entry at `i` removes one entry of its id and none of
      any other. */
  lemma OccurrencesSplice(roster: seq<Member>, i: nat, other: string)
    requires i < |roster|
    ensures Occurrences(Splice(roster, i), other)
              == Occurrences(roster, other) - (if roster[i].id == other then 1 else 0)
  {
    var front, back := roster[..i], roster[i + 1..];
    assert roster == front + [roster[i]] + back;
    assert Splice(roster, i) == front + back;
    OccurrencesAppend(front, back, other);
    OccurrencesAppend(front + [roster[i]], back, other);
    OccurrencesPush(front, roster[i], other);
  }

  /** What the disconnect handler does to the list of the room it picks:
      splice out the entry `findIndex` reports. Exactly one entry of `id` goes,
      the first, and the rest keep their relative order. */
  lemma RemoveFirst(roster: seq<Member>, id: string)
    requires Contains(roster, id)
    ensures var i := FindIndex(roster, id);
      && 0 <= i < |roster|
      && roster[i].id == id
      && (forall j :: 0 <= j < i ==> roster[j].id != id)
      && Splice(roster, i) == roster[..i] + roster[i + 1..]
    ensures forall other :: Occurrences(Splice(roster, FindIndex(roster, id)), other)
              == Occurrences(roster, other) - (if other == id then 1 else 0)
  {
    var i := FindIndex(roster, id);
    forall other
      ensures Occurrences(Splice(roster, i), other) == Occurrences(roster, other) - (if other == id then 1 else 0)
    {
      OccurrencesSplice(roster, i, other);
    }
  }
}
