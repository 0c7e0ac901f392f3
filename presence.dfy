/**
 * Live presence rooms of the collaboration server.
 *
 * Two process-wide maps hold the state: `rooms`, from a note id to the list
 * of usernames viewing it, and `users`, from a socket id to the username
 * bound on its first "OpenNote". Every connected socket also has its set of
 * joined room keys (the socket library's `socket.rooms`), kept here as an
 * insertion-ordered sequence without duplicates in `joined`; a new socket
 * starts in the room named by its own id. Note ids and socket ids share one
 * namespace of room keys.
 *
 * Handlers run to completion one at a time. Each returns the events it
 * emits, in order, each with the room it targets, the sockets that receive
 * it and its payload.
 */
module Presence {
  import opened Wrappers
  import opened Wire

  type SocketId = string
  type RoomKey = string
  type Username = string

  datatype Payload =
    | Online(usernames: seq<Username>)
    | ContentChange(note: NotePayload)

  datatype Emit = Emit(room: RoomKey, recipients: set<SocketId>, payload: Payload)

  predicate NoDuplicates<T(==)>(s: seq<T>)
  {
    forall i, j :: 0 <= i < j < |s| ==> s[i] != s[j]
  }

  /** `list.filter(user => user !== username)`. An unbound username
      (`undefined`, here `None`) equals no entry. */
  function Without(list: seq<Username>, u: Option<Username>): seq<Username>
  {
    if list == [] then []
    else
      var last := list[|list| - 1];
      Without(list[..|list| - 1], u) + if Some(last) != u then [last] else []
  }

  /** The filter removes every occurrence of the username and nothing else,
      and never lengthens the list. */
  lemma {:induction false} WithoutFacts(list: seq<Username>, u: Option<Username>)
    ensures forall x :: x in Without(list, u) <==> x in list && Some(x) != u
    ensures |Without(list, u)| <= |list|
    ensures u.None? ==> Without(list, u) == list
  {
    if list != [] {
      var init := list[..|list| - 1];
      WithoutFacts(init, u);
      assert list == init + [list[|list| - 1]];
    }
  }

  /** The filter never introduces a duplicate. */
  lemma {:induction false} WithoutNoDuplicates(list: seq<Username>, u: Option<Username>)
    requires NoDuplicates(list)
    ensures NoDuplicates(Without(list, u))
  {
    if list != [] {
      var init := list[..|list| - 1];
      var last := list[|list| - 1];
      WithoutNoDuplicates(init, u);
      WithoutFacts(init, u);
      assert last !in init;
    }
  }

  /** Filtering distributes over concatenation, so the kept usernames stay
      in their original order. */
  lemma {:induction false} WithoutConcat(a: seq<Username>, b: seq<Username>, u: Option<Username>)
    ensures Without(a + b, u) == Without(a, u) + Without(b, u)
    decreases |b|
  {
    if b == [] {
      assert a + b == a;
    } else {
      assert (a + b)[..|a + b| - 1] == a + b[..|b| - 1];
      WithoutConcat(a, b[..|b| - 1], u);
    }
  }

  /** The keys of `keys` that are not in `present`, in order (what is left of
      `socket.rooms` after leaving every listed room that `rooms` has). */
  function KeepAbsent(keys: seq<RoomKey>, present: set<RoomKey>): seq<RoomKey>
  {
    if keys == [] then []
    else
      var last := keys[|keys| - 1];
      KeepAbsent(keys[..|keys| - 1], present) + if last !in present then [last] else []
  }

  /** `KeepAbsent` keeps exactly the keys outside `present` and never
      introduces a duplicate. */
  lemma {:induction false} KeepAbsentFacts(keys: seq<RoomKey>, present: set<RoomKey>)
    ensures forall k :: k in KeepAbsent(keys, present) <==> k in keys && k !in present
    ensures NoDuplicates(keys) ==> NoDuplicates(KeepAbsent(keys, present))
  {
    if keys != [] {
      var init := keys[..|keys| - 1];
      KeepAbsentFacts(init, present);
      assert keys == init + [keys[|keys| - 1]];
    }
  }

  /** `socket.leave(room)` on the joined sequence: every occurrence of the key
      goes, the rest keep their order. */
  function Drop(keys: seq<RoomKey>, room: RoomKey): seq<RoomKey>
  {
    if keys == [] then []
    else (if keys[0] != room then [keys[0]] else []) + Drop(keys[1..], room)
  }

  lemma {:induction false} DropConcat(a: seq<RoomKey>, b: seq<RoomKey>, room: RoomKey)
    ensures Drop(a + b, room) == Drop(a, room) + Drop(b, room)
  {
    if a == [] {
      assert a + b == b;
    } else {
      assert (a + b)[1..] == a[1..] + b;
      DropConcat(a[1..], b, room);
    }
  }

  lemma {:induction false} DropAbsent(a: seq<RoomKey>, room: RoomKey)
    requires room !in a
    ensures Drop(a, room) == a
  {
    if a != [] {
      DropAbsent(a[1..], room);
    }
  }

  /** The sockets `io.in(room)` reaches: every socket that has joined `room`. */
  function Members(joined: map<SocketId, seq<RoomKey>>, room: RoomKey): set<SocketId>
  {
    set t | t in joined && room in joined[t]
  }

  /** The join step of "OpenNote" (server.js lines 76-84): an existing room
      gets the username appended when it is absent, a missing room is created
      holding only the username. */
  function JoinRoom(rooms: map<RoomKey, seq<Username>>, noteId: RoomKey, username: Username)
    : (r: map<RoomKey, seq<Username>>)
    ensures r.Keys == rooms.Keys + {noteId}
    ensures forall k :: k in rooms && k != noteId ==> r[k] == rooms[k]
    ensures forall x :: x in r[noteId] <==> x == username || (noteId in rooms && x in rooms[noteId])
    ensures noteId in rooms ==> rooms[noteId] <= r[noteId]
    ensures noteId in rooms && NoDuplicates(rooms[noteId]) ==> NoDuplicates(r[noteId])
    ensures noteId !in rooms ==> r[noteId] == [username]
  {
    if noteId in rooms then
      if username in rooms[noteId] then rooms
      else rooms[noteId := rooms[noteId] + [username]]
    else rooms[noteId := [username]]
  }

  /** The effect of `disconnectUser` on `rooms`, key by key in order: a key
      that `rooms` has gets the username filtered out of its list; keys are
      never removed. */
  function LeaveRooms(rooms: map<RoomKey, seq<Username>>, keys: seq<RoomKey>, u: Option<Username>)
    : map<RoomKey, seq<Username>>
  {
    if keys == [] then rooms
    else
      var r := LeaveRooms(rooms, keys[..|keys| - 1], u);
      var k := keys[|keys| - 1];
      if k in r then r[k := Without(r[k], u)] else r
  }

  /** Filtering a username out twice is filtering it out once. */
  lemma {:induction false} WithoutIdempotent(list: seq<Username>, u: Option<Username>)
    ensures Without(Without(list, u), u) == Without(list, u)
  {
    if list != [] {
      var init := list[..|list| - 1];
      var last := list[|list| - 1];
      WithoutIdempotent(init, u);
      var kept := if Some(last) != u then [last] else [];
      WithoutConcat(Without(init, u), kept, u);
      assert Without(kept, u) == kept by {
        if kept != [] {
          assert kept[..0] == [];
        }
      }
    }
  }

  /** Leaving the listed rooms one after the other keeps the keys of `rooms`,
      and leaves every room listed in `keys` with the username filtered out of
      its original list and every other room as it was, whatever the order
      and repetitions of `keys`. */
  lemma {:induction false} LeaveRoomsFilters(rooms: map<RoomKey, seq<Username>>, keys: seq<RoomKey>, u: Option<Username>)
    ensures LeaveRooms(rooms, keys, u).Keys == rooms.Keys
    ensures forall k :: k in rooms ==>
              LeaveRooms(rooms, keys, u)[k] == if k in keys then Without(rooms[k], u) else rooms[k]
  {
    if keys != [] {
      var init := keys[..|keys| - 1];
      var last := keys[|keys| - 1];
      LeaveRoomsFilters(rooms, init, u);
      assert keys == init + [last];
      if last in rooms {
        if last in init {
          WithoutIdempotent(rooms[last], u);
        }
      }
    }
  }

  /** Filtering usernames out of some rooms keeps every room free of
      duplicates. */
  lemma LeaveRoomsNoDuplicates(rooms: map<RoomKey, seq<Username>>, keys: seq<RoomKey>, u: Option<Username>)
    requires forall k :: k in rooms ==> NoDuplicates(rooms[k])
    ensures forall k :: k in LeaveRooms(rooms, keys, u) ==> NoDuplicates(LeaveRooms(rooms, keys, u)[k])
  {
    LeaveRoomsFilters(rooms, keys, u);
    forall k | k in rooms {
      WithoutNoDuplicates(rooms[k], u);
    }
  }

  /** A socket leaving its rooms keeps every room list and every joined
      sequence free of duplicates. */
  lemma LeaveKeepsNoDuplicates(rooms: map<RoomKey, seq<Username>>, joined: map<SocketId, seq<RoomKey>>,
                               s: SocketId, u: Option<Username>)
    requires s in joined
    requires forall k :: k in rooms ==> NoDuplicates(rooms[k])
    requires forall t :: t in joined ==> NoDuplicates(joined[t])
    ensures var rooms' := LeaveRooms(rooms, joined[s], u);
            forall k :: k in rooms' ==> NoDuplicates(rooms'[k])
    ensures var joined' := joined[s := KeepAbsent(joined[s], rooms.Keys)];
            forall t :: t in joined' ==> NoDuplicates(joined'[t])
  {
    LeaveRoomsNoDuplicates(rooms, joined[s], u);
    KeepAbsentFacts(joined[s], rooms.Keys);
  }

  /** The "Online" events `disconnectUser` emits while walking `keys` in
      order: one per key that `rooms` has, to that room's members as they
      stand before the leaving socket leaves it, carrying the filtered list. */
  function LeaveEvents(keys: seq<RoomKey>, rooms: map<RoomKey, seq<Username>>,
                       joined: map<SocketId, seq<RoomKey>>, u: Option<Username>): seq<Emit>
  {
    if keys == [] then []
    else
      var k := keys[|keys| - 1];
      LeaveEvents(keys[..|keys| - 1], rooms, joined, u)
        + (if k in rooms then [Emit(k, Members(joined, k), Online(Without(rooms[k], u)))] else [])
  }

  /** Every event of a leave targets a room of `rooms` and carries that room's
      list with the username filtered out, and the leaving socket is among its
      recipients, so it still sees the update. Conversely every listed key
      that `rooms` has gets an event. */
  lemma {:induction false} LeaveEventsReachLeaver(
    keys: seq<RoomKey>, rooms: map<RoomKey, seq<Username>>,
    joined: map<SocketId, seq<RoomKey>>, u: Option<Username>, s: SocketId)
    requires s in joined
    requires forall k :: k in keys ==> k in joined[s]
    ensures |LeaveEvents(keys, rooms, joined, u)| <= |keys|
    ensures forall e :: e in LeaveEvents(keys, rooms, joined, u) ==>
              && e.room in keys && e.room in rooms
              && s in e.recipients
              && e.payload == Online(Without(rooms[e.room], u))
    ensures forall k :: k in keys && k in rooms ==>
              exists e :: e in LeaveEvents(keys, rooms, joined, u) && e.room == k
  {
    if keys != [] {
      var init, last := keys[..|keys| - 1], keys[|keys| - 1];
      LeaveEventsReachLeaver(init, rooms, joined, u, s);
      var before := LeaveEvents(init, rooms, joined, u);
      var events := LeaveEvents(keys, rooms, joined, u);
      assert keys == init + [last];
      forall k | k in keys && k in rooms
        ensures exists e :: e in events && e.room == k
      {
        if k == last {
          assert events[|events| - 1].room == k;
        } else {
          var e :| e in before && e.room == k;
          assert e in events;
        }
      }
    }
  }

  /** No two events target the same room. */
  predicate DistinctRooms(events: seq<Emit>)
  {
    forall i, j :: 0 <= i < j < |events| ==> events[i].room != events[j].room
  }

  /** When the socket is in each room once, no two events of its leave target
      the same room: together with the lemma above, each listed room that
      `rooms` has gets exactly one event. */
  lemma {:induction false} LeaveEventsOnePerRoom(
    keys: seq<RoomKey>, rooms: map<RoomKey, seq<Username>>,
    joined: map<SocketId, seq<RoomKey>>, u: Option<Username>)
    requires NoDuplicates(keys)
    ensures forall e :: e in LeaveEvents(keys, rooms, joined, u) ==> e.room in keys
    ensures DistinctRooms(LeaveEvents(keys, rooms, joined, u))
  {
    if keys != [] {
      var init, last := keys[..|keys| - 1], keys[|keys| - 1];
      assert NoDuplicates(init);
      LeaveEventsOnePerRoom(init, rooms, joined, u);
      var before := LeaveEvents(init, rooms, joined, u);
      var events := LeaveEvents(keys, rooms, joined, u);
      assert last !in init by {
        assert forall i :: 0 <= i < |init| ==> init[i] == keys[i];
      }
      assert keys == init + [last];
      forall i, j | 0 <= i < j < |events|
        ensures events[i].room != events[j].room
      {
        assert DistinctRooms(before);
        if j < |before| {
          assert events[i] == before[i] && events[j] == before[j];
        } else {
          assert last in rooms && events == before + [events[j]] && events[j].room == last;
          assert events[i] == before[i];
          assert before[i] in before && before[i].room in init;
          assert events[i].room != last;
        }
      }
    }
  }

  /** `rooms` after an "OpenNote" that switches a socket joined to `keys`
      over to `noteId`: the join, then the leave of every joined room. */
  function OpenedRooms(rooms: map<RoomKey, seq<Username>>, keys: seq<RoomKey>,
                       noteId: RoomKey, username: Username): map<RoomKey, seq<Username>>
  {
    LeaveRooms(JoinRoom(rooms, noteId, username), keys, Some(username))
  }

  /** The socket's joined sequence after that switch: the keys `rooms` does
      not have, still joined, then `noteId`. */
  function OpenedJoined(rooms: map<RoomKey, seq<Username>>, keys: seq<RoomKey>,
                        noteId: RoomKey, username: Username): seq<RoomKey>
  {
    KeepAbsent(keys, JoinRoom(rooms, noteId, username).Keys) + [noteId]
  }

  /** After an "OpenNote" that switches rooms, no room key has gone, the room
      opened lists the username, and among the keys of `rooms` the socket is
      in exactly that room, so it receives the final "Online" event. */
  lemma OpenNoteOutcome(rooms: map<RoomKey, seq<Username>>, joined: map<SocketId, seq<RoomKey>>,
                        s: SocketId, noteId: RoomKey, username: Username)
    requires s in joined && noteId !in joined[s]
    ensures var rooms' := OpenedRooms(rooms, joined[s], noteId, username);
            var joined' := joined[s := OpenedJoined(rooms, joined[s], noteId, username)];
            && rooms'.Keys == rooms.Keys + {noteId}
            && username in rooms'[noteId]
            && (forall k :: k in rooms' ==> (k in joined'[s] <==> k == noteId))
            && s in Members(joined', noteId)
  {
    var keys := joined[s];
    var afterJoin := JoinRoom(rooms, noteId, username);
    LeaveRoomsFilters(afterJoin, keys, Some(username));
    KeepAbsentFacts(keys, afterJoin.Keys);
  }

  /** An "OpenNote" that switches rooms keeps room lists and joined
      sequences free of duplicates. */
  lemma OpenNoteKeepsNoDuplicates(rooms: map<RoomKey, seq<Username>>, joined: map<SocketId, seq<RoomKey>>,
                                  s: SocketId, noteId: RoomKey, username: Username)
    requires s in joined && noteId !in joined[s]
    requires forall k :: k in rooms ==> NoDuplicates(rooms[k])
    requires forall t :: t in joined ==> NoDuplicates(joined[t])
    ensures var rooms' := OpenedRooms(rooms, joined[s], noteId, username);
            forall k :: k in rooms' ==> NoDuplicates(rooms'[k])
    ensures NoDuplicates(OpenedJoined(rooms, joined[s], noteId, username))
  {
    var keys := joined[s];
    var afterJoin := JoinRoom(rooms, noteId, username);
    assert forall k :: k in afterJoin ==> NoDuplicates(afterJoin[k]);
    LeaveRoomsNoDuplicates(afterJoin, keys, Some(username));
    KeepAbsentFacts(keys, afterJoin.Keys);
    var kept := KeepAbsent(keys, afterJoin.Keys);
    assert NoDuplicates(kept) && noteId !in kept;
  }

  /** One step of the leave loop on `rooms`: visiting `keys[i]` filters that
      room, which no earlier step touched. */
  lemma LeaveRoomsStep(keys: seq<RoomKey>, i: nat, rooms: map<RoomKey, seq<Username>>, u: Option<Username>)
    requires NoDuplicates(keys) && i < |keys|
    ensures var room := keys[i];
            var r := LeaveRooms(rooms, keys[..i], u);
            && r.Keys == rooms.Keys
            && (room in rooms ==> r[room] == rooms[room])
            && LeaveRooms(rooms, keys[..i + 1], u) == if room in r then r[room := Without(r[room], u)] else r
  {
    LeaveRoomsFilters(rooms, keys[..i], u);
    UniqueAt(keys, i);
    assert keys[..i + 1][..i] == keys[..i];
  }

  /** A key of a sequence without duplicates occurs neither before nor after
      its own position. */
  lemma UniqueAt(keys: seq<RoomKey>, i: nat)
    requires NoDuplicates(keys) && i < |keys|
    ensures keys[i] !in keys[..i] && keys[i] !in keys[i + 1..]
    ensures keys[..i + 1] == keys[..i] + [keys[i]]
    ensures keys[i..] == [keys[i]] + keys[i + 1..]
  {
  }

  /** One step of the leave loop on the joined sequence, for a key that
      `rooms` has: the socket leaves it. `visited` and `rest` are the keys
      before and after it. */
  lemma LeaveJoinedStep(visited: seq<RoomKey>, room: RoomKey, rest: seq<RoomKey>, present: set<RoomKey>)
    requires room in present && room !in visited && room !in rest
    ensures Drop(KeepAbsent(visited, present) + ([room] + rest), room)
            == KeepAbsent(visited + [room], present) + rest
  {
    var kept := KeepAbsent(visited, present);
    KeepAbsentFacts(visited, present);
    assert (visited + [room])[..|visited|] == visited;
    DropConcat(kept, [room] + rest, room);
    DropAbsent(kept, room);
    DropConcat([room], rest, room);
    DropAbsent(rest, room);
  }

  /** One step of the leave loop on the joined sequence, for a key that
      `rooms` lacks: the socket stays in it. */
  lemma KeepJoinedStep(visited: seq<RoomKey>, room: RoomKey, rest: seq<RoomKey>, present: set<RoomKey>)
    requires room !in present
    ensures KeepAbsent(visited, present) + ([room] + rest)
            == KeepAbsent(visited + [room], present) + rest
  {
    assert (visited + [room])[..|visited|] == visited;
  }

  /** While the leaving socket is still in `room`, changing only its own
      joined sequence does not change who `io.in(room)` reaches. */
  lemma MembersOfJoinedRoom(joined: map<SocketId, seq<RoomKey>>, joined': map<SocketId, seq<RoomKey>>,
                            s: SocketId, room: RoomKey)
    requires s in joined && joined'.Keys == joined.Keys
    requires forall t :: t in joined && t != s ==> joined'[t] == joined[t]
    requires room in joined[s] && room in joined'[s]
    ensures Members(joined', room) == Members(joined, room)
  {
  }

  /** One step of the leave loop on the joined sequence `cur`: the socket
      leaves `keys[i]` exactly when `rooms` has it. */
  lemma JoinedStep(keys: seq<RoomKey>, i: nat, present: set<RoomKey>, cur: seq<RoomKey>)
    requires NoDuplicates(keys) && i < |keys|
    requires cur == KeepAbsent(keys[..i], present) + keys[i..]
    ensures keys[i] in present ==> Drop(cur, keys[i]) == KeepAbsent(keys[..i + 1], present) + keys[i + 1..]
    ensures keys[i] !in present ==> cur == KeepAbsent(keys[..i + 1], present) + keys[i + 1..]
    ensures keys[i] in cur
  {
    UniqueAt(keys, i);
    if keys[i] in present {
      LeaveJoinedStep(keys[..i], keys[i], keys[i + 1..], present);
    } else {
      KeepJoinedStep(keys[..i], keys[i], keys[i + 1..], present);
    }
  }

  /** One step of the leave loop on the emitted events: visiting `keys[i]`
      adds its event, if any, at the end. */
  lemma EventsStep(keys: seq<RoomKey>, i: nat, rooms: map<RoomKey, seq<Username>>,
                   joined: map<SocketId, seq<RoomKey>>, u: Option<Username>)
    requires i < |keys|
    ensures var k := keys[i];
            LeaveEvents(keys[..i + 1], rooms, joined, u)
            == LeaveEvents(keys[..i], rooms, joined, u)
               + (if k in rooms then [Emit(k, Members(joined, k), Online(Without(rooms[k], u)))] else [])
  {
    assert keys[..i + 1][..i] == keys[..i];
  }

  /** Overwriting one entry of a map that already differs from `m0` only at
      that entry. */
  lemma UpdateTwice<K, V>(m: map<K, V>, m0: map<K, V>, key: K, a: V, b: V)
    requires m == m0[key := a]
    ensures m[key := b] == m0[key := b]
  {
  }

  class PresenceServer {
    var rooms: map<RoomKey, seq<Username>>
    var users: map<SocketId, Username>
    var joined: map<SocketId, seq<RoomKey>>

    /** No room lists a username twice, and no socket joins a room twice. */
    ghost predicate Valid()
      reads this
    {
      && (forall k :: k in rooms ==> NoDuplicates(rooms[k]))
      && (forall t :: t in joined ==> NoDuplicates(joined[t]))
    }

    constructor ()
      ensures Valid()
      ensures rooms == map[] && users == map[] && joined == map[]
    {
      rooms, users, joined := map[], map[], map[];
    }

    /** `users.get(socket.id)`. */
    function Lookup(s: SocketId): (u: Option<Username>)
      reads this
      ensures u.Some? <==> s in users
      ensures u.Some? ==> u.value == users[s]
    {
      if s in users then Some(users[s]) else None
    }

    /** A new connection: the socket library puts the socket in the room
        named by its own id. */
    method Connect(s: SocketId)
      requires Valid() && s !in joined
      modifies this
      ensures Valid()
      ensures joined == old(joined)[s := [s]]
      ensures rooms == old(rooms) && users == old(users)
    {
      joined := joined[s := [s]];
    }

    /** One visit of the leave loop, for a joined key that `rooms` has
        (server.js lines 59-63): filter the list, emit to the room's members
        as they stand, then leave the room. */
    method LeaveRoom(s: SocketId, room: RoomKey, u: Option<Username>) returns (e: Emit)
      requires room in rooms && s in joined
      modifies this
      ensures rooms == old(rooms)[room := Without(old(rooms)[room], u)]
      ensures joined == old(joined)[s := Drop(old(joined)[s], room)]
      ensures users == old(users)
      ensures e == Emit(room, Members(old(joined), room), Online(Without(old(rooms)[room], u)))
    {
      var remainingInRoom := Without(rooms[room], u);
      rooms := rooms[room := remainingInRoom];
      e := Emit(room, Members(joined, room), Online(remainingInRoom));
      joined := joined[s := Drop(joined[s], room)];
    }

    /** `disconnectUser(socket, username)` (server.js lines 56-66): for every
        joined key that `rooms` has, in order, filter the username out of the
        list, keep the key, emit "Online" with the remaining list to the room,
        and only then leave it. */
    method DisconnectUser(s: SocketId, u: Option<Username>) returns (events: seq<Emit>)
      requires Valid() && s in joined
      modifies this
      ensures Valid()
      ensures rooms == LeaveRooms(old(rooms), old(joined[s]), u)
      ensures rooms.Keys == old(rooms).Keys
      ensures joined == old(joined)[s := KeepAbsent(old(joined[s]), old(rooms).Keys)]
      ensures users == old(users)
      ensures events == LeaveEvents(old(joined[s]), old(rooms), old(joined), u)
    {
      var keys := joined[s];
      ghost var rooms0, joined0 := rooms, joined;
      ghost var present := rooms0.Keys;
      assert NoDuplicates(keys);
      var i := 0;
      events := [];
      // `cur` is the leaving socket's joined sequence as the loop goes
      ghost var cur := keys;
      assert keys[..0] == [] && keys[0..] == keys;
      assert KeepAbsent(keys[..0], present) + keys[0..] == keys;
      while i < |keys|
        invariant 0 <= i <= |keys|
        invariant rooms == LeaveRooms(rooms0, keys[..i], u)
        invariant joined == joined0[s := cur]
        invariant cur == KeepAbsent(keys[..i], present) + keys[i..]
        invariant users == old(users)
        invariant events == LeaveEvents(keys[..i], rooms0, joined0, u)
      {
        var room := keys[i];
        LeaveRoomsStep(keys, i, rooms0, u);
        JoinedStep(keys, i, present, cur);
        EventsStep(keys, i, rooms0, joined0, u);
        if room in rooms {
          MembersOfJoinedRoom(joined0, joined, s, room);
          UpdateTwice(joined, joined0, s, cur, Drop(cur, room));
          var e := LeaveRoom(s, room, u);
          events := events + [e];
          cur := Drop(cur, room);
        }
        i := i + 1;
      }
      assert keys[..i] == keys && keys[i..] == [];
      assert cur == KeepAbsent(keys, present);
      LeaveRoomsFilters(rooms0, keys, u);
      LeaveKeepsNoDuplicates(rooms0, joined0, s, u);
    }

    /** The join step of "OpenNote" (server.js lines 76-84), in place. */
    method Join(noteId: RoomKey, username: Username)
      requires Valid()
      modifies this
      ensures Valid()
      ensures rooms == JoinRoom(old(rooms), noteId, username)
      ensures users == old(users) && joined == old(joined)
    {
      if noteId in rooms {
        var inRoom := rooms[noteId];
        if username !in inRoom {
          inRoom := inRoom + [username];
          rooms := rooms[noteId := inRoom];
        }
      } else {
        rooms := rooms[noteId := [username]];
      }
    }

    /** The "OpenNote" handler (server.js lines 70-91). */
    method OpenNote(s: SocketId, noteId: RoomKey, username: Username) returns (events: seq<Emit>)
      requires Valid() && s in joined
      modifies this
      ensures Valid()
      // the username is bound once and never overwritten
      ensures users == if s in old(users) then old(users) else old(users)[s := username]
      // re-opening a joined room changes no room, joins nothing and emits nothing
      ensures noteId in old(joined[s]) ==> rooms == old(rooms) && joined == old(joined) && events == []
      // otherwise: join, leave every joined room, join `noteId`, announce
      ensures noteId !in old(joined[s]) ==>
        && rooms == OpenedRooms(old(rooms), old(joined[s]), noteId, username)
        && joined == old(joined)[s := OpenedJoined(old(rooms), old(joined[s]), noteId, username)]
        && noteId in rooms
        && events == LeaveEvents(old(joined[s]), JoinRoom(old(rooms), noteId, username), old(joined), Some(username))
                     + [Emit(noteId, Members(joined, noteId), Online(rooms[noteId]))]
    {
      if s !in users {
        users := users[s := username];
      }
      if noteId in joined[s] {
        return [];
      }
      ghost var rooms0, joined0 := rooms, joined;
      OpenNoteOutcome(rooms0, joined0, s, noteId, username);
      OpenNoteKeepsNoDuplicates(rooms0, joined0, s, noteId, username);
      Join(noteId, username);
      events := DisconnectUser(s, Some(username));
      joined := joined[s := joined[s] + [noteId]];
      events := events + [Emit(noteId, Members(joined, noteId), Online(rooms[noteId]))];
    }

    /** The "ContentChange" handler (server.js lines 93-95): the note object
        goes, unchanged, to every other socket in the room `note.id`; no map
        changes. */
    method RelayContent(s: SocketId, note: NotePayload) returns (events: seq<Emit>)
      ensures |events| == 1 && events[0].room == note.id
      ensures events[0].payload == ContentChange(note)
      ensures forall t :: t in events[0].recipients <==> t in joined && note.id in joined[t] && t != s
    {
      events := [Emit(note.id, Members(joined, note.id) - {s}, ContentChange(note))];
    }

    /** The "disconnect" handler (server.js lines 97-99) followed by the
        socket library's teardown, after which the socket is gone. */
    method Disconnect(s: SocketId) returns (events: seq<Emit>)
      requires Valid() && s in joined
      modifies this
      ensures Valid()
      ensures rooms == LeaveRooms(old(rooms), old(joined[s]), old(Lookup(s)))
      ensures users == old(users)
      ensures joined == old(joined) - {s}
      ensures events == LeaveEvents(old(joined[s]), old(rooms), old(joined), old(Lookup(s)))
    {
      events := DisconnectUser(s, Lookup(s));
      joined := joined - {s};
    }

    /** The "logout" handler (server.js lines 101-103): the same leave as on
        disconnect, and the socket stays connected. */
    method Logout(s: SocketId) returns (events: seq<Emit>)
      requires Valid() && s in joined
      modifies this
      ensures Valid()
      ensures rooms == LeaveRooms(old(rooms), old(joined[s]), old(Lookup(s)))
      ensures users == old(users)
      ensures joined == old(joined)[s := KeepAbsent(old(joined[s]), old(rooms).Keys)]
      ensures events == LeaveEvents(old(joined[s]), old(rooms), old(joined), old(Lookup(s)))
    {
      events := DisconnectUser(s, Lookup(s));
    }
  }
}
