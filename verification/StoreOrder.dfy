/** In which order rooms and messages load, read off the snapshot and the stored rows. */
module StoreOrder {
  import opened ChatTypes
  import opened Text
  import opened Sorting
  import opened StoreSpec
  import opened StoreRoundTrip

  // ---- the listed order of a full save ----

  /** The list names the room at place `i` for the first time, surrounding space ignored. */
  ghost predicate ListedAt(rooms: seq<string>, name: string, i: int) {
    0 <= i < |rooms| && TrimSpace(rooms[i]) == name && forall j | 0 <= j < i :: TrimSpace(rooms[j]) != name
  }

  ghost predicate Listed(rooms: seq<string>, name: string) {
    exists i :: 0 <= i < |rooms| && TrimSpace(rooms[i]) == name
  }

  lemma {:induction false} FirstPlace(rooms: seq<string>, name: string)
    ensures Listed(rooms, name) <==> exists i :: ListedAt(rooms, name, i)
    decreases |rooms|
  {
    hide TrimSpace;
    if i :| 0 <= i < |rooms| && TrimSpace(rooms[i]) == name {
      if !ListedAt(rooms, name, i) {
        FirstPlace(rooms[..i], name);
        var j :| ListedAt(rooms[..i], name, j);
        assert ListedAt(rooms, name, j);
      }
    }
  }

  lemma {:induction false} PlaceOfMore(rooms: seq<string>, last: string, name: string, i: int)
    ensures ListedAt(rooms + [last], name, i)
       <==> ListedAt(rooms, name, i) || (i == |rooms| && TrimSpace(last) == name && !Listed(rooms, name))
  {
    hide TrimSpace;
    var more := rooms + [last];
    assert forall j | 0 <= j < |rooms| :: more[j] == rooms[j];
    assert more[|rooms|] == last;
  }

  /** The names of a list are the trimmed non-blank ones, once each, by the place where they are first. */
  lemma {:induction false} NamesByPlace(rooms: seq<string>)
    ensures var names := RoomNames(rooms);
      && Distinct(names)
      && (forall name :: name in names <==> name != "" && Listed(rooms, name))
      && (forall p, q, i, j | 0 <= p < |names| && 0 <= q < |names| && ListedAt(rooms, names[p], i)
            && ListedAt(rooms, names[q], j) :: p < q <==> i < j)
  {
    hide TrimSpace, Listed, ListedAt;
    if rooms == [] {
      assert forall name :: !Listed(rooms, name) by { hide *; ListedNowhere(); }
    } else {
      var rest, last := rooms[..|rooms| - 1], rooms[|rooms| - 1];
      assert rooms == rest + [last];
      NamesByPlace(rest);
      var before, names, name := RoomNames(rest), RoomNames(rooms), TrimSpace(last);
      forall other ensures Listed(rooms, other) <==> Listed(rest, other) || other == name {
        ListedMore(rest, last, other);
      }
      if name != "" && name !in before { AppendDistinct(before, name); }
      forall p, q, i, j | 0 <= p < |names| && 0 <= q < |names| && ListedAt(rooms, names[p], i)
          && ListedAt(rooms, names[q], j)
        ensures p < q <==> i < j
      {
        PlaceOfMore(rest, last, names[p], i);
        PlaceOfMore(rest, last, names[q], j);
        PlaceWithin(rest, names[p], i);
        PlaceWithin(rest, names[q], j);
        assert names[p] in names && names[q] in names;
      }
    }
  }

  lemma ListedNowhere()
    ensures forall name :: !Listed([], name)
  {
  }

  lemma ListedMore(rooms: seq<string>, last: string, name: string)
    ensures Listed(rooms + [last], name) <==> Listed(rooms, name) || name == TrimSpace(last)
  {
    hide TrimSpace;
    var more := rooms + [last];
    assert forall j | 0 <= j < |rooms| :: more[j] == rooms[j];
    assert more[|rooms|] == last;
  }

  lemma PlaceWithin(rooms: seq<string>, name: string, i: int)
    ensures ListedAt(rooms, name, i) ==> 0 <= i < |rooms| && Listed(rooms, name)
  {
  }

  /** LISTED ORDER. After a full save, a room that is listed loads before another if and only if the
      other is not listed or is first listed later; a room that is not listed loads after all that are. */
  lemma {:induction false} LoadsAsListed(s: Snapshot, env: SaveEnv, names: seq<string>, t: Tables, p: nat, q: nat)
    requires Consistent(t) && RoomsLoaded(s, env, names, Loaded(t))
    requires p < |Loaded(t).rooms| && q < |Loaded(t).rooms|
    ensures var a, b := Loaded(t).rooms[p], Loaded(t).rooms[q];
      && (Listed(s.rooms, a) && !Listed(s.rooms, b) ==> p < q)
      && (forall i, j | ListedAt(s.rooms, a, i) && ListedAt(s.rooms, b, j) :: p < q <==> i < j)
  {
    hide TrimSpace, Listed, ListedAt, RoomNames, RoomIdOf, Loaded, AllRooms, RoomDirectoryLoaded;
    NamesByPlace(s.rooms);
    var listed := RoomNames(s.rooms);
    forall k | 0 <= k < |names| ensures k < |listed| <==> names[k] in listed {
      if k < |listed| { assert names[k] == listed[k]; }
      if names[k] in listed {
        var l :| 0 <= l < |listed| && listed[l] == names[k];
        assert names[l] == names[k];
      }
    }
    forall k | 0 <= k < |names| ensures names[k] != "" {
      assert names[k] in Elements(names);
      RoomsOf(s, names[k]);
    }
    forall i, j | ListedAt(s.rooms, names[p], i) && ListedAt(s.rooms, names[q], j) ensures p < q <==> i < j {
      PlaceWithin(s.rooms, names[p], i);
      PlaceWithin(s.rooms, names[q], j);
    }
  }

  lemma {:induction false} RoomsOf(s: Snapshot, name: string)
    ensures name in AllRooms(s) <==> name != "" && (Listed(s.rooms, name) || name in s.messages)
  {
    hide TrimSpace;
    NamesByPlace(s.rooms);
  }

  predicate TidyList(rooms: seq<string>) {
    (forall i | 0 <= i < |rooms| :: TrimSpace(rooms[i]) == rooms[i] != "") && Distinct(rooms)
  }

  lemma {:induction false} TidyNames(rooms: seq<string>)
    requires TidyList(rooms)
    ensures RoomNames(rooms) == rooms
  {
    hide TrimSpace;
    if rooms != [] {
      var rest := rooms[..|rooms| - 1];
      TidyNames(rest);
      assert rooms == rest + [rooms[|rooms| - 1]];
    }
  }

  /** Every non-blank room of the list and of the message map loads, once. The list itself comes back if
      and only if it was trimmed, without blanks and repetitions, and names every room with messages. */
  lemma {:induction false} ListRoundTripExactly(s: Snapshot, env: SaveEnv, names: seq<string>, t: Tables)
    requires Consistent(t) && RoomsLoaded(s, env, names, Loaded(t)) && TrimmedKeys(s.messages)
    ensures Distinct(Loaded(t).rooms)
    ensures forall name ::
        name in Loaded(t).rooms <==> name != "" && (Listed(s.rooms, name) || name in s.messages)
    ensures Loaded(t).rooms == s.rooms
       <==> TidyList(s.rooms) && forall room | room in s.messages :: room == "" || room in s.rooms
  {
    hide TrimSpace, Listed, ListedAt, RoomIdOf, Loaded, AllRooms, RoomDirectoryLoaded, RoomNames;
    NamesByPlace(s.rooms);
    forall name ensures name in names <==> name != "" && (Listed(s.rooms, name) || name in s.messages) {
      assert name in names <==> name in Elements(names);
      RoomsOf(s, name);
    }
    if TidyList(s.rooms) && forall room | room in s.messages :: room == "" || room in s.rooms {
      TidyNames(s.rooms);
      forall room | room in s.messages ensures room == "" || room in RoomNames(s.rooms) {
        assert room == "" || room in s.rooms;
      }
      ListedOrder(s, names);
    }
    if names == s.rooms {
      NamesTrimmed(s);
      assert TidyList(s.rooms) by {
        forall i | 0 <= i < |s.rooms| ensures TrimSpace(s.rooms[i]) == s.rooms[i] != "" {
          assert s.rooms[i] in s.rooms;
        }
      }
      forall room | room in s.messages ensures room == "" || room in s.rooms {
        assert room != "" ==> room in names;
      }
    }
  }

  lemma {:induction false} NamesTrimmed(s: Snapshot)
    requires forall name | name in s.rooms :: name != "" && (Listed(s.rooms, name) || name in s.messages)
    requires TrimmedKeys(s.messages)
    ensures forall room | room in s.rooms :: TrimSpace(room) == room
  {
    forall room | room in s.rooms ensures TrimSpace(room) == room {
      if Listed(s.rooms, room) {
        var i :| 0 <= i < |s.rooms| && TrimSpace(s.rooms[i]) == room;
        TrimTwice(s.rooms[i]);
      }
    }
  }

  // ---- the order of any database ----

  /** Rooms load by their number, at equal numbers by the time they were last saved, and then by name. */
  lemma {:induction false} LoadsByNumber(t: Tables, p: nat, q: nat, a: string, b: string)
    requires Consistent(t) && p < |Loaded(t).rooms| && q < |Loaded(t).rooms| && a in t.rooms && b in t.rooms
    requires t.rooms[a].roomKey == Loaded(t).rooms[p] && t.rooms[b].roomKey == Loaded(t).rooms[q]
    ensures var x, y := t.rooms[a], t.rooms[b];
      p < q <==> (x.roomOrder < y.roomOrder
                  || (x.roomOrder == y.roomOrder && x.updatedAt < y.updatedAt)
                  || (x.roomOrder == y.roomOrder && x.updatedAt == y.updatedAt && Less(x.roomKey, y.roomKey)))
  {
    RoomBeforeIsOrder();
    var keys := RoomOrder(t);
    KeyIsRoom(t, keys, p, a);
    KeyIsRoom(t, keys, q, b);
    assert p < q ==> RoomBefore(keys[p], keys[q]);
    assert q < p ==> RoomBefore(keys[q], keys[p]);
    assert !(RoomBefore(keys[p], keys[q]) && RoomBefore(keys[q], keys[p]));
    LessIrreflexive(a);
    assert t.rooms[a].roomKey == t.rooms[b].roomKey ==> a == b;
    assert p == q ==> a == b;
    hide RoomOrder, Less;
  }

  lemma {:induction false} KeyIsRoom(t: Tables, keys: seq<RoomKey>, p: nat, a: string)
    requires Consistent(t) && keys == RoomOrder(t) && p < |keys| && a in t.rooms && t.rooms[a].roomKey == keys[p].key
    ensures keys[p] == RoomKeyOf(t, a)
  {
    assert keys[p] in Elements(keys);
    var id :| id in t.rooms && RoomKeyOf(t, id) == keys[p];
  }

  /** The messages of a room load by time and at equal times by ID. */
  lemma {:induction false} LoadsByTime(t: Tables, room: string, i: nat, j: nat)
    requires Consistent(t) && room in Loaded(t).messages && i < j < |Loaded(t).messages[room]|
    ensures var x, y := Loaded(t).messages[room][i], Loaded(t).messages[room][j];
      x.timestamp < y.timestamp || (x.timestamp == y.timestamp && Less(x.id, y.id))
  {
    MessageBeforeIsOrder();
    var keys := SortSet(MessageKeysIn(t, room), MessageBefore);
    assert keys[i] in Elements(keys) && keys[j] in Elements(keys);
    assert MessageBefore(keys[i], keys[j]);
  }
}
