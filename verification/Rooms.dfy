/** The orchestrator's rooms (class Rooms and the connection handlers of
    orchestrator/orchestrator.py). Code between two awaits runs without interruption, so each
    such stretch is one event. */
module OrchestratorRooms {
  import opened Bytes
  import opened RingRegistry

  type Key = string

  const DEFAULT_ROOM: Key := ""
  const MAX_PLAYERS_PER_ROOM: nat := 16

  /** The dictionaries of Rooms; rooms maps to the identity of the Registry object. */
  datatype Book = Book(rooms: map<Key, nat>, used: set<Key>, emptySince: map<Key, int>, meta: map<Key, string>)

  /** Everything a Book says about one key. */
  datatype Entry = Entry(reg: Option<nat>, used: bool, since: Option<int>, name: Option<string>)

  function Lookup<V>(m: map<Key, V>, k: Key): Option<V> {
    if k in m then Some(m[k]) else None
  }

  function At(b: Book, k: Key): Entry {
    Entry(Lookup(b.rooms, k), k in b.used, Lookup(b.emptySince, k), Lookup(b.meta, k))
  }

  lemma SameEntries(b: Book, c: Book)
    requires forall k :: At(b, k) == At(c, k)
    ensures b == c
  {
    forall k
      ensures (k in b.rooms <==> k in c.rooms) && (k in b.rooms ==> b.rooms[k] == c.rooms[k])
      ensures k in b.used <==> k in c.used
      ensures (k in b.emptySince <==> k in c.emptySince) && (k in b.emptySince ==> b.emptySince[k] == c.emptySince[k])
      ensures (k in b.meta <==> k in c.meta) && (k in b.meta ==> b.meta[k] == c.meta[k])
    {
      assert At(b, k) == At(c, k);
    }
    assert b.rooms == c.rooms && b.used == c.used && b.emptySince == c.emptySince && b.meta == c.meta;
  }

  /** A used room, not the default, seen empty earlier and still empty more than ttl later. */
  predicate Expired(e: Entry, k: Key, empty: bool, now: int, ttl: int) {
    e.reg.Some? && k != DEFAULT_ROOM && e.used && empty && e.since.Some? && now - e.since.value > ttl
  }

  function ReapEntry(e: Entry, k: Key, empty: bool, now: int, ttl: int): Entry {
    if e.reg.None? || k == DEFAULT_ROOM || !e.used then e
    else if !empty then e.(since := None)
    else if e.since.None? then e.(since := Some(now))
    else if Expired(e, k, empty, now, ttl) then Entry(None, false, None, None)
    else e
  }

  function ExpiredKeys(b: Book, empties: set<Key>, now: int, ttl: int): set<Key> {
    set k | k in b.rooms && Expired(At(b, k), k, k in empties, now, ttl)
  }

  /** reap_empty on the dictionaries. */
  function Reaped(b: Book, empties: set<Key>, now: int, ttl: int): Book {
    var gone := ExpiredKeys(b, empties, now, ttl);
    Book(b.rooms - gone, b.used - gone,
         map k | k in b.emptySince.Keys + b.rooms.Keys && ReapEntry(At(b, k), k, k in empties, now, ttl).since.Some?
           :: ReapEntry(At(b, k), k, k in empties, now, ttl).since.value,
         b.meta - gone)
  }

  lemma ReapedAt(b: Book, empties: set<Key>, now: int, ttl: int, k: Key)
    requires forall l <- b.meta :: l in b.rooms
    ensures At(Reaped(b, empties, now, ttl), k) == ReapEntry(At(b, k), k, k in empties, now, ttl)
  {
  }

  ghost function Rids(rooms: map<Key, Registry>): map<Key, nat> {
    map k | k in rooms :: rooms[k].rid
  }

  lemma RidsMinus(rooms: map<Key, Registry>, key: Key)
    ensures Rids(rooms - {key}) == Rids(rooms) - {key}
  {
  }

  lemma RidsPlus(rooms: map<Key, Registry>, key: Key, reg: Registry)
    ensures Rids(rooms[key := reg]) == Rids(rooms)[key := reg.rid]
  {
  }

  class Rooms {
    var rooms: map<Key, Registry>
    var used: set<Key>
    var emptySince: map<Key, int>
    var meta: map<Key, string>

    ghost predicate Valid()
      reads this
    {
      && DEFAULT_ROOM in rooms
      && meta.Keys == rooms.Keys - {DEFAULT_ROOM}
      && forall k, l :: k in rooms && l in rooms && k != l ==> rooms[k] != rooms[l] && rooms[k].rid != rooms[l].rid
    }

    ghost function View(): Book
      reads this
    {
      Book(Rids(rooms), used, emptySince, meta)
    }

    ghost function Empties(): set<Key>
      reads this, rooms.Values
    {
      set k | k in rooms && rooms[k].ids == []
    }

    constructor ()
      ensures Valid() && fresh(rooms[DEFAULT_ROOM]) && rooms[DEFAULT_ROOM].Valid()
      ensures View() == Book(map[DEFAULT_ROOM := 0], {}, map[], map[]) && rooms[DEFAULT_ROOM].ids == []
    {
      var r := new Registry(0);
      rooms, used, emptySince, meta := map[DEFAULT_ROOM := r], {}, map[], map[];
    }

    /** A room is full exactly when one more player would take it past the cap. */
    method IsFull(key: Key) returns (full: bool)
      requires Valid()
      ensures full ==> key in rooms
                       && forall p :: p !in rooms[key].ids ==> |Joined(rooms[key].ids, p)| > MAX_PLAYERS_PER_ROOM
      ensures !full && key in rooms ==> forall p :: |Joined(rooms[key].ids, p)| <= MAX_PLAYERS_PER_ROOM
    {
      full := key in rooms && |rooms[key].ids| >= MAX_PLAYERS_PER_ROOM;
    }

    /** get: whoever joins the ring lands in the room of the key or, when there is none, in the
        default room, and in no other. */
    method Get(key: Key) returns (reg: Registry)
      requires Valid()
      ensures reg in rooms.Values
      ensures forall k :: k in rooms && rooms[k] == reg ==> k == key || (k == DEFAULT_ROOM && key !in rooms)
    {
      reg := if key in rooms then rooms[key] else rooms[DEFAULT_ROOM];
    }

    /** create: `id` names the new object. */
    method Create(key: Key, name: string, id: nat) returns (created: bool)
      requires Valid() && forall k :: k in rooms ==> rooms[k].rid != id
      modifies this
      ensures Valid() && created == (key !in old(rooms))
      ensures View() == Created(old(View()), key, name, id)
      ensures created ==> key in rooms && fresh(rooms[key]) && rooms[key].ids == [] && rooms[key].Valid()
    {
      if key in rooms {
        return false;
      }
      var reg := new Registry(id);
      RidsPlus(rooms, key, reg);
      rooms := rooms[key := reg];
      meta := meta[key := name];
      return true;
    }

    /** delete: the default room stays; otherwise every trace of the key goes. */
    method Delete(key: Key) returns (players: Option<seq<Id>>)
      requires Valid()
      modifies this
      ensures Valid() && View() == Deleted(old(View()), key)
      ensures players == if key == DEFAULT_ROOM || key !in old(rooms) then None else Some(old(rooms[key].ids))
    {
      if key == DEFAULT_ROOM || key !in rooms {
        return None;
      }
      players := Some(rooms[key].ids);
      Forget(key);
    }

    method MarkUsed(key: Key)
      requires Valid()
      modifies this`used, this`emptySince
      ensures Valid() && View() == Marked(old(View()), key)
    {
      used := used + {key};
      emptySince := emptySince - {key};
    }

    /** The body of the reaper's loop for one key. */
    method ReapKey(key: Key, now: int, ttl: int) returns (gone: bool)
      requires Valid() && key in rooms
      modifies this
      ensures Valid() && OnlyKey(old(View()), View(), key) && SameButFor(old(rooms), rooms, key)
      ensures gone == Expired(At(old(View()), key), key, old(rooms[key].ids) == [], now, ttl)
      ensures At(View(), key) == ReapEntry(At(old(View()), key), key, old(rooms[key].ids) == [], now, ttl)
    {
      gone := false;
      if key == DEFAULT_ROOM || key !in used {
        return;
      }
      if |rooms[key].ids| > 0 {
        emptySince := emptySince - {key};
        return;
      }
      if key !in emptySince {
        emptySince := emptySince[key := now];
      } else if now - emptySince[key] > ttl {
        Forget(key);
        gone := true;
      }
    }

    method Forget(key: Key)
      requires Valid() && key in rooms && key != DEFAULT_ROOM
      modifies this
      ensures Valid() && View() == Deleted(old(View()), key)
      ensures OnlyKey(old(View()), View(), key) && SameButFor(old(rooms), rooms, key)
    {
      RidsMinus(rooms, key);
      rooms := rooms - {key};
      meta := meta - {key};
      emptySince := emptySince - {key};
      used := used - {key};
      DeletedOnly(old(View()), key);
    }

    /** The reaper has been through all keys but `todo`. */
    ghost predicate Sweeping(b: Book, objects: map<Key, Registry>, todo: set<Key>, reaped: set<Key>,
                             empties: set<Key>, now: int, ttl: int)
      reads this
    {
      && Valid() && todo <= b.rooms.Keys && SameOn(todo, objects, rooms)
      && PartlyReaped(b, View(), b.rooms.Keys - todo, empties, now, ttl)
      && reaped == GoneOf(b, b.rooms.Keys - todo, empties, now, ttl)
    }

    method SweepOne(key: Key, now: int, ttl: int, ghost b: Book, ghost objects: map<Key, Registry>,
                    ghost todo: set<Key>, ghost reaped: set<Key>, ghost empties: set<Key>)
      returns (gone: bool)
      requires Sweeping(b, objects, todo, reaped, empties, now, ttl) && key in todo
      requires key in rooms && (key in empties <==> rooms[key].ids == [])
      modifies this
      ensures Sweeping(b, objects, todo - {key}, if gone then reaped + {key} else reaped, empties, now, ttl)
    {
      ghost var before, done := View(), b.rooms.Keys - todo;
      assert At(before, key) == At(b, key);
      gone := ReapKey(key, now, ttl);
      OneMoreReaped(b, before, View(), done, key, empties, now, ttl);
      OneMoreGone(b, done, key, empties, now, ttl);
      OneMoreDone(b.rooms.Keys, todo, key);
    }

    /** reap_empty. */
    method ReapEmpty(now: int, ttl: int) returns (reaped: set<Key>)
      requires Valid()
      modifies this
      ensures Valid()
      ensures reaped == ExpiredKeys(old(View()), old(Empties()), now, ttl)
      ensures View() == Reaped(old(View()), old(Empties()), now, ttl)
    {
      ghost var b, empties, objects := View(), Empties(), rooms;
      var todo := rooms.Keys;
      reaped := {};
      assert b.rooms.Keys == todo;
      while todo != {}
        invariant Sweeping(b, objects, todo, reaped, empties, now, ttl)
        decreases todo
      {
        var key :| key in todo;
        var gone := SweepOne(key, now, ttl, b, objects, todo, reaped, empties);
        todo := todo - {key};
        if gone {
          reaped := reaped + {key};
        }
      }
      AllReaped(b, View(), b.rooms.Keys - todo, empties, now, ttl);
    }
  }

  /** The expired keys among those the reaper has been through. */
  function GoneOf(b: Book, done: set<Key>, empties: set<Key>, now: int, ttl: int): set<Key> {
    set k | k in done && Expired(At(b, k), k, k in empties, now, ttl)
  }

  lemma OneMoreGone(b: Book, done: set<Key>, key: Key, empties: set<Key>, now: int, ttl: int)
    ensures GoneOf(b, done + {key}, empties, now, ttl) ==
            GoneOf(b, done, empties, now, ttl) +
            if Expired(At(b, key), key, key in empties, now, ttl) then {key} else {}
  {
  }

  lemma OneMoreDone(keys: set<Key>, todo: set<Key>, key: Key)
    requires key in todo && todo <= keys
    ensures (keys - todo) + {key} == keys - (todo - {key})
  {
  }

  lemma DeletedOnly(b: Book, key: Key)
    ensures OnlyKey(b, Deleted(b, key), key)
  {
  }

  ghost predicate OnlyKey(b: Book, c: Book, key: Key) {
    forall k :: k != key ==> At(b, k) == At(c, k)
  }

  ghost predicate SameButFor(r: map<Key, Registry>, s: map<Key, Registry>, key: Key) {
    forall k :: k in r && k != key ==> k in s && r[k] == s[k]
  }

  ghost predicate SameOn(keys: set<Key>, r: map<Key, Registry>, s: map<Key, Registry>) {
    forall k :: k in keys ==> k in r && k in s && r[k] == s[k]
  }

  /** The reaper has been through `done`. */
  ghost predicate PartlyReaped(b: Book, c: Book, done: set<Key>, empties: set<Key>, now: int, ttl: int) {
    forall k :: At(c, k) == if k in done then ReapEntry(At(b, k), k, k in empties, now, ttl) else At(b, k)
  }

  lemma OneMoreReaped(b: Book, c: Book, d: Book, done: set<Key>, key: Key, empties: set<Key>, now: int, ttl: int)
    requires PartlyReaped(b, c, done, empties, now, ttl) && OnlyKey(c, d, key)
    requires At(d, key) == ReapEntry(At(b, key), key, key in empties, now, ttl)
    ensures PartlyReaped(b, d, done + {key}, empties, now, ttl)
  {
    forall k
      ensures At(d, k) == if k in done + {key} then ReapEntry(At(b, k), k, k in empties, now, ttl) else At(b, k)
    {
      assert k != key ==> At(c, k) == At(d, k);
    }
  }

  lemma AllReaped(b: Book, c: Book, done: set<Key>, empties: set<Key>, now: int, ttl: int)
    requires PartlyReaped(b, c, done, empties, now, ttl) && done == b.rooms.Keys
    requires forall l <- b.meta :: l in b.rooms
    ensures c == Reaped(b, empties, now, ttl)
    ensures GoneOf(b, done, empties, now, ttl) == ExpiredKeys(b, empties, now, ttl)
  {
    forall k
      ensures At(c, k) == At(Reaped(b, empties, now, ttl), k)
    {
      ReapedAt(b, empties, now, ttl, k);
    }
    SameEntries(c, Reaped(b, empties, now, ttl));
  }

  function Created(b: Book, key: Key, name: string, id: nat): Book {
    if key in b.rooms then b else b.(rooms := b.rooms[key := id], meta := b.meta[key := name])
  }

  function Deleted(b: Book, key: Key): Book {
    if key == DEFAULT_ROOM || key !in b.rooms then b
    else Book(b.rooms - {key}, b.used - {key}, b.emptySince - {key}, b.meta - {key})
  }

  function Marked(b: Book, key: Key): Book {
    b.(used := b.used + {key}, emptySince := b.emptySince - {key})
  }

  /** A mark spares the room from the next reap, whatever its timer said and however long the
      ring has been empty: if the ring is empty then, its time starts afresh. */
  lemma MarkedIsSpared(b: Book, key: Key, empties: set<Key>, now: int, ttl: int)
    requires key in b.rooms && key != DEFAULT_ROOM && forall l <- b.meta :: l in b.rooms
    ensures var swept := Reaped(Marked(b, key), empties, now, ttl);
            && key in swept.rooms && swept.rooms[key] == b.rooms[key] && key in swept.used
            && Lookup(swept.emptySince, key) == if key in empties then Some(now) else None
  {
    ReapedAt(Marked(b, key), empties, now, ttl, key);
    assert At(Reaped(Marked(b, key), empties, now, ttl), key)
           == Entry(Some(b.rooms[key]), true, if key in empties then Some(now) else None, Lookup(b.meta, key));
  }
}
