/** What each event does to the rooms and rings of orchestrator/orchestrator.py, in plain sequences
    and tables. */
module RoomLaws {
  import opened Bytes
  import opened RingRegistry
  import opened OrchestratorRooms
  import opened RoomRuns

  /** A join goes to the end of the ring of its key, or of the default room when the key has
      none, and marks the key; the seventeenth player of a ring is turned away. */
  lemma JoinLands(w: World, key: Key, id: Id)
    requires Inv(w) && id !in w.players
    ensures var r := w.book.rooms[if key in w.book.rooms then key else ""];
            var w' := Next(w, Event.Join(key, id));
            if |w.regs[r]| >= 16 then w' == w
            else
              && w'.regs == w.regs[r := w.regs[r] + [id]] && w'.players == w.players[id := Player(r, key)]
              && w'.book.rooms == w.book.rooms && w'.book.meta == w.book.meta
              && w'.book.used == w.book.used + {key} && w'.book.emptySince == w.book.emptySince - {key}
              && w'.log == w.log && w'.now == w.now
  {
    var r := w.book.rooms[if key in w.book.rooms then key else ""];
    assert id !in w.regs[r];
  }

  lemma WithoutMiddle(a: seq<Id>, id: Id, b: seq<Id>)
    requires Distinct(a + [id] + b)
    ensures Without(a + [id] + b, id) == a + b
  {
    var ids := a + [id] + b;
    assert ids[|a|] == id;
    IndexUnique(ids, |a|);
    assert ids[..|a|] == a && ids[|a| + 1..] == b;
  }

  /** A player that leaves is cut out of its own ring; everybody else keeps place and order. */
  lemma LeaveCuts(w: World, id: Id, a: seq<Id>, b: seq<Id>)
    requires Inv(w) && id in w.players && w.regs[w.players[id].reg] == a + [id] + b
    ensures var w' := Next(w, Event.Leave(id));
            && w'.regs == w.regs[w.players[id].reg := a + b]
            && w'.idleFrom == (if a + b == [] then w.idleFrom[w.players[id].reg := w.now] else w.idleFrom)
            && w'.book == w.book && w'.players == w.players && w'.log == w.log && w'.now == w.now
            && (forall r :: r in w'.regs ==> id !in w'.regs[r])
  {
    WithoutMiddle(a, id, b);
    WithoutIds(w.regs[w.players[id].reg], id);
    forall r | r in w.regs && id in w.regs[r]
      ensures r == w.players[id].reg
    {
    }
  }

  /** Leaving twice changes no ring. */
  lemma LeaveTwice(w: World, id: Id)
    requires Inv(w) && id in w.players && id !in w.regs[w.players[id].reg]
    ensures Next(w, Event.Leave(id)).regs == w.regs
  {
  }

  /** A kick looks the room up by its key: it cuts the player out of the ring found there, and
      does nothing when the key is gone or names a new ring by now. */
  lemma KickCuts(w: World, id: Id, a: seq<Id>, b: seq<Id>)
    requires Inv(w) && id in w.players
    ensures var key := w.players[id].room;
            var w' := Next(w, Kick(id));
            && (key !in w.book.rooms ==> w' == w)
            && (key in w.book.rooms && id !in w.regs[w.book.rooms[key]] ==> w'.regs == w.regs)
            && (key in w.book.rooms && w.regs[w.book.rooms[key]] == a + [id] + b ==>
                  && w'.regs == w.regs[w.book.rooms[key] := a + b]
                  && w'.idleFrom == if a + b == [] then w.idleFrom[w.book.rooms[key] := w.now] else w.idleFrom)
            && w'.book == w.book && w'.players == w.players && w'.log == w.log
  {
    var key := w.players[id].room;
    if key in w.book.rooms && w.regs[w.book.rooms[key]] == a + [id] + b {
      WithoutMiddle(a, id, b);
    }
  }

  /** A new room is an empty ring of its own, unmarked and with its name; a known key is left
      as it is. */
  lemma CreateOpens(w: World, key: Key, name: string, reg: nat)
    requires Inv(w) && reg !in w.regs
    ensures var w' := Next(w, Create(key, name, reg));
            if key in w.book.rooms then w' == w
            else
              && w'.book.rooms == w.book.rooms[key := reg] && w'.book.meta == w.book.meta[key := name]
              && w'.book.used == w.book.used && w'.book.emptySince == w.book.emptySince
              && w'.regs == w.regs[reg := []] && w'.idleFrom == w.idleFrom[reg := w.now]
              && w'.players == w.players && w'.log == w.log
  {
  }

  /** A deletion leaves no trace of the key, and nothing else changes: the players of its ring
      keep their ring. The default room stays. */
  lemma DeleteForgets(w: World, key: Key)
    requires Inv(w)
    ensures var w' := Next(w, Delete(key));
            && (key == "" || key !in w.book.rooms ==> w' == w)
            && (key != "" ==> key !in w'.book.rooms && key !in w'.book.meta)
            && (key != "" && key in w.book.rooms ==> key !in w'.book.used && key !in w'.book.emptySince)
            && (forall k :: k != key ==> At(w'.book, k) == At(w.book, k))
            && w'.regs == w.regs && w'.players == w.players && w'.log == w.log
  {
  }

  /** A reap removes exactly the marked rooms, other than the default, that are empty and whose
      timer started longer ago than the time to live; a marked empty room without a timer gets
      one, a marked room with players loses it, and nothing else changes. */
  lemma ReapSweeps(w: World, ttl: int, k: Key)
    requires Inv(w)
    ensures var w' := Next(w, Reap(ttl));
            var swept := k in w.book.rooms && k != "" && k in w.book.used;
            var empty := k in w.book.rooms && w.regs[w.book.rooms[k]] == [];
            var timed := k in w.book.emptySince;
            && (k in w'.book.rooms <==>
                  k in w.book.rooms && !(swept && empty && timed && w.now - w.book.emptySince[k] > ttl))
            && (swept && empty && !timed ==> k in w'.book.emptySince && w'.book.emptySince[k] == w.now)
            && (swept && !empty ==> k !in w'.book.emptySince)
            && (!swept ==> At(w'.book, k) == At(w.book, k))
            && w'.regs == w.regs && w'.players == w.players && w'.log == w.log
  {
    ReapedAt(w.book, Empties(w), w.now, ttl, k);
    assert At(Next(w, Reap(ttl)).book, k) == ReapEntry(At(w.book, k), k, k in Empties(w), w.now, ttl);
  }
}
