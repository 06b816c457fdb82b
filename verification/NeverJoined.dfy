/** When the reaper leaves a provisioned, never-joined room alone (the promise of reap_empty in
    orchestrator/orchestrator.py), over whole runs. */
module NeverJoined {
  import opened Bytes
  import opened RingRegistry
  import opened OrchestratorRooms
  import opened RoomRuns

  /** Only rings that have had a player are not empty, and the default room's mark is earned. */
  ghost predicate History(w: World) {
    && w.joined <= w.regs.Keys
    && (forall r :: r in w.regs && w.regs[r] != [] ==> r in w.joined)
    && (DEFAULT_ROOM in w.book.used ==> DEFAULT_ROOM in w.book.rooms && w.book.rooms[DEFAULT_ROOM] in w.joined)
  }

  lemma HistoryKept(w: World, e: Event)
    requires Inv(w) && History(w) && Enabled(w, e)
    ensures History(Next(w, e))
  {
    if e.Reap? {
      ReapedAt(w.book, Empties(w), w.now, e.ttl, DEFAULT_ROOM);
      assert At(Next(w, e).book, DEFAULT_ROOM) == At(w.book, DEFAULT_ROOM);
    }
  }

  /** No join of the run finds its key deleted. */
  ghost predicate NoStaleJoin(w: World, events: seq<Event>)
    requires Inv(w) && Runnable(w, events)
    decreases |events|
  {
    events == [] ||
    (!StaleJoin(w, events[0]) && (NextKeeps(w, events[0]); NoStaleJoin(Next(w, events[0]), events[1..])))
  }

  lemma {:induction false} UsedMeansJoinedThroughout(w: World, events: seq<Event>)
    requires Inv(w) && Runnable(w, events) && UsedMeansJoined(w) && NoStaleJoin(w, events)
    ensures UsedMeansJoined(Play(w, events))
    decreases |events|
  {
    if events != [] {
      UsedMeansJoinedKept(w, events[0]);
      NextKeeps(w, events[0]);
      UsedMeansJoinedThroughout(Next(w, events[0]), events[1..]);
    }
  }

  lemma {:induction false} HistoryThroughout(w: World, events: seq<Event>)
    requires Inv(w) && Runnable(w, events) && History(w)
    ensures History(Play(w, events))
    decreases |events|
  {
    if events != [] {
      HistoryKept(w, events[0]);
      NextKeeps(w, events[0]);
      HistoryThroughout(Next(w, events[0]), events[1..]);
    }
  }

  /** A reap now would remove the room of a key that nobody has ever joined. */
  ghost predicate Betrays(w: World, ttl: int, k: Key)
    requires Inv(w)
  {
    k in w.book.rooms && w.book.rooms[k] !in w.joined && k !in Next(w, Reap(ttl)).book.rooms
  }

  /** Where "used" means "has had a player", a run without a stale join ends with every
      never-joined room safe. */
  lemma MeantIsKept(w: World, events: seq<Event>, ttl: int, k: Key)
    requires Inv(w) && UsedMeansJoined(w) && Runnable(w, events) && NoStaleJoin(w, events)
    ensures !Betrays(Play(w, events), ttl, k)
  {
    UsedMeansJoinedThroughout(w, events);
    var w' := Play(w, events);
    if k in w'.book.rooms && w'.book.rooms[k] !in w'.joined {
      NeverJoinedIsKept(w', ttl, k);
    }
  }

  /** In every run from the start without a stale join, the reaper leaves every never-joined
      room alone, at every point and whatever the time to live. */
  lemma NeverJoinedAreKept(events: seq<Event>, ttl: int, k: Key)
    requires Inv(START) && Runnable(START, events) && NoStaleJoin(START, events)
    ensures !Betrays(Play(START, events), ttl, k)
  {
    MeantIsKept(START, events, ttl, k);
  }

  // ---------------------------------------------------------------- the converse

  lemma {:induction false} Unused(ids: set<nat>) returns (n: nat)
    ensures forall x <- ids :: x < n
    decreases |ids|
  {
    if ids == {} {
      n := 0;
    } else {
      var x :| x in ids;
      var m := Unused(ids - {x});
      n := if x < m then m else x + 1;
      assert forall y <- ids :: y == x || y in ids - {x};
    }
  }

  /** A key marked used without a player: as soon as its room exists and is seen empty for
      the time to live, it is reaped. */
  lemma MarkedIsReaped(w: World, ttl: int, k: Key) returns (events: seq<Event>)
    requires Inv(w) && History(w) && k != DEFAULT_ROOM
    requires k in w.book.used && k in w.book.rooms && w.book.rooms[k] !in w.joined
    ensures Runnable(w, events) && NoStaleJoin(w, events) && Betrays(Play(w, events), ttl, k)
  {
    var e1, e2 := Reap(ttl), Tick(if ttl < 0 then 0 else ttl + 1);
    NextKeeps(w, e1);
    var w1 := Next(w, e1);
    if k !in w1.book.rooms {
      events := [];
    } else {
      SweptOnce(w, ttl, k);
      NextKeeps(w1, e2);
      var w2 := Next(w1, e2);
      SweptTwice(w2, ttl, k);
      events := [e1, e2];
      TwoEvents(w, e1, e2);
    }
  }

  lemma TwoEvents(w: World, e1: Event, e2: Event)
    requires Inv(w) && Enabled(w, e1) && !StaleJoin(w, e1) && Inv(Next(w, e1))
    requires Enabled(Next(w, e1), e2) && !StaleJoin(Next(w, e1), e2) && Inv(Next(Next(w, e1), e2))
    ensures Runnable(w, [e1, e2]) && NoStaleJoin(w, [e1, e2]) && Play(w, [e1, e2]) == Next(Next(w, e1), e2)
  {
    var w1 := Next(w, e1);
    assert [e1, e2][1..] == [e2] && [e2][1..] == [];
    assert Runnable(w1, [e2]) && NoStaleJoin(w1, [e2]) && Play(w1, [e2]) == Next(w1, e2);
  }

  /** What the first sweep leaves of a marked room with an empty ring. */
  lemma SweptOnce(w: World, ttl: int, k: Key)
    requires Inv(w) && k != DEFAULT_ROOM && k in w.book.used && k in w.book.rooms && w.regs[w.book.rooms[k]] == []
    requires k in Next(w, Reap(ttl)).book.rooms
    ensures var b := Next(w, Reap(ttl)).book;
            k in b.used && b.rooms[k] == w.book.rooms[k] && k in b.emptySince && b.emptySince[k] <= w.now
  {
    assert k in Empties(w);
    ReapedAt(w.book, Empties(w), w.now, ttl, k);
    var b := Next(w, Reap(ttl)).book;
    assert At(b, k) == ReapEntry(At(w.book, k), k, true, w.now, ttl);
  }

  /** A room timed for longer than the time to live, with an empty ring, goes. */
  lemma SweptTwice(w: World, ttl: int, k: Key)
    requires Inv(w) && k != DEFAULT_ROOM && k in w.book.used && k in w.book.rooms && w.regs[w.book.rooms[k]] == []
    requires k in w.book.emptySince && w.now - w.book.emptySince[k] > ttl
    ensures k !in Next(w, Reap(ttl)).book.rooms
  {
    assert k in Empties(w);
    ReapedAt(w.book, Empties(w), w.now, ttl, k);
    assert At(Next(w, Reap(ttl)).book, k) == Entry(None, false, None, None);
  }

  /** Wherever the meaning of "used" has been lost, some continuation without another stale
      join reaps a room nobody ever joined. */
  lemma LostMeaningBetrays(w: World, ttl: int) returns (events: seq<Event>, k: Key)
    requires Inv(w) && History(w) && !UsedMeansJoined(w)
    ensures Runnable(w, events) && NoStaleJoin(w, events) && Betrays(Play(w, events), ttl, k)
  {
    k :| k in w.book.used && !(k in w.book.rooms && w.book.rooms[k] in w.joined);
    if k in w.book.rooms {
      events := MarkedIsReaped(w, ttl, k);
    } else {
      var r := Unused(w.regs.Keys);
      var e := Create(k, "", r);
      NextKeeps(w, e);
      HistoryKept(w, e);
      var more := MarkedIsReaped(Next(w, e), ttl, k);
      events := [e] + more;
      assert events[1..] == more;
    }
  }

  /** No continuation without a stale join lets the reaper remove a never-joined room. */
  ghost predicate Safe(w: World, ttl: int)
    requires Inv(w)
  {
    forall events, k :: Runnable(w, events) && NoStaleJoin(w, events) ==> !Betrays(Play(w, events), ttl, k)
  }

  /** Exactly when never-joined rooms are safe, in any reachable state: if and only if every
      key marked used has had a player. */
  lemma SafeIffMeant(start: seq<Event>, ttl: int)
    requires Inv(START) && Runnable(START, start)
    ensures UsedMeansJoined(Play(START, start)) <==> Safe(Play(START, start), ttl)
  {
    HistoryThroughout(START, start);
    SafeIffMeantAt(Play(START, start), ttl);
  }

  lemma SafeIffMeantAt(w: World, ttl: int)
    requires Inv(w) && History(w)
    ensures UsedMeansJoined(w) <==> Safe(w, ttl)
  {
    if UsedMeansJoined(w) {
      forall events, k | Runnable(w, events) && NoStaleJoin(w, events)
        ensures !Betrays(Play(w, events), ttl, k)
      {
        MeantIsKept(w, events, ttl, k);
      }
    } else {
      var events, k := LostMeaningBetrays(w, ttl);
      assert Runnable(w, events) && NoStaleJoin(w, events) && Betrays(Play(w, events), ttl, k);
    }
  }
}
