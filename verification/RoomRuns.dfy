/** Whole runs of the orchestrator: rooms, players and relays over every interleaving of
    handlers, administration and the reaper. Registry objects are named by numbers, so that a
    room deleted and created again gets a new one while old players keep theirs. */
module RoomRuns {
  import opened Arithmetic
  import opened Bytes
  import opened RingRegistry
  import opened OrchestratorRooms

  /** A connected player: the Registry its handler captured, and the key it asked for. */
  datatype Player = Player(reg: nat, room: Key)

  datatype Relayed = Relayed(from: Id, to: Id)

  datatype World = World(
    book: Book,
    regs: map<nat, seq<Id>>,    // every Registry object ever made
    players: map<Id, Player>,   // every player ever admitted
    now: int,
    idleFrom: map<nat, int>,    // history: when a registry last became empty
    joined: set<nat>,           // history: registries that have had a player
    log: seq<Relayed>)          // history: one entry per relayed chunk

  const START := World(Book(map[DEFAULT_ROOM := 0], {}, map[], map[]), map[0 := []], map[], 0, map[0 := 0], {}, [])

  datatype Event =
    | Create(key: Key, name: string, reg: nat)
    | Delete(key: Key)
    | Join(key: Key, id: Id) // handle_conn up to its first await; handle_ws's earlier checks may be out of date
    | Relay(id: Id)          // one received chunk
    | Kick(id: Id)           // _drop_player: looks the room up by key again
    | Leave(id: Id)          // the handler's finally
    | Reap(ttl: int)
    | Tick(dt: nat)

  predicate Enabled(w: World, e: Event) {
    match e
    case Create(_, _, reg) => reg !in w.regs
    case Join(_, id) => id !in w.players
    case Relay(id) => id in w.players
    case Kick(id) => id in w.players
    case Leave(id) => id in w.players
    case _ => true
  }

  function RingOf(b: Book, key: Key): nat
    requires DEFAULT_ROOM in b.rooms
  {
    if key in b.rooms then b.rooms[key] else b.rooms[DEFAULT_ROOM]
  }

  function Removed(w: World, r: nat, id: Id): World
    requires r in w.regs && r in w.idleFrom
  {
    var ids := Without(w.regs[r], id);
    w.(regs := w.regs[r := ids],
       idleFrom := if w.regs[r] != [] && ids == [] then w.idleFrom[r := w.now] else w.idleFrom)
  }

  function Empties(w: World): set<Key> {
    set k | k in w.book.rooms && w.book.rooms[k] in w.regs && w.regs[w.book.rooms[k]] == []
  }

  function Admitted(w: World, key: Key, id: Id): World
    requires DEFAULT_ROOM in w.book.rooms && RingOf(w.book, key) in w.regs
  {
    var r := RingOf(w.book, key);
    w.(book := Marked(w.book, key),
       regs := w.regs[r := Joined(w.regs[r], id)],
       players := w.players[id := Player(r, key)],
       joined := w.joined + {r})
  }

  function Next(w: World, e: Event): World
    requires Inv(w) && Enabled(w, e)
  {
    match e
    case Create(key, name, reg) =>
      if key in w.book.rooms then w
      else w.(book := Created(w.book, key, name, reg), regs := w.regs[reg := []], idleFrom := w.idleFrom[reg := w.now])
    case Delete(key) => w.(book := Deleted(w.book, key))
    case Join(key, id) =>
      if |w.regs[RingOf(w.book, key)]| >= MAX_PLAYERS_PER_ROOM then w else Admitted(w, key, id)
    case Relay(id) =>
      var to := Succ(w.regs[w.players[id].reg], id);
      if to.None? then w else w.(log := w.log + [Relayed(id, to.value)])
    case Kick(id) =>
      if w.players[id].room in w.book.rooms then Removed(w, w.book.rooms[w.players[id].room], id) else w
    case Leave(id) => Removed(w, w.players[id].reg, id)
    case Reap(ttl) => w.(book := Reaped(w.book, Empties(w), w.now, ttl))
    case Tick(dt) => w.(now := w.now + dt)
  }

  // ---------------------------------------------------------------- the invariant

  /** Rooms have their own Registry objects, and metadata exactly when provisioned. */
  ghost predicate BookInv(w: World) {
    && DEFAULT_ROOM in w.book.rooms
    && w.book.meta.Keys == w.book.rooms.Keys - {DEFAULT_ROOM}
    && (forall k :: k in w.book.rooms ==> w.book.rooms[k] in w.regs)
    && (forall k, l :: k in w.book.rooms && l in w.book.rooms && k != l ==> w.book.rooms[k] != w.book.rooms[l])
  }

  /** Rings are small, have no duplicates, and hold only their own players. */
  ghost predicate RingsInv(w: World) {
    && w.idleFrom.Keys == w.regs.Keys
    && (forall r :: r in w.regs ==> Distinct(w.regs[r]) && |w.regs[r]| <= MAX_PLAYERS_PER_ROOM)
    && (forall r, p :: r in w.regs && p in w.regs[r] ==> p in w.players && w.players[p].reg == r)
    && (forall p :: p in w.players ==> w.players[p].reg in w.regs)
  }

  /** Every chunk went to a player of the sender's own Registry object. */
  ghost predicate LogInv(w: World) {
    forall x <- w.log :: x.from in w.players && x.to in w.players && w.players[x.from].reg == w.players[x.to].reg
  }

  /** A room the reaper is timing has been empty since before the timer started. */
  ghost predicate TimerInv(w: World) {
    forall k :: k in w.book.emptySince ==>
      && k != DEFAULT_ROOM && k in w.book.rooms && w.book.rooms[k] in w.regs && w.book.rooms[k] in w.idleFrom
      && w.regs[w.book.rooms[k]] == []
      && w.idleFrom[w.book.rooms[k]] <= w.book.emptySince[k] <= w.now
  }

  ghost predicate Idle(w: World) {
    forall r :: r in w.idleFrom ==> w.idleFrom[r] <= w.now
  }

  ghost predicate Inv(w: World) {
    BookInv(w) && RingsInv(w) && LogInv(w) && TimerInv(w) && Idle(w)
  }

  lemma RemovedKeeps(w: World, r: nat, id: Id)
    requires Inv(w) && r in w.regs
    ensures Inv(Removed(w, r, id))
  {
    RemovedKeepsRings(w, r, id);
    RemovedKeepsTimers(w, r, id);
  }

  lemma RemovedKeepsRings(w: World, r: nat, id: Id)
    requires RingsInv(w) && r in w.regs
    ensures RingsInv(Removed(w, r, id))
  {
    WithoutIds(w.regs[r], id);
    var w' := Removed(w, r, id);
    assert |w'.regs[r]| <= |w.regs[r]|;
    forall q, p | q in w'.regs && p in w'.regs[q]
      ensures p in w'.players && w'.players[p].reg == q
    {
      assert p in w.regs[q];
    }
  }

  lemma RemovedKeepsTimers(w: World, r: nat, id: Id)
    requires RingsInv(w) && TimerInv(w) && r in w.regs
    ensures TimerInv(Removed(w, r, id))
  {
    WithoutIds(w.regs[r], id);
    assert w.regs[r] == [] ==> Without(w.regs[r], id) == [];
  }

  lemma JoinKeepsRings(w: World, key: Key, id: Id)
    requires Inv(w) && id !in w.players && |w.regs[RingOf(w.book, key)]| < MAX_PLAYERS_PER_ROOM
    ensures RingsInv(Admitted(w, key, id))
  {
    var r, w' := RingOf(w.book, key), Admitted(w, key, id);
    assert id !in w.regs[r];
    assert w'.regs[r] == w.regs[r] + [id];
    forall q, p | q in w'.regs && p in w'.regs[q]
      ensures p in w'.players && w'.players[p].reg == q
    {
      assert p in w.regs[q] || (q == r && p == id);
    }
  }

  lemma JoinKeepsBook(w: World, key: Key, id: Id)
    requires Inv(w) && id !in w.players
    ensures BookInv(Admitted(w, key, id)) && LogInv(Admitted(w, key, id))
  {
    var w' := Admitted(w, key, id);
    forall x <- w'.log
      ensures x.from in w'.players && x.to in w'.players && w'.players[x.from].reg == w'.players[x.to].reg
    {
      assert x in w.log;
    }
  }

  lemma JoinKeepsTimers(w: World, key: Key, id: Id)
    requires Inv(w) && id !in w.players
    ensures TimerInv(Admitted(w, key, id))
  {
    var w' := Admitted(w, key, id);
    forall k | k in w'.book.emptySince
      ensures w'.regs[w'.book.rooms[k]] == []
    {
      assert k in w.book.emptySince && k != key;
    }
  }

  lemma JoinKeeps(w: World, key: Key, id: Id)
    requires Inv(w) && Enabled(w, Event.Join(key, id))
    ensures Inv(Next(w, Event.Join(key, id)))
  {
    if |w.regs[RingOf(w.book, key)]| < MAX_PLAYERS_PER_ROOM {
      JoinKeepsBook(w, key, id);
      JoinKeepsRings(w, key, id);
      JoinKeepsTimers(w, key, id);
    }
  }

  /** What is said of rings and of the log does not depend on the room tables. */
  lemma OtherBook(w: World, b: Book)
    requires RingsInv(w) && LogInv(w) && Idle(w)
    ensures RingsInv(w.(book := b)) && LogInv(w.(book := b)) && Idle(w.(book := b))
  {
  }

  lemma ReapKeeps(w: World, ttl: int)
    requires Inv(w)
    ensures Inv(Next(w, Reap(ttl)))
  {
    OtherBook(w, Next(w, Reap(ttl)).book);
    ReapKeepsBook(w, ttl);
    ReapKeepsTimers(w, ttl);
  }

  lemma ReapEntries(w: World, ttl: int)
    requires Inv(w)
    ensures forall k :: At(Next(w, Reap(ttl)).book, k) == ReapEntry(At(w.book, k), k, k in Empties(w), w.now, ttl)
  {
    forall k
      ensures At(Next(w, Reap(ttl)).book, k) == ReapEntry(At(w.book, k), k, k in Empties(w), w.now, ttl)
    {
      ReapedAt(w.book, Empties(w), w.now, ttl, k);
    }
  }

  lemma ReapKeepsBook(w: World, ttl: int)
    requires Inv(w)
    ensures BookInv(Next(w, Reap(ttl)))
  {
    var b, b' := w.book, Next(w, Reap(ttl)).book;
    ReapEntries(w, ttl);
    assert At(b', DEFAULT_ROOM) == At(b, DEFAULT_ROOM);
    assert forall k :: At(b', k).reg.Some? ==> At(b', k).reg == At(b, k).reg;
    assert forall k :: At(b', k).name.Some? <==> At(b', k).reg.Some? && k != DEFAULT_ROOM;
  }

  lemma ReapKeepsTimers(w: World, ttl: int)
    requires Inv(w)
    ensures TimerInv(Next(w, Reap(ttl)))
  {
    var b' := Next(w, Reap(ttl)).book;
    forall k | k in b'.emptySince
      ensures k != DEFAULT_ROOM && k in b'.rooms && b'.rooms[k] == w.book.rooms[k] && w.regs[b'.rooms[k]] == []
              && w.idleFrom[b'.rooms[k]] <= b'.emptySince[k] <= w.now
    {
      ReapedAt(w.book, Empties(w), w.now, ttl, k);
      assert At(b', k).since == Some(b'.emptySince[k]);
    }
  }

  lemma CreateKeeps(w: World, key: Key, name: string, reg: nat)
    requires Inv(w) && reg !in w.regs
    ensures Inv(Next(w, Create(key, name, reg)))
  {
    if key !in w.book.rooms {
      CreateKeepsBook(w, key, name, reg);
      CreateKeepsRings(w, key, name, reg);
      CreateKeepsTimers(w, key, name, reg);
    }
  }

  lemma CreateKeepsRings(w: World, key: Key, name: string, reg: nat)
    requires Inv(w) && reg !in w.regs && key !in w.book.rooms
    ensures var w' := Next(w, Create(key, name, reg)); RingsInv(w') && LogInv(w') && Idle(w')
  {
  }

  lemma CreateKeepsBook(w: World, key: Key, name: string, reg: nat)
    requires Inv(w) && reg !in w.regs && key !in w.book.rooms
    ensures BookInv(Next(w, Create(key, name, reg)))
  {
  }

  lemma CreateKeepsTimers(w: World, key: Key, name: string, reg: nat)
    requires Inv(w) && reg !in w.regs && key !in w.book.rooms
    ensures TimerInv(Next(w, Create(key, name, reg)))
  {
  }

  lemma DeleteKeeps(w: World, key: Key)
    requires Inv(w)
    ensures Inv(Next(w, Delete(key)))
  {
    OtherBook(w, Deleted(w.book, key));
    DeleteKeepsBook(w, key);
    DeleteKeepsTimers(w, key);
  }

  lemma DeleteKeepsBook(w: World, key: Key)
    requires Inv(w)
    ensures BookInv(Next(w, Delete(key)))
  {
  }

  lemma DeleteKeepsTimers(w: World, key: Key)
    requires Inv(w)
    ensures TimerInv(Next(w, Delete(key)))
  {
  }

  lemma TickKeeps(w: World, dt: nat)
    requires Inv(w)
    ensures Inv(Next(w, Tick(dt)))
  {
  }

  /** A relayed chunk goes to the player behind the sender in the sender's own ring, from the
      last one to the first; a player that has left its ring sends to nobody. */
  lemma RelayKeeps(w: World, id: Id)
    requires Inv(w) && id in w.players
    ensures var w' := Next(w, Relay(id));
            var ids := w.regs[w.players[id].reg];
            && Inv(w')
            && w' == if id in ids then w.(log := w.log + [Relayed(id, ids[(IndexOf(ids, id) + 1) % |ids|])]) else w
  {
    RelayIs(w, id);
    RelayKeepsInv(w, id);
  }

  lemma RelayKeepsInv(w: World, id: Id)
    requires Inv(w) && id in w.players
    ensures Inv(Next(w, Relay(id)))
  {
    var ring := w.regs[w.players[id].reg];
    var to := Succ(ring, id);
    if to.Some? {
      assert to.value in ring;
      OtherLog(w, Relayed(id, to.value));
    }
  }

  lemma RelayIs(w: World, id: Id)
    requires Inv(w) && id in w.players
    ensures var ids := w.regs[w.players[id].reg];
            Next(w, Relay(id))
            == if id in ids then w.(log := w.log + [Relayed(id, ids[(IndexOf(ids, id) + 1) % |ids|])]) else w
  {
    var ids := w.regs[w.players[id].reg];
    if id in ids {
      AroundTheEnd(IndexOf(ids, id), |ids|);
    }
  }

  /** The same with the sender at place i of its ring. */
  lemma RelayGoesOn(w: World, id: Id, i: nat)
    requires Inv(w) && id in w.players
    requires i < |w.regs[w.players[id].reg]| && w.regs[w.players[id].reg][i] == id
    ensures var ids := w.regs[w.players[id].reg];
            Next(w, Relay(id)) == w.(log := w.log + [Relayed(id, ids[(i + 1) % |ids|])])
  {
    IndexUnique(w.regs[w.players[id].reg], i);
    RelayIs(w, id);
  }

  lemma OtherLog(w: World, x: Relayed)
    requires Inv(w) && x.from in w.players && x.to in w.players && w.players[x.from].reg == w.players[x.to].reg
    ensures Inv(w.(log := w.log + [x]))
  {
    OtherLogRings(w, x);
  }

  lemma OtherLogRings(w: World, x: Relayed)
    requires RingsInv(w)
    ensures RingsInv(w.(log := w.log + [x]))
  {
  }

  lemma NextKeeps(w: World, e: Event)
    requires Inv(w) && Enabled(w, e)
    ensures Inv(Next(w, e))
  {
    match e {
      case Join(key, id) => JoinKeeps(w, key, id);
      case Relay(id) => RelayKeeps(w, id);
      case Kick(id) =>
        if w.players[id].room in w.book.rooms {
          RemovedKeeps(w, w.book.rooms[w.players[id].room], id);
        }
      case Leave(id) => RemovedKeeps(w, w.players[id].reg, id);
      case Reap(ttl) => ReapKeeps(w, ttl);
      case Create(key, name, reg) => CreateKeeps(w, key, name, reg);
      case Delete(key) => DeleteKeeps(w, key);
      case Tick(dt) => TickKeeps(w, dt);
    }
  }

  lemma StartInv()
    ensures Inv(START)
  {
  }

  ghost predicate Runnable(w: World, events: seq<Event>)
    requires Inv(w)
    decreases |events|
  {
    events == [] || (Enabled(w, events[0]) && (NextKeeps(w, events[0]); Runnable(Next(w, events[0]), events[1..])))
  }

  ghost function Play(w: World, events: seq<Event>): (r: World)
    requires Inv(w) && Runnable(w, events)
    ensures Inv(r)
    decreases |events|
  {
    if events == [] then w else (NextKeeps(w, events[0]); Play(Next(w, events[0]), events[1..]))
  }

  // ---------------------------------------------------------------- relays

  /** Where one event sends a chunk: to the player behind the sender, from the last to the first. */
  ghost function Hop(w: World, e: Event): seq<Relayed>
    requires Inv(w) && Enabled(w, e)
  {
    if e.Relay? && e.id in w.regs[w.players[e.id].reg] then
      var ids := w.regs[w.players[e.id].reg];
      [Relayed(e.id, ids[(IndexOf(ids, e.id) + 1) % |ids|])]
    else []
  }

  ghost function Hops(w: World, events: seq<Event>): seq<Relayed>
    requires Inv(w) && Runnable(w, events)
    decreases |events|
  {
    if events == [] then []
    else (NextKeeps(w, events[0]); Hop(w, events[0]) + Hops(Next(w, events[0]), events[1..]))
  }

  lemma HopIsLogged(w: World, e: Event)
    requires Inv(w) && Enabled(w, e)
    ensures Next(w, e).log == w.log + Hop(w, e)
  {
    if e.Relay? {
      RelayIs(w, e.id);
    }
  }

  lemma {:induction false} HopsAreLogged(w: World, events: seq<Event>)
    requires Inv(w) && Runnable(w, events)
    ensures Play(w, events).log == w.log + Hops(w, events)
    decreases |events|
  {
    if events != [] {
      NextKeeps(w, events[0]);
      HopIsLogged(w, events[0]);
      HopsAreLogged(Next(w, events[0]), events[1..]);
      Regroup(w.log, Hop(w, events[0]), Hops(Next(w, events[0]), events[1..]));
    }
  }

  /** n relays in turn, from the player at i on. */
  function Turns(ids: seq<Id>, i: nat, n: nat): (r: seq<Event>)
    requires ids != []
    ensures |r| == n
  {
    seq(n, k requires 0 <= k => Relay(ids[(i + k) % |ids|]))
  }

  function TurnHops(ids: seq<Id>, i: nat, n: nat): (r: seq<Relayed>)
    requires ids != []
    ensures |r| == n
  {
    seq(n, k requires 0 <= k => Relayed(ids[(i + k) % |ids|], ids[(i + k + 1) % |ids|]))
  }

  lemma OneTurn(ids: seq<Id>, i: nat, n: nat)
    requires ids != [] && n > 0
    ensures Turns(ids, i, n) == [Relay(ids[i % |ids|])] + Turns(ids, i + 1, n - 1)
    ensures TurnHops(ids, i, n) == [Relayed(ids[i % |ids|], ids[(i % |ids| + 1) % |ids|])] + TurnHops(ids, i + 1, n - 1)
  {
    NextOnRing(i, |ids|);
    var hops, more := TurnHops(ids, i, n), TurnHops(ids, i + 1, n - 1);
    forall k | 1 <= k < n
      ensures Turns(ids, i, n)[k] == Turns(ids, i + 1, n - 1)[k - 1] && hops[k] == more[k - 1]
    {
      assert i + 1 + (k - 1) == i + k;
    }
  }

  lemma NextOnRing(i: nat, n: nat)
    requires n > 0
    ensures (i % n + 1) % n == (i + 1) % n
  {
    var q, j := i / n, i % n;
    assert i == q * n + j;
    if j + 1 < n {
      Quotient(i + 1, n, q, j + 1);
      Quotient(j + 1, n, 0, j + 1);
    } else {
      Quotient(i + 1, n, q + 1, 0);
      Quotient(n, n, 1, 0);
    }
  }

  lemma FirstTurn(w: World, r: nat, j: nat)
    requires Inv(w) && r in w.regs && j < |w.regs[r]|
    ensures var ids := w.regs[r];
            && ids[j] in w.players && ids[(j + 1) % |ids|] in w.players
            && w.players[ids[j]].reg == r == w.players[ids[(j + 1) % |ids|]].reg
            && Next(w, Relay(ids[j])) == w.(log := w.log + [Relayed(ids[j], ids[(j + 1) % |ids|])])
  {
    var ids := w.regs[r];
    assert ids[j] in ids && ids[(j + 1) % |ids|] in ids;
    RelayGoesOn(w, ids[j], j);
  }

  lemma {:induction false} TurnsAreHops(w: World, r: nat, i: nat, n: nat)
    requires Inv(w) && r in w.regs && w.regs[r] != []
    ensures Runnable(w, Turns(w.regs[r], i, n))
    ensures Play(w, Turns(w.regs[r], i, n)) == w.(log := w.log + TurnHops(w.regs[r], i, n))
    decreases n
  {
    var ids := w.regs[r];
    if n > 0 {
      var first := Relayed(ids[i % |ids|], ids[(i % |ids| + 1) % |ids|]);
      FirstTurn(w, r, i % |ids|);
      OtherLog(w, first);
      TurnsAreHops(w.(log := w.log + [first]), r, i + 1, n - 1);
      OneTurn(ids, i, n);
      assert Turns(ids, i, n)[1..] == Turns(ids, i + 1, n - 1);
      Regroup(w.log, [first], TurnHops(ids, i + 1, n - 1));
    } else {
      assert w.log + [] == w.log;
    }
  }

  /** Each hop starts where the one before ended, the last ends where the first began, and every
      player is reached, once. */
  ghost predicate FullLap(ids: seq<Id>, first: Id, lap: seq<Relayed>) {
    && lap != [] && lap[0].from == first == lap[|lap| - 1].to
    && (forall k :: 0 < k < |lap| ==> lap[k].from == lap[k - 1].to)
    && (forall p :: p in ids ==> exists x :: x in lap && x.to == p)
    && (forall k, l :: 0 <= k < l < |lap| ==> lap[k].to != lap[l].to)
  }

  /** As many relays in turn as there are players, from any of them, pass a chunk all the way
      round: to every player once, and back to the first. */
  lemma Lap(w: World, r: nat, i: nat)
    requires Inv(w) && r in w.regs && i < |w.regs[r]|
    ensures var ids := w.regs[r];
            var lap := TurnHops(ids, i, |ids|);
            && Runnable(w, Turns(ids, i, |ids|)) && Play(w, Turns(ids, i, |ids|)) == w.(log := w.log + lap)
            && FullLap(ids, ids[i], lap)
  {
    TurnsAreHops(w, r, i, |w.regs[r]|);
    LapIsFull(w.regs[r], i);
  }

  lemma LapIsFull(ids: seq<Id>, i: nat)
    requires Distinct(ids) && i < |ids|
    ensures FullLap(ids, ids[i], TurnHops(ids, i, |ids|))
  {
    LapCloses(ids, i);
    LapIsOnce(ids, i);
    forall p | p in ids
      ensures exists x :: x in TurnHops(ids, i, |ids|) && x.to == p
    {
      LapReaches(ids, i, IndexOf(ids, p));
    }
  }

  lemma LapIsOnce(ids: seq<Id>, i: nat)
    requires Distinct(ids) && i < |ids|
    ensures var lap := TurnHops(ids, i, |ids|);
            forall k, l :: 0 <= k < l < |lap| ==> lap[k].to != lap[l].to
  {
    var lap := TurnHops(ids, i, |ids|);
    forall k, l | 0 <= k < l < |ids|
      ensures lap[k].to != lap[l].to
    {
      Turn(i, k + 1, |ids|);
      Turn(i, l + 1, |ids|);
      assert lap[k].to == ids[(i + (k + 1)) % |ids|] && lap[l].to == ids[(i + (l + 1)) % |ids|];
    }
  }

  lemma LapCloses(ids: seq<Id>, i: nat)
    requires i < |ids|
    ensures var lap := TurnHops(ids, i, |ids|);
            && lap[0].from == ids[i] == lap[|lap| - 1].to
            && forall k :: 0 < k < |lap| ==> lap[k].from == lap[k - 1].to
  {
    var n, lap := |ids|, TurnHops(ids, i, |ids|);
    Turn(i, 0, n);
    Turn(i, n, n);
    assert lap[n - 1].to == ids[(i + n) % n];
    forall k | 0 < k < n
      ensures lap[k].from == lap[k - 1].to
    {
      assert i + (k - 1) + 1 == i + k;
    }
  }

  lemma LapReaches(ids: seq<Id>, i: nat, j: nat)
    requires i < |ids| && j < |ids|
    ensures exists x :: x in TurnHops(ids, i, |ids|) && x.to == ids[j]
  {
    var n := |ids|;
    var k := if j > i then j - i - 1 else j + n - i - 1;
    Turn(i, k + 1, n);
    assert TurnHops(ids, i, n)[k].to == ids[(i + (k + 1)) % n];
    assert TurnHops(ids, i, n)[k] in TurnHops(ids, i, n);
  }

  lemma Turn(i: nat, k: nat, n: nat)
    requires i < n && k <= n
    ensures (i + k) % n == if i + k < n then i + k else i + k - n
  {
  }

  // ---------------------------------------------------------------- what holds of every run

  /** In every reachable state no ring exceeds the cap, however joins raced the earlier
      is_full check; the chunks relayed are, one for each relay of a player still in its ring
      and in order, those sent to the player behind it in the sender's own Registry, even
      across deletion and re-creation of the key; and exactly the provisioned rooms have
      metadata. */
  lemma EveryRun(events: seq<Event>)
    requires Inv(START) && Runnable(START, events)
    ensures var w := Play(START, events);
            && (forall r :: r in w.regs ==> |w.regs[r]| <= MAX_PLAYERS_PER_ROOM)
            && w.log == Hops(START, events)
            && (forall x <- w.log ::
                    x.from in w.players && x.to in w.players && w.players[x.from].reg == w.players[x.to].reg)
            && w.book.meta.Keys == w.book.rooms.Keys - {DEFAULT_ROOM}
            && DEFAULT_ROOM in w.book.rooms
  {
    var w := Play(START, events);
    assert Inv(w);
    HopsAreLogged(START, events);
    assert [] + Hops(START, events) == Hops(START, events);
  }

  /** What a reap removes, in every reachable state: keys other than the default, marked used,
      whose ring is empty and has been so for longer than ttl. Nothing else is removed. */
  lemma ReapIsJustified(events: seq<Event>, ttl: int, k: Key)
    requires Inv(START) && Runnable(START, events)
    ensures var w := Play(START, events);
            k in w.book.rooms && k !in Next(w, Reap(ttl)).book.rooms ==>
              && k != DEFAULT_ROOM && k in w.book.used
              && w.regs[w.book.rooms[k]] == []
              && w.now - w.idleFrom[w.book.rooms[k]] > ttl
  {
    var w := Play(START, events);
    ReapedAt(w.book, Empties(w), w.now, ttl, k);
  }

  // ---------------------------------------------------------------- never-joined rooms

  /** The reaper's own account of the used set: rooms that have had at least one player. */
  ghost predicate UsedMeansJoined(w: World) {
    forall k :: k in w.book.used ==> k in w.book.rooms && w.book.rooms[k] in w.joined
  }

  /** A join that finds its key deleted is admitted to the default ring, yet marks the key. */
  predicate StaleJoin(w: World, e: Event)
    requires DEFAULT_ROOM in w.book.rooms && RingOf(w.book, DEFAULT_ROOM) in w.regs
  {
    e.Join? && e.key !in w.book.rooms && |w.regs[w.book.rooms[DEFAULT_ROOM]]| < MAX_PLAYERS_PER_ROOM
  }

  /** That is the only way a room can count as used without having had a player. */
  lemma UsedMeansJoinedKept(w: World, e: Event)
    requires Inv(w) && Enabled(w, e) && UsedMeansJoined(w)
    ensures UsedMeansJoined(Next(w, e)) <==> !StaleJoin(w, e)
  {
    if e.Reap? {
      forall k
        ensures At(Next(w, e).book, k) == ReapEntry(At(w.book, k), k, k in Empties(w), w.now, e.ttl)
      {
        ReapedAt(w.book, Empties(w), w.now, e.ttl, k);
      }
      forall k | k in Next(w, e).book.used
        ensures k in Next(w, e).book.rooms && Next(w, e).book.rooms[k] in w.joined
      {
        assert At(Next(w, e).book, k) == ReapEntry(At(w.book, k), k, k in Empties(w), w.now, e.ttl);
      }
    } else if StaleJoin(w, e) {
      assert e.key in Next(w, e).book.used;
    }
  }

  /** While no join has been stale, the reaper leaves never-joined rooms alone. */
  lemma NeverJoinedIsKept(w: World, ttl: int, k: Key)
    requires Inv(w) && UsedMeansJoined(w) && k in w.book.rooms && w.book.rooms[k] !in w.joined
    ensures k in Next(w, Reap(ttl)).book.rooms
  {
  }

  /** Room A is created and deleted, a join that was let in before the deletion arrives, and
      A is created again; nobody has joined the new room. */
  const STALE := World(
    Book(map[DEFAULT_ROOM := 0, "A" := 2], {"A"}, map[], map["A" := ""]),
    map[0 := [7], 1 := [], 2 := []], map[7 := Player(0, "A")], 0, map[0 := 0, 1 := 0, 2 := 0], {0}, [])

  const MADE := World(
    Book(map[DEFAULT_ROOM := 0, "A" := 1], {}, map[], map["A" := ""]),
    map[0 := [], 1 := []], map[], 0, map[0 := 0, 1 := 0], {}, [])
  const DELETED := MADE.(book := START.book)
  const CROSSED := World(
    Book(map[DEFAULT_ROOM := 0], {"A"}, map[], map[]),
    map[0 := [7], 1 := []], map[7 := Player(0, "A")], 0, map[0 := 0, 1 := 0], {0}, [])

  ghost predicate Runs(w: World, e: Event, w': World) {
    Inv(w) && Enabled(w, e) && Next(w, e) == w' && Inv(w')
  }

  lemma FirstCreate()
    ensures Runs(START, Create("A", "", 1), MADE)
  {
    StartInv();
    NextKeeps(START, Create("A", "", 1));
    var w := Next(START, Create("A", "", 1));
    assert w.book.rooms == MADE.book.rooms && w.book.meta == MADE.book.meta;
    assert w.regs == MADE.regs && w.idleFrom == MADE.idleFrom;
  }

  lemma ThenDelete()
    requires Inv(MADE)
    ensures Runs(MADE, Delete("A"), DELETED)
  {
    NextKeeps(MADE, Delete("A"));
    var b := Next(MADE, Delete("A")).book;
    assert b.rooms == START.book.rooms && b.used == {} && b.emptySince == map[] && b.meta == map[];
  }

  lemma ThenJoin()
    requires Inv(DELETED)
    ensures StaleJoin(DELETED, Event.Join("A", 7)) && Runs(DELETED, Event.Join("A", 7), CROSSED)
  {
    NextKeeps(DELETED, Event.Join("A", 7));
    AdmittedToDefault();
  }

  lemma AdmittedToDefault()
    ensures RingOf(DELETED.book, "A") == 0 && |DELETED.regs[0]| == 0
    ensures Admitted(DELETED, "A", 7) == CROSSED
  {
    var b := Marked(START.book, "A");
    assert b.used == {"A"} && b.emptySince == map[] && b == CROSSED.book;
    assert Joined([], 7) == [7];
    assert DELETED.regs[0 := [7]] == CROSSED.regs && {} + {0} == CROSSED.joined;
    assert map[][7 := Player(0, "A")] == CROSSED.players;
  }

  lemma ThenCreate()
    requires Inv(CROSSED)
    ensures Runs(CROSSED, Create("A", "", 2), STALE)
  {
    NextKeeps(CROSSED, Create("A", "", 2));
    var w := Next(CROSSED, Create("A", "", 2));
    assert w.book.rooms == STALE.book.rooms && w.book.meta == STALE.book.meta;
    assert w.regs == STALE.regs && w.idleFrom == STALE.idleFrom;
  }

  /** A run of four events from the start, the third a stale join, leads to STALE. */
  lemma StaleJoinRun()
    ensures Runs(START, Create("A", "", 1), MADE)
    ensures Runs(MADE, Delete("A"), DELETED)
    ensures StaleJoin(DELETED, Event.Join("A", 7)) && Runs(DELETED, Event.Join("A", 7), CROSSED)
    ensures Runs(CROSSED, Create("A", "", 2), STALE)
  {
    FirstCreate();
    ThenDelete();
    ThenJoin();
    ThenCreate();
  }

  /** A marked room seen empty for the first time starts its timer. */
  lemma FirstSweep(w: World, r: nat, name: string, ttl: nat)
    requires Inv(w) && At(w.book, "A") == Entry(Some(r), true, None, Some(name))
    requires r in w.regs && w.regs[r] == []
    ensures At(Next(w, Reap(ttl)).book, "A") == Entry(Some(r), true, Some(w.now), Some(name))
  {
    assert "A" in Empties(w);
    ReapedAt(w.book, Empties(w), w.now, ttl, "A");
  }

  /** A marked room seen empty for longer than the time to live goes. */
  lemma SecondSweep(w: World, r: nat, name: string, ttl: nat)
    requires Inv(w) && At(w.book, "A") == Entry(Some(r), true, Some(0), Some(name)) && w.now > ttl
    requires r in w.regs && w.regs[r] == []
    ensures "A" !in Next(w, Reap(ttl)).book.rooms
  {
    assert "A" in Empties(w);
    ReapedAt(w.book, Empties(w), w.now, ttl, "A");
  }

  /** That room is then removed as soon as it has been seen empty for the time to live. */
  lemma NeverJoinedIsReaped(ttl: nat)
    ensures Inv(STALE) && "A" in STALE.book.rooms && STALE.book.rooms["A"] !in STALE.joined
    ensures var seen := Next(STALE, Reap(ttl));
            Inv(seen) && Inv(Next(seen, Tick(ttl + 1))) && "A" in seen.book.rooms &&
            "A" !in Next(Next(seen, Tick(ttl + 1)), Reap(ttl)).book.rooms
  {
    StaleJoinRun();
    FirstSweep(STALE, 2, "", ttl);
    NextKeeps(STALE, Reap(ttl));
    var seen := Next(STALE, Reap(ttl));
    NextKeeps(seen, Tick(ttl + 1));
    SecondSweep(Next(seen, Tick(ttl + 1)), 2, "", ttl);
  }
}
