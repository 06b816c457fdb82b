/** The command handler's reply slots (rp/src/chandler.c) and the Atari routine that polls
    them (rp/src/include/target_firmware.h): the waiter takes the SEED longword as its request
    token, sends a command carrying it, and succeeds when TOKEN equals that token and then
    SEED differs from it. The handler stores the two longwords one after the other. */
module TokenReply {
  import opened Arithmetic
  import opened CommandParser

  type long = x: int | 0 <= x < 0x1_0000_0000

  const MAX_CALLBACKS: nat := 16
  const MAX_COPY: nat := 2112  // tprotocol_clamp_payload_size, in bytes

  // ---------------------------------------------------------------- the handler

  /** The token is the first payload longword, high word first. */
  function TokenOf(payload: seq<word>): long
    requires |payload| >= 2
  {
    var high: int, low: int := payload[0], payload[1];
    high * 0x1_0000 + low
  }

  /** memcpy of the clamped payload over what the slot held: words past it stay as they were,
      and an odd size copies the low half of one more word. */
  function Overlay(old_: seq<word>, c: Command): (r: seq<word>)
    requires |old_| == PAYLOAD_WORDS && WellSized(c) && 2 * |c.words| <= 2 * PAYLOAD_WORDS
    ensures |r| == PAYLOAD_WORDS
  {
    var n := if c.size > MAX_COPY then MAX_COPY else c.size;
    seq(PAYLOAD_WORDS, k requires 0 <= k < PAYLOAD_WORDS =>
      if k < n / 2 then c.words[k]
      else if k == n / 2 && n % 2 == 1 then old_[k] / 256 * 256 + c.words[k] % 256
      else old_[k])
  }

  /** Byte i of a payload in memory: words are stored low byte first. */
  function ByteAt(words: seq<word>, i: nat): nat
    requires i / 2 < |words|
  {
    if i % 2 == 0 then words[i / 2] % 256 else words[i / 2] / 256
  }

  /** The copy is that of the first bytes, as many as the command has, up to 2112. */
  lemma OverlayCopiesBytes(was: seq<word>, c: Command, i: nat)
    requires |was| == PAYLOAD_WORDS && WellSized(c) && |c.words| <= PAYLOAD_WORDS && i < 2 * PAYLOAD_WORDS
    ensures var n := if c.size > 2112 then 2112 else c.size as int;
            ByteAt(Overlay(was, c), i) == if i < n then ByteAt(c.words, i) else ByteAt(was, i)
  {
  }

  /** The token's words, high word first. */
  lemma TokenWritten(rest: seq<word>)
    ensures TokenOf([0x1234, 0x5678] + rest) == 0x12345678
  {
  }

  class Handler {
    var pending: bool
    var id: word
    var size: word
    var checksum: word
    var payload: seq<word>
    var count: long
    var token: long
    var seed: long
    var callbacks: seq<nat>
    var clearRequested: bool

    ghost predicate Valid()
      reads this
    {
      |payload| == PAYLOAD_WORDS && |callbacks| <= MAX_CALLBACKS
      && forall i, j :: 0 <= i < j < |callbacks| ==> callbacks[i] != callbacks[j]
    }

    /** chandler_init: both slots get boot-time values that differ. */
    constructor (boot: bv32)
      ensures Valid() && !pending && count == 0 && callbacks == [] && !clearRequested
      ensures token == BootToken(boot) && seed == BootSeed(boot)
    {
      pending, id, size, checksum := false, 0, 0, 0;
      payload := seq(PAYLOAD_WORDS, _ => 0);
      count, callbacks, clearRequested := 0, [], false;
      token := BootToken(boot);
      seed := BootSeed(boot);
    }

    /** chandler_addCB: refuse beyond the cap and ignore duplicates. */
    method AddCallback(cb: nat)
      requires Valid()
      modifies this`callbacks
      ensures Valid()
      ensures callbacks ==
                old(callbacks) + if |old(callbacks)| < MAX_CALLBACKS && cb !in old(callbacks) then [cb] else []
    {
      if |callbacks| >= MAX_CALLBACKS || cb in callbacks {
        return;
      }
      callbacks := callbacks + [cb];
    }

    /** handle_protocol_command: while one command waits, others are ignored. */
    method HandleCommand(c: Command)
      requires Valid() && WellSized(c) && |c.words| <= PAYLOAD_WORDS
      modifies this
      ensures Valid() && pending
      ensures if old(pending) then unchanged(this)
              else id == c.id && size == c.size && checksum == Checksum(c.id, c.size, c.words)
                   && payload == Overlay(old(payload), c)
                   && callbacks == old(callbacks) && count == old(count) && token == old(token) && seed == old(seed)
                   && clearRequested == old(clearRequested)
    {
      if pending {
        return;
      }
      id, size, checksum := c.id, c.size, Checksum(c.id, c.size, c.words);
      payload := Overlay(payload, c);
      pending := true;
    }

    /** The second half of chandler_loop: dispatch the pending command to every callback in
        order and publish the reply. An all-zero command is cleared without a reply. `clear`
        says whether a callback asked for the list to be dropped. */
    method DispatchPending(clear: bool) returns (calls: seq<nat>, replied: bool)
      requires Valid()
      modifies this
      ensures Valid() && !pending
      ensures replied <==> old(pending) && !(old(id) == 0 && old(size) == 0 && old(checksum) == 0)
      ensures calls == if replied then old(callbacks) else []
      ensures replied ==> count == Bump(old(count)) && token == TokenOf(old(payload)) && seed == count
      ensures !replied ==>
                count == old(count) && token == old(token) && seed == old(seed) && callbacks == old(callbacks)
      ensures replied ==> callbacks == if clear || old(clearRequested) then [] else old(callbacks)
    {
      calls, replied := [], false;
      if !pending {
        return;
      }
      var randomToken := TokenOf(payload);
      if id == 0 && size == 0 && checksum == 0 {
        pending := false;
        return;
      }
      for i := 0 to |callbacks|
        invariant calls == callbacks[..i]
        invariant unchanged(this)
      {
        calls := calls + [callbacks[i]];
      }
      if clear {
        clearRequested := true;
      }
      count := Bump(count);
      token, seed := randomToken, count;
      id, size, checksum, pending := 0, 0, 0, false;
      if clearRequested {
        clearRequested := false;
        callbacks := [];
      }
      return calls, true;
    }
  }

  /** The boot-time microsecond counter, folded to 32 bits and never zero. */
  function BootValue(boot: bv32): bv32 {
    if boot == 0 then 0xA1F0C0DE else boot
  }

  function BootToken(boot: bv32): long {
    BootValue(boot) as int
  }

  function BootSeed(boot: bv32): long {
    (BootValue(boot) ^ 0xDEADBEEF) as int
  }

  // ---------------------------------------------------------------- interleavings

  /** A reply being stored: which of the two longwords is still to come. */
  datatype Reply = NoReply | Reply(token: long, count: long, tokenLeft: bool, seedLeft: bool)

  datatype Waiter = Resting | Polling(s: long) | TokenSeen(s: long) | Succeeded(s: long)

  /** What the waiter could have seen, and what was in flight, when it took its token. */
  datatype Snapshot = Snapshot(token: long, seed: long, reply: Reply, dispatches: nat, seedStores: nat)

  /** The slots, the handler and the waiter; dispatches and seedStores count events. */
  datatype World = World(
    token: long,
    seed: long,
    count: long,
    reply: Reply,
    waiter: Waiter,
    dispatches: nat,
    seedStores: nat,
    then_: Snapshot)

  datatype Act =
    | Sample            // the waiter reads SEED and sends its command
    | Poll              // the waiter's next read
    | GiveUp            // time-out, or done; a retry is another Sample
    | Dispatch(t: long) // a command with token t reaches the callbacks
    | StoreToken
    | StoreSeed

  predicate Enabled(w: World, a: Act) {
    match a
    case Sample => w.waiter.Resting?
    case Poll => w.waiter.Polling? || w.waiter.TokenSeen?
    case GiveUp => !w.waiter.Resting?
    case Dispatch(_) => w.reply.NoReply?
    case StoreToken => w.reply.Reply? && w.reply.tokenLeft
    case StoreSeed => w.reply.Reply? && w.reply.seedLeft
  }

  function Stored(r: Reply): Reply {
    if r.Reply? && !r.tokenLeft && !r.seedLeft then NoReply else r
  }

  function Look(w: World): Snapshot {
    Snapshot(w.token, w.seed, w.reply, w.dispatches, w.seedStores)
  }

  function Next(w: World, a: Act): World
    requires Enabled(w, a)
  {
    match a
    case Sample => w.(waiter := Polling(w.seed), then_ := Look(w))
    case Poll =>
      if w.waiter.Polling? then w.(waiter := if w.token == w.waiter.s then TokenSeen(w.waiter.s) else w.waiter)
      else w.(waiter := if w.seed != w.waiter.s then Succeeded(w.waiter.s) else Polling(w.waiter.s))
    case GiveUp => w.(waiter := Resting)
    case Dispatch(t) =>
      w.(count := Bump(w.count), reply := Reply(t, Bump(w.count), true, true), dispatches := w.dispatches + 1)
    case StoreToken => w.(token := w.reply.token, reply := Stored(w.reply.(tokenLeft := false)))
    case StoreSeed =>
      w.(seed := w.reply.count, seedStores := w.seedStores + 1, reply := Stored(w.reply.(seedLeft := false)))
  }

  predicate Runnable(w: World, acts: seq<Act>)
    decreases |acts|
  {
    acts == [] || (Enabled(w, acts[0]) && Runnable(Next(w, acts[0]), acts[1..]))
  }

  function Play(w: World, acts: seq<Act>): World
    requires Runnable(w, acts)
    decreases |acts|
  {
    if acts == [] then w else Play(Next(w, acts[0]), acts[1..])
  }

  /** TOKEN shows the sampled value, now or once the reply in flight has stored it. */
  predicate TokenMatches(t: Snapshot) {
    t.token == t.seed || (t.reply.Reply? && t.reply.tokenLeft && t.reply.token == t.seed)
  }

  /** The late reply to an earlier command looks like an answer: its SEED store, still to come,
      changes SEED, and TOKEN matches. */
  predicate Deceptive(t: Snapshot) {
    TokenMatches(t) && t.reply.Reply? && t.reply.seedLeft && t.reply.count != t.seed
  }

  /** With no dispatch since the snapshot, only the reply then in flight can have stored. */
  predicate OnlyLate(w: World, t: Snapshot) {
    && (w.token == t.token || (t.reply.Reply? && t.reply.tokenLeft && w.token == t.reply.token))
    && (w.seed == t.seed || (t.reply.Reply? && t.reply.seedLeft && w.seed == t.reply.count))
    && (w.reply.Reply? ==>
          && t.reply.Reply? && w.reply.token == t.reply.token && w.reply.count == t.reply.count
          && (w.reply.tokenLeft ==> t.reply.tokenLeft) && (w.reply.seedLeft ==> t.reply.seedLeft))
  }

  predicate Since(w: World, t: Snapshot) {
    && w.dispatches >= t.dispatches && w.seedStores >= t.seedStores
    && (w.seedStores == t.seedStores ==> w.seed == t.seed)
    && (w.dispatches == t.dispatches ==> OnlyLate(w, t))
  }

  predicate Inv(w: World) {
    match w.waiter
    case Resting => true
    case Polling(s) => Since(w, w.then_) && s == w.then_.seed
    case TokenSeen(s) => Since(w, w.then_) && s == w.then_.seed
                         && (w.dispatches == w.then_.dispatches ==> TokenMatches(w.then_))
    case Succeeded(s) => w.dispatches >= w.then_.dispatches && w.seedStores > w.then_.seedStores
                         && (w.dispatches == w.then_.dispatches ==> Deceptive(w.then_))
  }

  lemma NextKeeps(w: World, a: Act)
    requires Inv(w) && Enabled(w, a)
    ensures Inv(Next(w, a))
  {
  }

  lemma {:induction false} PlayKeeps(w: World, acts: seq<Act>)
    requires Inv(w) && Runnable(w, acts)
    ensures Inv(Play(w, acts))
    decreases |acts|
  {
    if acts != [] {
      NextKeeps(w, acts[0]);
      PlayKeeps(Next(w, acts[0]), acts[1..]);
    }
  }

  /** The state chandler_init leaves, with nobody waiting. */
  function Boot(boot: bv32): World {
    World(BootToken(boot), BootSeed(boot), 0, NoReply, Resting, 0, 0,
          Snapshot(BootToken(boot), BootSeed(boot), NoReply, 0, 0))
  }

  /** Safety, for either order of the stores and any interleaving, time-outs and retries
      included: when the waiter succeeds, a reply has been stored since it took its token,
      and a command has been dispatched since, unless the reply then in flight was Deceptive. */
  lemma SuccessMeansReply(boot: bv32, acts: seq<Act>)
    requires Runnable(Boot(boot), acts)
    ensures var w := Play(Boot(boot), acts);
            w.waiter.Succeeded? ==>
              && w.seedStores > w.then_.seedStores
              && (w.dispatches > w.then_.dispatches || Deceptive(w.then_))
              && (w.then_.reply.NoReply? ==> w.dispatches > w.then_.dispatches)
  {
    PlayKeeps(Boot(boot), acts);
  }

  predicate NoDispatch(acts: seq<Act>) {
    forall a <- acts :: !a.Dispatch?
  }

  lemma {:induction false} QuietRun(w: World, acts: seq<Act>)
    requires Runnable(w, acts) && NoDispatch(acts)
    ensures Play(w, acts).dispatches == w.dispatches
    decreases |acts|
  {
    if acts != [] {
      QuietRun(Next(w, acts[0]), acts[1..]);
    }
  }

  predicate NoSample(acts: seq<Act>) {
    forall a <- acts :: !a.Sample?
  }

  lemma {:induction false} SameSnapshot(w: World, acts: seq<Act>)
    requires Runnable(w, acts) && NoSample(acts)
    ensures Play(w, acts).then_ == w.then_
    decreases |acts|
  {
    if acts != [] {
      SameSnapshot(Next(w, acts[0]), acts[1..]);
    }
  }

  /** Exactly when a waiter can be fooled: from any state, a token taken now can be answered
      without any command being dispatched if and only if the reply in flight is Deceptive. */
  lemma FooledIffDeceptive(w: World)
    requires w.waiter.Resting?
    ensures (exists acts :: NoDispatch(acts) && NoSample(acts) && Runnable(Next(w, Act.Sample), acts)
                            && Play(Next(w, Act.Sample), acts).waiter.Succeeded?)
            <==> Deceptive(Look(w))
  {
    var w0 := Next(w, Act.Sample);
    if Deceptive(Look(w)) {
      var acts := LateReplyRun(w0);
      assert NoDispatch(acts) && NoSample(acts) && Runnable(w0, acts) && Play(w0, acts).waiter.Succeeded?;
    }
    forall acts | NoDispatch(acts) && NoSample(acts) && Runnable(w0, acts) && Play(w0, acts).waiter.Succeeded?
      ensures Deceptive(Look(w))
    {
      assert Inv(w0);
      PlayKeeps(w0, acts);
      QuietRun(w0, acts);
      SameSnapshot(w0, acts);
    }
  }

  /** The run that fools it: the late reply's stores land between the waiter's reads. */
  lemma LateReplyRun(w: World) returns (acts: seq<Act>)
    requires w.waiter == Polling(w.seed) && w.then_ == Look(w.(waiter := Resting)) && Deceptive(w.then_)
    ensures NoDispatch(acts) && NoSample(acts) && Runnable(w, acts) && Play(w, acts).waiter.Succeeded?
  {
    if w.token == w.seed {
      acts := [Poll, StoreSeed, Poll];
      var w1 := Next(w, Poll);
      var w2 := Next(w1, StoreSeed);
      RunThree(w, acts, w1, w2);
    } else {
      var w1 := Next(w, StoreToken);
      var w2 := Next(w1, Poll);
      var w3 := Next(w2, StoreSeed);
      RunThree(w1, [Poll, StoreSeed, Poll], w2, w3);
      acts := [StoreToken, Poll, StoreSeed, Poll];
      assert acts[1..] == [Poll, StoreSeed, Poll];
    }
  }

  lemma RunThree(w: World, acts: seq<Act>, w1: World, w2: World)
    requires |acts| == 3 && Enabled(w, acts[0]) && w1 == Next(w, acts[0])
    requires Enabled(w1, acts[1]) && w2 == Next(w1, acts[1]) && Enabled(w2, acts[2])
    ensures Runnable(w, acts) && Play(w, acts) == Next(w2, acts[2])
  {
    assert acts[1..][1..][1..] == [];
    assert acts[1..][0] == acts[1] && acts[1..][1..][0] == acts[2];
    assert Runnable(w2, acts[1..][1..]) && Play(w2, acts[1..][1..]) == Next(w2, acts[2]);
    assert Runnable(w1, acts[1..]) && Play(w1, acts[1..]) == Next(w2, acts[2]);
  }

  lemma PlayFirst(w: World, a: Act, rest: seq<Act>)
    requires Enabled(w, a) && Runnable(Next(w, a), rest)
    ensures Runnable(w, [a] + rest) && Play(w, [a] + rest) == Play(Next(w, a), rest)
  {
    assert ([a] + rest)[1..] == rest;
  }

  /** The first command from boot times out after its dispatch and is tried again; the late
      stores of the first reply then land between the second waiter's reads. */
  function LateFromBoot(boot: bv32): seq<Act> {
    [Act.Sample, Dispatch(BootSeed(boot)), GiveUp, Act.Sample] + [StoreToken, Act.Poll, StoreSeed, Act.Poll]
  }

  /** The deceptive state is reached from boot: that run fools the second waiter, which
      succeeds with no dispatch since it sampled, for every boot value but one. */
  lemma FooledFromBoot(boot: bv32)
    ensures Runnable(Boot(boot), LateFromBoot(boot))
    ensures var w := Play(Boot(boot), LateFromBoot(boot));
            && w.dispatches == w.then_.dispatches == 1
            && (w.waiter.Succeeded? <==> boot != 0xDEADBEEE)
  {
    SeedIsOne(boot);
    FooledFrom(Boot(boot), LateFromBoot(boot));
  }

  lemma FooledFrom(w: World, acts: seq<Act>)
    requires w.waiter.Resting? && w.reply.NoReply? && w.dispatches == 0 && w.count == 0
    requires acts == [Act.Sample, Dispatch(w.seed), GiveUp, Act.Sample] + [StoreToken, Act.Poll, StoreSeed, Act.Poll]
    ensures Runnable(w, acts)
    ensures var r := Play(w, acts);
            r.dispatches == r.then_.dispatches == 1 && (r.waiter.Succeeded? <==> w.seed != 1)
  {
    var w1 := Next(w, Act.Sample);
    var w2 := Next(w1, Dispatch(w.seed));
    var w3 := Next(w2, GiveUp);
    var w4 := Next(w3, Act.Sample);
    var w5 := Next(w4, StoreToken);
    var w6 := Next(w5, Act.Poll);
    var w7 := Next(w6, StoreSeed);
    var late := [StoreToken] + ([Act.Poll] + ([StoreSeed] + ([Act.Poll] + [])));
    PlayFirst(w7, Act.Poll, []);
    PlayFirst(w6, StoreSeed, [Act.Poll] + []);
    PlayFirst(w5, Act.Poll, [StoreSeed] + ([Act.Poll] + []));
    PlayFirst(w4, StoreToken, [Act.Poll] + ([StoreSeed] + ([Act.Poll] + [])));
    PlayFirst(w3, Act.Sample, late);
    PlayFirst(w2, GiveUp, [Act.Sample] + late);
    PlayFirst(w1, Dispatch(w.seed), [GiveUp] + ([Act.Sample] + late));
    PlayFirst(w, Act.Sample, [Dispatch(w.seed)] + ([GiveUp] + ([Act.Sample] + late)));
    assert acts == [Act.Sample] + ([Dispatch(w.seed)] + ([GiveUp] + ([Act.Sample] + late)));
  }

  // ---------------------------------------------------------------- the reply is seen

  /** The waiter's own exchange, undisturbed: its command is dispatched and both slots stored,
      in either order, before it reads them. */
  function Exchange(w: World, tokenFirst: bool): World
    requires w.waiter.Resting? && w.reply.NoReply?
  {
    var sent := Next(Next(w, Act.Sample), Dispatch(w.seed));
    var stored := if tokenFirst then Next(Next(sent, StoreToken), StoreSeed)
                  else Next(Next(sent, StoreSeed), StoreToken);
    Next(Next(stored, Poll), Poll)
  }

  /** A dispatch and its two stores, in either order, leave what the handler's reply leaves: the
      command's token in TOKEN, and in SEED the count of the commands so far. */
  lemma ReplyStored(w: World, t: long, tokenFirst: bool)
    requires w.reply.NoReply?
    ensures var acts := if tokenFirst then [Dispatch(t), StoreToken, StoreSeed]
                        else [Dispatch(t), StoreSeed, StoreToken];
            && Runnable(w, acts)
            && Play(w, acts) == w.(token := t, seed := Bump(w.count), count := Bump(w.count),
                                   dispatches := w.dispatches + 1, seedStores := w.seedStores + 1)
  {
    var w1 := Next(w, Dispatch(t));
    if tokenFirst {
      RunThree(w, [Dispatch(t), StoreToken, StoreSeed], w1, Next(w1, StoreToken));
    } else {
      RunThree(w, [Dispatch(t), StoreSeed, StoreToken], w1, Next(w1, StoreSeed));
    }
  }

  /** The reply is recognised if and only if the new count differs from the token. */
  lemma ReplySeen(w: World, tokenFirst: bool)
    requires w.waiter.Resting? && w.reply.NoReply?
    ensures Exchange(w, tokenFirst).waiter.Succeeded? <==> Bump(w.count) != w.seed
  {
  }

  /** After any first reply the counter itself is the next token, so replies are recognised. */
  lemma LaterReplySeen(w: World, tokenFirst: bool)
    requires w.waiter.Resting? && w.reply.NoReply? && w.seed == w.count
    ensures Exchange(w, tokenFirst).waiter.Succeeded?
  {
  }

  lemma XorIsOne(v: bv32)
    ensures v ^ 0xDEADBEEF == 1 <==> v == 0xDEADBEEE
  {
  }

  lemma SeedOf(v: bv32, boot: bv32)
    requires v == 0xDEADBEEE <==> boot == 0xDEADBEEE
    ensures (v ^ 0xDEADBEEF) as int == 1 <==> boot == 0xDEADBEEE
  {
    XorIsOne(v);
    IntIsOne(v ^ 0xDEADBEEF);
  }

  lemma SeedIsOne(boot: bv32)
    ensures BootSeed(boot) == 1 <==> boot == 0xDEADBEEE
  {
    SeedOf(BootValue(boot), boot);
  }

  lemma IntIsOne(v: bv32)
    ensures v as int == 1 <==> v == 1
  {
  }

  /** The very first reply after boot goes unseen for exactly one boot value in 2^32: the one
      whose boot-time seed happens to be 1, the count of the first command. */
  lemma FirstReplySeen(boot: bv32, tokenFirst: bool)
    ensures Exchange(Boot(boot), tokenFirst).waiter.Succeeded? <==> boot != 0xDEADBEEE
  {
    ReplySeen(Boot(boot), tokenFirst);
    SeedIsOne(boot);
  }
}
