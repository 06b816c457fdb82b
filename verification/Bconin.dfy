/** The shared-memory handshake by which the Atari's Bconin takes MIDI IN bytes from the
    cartridge: the cartridge's longword stores (rp/src/midi.c) interleaved with the reads of
    the 68000 hook (rp/src/include/target_firmware.h), one memory access at a time. */
module Bconin {
  import opened Arithmetic
  import opened Bytes
  import opened MidiPipe
  import opened Session
  import InRing

  /** Where the hook is: the arguments are what it holds in d0 and d2. */
  datatype Hook =
    | Idle
    | SpinReady                         // move.l STATUS,d0 ; beq
    | LoadByte                          // move.l BUFFER,d0
    | LoadAck(d: byte)                  // move.l ACK,d2
    | Emit(d: byte, ack: nat)           // tst.b (a1)
    | SpinAck(d: byte, ack: nat)        // cmp.l ACK,d2 ; beq ; rte

  datatype World = World(
    ring: seq<byte>,       // cartridge: the IN ring
    count: nat,            // cartridge: midiInAck
    pending: seq<Store>,   // cartridge: stores of the current operation still to be made
    ready: bool,           // shared: STATUS
    head: byte,            // shared: BUFFER
    ack: nat,              // shared: ACK
    advances: nat,         // bus: advance samples not yet consumed
    hook: Hook,
    accepted: seq<byte>,   // history: every byte the ring took
    popped: nat,           // history: how many were popped
    returned: seq<byte>)   // history: what Bconin has returned

  const START := World([], 0, [], false, 0, 0, 0, Idle, [], 0, [])

  datatype Act =
    | Receive(data: seq<byte>) // push what fits, then publish
    | Consume                  // pop, publish, acknowledge
    | Commit                   // one store reaches the shared region
    | Hook68k                  // one access of the hook

  function Fit(ring: seq<byte>, data: seq<byte>): seq<byte>
    requires |ring| < QUEUE_SIZE
  {
    data[..Least(|data|, QUEUE_SIZE - 1 - |ring|)]
  }

  /** The cartridge runs one operation at a time, to the end of its stores. */
  predicate Enabled(w: World, a: Act) {
    match a
    case Receive(_) => w.pending == [] && |w.ring| < QUEUE_SIZE
    case Consume => w.pending == [] && w.advances > 0
    case Commit => w.pending != []
    case Hook68k => true
  }

  function CommitFirst(w: World): World
    requires w.pending != []
  {
    var rest := w.(pending := w.pending[1..]);
    match w.pending[0]
    case Buffer(b) => rest.(head := b)
    case Status(r) => rest.(ready := r)
    case Ack(n) => rest.(ack := n)
  }

  function HookStep(w: World): World {
    match w.hook
    case Idle => w.(hook := SpinReady)
    case SpinReady => if w.ready then w.(hook := LoadByte) else w
    case LoadByte => w.(hook := LoadAck(w.head))
    case LoadAck(d) => w.(hook := Emit(d, w.ack))
    case Emit(d, a) => w.(hook := SpinAck(d, a), advances := w.advances + 1)
    case SpinAck(d, a) => if w.ack != a then w.(hook := Idle, returned := w.returned + [d]) else w
  }

  function Next(w: World, a: Act): World
    requires Enabled(w, a)
  {
    match a
    case Receive(data) =>
      var ring := w.ring + Fit(w.ring, data);
      w.(ring := ring, accepted := w.accepted + Fit(w.ring, data), pending := PublishStores(ring))
    case Consume =>
      var ring := if w.ring == [] then [] else w.ring[1..];
      w.(ring := ring, popped := w.popped + (if w.ring == [] then 0 else 1), count := Bump(w.count),
         advances := w.advances - 1, pending := PublishStores(ring) + [Ack(Bump(w.count))])
    case Commit => CommitFirst(w)
    case Hook68k => HookStep(w)
  }

  // ---------------------------------------------------------------- the invariant

  /** The cartridge is publishing a pop: the acknowledgement is still to be stored. */
  predicate Popping(w: World) {
    w.pending != [] && w.pending[|w.pending| - 1].Ack?
  }

  predicate HeadShown(w: World) {
    w.head == if w.ring == [] then 0 else w.ring[0]
  }

  predicate StatusShown(w: World) {
    w.ready == (w.ring != [])
  }

  /** The stores still to come are the end of a publication of the ring, and those already
      made are visible. */
  predicate Publishing(w: World) {
    var show := PublishStores(w.ring);
    || (w.pending == [] && HeadShown(w) && StatusShown(w) && w.ack == w.count)
    || (w.pending == [show[1]] && HeadShown(w) && w.ack == w.count)
    || (w.pending == [show[0], show[1]] && w.ack == w.count)
    || (w.pending == [Ack(w.count)] && HeadShown(w) && StatusShown(w))
    || (w.pending == [show[1], Ack(w.count)] && HeadShown(w))
    || w.pending == [show[0], show[1], Ack(w.count)]
  }

  /** Outside a pop, a set status is never paired with a stale byte. */
  predicate Honest(w: World) {
    w.ready ==> w.ring != [] && w.head == w.ring[0]
  }

  /** Everything popped has been returned, and no advance is on its way. */
  predicate Settled(w: World) {
    w.advances == 0 && !Popping(w) && |w.returned| == w.popped && w.returned <= w.accepted
  }

  predicate HookHolds(w: World) {
    match w.hook
    case Idle => Settled(w)
    case SpinReady => Settled(w)
    case LoadByte => Settled(w) && w.ready
    case LoadAck(d) => Settled(w) && w.ready && d == w.head
    case Emit(d, a) => Settled(w) && w.ready && d == w.head && a == w.ack
    case SpinAck(d, a) =>
      if w.advances > 0 then
        w.advances == 1 && Settled(w.(advances := 0)) && w.ready && d == w.head && a == w.ack
      else
        |w.returned| + 1 == w.popped && w.returned + [d] <= w.accepted && w.count == Bump(a)
        && (Popping(w) ==> w.ack == a)
  }

  predicate Inv(w: World) {
    && w.popped <= |w.accepted| && w.ring == w.accepted[w.popped..] && |w.ring| < QUEUE_SIZE
    && w.count < 0x1_0000_0000
    && Publishing(w) && (!Popping(w) ==> Honest(w) && w.ack == w.count) && HookHolds(w)
  }

  lemma StartInv()
    ensures Inv(START)
  {
  }

  lemma ReceiveKeeps(w: World, data: seq<byte>)
    requires Inv(w) && Enabled(w, Receive(data))
    ensures Inv(Next(w, Receive(data)))
  {
    ReceiveKeepsRing(w, data);
    ReceiveKeepsHook(w, data);
  }

  lemma ReceiveKeepsRing(w: World, data: seq<byte>)
    requires Inv(w) && Enabled(w, Receive(data))
    ensures var w' := Next(w, Receive(data));
            && w'.ring == w'.accepted[w'.popped..] && |w'.ring| < QUEUE_SIZE
            && Publishing(w') && !Popping(w') && Honest(w')
  {
    var w' := Next(w, Receive(data));
    assert w'.ring == w'.accepted[w'.popped..];
    assert w.ring != [] ==> w'.ring[0] == w.ring[0];
  }

  lemma ReceiveKeepsHook(w: World, data: seq<byte>)
    requires Inv(w) && Enabled(w, Receive(data))
    ensures HookHolds(Next(w, Receive(data)))
  {
    var w' := Next(w, Receive(data));
    assert w.accepted <= w'.accepted;
    assert !Popping(w) && !Popping(w');
  }

  lemma ConsumeKeeps(w: World)
    requires Inv(w) && Enabled(w, Consume)
    ensures Inv(Next(w, Consume))
  {
    assert w.accepted[w.popped..][1..] == w.accepted[w.popped + 1..];
    assert w.accepted[w.popped] == w.ring[0];
    assert PublishStores(w.ring[1..]) + [Ack(Bump(w.count))]
        == [PublishStores(w.ring[1..])[0], PublishStores(w.ring[1..])[1], Ack(Bump(w.count))];
  }

  lemma CommitKeeps(w: World)
    requires Inv(w) && w.pending != []
    ensures Inv(CommitFirst(w))
  {
    CommitPublishes(w);
    CommitShows(w);
    CommitKeepsHook(w);
  }

  lemma CommitPublishes(w: World)
    requires Publishing(w) && w.pending != []
    ensures Publishing(CommitFirst(w))
  {
    var show, w' := PublishStores(w.ring), CommitFirst(w);
    if |w.pending| == 3 {
      assert w'.pending == [show[1], Ack(w.count)];
    } else if |w.pending| == 2 {
      assert w'.pending == [w.pending[1]];
    } else {
      assert w'.pending == [];
    }
  }

  /** What the hook may see of a store: outside a pop nothing it relies on, in a pop only the
      acknowledgement, which ends it. */
  predicate Harmless(w: World, w': World) {
    && (Popping(w') ==> Popping(w) && w'.ack == w.ack)
    && (!Popping(w) ==> w'.ack == w.ack && (w.ready ==> w'.ready && w'.head == w.head))
  }

  lemma CommitShows(w: World)
    requires Publishing(w) && w.pending != [] && (!Popping(w) ==> Honest(w) && w.ack == w.count)
    ensures var w' := CommitFirst(w);
            Harmless(w, w') && (!Popping(w') ==> Honest(w') && w'.ack == w.count)
  {
  }

  lemma CommitKeepsHook(w: World)
    requires HookHolds(w) && w.pending != [] && Harmless(w, CommitFirst(w))
    ensures HookHolds(CommitFirst(w))
  {
  }

  lemma HookReads(w: World)
    requires Inv(w) && !w.hook.SpinAck?
    ensures Inv(HookStep(w))
  {
  }

  lemma HookReturns(w: World)
    requires Inv(w) && w.hook.SpinAck?
    ensures Inv(HookStep(w))
  {
    if w.ack != w.hook.ack {
      assert w.advances == 0 && !Popping(w);
    }
  }

  lemma NextKeeps(w: World, a: Act)
    requires Inv(w) && Enabled(w, a)
    ensures Inv(Next(w, a))
  {
    match a {
      case Receive(data) => ReceiveKeeps(w, data);
      case Consume => ConsumeKeeps(w);
      case Commit => CommitKeeps(w);
      case Hook68k => if w.hook.SpinAck? { HookReturns(w); } else { HookReads(w); }
    }
  }

  predicate Runnable(w: World, acts: seq<Act>)
    decreases |acts|
  {
    acts == [] || (Enabled(w, acts[0]) && Runnable(Next(w, acts[0]), acts[1..]))
  }

  function Play(w: World, acts: seq<Act>): World
    requires Runnable(w, acts)
    decreases |acts|
  {
    if acts == [] then w else Play(Next(w, acts[0]), acts[1..])
  }

  lemma {:induction false} PlayKeeps(w: World, acts: seq<Act>)
    requires Inv(w) && Runnable(w, acts)
    ensures Inv(Play(w, acts))
    decreases |acts|
  {
    if acts != [] {
      NextKeeps(w, acts[0]);
      PlayKeeps(Next(w, acts[0]), acts[1..]);
    }
  }

  /** Over every interleaving, what Bconin has returned is exactly the first bytes the ring
      accepted: none lost, doubled, reordered or stale. At most one byte has been popped and
      not yet returned, and the rest are still in the ring. */
  lemma ExactDelivery(acts: seq<Act>)
    requires Runnable(START, acts)
    ensures var w := Play(START, acts);
            && w.returned <= w.accepted
            && |w.returned| <= w.popped <= |w.returned| + 1
            && w.popped <= |w.accepted| && w.ring == w.accepted[w.popped..]
            && (w.hook.Idle? ==> w.accepted == w.returned + w.ring)
  {
    StartInv();
    PlayKeeps(START, acts);
    var w := Play(START, acts);
    assert w.accepted == w.accepted[..w.popped] + w.accepted[w.popped..];
  }

  /** No lost wake-up: whenever the hook spins on a condition that is false, the cartridge has
      a step to make, unless the hook waits for a byte and there is none. */
  lemma NeverStuck(acts: seq<Act>)
    requires Runnable(START, acts)
    ensures var w := Play(START, acts);
            && (w.hook.SpinAck? && w.ack == w.hook.ack ==> Enabled(w, Consume) || Enabled(w, Commit))
            && (w.hook.SpinReady? && !w.ready && w.ring != [] ==> Enabled(w, Commit))
  {
    StartInv();
    PlayKeeps(START, acts);
  }

  // ---------------------------------------------------------------- progress

  /** The ring takes as much of the received data as it has room for. */
  lemma ReceiveTakes(w: World, data: seq<byte>)
    requires Enabled(w, Receive(data))
    ensures var w' := Next(w, Receive(data));
            && w'.accepted == w.accepted + InRing.Fitting(data, |w.ring|)
            && w'.ring == w.ring + InRing.Fitting(data, |w.ring|)
            && (|InRing.Fitting(data, |w.ring|)| < |data| ==> |w'.ring| == 16383)
  {
  }

  /** How far the hook still is from returning a byte. */
  function Rank(w: World): nat {
    4 * (match w.hook
         case Idle => 6
         case SpinReady => 5
         case LoadByte => 4
         case LoadAck(_) => 3
         case Emit(_, _) => 2
         case SpinAck(_, _) => if w.advances > 0 then 1 else 0) + |w.pending|
  }

  /** A step that brings it closer: a store that waits, the advance that waits, else an access of
      the hook. */
  function Urgent(w: World): Act {
    if w.pending != [] then Commit else if w.advances > 0 then Consume else Hook68k
  }

  lemma UrgentHelps(w: World)
    requires Inv(w) && |w.returned| < |w.accepted|
    ensures Enabled(w, Urgent(w))
    ensures var w' := Next(w, Urgent(w));
            && w'.accepted == w.accepted
            && (w'.returned == w.returned + [w.accepted[|w.returned|]]
                || (w'.returned == w.returned && Rank(w') < Rank(w)))
  {
    if w.pending == [] && w.hook.SpinAck? && w.advances == 0 {
      NeverTheSame(w.hook.ack);
    }
  }

  lemma NeverTheSame(a: nat)
    ensures Bump(a) != a
  {
  }

  function Consumes(acts: seq<Act>): nat
    decreases |acts|
  {
    if acts == [] then 0 else (if acts[0].Consume? then 1 else 0) + Consumes(acts[1..])
  }

  /** Progress: as long as an accepted byte has not been returned, at most 28 steps of the hook
      and of the cartridge, with at most one pop and without another receive, return the next
      one. */
  lemma {:induction false} NextIsReturned(w: World) returns (acts: seq<Act>)
    requires Inv(w) && |w.returned| < |w.accepted|
    ensures Runnable(w, acts) && |acts| <= Rank(w) + 1 <= 28 && (forall a <- acts :: !a.Receive?)
    ensures Consumes(acts) <= if w.hook.SpinAck? && w.advances == 0 then 0 else 1
    ensures Play(w, acts).returned == w.returned + [w.accepted[|w.returned|]] && Play(w, acts).accepted == w.accepted
    decreases Rank(w)
  {
    UrgentHelps(w);
    NextKeeps(w, Urgent(w));
    var w' := Next(w, Urgent(w));
    if w'.returned == w.returned {
      var more := NextIsReturned(w');
      acts := [Urgent(w)] + more;
      assert acts[1..] == more;
    } else {
      acts := [Urgent(w)];
      assert acts[1..] == [];
    }
  }

  lemma {:induction false} PlaySplit(w: World, a: seq<Act>, b: seq<Act>)
    requires Runnable(w, a) && Runnable(Play(w, a), b)
    ensures Runnable(w, a + b) && Play(w, a + b) == Play(Play(w, a), b)
    decreases |a|
  {
    if a == [] {
      assert a + b == b;
    } else {
      assert (a + b)[1..] == a[1..] + b;
      PlaySplit(Next(w, a[0]), a[1..], b);
    }
  }

  /** So every accepted byte can be returned, in order, whatever the state. */
  lemma {:induction false} AllAreReturned(w: World) returns (acts: seq<Act>)
    requires Inv(w)
    ensures Runnable(w, acts) && (forall a <- acts :: !a.Receive?)
    ensures Play(w, acts).returned == w.accepted
    decreases |w.accepted| - |w.returned|
  {
    ReturnedIsFront(w);
    if |w.returned| == |w.accepted| {
      acts := [];
    } else {
      var first := NextIsReturned(w);
      PlayKeeps(w, first);
      var more := AllAreReturned(Play(w, first));
      acts := first + more;
      PlaySplit(w, first, more);
    }
  }

  lemma ReturnedIsFront(w: World)
    requires Inv(w)
    ensures w.returned <= w.accepted
  {
  }
}
