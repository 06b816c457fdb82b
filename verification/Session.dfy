/** The life of the cartridge's link to the orchestrator (rp/src/midi.c), as a state machine
    over events: connecting, receiving, sending, losing the link. Every queued byte carries
    the era it belongs to; an era ends each time the link is dropped. */
module Session {
  import opened Bytes
  import opened DeviceWs
  import FrameCodec

  const QUEUE_SIZE: nat := 16384
  const HANDSHAKE_MAX: nat := 512

  datatype Net = Down | Connecting | Handshake | Up

  datatype Cell = Cell(b: byte, era: nat)

  /** An OUT byte handed to TCP, and the era in which it was handed over. */
  datatype Handed = Handed(cell: Cell, era: nat)

  /** The two longwords Bconstat and Bconin read. */
  datatype Published = Published(ready: bool, head: byte)

  datatype Sess = Sess(
    net: Net,
    pcb: bool,
    inq: seq<Cell>,
    outq: seq<Cell>,
    handed: seq<Handed>,
    era: nat,
    shown: Published,
    dec: Dec,
    hs: seq<byte>)

  const INITIAL := Sess(Down, false, [], [], [], 0, Published(false, 0), AtOp, [])

  function Show(inq: seq<Cell>): Published {
    if inq == [] then Published(false, 0) else Published(true, inq[0].b)
  }

  function Publish(s: Sess): Sess {
    s.(shown := Show(s.inq))
  }

  /** midi_net_flush_all, then DOWN: what both midi_net_reset and midi_net_err_cb do. */
  function Drop(s: Sess): Sess {
    Sess(Down, false, [], [], s.handed, s.era + 1, Published(false, 0), AtOp, [])
  }

  /** The same from inside a decoder callback. The decoder stands between two frames there,
      so re-initialising it is no step of the byte machine. */
  function DropInCallback(s: Sess): Sess {
    Drop(s).(dec := s.dec)
  }

  /** A byte that finds the IN ring full is dropped. */
  function Push(s: Sess, b: byte, src: nat): Sess {
    if |s.inq| < QUEUE_SIZE - 1 then s.(inq := s.inq + [Cell(b, src)]) else s
  }

  predicate IsClose(e: Event) {
    e.Control? && e.opcode == FrameCodec.OP_CLOSE
  }

  /** The decoder callbacks: data goes to the IN ring, a close drops the link. */
  function OnEvent(s: Sess, e: Event, src: nat): Sess {
    if e.Data? then Push(s, e.b, src) else if IsClose(e) then DropInCallback(s) else s
  }

  function OnEvents(s: Sess, events: seq<Event>, src: nat): Sess
    decreases |events|
  {
    if events == [] then s
    else OnEvent(OnEvents(s, events[..|events| - 1], src), events[|events| - 1], src)
  }

  /** One segment through the decoder. The callbacks may drop the link half way; the
      decoder still reads the segment to its end. */
  function Segment(s: Sess, t: Trace, src: nat): Sess {
    var s' := OnEvents(s, t.out, src).(dec := t.dec);
    if t.ok then s' else Drop(s')
  }

  function Segments(s: Sess, segs: seq<seq<byte>>, src: nat): Sess
    decreases |segs|
  {
    if segs == [] || s.net != Up then s
    else Segments(Segment(s, Run(s.dec, segs[0]), src), segs[1..], src)
  }

  predicate IsPing(e: Event) {
    e.Control? && e.opcode == FrameCodec.OP_PING
  }

  /** The pings among the events that find the link still there, which are those before a close. */
  function Asked(s: Sess, events: seq<Event>, src: nat): seq<seq<byte>>
    decreases |events|
  {
    if events == [] then []
    else
      var front, last := events[..|events| - 1], events[|events| - 1];
      Asked(s, front, src) + if IsPing(last) && OnEvents(s, front, src).pcb then [last.payload] else []
  }

  function AskedInSegments(s: Sess, segs: seq<seq<byte>>, src: nat): seq<seq<byte>>
    decreases |segs|
  {
    if segs == [] || s.net != Up then []
    else
      var t := Run(s.dec, segs[0]);
      Asked(s, t.out, src) + AskedInSegments(Segment(s, t, src), segs[1..], src)
  }

  /** The position after the first blank line of the 101 response, or 0. */
  function HeaderEnd(hs: seq<byte>): (h: nat)
    ensures h <= |hs|
    decreases |hs|
  {
    if |hs| < 4 then 0
    else if HeaderEnd(hs[..|hs| - 1]) > 0 then HeaderEnd(hs[..|hs| - 1])
    else if BlankLineAt(hs, |hs| - 4) then |hs| else 0
  }

  predicate BlankLineAt(hs: seq<byte>, i: nat)
    requires i + 4 <= |hs|
  {
    hs[i] == 13 && hs[i + 1] == 10 && hs[i + 2] == 13 && hs[i + 3] == 10
  }

  lemma {:induction false} HeaderEndStays(a: seq<byte>, b: seq<byte>)
    requires HeaderEnd(a) > 0
    ensures HeaderEnd(a + b) == HeaderEnd(a)
    decreases |b|
  {
    if b == [] {
      assert a + b == a;
    } else {
      assert (a + b)[..|a + b| - 1] == a + b[..|b| - 1];
      HeaderEndStays(a, b[..|b| - 1]);
    }
  }

  /** midi_ws_handshake_recv and the reset its caller adds on failure; `valid` is the check of
      the status line and accept key. */
  function HandshakeRecv(s: Sess, data: seq<byte>, valid: seq<byte> -> bool, src: nat): Sess {
    if |s.hs + data| > HANDSHAKE_MAX then Drop(s) else Respond(s.(hs := s.hs + data), valid, src)
  }

  /** What the response collected so far leads to. */
  function Respond(s: Sess, valid: seq<byte> -> bool, src: nat): Sess {
    var h := HeaderEnd(s.hs);
    if h == 0 then s
    else if !valid(s.hs[..h]) then Drop(s)
    else Upgraded(s, h, src)
  }

  function Upgraded(s: Sess, h: nat, src: nat): Sess
    requires h <= |s.hs|
  {
    if h == |s.hs| then s.(net := Up) else FirstFrames(s.(net := Up), Run(s.dec, s.hs[h..]), src)
  }

  /** The frame bytes that came in behind the response. */
  function FirstFrames(s: Sess, t: Trace, src: nat): Sess {
    if t.ok then Publish(Segment(s, t, src)) else Segment(s, t, src)
  }

  datatype Config = Config(ws: bool, valid: seq<byte> -> bool)

  /** midi_net_recv_cb with data. */
  function Recv(s: Sess, segs: seq<seq<byte>>, config: Config): Sess {
    if !config.ws then Publish(PushAll(s, Flatten(segs), s.era))
    else if s.net == Handshake then HandshakeRecv(s, Flatten(segs), config.valid, s.era)
    else if s.net == Up then
      var s' := Segments(s, segs, s.era);
      if s'.net == Up then Publish(s') else s'
    else s
  }

  /** The pings in the frames behind the response. */
  function AskedAtUpgrade(s: Sess, data: seq<byte>, valid: seq<byte> -> bool, src: nat): seq<seq<byte>> {
    if |s.hs + data| > HANDSHAKE_MAX then [] else AskedByResponse(s.(hs := s.hs + data), valid, src)
  }

  function AskedByResponse(s: Sess, valid: seq<byte> -> bool, src: nat): seq<seq<byte>> {
    var h := HeaderEnd(s.hs);
    if h == 0 || !valid(s.hs[..h]) then [] else AskedBehind(s, h, src)
  }

  function AskedBehind(s: Sess, h: nat, src: nat): seq<seq<byte>>
    requires h <= |s.hs|
  {
    if h == |s.hs| then [] else Asked(s.(net := Up), Run(s.dec, s.hs[h..]).out, src)
  }

  /** The pings of a receive that are to be answered. */
  function AskedInReceive(s: Sess, segs: seq<seq<byte>>, config: Config): seq<seq<byte>> {
    if !config.ws then []
    else if s.net == Handshake then AskedAtUpgrade(s, Flatten(segs), config.valid, s.era)
    else AskedInSegments(s, segs, s.era)
  }

  function PushAll(s: Sess, data: seq<byte>, src: nat): Sess {
    OnEvents(s, DataEvents(data), src)
  }

  datatype Happening =
    | LookUp                                    // a DNS query is outstanding
    | ConnectTo(made: bool, started: bool) // tcp_new, tcp_connect
    | Connected(written: bool)                  // TCP is up; the upgrade request was written
    | Lost                                      // peer close, error, failed lookup, reload
    | Received(segs: seq<seq<byte>>)
    | FromAtari(b: byte)
    | Advance
    | Drained(k: nat)                           // k bytes were handed to TCP
    | Cleanup(inStale: bool, outStale: bool)

  /** What lwIP and the callers guarantee about when an event can arise. */
  ghost predicate Enabled(s: Sess, h: Happening) {
    match h
    case LookUp => s.net == Down
    case ConnectTo(_, _) => s.net == Down || (s.net == Connecting && !s.pcb)
    case Connected(_) => s.net == Connecting && s.pcb
    case Received(_) => s.pcb && (s.net == Up || s.net == Handshake)
    case Drained(k) => k <= |s.outq| && (k > 0 ==> s.net == Up && s.pcb)
    case _ => true
  }

  function HandOver(s: Sess, k: nat): Sess
    requires k <= |s.outq|
  {
    s.(outq := s.outq[k..],
       handed := s.handed + seq(k, i requires 0 <= i < k => Handed(s.outq[i], s.era)))
  }

  function Queued(s: Sess, b: byte): Sess {
    if |s.outq| < QUEUE_SIZE - 1 then s.(outq := s.outq + [Cell(b, s.era)]) else s
  }

  function Happen(s: Sess, h: Happening, config: Config): Sess
    requires Enabled(s, h)
  {
    match h
    case LookUp => s.(net := Connecting)
    case ConnectTo(made, started) => if made && started then s.(net := Connecting, pcb := true) else Drop(s)
    case Connected(written) =>
      if !config.ws then s.(net := Up)
      else if written then s.(net := Handshake, dec := AtOp, hs := [])
      else Drop(s)
    case Lost => Drop(s)
    case Received(segs) => Recv(s, segs, config)
    case FromAtari(b) => Queued(s, b)
    case Advance => Publish(if s.inq == [] then s else s.(inq := s.inq[1..]))
    case Drained(k) => HandOver(s, k)
    case Cleanup(inStale, outStale) =>
      var s' := if inStale then Publish(s.(inq := [])) else s;
      if outStale then s'.(outq := []) else s'
  }

  lemma {:induction false} OnEventsSplit(s: Sess, a: seq<Event>, b: seq<Event>, src: nat)
    ensures OnEvents(s, a + b, src) == OnEvents(OnEvents(s, a, src), b, src)
    decreases |b|
  {
    if b == [] {
      assert a + b == a;
    } else {
      assert (a + b)[..|a + b| - 1] == a + b[..|b| - 1];
      OnEventsSplit(s, a, b[..|b| - 1], src);
    }
  }

  lemma {:induction false} AskedSplit(s: Sess, a: seq<Event>, b: seq<Event>, src: nat)
    ensures Asked(s, a + b, src) == Asked(s, a, src) + Asked(OnEvents(s, a, src), b, src)
    decreases |b|
  {
    if b == [] {
      assert a + b == a;
    } else {
      var front := b[..|b| - 1];
      assert (a + b)[..|a + b| - 1] == a + front;
      AskedSplit(s, a, front, src);
      OnEventsSplit(s, a, front, src);
    }
  }

  function Pings(events: seq<Event>): seq<seq<byte>>
    decreases |events|
  {
    if events == [] then []
    else
      var last := events[|events| - 1];
      Pings(events[..|events| - 1]) + if IsPing(last) then [last.payload] else []
  }

  /** While the link survives, every ping is to be answered. */
  lemma {:induction false} EveryPingAsked(s: Sess, events: seq<Event>, src: nat)
    requires s.pcb && !HasClose(events) && |s.inq| < QUEUE_SIZE
    ensures Asked(s, events, src) == Pings(events)
    decreases |events|
  {
    if events != [] {
      var front := events[..|events| - 1];
      assert forall i :: 0 <= i < |front| ==> front[i] == events[i];
      EveryPingAsked(s, front, src);
      CallbackEffect(s, front, src);
    }
  }

  // ---------------------------------------------------------------- no replay

  /** Nothing queued, shown or handed over comes from before the last drop. */
  ghost predicate Fresh(s: Sess) {
    && (forall c <- s.inq :: c.era == s.era)
    && (forall c <- s.outq :: c.era == s.era)
    && (forall x <- s.handed :: x.cell.era == x.era)
    && (s.net == Up || s.net == Handshake ==> s.pcb)
    && (s.net == Down ==> !s.pcb)
    && (s.net != Up ==> s.inq == [])
    && (s.shown.ready ==> s.inq != [] && s.shown.head == s.inq[0].b)
  }

  predicate HasClose(events: seq<Event>) {
    exists i :: 0 <= i < |events| && IsClose(events[i])
  }

  /** The data a segment carries after its last close frame. */
  function AfterClose(events: seq<Event>): seq<byte>
    decreases |events|
  {
    if events == [] then []
    else
      var last := events[|events| - 1];
      if last.Data? then AfterClose(events[..|events| - 1]) + [last.b]
      else if IsClose(last) then []
      else AfterClose(events[..|events| - 1])
  }

  function Cells(data: seq<byte>, era: nat): (r: seq<Cell>)
    ensures |r| == |data|
  {
    seq(|data|, i requires 0 <= i < |data| => Cell(data[i], era))
  }

  function Least(a: nat, b: nat): nat {
    if a < b then a else b
  }

  /** What the callbacks of one segment leave behind. Without a close they only append to
      the IN ring; after a close the ring holds exactly the data that followed it. */
  lemma {:induction false} CallbackEffect(s: Sess, events: seq<Event>, src: nat)
    requires |s.inq| < QUEUE_SIZE
    ensures var r := OnEvents(s, events, src);
            && |r.inq| < QUEUE_SIZE && r.handed == s.handed
            && if HasClose(events) then
                 var left := AfterClose(events);
                 && r.net == Down && !r.pcb && r.outq == [] && r.hs == [] && r.era > s.era && !r.shown.ready
                 && r.inq == Cells(left, src)[..Least(|left|, QUEUE_SIZE - 1)]
               else
                 && r == s.(inq := r.inq) && s.inq <= r.inq
                 && forall i :: |s.inq| <= i < |r.inq| ==> r.inq[i].era == src
    decreases |events|
  {
    if events != [] {
      var front, last := events[..|events| - 1], events[|events| - 1];
      CallbackEffect(s, front, src);
      assert events == front + [last];
      if HasClose(front) {
        var i :| 0 <= i < |front| && IsClose(front[i]);
        assert IsClose(events[i]);
      } else if IsClose(last) {
        assert IsClose(events[|events| - 1]);
      } else {
        assert forall i :: 0 <= i < |events| ==> events[i] == if i < |front| then front[i] else last;
      }
    }
  }

  /** Whether receiving these segments leaves bytes of the closed session in the IN ring: a
      well-formed segment in which data follows the last close. Every decoded segment is
      looked at, up to the first that has a close or does not decode. */
  predicate Leaks(d: Dec, segs: seq<seq<byte>>)
    decreases |segs|
  {
    if segs == [] then false
    else
      var t := Run(d, segs[0]);
      if !t.ok then false
      else if HasClose(t.out) then AfterClose(t.out) != []
      else Leaks(t.dec, segs[1..])
  }

  /** The same for the response that ends the handshake and the frames behind it. */
  predicate LeaksAtUpgrade(s: Sess, data: seq<byte>, valid: seq<byte> -> bool) {
    var hs := s.hs + data;
    var h := HeaderEnd(hs);
    |hs| <= HANDSHAKE_MAX && 0 < h && valid(hs[..h]) && Leaks(s.dec, [hs[h..]])
  }

  predicate Leak(s: Sess, h: Happening, config: Config) {
    h.Received? && config.ws &&
    if s.net == Up then Leaks(s.dec, h.segs)
    else s.net == Handshake && LeaksAtUpgrade(s, Flatten(h.segs), config.valid)
  }

  lemma SegmentFresh(s: Sess, t: Trace, src: nat)
    requires Fresh(s) && s.net == Up && src == s.era && |s.inq| < QUEUE_SIZE
    ensures var r := Segment(s, t, src);
            && |r.inq| < QUEUE_SIZE && r.era >= s.era && r.handed == s.handed
            && (Fresh(r) <==> !(t.ok && HasClose(t.out) && AfterClose(t.out) != []))
            && (r.net == Up <==> t.ok && !HasClose(t.out))
            && (r.net == Up ==> r.era == s.era && r.dec == t.dec)
            && (!Fresh(r) ==> r.inq != [] && r.inq[0].era == src < r.era)
            && (r.net != Up ==> !r.shown.ready)
  {
    CallbackEffect(s, t.out, src);
    var r := Segment(s, t, src);
    if t.ok && HasClose(t.out) && AfterClose(t.out) != [] {
      assert r.inq[0] == Cell(AfterClose(t.out)[0], src);
    }
  }

  lemma {:induction false} SegmentsFresh(s: Sess, segs: seq<seq<byte>>, src: nat)
    requires Fresh(s) && s.net == Up && src == s.era && |s.inq| < QUEUE_SIZE
    ensures var r := Segments(s, segs, src);
            && |r.inq| < QUEUE_SIZE && r.handed == s.handed
            && (Fresh(r) <==> !Leaks(s.dec, segs))
            && (!Fresh(r) ==> r.net != Up && r.inq != [] && r.inq[0].era == src < r.era)
            && (r.net != Up ==> !r.shown.ready)
    decreases |segs|
  {
    if segs != [] {
      var t := Run(s.dec, segs[0]);
      SegmentFresh(s, t, src);
      var s' := Segment(s, t, src);
      if s'.net == Up {
        SegmentsFresh(s', segs[1..], src);
      }
    }
  }

  lemma {:induction false} PushAllFresh(s: Sess, data: seq<byte>)
    requires Fresh(s) && s.net == Up && |s.inq| < QUEUE_SIZE
    ensures var r := PushAll(s, data, s.era);
            Fresh(r) && |r.inq| < QUEUE_SIZE
  {
    CallbackEffect(s, DataEvents(data), s.era);
  }

  lemma LeaksOnce(d: Dec, seg: seq<byte>)
    ensures var t := Run(d, seg);
            Leaks(d, [seg]) <==> t.ok && HasClose(t.out) && AfterClose(t.out) != []
  {
    assert [seg][1..] == [];
  }

  /** Receiving keeps the rings free of old bytes exactly when no data follows a close. */
  lemma ReceivedFresh(s: Sess, segs: seq<seq<byte>>, config: Config)
    requires Fresh(s) && |s.inq| < QUEUE_SIZE && Enabled(s, Received(segs))
    requires !config.ws ==> s.net == Up
    ensures var r := Happen(s, Received(segs), config);
            && |r.inq| < QUEUE_SIZE
            && (Fresh(r) <==> !Leak(s, Received(segs), config))
  {
    if !config.ws {
      PushAllFresh(s, Flatten(segs));
    } else if s.net == Up {
      SegmentsFresh(s, segs, s.era);
    } else {
      var hs := s.hs + Flatten(segs);
      var h := HeaderEnd(hs);
      if |hs| <= HANDSHAKE_MAX && 0 < h && config.valid(hs[..h]) {
        var up := s.(hs := hs, net := Up);
        var t := Run(s.dec, hs[h..]);
        LeaksOnce(s.dec, hs[h..]);
        if h < |hs| {
          SegmentFresh(up, t, s.era);
        } else {
          assert hs[h..] == [];
        }
      }
    }
  }

  /** Every other event keeps them so unconditionally. */
  lemma OthersFresh(s: Sess, h: Happening, config: Config)
    requires Fresh(s) && |s.inq| < QUEUE_SIZE && Enabled(s, h) && !h.Received?
    ensures var r := Happen(s, h, config);
            Fresh(r) && |r.inq| < QUEUE_SIZE
  {
  }

  /** One segment either leaves the link up, only adding to the IN ring, or drops it with the
      OUT ring empty and no byte shown; bytes are left only when data follows a close. */
  lemma SegmentDrops(s: Sess, t: Trace, src: nat)
    requires s.net == Up && |s.inq| < QUEUE_SIZE
    ensures var r := Segment(s, t, src);
            && |r.inq| < QUEUE_SIZE
            && if t.ok && !HasClose(t.out) then r == s.(inq := r.inq, dec := t.dec)
               else Gone(s, r) && (r.inq == [] <==> !(t.ok && HasClose(t.out) && AfterClose(t.out) != []))
  {
    CallbackEffect(s, t.out, src);
  }

  /** The link of s is lost in r: down, no connection, nothing left to send, no byte shown. */
  predicate Gone(s: Sess, r: Sess) {
    r.net == Down && !r.pcb && r.outq == [] && r.hs == [] && r.era > s.era && !r.shown.ready
  }

  lemma {:induction false} SegmentsDrop(s: Sess, segs: seq<seq<byte>>, src: nat)
    requires s.net == Up && |s.inq| < QUEUE_SIZE
    ensures var r := Segments(s, segs, src);
            && |r.inq| < QUEUE_SIZE
            && if r.net == Up then r == s.(inq := r.inq, dec := FeedAll(s.dec, segs).dec)
               && FeedAll(s.dec, segs).ok && !Leaks(s.dec, segs)
               else Gone(s, r) && (r.inq == [] <==> !Leaks(s.dec, segs))
    decreases |segs|
  {
    if segs != [] {
      var t := Run(s.dec, segs[0]);
      SegmentDrops(s, t, src);
      var s' := Segment(s, t, src);
      if s'.net == Up {
        SegmentsDrop(s', segs[1..], src);
      }
    }
  }

  /** The same for the bytes that complete the handshake. */
  lemma HandshakeDrops(s: Sess, data: seq<byte>, valid: seq<byte> -> bool)
    requires s.net == Handshake && |s.inq| < QUEUE_SIZE
    ensures var r := HandshakeRecv(s, data, valid, s.era);
            && |r.inq| < QUEUE_SIZE
            && if r.era == s.era then r.pcb == s.pcb && r.net in {Handshake, Up} && !LeaksAtUpgrade(s, data, valid)
               else
                 && r.net == Down && !r.pcb && r.outq == [] && r.hs == []
                 && (r.inq == [] && !r.shown.ready <==> !LeaksAtUpgrade(s, data, valid))
  {
    var hs := s.hs + data;
    var h := HeaderEnd(hs);
    if |hs| <= HANDSHAKE_MAX && 0 < h && valid(hs[..h]) {
      LeaksOnce(s.dec, hs[h..]);
      if h < |hs| {
        SegmentDrops(s.(hs := hs, net := Up), Run(s.dec, hs[h..]), s.era);
      } else {
        assert hs[h..] == [];
      }
    }
  }

  /** Each way of losing the link, a close, a protocol error or a refused upgrade inside a
      receive included, leaves it down without a connection and the OUT ring empty; it
      leaves the IN ring empty and shows "no byte" exactly when no data follows a close. */
  lemma DropIsClean(s: Sess, h: Happening, config: Config)
    requires Enabled(s, h) && |s.inq| < QUEUE_SIZE && (!config.ws ==> s.net != Handshake)
    ensures var r := Happen(s, h, config);
            r.era != s.era ==>
              && r.net == Down && !r.pcb && r.outq == [] && r.hs == []
              && (r.inq == [] && !r.shown.ready <==> !Leak(s, h, config))
              && (!h.Received? ==> r.dec == AtOp)
  {
    if h.Received? {
      if !config.ws {
        CallbackEffect(s, DataEvents(Flatten(h.segs)), s.era);
      } else if s.net == Up {
        SegmentsDrop(s, h.segs, s.era);
      } else {
        HandshakeDrops(s, Flatten(h.segs), config.valid);
      }
    }
  }

  function Play(s: Sess, run: seq<Happening>, config: Config): (r: Sess)
    requires Playable(s, run, config)
    decreases |run|
  {
    if run == [] then s else Play(Happen(s, run[0], config), run[1..], config)
  }

  ghost predicate Playable(s: Sess, run: seq<Happening>, config: Config)
    decreases |run|
  {
    run == [] || (Enabled(s, run[0]) && Playable(Happen(s, run[0], config), run[1..], config))
  }

  /** The server stops talking after it has sent a close: no step of the run leaks. */
  ghost predicate QuietAfterClose(s: Sess, run: seq<Happening>, config: Config)
    requires Playable(s, run, config)
    decreases |run|
  {
    run == [] || (!Leak(s, run[0], config) && QuietAfterClose(Happen(s, run[0], config), run[1..], config))
  }

  /** UP or shaking hands only with a connection; shaking hands only over WebSocket. */
  ghost predicate Carrier(s: Sess, config: Config) {
    && (s.net == Up || s.net == Handshake ==> s.pcb) && (s.net == Down ==> !s.pcb)
    && (s.net == Handshake ==> config.ws)
  }

  lemma CarrierKept(s: Sess, h: Happening, config: Config)
    requires Carrier(s, config) && Enabled(s, h)
    requires |s.inq| < QUEUE_SIZE
    ensures Carrier(Happen(s, h, config), config)
  {
    if h.Received? {
      if !config.ws {
        CallbackEffect(s, DataEvents(Flatten(h.segs)), s.era);
      } else if s.net == Up {
        SegmentsDrop(s, h.segs, s.era);
      } else {
        HandshakeDrops(s, Flatten(h.segs), config.valid);
      }
    }
  }

  /** No replay: over every run in which the server honours its close, whatever drops and
      reconnects happen, each byte handed to a session entered the OUT ring after the
      previous session ended, the IN ring holds only bytes of the current session and is
      empty outside one, and the Atari is never shown a byte that is not at its head. */
  lemma {:induction false} NoReplay(s: Sess, run: seq<Happening>, config: Config)
    requires Fresh(s) && |s.inq| < QUEUE_SIZE && Carrier(s, config)
    requires Playable(s, run, config) && QuietAfterClose(s, run, config)
    ensures Fresh(Play(s, run, config))
    decreases |run|
  {
    if run != [] {
      var s' := Happen(s, run[0], config);
      if run[0].Received? {
        ReceivedFresh(s, run[0].segs, config);
      } else {
        OthersFresh(s, run[0], config);
      }
      CarrierKept(s, run[0], config);
      NoReplay(s', run[1..], config);
    }
  }

  const UPGRADE: seq<byte> := [13, 10, 13, 10]
  const CLOSE_THEN_DATA: seq<byte> := [0x88, 0x00, 0x82, 0x01, 0x90]

  /** The condition is needed: from boot, a connection whose server sends a close and one data
      frame in the same segment leaves a byte of the dead session in the IN ring. */
  lemma CloseThenDataLeaks()
    ensures var config := Config(true, _ => true);
            var run := [ConnectTo(true, true), Connected(true), Received([UPGRADE]), Received([CLOSE_THEN_DATA])];
            && Playable(INITIAL, run, config)
            && var r := Play(INITIAL, run, config);
               r.net == Down && r.era == 1 && r.inq == [Cell(0x90, 0)] && !Fresh(r)
  {
    var config := Config(true, _ => true);
    var shaking := INITIAL.(net := Handshake, pcb := true);
    var up := shaking.(net := Up, hs := UPGRADE);
    FourBytes();
    assert Flatten([UPGRADE]) == UPGRADE + [] == UPGRADE by { assert [UPGRADE][1..] == []; }
    assert [] + UPGRADE == UPGRADE;
    assert Happen(shaking, Received([UPGRADE]), config) == up;
    LeakStep(up);
    var r := Happen(up, Received([CLOSE_THEN_DATA]), config);
    PlayFour(INITIAL, ConnectTo(true, true), INITIAL.(net := Connecting, pcb := true), Connected(true), shaking,
             Received([UPGRADE]), up, Received([CLOSE_THEN_DATA]), r, config);
  }

  lemma FourBytes()
    ensures HeaderEnd(UPGRADE) == 4
  {
    assert |UPGRADE[..3]| < 4;
  }

  lemma LeakStep(up: Sess)
    requires up.net == Up && up.inq == [] && up.dec == AtOp && up.era == 0
    ensures var r := Segments(up, [CLOSE_THEN_DATA], 0);
            r.net == Down && r.era == 1 && r.inq == [Cell(0x90, 0)]
  {
    FiveBytes(CLOSE_THEN_DATA);
    var out := [Control(8, []), Data(0x90)];
    assert out[..1] == [Control(8, [])] && out[..1][..0] == [];
    assert OnEvents(up, out, 0) == OnEvent(OnEvent(up, Control(8, []), 0), Data(0x90), 0);
    assert Segments(up, [CLOSE_THEN_DATA], 0) == Segment(up, Run(AtOp, CLOSE_THEN_DATA), 0) by {
      assert [CLOSE_THEN_DATA][1..] == [];
    }
  }

  lemma PlayFour(s: Sess, h1: Happening, s1: Sess, h2: Happening, s2: Sess, h3: Happening, s3: Sess, h4: Happening,
                 s4: Sess, config: Config)
    requires Enabled(s, h1) && s1 == Happen(s, h1, config) && Enabled(s1, h2) && s2 == Happen(s1, h2, config)
    requires Enabled(s2, h3) && s3 == Happen(s2, h3, config) && Enabled(s3, h4) && s4 == Happen(s3, h4, config)
    ensures Playable(s, [h1, h2, h3, h4], config) && Play(s, [h1, h2, h3, h4], config) == s4
  {
    assert [h1, h2, h3, h4][1..] == [h2, h3, h4] && [h2, h3, h4][1..] == [h3, h4]
           && [h3, h4][1..] == [h4] && [h4][1..] == [];
    assert Playable(s3, [h4], config) && Play(s3, [h4], config) == s4;
    assert Playable(s2, [h3, h4], config) && Play(s2, [h3, h4], config) == s4;
    assert Playable(s1, [h2, h3, h4], config) && Play(s1, [h2, h3, h4], config) == s4;
  }

  lemma FiveBytes(seg: seq<byte>)
    requires seg == [0x88, 0x00, 0x82, 0x01, 0x90]
    ensures Run(AtOp, seg) == Trace(AtOp, [Control(8, []), Data(0x90)], true)
  {
    assert seg[1..] == [0x00, 0x82, 0x01, 0x90];
    assert seg[1..][1..] == [0x82, 0x01, 0x90];
    OneByteFrame();
  }

  lemma OneByteFrame()
    ensures Run(AtOp, [0x82, 0x01, 0x90]) == Trace(AtOp, [Data(0x90)], true)
  {
    var seg: seq<byte> := [0x82, 0x01, 0x90];
    assert seg[1..] == [0x01, 0x90] && seg[1..][1..] == [0x90] && seg[1..][1..][1..] == [];
    assert Run(AtPayload(2, 1, []), [0x90]) == Trace(AtOp, [Data(0x90)], true);
  }
}
