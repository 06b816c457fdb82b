/** The MIDI byte pipe of the cartridge (rp/src/midi.c): two rings, the link to the
    orchestrator and the longwords shared with the Atari. Each handler is tied to the
    session machine by View(). */
module MidiPipe {
  import opened Arithmetic
  import opened Bytes
  import opened DeviceWs
  import opened Session
  import opened ByteRing
  import opened InRing
  import opened Drain
  import FrameCodec

  const TX_CHUNK: nat := 1024
  const STALE_US: int := 1_000_000
  const CHAR_READY: nat := 0xFFFF_FFFF

  predicate Bit(n: nat, k: nat) {
    n / Pow2(k) % 2 == 1
  }

  /** What a cartridge-bus sample asks for: bit 10 closes the gate, else bit 9 consumes an IN
      byte, else bit 8 carries an OUT byte in the low eight bits. */
  datatype Routed = NotMidi | CloseGate | ConsumeByte | CarryByte(b: byte)

  function Route(active: bool, sample: nat): Routed {
    if !active then NotMidi
    else if Bit(sample, 10) then CloseGate
    else if Bit(sample, 9) then ConsumeByte
    else if Bit(sample, 8) then CarryByte(sample % 0x100)
    else NotMidi
  }

  function OnSample(s: Sess, r: Routed, config: Config): Sess {
    match r
    case ConsumeByte => Happen(s, Advance, config)
    case CarryByte(b) => Happen(s, FromAtari(b), config)
    case _ => s
  }

  /** How the orchestrator's host name resolved. */
  datatype Lookup = Literal | Cached | InProgress | LookupFailed

  function Attempt(s: Sess, lookup: Lookup, made: bool, started: bool): Sess {
    match lookup
    case InProgress => s.(net := Connecting)
    case LookupFailed => Drop(s)
    case _ => if made && started then s.(net := Connecting, pcb := true) else Drop(s)
  }

  /** A queue that holds bytes and has not moved for more than a second. */
  predicate Stale(contents: seq<byte>, last: int, now: int) {
    contents != [] && now - last > STALE_US
  }

  /** A longword store into the shared region, in the order the Atari can observe them. */
  datatype Store = Buffer(head: byte) | Status(ready: bool) | Ack(count: nat)

  /** Byte first, then status: the Atari spins on the status before it reads the byte. */
  function PublishStores(inq: seq<byte>): seq<Store> {
    if inq == [] then [Buffer(0), Status(false)] else [Buffer(inq[0]), Status(true)]
  }

  /** A frame given to TCP, and whether TCP took it. */
  datatype Answer = Answer(sent: FrameCodec.Sent, taken: bool)

  function Offers(answers: seq<Answer>): (r: seq<Offer>)
    ensures |r| == |answers|
  {
    seq(|answers|, i requires 0 <= i < |answers| => Offer(FrameCodec.WireOf(answers[i].sent), answers[i].taken))
  }

  /** The frames that got through. */
  function Taken(answers: seq<Answer>): seq<FrameCodec.Sent>
    decreases |answers|
  {
    if answers == [] then []
    else (if answers[0].taken then [answers[0].sent] else []) + Taken(answers[1..])
  }

  /** A pong that carries the ping's payload back, masked. */
  predicate IsPong(s: FrameCodec.Sent, ping: seq<byte>) {
    s.key.Some? && s.frame == FrameCodec.Frame(FrameCodec.OP_PONG, ping) && |ping| <= 125
  }

  /** One pong for each ping asked, in order. */
  predicate Pongs(answers: seq<Answer>, asked: seq<seq<byte>>) {
    |answers| == |asked| && forall i :: 0 <= i < |asked| ==> IsPong(answers[i].sent, asked[i])
  }

  /** A control frame is stored whole, so it is at most 125 bytes long. */
  predicate ShortCall(call: Call) {
    call.OnCtl? ==> |call.payload| <= 125
  }

  /** What has been written to a connection. */
  datatype Written = Written(offers: seq<Offer>, wire: seq<byte>)

  ghost function LogOf(c: Tcp?): Written
    reads if c == null then {} else {c}
  {
    if c == null then Written([], []) else Written(c.offers, c.wire)
  }

  /** From one log to the next one pong for each ping asked, and nothing else, was given to the
      connection; those it took are on the wire. */
  ghost predicate Served(before: Written, after: Written, answers: seq<Answer>, asked: seq<seq<byte>>) {
    && Pongs(answers, asked)
    && after.offers == before.offers + Offers(answers)
    && after.wire == before.wire + Flatten(FrameCodec.Wires(Taken(answers)))
  }

  /** The TCP connection: the window and the success of a write are up to lwIP, which takes
      a write whole or not at all. */
  class Tcp {
    var window: nat
    ghost var wire: seq<byte>
    ghost var offers: seq<Offer>  // every write, and whether it was taken
    ghost var windows: seq<nat>   // every window reported

    constructor ()
      ensures wire == [] && offers == [] && windows == []
    {
      window, wire, offers, windows := 0, [], [], [];
    }

    method SndBuf() returns (w: nat)
      modifies this`window, this`windows
      ensures w == window <= 0xFFFF && windows == old(windows) + [w]
    {
      w :| 0 <= w <= 0xFFFF;
      window := w;
      windows := windows + [w];
    }

    method Write(data: seq<byte>) returns (ok: bool)
      modifies this`wire, this`offers
      ensures wire == if ok then old(wire) + data else old(wire)
      ensures offers == old(offers) + [Offer(data, ok)]
    {
      ok := *;
      offers := offers + [Offer(data, ok)];
      if ok {
        wire := wire + data;
      }
    }
  }

  ghost function Zip(bytes: seq<byte>, eras: seq<nat>): (r: seq<Cell>)
    requires |bytes| == |eras|
    ensures |r| == |bytes|
  {
    seq(|bytes|, i requires 0 <= i < |bytes| => Cell(bytes[i], eras[i]))
  }

  function PiecesOf(frames: seq<FrameCodec.Sent>): (r: seq<seq<byte>>)
    ensures |r| == |frames|
  {
    seq(|frames|, i requires 0 <= i < |frames| => frames[i].frame.payload)
  }

  function Payloads(frames: seq<FrameCodec.Sent>): seq<byte> {
    if frames == [] then [] else frames[0].frame.payload + Payloads(frames[1..])
  }

  /** The frames a drain produces: masked, binary, not empty, at most a chunk long. */
  ghost predicate DrainFrames(frames: seq<FrameCodec.Sent>) {
    forall f <- frames ::
      f.frame.opcode == FrameCodec.OP_BINARY && f.key.Some? && 0 < |f.frame.payload| <= TX_CHUNK
  }

  lemma ZipPush(bytes: seq<byte>, eras: seq<nat>, b: byte, e: nat)
    requires |bytes| == |eras|
    ensures Zip(bytes + [b], eras + [e]) == Zip(bytes, eras) + [Cell(b, e)]
  {
  }

  /** Cells appended are their bytes appended. */
  lemma ZipAdds(bytes: seq<byte>, eras: seq<nat>, more: seq<byte>, moreEras: seq<nat>, data: seq<byte>, era: nat)
    requires |bytes| == |eras| && |more| == |moreEras|
    requires Zip(more, moreEras) == Zip(bytes, eras) + Cells(data, era)
    ensures more == bytes + data
  {
    forall i | 0 <= i < |more|
      ensures more[i] == (bytes + data)[i]
    {
      assert Zip(more, moreEras)[i].b == more[i];
    }
  }

  lemma ZipDrop(bytes: seq<byte>, eras: seq<nat>, n: nat)
    requires |bytes| == |eras| && n <= |bytes|
    ensures Zip(bytes[n..], eras[n..]) == Zip(bytes, eras)[n..]
  {
  }

  /** All four bytes of the published longword are the head byte; Bconin keeps the low one. */
  lemma BufferShows(head: byte)
    ensures head * 0x01010101 % 256 == head
  {
  }

  /** Samples on the bus, bit by bit: bit 10 before bit 9 before bit 8, the byte below. */
  lemma RouteByBits(high: nat, close: bool, consume: bool, carry: bool, b: byte)
    ensures var sample := 2048 * high + (if close then 1024 else 0) + (if consume then 512 else 0)
                          + (if carry then 256 else 0) + b;
            && Route(true, sample) == (if close then CloseGate else if consume then ConsumeByte
                                       else if carry then CarryByte(b) else NotMidi)
            && Route(false, sample) == NotMidi
  {
    var sample := 2048 * high + (if close then 1024 else 0) + (if consume then 512 else 0)
                  + (if carry then 256 else 0) + b;
    PowersUsed();
    FieldsOf(high, if close then 1 else 0, if consume then 1 else 0, if carry then 1 else 0, b);
  }

  lemma FieldsOf(high: nat, b10: nat, b9: nat, b8: nat, low: nat)
    requires b10 < 2 && b9 < 2 && b8 < 2 && low < 256
    ensures var n := 2048 * high + 1024 * b10 + 512 * b9 + 256 * b8 + low;
            n / 1024 % 2 == b10 && n / 512 % 2 == b9 && n / 256 % 2 == b8 && n % 256 == low
  {
    var n := 2048 * high + 1024 * b10 + 512 * b9 + 256 * b8 + low;
    FieldIs(n, 1024, 2 * high + b10, high, b10, 512 * b9 + 256 * b8 + low);
    FieldIs(n, 512, 4 * high + 2 * b10 + b9, 2 * high + b10, b9, 256 * b8 + low);
    FieldIs(n, 256, 8 * high + 4 * b10 + 2 * b9 + b8, 4 * high + 2 * b10 + b9, b8, low);
  }

  lemma FieldIs(n: nat, d: nat, q: nat, half: nat, b: nat, rest: nat)
    requires rest < d && n == d * q + rest && q == 2 * half + b && b < 2
    ensures n / d % 2 == b && n % d == rest
  {
    Quotient(n, d, q, rest);
  }

  lemma PowersUsed()
    ensures Pow2(8) == 256 && Pow2(9) == 512 && Pow2(10) == 1024
  {
    Pow2Eight();
  }

  method FindHeaderEnd(hs: seq<byte>) returns (h: nat)
    ensures h == HeaderEnd(hs)
  {
    var i := 0;
    while i + 4 <= |hs|
      invariant i + 3 <= |hs| || i == 0
      invariant i + 3 <= |hs| ==> HeaderEnd(hs[..i + 3]) == 0
    {
      assert hs[..i + 4][..i + 3] == hs[..i + 3] && BlankLineAt(hs[..i + 4], i) == BlankLineAt(hs, i);
      if BlankLineAt(hs, i) {
        HeaderEndStays(hs[..i + 4], hs[i + 4..]);
        assert hs[..i + 4] + hs[i + 4..] == hs;
        return i + 4;
      }
      i := i + 1;
    }
    assert i + 3 <= |hs| ==> hs[..i + 3] == hs;
    return 0;
  }

  class Pipe {
    const inRing: Ring
    const outRing: Ring
    const dec: Decoder
    const wsTx: array<byte>
    const config: Config
    var inLastDrain: int
    var outLastDrain: int
    var inAck: nat
    var active: bool
    var net: Net
    var pcb: Tcp?
    var hs: seq<byte>
    var romStatus: nat
    var romBuffer: nat
    var romAck: nat
    ghost var stores: seq<Store>
    ghost var inEras: seq<nat>
    ghost var outEras: seq<nat>
    ghost var handed: seq<Handed>
    ghost var era: nat

    ghost function Parts(): set<object> {
      {this, inRing, inRing.slots, outRing, outRing.slots, dec, dec.ctl, wsTx}
    }

    ghost predicate Valid()
      reads Parts()
    {
      && inRing.Valid() && outRing.Valid() && dec.Valid()
      && inRing != outRing && inRing.slots != outRing.slots
      && inRing.slots != dec.ctl && inRing.slots != wsTx
      && outRing.slots != dec.ctl && outRing.slots != wsTx && dec.ctl != wsTx
      && wsTx.Length == TX_CHUNK + FRAME_OVERHEAD
      && |inEras| == |inRing.contents| && |outEras| == |outRing.contents|
    }

    ghost function View(): Sess
      reads Parts()
      requires Valid()
    {
      Sess(net, pcb != null, Zip(inRing.contents, inEras), Zip(outRing.contents, outEras), handed, era,
           Published(romStatus != 0, romBuffer % 256), dec.View(), hs)
    }

    /** midi_init. */
    constructor (config: Config, now: int)
      ensures Valid() && View() == INITIAL && this.config == config && !active && romAck == 0
    {
      inRing := new Ring();
      outRing := new Ring();
      dec := new Decoder();
      wsTx := new byte[TX_CHUNK + FRAME_OVERHEAD];
      this.config := config;
      inLastDrain, outLastDrain := now, now;
      inAck, active, net, pcb, hs := 0, false, Down, null, [];
      romStatus, romBuffer, romAck := 0, 0, 0;
      stores, inEras, outEras, handed, era := [], [], [], [], 0;
    }

    /** The connection object, when there is one. */
    ghost function Link(): set<object>
      reads this
    {
      if pcb == null then {} else {pcb}
    }

    /** midi_in_push; `src` is the era the byte was received in. */
    method InPush(b: byte, ghost src: nat, now: int)
      requires Valid()
      modifies this`inLastDrain, this`inEras, inRing, inRing.slots
      ensures Valid()
      ensures View() == Push(old(View()), b, src)
      ensures var was := old(inRing.contents);
              && inRing.contents == (if |was| < 16383 then was + [b] else was)
              && inLastDrain == if was == [] then now else old(inLastDrain)
    {
      var wasEmpty := inRing.Empty();
      ZipPush(inRing.contents, inEras, b, src);
      var ok := inRing.Push(b);
      if ok {
        inEras := inEras + [src];
        if wasEmpty {
          inLastDrain := now;
        }
      }
    }

    /** midi_in_publish. */
    method InPublish()
      requires Valid()
      modifies this`romStatus, this`romBuffer, this`stores
      ensures Valid()
      ensures View() == Publish(old(View()))
      ensures stores == old(stores) + PublishStores(inRing.contents)
      ensures romStatus != 0 <==> inRing.contents != []
      ensures inRing.contents != [] ==> romBuffer % 256 == inRing.contents[0]
    {
      if inRing.Empty() {
        Show(0, false);
      } else {
        var head := inRing.Head();
        Show(head, true);
      }
    }

    method Show(head: byte, ready: bool)
      requires Valid()
      modifies this`romStatus, this`romBuffer, this`stores
      ensures Valid() && View() == old(View()).(shown := Published(ready, head))
      ensures (romStatus != 0 <==> ready) && romBuffer % 256 == head
      ensures stores == old(stores) + [Buffer(head), Status(ready)]
    {
      BufferShows(head);
      romBuffer := head * 0x01010101;
      romStatus := if ready then CHAR_READY else 0;
      stores := stores + [Buffer(head), Status(ready)];
    }

    /** midi_net_flush_all without the decoder: drop every queued byte, IN and OUT. */
    method FlushQueues(now: int)
      requires Valid()
      modifies this, inRing, outRing
      ensures Valid() && net == old(net) && pcb == old(pcb)
      ensures View() == Publish(old(View()).(inq := [], outq := [], hs := []))
      ensures stores == old(stores) + PublishStores([])
    {
      DropIn();
      DropOut();
      inLastDrain, outLastDrain := now, now;
      hs := [];
    }

    method DropIn()
      requires Valid()
      modifies this`inEras, this`romStatus, this`romBuffer, this`stores, inRing
      ensures Valid() && View() == Publish(old(View()).(inq := []))
      ensures stores == old(stores) + PublishStores([])
    {
      inRing.Flush();
      inEras := [];
      InPublish();
    }

    method DropOut()
      requires Valid()
      modifies this`outEras, outRing
      ensures Valid() && View() == old(View()).(outq := [])
    {
      outRing.Flush();
      outEras := [];
    }

    /** midi_net_reset from inside the close callback. */
    method ResetInCallback(now: int)
      requires Valid()
      modifies this, inRing, outRing
      ensures Valid() && pcb == null
      ensures View() == DropInCallback(old(View()))
      ensures stores == old(stores) + PublishStores([])
    {
      pcb := null;
      FlushQueues(now);
      net := Down;
      era := era + 1;
    }

    /** midi_net_reset and midi_net_err_cb: they differ only in who frees the connection. */
    method Reset(now: int)
      requires Valid()
      modifies this, inRing, outRing, dec, dec.ctl
      ensures Valid()
      ensures View() == Drop(old(View()))
      ensures stores == old(stores) + PublishStores([])
    {
      ResetInCallback(now);
      dec.Init();
    }

    /** midi_ws_send_frame: a frame TCP refuses is lost, which only pongs can be. */
    method SendFrame(opcode: nat, payload: seq<byte>) returns (ghost answers: seq<Answer>)
      requires Valid()
      modifies wsTx, Link()
      ensures Valid() && View() == old(View())
      ensures if pcb == null then answers == []
              else
                && |answers| == 1 && answers[0].sent.key.Some?
                && answers[0].sent.frame == FrameCodec.Frame(opcode, payload[..Least(|payload|, TX_CHUNK)])
                && pcb.offers == old(pcb.offers) + Offers(answers)
                && pcb.wire == old(pcb.wire) + Flatten(FrameCodec.Wires(Taken(answers)))
    {
      answers := [];
      if pcb == null {
        return;
      }
      var data := payload[..Least(|payload|, TX_CHUNK)];
      var k: Mask := *;
      var flen := BuildFrame(wsTx, opcode, data, k);
      var ok := pcb.Write(wsTx[..flen]);
      ghost var sent := FrameCodec.Sent(FrameCodec.Frame(opcode, data), Some(k));
      answers := [Answer(sent, ok)];
      OneAnswer(sent, ok);
    }

    /** midi_ws_on_data. */
    method OnDataRun(run: seq<byte>, ghost src: nat, now: int)
      requires Valid()
      modifies this`inLastDrain, this`inEras, inRing, inRing.slots
      ensures Valid()
      ensures View() == OnEvents(old(View()), DataEvents(run), src)
    {
      ghost var s := View();
      assert DataEvents(run[..0]) == [];
      for i := 0 to |run|
        invariant Valid()
        invariant View() == OnEvents(s, DataEvents(run[..i]), src)
      {
        ghost var events := DataEvents(run[..i + 1]);
        assert events[..|events| - 1] == DataEvents(run[..i]) && events[|events| - 1] == Data(run[i]);
        InPush(run[i], src, now);
      }
      assert run[..|run|] == run;
    }

    /** midi_ws_on_ctl: answer a ping, obey a close, ignore the rest. The connection c may be
        gone by now. */
    method OnControl(opcode: nat, payload: seq<byte>, ghost src: nat, now: int, ghost c: Tcp?)
      returns (ghost answers: seq<Answer>)
      requires Valid() && |payload| <= 125 && (pcb == null || pcb == c)
      modifies this, inRing, outRing, wsTx, Link()
      ensures Valid() && (pcb == null || pcb == c)
      ensures View() == OnEvents(old(View()), [Control(opcode, payload)], src)
      ensures Served(old(LogOf(c)), LogOf(c), answers, Asked(old(View()), [Control(opcode, payload)], src))
    {
      ghost var e := [Control(opcode, payload)];
      assert e[..0] == [];
      answers := [];
      NoAnswers(LogOf(c));
      if opcode == FrameCodec.OP_PING {
        answers := SendFrame(FrameCodec.OP_PONG, payload);
        assert payload[..|payload|] == payload;
      } else if opcode == FrameCodec.OP_CLOSE {
        ResetInCallback(now);
      }
    }

    method Callback(call: Call, ghost src: nat, now: int, ghost c: Tcp?) returns (ghost answers: seq<Answer>)
      requires Valid() && ShortCall(call) && (pcb == null || pcb == c)
      modifies this, inRing, inRing.slots, outRing, wsTx, Link()
      ensures Valid() && (pcb == null || pcb == c)
      ensures View() == OnEvents(old(View()), EventsOf([call]), src)
      ensures Served(old(LogOf(c)), LogOf(c), answers, Asked(old(View()), EventsOf([call]), src))
    {
      EventsOfOne(call);
      match call {
        case OnData(run) =>
          DataAsksNothing(View(), run, src);
          NoAnswers(LogOf(c));
          OnDataRun(run, src, now);
          answers := [];
        case OnCtl(opcode, payload) =>
          answers := OnControl(opcode, payload, src, now, c);
      }
    }

    /** The callbacks of one segment, in order. Every ping that finds the connection is
        answered on it, and nothing else is written. */
    method Dispatch(calls: seq<Call>, ghost src: nat, now: int) returns (ghost answers: seq<Answer>)
      requires Valid() && forall call <- calls :: ShortCall(call)
      modifies this, inRing, inRing.slots, outRing, wsTx, Link()
      ensures Valid() && (pcb == null || pcb == old(pcb))
      ensures View() == OnEvents(old(View()), EventsOf(calls), src)
      ensures Served(old(LogOf(pcb)), LogOf(old(pcb)), answers, Asked(old(View()), EventsOf(calls), src))
    {
      ghost var s, c, log := View(), pcb, LogOf(pcb);
      answers := [];
      NoAnswers(log);
      for k := 0 to |calls|
        invariant Valid() && (pcb == null || pcb == c)
        invariant View() == OnEvents(s, EventsOf(calls[..k]), src)
        invariant Served(log, LogOf(c), answers, Asked(s, EventsOf(calls[..k]), src))
      {
        NextCall(calls, k);
        answers := DispatchOne(calls[k], EventsOf(calls[..k]), s, src, now, c, log, answers);
      }
      assert calls[..|calls|] == calls;
    }

    /** The next callback of a segment, on the connection c if it is still there. */
    method DispatchOne(call: Call, ghost done: seq<Event>, ghost s: Sess, ghost src: nat, now: int,
                       ghost c: Tcp?, ghost log: Written, ghost before: seq<Answer>)
      returns (ghost answers: seq<Answer>)
      requires Valid() && ShortCall(call) && View() == OnEvents(s, done, src)
      requires (pcb == null || pcb == c) && Served(log, LogOf(c), before, Asked(s, done, src))
      modifies this, inRing, inRing.slots, outRing, wsTx, Link()
      ensures Valid() && (pcb == null || pcb == c)
      ensures View() == OnEvents(s, done + EventsOf([call]), src)
      ensures Served(log, LogOf(c), answers, Asked(s, done + EventsOf([call]), src))
    {
      ghost var events, now0, mid := EventsOf([call]), View(), LogOf(c);
      OnEventsSplit(s, done, events, src);
      AskedSplit(s, done, events, src);
      ghost var pongs := Callback(call, src, now, c);
      ServedTwice(log, mid, LogOf(c), before, Asked(s, done, src), pongs, Asked(now0, events, src));
      answers := before + pongs;
    }

    /** One segment through midi_ws_decode; a protocol error resets the link. */
    method DecodeSegment(seg: seq<byte>, ghost src: nat, now: int) returns (ok: bool, ghost answers: seq<Answer>)
      requires Valid()
      modifies this, inRing, inRing.slots, outRing, dec, dec.ctl, wsTx, Link()
      ensures Valid() && (pcb == null || pcb == old(pcb))
      ensures ok == Run(old(View()).dec, seg).ok
      ensures View() == Segment(old(View()), Run(old(View()).dec, seg), src)
      ensures Served(old(LogOf(pcb)), LogOf(old(pcb)), answers, Asked(old(View()), Run(old(View()).dec, seg).out, src))
    {
      ok, answers := DecodeAndDispatch(seg, src, now);
      if !ok {
        Reset(now);
      }
    }

    method DecodeAndDispatch(seg: seq<byte>, ghost src: nat, now: int) returns (ok: bool, ghost answers: seq<Answer>)
      requires Valid()
      modifies this, inRing, inRing.slots, outRing, dec, dec.ctl, wsTx, Link()
      ensures Valid() && (pcb == null || pcb == old(pcb))
      ensures var t := Run(old(View()).dec, seg);
              && ok == t.ok && View() == OnEvents(old(View()), t.out, src).(dec := t.dec)
              && Served(old(LogOf(pcb)), LogOf(old(pcb)), answers, Asked(old(View()), t.out, src))
    {
      ghost var s := View();
      ghost var t := Run(s.dec, seg);
      ControlsAreShort(s.dec, seg);
      AskedIgnoresDec(s, t.dec, t.out, src);
      OnEventsIgnoresDec(s, t.dec, t.out, src);
      var calls;
      ok, calls := dec.Decode(seg);
      CallsAreShort(calls);
      answers := Dispatch(calls, src, now);
    }

    /** midi_ws_handshake_recv, and the reset its caller adds when it fails. */
    method HandshakeData(data: seq<byte>, ghost src: nat, now: int) returns (ghost answers: seq<Answer>)
      requires Valid() && net == Handshake
      modifies this, inRing, inRing.slots, outRing, dec, dec.ctl, wsTx, Link()
      ensures Valid()
      ensures View() == HandshakeRecv(old(View()), data, config.valid, src)
      ensures Served(old(LogOf(pcb)), LogOf(old(pcb)), answers, AskedAtUpgrade(old(View()), data, config.valid, src))
    {
      answers := [];
      NoAnswers(LogOf(pcb));
      if |hs| + |data| > HANDSHAKE_MAX {
        Reset(now);
        return;
      }
      hs := hs + data;
      answers := CheckResponse(src, now);
    }

    /** What the response collected so far leads to. */
    method CheckResponse(ghost src: nat, now: int) returns (ghost answers: seq<Answer>)
      requires Valid()
      modifies this, inRing, inRing.slots, outRing, dec, dec.ctl, wsTx, Link()
      ensures Valid()
      ensures View() == Respond(old(View()), config.valid, src)
      ensures Served(old(LogOf(pcb)), LogOf(old(pcb)), answers, AskedByResponse(old(View()), config.valid, src))
    {
      answers := [];
      NoAnswers(LogOf(pcb));
      var h := FindHeaderEnd(hs);
      if h == 0 {
        return;
      }
      if !config.valid(hs[..h]) {
        Reset(now);
        return;
      }
      answers := Upgrade(h, src, now);
    }

    /** midi_net_mark_up. */
    method Upgrade(h: nat, ghost src: nat, now: int) returns (ghost answers: seq<Answer>)
      requires Valid() && 0 < h <= |hs|
      modifies this, inRing, inRing.slots, outRing, dec, dec.ctl, wsTx, Link()
      ensures Valid()
      ensures View() == Upgraded(old(View()), h, src)
      ensures Served(old(LogOf(pcb)), LogOf(old(pcb)), answers, AskedBehind(old(View()), h, src))
    {
      answers := [];
      NoAnswers(LogOf(pcb));
      net := Up;
      if h < |hs| {
        answers := Carried(hs[h..], src, now);
      }
    }

    /** The frame bytes that came in behind the response. */
    method Carried(rest: seq<byte>, ghost src: nat, now: int) returns (ghost answers: seq<Answer>)
      requires Valid()
      modifies this, inRing, inRing.slots, outRing, dec, dec.ctl, wsTx, Link()
      ensures Valid()
      ensures View() == FirstFrames(old(View()), Run(old(View()).dec, rest), src)
      ensures Served(old(LogOf(pcb)), LogOf(old(pcb)), answers, Asked(old(View()), Run(old(View()).dec, rest).out, src))
    {
      var ok;
      ok, answers := DecodeSegment(rest, src, now);
      if ok {
        InPublish();
      }
    }

    /** The segment loop of midi_net_recv_cb while the link is UP. */
    method WsSegments(segs: seq<seq<byte>>, ghost src: nat, now: int) returns (ghost answers: seq<Answer>)
      requires Valid() && net == Up
      modifies this, inRing, inRing.slots, outRing, dec, dec.ctl, wsTx, Link()
      ensures Valid()
      ensures View() == Segments(old(View()), segs, src)
      ensures Served(old(LogOf(pcb)), LogOf(old(pcb)), answers, AskedInSegments(old(View()), segs, src))
    {
      ghost var s, c, log := View(), pcb, LogOf(pcb);
      ghost var asked: seq<seq<byte>> := [];
      answers := [];
      NoAnswers(log);
      var q := 0;
      while q < |segs| && net == Up
        invariant Valid() && q <= |segs| && (pcb == null || pcb == c)
        invariant Segments(View(), segs[q..], src) == Segments(s, segs, src)
        invariant asked + AskedInSegments(View(), segs[q..], src) == AskedInSegments(s, segs, src)
        invariant Served(log, LogOf(c), answers, asked)
      {
        answers, asked := WsSegment(segs, q, s, src, now, c, log, answers, asked);
        q := q + 1;
      }
      assert asked + [] == asked;
    }

    /** The next segment, on the connection c if it is still there. */
    method WsSegment(segs: seq<seq<byte>>, q: nat, ghost s: Sess, ghost src: nat, now: int,
                     ghost c: Tcp?, ghost log: Written, ghost before: seq<Answer>, ghost asked: seq<seq<byte>>)
      returns (ghost answers: seq<Answer>, ghost asked': seq<seq<byte>>)
      requires Valid() && net == Up && q < |segs| && (pcb == null || pcb == c)
      requires Served(log, LogOf(c), before, asked)
      modifies this, inRing, inRing.slots, outRing, dec, dec.ctl, wsTx, Link()
      ensures Valid() && (pcb == null || pcb == c) && Served(log, LogOf(c), answers, asked')
      ensures Segments(View(), segs[q + 1..], src) == Segments(old(View()), segs[q..], src)
      ensures asked' + AskedInSegments(View(), segs[q + 1..], src)
                    == asked + AskedInSegments(old(View()), segs[q..], src)
    {
      ghost var now0, mid := View(), LogOf(c);
      ghost var t := Run(now0.dec, segs[q]);
      SegmentsStep(now0, segs, q, src);
      NobodyAsked(now0, t.out, src);
      var _, pongs := DecodeSegment(segs[q], src, now);
      assert Served(mid, LogOf(c), pongs, Asked(now0, t.out, src));
      ServedTwice(log, mid, LogOf(c), before, asked, pongs, Asked(now0, t.out, src));
      answers, asked' := before + pongs, asked + Asked(now0, t.out, src);
      Regroup(asked, Asked(now0, t.out, src), AskedInSegments(View(), segs[q + 1..], src));
    }

    /** midi_net_recv_cb with data. What is written to the connection is one pong for each ping
        that found it there, and nothing else. */
    method RecvCb(segs: seq<seq<byte>>, now: int) returns (ghost answers: seq<Answer>)
      requires Valid()
      modifies this, inRing, inRing.slots, outRing, dec, dec.ctl, wsTx, Link()
      ensures Valid()
      ensures View() == Recv(old(View()), segs, config)
      ensures Served(old(LogOf(pcb)), LogOf(old(pcb)), answers, AskedInReceive(old(View()), segs, config))
      ensures !config.ws ==> Took(old(inRing.contents), Flatten(segs))
      ensures var t := FeedAll(old(View()).dec, segs);
              config.ws && old(net) == Up && t.ok && !HasClose(t.out) ==> Took(old(inRing.contents), DataIn(t.out))
    {
      ghost var s, was, eras := View(), inRing.contents, inEras;
      answers := Receive(segs, now);
      if !config.ws {
        TcpReceives(s, segs, config);
        ZipAdds(was, eras, inRing.contents, inEras, Fitting(Flatten(segs), |was|), s.era);
      } else if s.net == Up {
        ghost var t := FeedAll(s.dec, segs);
        if t.ok && !HasClose(t.out) {
          UpReceives(s, segs, config);
          ZipAdds(was, eras, inRing.contents, inEras, Fitting(DataIn(t.out), |was|), s.era);
        }
      }
    }

    /** These bytes are now at the end of the IN ring, as far as there was room, and its head is
        what the Atari sees. */
    ghost predicate Took(was: seq<byte>, data: seq<byte>)
      reads Parts()
    {
      && |was| < 16384 && inRing.contents == was + Fitting(data, |was|)
      && (romStatus != 0 <==> |inRing.contents| > 0)
      && (|inRing.contents| > 0 ==> romBuffer % 256 == inRing.contents[0])
    }

    method Receive(segs: seq<seq<byte>>, now: int) returns (ghost answers: seq<Answer>)
      requires Valid()
      modifies this, inRing, inRing.slots, outRing, dec, dec.ctl, wsTx, Link()
      ensures Valid()
      ensures View() == Recv(old(View()), segs, config)
      ensures Served(old(LogOf(pcb)), LogOf(old(pcb)), answers, AskedInReceive(old(View()), segs, config))
    {
      answers := [];
      NoAnswers(LogOf(pcb));
      if config.ws {
        if net == Handshake {
          answers := HandshakeData(Flatten(segs), era, now);
        } else if net == Up {
          answers := WsSegments(segs, era, now);
          if net == Up {
            InPublish();
          }
        }
      } else {
        OnDataRun(Flatten(segs), era, now);
        InPublish();
      }
    }

    /** midi_net_connect_to. */
    method ConnectTo(made: bool, started: bool, now: int)
      requires Valid() && Enabled(View(), Happening.ConnectTo(made, started))
      modifies this, inRing, outRing, dec, dec.ctl
      ensures Valid()
      ensures View() == Happen(old(View()), Happening.ConnectTo(made, started), config)
      ensures if made && started then net == Connecting && pcb != null else net == Down && pcb == null
    {
      if !made {
        Reset(now);
        return;
      }
      pcb := new Tcp();
      net := Connecting;
      if !started {
        Reset(now);
      }
    }

    /** midi_net_connected_cb without an error: TCP is the link, or WebSocket must follow. */
    method ConnectedCb(written: bool, now: int)
      requires Valid() && Enabled(View(), Connected(written))
      modifies this, inRing, outRing, dec, dec.ctl
      ensures Valid()
      ensures View() == Happen(old(View()), Connected(written), config)
      ensures net == if !config.ws then Up else if written then Handshake else Down
    {
      if config.ws {
        StartHandshake(written, now);
      } else {
        net := Up;
      }
    }

    /** Send the upgrade request; without it there is no session. */
    method StartHandshake(written: bool, now: int)
      requires Valid()
      modifies this, inRing, outRing, dec, dec.ctl
      ensures Valid()
      ensures View() == if written then old(View()).(net := Handshake, dec := AtOp, hs := []) else Drop(old(View()))
    {
      dec.Init();
      hs := [];
      net := Handshake;
      if !written {
        Reset(now);
      }
    }

    /** midi_net_send_byte: queued whether or not the link is up. */
    method SendByte(b: byte, now: int)
      requires Valid()
      modifies this`outLastDrain, this`outEras, outRing, outRing.slots
      ensures Valid()
      ensures View() == Queued(old(View()), b)
      ensures var was := old(outRing.contents);
              && outRing.contents == (if |was| < 16383 then was + [b] else was)
              && outLastDrain == if was == [] then now else old(outLastDrain)
    {
      var wasEmpty := outRing.Empty();
      ZipPush(outRing.contents, outEras, b, era);
      var ok := outRing.Push(b);
      if ok {
        outEras := outEras + [era];
        if wasEmpty {
          outLastDrain := now;
        }
      }
    }

    method PopIn()
      requires Valid()
      modifies this`inEras, inRing
      ensures Valid()
      ensures View() == (if old(View()).inq == [] then old(View()) else old(View()).(inq := old(View()).inq[1..]))
      ensures inRing.contents == (if old(inRing.contents) == [] then [] else old(inRing.contents)[1..])
    {
      if !inRing.Empty() {
        ZipDrop(inRing.contents, inEras, 1);
        inRing.Skip(1);
        inEras := inEras[1..];
      }
    }

    /** The IN-advance arm of the sample consumer: pop, republish, then acknowledge. */
    method ConsumeIn(now: int)
      requires Valid()
      modifies this`inEras, this`inLastDrain, this`inAck,
               this`romAck, this`romStatus, this`romBuffer, this`stores, inRing
      ensures Valid()
      ensures View() == Happen(old(View()), Advance, config)
      ensures inRing.contents == (if old(inRing.contents) == [] then [] else old(inRing.contents)[1..])
      ensures inLastDrain == now && romAck == inAck == Bump(old(inAck))
      ensures stores == old(stores) + PublishStores(inRing.contents) + [Ack(romAck)]
    {
      inLastDrain := now;
      Republish();
      Acknowledge();
    }

    method Republish()
      requires Valid()
      modifies this`inEras, this`romStatus, this`romBuffer, this`stores, inRing
      ensures Valid() && View() == Happen(old(View()), Advance, config)
      ensures inRing.contents == (if old(inRing.contents) == [] then [] else old(inRing.contents)[1..])
      ensures stores == old(stores) + PublishStores(inRing.contents)
    {
      PopIn();
      InPublish();
    }

    method Acknowledge()
      requires Valid()
      modifies this`inAck, this`romAck, this`stores
      ensures Valid() && View() == old(View())
      ensures romAck == inAck == Bump(old(inAck))
      ensures stores == old(stores) + [Ack(romAck)]
    {
      inAck := Bump(inAck);
      romAck := inAck;
      stores := stores + [Ack(romAck)];
    }

    /** midi_rom3_consumer. */
    method Rom3Consumer(sample: nat, now: int) returns (handled: bool)
      requires Valid()
      modifies this, inRing, outRing, outRing.slots
      ensures Valid()
      ensures var r := Route(old(active), sample);
              && handled == !r.NotMidi?
              && active == (old(active) && !r.CloseGate?)
              && View() == OnSample(old(View()), r, config)
              && (if r.ConsumeByte? then
                    inAck == Bump(old(inAck)) && romAck == inAck
                    && stores == old(stores) + PublishStores(inRing.contents) + [Ack(romAck)]
                  else inAck == old(inAck) && romAck == old(romAck) && stores == old(stores))
      ensures var r, was := Route(old(active), sample), old(inRing.contents);
              inRing.contents == if r.ConsumeByte? && was != [] then was[1..] else was
      ensures var r, was := Route(old(active), sample), old(outRing.contents);
              outRing.contents == if r.CarryByte? && |was| < 16383 then was + [r.b] else was
    {
      if !active {
        return false;
      }
      if Bit(sample, 10) {
        active := false;
        return true;
      }
      handled := MoveByte(sample, now);
    }

    /** A sample while the gate is open: one byte in, one byte out, or neither. */
    method MoveByte(sample: nat, now: int) returns (handled: bool)
      requires Valid() && !Bit(sample, 10)
      modifies this, inRing, outRing, outRing.slots
      ensures Valid() && active == old(active)
      ensures var r := Route(true, sample);
              && handled == !r.NotMidi?
              && View() == OnSample(old(View()), r, config)
              && (if r.ConsumeByte? then
                    inAck == Bump(old(inAck)) && romAck == inAck
                    && stores == old(stores) + PublishStores(inRing.contents) + [Ack(romAck)]
                  else inAck == old(inAck) && romAck == old(romAck) && stores == old(stores))
      ensures var r, was := Route(true, sample), old(inRing.contents);
              inRing.contents == if r.ConsumeByte? && was != [] then was[1..] else was
      ensures var r, was := Route(true, sample), old(outRing.contents);
              outRing.contents == if r.CarryByte? && |was| < 16383 then was + [r.b] else was
    {
      if Bit(sample, 9) {
        ConsumeIn(now);
        return true;
      }
      if Bit(sample, 8) {
        SendByte(sample % 0x100, now);
        return true;
      }
      return false;
    }

    /** The IN half of midi_queue_cleanup: a queue that has not moved for a second is stale. */
    method CleanIn(now: int)
      requires Valid()
      modifies this, inRing
      ensures Valid() && outLastDrain == old(outLastDrain)
      ensures View() == Happen(old(View()), Cleanup(Stale(old(inRing.contents), old(inLastDrain), now), false), config)
    {
      if !inRing.Empty() && now - inLastDrain > STALE_US {
        DropIn();
        inLastDrain := now;
      }
    }

    method CleanOut(now: int)
      requires Valid()
      modifies this, outRing
      ensures Valid()
      ensures View() ==
              Happen(old(View()), Cleanup(false, Stale(old(outRing.contents), old(outLastDrain), now)), config)
    {
      if !outRing.Empty() && now - outLastDrain > STALE_US {
        DropOut();
        outLastDrain := now;
      }
    }

    /** midi_queue_cleanup. */
    method QueueCleanup(now: int)
      requires Valid()
      modifies this, inRing, outRing
      ensures Valid()
      ensures View() == Happen(old(View()), Cleanup(Stale(old(inRing.contents), old(inLastDrain), now),
                                                    Stale(old(outRing.contents), old(outLastDrain), now)), config)
    {
      CleanIn(now);
      CleanOut(now);
    }

    /** One turn of the drain loop over WebSocket: frame a run that fits the window. If TCP
        refuses the frame the bytes stay queued. */
    method DrainFrame(sndbuf: nat) returns (ok: bool, ghost sent: FrameCodec.Sent)
      requires Valid() && net == Up && pcb != null && outRing.contents != [] && sndbuf > FRAME_OVERHEAD
      modifies this`outEras, this`handed, outRing, wsTx, pcb`wire, pcb`offers
      ensures Valid() && DrainFrames([sent])
      ensures sent.frame.payload
              == old(outRing.contents)[..CutSize(old(outRing.tail), |old(outRing.contents)|, sndbuf, WEBSOCKET)]
      ensures |FrameCodec.WireOf(sent)| <= sndbuf
      ensures LeftRing(old(outRing.contents), old(outRing.tail), old(View()), if ok then |sent.frame.payload| else 0)
      ensures pcb.wire == old(pcb.wire) + if ok then FrameCodec.WireOf(sent) else []
      ensures pcb.offers == old(pcb.offers) + [Offer(FrameCodec.WireOf(sent), ok)]
    {
      var run := CutRun(sndbuf);
      ok, sent := WriteRun(run);
      if ok {
        TakeOut(|run|);
      } else {
        HandOverNothing(View());
      }
    }

    /** The bytes of the next frame. */
    method CutRun(sndbuf: nat) returns (run: seq<byte>)
      requires Valid() && outRing.contents != [] && sndbuf > FRAME_OVERHEAD
      ensures run == outRing.contents[..CutSize(outRing.tail, |outRing.contents|, sndbuf, WEBSOCKET)]
      ensures 0 < |run| <= TX_CHUNK && |run| + FRAME_OVERHEAD <= sndbuf
    {
      var maxpay := sndbuf - FRAME_OVERHEAD;
      if maxpay > TX_CHUNK {
        maxpay := TX_CHUNK;
      }
      run := outRing.Contiguous(maxpay);
    }

    /** n bytes have left the OUT ring for TCP since it held c0 from t0 on. */
    ghost predicate LeftRing(c0: seq<byte>, t0: nat, s0: Sess, n: nat)
      reads Parts()
    {
      && Valid() && n <= |c0| && n <= |s0.outq| && t0 < QUEUE_SIZE
      && outRing.contents == c0[n..] && outRing.tail == (t0 + n) % QUEUE_SIZE && View() == HandOver(s0, n)
    }

    /** Frame a run, masked with a fresh key, and give it to TCP. */
    method WriteRun(run: seq<byte>) returns (ok: bool, ghost sent: FrameCodec.Sent)
      requires Valid() && pcb != null && 0 < |run| <= TX_CHUNK
      modifies wsTx, pcb`wire, pcb`offers
      ensures Valid() && View() == old(View()) && DrainFrames([sent])
      ensures sent.frame.payload == run && |FrameCodec.WireOf(sent)| <= |run| + FRAME_OVERHEAD
      ensures pcb.wire == old(pcb.wire) + if ok then FrameCodec.WireOf(sent) else []
      ensures pcb.offers == old(pcb.offers) + [Offer(FrameCodec.WireOf(sent), ok)]
    {
      var key: Mask := *;
      var flen := BuildFrame(wsTx, FrameCodec.OP_BINARY, run, key);
      sent := FrameCodec.Sent(FrameCodec.Frame(FrameCodec.OP_BINARY, run), Some(key));
      ok := pcb.Write(wsTx[..flen]);
    }

    /** Consume n bytes of the OUT ring; they are TCP's now. */
    method TakeOut(n: nat)
      requires Valid() && n <= |outRing.contents|
      modifies this`outEras, this`handed, outRing
      ensures LeftRing(old(outRing.contents), old(outRing.tail), old(View()), n)
    {
      ZipDrop(outRing.contents, outEras, n);
      handed := HandOver(View(), n).handed;
      outRing.Skip(n);
      outEras := outEras[n..];
    }

    /** What a drain has done so far, since it began with b, s0 and w0: the bytes that left the
        ring are the pieces, in order, and went to the wire. */
    ghost predicate Drained(s0: Sess, b: Begun, w0: seq<byte>, pieces: seq<seq<byte>>, bytes: seq<byte>)
      reads Parts(), Link()
    {
      && net == Up && pcb != null && b.queue == Flatten(pieces) + outRing.contents
      && LeftRing(b.queue, b.tail, s0, |Flatten(pieces)|) && pcb.wire == w0 + bytes
    }

    /** One piece more has left the ring, which held `was` from t0 on. */
    lemma OnePieceMore(s0: Sess, b: Begun, w0: seq<byte>, pieces: seq<seq<byte>>, bytes: seq<byte>, was: seq<byte>,
                       t0: nat, v0: Sess, piece: seq<byte>, data: seq<byte>)
      requires Valid() && net == Up && pcb != null && b.tail < QUEUE_SIZE && |Flatten(pieces)| <= |s0.outq|
      requires b.queue == Flatten(pieces) + was && piece <= was
      requires t0 == (b.tail + |Flatten(pieces)|) % QUEUE_SIZE && v0 == HandOver(s0, |Flatten(pieces)|)
      requires LeftRing(was, t0, v0, |piece|) && pcb.wire == w0 + bytes + data
      ensures Drained(s0, b, w0, pieces + [piece], bytes + data)
    {
      PieceMore(b.queue, pieces, piece, was);
      HandOverTwice(s0, |Flatten(pieces)|, |piece|);
      RoundAgain(b.tail, |Flatten(pieces)|, |piece|);
      Regroup(w0, bytes, data);
    }

    /** Nothing has left it. */
    lemma NoPieceMore(s0: Sess, b: Begun, w0: seq<byte>, pieces: seq<seq<byte>>, bytes: seq<byte>, was: seq<byte>,
                      t0: nat, v0: Sess)
      requires Valid() && net == Up && pcb != null && b.tail < QUEUE_SIZE && |Flatten(pieces)| <= |s0.outq|
      requires b.queue == Flatten(pieces) + was
      requires t0 == (b.tail + |Flatten(pieces)|) % QUEUE_SIZE && v0 == HandOver(s0, |Flatten(pieces)|)
      requires LeftRing(was, t0, v0, 0) && pcb.wire == w0 + bytes
      ensures Drained(s0, b, w0, pieces, bytes)
    {
      HandOverNothing(v0);
      assert was[0..] == was;
      LeftOf(b.queue, Flatten(pieces), was);
    }

    /** One write offered: taken it is one piece more, refused it ends the drain. */
    lemma Settled(s0: Sess, b: Begun, w0: seq<byte>, pieces: seq<seq<byte>>, bytes: seq<byte>, offers: seq<Offer>,
                  windows: seq<nat>, ws: seq<nat>, c: Limits, w: nat, was: seq<byte>, t0: nat, v0: Sess,
                  piece: seq<byte>, data: seq<byte>, key: Option<Mask>, ok: bool)
      requires Valid() && net == Up && pcb != null && b.tail < QUEUE_SIZE && |Flatten(pieces)| <= |s0.outq|
      requires Going(offers, windows, b, pieces, ws, c) && w > c.overhead
      requires b.queue == Flatten(pieces) + was && was != []
      requires t0 == (b.tail + |Flatten(pieces)|) % QUEUE_SIZE && v0 == HandOver(s0, |Flatten(pieces)|)
      requires piece == was[..CutSize(t0, |was|, w, c)] && key.Some? == c.framed && data == OnTheWire(piece, key)
      requires LeftRing(was, t0, v0, if ok then |piece| else 0) && pcb.wire == w0 + bytes + if ok then data else []
      requires pcb.offers == offers + [Offer(data, ok)] && pcb.windows == windows + [w]
      ensures if ok then Drained(s0, b, w0, pieces + [piece], bytes + data) else Drained(s0, b, w0, pieces, bytes)
      ensures if ok then Going(pcb.offers, pcb.windows, b, pieces + [piece], ws + [w], c)
              else Ended(pcb.offers, pcb.windows, b, pieces, ws, Refused(w, key), c)
    {
      if ok {
        OnePieceMore(s0, b, w0, pieces, bytes, was, t0, v0, piece, data);
        PieceGoesOn(offers, windows, b, pieces, ws, c, w, was, t0, piece, data);
      } else {
        NoPieceMore(s0, b, w0, pieces, bytes, was, t0, v0);
        PieceRefused(offers, windows, b, pieces, ws, c, w, was, t0, piece, data, key);
      }
    }

    /** With the ring empty a drain has ended. */
    lemma NoneLeft(s0: Sess, b: Begun, w0: seq<byte>, pieces: seq<seq<byte>>, bytes: seq<byte>, ws: seq<nat>, c: Limits)
      requires Drained(s0, b, w0, pieces, bytes) && Going(pcb.offers, pcb.windows, b, pieces, ws, c)
      requires outRing.contents == []
      ensures Ended(pcb.offers, pcb.windows, b, pieces, ws, Emptied, c)
    {
      Ends(pcb.offers, pcb.windows, b, pieces, ws, c, 0, None);
    }

    /** The state in which a drain begins. */
    ghost function Beginning(): Begun
      reads this, outRing, pcb
      requires pcb != null
    {
      Begun(outRing.contents, outRing.tail, pcb.offers, pcb.windows)
    }

    lemma Starting(c: Limits)
      requires Valid() && net == Up && pcb != null
      ensures Drained(View(), Beginning(), pcb.wire, [], [])
      ensures Going(pcb.offers, pcb.windows, Beginning(), [], [], c)
    {
      HandOverNothing(View());
      NoWritesYet(Beginning(), c);
      assert outRing.contents[0..] == outRing.contents && [] + outRing.contents == outRing.contents;
      assert pcb.wire + [] == pcb.wire;
    }

    /** One turn of the drain loop; `done` is its break. */
    method DrainTurnWs(ghost s0: Sess, ghost b: Begun, ghost w0: seq<byte>, ghost pieces: seq<seq<byte>>,
                       ghost bytes: seq<byte>, ghost ws: seq<nat>)
      returns (done: bool, ghost f: FrameCodec.Sent, ghost w: nat, ghost stop: Stop)
      requires Drained(s0, b, w0, pieces, bytes) && Going(pcb.offers, pcb.windows, b, pieces, ws, WEBSOCKET)
      requires outRing.contents != []
      modifies this`outEras, this`handed, outRing, wsTx, pcb
      ensures if done then Drained(s0, b, w0, pieces, bytes)
              else Drained(s0, b, w0, pieces + [f.frame.payload], bytes + FrameCodec.WireOf(f))
      ensures if done then Ended(pcb.offers, pcb.windows, b, pieces, ws, stop, WEBSOCKET)
              else Going(pcb.offers, pcb.windows, b, pieces + [f.frame.payload], ws + [w], WEBSOCKET)
      ensures !done ==> DrainFrames([f]) && |outRing.contents| < |old(outRing.contents)|
    {
      f, stop := FrameCodec.Sent(FrameCodec.Frame(0, []), None), Emptied;
      ghost var offers, windows := pcb.offers, pcb.windows;
      var sndbuf := pcb.SndBuf();
      w := sndbuf;
      if sndbuf <= FRAME_OVERHEAD {
        LeftOf(b.queue, Flatten(pieces), outRing.contents);
        Ends(offers, windows, b, pieces, ws, WEBSOCKET, w, None);
        return true, f, w, NoRoom(w);
      }
      done, f, stop := DrainWithin(s0, b, w0, pieces, bytes, ws, windows, sndbuf);
    }

    /** The turn in a window with room. */
    method DrainWithin(ghost s0: Sess, ghost b: Begun, ghost w0: seq<byte>, ghost pieces: seq<seq<byte>>,
                       ghost bytes: seq<byte>, ghost ws: seq<nat>, ghost windows: seq<nat>, sndbuf: nat)
      returns (done: bool, ghost f: FrameCodec.Sent, ghost stop: Stop)
      requires Drained(s0, b, w0, pieces, bytes) && Going(pcb.offers, windows, b, pieces, ws, WEBSOCKET)
      requires outRing.contents != [] && FRAME_OVERHEAD < sndbuf <= 0xFFFF && pcb.windows == windows + [sndbuf]
      modifies this`outEras, this`handed, outRing, wsTx, pcb
      ensures if done then Drained(s0, b, w0, pieces, bytes)
              else Drained(s0, b, w0, pieces + [f.frame.payload], bytes + FrameCodec.WireOf(f))
      ensures if done then Ended(pcb.offers, pcb.windows, b, pieces, ws, stop, WEBSOCKET)
              else Going(pcb.offers, pcb.windows, b, pieces + [f.frame.payload], ws + [sndbuf], WEBSOCKET)
      ensures !done ==> DrainFrames([f]) && |outRing.contents| < |old(outRing.contents)|
    {
      ghost var offers, was, t0, v0 := pcb.offers, outRing.contents, outRing.tail, View();
      var ok;
      ok, f := DrainFrame(sndbuf);
      done, stop := !ok, Refused(sndbuf, f.key);
      Settled(s0, b, w0, pieces, bytes, offers, windows, ws, WEBSOCKET, sndbuf, was, t0, v0,
              f.frame.payload, FrameCodec.WireOf(f), f.key, ok);
    }

    /** The drain loop over WebSocket so far: whole masked binary frames, whose payloads left
        the ring. */
    ghost predicate Framed(s0: Sess, b: Begun, w0: seq<byte>, frames: seq<FrameCodec.Sent>)
      reads Parts(), Link()
    {
      DrainFrames(frames) && Drained(s0, b, w0, PiecesOf(frames), Flatten(FrameCodec.Wires(frames)))
    }

    method DrainNext(ghost s0: Sess, ghost b: Begun, ghost w0: seq<byte>, ghost frames: seq<FrameCodec.Sent>,
                     ghost ws: seq<nat>)
      returns (done: bool, ghost frames': seq<FrameCodec.Sent>, ghost ws': seq<nat>, ghost stop: Stop)
      requires Framed(s0, b, w0, frames) && Going(pcb.offers, pcb.windows, b, PiecesOf(frames), ws, WEBSOCKET)
      requires outRing.contents != []
      modifies this`outEras, this`handed, outRing, wsTx, pcb
      ensures Framed(s0, b, w0, frames') && if done then frames' == frames else frames' != []
      ensures if done then Ended(pcb.offers, pcb.windows, b, PiecesOf(frames'), ws', stop, WEBSOCKET)
              else Going(pcb.offers, pcb.windows, b, PiecesOf(frames'), ws', WEBSOCKET)
      ensures !done ==> |outRing.contents| < |old(outRing.contents)|
    {
      ghost var f, w;
      done, f, w, stop := DrainTurnWs(s0, b, w0, PiecesOf(frames), Flatten(FrameCodec.Wires(frames)), ws);
      frames', ws' := frames, ws;
      if !done {
        OneMore(frames, f);
        frames', ws' := frames + [f], ws + [w];
      }
    }

    /** midi_net_flush_out over WebSocket: drain until the ring is empty, the window is full
        or a write fails. What left the ring is, in order, the payloads of whole masked
        binary frames on the wire, each cut to exactly what ring, window and chunk allow. */
    method FlushOutWs(now: int) returns (ghost frames: seq<FrameCodec.Sent>, ghost ws: seq<nat>, ghost stop: Stop)
      requires Valid() && net == Up && pcb != null
      modifies this`outEras, this`handed, this`outLastDrain, outRing, wsTx, pcb
      ensures Framed(old(View()), old(Beginning()), old(pcb.wire), frames)
      ensures Ended(pcb.offers, pcb.windows, old(Beginning()), PiecesOf(frames), ws, stop, WEBSOCKET)
      ensures outLastDrain == if frames == [] then old(outLastDrain) else now
    {
      ghost var s0, b, w0 := View(), Beginning(), pcb.wire;
      Starting(WEBSOCKET);
      NothingFramed();
      var wrote;
      wrote, frames, ws, stop := DrainLoopWs(s0, b, w0);
      if wrote {
        outLastDrain := now;
      }
    }

    /** The drain loop. */
    method DrainLoopWs(ghost s0: Sess, ghost b: Begun, ghost w0: seq<byte>)
      returns (wrote: bool, ghost frames: seq<FrameCodec.Sent>, ghost ws: seq<nat>, ghost stop: Stop)
      requires Framed(s0, b, w0, []) && Going(pcb.offers, pcb.windows, b, PiecesOf([]), [], WEBSOCKET)
      modifies this`outEras, this`handed, outRing, wsTx, pcb
      ensures Framed(s0, b, w0, frames) && (wrote <==> frames != [])
      ensures Ended(pcb.offers, pcb.windows, b, PiecesOf(frames), ws, stop, WEBSOCKET)
    {
      var done := false;
      wrote, frames, ws, stop := false, [], [], Emptied;
      while !done && !outRing.Empty()
        invariant Framed(s0, b, w0, frames) && (wrote <==> frames != [])
        invariant if done then Ended(pcb.offers, pcb.windows, b, PiecesOf(frames), ws, stop, WEBSOCKET)
                  else Going(pcb.offers, pcb.windows, b, PiecesOf(frames), ws, WEBSOCKET)
        decreases !done, |outRing.contents|
      {
        done, frames, ws, stop := DrainNext(s0, b, w0, frames, ws);
        wrote := wrote || !done;
      }
      if !done {
        stop := Emptied;
        NoneLeft(s0, b, w0, PiecesOf(frames), Flatten(FrameCodec.Wires(frames)), ws, WEBSOCKET);
      }
    }

    method DrainTurnTcp(ghost s0: Sess, ghost b: Begun, ghost w0: seq<byte>, ghost pieces: seq<seq<byte>>,
                        ghost ws: seq<nat>)
      returns (done: bool, ghost pieces': seq<seq<byte>>, ghost ws': seq<nat>, ghost stop: Stop)
      requires Drained(s0, b, w0, pieces, Flatten(pieces)) && Going(pcb.offers, pcb.windows, b, pieces, ws, PLAIN_TCP)
      requires outRing.contents != []
      modifies this`outEras, this`handed, outRing, pcb
      ensures Drained(s0, b, w0, pieces', Flatten(pieces')) && if done then pieces' == pieces else pieces' != []
      ensures if done then Ended(pcb.offers, pcb.windows, b, pieces', ws', stop, PLAIN_TCP)
              else Going(pcb.offers, pcb.windows, b, pieces', ws', PLAIN_TCP)
      ensures !done ==> |outRing.contents| < |old(outRing.contents)|
    {
      ghost var offers, windows, was, t0, v0 := pcb.offers, pcb.windows, outRing.contents, outRing.tail, View();
      pieces', ws', stop := pieces, ws, Emptied;
      var sndbuf := pcb.SndBuf();
      if sndbuf == 0 {
        LeftOf(b.queue, Flatten(pieces), was);
        Ends(offers, windows, b, pieces, ws, PLAIN_TCP, sndbuf, None);
        return true, pieces, ws, NoRoom(sndbuf);
      }
      var ok, run := DrainRun(sndbuf);
      done, stop := !ok, Refused(sndbuf, None);
      Settled(s0, b, w0, pieces, Flatten(pieces), offers, windows, ws, PLAIN_TCP, sndbuf, was, t0, v0,
              run, run, None, ok);
      if ok {
        FlattenMore(pieces, run);
        pieces', ws' := pieces + [run], ws + [sndbuf];
      }
    }

    /** The same over plain TCP: a run that fits the window, written as it is. */
    method DrainRun(sndbuf: nat) returns (ok: bool, ghost run: seq<byte>)
      requires Valid() && net == Up && pcb != null && outRing.contents != [] && 0 < sndbuf <= 0xFFFF
      modifies this`outEras, this`handed, outRing, pcb`wire, pcb`offers
      ensures Valid() && 0 < |run| <= sndbuf
      ensures run == old(outRing.contents)[..CutSize(old(outRing.tail), |old(outRing.contents)|, sndbuf, PLAIN_TCP)]
      ensures LeftRing(old(outRing.contents), old(outRing.tail), old(View()), if ok then |run| else 0)
      ensures pcb.wire == old(pcb.wire) + if ok then run else []
      ensures pcb.offers == old(pcb.offers) + [Offer(run, ok)]
    {
      var bytes := outRing.Contiguous(sndbuf);
      run := bytes;
      ok := pcb.Write(bytes);
      if ok {
        TakeOut(|bytes|);
      } else {
        HandOverNothing(View());
      }
    }

    /** midi_net_flush_out over plain TCP: the queued bytes are the wire bytes. */
    method FlushOutTcp(now: int) returns (ghost pieces: seq<seq<byte>>, ghost ws: seq<nat>, ghost stop: Stop)
      requires Valid() && net == Up && pcb != null
      modifies this`outEras, this`handed, this`outLastDrain, outRing, pcb
      ensures Drained(old(View()), old(Beginning()), old(pcb.wire), pieces, Flatten(pieces))
      ensures Ended(pcb.offers, pcb.windows, old(Beginning()), pieces, ws, stop, PLAIN_TCP)
      ensures outLastDrain == if pieces == [] then old(outLastDrain) else now
    {
      ghost var s0, b, w0 := View(), Beginning(), pcb.wire;
      Starting(PLAIN_TCP);
      var wrote;
      wrote, pieces, ws, stop := DrainLoopTcp(s0, b, w0);
      if wrote {
        outLastDrain := now;
      }
    }

    method DrainLoopTcp(ghost s0: Sess, ghost b: Begun, ghost w0: seq<byte>)
      returns (wrote: bool, ghost pieces: seq<seq<byte>>, ghost ws: seq<nat>, ghost stop: Stop)
      requires Drained(s0, b, w0, [], []) && Going(pcb.offers, pcb.windows, b, [], [], PLAIN_TCP)
      modifies this`outEras, this`handed, outRing, pcb
      ensures Drained(s0, b, w0, pieces, Flatten(pieces)) && (wrote <==> pieces != [])
      ensures Ended(pcb.offers, pcb.windows, b, pieces, ws, stop, PLAIN_TCP)
    {
      var done := false;
      wrote, pieces, ws, stop := false, [], [], Emptied;
      while !done && !outRing.Empty()
        invariant Drained(s0, b, w0, pieces, Flatten(pieces)) && (wrote <==> pieces != [])
        invariant if done then Ended(pcb.offers, pcb.windows, b, pieces, ws, stop, PLAIN_TCP)
                  else Going(pcb.offers, pcb.windows, b, pieces, ws, PLAIN_TCP)
        decreases !done, |outRing.contents|
      {
        done, pieces, ws, stop := DrainTurnTcp(s0, b, w0, pieces, ws);
        wrote := wrote || !done;
      }
      if !done {
        stop := Emptied;
        NoneLeft(s0, b, w0, pieces, Flatten(pieces), ws, PLAIN_TCP);
      }
    }

    /** midi_net_try_connect. */
    method TryConnect(lookup: Lookup, made: bool, started: bool, now: int)
      requires Valid() && net == Down && pcb == null
      modifies this, inRing, outRing, dec, dec.ctl
      ensures Valid()
      ensures View() == Attempt(old(View()), lookup, made, started)
      ensures (net == Connecting && pcb != null) <==> (lookup.Literal? || lookup.Cached?) && made && started
      ensures (net == Connecting && pcb == null) <==> lookup.InProgress?
    {
      if lookup.Literal? {
        ConnectTo(made, started, now);
        return;
      }
      net := Connecting;
      if lookup.Cached? {
        ConnectTo(made, started, now);
      } else if lookup.LookupFailed? {
        Reset(now);
      }
    }

    /** midi_net_flush_out. While UP the drain goes on for as long as there are bytes, room and
        writes that are taken. */
    method FlushOut(now: int) returns (ghost k: nat, ghost pieces: seq<seq<byte>>, ghost ws: seq<nat>, ghost stop: Stop)
      requires Valid()
      modifies this`outEras, this`handed, this`outLastDrain, outRing, wsTx, Link()
      ensures Valid() && Enabled(old(View()), Happening.Drained(k))
      ensures View() == Happen(old(View()), Happening.Drained(k), config)
      ensures k <= |old(outRing.contents)| && outRing.contents == old(outRing.contents)[k..]
      ensures outLastDrain == if k > 0 then now else old(outLastDrain)
      ensures net == Up && pcb != null ==>
                && k == |Flatten(pieces)|
                && Ended(pcb.offers, pcb.windows, old(Beginning()), pieces, ws, stop, LimitsOf(config))
      ensures !(net == Up && pcb != null) ==> k == 0
    {
      k, pieces, ws, stop := 0, [], [], Emptied;
      HandOverNothing(View());
      if net == Up && pcb != null {
        if config.ws {
          ghost var frames;
          frames, ws, stop := FlushOutWs(now);
          pieces := PiecesOf(frames);
          PayloadsNotEmpty(frames);
        } else {
          pieces, ws, stop := FlushOutTcp(now);
          PiecesNotEmpty(pcb.offers, pcb.windows, old(Beginning()), pieces, ws, stop, PLAIN_TCP);
        }
        k := |Flatten(pieces)|;
      }
    }

    /** midi_net_poll: drain, discard what is stale, and reconnect when the link is down, the
        network is up and the backoff has run out (`due`). */
    method Poll(enabled: bool, haveIp: bool, due: bool, lookup: Lookup, made: bool, started: bool, now: int)
      returns (ghost k: nat, ghost cleanup: Happening, ghost pieces: seq<seq<byte>>, ghost ws: seq<nat>,
               ghost stop: Stop)
      requires Valid() && (net == Down ==> pcb == null)
      modifies this, inRing, outRing, dec, dec.ctl, wsTx, Link()
      ensures Valid() && k <= |old(outRing.contents)|
      ensures old(net) == Up && old(pcb) != null ==>
                && k == |Flatten(pieces)|
                && Ended(old(pcb).offers, old(pcb).windows, old(Beginning()), pieces, ws, stop, LimitsOf(config))
      ensures !(old(net) == Up && old(pcb) != null) ==> k == 0
      ensures cleanup == Cleanup(Stale(old(inRing.contents), old(inLastDrain), now),
                                 Stale(old(outRing.contents)[k..], if k > 0 then now else old(outLastDrain), now))
      ensures Enabled(old(View()), Happening.Drained(k))
      ensures var s := Happen(Happen(old(View()), Happening.Drained(k), config), cleanup, config);
              View() == if enabled && s.net == Down && haveIp && due then Attempt(s, lookup, made, started) else s
    {
      k, pieces, ws, stop := FlushOut(now);
      cleanup := Cleanup(Stale(inRing.contents, inLastDrain, now), Stale(outRing.contents, outLastDrain, now));
      QueueCleanup(now);
      if enabled && net == Down && haveIp && due {
        TryConnect(lookup, made, started, now);
      }
    }
  }

  function LimitsOf(config: Config): Limits {
    if config.ws then WEBSOCKET else PLAIN_TCP
  }

  lemma SegmentsStep(s: Sess, segs: seq<seq<byte>>, q: nat, src: nat)
    requires s.net == Up && q < |segs|
    ensures var t := Run(s.dec, segs[q]);
            var s' := Segment(s, t, src);
            && Segments(s, segs[q..], src) == Segments(s', segs[q + 1..], src)
            && AskedInSegments(s, segs[q..], src) == Asked(s, t.out, src) + AskedInSegments(s', segs[q + 1..], src)
  {
    assert segs[q..][0] == segs[q] && segs[q..][1..] == segs[q + 1..];
  }

  // ---------------------------------------------------------------- answers

  lemma NoAnswers(log: Written)
    ensures Served(log, log, [], [])
  {
    assert FrameCodec.Wires([]) == [];
    assert Offers([]) == [];
  }

  lemma OneAnswer(sent: FrameCodec.Sent, ok: bool)
    ensures Offers([Answer(sent, ok)]) == [Offer(FrameCodec.WireOf(sent), ok)]
    ensures Flatten(FrameCodec.Wires(Taken([Answer(sent, ok)]))) == if ok then FrameCodec.WireOf(sent) else []
  {
    var one := [Answer(sent, ok)];
    assert one[1..] == [];
    if ok {
      OneWire(sent);
      assert Taken(one) == [sent];
    } else {
      var none: seq<FrameCodec.Sent> := [];
      assert Taken(one) == none;
      assert |FrameCodec.Wires(none)| == 0;
    }
  }

  lemma OneWire(sent: FrameCodec.Sent)
    ensures Flatten(FrameCodec.Wires([sent])) == FrameCodec.WireOf(sent)
  {
    assert FrameCodec.Wires([sent]) == [FrameCodec.WireOf(sent)];
    FlattenOne(FrameCodec.WireOf(sent));
  }

  lemma {:induction false} TakenSplit(a: seq<Answer>, b: seq<Answer>)
    ensures Taken(a + b) == Taken(a) + Taken(b)
    decreases |a|
  {
    if a == [] {
      assert a + b == b;
    } else {
      assert (a + b)[1..] == a[1..] + b;
      TakenSplit(a[1..], b);
      Regroup(if a[0].taken then [a[0].sent] else [], Taken(a[1..]), Taken(b));
    }
  }

  /** Answers add up. */
  lemma ServedTwice(log: Written, mid: Written, end: Written, a: seq<Answer>, asked: seq<seq<byte>>, b: seq<Answer>,
                    more: seq<seq<byte>>)
    requires Served(log, mid, a, asked) && Served(mid, end, b, more)
    ensures Served(log, end, a + b, asked + more)
  {
    TakenOnWire(a, b);
    Regroup(log.wire, Flatten(FrameCodec.Wires(Taken(a))), Flatten(FrameCodec.Wires(Taken(b))));
    assert Offers(a + b) == Offers(a) + Offers(b);
    Regroup(log.offers, Offers(a), Offers(b));
  }

  lemma TakenOnWire(a: seq<Answer>, b: seq<Answer>)
    ensures Flatten(FrameCodec.Wires(Taken(a + b)))
            == Flatten(FrameCodec.Wires(Taken(a))) + Flatten(FrameCodec.Wires(Taken(b)))
  {
    TakenSplit(a, b);
    WiresSplit(Taken(a), Taken(b));
    FlattenAppend(FrameCodec.Wires(Taken(a)), FrameCodec.Wires(Taken(b)));
  }

  lemma WiresSplit(a: seq<FrameCodec.Sent>, b: seq<FrameCodec.Sent>)
    ensures FrameCodec.Wires(a + b) == FrameCodec.Wires(a) + FrameCodec.Wires(b)
  {
  }

  lemma {:induction false} DataAsksNothing(s: Sess, run: seq<byte>, src: nat)
    ensures Asked(s, DataEvents(run), src) == []
    decreases |run|
  {
    var events := DataEvents(run);
    if run != [] {
      assert events[..|events| - 1] == DataEvents(run[..|run| - 1]);
      DataAsksNothing(s, run[..|run| - 1], src);
    }
  }

  /** Without a connection nobody is there to be answered. */
  lemma {:induction false} NobodyAsked(s: Sess, events: seq<Event>, src: nat)
    ensures !s.pcb ==> Asked(s, events, src) == [] && !OnEvents(s, events, src).pcb
    decreases |events|
  {
    if events != [] {
      NobodyAsked(s, events[..|events| - 1], src);
    }
  }

  lemma EventsOfOne(call: Call)
    ensures EventsOf([call]) ==
              (match call case OnData(run) => DataEvents(run) case OnCtl(op, data) => [Control(op, data)])
  {
    assert [call][..0] == [];
  }

  lemma NextCall(calls: seq<Call>, k: nat)
    requires k < |calls|
    ensures EventsOf(calls[..k + 1]) == EventsOf(calls[..k]) + EventsOf([calls[k]])
  {
    assert calls[..k + 1] == calls[..k] + [calls[k]];
    AddCalls(calls[..k], [calls[k]]);
  }

  /** Control callbacks are as short as the control events they report. */
  lemma {:induction false} CallsAreShort(calls: seq<Call>)
    requires ShortControls(EventsOf(calls))
    ensures forall call <- calls :: ShortCall(call)
    decreases |calls|
  {
    if calls != [] {
      var front, last := calls[..|calls| - 1], calls[|calls| - 1];
      assert calls == front + [last];
      AddCalls(front, [last]);
      ShortParts(EventsOf(front), EventsOf([last]));
      CallsAreShort(front);
      LastIsShort(last);
    }
  }

  lemma LastIsShort(call: Call)
    requires ShortControls(EventsOf([call]))
    ensures ShortCall(call)
  {
    EventsOfOne(call);
    if call.OnCtl? {
      assert EventsOf([call])[0] == Control(call.opcode, call.payload);
    }
  }

  lemma ShortParts(a: seq<Event>, b: seq<Event>)
    requires ShortControls(a + b)
    ensures ShortControls(a) && ShortControls(b)
  {
    assert forall e <- a :: e in a + b;
    assert forall e <- b :: e in a + b;
  }

  lemma {:induction false} AskedIgnoresDec(s: Sess, d: Dec, events: seq<Event>, src: nat)
    ensures Asked(s.(dec := d), events, src) == Asked(s, events, src)
    decreases |events|
  {
    if events != [] {
      AskedIgnoresDec(s, d, events[..|events| - 1], src);
      OnEventsIgnoresDec(s, d, events[..|events| - 1], src);
    }
  }

  lemma PayloadsNotEmpty(frames: seq<FrameCodec.Sent>)
    requires DrainFrames(frames)
    ensures |Flatten(PiecesOf(frames))| > 0 <==> frames != []
  {
    if frames != [] {
      assert frames[0] in frames;
    }
  }

  lemma PiecesNotEmpty(offers: seq<Offer>, windows: seq<nat>, b: Begun, pieces: seq<seq<byte>>, ws: seq<nat>,
                       stop: Stop, c: Limits)
    requires Ended(offers, windows, b, pieces, ws, stop, c) && c.chunk > 0
    ensures |Flatten(pieces)| > 0 <==> pieces != []
  {
    if pieces != [] {
      FirstIsExact(pieces, b, ws, c);
    }
  }

  /** What is left of a queue whose front has gone. */
  lemma LeftOf(queue: seq<byte>, front: seq<byte>, left: seq<byte>)
    requires queue == front + left
    ensures queue[|front|..] == left && |front| <= |queue|
  {
  }

  /** The connection's side of one write more, with `was` left in the ring from t0 on. */
  lemma PieceGoesOn(offers: seq<Offer>, windows: seq<nat>, b: Begun, pieces: seq<seq<byte>>, ws: seq<nat>, c: Limits,
                    w: nat, was: seq<byte>, t0: nat, piece: seq<byte>, data: seq<byte>)
    requires b.tail < QUEUE_SIZE && Going(offers, windows, b, pieces, ws, c) && w > c.overhead
    requires b.queue == Flatten(pieces) + was && was != [] && t0 == (b.tail + |Flatten(pieces)|) % QUEUE_SIZE
    requires piece == was[..CutSize(t0, |was|, w, c)]
    ensures Going(offers + [Offer(data, true)], windows + [w], b, pieces + [piece], ws + [w], c)
  {
    LeftOf(b.queue, Flatten(pieces), was);
    GoesOn(offers, windows, b, pieces, ws, c, w, piece, data);
  }

  lemma PieceRefused(offers: seq<Offer>, windows: seq<nat>, b: Begun, pieces: seq<seq<byte>>, ws: seq<nat>, c: Limits,
                     w: nat, was: seq<byte>, t0: nat, piece: seq<byte>, data: seq<byte>, key: Option<Mask>)
    requires b.tail < QUEUE_SIZE && Going(offers, windows, b, pieces, ws, c) && w > c.overhead
    requires b.queue == Flatten(pieces) + was && was != [] && t0 == (b.tail + |Flatten(pieces)|) % QUEUE_SIZE
    requires piece == was[..CutSize(t0, |was|, w, c)] && key.Some? == c.framed && data == OnTheWire(piece, key)
    ensures Ended(offers + [Offer(data, false)], windows + [w], b, pieces, ws, Refused(w, key), c)
  {
    LeftOf(b.queue, Flatten(pieces), was);
    Ends(offers, windows, b, pieces, ws, c, w, key);
  }

  lemma PieceMore(queue: seq<byte>, pieces: seq<seq<byte>>, piece: seq<byte>, was: seq<byte>)
    requires queue == Flatten(pieces) + was && piece <= was
    ensures Flatten(pieces + [piece]) == Flatten(pieces) + piece
    ensures queue == Flatten(pieces + [piece]) + was[|piece|..]
    ensures was[|piece|..] == queue[|Flatten(pieces + [piece])|..]
  {
    FlattenMore(pieces, piece);
    assert was == piece + was[|piece|..];
    Regroup(Flatten(pieces), piece, was[|piece|..]);
  }

  lemma RoundAgain(tail: nat, a: nat, b: nat)
    requires tail < QUEUE_SIZE
    ensures ((tail + a) % QUEUE_SIZE + b) % QUEUE_SIZE == (tail + (a + b)) % QUEUE_SIZE
  {
  }

  lemma HandOverNothing(s: Sess)
    ensures HandOver(s, 0) == s
  {
    assert s.outq[0..] == s.outq;
    assert |HandOver(s, 0).handed| == |s.handed|;
    assert HandOver(s, 0).handed == s.handed;
  }

  lemma NothingFramed()
    ensures PiecesOf([]) == [] && FrameCodec.Wires([]) == []
  {
  }

  lemma HandOverTwice(s: Sess, a: nat, b: nat)
    requires a + b <= |s.outq|
    ensures HandOver(HandOver(s, a), b) == HandOver(s, a + b)
  {
    assert s.outq[a..][b..] == s.outq[a + b..];
  }

  lemma OneMore(frames: seq<FrameCodec.Sent>, f: FrameCodec.Sent)
    ensures PiecesOf(frames + [f]) == PiecesOf(frames) + [f.frame.payload]
    ensures Flatten(FrameCodec.Wires(frames + [f])) == Flatten(FrameCodec.Wires(frames)) + FrameCodec.WireOf(f)
  {
    WiresSplit(frames, [f]);
    FlattenAppend(FrameCodec.Wires(frames), FrameCodec.Wires([f]));
    OneWire(f);
  }

  /** The payloads of the frames, in order. */
  lemma {:induction false} PiecesArePayloads(frames: seq<FrameCodec.Sent>)
    ensures Flatten(PiecesOf(frames)) == Payloads(frames)
    decreases |frames|
  {
    if frames != [] {
      assert PiecesOf(frames)[1..] == PiecesOf(frames[1..]);
      PiecesArePayloads(frames[1..]);
    }
  }

  /** The callbacks neither look at the decoder nor change it. */
  lemma {:induction false} OnEventsIgnoresDec(s: Sess, d: Dec, events: seq<Event>, src: nat)
    ensures OnEvents(s.(dec := d), events, src) == OnEvents(s, events, src).(dec := d)
    decreases |events|
  {
    if events != [] {
      OnEventsIgnoresDec(s, d, events[..|events| - 1], src);
    }
  }
}
