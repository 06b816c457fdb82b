/** The Atari's OUT bytes from the cartridge's ring to the orchestrator's decoder: one
    WebSocket session, end to end. */
module OutStream {
  import opened Bytes
  import opened StreamParser
  import opened FrameCodec
  import opened MidiPipe
  import Session

  /** One session: bytes waiting in the ring, frames TCP has taken, bytes the ring accepted. */
  datatype Stream = Stream(queued: seq<byte>, wire: seq<Sent>, accepted: seq<byte>)

  datatype Act =
    | Enqueue(b: byte)           // the Atari sends a byte
    | Drain(frames: seq<Sent>)   // one FlushOutWs, whatever windows and failures it met
    | Pong(payload: seq<byte>, key: Mask)

  /** The postcondition of FlushOutWs, and the size of a ping that can be answered. */
  ghost predicate Possible(s: Stream, a: Act) {
    match a
    case Enqueue(_) => true
    case Drain(frames) => DrainFrames(frames) && Payloads(frames) <= s.queued
    case Pong(payload, _) => |payload| <= 125
  }

  function Apply(s: Stream, a: Act): Stream
    requires Possible(s, a)
  {
    match a
    case Enqueue(b) =>
      if |s.queued| < Session.QUEUE_SIZE - 1 then s.(queued := s.queued + [b], accepted := s.accepted + [b]) else s
    case Drain(frames) => s.(queued := s.queued[|Payloads(frames)|..], wire := s.wire + frames)
    case Pong(payload, key) => s.(wire := s.wire + [Sent(Frame(OP_PONG, payload), Some(key))])
  }

  ghost predicate Runnable(s: Stream, acts: seq<Act>)
    decreases |acts|
  {
    acts == [] || (Possible(s, acts[0]) && Runnable(Apply(s, acts[0]), acts[1..]))
  }

  function Play(s: Stream, acts: seq<Act>): Stream
    requires Runnable(s, acts)
    decreases |acts|
  {
    if acts == [] then s else Play(Apply(s, acts[0]), acts[1..])
  }

  /** The payloads of the data frames, in order: what the relay forwards. */
  function DataOf(frames: seq<Frame>): seq<byte>
    decreases |frames|
  {
    if frames == [] then []
    else DataOf(frames[..|frames| - 1]) +
         (var f := frames[|frames| - 1]; if f.opcode in {OP_BINARY, OP_CONT, OP_TEXT} then f.payload else [])
  }

  lemma {:induction false} DataOfAppend(a: seq<Frame>, b: seq<Frame>)
    ensures DataOf(a + b) == DataOf(a) + DataOf(b)
    decreases |b|
  {
    if b == [] {
      assert a + b == a;
    } else {
      assert (a + b)[..|a + b| - 1] == a + b[..|b| - 1];
      DataOfAppend(a, b[..|b| - 1]);
    }
  }

  lemma DataOfOne(f: Frame)
    requires f.opcode == OP_BINARY
    ensures DataOf([f]) == f.payload
  {
    assert [f][..0] == [];
  }

  lemma {:induction false} DataOfDrain(frames: seq<Sent>)
    requires DrainFrames(frames)
    ensures DataOf(FramesOf(frames)) == Payloads(frames)
    decreases |frames|
  {
    if frames != [] {
      var f := frames[0].frame;
      assert FramesOf(frames) == [f] + FramesOf(frames[1..]);
      DataOfAppend([f], FramesOf(frames[1..]));
      DataOfOne(f);
      DataOfDrain(frames[1..]);
    }
  }

  /** What the session keeps: every accepted byte is framed, or still queued, in order. */
  ghost predicate Conserved(s: Stream, max: nat) {
    s.accepted == DataOf(FramesOf(s.wire)) + s.queued && Sendable(s.wire, max)
  }

  lemma WireGrows(wire: seq<Sent>, more: seq<Sent>)
    ensures DataOf(FramesOf(wire + more)) == DataOf(FramesOf(wire)) + DataOf(FramesOf(more))
  {
    assert FramesOf(wire + more) == FramesOf(wire) + FramesOf(more);
    DataOfAppend(FramesOf(wire), FramesOf(more));
  }

  lemma DrainConserves(s: Stream, frames: seq<Sent>, max: nat)
    requires max >= TX_CHUNK && Conserved(s, max) && Possible(s, Drain(frames))
    ensures Conserved(Apply(s, Drain(frames)), max)
  {
    WireGrows(s.wire, frames);
    DataOfDrain(frames);
    var n := |Payloads(frames)|;
    assert s.queued == Payloads(frames) + s.queued[n..];
    var data := DataOf(FramesOf(s.wire));
    assert data + s.queued == data + Payloads(frames) + s.queued[n..];
  }

  lemma PongConserves(s: Stream, payload: seq<byte>, key: Mask, max: nat)
    requires max >= TX_CHUNK && Conserved(s, max) && |payload| <= 125
    ensures Conserved(Apply(s, Pong(payload, key)), max)
  {
    var pong := Sent(Frame(OP_PONG, payload), Some(key));
    WireGrows(s.wire, [pong]);
    var f := FramesOf([pong]);
    assert f == [pong.frame] && f[..0] == [];
    assert DataOf(f) == [];
  }

  lemma ApplyConserves(s: Stream, a: Act, max: nat)
    requires max >= TX_CHUNK && Conserved(s, max) && Possible(s, a)
    ensures Conserved(Apply(s, a), max)
  {
    match a {
      case Enqueue(b) =>
        var data := DataOf(FramesOf(s.wire));
        assert data + (s.queued + [b]) == data + s.queued + [b];
      case Drain(frames) => DrainConserves(s, frames, max);
      case Pong(payload, key) => PongConserves(s, payload, key, max);
    }
  }

  lemma {:induction false} PlayConserves(s: Stream, acts: seq<Act>, max: nat)
    requires max >= TX_CHUNK && Conserved(s, max) && Runnable(s, acts)
    ensures Conserved(Play(s, acts), max)
    decreases |acts|
  {
    if acts != [] {
      ApplyConserves(s, acts[0], max);
      PlayConserves(Apply(s, acts[0]), acts[1..], max);
    }
  }

  /** Transparency: start a session with any bytes queued; enqueue, drain and answer pings in
      any order with any windows, write failures and mask keys; let TCP deliver any part of
      the wire cut into any chunks. The orchestrator's decoder raises no error, and the data
      it has decoded is a prefix of the accepted bytes. Once the whole wire has arrived,
      that prefix and the ring together are all the accepted bytes. */
  lemma Transparent(queued: seq<byte>, acts: seq<Act>, chunks: seq<seq<byte>>, max: nat)
    requires max >= TX_CHUNK
    requires Runnable(Stream(queued, [], queued), acts)
    requires Flatten(chunks) <= Flatten(Wires(Play(Stream(queued, [], queued), acts).wire))
    ensures var s, d := Play(Stream(queued, [], queued), acts), FeedAll(FrameParser(max), [], chunks);
            && !d.failed
            && DataOf(d.frames) <= s.accepted
            && (Flatten(chunks) == Flatten(Wires(s.wire)) ==> d.rest == [] && DataOf(d.frames) + s.queued == s.accepted)
  {
    var start := Stream(queued, [], queued);
    var s := Play(start, acts);
    assert FramesOf([]) == [];
    PlayConserves(start, acts, max);
    Delivered(s, chunks, max);
  }

  /** What the decoder makes of any part of a conserved stream. */
  lemma Delivered(s: Stream, chunks: seq<seq<byte>>, max: nat)
    requires Conserved(s, max) && Flatten(chunks) <= Flatten(Wires(s.wire))
    ensures var d := FeedAll(FrameParser(max), [], chunks);
            && !d.failed
            && DataOf(d.frames) <= s.accepted
            && (Flatten(chunks) == Flatten(Wires(s.wire)) ==> d.rest == [] && DataOf(d.frames) + s.queued == s.accepted)
  {
    PartialDelivery(s.wire, chunks, max);
    var d := FeedAll(FrameParser(max), [], chunks);
    DataOfPrefix(d.frames, FramesOf(s.wire));
    var data := DataOf(FramesOf(s.wire));
    assert DataOf(d.frames) <= data <= data + s.queued;
    if Flatten(chunks) == Flatten(Wires(s.wire)) {
      StreamRoundTrip(s.wire, chunks, max);
    }
  }

  lemma DataOfPrefix(got: seq<Frame>, all: seq<Frame>)
    requires got <= all
    ensures DataOf(got) <= DataOf(all)
  {
    assert got + all[|got|..] == all;
    DataOfAppend(got, all[|got|..]);
  }

  /** What midi_queue_cleanup makes of the OUT ring, by the same test as in MidiPipe. */
  function Cleaned(s: Stream, last: int, now: int): Stream {
    if Stale(s.queued, last, now) then s.(queued := []) else s
  }

  /** The cleanup is the one exception: it keeps the account of a session exactly when the
      ring was empty or has moved within the last second. */
  lemma StaleFlushLoses(s: Stream, last: int, now: int, max: nat)
    requires Conserved(s, max)
    ensures Conserved(Cleaned(s, last, now), max) <==> !Stale(s.queued, last, now)
  {
    var data := DataOf(FramesOf(s.wire));
    assert |data + s.queued| == |data| + |s.queued|;
  }

  // ---------------------------------------------------------------- answers to pings

  function PongActs(answers: seq<Answer>): seq<Act>
    requires forall a <- answers :: a.sent.key.Some?
    decreases |answers|
  {
    if answers == [] then []
    else if answers[0].taken then [ActOf(answers[0].sent)] + PongActs(answers[1..])
    else PongActs(answers[1..])
  }

  function ActOf(sent: Sent): Act
    requires sent.key.Some?
  {
    Pong(sent.frame.payload, sent.key.value)
  }

  /** What a receive writes is a run of Pong acts: the frames it puts on the wire are those. */
  lemma {:induction false} AnswersArePongs(s: Stream, answers: seq<Answer>, asked: seq<seq<byte>>)
    requires Pongs(answers, asked)
    ensures forall a <- answers :: a.sent.key.Some?
    ensures Runnable(s, PongActs(answers)) && Play(s, PongActs(answers)) == s.(wire := s.wire + Taken(answers))
    decreases |answers|
  {
    assert forall i :: 0 <= i < |asked| ==> IsPong(answers[i].sent, asked[i]);
    if answers == [] {
      assert s.wire + [] == s.wire;
    } else {
      var sent, more := answers[0].sent, answers[1..];
      assert IsPong(sent, asked[0]);
      PongsTail(answers, asked);
      if answers[0].taken {
        AnswersArePongs(s.(wire := s.wire + [sent]), more, asked[1..]);
        Regroup(s.wire, [sent], Taken(more));
        FirstPong(s, sent, PongActs(more));
      } else {
        AnswersArePongs(s, more, asked[1..]);
        assert [] + Taken(more) == Taken(more);
      }
    }
  }

  lemma PongsTail(answers: seq<Answer>, asked: seq<seq<byte>>)
    requires Pongs(answers, asked) && answers != []
    ensures Pongs(answers[1..], asked[1..])
  {
    assert forall i :: 0 <= i < |asked[1..]| ==> answers[1..][i] == answers[i + 1] && asked[1..][i] == asked[i + 1];
  }

  lemma FirstPong(s: Stream, sent: Sent, acts: seq<Act>)
    requires sent.key.Some? && sent.frame.opcode == OP_PONG && |sent.frame.payload| <= 125
    requires Runnable(s.(wire := s.wire + [sent]), acts)
    ensures Runnable(s, [ActOf(sent)] + acts)
    ensures Play(s, [ActOf(sent)] + acts) == Play(s.(wire := s.wire + [sent]), acts)
  {
    var all := [ActOf(sent)] + acts;
    assert all[1..] == acts && Apply(s, all[0]) == s.(wire := s.wire + [sent]);
  }

  // ---------------------------------------------------------------- WsConn.recv

  datatype Received = Eof | Bytes(data: seq<byte>) | KeepReading

  /** The frame loop of WsConn.recv over the frames of one read. */
  method RecvFrames(frames: seq<Frame>) returns (r: Received, pongs: seq<seq<byte>>)
    ensures r.Eof? <==> exists f <- frames :: f.opcode == OP_CLOSE
    ensures !r.Eof? ==> r == if DataOf(frames) == [] then KeepReading else Bytes(DataOf(frames))
    ensures !r.Eof? ==> |pongs| == |Pings(frames)| && pongs == Pings(frames)
  {
    var out: seq<byte> := [];
    pongs := [];
    for i := 0 to |frames|
      invariant out == DataOf(frames[..i]) && pongs == Pings(frames[..i])
      invariant forall f <- frames[..i] :: f.opcode != OP_CLOSE
    {
      assert frames[..i + 1][..i] == frames[..i];
      var f := frames[i];
      if f.opcode in {OP_BINARY, OP_CONT, OP_TEXT} {
        out := out + f.payload;
      } else if f.opcode == OP_PING {
        pongs := pongs + [f.payload];
      } else if f.opcode == OP_CLOSE {
        return Eof, pongs;
      }
    }
    assert frames[..|frames|] == frames;
    if out != [] {
      return Bytes(out), pongs;
    }
    return KeepReading, pongs;
  }

  function Pings(frames: seq<Frame>): seq<seq<byte>>
    decreases |frames|
  {
    if frames == [] then []
    else Pings(frames[..|frames| - 1]) +
         (var f := frames[|frames| - 1]; if f.opcode == OP_PING then [f.payload] else [])
  }
}
