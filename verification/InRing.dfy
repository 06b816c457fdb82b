/** Which bytes a receive leaves in the IN ring (rp/src/midi.c): all the data bytes, in order, as
    far as the ring has room for them. */
module InRing {
  import opened Bytes
  import opened DeviceWs
  import opened Session
  import FrameCodec

  /** As much of the data as fits a ring of 16384 slots, one of them always free, that holds
      `queued` bytes. */
  function Fitting(data: seq<byte>, queued: nat): (r: seq<byte>)
    requires queued < 16384
    ensures r <= data && |r| == Least(|data|, 16383 - queued)
  {
    data[..Least(|data|, 16383 - queued)]
  }

  /** The two longwords for a ring: no byte, or its head. */
  function HeadOf(ring: seq<Cell>): Published {
    if |ring| == 0 then Published(false, 0) else Published(true, ring[0].b)
  }

  /** Data callbacks append their bytes, in order, until the ring is full; other callbacks than a
      close leave the ring alone. */
  lemma {:induction false} CallbacksQueue(s: Sess, events: seq<Event>, src: nat)
    requires |s.inq| < 16384 && !HasClose(events)
    ensures OnEvents(s, events, src) == s.(inq := s.inq + Cells(Fitting(DataIn(events), |s.inq|), src))
    decreases |events|
  {
    if events == [] {
      assert s.inq + [] == s.inq;
    } else {
      var front, last := events[..|events| - 1], events[|events| - 1];
      assert forall i :: 0 <= i < |front| ==> front[i] == events[i];
      assert !IsClose(events[|events| - 1]);
      CallbacksQueue(s, front, src);
      assert events == front + [last];
      DataInAppend(front, [last]);
      DataInOne(last);
      OneMoreByte(s.inq, DataIn(front), last, src);
    }
  }

  lemma DataInOne(e: Event)
    ensures DataIn([e]) == if e.Data? then [e.b] else []
  {
    assert [e][1..] == [];
  }

  lemma OneMoreByte(ring: seq<Cell>, data: seq<byte>, e: Event, src: nat)
    requires |ring| < 16384
    ensures var now := ring + Cells(Fitting(data, |ring|), src);
            ring + Cells(Fitting(data + (if e.Data? then [e.b] else []), |ring|), src)
            == if e.Data? && |now| < 16383 then now + [Cell(e.b, src)] else now
  {
    if e.Data? {
      var more := data + [e.b];
      if |data| < 16383 - |ring| {
        assert Fitting(more, |ring|) == more && Fitting(data, |ring|) == data;
        assert Cells(more, src) == Cells(data, src) + [Cell(e.b, src)];
        Regroup(ring, Cells(data, src), [Cell(e.b, src)]);
      } else {
        assert Fitting(more, |ring|) == Fitting(data, |ring|);
      }
    } else {
      assert data + [] == data;
    }
  }

  /** With a close among them: the data in front of it is queued like that, and the close empties
      the ring. */
  lemma CallbacksUpToClose(s: Sess, before: seq<Event>, close: Event, src: nat)
    requires |s.inq| < 16384 && !HasClose(before) && IsClose(close)
    ensures OnEvents(s, before, src).inq == s.inq + Cells(Fitting(DataIn(before), |s.inq|), src)
    ensures OnEvents(s, before + [close], src).inq == [] && OnEvents(s, before + [close], src).net == Down
  {
    CallbacksQueue(s, before, src);
    assert (before + [close])[..|before|] == before;
  }

  lemma CloseInPart(a: seq<Event>, b: seq<Event>)
    requires !HasClose(a + b)
    ensures !HasClose(a) && !HasClose(b)
  {
    var all := a + b;
    assert forall i :: 0 <= i < |a| ==> all[i] == a[i];
    assert forall i :: 0 <= i < |b| ==> all[|a| + i] == b[i];
  }

  /** Queueing in two parts. */
  lemma FitsInTwo(ring: seq<Cell>, a: seq<byte>, b: seq<byte>, src: nat)
    requires |ring| < 16384
    ensures var now := ring + Cells(Fitting(a, |ring|), src);
            |now| < 16384 && now + Cells(Fitting(b, |now|), src) == ring + Cells(Fitting(a + b, |ring|), src)
  {
    var now := ring + Cells(Fitting(a, |ring|), src);
    var all := Fitting(a + b, |ring|);
    assert all == Fitting(a, |ring|) + Fitting(b, |now|);
    assert Cells(all, src) == Cells(Fitting(a, |ring|), src) + Cells(Fitting(b, |now|), src);
    Regroup(ring, Cells(Fitting(a, |ring|), src), Cells(Fitting(b, |now|), src));
  }

  lemma {:induction false} SegmentsQueue(s: Sess, segs: seq<seq<byte>>, src: nat)
    requires |s.inq| < 16384 && s.net == Up
    requires FeedAll(s.dec, segs).ok && !HasClose(FeedAll(s.dec, segs).out)
    ensures var t := FeedAll(s.dec, segs);
            Segments(s, segs, src) == s.(inq := s.inq + Cells(Fitting(DataIn(t.out), |s.inq|), src), dec := t.dec)
    decreases |segs|
  {
    if segs == [] {
      assert s.inq + [] == s.inq;
    } else {
      var t, rest := Run(s.dec, segs[0]), FeedAll(Run(s.dec, segs[0]).dec, segs[1..]);
      CloseInPart(t.out, rest.out);
      CallbacksQueue(s, t.out, src);
      var s' := Segment(s, t, src);
      FitsInTwo(s.inq, DataIn(t.out), DataIn(rest.out), src);
      SegmentsQueue(s', segs[1..], src);
      DataInAppend(t.out, rest.out);
    }
  }

  /** A receive while UP over WebSocket, with no close in it: every data byte decoded is queued,
      in order, as far as there is room, the ring's head is shown, and nothing else changes. */
  lemma UpReceives(s: Sess, segs: seq<seq<byte>>, config: Config)
    requires config.ws && s.net == Up && |s.inq| < 16384
    requires FeedAll(s.dec, segs).ok && !HasClose(FeedAll(s.dec, segs).out)
    ensures var t := FeedAll(s.dec, segs);
            var ring := s.inq + Cells(Fitting(DataIn(t.out), |s.inq|), s.era);
            Recv(s, segs, config) == s.(inq := ring, shown := HeadOf(ring), dec := t.dec)
  {
    SegmentsQueue(s, segs, s.era);
  }

  lemma CloseEither(a: seq<Event>, b: seq<Event>)
    requires HasClose(a + b)
    ensures HasClose(a) || HasClose(b)
  {
    var all := a + b;
    var i :| 0 <= i < |all| && IsClose(all[i]);
    assert if i < |a| then IsClose(a[i]) else IsClose(b[i - |a|]);
  }

  lemma {:induction false} SegmentsEnd(s: Sess, segs: seq<seq<byte>>, src: nat)
    requires s.net == Up && |s.inq| < 16384
    requires !(FeedAll(s.dec, segs).ok && !HasClose(FeedAll(s.dec, segs).out))
    ensures Segments(s, segs, src).net == Down && !Segments(s, segs, src).pcb
    decreases |segs|
  {
    if segs != [] {
      var t, rest := Run(s.dec, segs[0]), FeedAll(Run(s.dec, segs[0]).dec, segs[1..]);
      var s' := Segment(s, t, src);
      CallbackEffect(s, t.out, src);
      if !HasClose(t.out) && t.ok {
        if HasClose(t.out + rest.out) {
          CloseEither(t.out, rest.out);
        }
        SegmentsEnd(s', segs[1..], src);
      }
    }
  }

  /** A receive while UP over WebSocket loses the link if and only if it holds a close or bytes
      the decoder refuses; it reads no segment behind that one. */
  lemma UpEnds(s: Sess, segs: seq<seq<byte>>, config: Config)
    requires config.ws && s.net == Up && s.pcb && |s.inq| < 16384
    ensures var t := FeedAll(s.dec, segs);
            var r := Recv(s, segs, config);
            if t.ok && !HasClose(t.out) then r.net == Up && r.pcb else r.net == Down && !r.pcb
  {
    var t := FeedAll(s.dec, segs);
    if t.ok && !HasClose(t.out) {
      UpReceives(s, segs, config);
    } else {
      SegmentsEnd(s, segs, s.era);
    }
  }

  lemma {:induction false} NoCloseInFrames(frames: seq<FrameCodec.Frame>)
    requires forall f <- frames :: f.opcode != 8
    ensures !HasClose(AllEvents(frames))
    decreases |frames|
  {
    if frames != [] {
      NoCloseInFrames(frames[1..]);
      var first, rest := FrameEvents(frames[0]), AllEvents(frames[1..]);
      forall i | 0 <= i < |first + rest|
        ensures !IsClose((first + rest)[i])
      {
        assert i >= |first| ==> !IsClose(rest[i - |first|]);
      }
    }
  }

  /** In the server's terms: frames without a close, cut into any segments, add exactly their
      data payloads. */
  lemma FramesArrive(s: Sess, frames: seq<FrameCodec.Frame>, segs: seq<seq<byte>>, config: Config)
    requires config.ws && s.net == Up && s.dec == AtOp && |s.inq| < 16384
    requires (forall f <- frames :: Acceptable(f) && f.opcode != 8) && Flatten(segs) == ServerWire(frames)
    ensures var ring := s.inq + Cells(Fitting(DataPayloads(frames), |s.inq|), s.era);
            Recv(s, segs, config) == s.(inq := ring, shown := HeadOf(ring))
  {
    DownstreamTransparent(frames, segs);
    NoCloseInFrames(frames);
    UpReceives(s, segs, config);
  }

  lemma DataHasNoClose(data: seq<byte>)
    ensures !HasClose(DataEvents(data))
  {
    assert forall i :: 0 <= i < |DataEvents(data)| ==> DataEvents(data)[i].Data?;
  }

  /** Over plain TCP every received byte is queued. */
  lemma TcpReceives(s: Sess, segs: seq<seq<byte>>, config: Config)
    requires !config.ws && |s.inq| < 16384
    ensures var ring := s.inq + Cells(Fitting(Flatten(segs), |s.inq|), s.era);
            Recv(s, segs, config) == s.(inq := ring, shown := HeadOf(ring))
  {
    DataHasNoClose(Flatten(segs));
    CallbacksQueue(s, DataEvents(Flatten(segs)), s.era);
    DataInDataEvents(Flatten(segs));
  }
}
