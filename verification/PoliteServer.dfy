/** Servers that send no data behind a close (section 5.5.1 of RFC 6455), seen as bytes: the
    condition under which rp/src/midi.c replays nothing, stated on what the server sends. */
module PoliteServer {
  import opened Bytes
  import opened DeviceWs
  import opened Session
  import FrameCodec

  /** No data frame behind a close; control frames may follow it. */
  predicate Polite(frames: seq<FrameCodec.Frame>) {
    && (forall f <- frames :: Acceptable(f))
    && forall i, j :: 0 <= i < j < |frames| && frames[i].opcode == FrameCodec.OP_CLOSE ==> IsControl(frames[j].opcode)
  }

  predicate QuietEvents(events: seq<Event>) {
    forall i, j :: 0 <= i < j < |events| && IsClose(events[i]) ==> !events[j].Data?
  }

  predicate NoData(events: seq<Event>) {
    forall e <- events :: !e.Data?
  }

  lemma {:induction false} ControlsHaveNoData(frames: seq<FrameCodec.Frame>)
    requires forall f <- frames :: IsControl(f.opcode)
    ensures NoData(AllEvents(frames))
    decreases |frames|
  {
    if frames != [] {
      ControlsHaveNoData(frames[1..]);
    }
  }

  lemma {:induction false} PoliteIsQuiet(frames: seq<FrameCodec.Frame>)
    requires Polite(frames)
    ensures QuietEvents(AllEvents(frames))
    decreases |frames|
  {
    if frames != [] {
      var first, rest := FrameEvents(frames[0]), AllEvents(frames[1..]);
      PoliteIsQuiet(frames[1..]);
      if frames[0].opcode == FrameCodec.OP_CLOSE {
        ControlsHaveNoData(frames[1..]);
      }
      QuietJoin(first, rest);
    }
  }

  lemma QuietJoin(first: seq<Event>, rest: seq<Event>)
    requires QuietEvents(first) && QuietEvents(rest) && (HasClose(first) ==> NoData(rest))
    ensures QuietEvents(first + rest)
  {
    var all := first + rest;
    forall i, j | 0 <= i < j < |all| && IsClose(all[i])
      ensures !all[j].Data?
    {
      if i >= |first| {
        assert all[i] == rest[i - |first|] && all[j] == rest[j - |first|];
      } else {
        assert all[i] == first[i];
        if j < |first| {
          assert all[j] == first[j];
        } else {
          assert all[j] == rest[j - |first|] && rest[j - |first|] in rest;
        }
      }
    }
  }

  lemma QuietParts(a: seq<Event>, b: seq<Event>)
    requires QuietEvents(a + b)
    ensures QuietEvents(a) && QuietEvents(b)
  {
    var all := a + b;
    assert forall i :: 0 <= i < |a| ==> all[i] == a[i];
    assert forall i :: 0 <= i < |b| ==> all[|a| + i] == b[i];
  }

  lemma {:induction false} NothingAfterClose(events: seq<Event>)
    requires QuietEvents(events) && HasClose(events)
    ensures AfterClose(events) == []
    decreases |events|
  {
    var front, last := events[..|events| - 1], events[|events| - 1];
    var i :| 0 <= i < |events| && IsClose(events[i]);
    if !IsClose(last) {
      assert front[i] == events[i];
      NothingAfterClose(front);
    }
  }

  /** Quiet events cannot leak, however they are cut into segments. */
  lemma {:induction false} QuietSegments(d: Dec, segs: seq<seq<byte>>)
    requires QuietEvents(FeedAll(d, segs).out)
    ensures !Leaks(d, segs)
    decreases |segs|
  {
    if segs != [] {
      var t := Run(d, segs[0]);
      if t.ok {
        QuietParts(t.out, FeedAll(t.dec, segs[1..]).out);
        if HasClose(t.out) {
          NothingAfterClose(t.out);
        } else {
          QuietSegments(t.dec, segs[1..]);
        }
      }
    }
  }

  // ---------------------------------------------------------------- what a connection hears

  /** Part of what a polite server sends, as far as it has arrived. */
  ghost predicate PoliteBytes(bytes: seq<byte>) {
    exists frames :: Polite(frames) && bytes <= ServerWire(frames)
  }

  lemma PoliteDecodes(bytes: seq<byte>)
    requires PoliteBytes(bytes)
    ensures Run(AtOp, bytes).ok && QuietEvents(Run(AtOp, bytes).out)
  {
    var frames :| Polite(frames) && bytes <= ServerWire(frames);
    var wire := ServerWire(frames);
    assert wire == bytes + wire[|bytes|..];
    RunOfWire(frames);
    RunSplit(AtOp, bytes, wire[|bytes|..]);
    PoliteIsQuiet(frames);
    var t := Run(AtOp, bytes);
    QuietParts(t.out, Run(t.dec, wire[|bytes|..]).out);
  }

  /** All bytes received since the connection was made. */
  function Heard(got: seq<byte>, h: Happening): seq<byte> {
    match h
    case Connected(_) => []
    case Received(segs) => got + Flatten(segs)
    case _ => got
  }

  /** Any response, and behind its blank line the frames of a polite server. */
  ghost predicate PoliteStream(got: seq<byte>) {
    HeaderEnd(got) == 0 || PoliteBytes(got[HeaderEnd(got)..])
  }

  ghost predicate PoliteRun(run: seq<Happening>, got: seq<byte>)
    decreases |run|
  {
    run == [] || (PoliteStream(Heard(got, run[0])) && PoliteRun(run[1..], Heard(got, run[0])))
  }

  /** The link stands where the bytes heard lead to. */
  ghost predicate Linked(s: Sess, got: seq<byte>) {
    && (s.net == Handshake ==> s.hs == got && s.dec == AtOp && HeaderEnd(got) == 0)
    && (s.net == Up ==>
          0 < HeaderEnd(got) && Run(AtOp, got[HeaderEnd(got)..]).ok && s.dec == Run(AtOp, got[HeaderEnd(got)..]).dec)
  }

  lemma UpLinked(s: Sess, segs: seq<seq<byte>>, got: seq<byte>, config: Config)
    requires config.ws && s.net == Up && |s.inq| < QUEUE_SIZE && Linked(s, got) && PoliteStream(got + Flatten(segs))
    ensures !Leaks(s.dec, segs) && Linked(Recv(s, segs, config), got + Flatten(segs))
  {
    var data, h := Flatten(segs), HeaderEnd(got);
    HeaderEndStays(got, data);
    assert (got + data)[h..] == got[h..] + data;
    PoliteDecodes((got + data)[h..]);
    RunSplit(AtOp, got[h..], data);
    SegmentationIndependence(s.dec, segs);
    QuietParts(Run(AtOp, got[h..]).out, Run(s.dec, data).out);
    QuietSegments(s.dec, segs);
    SegmentsDrop(s, segs, s.era);
  }

  lemma ShakeLinked(s: Sess, data: seq<byte>, got: seq<byte>, config: Config)
    requires s.net == Handshake && |s.inq| < QUEUE_SIZE && Linked(s, got) && PoliteStream(got + data)
    ensures !LeaksAtUpgrade(s, data, config.valid)
    ensures Linked(HandshakeRecv(s, data, config.valid, s.era), got + data)
  {
    var hs := got + data;
    var h := HeaderEnd(hs);
    if |hs| <= HANDSHAKE_MAX && 0 < h && config.valid(hs[..h]) {
      PoliteDecodes(hs[h..]);
      assert [hs[h..]][1..] == [];
      var t := Run(AtOp, hs[h..]);
      assert FeedAll(AtOp, [hs[h..]]) == Emit(t.out, Trace(t.dec, [], true));
      assert t.out + [] == t.out;
      QuietSegments(AtOp, [hs[h..]]);
      if h < |hs| {
        SegmentDrops(s.(hs := hs, net := Up), t, s.era);
      } else {
        assert hs[h..] == [];
      }
    }
  }

  lemma StepLinked(s: Sess, h: Happening, got: seq<byte>, config: Config)
    requires config.ws && Enabled(s, h) && |s.inq| < QUEUE_SIZE && Linked(s, got) && PoliteStream(Heard(got, h))
    ensures !Leak(s, h, config) && Linked(Happen(s, h, config), Heard(got, h))
  {
    if h.Received? {
      if s.net == Up {
        UpLinked(s, h.segs, got, config);
      } else {
        ShakeLinked(s, Flatten(h.segs), got, config);
      }
    }
  }

  /** A polite server, heard in any segments over any number of connections, is quiet after
      its closes, so nothing is replayed. */
  lemma {:induction false} PoliteIsEnough(s: Sess, run: seq<Happening>, got: seq<byte>, config: Config)
    requires config.ws && Fresh(s) && |s.inq| < QUEUE_SIZE && Carrier(s, config) && Linked(s, got)
    requires Playable(s, run, config) && PoliteRun(run, got)
    ensures QuietAfterClose(s, run, config) && Fresh(Play(s, run, config))
    decreases |run|
  {
    if run != [] {
      StepLinked(s, run[0], got, config);
      if run[0].Received? {
        ReceivedFresh(s, run[0].segs, config);
      } else {
        OthersFresh(s, run[0], config);
      }
      CarrierKept(s, run[0], config);
      PoliteIsEnough(Happen(s, run[0], config), run[1..], Heard(got, run[0]), config);
    }
  }

  /** From boot, over WebSocket: a condition on the server's bytes alone rules out replay. */
  lemma NoReplayFromBoot(run: seq<Happening>, config: Config)
    requires config.ws && Playable(INITIAL, run, config) && PoliteRun(run, [])
    ensures Fresh(Play(INITIAL, run, config))
  {
    PoliteIsEnough(INITIAL, run, [], config);
  }
}
