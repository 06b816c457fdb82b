/** What single events do to the cartridge's link (rp/src/midi.c), and how a session comes up. */
module LinkLaws {
  import opened Bytes
  import opened DeviceWs
  import opened Session
  import opened InRing
  import FrameCodec

  // ---------------------------------------------------------------- the handshake

  /** CR LF CR LF ends at position i. */
  predicate BlankEnd(hs: seq<byte>, i: nat) {
    4 <= i <= |hs| && hs[i - 4..i] == [13, 10, 13, 10]
  }

  /** The header ends behind the first CR LF CR LF, or not at all. */
  lemma {:induction false} HeaderEndIs(hs: seq<byte>)
    ensures HeaderEnd(hs) > 0 ==> BlankEnd(hs, HeaderEnd(hs))
    ensures forall i: nat :: BlankEnd(hs, i) ==> 0 < HeaderEnd(hs) <= i
    decreases |hs|
  {
    if |hs| >= 4 {
      var front := hs[..|hs| - 1];
      HeaderEndIs(front);
      BlankLineIs(hs[|hs| - 4..], hs, |hs| - 4);
      if HeaderEnd(front) > 0 {
        SameBlank(hs, HeaderEnd(front));
      }
      forall i: nat | BlankEnd(hs, i)
        ensures 0 < HeaderEnd(hs) <= i
      {
        if i < |hs| {
          SameBlank(hs, i);
        } else {
          assert hs[|hs| - 4..] == hs[i - 4..i];
        }
      }
    }
  }

  lemma SameBlank(hs: seq<byte>, i: nat)
    requires i < |hs|
    ensures BlankEnd(hs[..|hs| - 1], i) <==> BlankEnd(hs, i)
  {
    if i >= 4 {
      assert hs[..|hs| - 1][i - 4..i] == hs[i - 4..i];
    }
  }

  lemma BlankLineIs(four: seq<byte>, hs: seq<byte>, i: nat)
    requires i + 4 <= |hs| && four == hs[i..i + 4]
    ensures BlankLineAt(hs, i) <==> four == [13, 10, 13, 10]
  {
    assert four[0] == hs[i] && four[1] == hs[i + 1] && four[2] == hs[i + 2] && four[3] == hs[i + 3];
  }

  /** Bytes of the response: more than 512 of them, or a response that is not the right one, end
      the attempt; without a blank line they are kept; with one the link is UP, and the frames
      behind it are received as on any link that is, a close or an error among them included. */
  lemma ShakeReceives(s: Sess, segs: seq<seq<byte>>, config: Config)
    requires config.ws && s.net == Handshake && |s.inq| < 16384
    ensures var hs := s.hs + Flatten(segs);
            var h := HeaderEnd(hs);
            var r := Recv(s, segs, config);
            if |hs| > 512 || (h > 0 && !config.valid(hs[..h])) then r == Drop(s)
            else if h == 0 then r == s.(hs := hs)
            else if h == |hs| then r == s.(hs := hs, net := Up)
            else
              var t := Run(s.dec, hs[h..]);
              if t.ok && !HasClose(t.out) then
                var ring := s.inq + Cells(Fitting(DataIn(t.out), |s.inq|), s.era);
                r == s.(hs := hs, net := Up, dec := t.dec, inq := ring, shown := HeadOf(ring))
              else r.net == Down && !r.pcb
  {
    var hs := s.hs + Flatten(segs);
    var h := HeaderEnd(hs);
    if 0 < h < |hs| && |hs| <= 512 && config.valid(hs[..h]) {
      var t := Run(s.dec, hs[h..]);
      if t.ok && !HasClose(t.out) {
        CallbacksQueue(s.(hs := hs, net := Up), t.out, s.era);
      } else {
        CallbackEffect(s.(hs := hs, net := Up), t.out, s.era);
      }
    }
  }

  lemma PlayTwo(s: Sess, h1: Happening, h2: Happening, config: Config)
    requires Enabled(s, h1) && Enabled(Happen(s, h1, config), h2)
    ensures Playable(s, [h1, h2], config) && Play(s, [h1, h2], config) == Happen(Happen(s, h1, config), h2, config)
  {
    assert [h1, h2][1..] == [h2] && [h2][1..] == [];
    assert Playable(Happen(s, h1, config), [h2], config);
    assert Play(Happen(s, h1, config), [h2], config) == Happen(Happen(s, h1, config), h2, config);
  }

  /** Over plain TCP the link is UP once TCP is. */
  lemma TcpComesUp(config: Config)
    requires !config.ws
    ensures var run := [ConnectTo(true, true), Connected(true)];
            Playable(INITIAL, run, config) && Play(INITIAL, run, config) == INITIAL.(net := Up, pcb := true)
  {
    PlayTwo(INITIAL, ConnectTo(true, true), Connected(true), config);
  }

  /** Over WebSocket it is UP once a right response of at most 512 bytes has arrived, cut
      anyhow into receives, each but the last without the end of the header. */
  lemma WsComesUp(first: seq<seq<byte>>, second: seq<seq<byte>>, config: Config)
    requires config.ws && HeaderEnd(Flatten(first)) == 0
    requires var all := Flatten(first) + Flatten(second);
             |all| <= 512 && HeaderEnd(all) == |all| > 0 && config.valid(all)
    ensures var shaking := Happen(Happen(INITIAL, ConnectTo(true, true), config), Connected(true), config);
            var up := Recv(Recv(shaking, first, config), second, config);
            && shaking.net == Handshake && shaking.pcb
            && up == INITIAL.(net := Up, pcb := true, hs := Flatten(first) + Flatten(second))
  {
    var shaking := Happen(Happen(INITIAL, ConnectTo(true, true), config), Connected(true), config);
    ShakeReceives(shaking, first, config);
    assert [] + Flatten(first) == Flatten(first);
    var s := Recv(shaking, first, config);
    assert |Flatten(first)| <= 512;
    ShakeReceives(s, second, config);
    var all := Flatten(first) + Flatten(second);
    assert all[..|all|] == all;
  }

  // ---------------------------------------------------------------- the pings to answer

  /** What the server's pings carry. */
  function PingPayloads(frames: seq<FrameCodec.Frame>): seq<seq<byte>> {
    if frames == [] then []
    else (if frames[0].opcode == 9 then [frames[0].payload] else []) + PingPayloads(frames[1..])
  }

  lemma {:induction false} PingsAppend(a: seq<Event>, b: seq<Event>)
    ensures Pings(a + b) == Pings(a) + Pings(b)
    decreases |b|
  {
    if b == [] {
      assert a + b == a;
    } else {
      var front := b[..|b| - 1];
      assert (a + b)[..|a + b| - 1] == a + front;
      PingsAppend(a, front);
    }
  }

  lemma {:induction false} NoPings(events: seq<Event>)
    requires forall i :: 0 <= i < |events| ==> events[i].Data?
    ensures Pings(events) == []
    decreases |events|
  {
    if events != [] {
      NoPings(events[..|events| - 1]);
    }
  }

  lemma PingsInFrame(f: FrameCodec.Frame)
    requires Acceptable(f)
    ensures Pings(FrameEvents(f)) == if f.opcode == 9 then [f.payload] else []
  {
    if IsControl(f.opcode) {
      var e := Control(f.opcode, f.payload);
      assert [e][..0] == [] && Pings([]) == [];
      assert Pings([e]) == Pings([e][..0]) + if IsPing(e) then [f.payload] else [];
    } else {
      NoPings(DataEvents(f.payload));
    }
  }

  lemma {:induction false} PingsInFrames(frames: seq<FrameCodec.Frame>)
    requires forall f <- frames :: Acceptable(f)
    ensures Pings(AllEvents(frames)) == PingPayloads(frames)
    decreases |frames|
  {
    if frames != [] {
      PingsInFrame(frames[0]);
      PingsInFrames(frames[1..]);
      PingsAppend(FrameEvents(frames[0]), AllEvents(frames[1..]));
    }
  }

  lemma {:induction false} AskedBySegments(s: Sess, segs: seq<seq<byte>>, src: nat)
    requires s.net == Up && s.pcb && |s.inq| < 16384
    requires FeedAll(s.dec, segs).ok && !HasClose(FeedAll(s.dec, segs).out)
    ensures AskedInSegments(s, segs, src) == Pings(FeedAll(s.dec, segs).out)
    decreases |segs|
  {
    if segs != [] {
      var t, rest := Run(s.dec, segs[0]), FeedAll(Run(s.dec, segs[0]).dec, segs[1..]);
      CloseInPart(t.out, rest.out);
      EveryPingAsked(s, t.out, src);
      CallbacksQueue(s, t.out, src);
      AskedBySegments(Segment(s, t, src), segs[1..], src);
      PingsAppend(t.out, rest.out);
    }
  }

  /** While UP, frames without a close, cut into any segments, ask for exactly the answers to
      their pings, in order. */
  lemma PingsAsked(s: Sess, frames: seq<FrameCodec.Frame>, segs: seq<seq<byte>>, config: Config)
    requires config.ws && s.net == Up && s.pcb && s.dec == AtOp && |s.inq| < 16384
    requires (forall f <- frames :: Acceptable(f) && f.opcode != 8) && Flatten(segs) == ServerWire(frames)
    ensures AskedInReceive(s, segs, config) == PingPayloads(frames)
  {
    DownstreamTransparent(frames, segs);
    NoCloseInFrames(frames);
    AskedBySegments(s, segs, s.era);
    PingsInFrames(frames);
  }

  /** And so do the frames that come in behind the upgrade response. */
  lemma PingsBehindResponse(s: Sess, segs: seq<seq<byte>>, frames: seq<FrameCodec.Frame>, config: Config)
    requires config.ws && s.net == Handshake && s.pcb && s.dec == AtOp && |s.inq| < 16384
    requires forall f <- frames :: Acceptable(f) && f.opcode != 8
    requires var hs := s.hs + Flatten(segs);
             var h := HeaderEnd(hs);
             0 < h <= |hs| <= 512 && config.valid(hs[..h]) && hs[h..] == ServerWire(frames)
    ensures AskedInReceive(s, segs, config) == PingPayloads(frames)
  {
    var hs := s.hs + Flatten(segs);
    var h := HeaderEnd(hs);
    RunOfWire(frames);
    NoCloseInFrames(frames);
    PingsInFrames(frames);
    if h == |hs| {
      assert hs[h..] == [];
      assert Run(s.dec, []).out == [];
    } else {
      EveryPingAsked(s.(hs := hs, net := Up), AllEvents(frames), s.era);
    }
  }

  // ---------------------------------------------------------------- single events

  /** A byte from the Atari is queued whatever the link does, unless 16383 bytes wait already. */
  lemma AtariByte(s: Sess, b: byte, config: Config)
    ensures Happen(s, FromAtari(b), config)
            == if |s.outq| < 16383 then s.(outq := s.outq + [Cell(b, s.era)]) else s
  {
  }

  /** An advance takes the head of the IN ring away and shows the next byte. */
  lemma AdvanceShowsNext(s: Sess, config: Config)
    ensures var ring := if |s.inq| == 0 then [] else s.inq[1..];
            Happen(s, Advance, config) == s.(inq := ring, shown := HeadOf(ring))
  {
  }

  /** A lost link, and an attempt that fails at once, leave nothing behind but the history. */
  lemma LostForgets(s: Sess, made: bool, started: bool, config: Config)
    ensures Happen(s, Lost, config) == Sess(Down, false, [], [], s.handed, s.era + 1, Published(false, 0), AtOp, [])
    ensures Enabled(s, ConnectTo(made, started)) && !(made && started) ==>
              Happen(s, ConnectTo(made, started), config) == Happen(s, Lost, config)
    ensures Enabled(s, Connected(false)) && config.ws ==> Happen(s, Connected(false), config) == Happen(s, Lost, config)
  {
  }

  /** A drain hands over the front of the OUT ring, in order, and nothing else changes. */
  lemma DrainHandsOver(s: Sess, front: seq<Cell>, back: seq<Cell>, config: Config)
    requires s.outq == front + back && (front != [] ==> s.net == Up && s.pcb)
    ensures var r := Happen(s, Drained(|front|), config);
            && r == s.(outq := back, handed := r.handed) && |r.handed| == |s.handed| + |front|
            && r.handed[..|s.handed|] == s.handed
            && forall i :: 0 <= i < |front| ==> r.handed[|s.handed| + i] == Handed(front[i], s.era)
  {
    var r := Happen(s, Drained(|front|), config);
    assert s.outq[|front|..] == back;
    forall i | 0 <= i < |front|
      ensures r.handed[|s.handed| + i] == Handed(front[i], s.era)
    {
      assert s.outq[i] == front[i];
    }
  }

  /** The cleanup empties the rings that are stale, and takes the shown byte away with the IN
      ring. */
  lemma CleanupEmpties(s: Sess, inStale: bool, outStale: bool, config: Config)
    ensures Happen(s, Cleanup(inStale, outStale), config)
            == s.(inq := if inStale then [] else s.inq, outq := if outStale then [] else s.outq,
                  shown := if inStale then Published(false, 0) else s.shown)
  {
  }
}
