/** How far a drain of the OUT ring goes and why it ends (midi_net_flush_out of rp/src/midi.c), on
    what the connection has seen: the windows it reported and the writes it was offered. */
module Drain {
  import opened Bytes
  import opened Session
  import FrameCodec

  /** A write to the connection, and whether TCP took it. */
  datatype Offer = Offer(data: seq<byte>, taken: bool)

  /** The state in which a drain begins. */
  datatype Begun = Begun(queue: seq<byte>, tail: nat, offers: seq<Offer>, windows: seq<nat>)

  /** What a carrier puts around a piece, and the longest piece it carries. */
  datatype Limits = Limits(overhead: nat, chunk: nat, framed: bool)

  const WEBSOCKET := Limits(8, 1024, true)
  const PLAIN_TCP := Limits(0, 0xFFFF, false)

  /** The bytes one write carries: as many as are queued, are contiguous in memory, fit the window
      and fit a chunk. */
  function CutSize(tail: nat, queued: nat, window: nat, c: Limits): nat
    requires tail < 16384 && window >= c.overhead
  {
    Least(Least(queued, 16384 - tail), Least(window - c.overhead, c.chunk))
  }

  /** Each piece is cut to exactly that size, by the window reported before it. */
  ghost predicate Exact(pieces: seq<seq<byte>>, b: Begun, ws: seq<nat>, c: Limits)
    decreases |pieces|
  {
    && |ws| == |pieces|
    && (pieces == [] ||
        var n := |pieces| - 1;
        var done := |Flatten(pieces[..n])|;
        && Exact(pieces[..n], b, ws[..n], c)
        && done < |b.queue| && ws[n] > c.overhead
        && |pieces[n]| == CutSize((b.tail + done) % 16384, |b.queue| - done, ws[n], c))
  }

  /** n writes have been offered since the beginning, and all were taken. */
  ghost predicate AllTaken(offers: seq<Offer>, b: Begun, n: nat) {
    && b.offers <= offers && |offers| == |b.offers| + n
    && forall i :: |b.offers| <= i < |offers| ==> offers[i].taken
  }

  /** A drain that goes on: the pieces are the front of the queue, one write and one window each. */
  ghost predicate Going(offers: seq<Offer>, windows: seq<nat>, b: Begun, pieces: seq<seq<byte>>, ws: seq<nat>,
                        c: Limits)
  {
    && Exact(pieces, b, ws, c) && Flatten(pieces) <= b.queue
    && windows == b.windows + ws && AllTaken(offers, b, |pieces|)
  }

  /** Why a drain ended: nothing is left, the window has no room for a byte, or TCP refused the
      write; a frame's mask key is arbitrary. */
  datatype Stop = Emptied | NoRoom(window: nat) | Refused(window: nat, key: Option<Mask>)

  function OnTheWire(piece: seq<byte>, key: Option<Mask>): seq<byte> {
    if key.None? then piece else FrameCodec.Encode(FrameCodec.OP_BINARY, piece, key)
  }

  ghost predicate Ended(offers: seq<Offer>, windows: seq<nat>, b: Begun, pieces: seq<seq<byte>>, ws: seq<nat>,
                        stop: Stop, c: Limits)
  {
    && b.tail < 16384 && Exact(pieces, b, ws, c) && Flatten(pieces) <= b.queue
    && var left := b.queue[|Flatten(pieces)|..];
       match stop
       case Emptied =>
         left == [] && windows == b.windows + ws && AllTaken(offers, b, |pieces|)
       case NoRoom(w) =>
         left != [] && w <= c.overhead && windows == b.windows + ws + [w] && AllTaken(offers, b, |pieces|)
       case Refused(w, key) =>
         && left != [] && w > c.overhead && windows == b.windows + ws + [w]
         && offers != [] && AllTaken(offers[..|offers| - 1], b, |pieces|) && key.Some? == c.framed
         && var cut := left[..CutSize((b.tail + |Flatten(pieces)|) % 16384, |left|, w, c)];
            offers[|offers| - 1] == Offer(OnTheWire(cut, key), false)
  }

  lemma NoWritesYet(b: Begun, c: Limits)
    ensures Going(b.offers, b.windows, b, [], [], c)
  {
    assert b.windows + [] == b.windows;
  }

  lemma FlattenMore(pieces: seq<seq<byte>>, piece: seq<byte>)
    ensures Flatten(pieces + [piece]) == Flatten(pieces) + piece
  {
    FlattenAppend(pieces, [piece]);
    FlattenOne(piece);
  }

  /** One write more. */
  lemma GoesOn(offers: seq<Offer>, windows: seq<nat>, b: Begun, pieces: seq<seq<byte>>, ws: seq<nat>, c: Limits,
               w: nat, piece: seq<byte>, data: seq<byte>)
    requires b.tail < 16384 && Going(offers, windows, b, pieces, ws, c)
    requires |Flatten(pieces)| < |b.queue| && w > c.overhead
    requires var left := b.queue[|Flatten(pieces)|..];
             piece == left[..CutSize((b.tail + |Flatten(pieces)|) % 16384, |left|, w, c)]
    ensures Going(offers + [Offer(data, true)], windows + [w], b, pieces + [piece], ws + [w], c)
  {
    var more := pieces + [piece];
    assert more[..|pieces|] == pieces && (ws + [w])[..|pieces|] == ws;
    FlattenMore(pieces, piece);
    Regroup(b.windows, ws, [w]);
    assert b.queue == Flatten(pieces) + b.queue[|Flatten(pieces)|..];
  }

  /** Why a drain ends, from one that goes on. */
  lemma Ends(offers: seq<Offer>, windows: seq<nat>, b: Begun, pieces: seq<seq<byte>>, ws: seq<nat>, c: Limits,
             w: nat, key: Option<Mask>)
    requires b.tail < 16384 && Going(offers, windows, b, pieces, ws, c)
    ensures |Flatten(pieces)| == |b.queue| ==> Ended(offers, windows, b, pieces, ws, Emptied, c)
    ensures |Flatten(pieces)| < |b.queue| && w <= c.overhead ==>
              Ended(offers, windows + [w], b, pieces, ws, NoRoom(w), c)
    ensures |Flatten(pieces)| < |b.queue| && w > c.overhead && key.Some? == c.framed ==>
              var left := b.queue[|Flatten(pieces)|..];
              var cut := left[..CutSize((b.tail + |Flatten(pieces)|) % 16384, |left|, w, c)];
              Ended(offers + [Offer(OnTheWire(cut, key), false)], windows + [w], b, pieces, ws, Refused(w, key), c)
  {
    Regroup(b.windows, ws, [w]);
    var left := b.queue[|Flatten(pieces)|..];
    if |left| > 0 && w > c.overhead {
      var cut := left[..CutSize((b.tail + |Flatten(pieces)|) % 16384, |left|, w, c)];
      var o := offers + [Offer(OnTheWire(cut, key), false)];
      assert o[..|o| - 1] == offers;
    }
  }

  // ---------------------------------------------------------------- what follows

  /** A drain that left bytes behind saw a window without room or a refused write last. */
  lemma LastSeen(offers: seq<Offer>, windows: seq<nat>, b: Begun, pieces: seq<seq<byte>>, ws: seq<nat>,
                 stop: Stop, c: Limits)
    requires Ended(offers, windows, b, pieces, ws, stop, c)
    ensures stop.NoRoom? ==> |windows| > |b.windows| && windows[|windows| - 1] <= c.overhead
    ensures stop.Refused? ==> |offers| > |b.offers| && !offers[|offers| - 1].taken
  {
  }

  /** With room in every window and every write taken, a drain empties the ring. */
  lemma OpenDrainEmpties(offers: seq<Offer>, windows: seq<nat>, b: Begun, pieces: seq<seq<byte>>, ws: seq<nat>,
                         stop: Stop, c: Limits)
    requires Ended(offers, windows, b, pieces, ws, stop, c)
    requires forall i :: |b.windows| <= i < |windows| ==> windows[i] > c.overhead
    requires forall i :: |b.offers| <= i < |offers| ==> offers[i].taken
    ensures Flatten(pieces) == b.queue
  {
    LastSeen(offers, windows, b, pieces, ws, stop, c);
    assert b.queue == Flatten(pieces) + b.queue[|Flatten(pieces)|..];
  }

  lemma {:induction false} FirstIsExact(pieces: seq<seq<byte>>, b: Begun, ws: seq<nat>, c: Limits)
    requires b.tail < 16384 && Exact(pieces, b, ws, c) && pieces != []
    ensures |b.queue| > 0 && ws[0] > c.overhead && |pieces[0]| == CutSize(b.tail, |b.queue|, ws[0], c)
    decreases |pieces|
  {
    var n := |pieces| - 1;
    if n == 0 {
      assert Flatten(pieces[..0]) == [];
    } else {
      FirstIsExact(pieces[..n], b, ws[..n], c);
    }
  }

  /** With bytes queued the window is asked for; with room in it a write is offered, and what it
      carries when it is taken is exactly one cut of the queue. */
  lemma DrainStarts(offers: seq<Offer>, windows: seq<nat>, b: Begun, pieces: seq<seq<byte>>, ws: seq<nat>,
                    stop: Stop, c: Limits)
    requires Ended(offers, windows, b, pieces, ws, stop, c) && b.queue != []
    ensures |windows| > |b.windows|
    ensures var w := windows[|b.windows|];
            w > c.overhead ==>
              && |offers| > |b.offers|
              && (offers[|b.offers|].taken ==>
                    pieces != [] && pieces[0] == b.queue[..CutSize(b.tail, |b.queue|, w, c)])
  {
    if pieces == [] {
      assert Flatten(pieces) == [] && b.queue[0..] == b.queue;
      assert ws == [] && b.windows + [] == b.windows;
      if stop.Refused? {
        assert offers[|b.offers|] == offers[|offers| - 1];
      }
    } else {
      FirstIsExact(pieces, b, ws, c);
      assert windows[|b.windows|] == ws[0];
      assert pieces[0] <= Flatten(pieces) <= b.queue;
    }
  }
}
