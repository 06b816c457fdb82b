/** Incremental parsing of a byte stream by any parser that takes one frame off the front
    of a buffer. Nothing here depends on what a frame looks like. */
module StreamParser {
  import opened Bytes

  datatype Parse<+F> = NeedMore | TooLarge(length: nat) | Got(frame: F, used: nat)

  type Parser<!F> = seq<byte> -> Parse<F>

  /** Every frame takes at least one byte of the buffer and no more than it holds. */
  ghost predicate Consumes<F>(parse: Parser<F>) {
    forall b :: parse(b).Got? ==> 0 < parse(b).used <= |b|
  }

  /** More input never changes a verdict already reached. */
  ghost predicate Stable<F>(parse: Parser<F>) {
    forall b, c {:trigger parse(b + c)} :: !parse(b).NeedMore? ==> parse(b + c) == parse(b)
  }

  datatype Drained<+F> = Drained(frames: seq<F>, rest: seq<byte>, failed: bool)

  function Before<F>(frames: seq<F>, d: Drained<F>): Drained<F> {
    Drained(frames + d.frames, d.rest, d.failed)
  }

  /** Every whole frame at the front of the buffer, and what is left. */
  ghost function Drain<F>(parse: Parser<F>, b: seq<byte>): (d: Drained<F>)
    requires Consumes(parse)
    ensures if d.failed then parse(d.rest).TooLarge? else parse(d.rest).NeedMore?
    decreases |b|
  {
    match parse(b)
    case NeedMore => Drained([], b, false)
    case TooLarge(_) => Drained([], b, true)
    case Got(frame, used) => Before([frame], Drain(parse, b[used..]))
  }

  lemma BeforeBefore<F>(a: seq<F>, b: seq<F>, d: Drained<F>)
    ensures Before(a, Before(b, d)) == Before(a + b, d)
  {
    assert a + (b + d.frames) == (a + b) + d.frames;
  }

  /** Going on from where a drain stopped; a refusal is final. */
  ghost function Resume<F>(parse: Parser<F>, d: Drained<F>, c: seq<byte>): Drained<F>
    requires Consumes(parse)
  {
    if d.failed then Drained(d.frames, d.rest + c, true)
    else Before(d.frames, Drain(parse, d.rest + c))
  }

  /** Draining a buffer and then the rest of the stream loses and reorders nothing. */
  lemma {:induction false} DrainSplit<F>(parse: Parser<F>, b: seq<byte>, c: seq<byte>)
    requires Consumes(parse) && Stable(parse)
    ensures Drain(parse, b + c) == Resume(parse, Drain(parse, b), c)
    decreases |b|
  {
    var first := parse(b);
    if first.NeedMore? {
      assert Drain(parse, b) == Drained([], b, false);
    } else if first.TooLarge? {
      assert parse(b + c) == first;
      assert Drain(parse, b + c) == Drained([], b + c, true);
    } else {
      assert parse(b + c) == first;
      var left := b[first.used..];
      var d := Drain(parse, left);
      assert (b + c)[first.used..] == left + c;
      DrainSplit(parse, left, c);
      assert Drain(parse, b + c) == Before([first.frame], Resume(parse, d, c));
      if !d.failed {
        BeforeBefore([first.frame], d.frames, Drain(parse, d.rest + c));
      }
    }
  }

  /** A stream that will not be refused is not refused early either, and the frames of a
      part of it are the first frames of the whole. */
  lemma DeliveredSoFar<F>(parse: Parser<F>, got: seq<byte>, more: seq<byte>)
    requires Consumes(parse) && Stable(parse)
    requires !Drain(parse, got + more).failed
    ensures !Drain(parse, got).failed
    ensures Drain(parse, got).frames <= Drain(parse, got + more).frames
  {
    DrainSplit(parse, got, more);
  }

  /** The parser's whole life over a list of reads: it stops at the first refusal. */
  ghost function FeedAll<F>(parse: Parser<F>, rest: seq<byte>, chunks: seq<seq<byte>>): Drained<F>
    requires Consumes(parse)
    decreases |chunks|
  {
    if chunks == [] then Drained([], rest, false)
    else
      var d := Drain(parse, rest + chunks[0]);
      if d.failed then d else Before(d.frames, FeedAll(parse, d.rest, chunks[1..]))
  }

  /** Any partition of a stream into reads yields the frames of the undivided stream, and
      refuses exactly when the undivided stream does. */
  lemma {:induction false} ChunkIndependence<F>(parse: Parser<F>, rest: seq<byte>, chunks: seq<seq<byte>>)
    requires Consumes(parse) && Stable(parse) && parse(rest).NeedMore?
    ensures var d, whole := FeedAll(parse, rest, chunks), Drain(parse, rest + Flatten(chunks));
            && d.frames == whole.frames
            && d.failed == whole.failed
            && (!d.failed ==> d.rest == whole.rest)
            && d.rest <= whole.rest
    decreases |chunks|
  {
    if chunks == [] {
      assert rest + Flatten(chunks) == rest;
    } else {
      var b, c := rest + chunks[0], Flatten(chunks[1..]);
      assert rest + Flatten(chunks) == b + c;
      DrainSplit(parse, b, c);
      if !Drain(parse, b).failed {
        ChunkIndependence(parse, Drain(parse, b).rest, chunks[1..]);
      }
    }
  }

  /** The parser takes this frame off any buffer that starts with this wire form. */
  ghost predicate Reads<F>(parse: Parser<F>, wire: seq<byte>, frame: F) {
    |wire| > 0 && forall tail {:trigger parse(wire + tail)} :: parse(wire + tail) == Got(frame, |wire|)
  }

  ghost predicate ReadsAll<F>(parse: Parser<F>, wires: seq<seq<byte>>, frames: seq<F>) {
    |wires| == |frames| && forall i :: 0 <= i < |wires| ==> Reads(parse, wires[i], frames[i])
  }

  lemma {:induction false} DrainWires<F>(parse: Parser<F>, wires: seq<seq<byte>>, frames: seq<F>, tail: seq<byte>)
    requires Consumes(parse) && ReadsAll(parse, wires, frames)
    ensures Drain(parse, Flatten(wires) + tail) == Before(frames, Drain(parse, tail))
  {
    if wires == [] {
      assert Flatten(wires) + tail == tail;
    } else {
      var w, rest := wires[0], Flatten(wires[1..]) + tail;
      assert Flatten(wires) + tail == w + rest;
      assert Reads(parse, w, frames[0]);
      assert (w + rest)[|w|..] == rest;
      DrainWires(parse, wires[1..], frames[1..], tail);
      BeforeBefore([frames[0]], frames[1..], Drain(parse, tail));
      assert [frames[0]] + frames[1..] == frames;
    }
  }

  /** However the network splits the wire forms of a list of frames, feeding the pieces
      yields that list and leaves the buffer empty. */
  lemma AllDelivered<F>(parse: Parser<F>, wires: seq<seq<byte>>, frames: seq<F>, chunks: seq<seq<byte>>)
    requires Consumes(parse) && Stable(parse) && ReadsAll(parse, wires, frames)
    requires parse([]).NeedMore? && Flatten(chunks) == Flatten(wires)
    ensures FeedAll(parse, [], chunks) == Drained(frames, [], false)
  {
    ChunkIndependence(parse, [], chunks);
    DrainWires(parse, wires, frames, []);
    assert Drain(parse, []) == Drained([], [], false);
    assert Flatten(wires) + [] == Flatten(wires) == [] + Flatten(chunks);
  }

  /** While bytes are still on their way, nothing is refused and the frames returned so far
      are the first frames of the list. */
  lemma SomeDelivered<F>(parse: Parser<F>, wires: seq<seq<byte>>, frames: seq<F>, chunks: seq<seq<byte>>)
    requires Consumes(parse) && Stable(parse) && ReadsAll(parse, wires, frames)
    requires parse([]).NeedMore? && Flatten(chunks) <= Flatten(wires)
    ensures !FeedAll(parse, [], chunks).failed
    ensures FeedAll(parse, [], chunks).frames <= frames
  {
    var got := Flatten(chunks);
    assert Drain(parse, Flatten(wires)) == Drained(frames, [], false) by {
      DrainWires(parse, wires, frames, []);
      assert Flatten(wires) + [] == Flatten(wires);
      assert Drain(parse, []) == Drained([], [], false);
    }
    assert got + Flatten(wires)[|got|..] == Flatten(wires);
    DeliveredSoFar(parse, got, Flatten(wires)[|got|..]);
    assert [] + got == got;
    ChunkIndependence(parse, [], chunks);
  }
}
