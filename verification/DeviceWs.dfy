/** The cartridge's RFC 6455 codec (rp/src/midi_ws.c): a masked-frame builder and a byte
    state machine that streams payload runs without buffering frames. */
module DeviceWs {
  import opened Bytes
  import FrameCodec

  const FRAME_OVERHEAD: nat := 8

  method BuildHeader(out: array<byte>, opcode: nat, len: nat) returns (o: nat)
    requires len <= 0xFFFF && out.Length >= 4
    modifies out
    ensures o <= 4 && out[..o] == FrameCodec.Header(opcode, len, true) && out[o..] == old(out[..])[o..]
  {
    out[0] := 0x80 + opcode % 16;
    if len < 126 {
      out[1] := 0x80 + len;
      o := 2;
      assert Pack(len, 0) == [];
    } else {
      out[1] := 0x80 + 126;
      out[2] := len / 256;
      out[3] := len % 256;
      o := 4;
      assert Pack(len / 256, 1) == Pack(0, 0) + [len / 256 % 256];
      assert Pack(len, 2) == [len / 256, len % 256];
    }
  }

  /** midi_ws_build_frame: one final masked frame into a caller's buffer. The other codec's
      encoder would have produced the same bytes. */
  method BuildFrame(out: array<byte>, opcode: nat, payload: seq<byte>, key: Mask) returns (o: nat)
    requires |payload| <= 0xFFFF && out.Length >= |payload| + FRAME_OVERHEAD
    modifies out
    ensures o <= |payload| + FRAME_OVERHEAD
    ensures out[..o] == FrameCodec.Encode(opcode, payload, Some(key))
    ensures out[o..] == old(out[..])[o..]
  {
    var len := |payload|;
    ghost var head := FrameCodec.Header(opcode, len, true);
    o := BuildHeader(out, opcode, len);
    out[o], out[o + 1], out[o + 2], out[o + 3] := key[0], key[1], key[2], key[3];
    o := o + 4;
    assert out[..o] == head + key;
    MaskInto(out, o, payload, key);
    ghost var base := o;
    o := o + len;
    assert out[..o] == out[..base] + out[base..o];
  }

  /** The masking loop of the frame builder. */
  method MaskInto(out: array<byte>, base: nat, payload: seq<byte>, key: Mask)
    requires base + |payload| <= out.Length
    modifies out
    ensures out[..base] == old(out[..base])
    ensures out[base..base + |payload|] == Masked(payload, key)
    ensures out[base + |payload|..] == old(out[base + |payload|..])
  {
    for i := 0 to |payload|
      invariant forall k | 0 <= k < i :: out[base + k] == Masked(payload, key)[k]
      invariant forall k | 0 <= k < base || base + i <= k < out.Length :: out[k] == old(out[k])
    {
      out[base + i] := Xor(payload[i], key[i % 4]);
    }
  }

  // ---------------------------------------------------------------- the byte machine

  /** Where a decoder stands between two bytes. Only a control frame keeps what it has read. */
  datatype Dec =
    | AtOp
    | AtLen(opcode: nat)
    | AtExt(opcode: nat, bytesLeft: nat, acc: nat)
    | AtPayload(opcode: nat, left: nat, got: seq<byte>)

  datatype Event = Data(b: byte) | Control(opcode: nat, payload: seq<byte>)

  datatype Stepped = Bad | Next(dec: Dec, out: seq<Event>)

  predicate IsControl(opcode: nat) {
    opcode / 8 % 2 == 1
  }

  function Completed(opcode: nat, payload: seq<byte>): seq<Event> {
    if IsControl(opcode) then [Control(opcode, payload)] else []
  }

  /** The header is over: an empty payload completes the frame at once. */
  function Begin(opcode: nat, length: nat): Stepped {
    if length == 0 then Next(AtOp, Completed(opcode, [])) else Next(AtPayload(opcode, length, []), [])
  }

  function Step(d: Dec, b: byte): Stepped {
    match d
    case AtOp => Next(AtLen(b % 16), [])
    case AtLen(op) =>
      if b >= 128 || (IsControl(op) && b > 125) then Bad
      else if b < 126 then Begin(op, b)
      else Next(AtExt(op, if b == 126 then 2 else 8, 0), [])
    case AtExt(op, bytesLeft, acc) =>
      if bytesLeft <= 1 then Begin(op, acc * 256 + b) else Next(AtExt(op, bytesLeft - 1, acc * 256 + b), [])
    case AtPayload(op, left, got) => Absorb(op, left, got, [b])
  }

  function DataEvents(run: seq<byte>): (r: seq<Event>)
    ensures |r| == |run|
  {
    seq(|run|, i requires 0 <= i < |run| => Data(run[i]))
  }

  /** A run of payload bytes, no longer than what the frame still owes. */
  function Absorb(op: nat, left: nat, got: seq<byte>, run: seq<byte>): Stepped {
    var now := if IsControl(op) then got + run else [];
    var out := if IsControl(op) then [] else DataEvents(run);
    if left <= |run| then Next(AtOp, out + Completed(op, now))
    else Next(AtPayload(op, left - |run|, now), out)
  }

  datatype Trace = Trace(dec: Dec, out: seq<Event>, ok: bool)

  function Emit(out: seq<Event>, t: Trace): Trace {
    Trace(t.dec, out + t.out, t.ok)
  }

  /** The machine over a stretch of bytes; an error stops it where it stands. */
  function Run(d: Dec, data: seq<byte>): Trace
    decreases |data|
  {
    if data == [] then Trace(d, [], true)
    else
      match Step(d, data[0])
      case Bad => Trace(d, [], false)
      case Next(d', out) => Emit(out, Run(d', data[1..]))
  }

  lemma EmitEmit(a: seq<Event>, b: seq<Event>, t: Trace)
    ensures Emit(a, Emit(b, t)) == Emit(a + b, t)
  {
    assert a + (b + t.out) == (a + b) + t.out;
  }

  /** TCP re-segmentation is invisible: a then b gives the events and state of a + b. */
  lemma {:induction false} RunSplit(d: Dec, a: seq<byte>, b: seq<byte>)
    ensures Run(d, a + b) ==
            if Run(d, a).ok then Emit(Run(d, a).out, Run(Run(d, a).dec, b)) else Run(d, a)
    decreases |a|
  {
    if a == [] {
      assert a + b == b;
    } else {
      assert (a + b)[1..] == a[1..] + b;
      var s := Step(d, a[0]);
      if s.Next? {
        RunSplit(s.dec, a[1..], b);
        var t := Run(s.dec, a[1..]);
        if t.ok {
          EmitEmit(s.out, t.out, Run(t.dec, b));
        }
      }
    }
  }

  /** No control frame is ever held that is longer than 125 bytes. */
  predicate Sane(d: Dec) {
    match d
    case AtExt(op, _, _) => !IsControl(op)
    case AtPayload(op, left, got) => left > 0 && (IsControl(op) ==> |got| + left <= 125)
    case _ => true
  }

  predicate ShortControls(events: seq<Event>) {
    forall e <- events :: e.Control? ==> |e.payload| <= 125
  }

  lemma StepIsShort(d: Dec, b: byte)
    requires Sane(d) && Step(d, b).Next?
    ensures Sane(Step(d, b).dec) && ShortControls(Step(d, b).out)
  {
  }

  /** So none is ever reported. */
  lemma {:induction false} ControlsAreShort(d: Dec, data: seq<byte>)
    requires Sane(d)
    ensures Sane(Run(d, data).dec) && ShortControls(Run(d, data).out)
    decreases |data|
  {
    if data != [] {
      var s := Step(d, data[0]);
      if s.Next? {
        StepIsShort(d, data[0]);
        ControlsAreShort(s.dec, data[1..]);
      }
    }
  }

  /** A decoder fed a list of segments, as the receive callback feeds it. */
  function FeedAll(d: Dec, segments: seq<seq<byte>>): Trace
    decreases |segments|
  {
    if segments == [] then Trace(d, [], true)
    else
      var t := Run(d, segments[0]);
      if t.ok then Emit(t.out, FeedAll(t.dec, segments[1..])) else t
  }

  lemma {:induction false} SegmentationIndependence(d: Dec, segments: seq<seq<byte>>)
    ensures FeedAll(d, segments) == Run(d, Flatten(segments))
    decreases |segments|
  {
    if segments != [] {
      RunSplit(d, segments[0], Flatten(segments[1..]));
      var t := Run(d, segments[0]);
      if t.ok {
        SegmentationIndependence(t.dec, segments[1..]);
      }
    }
  }

  function DataIn(out: seq<Event>): seq<byte>
    decreases |out|
  {
    if out == [] then []
    else (if out[0].Data? then [out[0].b] else []) + DataIn(out[1..])
  }

  lemma {:induction false} DataInAppend(a: seq<Event>, b: seq<Event>)
    ensures DataIn(a + b) == DataIn(a) + DataIn(b)
    decreases |a|
  {
    if a == [] {
      assert a + b == b;
    } else {
      assert (a + b)[0] == a[0] && (a + b)[1..] == a[1..] + b;
      DataInAppend(a[1..], b);
      var first := if a[0].Data? then [a[0].b] else [];
      assert first + (DataIn(a[1..]) + DataIn(b)) == first + DataIn(a[1..]) + DataIn(b);
    }
  }

  lemma {:induction false} DataInDataEvents(run: seq<byte>)
    ensures DataIn(DataEvents(run)) == run
    decreases |run|
  {
    if run != [] {
      assert DataEvents(run)[1..] == DataEvents(run[1..]);
      DataInDataEvents(run[1..]);
    }
  }

  /** Absorbing a run in two parts. */
  lemma AbsorbSplit(op: nat, left: nat, got: seq<byte>, a: seq<byte>, b: seq<byte>)
    requires |a| < left && |a| + |b| <= left
    ensures var first := Absorb(op, left, got, a);
            && first.dec.AtPayload? && first.dec.opcode == op
            && var second := Absorb(op, first.dec.left, first.dec.got, b);
               Absorb(op, left, got, a + b) == Next(second.dec, first.out + second.out)
  {
    assert got + a + b == got + (a + b);
    assert DataEvents(a) + DataEvents(b) == DataEvents(a + b);
    assert forall x: seq<Event> :: x + [] == x && [] + x == x;
  }

  /** Payload bytes may be taken in runs of any length. */
  lemma {:induction false} RunOfPayload(op: nat, left: nat, got: seq<byte>, run: seq<byte>, rest: seq<byte>)
    requires 0 < |run| <= left
    ensures var s := Absorb(op, left, got, run);
            Run(AtPayload(op, left, got), run + rest) == Emit(s.out, Run(s.dec, rest))
    decreases |run|
  {
    var one, more := [run[0]], run[1..];
    var first := Absorb(op, left, got, one);
    assert (run + rest)[1..] == more + rest;
    assert Run(AtPayload(op, left, got), run + rest) == Emit(first.out, Run(first.dec, more + rest));
    assert run == one + more;
    if more == [] {
      assert run == one && more + rest == rest;
    } else {
      AbsorbSplit(op, left, got, one, more);
      var second := Absorb(op, first.dec.left, first.dec.got, more);
      RunOfPayload(op, first.dec.left, first.dec.got, more, rest);
      EmitEmit(first.out, second.out, Run(second.dec, rest));
    }
  }

  lemma RunOfSlice(op: nat, left: nat, got: seq<byte>, data: seq<byte>, i: nat, next: nat)
    requires i < next <= |data| && next - i <= left
    ensures var s := Absorb(op, left, got, data[i..next]);
            Emit(s.out, Run(s.dec, data[next..])) == Emit([], Run(AtPayload(op, left, got), data[i..]))
  {
    assert data[i..next] + data[next..] == data[i..];
    RunOfPayload(op, left, got, data[i..next], data[next..]);
    assert forall x: seq<Event> :: [] + x == x;
  }

  // ---------------------------------------------------------------- the C decoder

  datatype Phase = S_OP | S_LEN | S_EXT | S_PAYLOAD

  /** One call of a decoder callback. */
  datatype Call = OnData(run: seq<byte>) | OnCtl(opcode: nat, payload: seq<byte>)

  function EventsOf(calls: seq<Call>): seq<Event>
    decreases |calls|
  {
    if calls == [] then [] else EventsOf(calls[..|calls| - 1]) + ReportOf(calls[|calls| - 1])
  }

  function ReportOf(call: Call): seq<Event> {
    match call
    case OnData(run) => DataEvents(run)
    case OnCtl(op, payload) => [Control(op, payload)]
  }

  class Decoder {
    var state: Phase
    var opcode: nat
    var isControl: bool
    var remaining: nat
    var extLeft: nat
    const ctl: array<byte>
    var ctlLen: nat

    /** ctlLen + remaining never exceeds the 125-byte accumulator, so no control payload is
        ever cut short; the 64-bit length never overflows. */
    ghost predicate Wellformed()
      reads this, ctl
    {
      && ctl.Length == 125 && ctlLen <= 125 && opcode < 16
      && (state != S_OP ==> isControl == IsControl(opcode))
      && (state == S_LEN ==> ctlLen == 0)
      && (state == S_EXT ==> !isControl && ctlLen == 0 && 1 <= extLeft <= 8 && remaining < Pow256(8 - extLeft))
      && (state == S_PAYLOAD ==> if isControl then ctlLen + remaining <= 125 else ctlLen == 0)
      && remaining < Pow256(8)
    }

    /** The state between calls: no completed frame is waiting to be reported. */
    ghost predicate Valid()
      reads this, ctl
    {
      Wellformed() && !(state == S_PAYLOAD && remaining == 0)
    }

    ghost function View(): Dec
      reads this, ctl
      requires Wellformed()
    {
      match state
      case S_OP => AtOp
      case S_LEN => AtLen(opcode)
      case S_EXT => AtExt(opcode, extLeft, remaining)
      case S_PAYLOAD => if remaining == 0 then AtOp else AtPayload(opcode, remaining, ctl[..ctlLen])
    }

    /** Inside the loop a frame with an empty payload is complete but not yet reported. */
    ghost function Unreported(): seq<Event>
      reads this, ctl
      requires Wellformed()
    {
      if state == S_PAYLOAD && remaining == 0 then Completed(opcode, ctl[..ctlLen]) else []
    }

    constructor ()
      ensures Valid() && View() == AtOp && fresh(ctl)
    {
      state, opcode, isControl, remaining, extLeft, ctlLen := S_OP, 0, false, 0, 0, 0;
      ctl := new byte[125](_ => 0);
      new;
      Pow256Eight();
    }

    /** midi_ws_decoder_init on a decoder in use. */
    method Init()
      requires Wellformed()
      modifies this, ctl
      ensures Valid() && View() == AtOp
    {
      state, opcode, isControl, remaining, extLeft, ctlLen := S_OP, 0, false, 0, 0, 0;
      forall i | 0 <= i < ctl.Length { ctl[i] := 0; }
    }

    method TakeOpcode(b: byte)
      requires Valid() && state == S_OP
      modifies this
      ensures Wellformed() && Unreported() == [] && Next(View(), []) == Step(old(View()), b)
    {
      opcode := b % 16;
      isControl := opcode / 8 % 2 == 1;
      ctlLen := 0;
      state := S_LEN;
    }

    method TakeLength(b: byte) returns (ok: bool)
      requires Valid() && state == S_LEN
      modifies this
      ensures Wellformed()
      ensures ok ==> Next(View(), Unreported()) == Step(old(View()), b)
      ensures !ok ==> Valid() && View() == old(View()) && Step(View(), b).Bad?
    {
      Pow256Eight();
      if b >= 0x80 {
        return false;  // only clients mask
      }
      if isControl && b > 125 {
        return false;
      }
      if b < 126 {
        remaining := b;
        state := S_PAYLOAD;
      } else {
        remaining := 0;
        extLeft := if b == 126 then 2 else 8;
        state := S_EXT;
      }
      assert ctl[..ctlLen] == [];
      return true;
    }

    method TakeExtended(b: byte)
      requires Valid() && state == S_EXT
      modifies this
      ensures Wellformed() && Next(View(), Unreported()) == Step(old(View()), b)
    {
      assert Pow256(8 - (extLeft - 1)) == 256 * Pow256(8 - extLeft);
      Pow256Grows(8 - (extLeft - 1), 8);
      remaining := remaining * 256 + b;
      extLeft := extLeft - 1;
      if extLeft == 0 {
        state := S_PAYLOAD;
      }
      assert ctl[..ctlLen] == [];
    }

    /** The S_PAYLOAD arm up to the end-of-frame test, on the run the segment offers. */
    method TakePayload(run: seq<byte>) returns (calls: seq<Call>)
      requires Valid() && state == S_PAYLOAD && 0 < |run| <= remaining
      modifies this, ctl
      ensures Wellformed() && state == S_PAYLOAD && opcode == old(opcode)
      ensures calls == if IsControl(opcode) then [] else [OnData(run)]
      ensures Next(View(), EventsOf(calls) + Unreported()) == Absorb(opcode, old(remaining), old(ctl[..ctlLen]), run)
    {
      ghost var got := ctl[..ctlLen];
      if isControl {
        calls := [];
        var start := ctlLen;
        for k := 0 to |run|
          invariant ctlLen == start + k && start + |run| <= 125
          invariant ctl[..ctlLen] == got + run[..k]
          invariant isControl && state == S_PAYLOAD && opcode == old(opcode) && remaining == old(remaining)
        {
          if ctlLen < ctl.Length {
            ctl[ctlLen] := run[k];
            ctlLen := ctlLen + 1;
          }
          assert ctl[..ctlLen] == got + run[..k] + [run[k]];
        }
        assert run[..|run|] == run;
      } else {
        calls := [OnData(run)];
        assert ctl[..ctlLen] == [];
      }
      remaining := remaining - |run|;
      OneRun(run);
    }

    /** The end-of-frame test: report a completed control frame and look for a header. */
    method EndFrame() returns (calls: seq<Call>)
      requires Wellformed() && state == S_PAYLOAD && remaining == 0
      modifies this
      ensures Valid() && View() == AtOp
      ensures |calls| <= 1 && EventsOf(calls) == old(Unreported())
    {
      calls := if isControl then [OnCtl(opcode, ctl[..ctlLen])] else [];
      assert calls[..|calls|] == calls && (|calls| == 1 ==> calls[..0] == []);
      state := S_OP;
    }

    /** The switch of the decode loop at position i of a segment. */
    method Arm(data: seq<byte>, i: nat) returns (ok: bool, next: nat, calls: seq<Call>)
      requires Wellformed() && i < |data|
      modifies this, ctl
      ensures Wellformed() && i <= next <= |data|
      ensures ok ==> Emit(EventsOf(calls) + Unreported(), Run(View(), data[next..]))
                     == Emit(old(Unreported()), Run(old(View()), data[i..]))
      ensures ok ==> i < next || (old(state == S_PAYLOAD && remaining == 0) && state == S_OP)
      ensures !ok ==> Valid() && calls == [] && old(Unreported()) == []
                      && Trace(View(), [], false) == Run(old(View()), data[i..])
    {
      ghost var d := View();
      ok, next, calls := true, i + 1, [];
      match state {
        case S_OP =>
          TakeOpcode(data[i]);
          HeaderByte(d, data, i, Next(View(), Unreported()));
        case S_LEN =>
          ok := TakeLength(data[i]);
          HeaderByte(d, data, i, if ok then Next(View(), Unreported()) else Bad);
        case S_EXT =>
          TakeExtended(data[i]);
          HeaderByte(d, data, i, Next(View(), Unreported()));
        case S_PAYLOAD =>
          next, calls := PayloadArm(data, i);
          assert EventsOf(calls) + [] == EventsOf(calls);
      }
    }

    /** Take what the segment has of the payload. */
    method TakeSlice(data: seq<byte>, i: nat) returns (next: nat, calls: seq<Call>)
      requires Valid() && state == S_PAYLOAD && i < |data|
      modifies this, ctl
      ensures Wellformed() && state == S_PAYLOAD && i < next <= |data|
      ensures Emit(EventsOf(calls) + Unreported(), Run(View(), data[next..])) == Emit([], Run(old(View()), data[i..]))
    {
      var avail := |data| - i;
      next := i + if remaining < avail then remaining else avail;
      RunOfSlice(opcode, remaining, ctl[..ctlLen], data, i, next);
      calls := TakePayload(data[i..next]);
    }

    /** The S_PAYLOAD arm: a slice of payload, then see if that was all. */
    method PayloadArm(data: seq<byte>, i: nat) returns (next: nat, calls: seq<Call>)
      requires Wellformed() && state == S_PAYLOAD && i < |data|
      modifies this, ctl
      ensures Valid() && i <= next <= |data| && (i < next || (old(remaining) == 0 && state == S_OP))
      ensures Emit(EventsOf(calls), Run(View(), data[next..]))
              == Emit(old(Unreported()), Run(old(View()), data[i..]))
    {
      next, calls := i, [];
      if remaining > 0 {
        next, calls := TakeSlice(data, i);
      } else {
        NothingYet(Unreported());
      }
      ghost var said, d, waiting := EventsOf(calls), View(), Unreported();
      if remaining == 0 {
        var last := EndFrame();
        AddCalls(calls, last);
        calls := calls + last;
      } else {
        NothingYet(said);
      }
      assert View() == d && EventsOf(calls) == said + waiting;
    }

    /** midi_ws_decode: whatever the segment boundaries, the callbacks together report the
        events of the byte machine, and the decoder stands where the machine stands. */
    method Decode(data: seq<byte>) returns (ok: bool, calls: seq<Call>)
      requires Valid()
      modifies this, ctl
      ensures Valid()
      ensures Trace(View(), EventsOf(calls), ok) == Run(old(View()), data)
    {
      var i := 0;
      calls := [];
      ghost var whole := Run(View(), data);
      assert data[0..] == data;
      while i < |data|
        invariant Wellformed() && i <= |data|
        invariant Emit(EventsOf(calls) + Unreported(), Run(View(), data[i..])) == whole
        decreases |data| - i, if state == S_PAYLOAD && remaining == 0 then 1 else 0
      {
        ghost var said, waiting, run := EventsOf(calls), Unreported(), Run(View(), data[i..]);
        var good, next, told := Arm(data, i);
        if !good {
          return false, calls;
        }
        Reported(said, waiting, run, EventsOf(told), Unreported(), Run(View(), data[next..]));
        AddCalls(calls, told);
        calls, i := calls + told, next;
      }
      assert data[i..] == [];
      if state == S_PAYLOAD && remaining == 0 {
        var last := EndFrame();
        AddCalls(calls, last);
        calls := calls + last;
      }
      return true, calls;
    }
  }

  lemma OneRun(run: seq<byte>)
    ensures EventsOf([OnData(run)]) == DataEvents(run)
  {
    assert [OnData(run)][..0] == [];
  }

  lemma NothingYet(e: seq<Event>)
    ensures EventsOf([]) + e == e && e + [] == e
  {
  }

  /** A header byte: the machine takes one step. */
  lemma HeaderByte(d: Dec, data: seq<byte>, i: nat, s: Stepped)
    requires i < |data| && s == Step(d, data[i])
    ensures s.Next? ==> Emit(EventsOf([]) + s.out, Run(s.dec, data[i + 1..])) == Emit([], Run(d, data[i..]))
    ensures s.Bad? ==> Run(d, data[i..]) == Trace(d, [], false)
  {
    assert data[i..][0] == data[i] && data[i..][1..] == data[i + 1..];
    if s.Next? {
      assert EventsOf([]) + s.out == s.out;
      assert [] + Run(d, data[i..]).out == Run(d, data[i..]).out;
    }
  }

  /** One more arm of the loop extends what has been reported without changing the whole. */
  lemma Reported(said: seq<Event>, waiting: seq<Event>, t: Trace, more: seq<Event>, waiting': seq<Event>, t': Trace)
    requires Emit(more + waiting', t') == Emit(waiting, t)
    ensures Emit(said + more + waiting', t') == Emit(said + waiting, t)
  {
    EmitEmit(said, waiting, t);
    EmitEmit(said, more + waiting', t');
    assert said + (more + waiting') == said + more + waiting';
  }

  lemma {:induction false} AddCalls(calls: seq<Call>, told: seq<Call>)
    ensures EventsOf(calls + told) == EventsOf(calls) + EventsOf(told)
    decreases |told|
  {
    if told == [] {
      assert calls + told == calls;
    } else {
      var front := told[..|told| - 1];
      assert (calls + told)[..|calls + told| - 1] == calls + front;
      AddCalls(calls, front);
      Regroup(EventsOf(calls), EventsOf(front), ReportOf(told[|told| - 1]));
    }
  }

  // ---------------------------------------------------------------- round trip

  lemma {:induction false} UnpackFront(b: byte, s: seq<byte>)
    ensures Unpack([b] + s) == b * Pow256(|s|) + Unpack(s)
    decreases |s|
  {
    if s == [] {
      assert [b] + s == [b] && [b][..0] == [];
      assert Unpack([b]) == Unpack([]) * 256 + b;
    } else {
      var front := s[..|s| - 1];
      assert ([b] + s)[..|s|] == [b] + front;
      UnpackFront(b, front);
      assert Pow256(|s|) == 256 * Pow256(|s| - 1);
    }
  }

  function Go(s: Stepped, rest: seq<byte>): Trace
    requires s.Next?
  {
    Emit(s.out, Run(s.dec, rest))
  }

  lemma ShiftIn(acc: nat, b: nat, p: nat, u: nat)
    ensures (acc * 256 + b) * p + u == acc * (256 * p) + (b * p + u)
  {
  }

  lemma {:induction false} RunOfLength(op: nat, acc: nat, field: seq<byte>, rest: seq<byte>)
    requires field != []
    ensures Run(AtExt(op, |field|, acc), field + rest) == Go(Begin(op, acc * Pow256(|field|) + Unpack(field)), rest)
    decreases |field|
  {
    var b, more := field[0], field[1..];
    var acc' := acc * 256 + b;
    assert field == [b] + more && |more| == |field| - 1;
    assert (field + rest)[0] == b && (field + rest)[1..] == more + rest;
    UnpackFront(b, more);
    assert Pow256(|field|) == 256 * Pow256(|more|);
    ShiftIn(acc, b, Pow256(|more|), Unpack(more));
    if more == [] {
      assert more + rest == rest;
      assert Run(AtExt(op, |field|, acc), field + rest) == Go(Begin(op, acc'), rest);
    } else {
      RunOfLength(op, acc', more, rest);
      assert Run(AtExt(op, |field|, acc), field + rest) == Emit([], Run(AtExt(op, |more|, acc'), more + rest));
    }
  }

  /** A header announces its length, whichever of the three length classes it uses. */
  lemma RunOfHeader(op: nat, n: nat, rest: seq<byte>)
    requires op < 16 && n < FrameCodec.MAX_LENGTH && (IsControl(op) ==> n <= 125)
    ensures Run(AtOp, FrameCodec.Header(op, n, false) + rest) == Go(Begin(op, n), rest)
  {
    var code := FrameCodec.LengthCode(n);
    var field := Pack(n, FrameCodec.ExtendedSize(code));
    var all := FrameCodec.Header(op, n, false) + rest;
    assert all[0] % 16 == op && all[1] == code;
    assert all[1..][1..] == field + rest;
    assert Run(AtOp, all) == Emit([], Run(AtLen(op), all[1..]));
    if n < 126 {
      assert field == [] && field + rest == rest;
      assert Run(AtLen(op), all[1..]) == Go(Begin(op, n), rest);
    } else {
      FrameCodec.LengthFieldRoundTrip(n);
      RunOfLength(op, 0, field, rest);
      assert Run(AtLen(op), all[1..]) == Emit([], Run(AtExt(op, |field|, 0), field + rest));
    }
  }

  /** What a frame is to the stream: its payload bytes, or one control event. */
  function FrameEvents(f: FrameCodec.Frame): seq<Event> {
    if IsControl(f.opcode) then [Control(f.opcode, f.payload)] else DataEvents(f.payload)
  }

  predicate Acceptable(f: FrameCodec.Frame) {
    f.opcode < 16 && |f.payload| < FrameCodec.MAX_LENGTH && (IsControl(f.opcode) ==> |f.payload| <= 125)
  }

  /** Every frame the server's encoder builds comes out as exactly its events. */
  lemma RunOfFrame(f: FrameCodec.Frame, rest: seq<byte>)
    requires Acceptable(f)
    ensures Run(AtOp, FrameCodec.Encode(f.opcode, f.payload, None) + rest) == Emit(FrameEvents(f), Run(AtOp, rest))
  {
    var op, payload := f.opcode, f.payload;
    assert FrameCodec.Encode(op, payload, None) + rest == FrameCodec.Header(op, |payload|, false) + (payload + rest);
    RunOfHeader(op, |payload|, payload + rest);
    if payload == [] {
      assert payload + rest == rest;
    } else {
      RunOfPayload(op, |payload|, [], payload, rest);
      assert [] + payload == payload;
      assert DataEvents(payload) + [] == DataEvents(payload);
    }
  }

  /** A control frame longer than 125 bytes is the one thing that encoder can build and this
      decoder refuses (as section 5.5 of RFC 6455 wants). */
  lemma OnlyLongControlRefused(f: FrameCodec.Frame)
    requires f.opcode < 16 && |f.payload| < FrameCodec.MAX_LENGTH
    ensures Run(AtOp, FrameCodec.Encode(f.opcode, f.payload, None)).ok <==> (IsControl(f.opcode) ==> |f.payload| <= 125)
  {
    var w := FrameCodec.Encode(f.opcode, f.payload, None);
    if IsControl(f.opcode) && |f.payload| > 125 {
      assert w[0] % 16 == f.opcode && w[1..][0] == w[1] == FrameCodec.LengthCode(|f.payload|) >= 126;
      assert Run(AtOp, w) == Emit([], Run(AtLen(f.opcode), w[1..]));
    } else {
      RunOfFrame(f, []);
      assert w + [] == w;
    }
  }

  function ServerWire(frames: seq<FrameCodec.Frame>): seq<byte> {
    if frames == [] then []
    else FrameCodec.Encode(frames[0].opcode, frames[0].payload, None) + ServerWire(frames[1..])
  }

  /** The bytes the cartridge owes the Atari: the payloads of all data frames, in order. */
  function DataPayloads(frames: seq<FrameCodec.Frame>): seq<byte> {
    if frames == [] then []
    else (if IsControl(frames[0].opcode) then [] else frames[0].payload) + DataPayloads(frames[1..])
  }

  /** Everything the frames are to the stream, in order. */
  function AllEvents(frames: seq<FrameCodec.Frame>): seq<Event> {
    if frames == [] then [] else FrameEvents(frames[0]) + AllEvents(frames[1..])
  }

  /** The server's bytes in one piece: exactly the events of its frames. */
  lemma {:induction false} RunOfWire(frames: seq<FrameCodec.Frame>)
    requires forall f <- frames :: Acceptable(f)
    ensures Run(AtOp, ServerWire(frames)) == Trace(AtOp, AllEvents(frames), true)
    decreases |frames|
  {
    if frames != [] {
      RunOfFrame(frames[0], ServerWire(frames[1..]));
      RunOfWire(frames[1..]);
    }
  }

  /** Downstream transparency: for any frames the server sends and any way TCP cuts their
      bytes into segments, the cartridge accepts them all, ends between frames, and reports
      exactly their data bytes and control frames, in order. */
  lemma DownstreamTransparent(frames: seq<FrameCodec.Frame>, segments: seq<seq<byte>>)
    requires forall f <- frames :: Acceptable(f)
    requires Flatten(segments) == ServerWire(frames)
    ensures FeedAll(AtOp, segments) == Trace(AtOp, AllEvents(frames), true)
    ensures DataIn(AllEvents(frames)) == DataPayloads(frames)
  {
    SegmentationIndependence(AtOp, segments);
    RunOfWire(frames);
    WireDelivers(frames);
  }

  /** The data bytes among the events are the concatenated data payloads. */
  lemma {:induction false} WireDelivers(frames: seq<FrameCodec.Frame>)
    ensures DataIn(AllEvents(frames)) == DataPayloads(frames)
    decreases |frames|
  {
    if frames != [] {
      var f, rest := frames[0], frames[1..];
      WireDelivers(rest);
      DataInAppend(FrameEvents(f), AllEvents(rest));
      DataInDataEvents(f.payload);
    }
  }

  lemma {:induction false} Pow256Grows(k: nat, m: nat)
    requires k <= m
    ensures Pow256(k) <= Pow256(m)
  {
    if k < m {
      Pow256Grows(k, m - 1);
    }
  }
}
