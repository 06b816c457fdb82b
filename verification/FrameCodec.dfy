/** The orchestrator's RFC 6455 codec (orchestrator/ws.py): a one-shot encoder and a
    buffering decoder that returns whole frames. */
module FrameCodec {
  import opened Bytes
  import opened StreamParser

  const OP_CONT := 0x0
  const OP_TEXT := 0x1
  const OP_BINARY := 0x2
  const OP_CLOSE := 0x8
  const OP_PING := 0x9
  const OP_PONG := 0xA

  const MAX_LENGTH: nat := 0x1_0000_0000_0000_0000

  datatype Frame = Frame(opcode: nat, payload: seq<byte>)

  // ---------------------------------------------------------------- encoder

  /** The 7-bit length code: the length itself, or the escape to a 16- or 64-bit field. */
  function LengthCode(n: nat): (c: nat)
    ensures c < 128
  {
    if n < 126 then n else if n < 0x1_0000 then 126 else 127
  }

  function ExtendedSize(code: nat): nat {
    if code == 126 then 2 else if code == 127 then 8 else 0
  }

  function Header(opcode: nat, n: nat, masked: bool): seq<byte> {
    var code := LengthCode(n);
    [0x80 + opcode % 16, (if masked then 0x80 else 0) + code] + Pack(n, ExtendedSize(code))
  }

  /** The bytes of one final frame, masked when a key is given. */
  function Encode(opcode: nat, payload: seq<byte>, key: Option<Mask>): seq<byte> {
    var header := Header(opcode, |payload|, key.Some?);
    match key
    case None => header + payload
    case Some(k) => header + k + Masked(payload, k)
  }

  datatype EncodeResult = Wire(bytes: seq<byte>) | BadMaskLength | LengthOverflow

  /** encode_frame: a key that is not four bytes long, and a length that does not fit
      64 bits, raise. */
  method EncodeFrame(opcode: nat, payload: seq<byte>, maskKey: Option<seq<byte>>) returns (r: EncodeResult)
    ensures r.BadMaskLength? <==> maskKey.Some? && |maskKey.value| != 4
    ensures r.LengthOverflow? <==> !r.BadMaskLength? && |payload| >= MAX_LENGTH
    ensures r.Wire? && maskKey.None? ==> r.bytes == Encode(opcode, payload, None)
    ensures r.Wire? && maskKey.Some? ==> r.bytes == Encode(opcode, payload, Some(maskKey.value))
  {
    if maskKey.Some? && |maskKey.value| != 4 {
      return BadMaskLength;
    }
    var n := |payload|;
    var maskBit := if maskKey.Some? then 0x80 else 0x00;
    var header: seq<byte> := [0x80 + opcode % 16];
    if n < 126 {
      header := header + [maskBit + n];
      assert Pack(n, 0) == [];
    } else if n < 0x1_0000 {
      header := header + [maskBit + 126];
      header := header + Pack(n, 2);
    } else if n < MAX_LENGTH {
      header := header + [maskBit + 127];
      header := header + Pack(n, 8);
    } else {
      return LengthOverflow;
    }
    assert header == Header(opcode, n, maskKey.Some?);
    if maskKey.None? {
      return Wire(header + payload);
    }
    var key: Mask := maskKey.value;
    var masked: seq<byte> := [];
    for i := 0 to n
      invariant masked == Masked(payload, key)[..i]
    {
      masked := masked + [Xor(payload[i], key[i % 4])];
    }
    return Wire(header + key + masked);
  }

  // ---------------------------------------------------------------- decoder

  /** What the front of a buffer holds: part of a frame, an over-long frame, or a whole one. */
  function ParseOne(b: seq<byte>, max: nat): (p: Parse<Frame>)
    ensures p.Got? ==> 2 <= p.used <= |b| && p.frame.opcode < 16 && |p.frame.payload| <= max
  {
    if |b| < 2 then NeedMore else
    var code := b[1] % 128;
    var ext := 2 + ExtendedSize(code);
    if |b| < ext then NeedMore else
    var length := if code < 126 then code else Unpack(b[2..ext]);
    if length > max then TooLarge(length) else
    var body := ext + if b[1] >= 128 then 4 else 0;
    if |b| < body + length then NeedMore else
    var raw := b[body..body + length];
    Got(Frame(b[0] % 16, if b[1] >= 128 then Masked(raw, b[ext..body]) else raw), body + length)
  }

  ghost function FrameParser(max: nat): (parse: Parser<Frame>)
    ensures Consumes(parse)
  {
    b => ParseOne(b, max)
  }

  class FrameDecoder {
    var buf: seq<byte>
    const max: nat

    constructor (maxPayload: nat := 0x10_0000)
      ensures buf == [] && max == maxPayload
    {
      buf := [];
      max := maxPayload;
    }

    /** The length field, and where it ends; nothing is read past the buffer. */
    method ReadLength(b: seq<byte>) returns (length: nat, idx: nat)
      requires |b| >= 2
      ensures idx == 2 + ExtendedSize(b[1] % 128)
      ensures idx <= |b| ==> length == if b[1] % 128 < 126 then b[1] % 128 else Unpack(b[2..idx])
    {
      length, idx := b[1] % 128, 2;
      if length == 126 {
        idx := idx + 2;
        if |b| < idx { return; }
        length := Unpack(b[2..idx]);
      } else if length == 127 {
        idx := idx + 8;
        if |b| < idx { return; }
        length := Unpack(b[2..idx]);
      }
    }

    /** _next: take one frame off the buffer, or leave the buffer alone. */
    method Next() returns (r: Parse<Frame>)
      modifies this
      ensures r == ParseOne(old(buf), max)
      ensures buf == if r.Got? then old(buf)[r.used..] else old(buf)
    {
      var b := buf;
      if |b| < 2 {
        return NeedMore;
      }
      var length, idx := ReadLength(b);
      if idx > |b| {
        return NeedMore;
      }
      if length > max {
        return TooLarge(length);
      }
      r := TakeBody(b, length, idx);
      if r.Got? {
        buf := b[r.used..];
      }
    }

    /** Mask key and payload behind the length field. */
    method TakeBody(b: seq<byte>, length: nat, start: nat) returns (r: Parse<Frame>)
      requires |b| >= 2 && start == 2 + ExtendedSize(b[1] % 128) <= |b| && length <= max
      requires length == if b[1] % 128 < 126 then b[1] % 128 else Unpack(b[2..start])
      ensures r == ParseOne(b, max)
    {
      var idx := start;
      var mask: Mask := [0, 0, 0, 0];
      if b[1] >= 128 {
        if |b| < idx + 4 { return NeedMore; }
        assert |b[idx..idx + 4]| == 4;
        mask := b[idx..idx + 4];
        idx := idx + 4;
      }
      if |b| < idx + length { return NeedMore; }
      var payload := b[idx..idx + length];
      if b[1] >= 128 {
        payload := Masked(payload, mask);
      }
      return Got(Frame(b[0] % 16, payload), idx + length);
    }

    /** feed: append, then return every complete frame; `failed` is the WSError. */
    method Feed(data: seq<byte>) returns (frames: seq<Frame>, failed: bool)
      modifies this
      ensures Drained(frames, buf, failed) == Drain(FrameParser(max), old(buf) + data)
    {
      buf := buf + data;
      frames := [];
      ghost var parse := FrameParser(max);
      while true
        invariant Before(frames, Drain(parse, buf)) == Drain(parse, old(buf) + data)
        decreases |buf|
      {
        ghost var b := buf;
        var r := Next();
        assert r == parse(b);
        if r.Got? {
          BeforeBefore(frames, [r.frame], Drain(parse, buf));
        }
        match r {
          case NeedMore => return frames, false;
          case TooLarge(_) => return frames, true;
          case Got(frame, _) => frames := frames + [frame];
        }
      }
    }
  }

  // ---------------------------------------------------------------- chunk independence

  lemma ParseExtends(b: seq<byte>, c: seq<byte>, max: nat)
    requires !ParseOne(b, max).NeedMore?
    ensures ParseOne(b + c, max) == ParseOne(b, max)
  {
    var all, ext := b + c, 2 + ExtendedSize(b[1] % 128);
    assert all[0] == b[0] && all[1] == b[1];
    SliceOfFront(b, c, 2, ext);
    match ParseOne(b, max) {
      case TooLarge(n) =>
        assert ParseOne(all, max) == TooLarge(n);
      case Got(frame, used) =>
        var body := ext + if b[1] >= 128 then 4 else 0;
        SliceOfFront(b, c, body, used);
        SliceOfFront(b, c, ext, body);
        assert ParseOne(all, max) == Got(frame, used);
    }
  }

  lemma SliceOfFront(b: seq<byte>, c: seq<byte>, i: nat, j: nat)
    requires i <= j <= |b|
    ensures (b + c)[i..j] == b[i..j]
  {
  }

  /** So the chunk independence of StreamParser holds of this decoder. */
  lemma FrameParserStable(max: nat)
    ensures Stable(FrameParser(max))
  {
    forall b, c | !FrameParser(max)(b).NeedMore?
      ensures FrameParser(max)(b + c) == FrameParser(max)(b)
    {
      ParseExtends(b, c, max);
    }
  }

  // ---------------------------------------------------------------- round trip

  /** A frame as sent: what it says and the key it is masked with. */
  datatype Sent = Sent(frame: Frame, key: Option<Mask>)

  function WireOf(s: Sent): seq<byte> {
    Encode(s.frame.opcode, s.frame.payload, s.key)
  }

  function Wires(sent: seq<Sent>): (r: seq<seq<byte>>)
    ensures |r| == |sent|
  {
    seq(|sent|, i requires 0 <= i < |sent| => WireOf(sent[i]))
  }

  function FramesOf(sent: seq<Sent>): (r: seq<Frame>)
    ensures |r| == |sent|
  {
    seq(|sent|, i requires 0 <= i < |sent| => sent[i].frame)
  }

  lemma LengthFieldRoundTrip(n: nat)
    requires n < MAX_LENGTH
    ensures LengthCode(n) >= 126 ==> Unpack(Pack(n, ExtendedSize(LengthCode(n)))) == n
  {
    Pow256Two();
    Pow256Eight();
    if n >= 126 {
      UnpackPack(n, ExtendedSize(LengthCode(n)));
    }
  }

  /** One encoded frame parses back to itself exactly when its payload is within the limit,
      whatever follows it; over the limit it is refused. */
  lemma ParseEncoded(s: Sent, tail: seq<byte>, max: nat)
    requires s.frame.opcode < 16 && |s.frame.payload| < MAX_LENGTH
    ensures |s.frame.payload| <= max ==> ParseOne(WireOf(s) + tail, max) == Got(s.frame, |WireOf(s)|)
    ensures |s.frame.payload| > max ==> ParseOne(WireOf(s) + tail, max) == TooLarge(|s.frame.payload|)
  {
    HeaderInPlace(s, tail);
    LengthFieldRoundTrip(|s.frame.payload|);
    PayloadInPlace(s, tail);
  }

  lemma HeaderInPlace(s: Sent, tail: seq<byte>)
    requires s.frame.opcode < 16 && |s.frame.payload| < MAX_LENGTH
    ensures var n, b := |s.frame.payload|, WireOf(s) + tail;
            var code := LengthCode(n);
            && |b| >= 2 + ExtendedSize(code) && b[0] % 16 == s.frame.opcode
            && b[1] % 128 == code && (b[1] >= 128 <==> s.key.Some?)
            && b[2..2 + ExtendedSize(code)] == Pack(n, ExtendedSize(code))
            && (code < 126 ==> code == n)
  {
    var n, b := |s.frame.payload|, WireOf(s) + tail;
    assert b[2..2 + ExtendedSize(LengthCode(n))] == Pack(n, ExtendedSize(LengthCode(n)));
  }

  lemma PayloadInPlace(s: Sent, tail: seq<byte>)
    requires s.frame.opcode < 16 && |s.frame.payload| < MAX_LENGTH
    ensures var n, b := |s.frame.payload|, WireOf(s) + tail;
            var ext := 2 + ExtendedSize(LengthCode(n));
            match s.key
            case None => |WireOf(s)| == ext + n && b[ext..ext + n] == s.frame.payload
            case Some(k) =>
              |WireOf(s)| == ext + 4 + n && b[ext..ext + 4] == k
              && Masked(b[ext + 4..ext + 4 + n], k) == s.frame.payload
  {
    var n, b := |s.frame.payload|, WireOf(s) + tail;
    var ext := 2 + ExtendedSize(LengthCode(n));
    match s.key {
      case None =>
        assert b[ext..ext + n] == s.frame.payload;
      case Some(k) =>
        assert b[ext..ext + 4] == k;
        assert b[ext + 4..ext + 4 + n] == Masked(s.frame.payload, k);
        MaskedTwice(s.frame.payload, k);
    }
  }

  ghost predicate Sendable(sent: seq<Sent>, max: nat) {
    forall s <- sent :: s.frame.opcode < 16 && |s.frame.payload| <= max && |s.frame.payload| < MAX_LENGTH
  }

  /** Any list of encoded frames, masked or not, is read back frame by frame. */
  lemma SentIsRead(sent: seq<Sent>, max: nat)
    requires Sendable(sent, max)
    ensures ReadsAll(FrameParser(max), Wires(sent), FramesOf(sent))
  {
    forall i | 0 <= i < |sent|
      ensures Reads(FrameParser(max), Wires(sent)[i], FramesOf(sent)[i])
    {
      forall tail: seq<byte>
        ensures FrameParser(max)(WireOf(sent[i]) + tail) == Got(sent[i].frame, |WireOf(sent[i])|)
      {
        ParseEncoded(sent[i], tail, max);
      }
    }
  }

  /** Round trip: however the network splits the bytes of a list of frames, the decoder
      returns exactly that list and an empty buffer. */
  lemma StreamRoundTrip(sent: seq<Sent>, chunks: seq<seq<byte>>, max: nat)
    requires Sendable(sent, max)
    requires Flatten(chunks) == Flatten(Wires(sent))
    ensures FeedAll(FrameParser(max), [], chunks) == Drained(FramesOf(sent), [], false)
  {
    FrameParserStable(max);
    SentIsRead(sent, max);
    AllDelivered(FrameParser(max), Wires(sent), FramesOf(sent), chunks);
  }

  /** While bytes are still on their way, the frames already returned are a prefix. */
  lemma PartialDelivery(sent: seq<Sent>, chunks: seq<seq<byte>>, max: nat)
    requires Sendable(sent, max)
    requires Flatten(chunks) <= Flatten(Wires(sent))
    ensures !FeedAll(FrameParser(max), [], chunks).failed
    ensures FeedAll(FrameParser(max), [], chunks).frames <= FramesOf(sent)
  {
    FrameParserStable(max);
    SentIsRead(sent, max);
    SomeDelivered(FrameParser(max), Wires(sent), FramesOf(sent), chunks);
  }
}
