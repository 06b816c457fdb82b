/** The timed word parser of the cartridge's command channel (rp/src/include/tprotocol.h). */
module CommandParser {
  type word = x: int | 0 <= x < 0x1_0000
  type stamp = x: int | 0 <= x < 0x1_0000_0000

  const HEADER: word := 0xABCD
  const RESTART_US: int := 10000
  const PAYLOAD_WORDS: nat := 2048 + 64 / 2  // the size the macro expands to in the declaration

  datatype Phase = HEADER_DETECTION | COMMAND_READ | PAYLOAD_SIZE_READ | PAYLOAD_READ_INPROGRESS | PAYLOAD_READ_END

  /** A command as it is sent: `size` bytes of payload in whole words. */
  datatype Command = Command(id: word, size: word, words: seq<word>)

  datatype Outcome = Nothing | Delivered(command: Command) | ChecksumError

  /** What the parser knows; cmd, size and words only count in the phases that follow them. */
  datatype State = State(phase: Phase, last: stamp, cmd: word, size: word, words: seq<word>)

  function Sum(words: seq<word>): nat {
    if words == [] then 0 else Sum(words[..|words| - 1]) + words[|words| - 1]
  }

  /** The 16-bit sum runs over size / 2 words: the last word of an odd-sized payload is not
      in it. */
  function Checksum(id: word, size: word, words: seq<word>): word
    requires |words| >= size / 2
  {
    (id + size + Sum(words[..size / 2])) % 0x1_0000
  }

  function Late(last: stamp, now: stamp): bool {
    (now - last) % 0x1_0000_0000 > RESTART_US
  }

  predicate Coherent(s: State) {
    match s.phase
    case PAYLOAD_READ_INPROGRESS => 2 * |s.words| < s.size
    case PAYLOAD_READ_END => |s.words| == (s.size + 1) / 2
    case _ => true
  }

  /** One word through tprotocol_parse, once the restart rule has been applied. */
  function Take(s: State, data: word, now: stamp): (r: (State, Outcome))
    requires Coherent(s)
    ensures Coherent(r.0)
  {
    match s.phase
    case HEADER_DETECTION =>
      (s.(phase := if data == HEADER then COMMAND_READ else HEADER_DETECTION, last := now), Nothing)
    case COMMAND_READ => (s.(cmd := data, phase := PAYLOAD_SIZE_READ), Nothing)
    case PAYLOAD_SIZE_READ =>
      (s.(size := data, words := [], phase := if data == 0 then PAYLOAD_READ_END else PAYLOAD_READ_INPROGRESS), Nothing)
    case PAYLOAD_READ_INPROGRESS =>
      var words := s.words + [data];
      (s.(words := words, phase := if 2 * |words| >= s.size then PAYLOAD_READ_END else s.phase), Nothing)
    case PAYLOAD_READ_END =>
      (s.(phase := HEADER_DETECTION, last := 0),
       if data == Checksum(s.cmd, s.size, s.words) then Delivered(Command(s.cmd, s.size, s.words)) else ChecksumError)
  }

  function Restarted(s: State, now: stamp): State {
    if Late(s.last, now) then s.(phase := HEADER_DETECTION) else s
  }

  function Parse(s: State, data: word, now: stamp): (r: (State, Outcome))
    requires Coherent(s)
    ensures Coherent(r.0)
  {
    Take(Restarted(s, now), data, now)
  }

  lemma AddWrapped(a: nat, b: nat)
    ensures (a % 0x1_0000 + b) % 0x1_0000 == (a + b) % 0x1_0000
  {
  }

  /** The payload buffer has room for what the next word may store. */
  predicate Room(s: State, now: stamp) {
    Restarted(s, now).phase == PAYLOAD_READ_INPROGRESS ==> |s.words| < PAYLOAD_WORDS
  }

  /** tprotocol_transmission and the parser's globals. */
  class Parser {
    var phase: Phase
    var lastHeader: stamp
    var commandId: word
    var payloadSize: word
    var bytesRead: nat
    const payload: array<word>

    ghost predicate Valid()
      reads this
    {
      && payload.Length == PAYLOAD_WORDS && bytesRead % 2 == 0 && bytesRead <= 2 * PAYLOAD_WORDS
      && (phase == PAYLOAD_READ_INPROGRESS ==> bytesRead < payloadSize)
      && (phase == PAYLOAD_READ_END ==> bytesRead / 2 == (payloadSize + 1) / 2)
    }

    ghost function View(): State
      reads this, payload
      requires Valid()
    {
      State(phase, lastHeader, commandId, payloadSize, payload[..bytesRead / 2])
    }

    constructor ()
      ensures Valid() && View() == State(HEADER_DETECTION, 0, 0, 0, [])
    {
      phase, lastHeader, commandId, payloadSize, bytesRead := HEADER_DETECTION, 0, 0, 0, 0;
      payload := new word[PAYLOAD_WORDS](_ => 0);
    }

    /** The checksum loop. */
    method FinalChecksum() returns (sum: word)
      requires Valid() && phase == PAYLOAD_READ_END
      ensures sum == Checksum(commandId, payloadSize, payload[..bytesRead / 2])
    {
      sum := (commandId + payloadSize) % 0x1_0000;
      ghost var words := payload[..bytesRead / 2];
      assert words[..0] == [];
      for i := 0 to payloadSize / 2
        invariant sum == (commandId + payloadSize + Sum(words[..i])) % 0x1_0000
      {
        assert words[..i + 1][..i] == words[..i];
        AddWrapped(commandId + payloadSize + Sum(words[..i]), payload[i]);
        sum := (sum + payload[i]) % 0x1_0000;
      }
    }

    /** tprotocol_parse. The caller's duty is the C code's unchecked assumption: a payload
        word may only be stored while there is room for it. */
    method Step(data: word, now: stamp) returns (r: Outcome)
      requires Valid() && Room(View(), now)
      modifies this, payload
      ensures Valid()
      ensures old(Coherent(View())) && (View(), r) == Parse(old(View()), data, now)
    {
      if (now - lastHeader) % 0x1_0000_0000 > RESTART_US {
        phase := HEADER_DETECTION;
      }
      r := Nothing;
      match phase {
        case HEADER_DETECTION =>
          if data == HEADER {
            phase := COMMAND_READ;
          }
          lastHeader := now;
        case COMMAND_READ =>
          commandId := data;
          phase := PAYLOAD_SIZE_READ;
        case PAYLOAD_SIZE_READ =>
          payloadSize := data;
          bytesRead := 0;
          phase := if data == 0 then PAYLOAD_READ_END else PAYLOAD_READ_INPROGRESS;
        case PAYLOAD_READ_INPROGRESS =>
          ghost var before := payload[..bytesRead / 2];
          payload[bytesRead / 2] := data;
          bytesRead := bytesRead + 2;
          assert payload[..bytesRead / 2] == before + [data];
          if bytesRead >= payloadSize {
            phase := PAYLOAD_READ_END;
          }
        case PAYLOAD_READ_END =>
          var sum := FinalChecksum();
          lastHeader := 0;
          phase := HEADER_DETECTION;
          if data == sum {
            r := Delivered(Command(commandId, payloadSize, payload[..bytesRead / 2]));
          } else {
            r := ChecksumError;
          }
      }
    }

    /** The samples of a poll, one by one. */
    method Feed(samples: seq<Sample>) returns (out: seq<Outcome>)
      requires Valid() && Coherent(View()) && Roomy(View(), samples)
      modifies this, payload
      ensures Valid() && (View(), out) == ParseAll(old(View()), samples)
    {
      out := [];
      assert samples[0..] == samples && out + ParseAll(View(), samples).1 == ParseAll(View(), samples).1;
      var i := 0;
      while i < |samples|
        invariant i <= |samples| && Valid() && Coherent(View()) && Roomy(View(), samples[i..])
        invariant var rest := ParseAll(View(), samples[i..]);
                  (rest.0, out + rest.1) == ParseAll(old(View()), samples)
      {
        NextOf(View(), samples, i, out);
        var r := Step(samples[i].data, samples[i].at);
        if !r.Nothing? {
          out := out + [r];
        }
        i := i + 1;
      }
      assert out + [] == out;
    }

    /** Whole frames and idle words, sent in time: every command exactly once and in order. */
    method Receive(pieces: seq<Piece>) returns (out: seq<Outcome>)
      requires Valid() && phase == HEADER_DETECTION && forall p <- pieces :: Proper(p)
      modifies this, payload
      ensures Valid() && phase == HEADER_DETECTION && out == Commands(pieces)
    {
      FramesDelivered(View(), pieces);
      out := Feed(Samples(pieces));
    }
  }

  // ---------------------------------------------------------------- framing

  datatype Sample = Sample(data: word, at: stamp)

  /** The outcomes of a stream of samples, leaving out the words that end nothing. */
  function ParseAll(s: State, samples: seq<Sample>): (r: (State, seq<Outcome>))
    requires Coherent(s)
    ensures Coherent(r.0)
    decreases |samples|
  {
    if samples == [] then (s, [])
    else
      var (s', out) := Parse(s, samples[0].data, samples[0].at);
      var (t, rest) := ParseAll(s', samples[1..]);
      (t, if out.Nothing? then rest else [out] + rest)
  }

  lemma {:induction false} ParseAllSplit(s: State, a: seq<Sample>, b: seq<Sample>)
    requires Coherent(s)
    ensures ParseAll(s, a + b) ==
            (var (t, x) := ParseAll(s, a); var (u, y) := ParseAll(t, b); (u, x + y))
    decreases |a|
  {
    if a == [] {
      assert a + b == b;
      assert [] + ParseAll(s, b).1 == ParseAll(s, b).1;
    } else {
      assert (a + b)[1..] == a[1..] + b;
      var (s', out) := Parse(s, a[0].data, a[0].at);
      ParseAllSplit(s', a[1..], b);
      var (t, x) := ParseAll(s', a[1..]);
      assert [out] + (x + ParseAll(t, b).1) == [out] + x + ParseAll(t, b).1;
    }
  }

  /** The buffer has room for every word of the samples when its turn comes. */
  ghost predicate Roomy(s: State, samples: seq<Sample>)
    requires Coherent(s)
    decreases |samples|
  {
    samples == [] ||
    (Room(s, samples[0].at) && Roomy(Parse(s, samples[0].data, samples[0].at).0, samples[1..]))
  }

  /** One sample of a batch parsed, the rest to come. */
  lemma NextOf(s: State, samples: seq<Sample>, i: nat, out: seq<Outcome>)
    requires Coherent(s) && i < |samples| && Roomy(s, samples[i..])
    ensures var (t, r) := Parse(s, samples[i].data, samples[i].at);
            var whole, rest := ParseAll(s, samples[i..]), ParseAll(t, samples[i + 1..]);
            && Room(s, samples[i].at) && Roomy(t, samples[i + 1..])
            && rest.0 == whole.0 && (if r.Nothing? then out else out + [r]) + rest.1 == out + whole.1
  {
    assert samples[i..][0] == samples[i] && samples[i..][1..] == samples[i + 1..];
    var (t, r) := Parse(s, samples[i].data, samples[i].at);
    var rest := ParseAll(t, samples[i + 1..]).1;
    assert out + ([r] + rest) == (out + [r]) + rest;
  }

  lemma {:induction false} RoomySplit(s: State, a: seq<Sample>, b: seq<Sample>)
    requires Coherent(s)
    ensures Roomy(s, a + b) <==> Roomy(s, a) && Roomy(ParseAll(s, a).0, b)
    decreases |a|
  {
    if a == [] {
      assert a + b == b;
    } else {
      assert (a + b)[1..] == a[1..] + b;
      RoomySplit(Parse(s, a[0].data, a[0].at).0, a[1..], b);
    }
  }

  predicate WellSized(c: Command) {
    |c.words| == (c.size + 1) / 2
  }

  /** The payload buffer holds it: the C code checks no size while it stores. */
  predicate Fits(c: Command) {
    WellSized(c) && |c.words| <= PAYLOAD_WORDS
  }

  /** The words of a command on the bus. */
  function Wire(c: Command): (w: seq<word>)
    requires WellSized(c)
  {
    [HEADER, c.id, c.size] + c.words + [Checksum(c.id, c.size, c.words)]
  }

  function Data(samples: seq<Sample>): (r: seq<word>)
    ensures |r| == |samples|
  {
    seq(|samples|, i requires 0 <= i < |samples| => samples[i].data)
  }

  /** Every word within the restart window of the first. */
  predicate Prompt(samples: seq<Sample>) {
    forall x <- samples :: !Late(samples[0].at, x.at)
  }

  lemma {:induction false} BodyParses(s: State, body: seq<Sample>)
    requires s.phase == PAYLOAD_READ_INPROGRESS && |s.words| + |body| == (s.size + 1) / 2
    requires Coherent(s) && |s.words| + |body| <= PAYLOAD_WORDS && forall x <- body :: !Late(s.last, x.at)
    ensures Roomy(s, body)
    ensures ParseAll(s, body) == (s.(phase := PAYLOAD_READ_END, words := s.words + Data(body)), [])
    decreases |body|
  {
    var (s', out) := Parse(s, body[0].data, body[0].at);
    assert Data(body) == [body[0].data] + Data(body[1..]);
    assert s.words + Data(body) == s'.words + Data(body[1..]);
    if s'.phase == PAYLOAD_READ_END {
      assert body[1..] == [];
      assert Data(body[1..]) == [];
      assert s'.words + [] == s'.words;
      assert s' == s.(phase := PAYLOAD_READ_END, words := s.words + Data(body));
      assert ParseAll(s', body[1..]) == (s', []);
    } else {
      BodyParses(s', body[1..]);
    }
  }

  /** Three words in from a header, the parser waits for the payload of the announced size. */
  lemma HeadParses(s: State, head: seq<Sample>, c: Command)
    requires |head| == 3 && Data(head) == [HEADER, c.id, c.size]
    requires Coherent(s) && (s.phase == HEADER_DETECTION || Late(s.last, head[0].at))
    requires forall x <- head :: !Late(head[0].at, x.at)
    ensures var phase := if c.size == 0 then PAYLOAD_READ_END else PAYLOAD_READ_INPROGRESS;
            ParseAll(s, head) == (State(phase, head[0].at, c.id, c.size, []), [])
    ensures Roomy(s, head)
  {
    var x, y, z := head[0], head[1], head[2];
    assert head == [x, y, z] && y in head && z in head;
    assert x.data == Data(head)[0] && y.data == Data(head)[1] && z.data == Data(head)[2];
    assert [x, y, z][1..] == [y, z] && [y, z][1..] == [z] && [z][1..] == [];
    var s1 := Parse(s, x.data, x.at).0;
    var s2 := Parse(s1, y.data, y.at).0;
    var s3 := Parse(s2, z.data, z.at).0;
    assert s1 == State(COMMAND_READ, x.at, s.cmd, s.size, s.words);
    assert s2 == State(PAYLOAD_SIZE_READ, x.at, c.id, s.size, s.words);
    assert ParseAll(s3, []) == (s3, []) && Roomy(s3, []);
    assert ParseAll(s2, [z]) == (s3, []) && Roomy(s2, [z]);
    assert ParseAll(s1, [y, z]) == (s3, []) && Roomy(s1, [y, z]);
  }

  /** Everything up to the checksum word: the parser holds the command and waits for its sum. */
  lemma CommandHeld(s: State, front: seq<Sample>, c: Command)
    requires Coherent(s) && Fits(c) && |front| >= 1
    requires s.phase == HEADER_DETECTION || Late(s.last, front[0].at)
    requires Data(front) == [HEADER, c.id, c.size] + c.words && Prompt(front)
    ensures ParseAll(s, front) == (State(PAYLOAD_READ_END, front[0].at, c.id, c.size, c.words), [])
    ensures Roomy(s, front)
  {
    var head, body := front[..3], front[3..];
    assert front == head + body && |Data(front)| == 3 + |c.words|;
    assert ([HEADER, c.id, c.size] + c.words)[..3] == [HEADER, c.id, c.size];
    assert Data(head) == Data(front)[..3];
    assert Data(body) == Data(front)[3..] == c.words;
    HeadParses(s, head, c);
    ParseAllSplit(s, head, body);
    RoomySplit(s, head, body);
    if c.size > 0 {
      BodyParses(ParseAll(s, head).0, body);
      assert [] + Data(body) == c.words;
    } else {
      assert body == [];
    }
  }

  /** A frame whose last word may be anything ends in exactly one callback, the command's or
      the checksum error's, with the parser looking for a header again. */
  lemma FrameEnds(s: State, samples: seq<Sample>, c: Command)
    requires Coherent(s) && Fits(c) && |samples| >= 4
    requires s.phase == HEADER_DETECTION || Late(s.last, samples[0].at)
    requires Data(samples)[..|samples| - 1] == [HEADER, c.id, c.size] + c.words && Prompt(samples)
    ensures var (t, out) := ParseAll(s, samples);
            && t.phase == HEADER_DETECTION
            && out == [if samples[|samples| - 1].data == Checksum(c.id, c.size, c.words) then Delivered(c)
                       else ChecksumError]
    ensures Roomy(s, samples)
  {
    var n := |samples| - 1;
    var front, last := samples[..n], samples[n];
    assert samples == front + [last];
    assert Data(front) == Data(samples)[..n];
    CommandHeld(s, front, c);
    ParseAllSplit(s, front, [last]);
    RoomySplit(s, front, [last]);
    assert last in samples;
    var held := ParseAll(s, front).0;
    assert ParseAll(held, [last]).1 == [Parse(held, last.data, last.at).1] by {
      assert [last][1..] == [];
    }
  }

  /** A piece of the sample stream: a command sent in time, or idle words. */
  datatype Piece = Frame(samples: seq<Sample>, command: Command) | Idle(samples: seq<Sample>)

  ghost predicate Proper(p: Piece) {
    match p
    case Frame(samples, c) => Fits(c) && Data(samples) == Wire(c) && Prompt(samples)
    case Idle(samples) => forall x <- samples :: x.data != HEADER
  }

  function Samples(pieces: seq<Piece>): seq<Sample> {
    if pieces == [] then [] else pieces[0].samples + Samples(pieces[1..])
  }

  function Commands(pieces: seq<Piece>): seq<Outcome> {
    if pieces == [] then []
    else (if pieces[0].Frame? then [Delivered(pieces[0].command)] else []) + Commands(pieces[1..])
  }

  lemma {:induction false} IdleParses(s: State, samples: seq<Sample>)
    requires s.phase == HEADER_DETECTION && forall x <- samples :: x.data != HEADER
    ensures ParseAll(s, samples).0.phase == HEADER_DETECTION && ParseAll(s, samples).1 == [] && Roomy(s, samples)
    decreases |samples|
  {
    if samples != [] {
      IdleParses(Parse(s, samples[0].data, samples[0].at).0, samples[1..]);
    }
  }

  /** Framing: commands of any content and any size the buffer holds, each sent in time, with
      any idle words and any pauses between them, are delivered exactly once each and in
      order, and the buffer has room for every word of them. */
  lemma {:induction false} FramesDelivered(s: State, pieces: seq<Piece>)
    requires s.phase == HEADER_DETECTION && forall p <- pieces :: Proper(p)
    ensures var (t, out) := ParseAll(s, Samples(pieces));
            t.phase == HEADER_DETECTION && out == Commands(pieces)
    ensures Roomy(s, Samples(pieces))
    decreases |pieces|
  {
    if pieces != [] {
      var p := pieces[0];
      assert Proper(p);
      ParseAllSplit(s, p.samples, Samples(pieces[1..]));
      RoomySplit(s, p.samples, Samples(pieces[1..]));
      if p.Frame? {
        var n := |p.samples| - 1;
        assert Data(p.samples)[..n] == [HEADER, p.command.id, p.command.size] + p.command.words;
        assert Data(p.samples)[n] == p.samples[n].data;
        FrameEnds(s, p.samples, p.command);
      } else {
        IdleParses(s, p.samples);
      }
      FramesDelivered(ParseAll(s, p.samples).0, pieces[1..]);
    }
  }

  /** A pause longer than the window after the last header puts the parser back to looking
      for one, whatever it was doing: the next command is not lost. */
  lemma RecoversAfterPause(s: State, pieces: seq<Piece>)
    requires Coherent(s) && forall p <- pieces :: Proper(p)
    requires Samples(pieces) != [] && Late(s.last, Samples(pieces)[0].at)
    ensures ParseAll(s, Samples(pieces)).1 == Commands(pieces) && Roomy(s, Samples(pieces))
  {
    var at := Samples(pieces)[0].at;
    FramesDelivered(s.(phase := HEADER_DETECTION), pieces);
    assert Restarted(s, at) == Restarted(s.(phase := HEADER_DETECTION), at);
  }

  // ---------------------------------------------------------------- corruption

  lemma {:induction false} SumSplit(a: seq<word>, b: seq<word>)
    ensures Sum(a + b) == Sum(a) + Sum(b)
    decreases |b|
  {
    if b == [] {
      assert a + b == a;
    } else {
      assert (a + b)[..|a + b| - 1] == a + b[..|b| - 1];
      SumSplit(a, b[..|b| - 1]);
    }
  }

  lemma SumUpdate(words: seq<word>, i: nat, x: word)
    requires i < |words|
    ensures Sum(words[i := x]) == Sum(words) - words[i] + x
  {
    var a, b := words[..i], words[i + 1..];
    assert words == a + [words[i]] + b && words[i := x] == a + [x] + b;
    SumSplit(a + [words[i]], b);
    SumSplit(a + [x], b);
    SumSplit(a, [words[i]]);
    SumSplit(a, [x]);
    assert forall y: word :: [y][..0] == [];
  }

  lemma SumsDiffer(base: nat, x: word, y: word)
    ensures (base + x) % 0x1_0000 == (base + y) % 0x1_0000 <==> x == y
  {
  }

  /** A changed payload word changes the checksum exactly when it is one of the summed words. */
  lemma PayloadAltered(c: Command, k: nat, x: word)
    requires WellSized(c) && k < |c.words| && x != c.words[k]
    ensures Checksum(c.id, c.size, c.words[k := x]) == Checksum(c.id, c.size, c.words) <==> k >= c.size / 2
  {
    var half := c.size / 2;
    var summed := c.words[..half];
    if k < half {
      assert c.words[k := x][..half] == summed[k := x];
      SumUpdate(summed, k, x);
      SumPart(summed, k);
      SumsDiffer(c.id + c.size + Sum(summed) - c.words[k], c.words[k], x);
    } else {
      assert c.words[k := x][..half] == summed;
    }
  }

  /** Altering one word of the frame in flight: position 1 is the command, 3.. the payload,
      the last is the sum. The checksum error, and nothing else, is reported exactly when the
      word is in the sum: only the odd last word of a payload is not. */
  lemma OneWordAltered(s: State, samples: seq<Sample>, c: Command, i: nat, x: word)
    requires s.phase == HEADER_DETECTION && Fits(c)
    requires i < |Wire(c)| && i != 0 && i != 2 && x != Wire(c)[i]
    requires Data(samples) == Wire(c)[i := x] && Prompt(samples)
    ensures var (t, out) := ParseAll(s, samples);
            && t.phase == HEADER_DETECTION && |out| == 1
            && (out == [ChecksumError] <==> !(c.size % 2 == 1 && i == 3 + c.size / 2))
    ensures Roomy(s, samples)
  {
    var n, got := |samples| - 1, Data(samples);
    assert got[n] == samples[n].data;
    if i == 1 {
      var c' := c.(id := x);
      assert got[..n] == [HEADER, c'.id, c'.size] + c'.words;
      FrameEnds(s, samples, c');
      SumsDiffer(c.size + Sum(c.words[..c.size / 2]), c.id, x);
    } else if i < n {
      var c' := c.(words := c.words[i - 3 := x]);
      assert got[..n] == [HEADER, c'.id, c'.size] + c'.words;
      FrameEnds(s, samples, c');
      PayloadAltered(c, i - 3, x);
    } else {
      assert got[..n] == [HEADER, c.id, c.size] + c.words;
      FrameEnds(s, samples, c);
    }
  }

  lemma SumPart(words: seq<word>, i: nat)
    requires i < |words|
    ensures Sum(words) >= words[i]
  {
    SumUpdate(words, i, 0);
  }

  /** The size word altered so that the number of words stays: the last word enters the sum or
      leaves it. The error is reported exactly when that word is not 0xFFFF, which makes up for the
      altered size. */
  lemma SizeWordAltered(s: State, samples: seq<Sample>, c: Command, x: word)
    requires s.phase == HEADER_DETECTION && Fits(c) && c.words != []
    requires x == if c.size % 2 == 1 then c.size + 1 else c.size - 1
    requires Data(samples) == Wire(c)[2 := x] && Prompt(samples)
    ensures var (t, out) := ParseAll(s, samples);
            && t.phase == HEADER_DETECTION && |out| == 1
            && (out == [ChecksumError] <==> c.words[|c.words| - 1] != 0xFFFF)
    ensures Roomy(s, samples)
  {
    var n, c' := |samples| - 1, c.(size := x);
    assert Data(samples)[n] == samples[n].data;
    assert Data(samples)[..n] == [HEADER, c'.id, c'.size] + c'.words;
    FrameEnds(s, samples, c');
    SizeCounts(c, x);
  }

  lemma SizeCounts(c: Command, x: word)
    requires Fits(c) && c.words != [] && x == if c.size % 2 == 1 then c.size + 1 else c.size - 1
    ensures Checksum(c.id, x, c.words) == Checksum(c.id, c.size, c.words) <==> c.words[|c.words| - 1] == 0xFFFF
  {
    var k := |c.words|;
    assert c.words[..k][..k - 1] == c.words[..k - 1] && c.words[..k] == c.words;
    assert Sum(c.words) == Sum(c.words[..k - 1]) + c.words[k - 1];
    var rest := c.id + Sum(c.words[..k - 1]);
    LastWordCounts(rest + if c.size % 2 == 1 then c.size else x, c.words[k - 1]);
  }

  /** One more and the last word together leave a 16-bit sum alone only for 0xFFFF. */
  lemma LastWordCounts(rest: nat, last: word)
    ensures (rest + 1 + last) % 0x1_0000 == rest % 0x1_0000 <==> last == 0xFFFF
  {
  }

  // ---------------------------------------------------------------- written out

  /** More than ten milliseconds, on a 32-bit microsecond clock that wraps. */
  lemma LateIs(last: stamp, now: stamp)
    ensures Late(last, now) <==> (if now >= last then now - last else now + 0x1_0000_0000 - last) > 10000
  {
  }

  /** Frames on the bus: a payload of two words, none, an odd byte, and a sum that wraps. */
  lemma FramesWritten()
    ensures Wire(Command(0x0102, 4, [0x1111, 0x2222])) == [0xABCD, 0x0102, 0x0004, 0x1111, 0x2222, 0x3439]
    ensures Wire(Command(0x0007, 0, [])) == [0xABCD, 0x0007, 0x0000, 0x0007]
    ensures Wire(Command(0x0001, 3, [0x0005, 0x7700])) == [0xABCD, 0x0001, 0x0003, 0x0005, 0x7700, 0x0009]
    ensures Wire(Command(0xFFFF, 2, [0x0002])) == [0xABCD, 0xFFFF, 0x0002, 0x0002, 0x0003]
  {
    SumOfTwo(0x1111, 0x2222);
    SumOfOne(0x0005);
    SumOfOne(0x0002);
    assert [0x1111, 0x2222][..2] == [0x1111, 0x2222] && [0x0005, 0x7700][..1] == [0x0005];
    assert [0x0002][..1] == [0x0002];
  }

  lemma SumOfOne(a: word)
    ensures Sum([a]) == a
  {
    assert [a][..0] == [];
  }

  lemma SumOfTwo(a: word, b: word)
    ensures Sum([a, b]) == a + b
  {
    assert [a, b][..1] == [a];
    SumOfOne(a);
  }

  /** And read back, one word every hundred microseconds. */
  lemma FrameRead(at: stamp)
    requires at <= 0xFFFF_0000
    ensures var samples := [Sample(0xABCD, at), Sample(0x0102, at + 100), Sample(0x0004, at + 200),
                            Sample(0x1111, at + 300), Sample(0x2222, at + 400), Sample(0x3439, at + 500)];
            ParseAll(State(HEADER_DETECTION, 0, 0, 0, []), samples).1
            == [Delivered(Command(0x0102, 4, [0x1111, 0x2222]))]
  {
    var samples := [Sample(0xABCD, at), Sample(0x0102, at + 100), Sample(0x0004, at + 200),
                    Sample(0x1111, at + 300), Sample(0x2222, at + 400), Sample(0x3439, at + 500)];
    var c := Command(0x0102, 4, [0x1111, 0x2222]);
    FramesWritten();
    assert Data(samples) == Wire(c);
    assert Data(samples)[..5] == [HEADER, c.id, c.size] + c.words;
    FrameEnds(State(HEADER_DETECTION, 0, 0, 0, []), samples, c);
  }
}
