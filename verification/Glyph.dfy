/** The packed run-length glyph decoder of rp/src/u8g2/u8g2_font.c. */
module Glyph {
  import opened Arithmetic
  import opened Bytes

  // ---------------------------------------------------------------- bit strings

  /** The k low bits of n, least significant first. */
  function ToBits(n: nat, k: nat): (r: seq<bool>)
    ensures |r| == k
  {
    if k == 0 then [] else [n % 2 == 1] + ToBits(n / 2, k - 1)
  }

  function FromBits(bits: seq<bool>): nat {
    if bits == [] then 0 else (if bits[0] then 1 else 0) + 2 * FromBits(bits[1..])
  }

  /** A byte string as a stream of bits, each byte least significant bit first. */
  function Bits(data: seq<byte>): (r: seq<bool>)
    ensures |r| == 8 * |data|
  {
    if data == [] then [] else ToBits(data[0], 8) + Bits(data[1..])
  }

  lemma {:induction false} ByteOfBits(data: seq<byte>, i: nat)
    requires i < |data|
    ensures Bits(data)[8 * i..8 * i + 8] == ToBits(data[i], 8)
    decreases |data|
  {
    if i > 0 {
      ByteOfBits(data[1..], i - 1);
      var rest := Bits(data[1..]);
      assert Bits(data)[8 * i..8 * i + 8] == rest[8 * (i - 1)..8 * (i - 1) + 8];
    } else {
      assert Bits(data)[..8] == ToBits(data[0], 8);
    }
  }

  lemma {:induction false} FromBitsAppend(a: seq<bool>, b: seq<bool>)
    ensures FromBits(a + b) == FromBits(a) + Pow2(|a|) * FromBits(b)
    decreases |a|
  {
    if a == [] {
      assert a + b == b;
    } else {
      assert (a + b)[1..] == a[1..] + b;
      FromBitsAppend(a[1..], b);
      Double(Pow2(|a| - 1), FromBits(b));
    }
  }

  lemma Double(p: nat, n: nat)
    ensures 2 * p * n == 2 * (p * n)
  {
  }

  lemma {:induction false} FromBitsBound(a: seq<bool>)
    ensures FromBits(a) < Pow2(|a|)
    decreases |a|
  {
    if a != [] {
      FromBitsBound(a[1..]);
    }
  }

  lemma {:induction false} FromToBits(n: nat, k: nat)
    requires n < Pow2(k)
    ensures FromBits(ToBits(n, k)) == n
    decreases k
  {
    if k > 0 {
      FromToBits(n / 2, k - 1);
      assert ToBits(n, k)[1..] == ToBits(n / 2, k - 1);
    }
  }

  /** The number splits at any bit into low and high parts. */
  lemma SplitNumber(bits: seq<bool>, k: nat)
    requires k <= |bits|
    ensures FromBits(bits) % Pow2(k) == FromBits(bits[..k])
    ensures FromBits(bits) / Pow2(k) == FromBits(bits[k..])
  {
    var low, high := bits[..k], bits[k..];
    assert bits == low + high;
    FromBitsAppend(low, high);
    FromBitsBound(low);
    Commute(Pow2(k), FromBits(high));
    Quotient(FromBits(bits), Pow2(k), FromBits(high), FromBits(low));
  }

  lemma {:induction false} Pow2Add(a: nat, b: nat)
    ensures Pow2(a + b) == Pow2(a) * Pow2(b)
  {
    if a > 0 {
      Pow2Add(a - 1, b);
      Double(Pow2(a - 1), Pow2(b));
    }
  }

  lemma ByteValue(b: byte)
    ensures FromBits(ToBits(b, 8)) == b
  {
    Pow2Eight();
    FromToBits(b, 8);
  }

  // ---------------------------------------------------------------- the bit reader

  function Repeated(b: bool, n: nat): (r: seq<bool>)
    ensures |r| == n
    ensures forall i :: 0 <= i < n ==> r[i] == b
  {
    if n == 0 then [] else [b] + Repeated(b, n - 1)
  }

  lemma {:induction false} FromClear(n: nat)
    ensures FromBits(Repeated(false, n)) == 0
  {
    if n > 0 {
      FromClear(n - 1);
      assert Repeated(false, n)[1..] == Repeated(false, n - 1);
    }
  }

  /** Shifting a byte up by s, within a byte, moves its low 8 - s bits up by s. */
  lemma ShiftedByte(b: byte, s: nat)
    requires s <= 8
    ensures b * Pow2(s) % 256 == Pow2(s) * FromBits(ToBits(b, 8)[..8 - s])
  {
    var clear, bits := Repeated(false, s), ToBits(b, 8);
    FromClear(s);
    FromBitsAppend(clear, bits);
    ByteValue(b);
    Pow2Eight();
    SplitNumber(clear + bits, 8);
    assert (clear + bits)[..8] == clear + bits[..8 - s];
    FromBitsAppend(clear, bits[..8 - s]);
    Commute(b, Pow2(s));
  }

  lemma Commute(a: nat, b: nat)
    ensures a * b == b * a
  {
  }

  lemma HighBits(b: byte, bit: nat)
    requires bit <= 8
    ensures b / Pow2(bit) == FromBits(ToBits(b, 8)[bit..])
  {
    ByteValue(b);
    SplitNumber(ToBits(b, 8), bit);
  }

  lemma LowBits(v: nat, bits: seq<bool>, cnt: nat)
    requires v == FromBits(bits) && cnt <= |bits|
    ensures v % Pow2(cnt) == FromBits(bits[..cnt])
  {
    SplitNumber(bits, cnt);
  }

  /** What is left of one byte and the start of the next, joined. */
  lemma JoinBits(b: byte, next: byte, bit: nat)
    requires bit < 8
    ensures b / Pow2(bit) + next * Pow2(8 - bit) % 256 == FromBits((ToBits(b, 8) + ToBits(next, 8))[bit..bit + 8])
  {
    var low, high := ToBits(b, 8)[bit..], ToBits(next, 8)[..bit];
    HighBits(b, bit);
    ShiftedByte(next, 8 - bit);
    FromBitsAppend(low, high);
    assert (ToBits(b, 8) + ToBits(next, 8))[bit..bit + 8] == low + high;
  }

  /** Two neighbouring bytes hold 16 neighbouring bits of the stream. */
  lemma Neighbours(data: seq<byte>, i: nat)
    requires i + 1 < |data|
    ensures Bits(data)[8 * i..8 * i + 16] == ToBits(data[i], 8) + ToBits(data[i + 1], 8)
  {
    ByteOfBits(data, i);
    ByteOfBits(data, i + 1);
    TwoSlices(Bits(data), 8 * i, 8 * i + 8, 8 * i + 16);
  }

  lemma TwoSlices(s: seq<bool>, a: nat, b: nat, c: nat)
    requires a <= b <= c <= |s|
    ensures s[a..c] == s[a..b] + s[b..c]
  {
  }

  lemma SliceOfSlice(s: seq<bool>, base: nat, len: nat, from: nat, cnt: nat)
    requires base + len <= |s| && from + cnt <= len
    ensures s[base..base + len][from..from + cnt] == s[base + from..base + from + cnt]
  {
    var part, inner := s[base..base + len], s[base + from..base + from + cnt];
    assert forall i :: 0 <= i < cnt ==> part[from..from + cnt][i] == inner[i];
  }

  // ---------------------------------------------------------------- the raster

  /** One painted dot of the glyph, at its place on the screen. */
  datatype Dot = Dot(x: int, y: int, ink: bool)

  datatype Place = Place(x: nat, y: nat)

  /** A glyph's box: its corner on the screen, its width, and whether clear dots are painted. */
  datatype Box = Box(left: int, top: int, width: nat, transparent: bool)

  function Step(w: nat, at: Place): Place {
    if at.x + 1 < w then Place(at.x + 1, at.y) else Place(0, at.y + 1)
  }

  function Advance(w: nat, at: Place, n: nat): Place
    decreases n
  {
    if n == 0 then at else Advance(w, Step(w, at), n - 1)
  }

  function Painted(box: Box, at: Place, ink: bool): seq<Dot> {
    if ink || !box.transparent then [Dot(box.left + at.x, box.top + at.y, ink)] else []
  }

  /** Painting a bit string over the box in raster order, starting at a place. */
  function Raster(box: Box, at: Place, bits: seq<bool>): seq<Dot>
    decreases |bits|
  {
    if bits == [] then [] else Painted(box, at, bits[0]) + Raster(box, Step(box.width, at), bits[1..])
  }

  lemma {:induction false} RasterAppend(box: Box, at: Place, a: seq<bool>, b: seq<bool>)
    ensures Raster(box, at, a + b) == Raster(box, at, a) + Raster(box, Advance(box.width, at, |a|), b)
    decreases |a|
  {
    if a == [] {
      assert a + b == b;
    } else {
      assert (a + b)[1..] == a[1..] + b;
      RasterAppend(box, Step(box.width, at), a[1..], b);
    }
  }

  lemma {:induction false} AdvanceAppend(w: nat, at: Place, m: nat, n: nat)
    ensures Advance(w, at, m + n) == Advance(w, Advance(w, at, m), n)
    decreases m
  {
    if m > 0 {
      AdvanceAppend(w, Step(w, at), m - 1, n);
    }
  }

  /** Places in raster order are the numbers y * w + x. */
  function Index(w: nat, at: Place): nat {
    at.y * w + at.x
  }

  lemma NextRow(w: nat, y: nat)
    ensures (y + 1) * w == y * w + w
  {
  }

  lemma {:induction false} IndexOfAdvance(w: nat, at: Place, n: nat)
    requires at.x < w
    ensures Advance(w, at, n).x < w
    ensures Index(w, Advance(w, at, n)) == Index(w, at) + n
    decreases n
  {
    if n > 0 {
      NextRow(w, at.y);
      IndexOfAdvance(w, Step(w, at), n - 1);
    }
  }

  /** A row of the box is painted by one horizontal line. */
  function Across(box: Box, at: Place, n: nat, ink: bool): (r: seq<Dot>)
    decreases n
  {
    if n == 0 then [] else Painted(box, at, ink) + Across(box, Place(at.x + 1, at.y), n - 1, ink)
  }

  lemma {:induction false} RowIsLine(box: Box, at: Place, n: nat, ink: bool)
    requires at.x + n <= box.width && at.x < box.width
    ensures Raster(box, at, Repeated(ink, n)) == Across(box, at, n, ink)
    ensures Advance(box.width, at, n) == if at.x + n < box.width then Place(at.x + n, at.y) else Place(0, at.y + 1)
    decreases n
  {
    if n > 0 {
      assert Repeated(ink, n)[1..] == Repeated(ink, n - 1);
      if at.x + 1 < box.width {
        RowIsLine(box, Place(at.x + 1, at.y), n - 1, ink);
      } else {
        assert n == 1;
      }
    }
  }

  lemma {:induction false} RepeatedSplit(b: bool, m: nat, n: nat)
    ensures Repeated(b, m + n) == Repeated(b, m) + Repeated(b, n)
  {
  }

  /** Painting cnt more dots of one kind, from here, finishes the run. */
  ghost predicate Running(box: Box, painted: seq<Dot>, at: Place, ink: bool, cnt: nat, total: seq<Dot>, end: Place) {
    painted + Raster(box, at, Repeated(ink, cnt)) == total && Advance(box.width, at, cnt) == end
  }

  /** A run splits into a piece within the row and the rest. */
  lemma RunPiece(box: Box, painted: seq<Dot>, at: Place, ink: bool, cnt: nat, total: seq<Dot>, end: Place)
    requires at.x < box.width && Running(box, painted, at, ink, cnt, total, end)
    ensures var rem := box.width - at.x;
            if cnt < rem then painted + Across(box, at, cnt, ink) == total && Place(at.x + cnt, at.y) == end
            else Running(box, painted + Across(box, at, rem, ink), Place(0, at.y + 1), ink, cnt - rem, total, end)
  {
    var n := if cnt < box.width - at.x then cnt else box.width - at.x;
    RowIsLine(box, at, n, ink);
    RepeatedSplit(ink, n, cnt - n);
    RasterAppend(box, at, Repeated(ink, n), Repeated(ink, cnt - n));
    AdvanceAppend(box.width, at, n, cnt - n);
  }

  // ---------------------------------------------------------------- run groups

  /** A run of clear dots, a run of ink dots, and how often the pair is drawn. */
  datatype Group = Group(zeros: nat, ones: nat, more: nat)

  /** Field widths of a font: bits for a run of clear dots and for a run of ink. */
  datatype Widths = Widths(zeros: nat, ones: nat)

  predicate Fits(w: Widths, g: Group) {
    w.zeros <= 8 && w.ones <= 8 && g.zeros < Pow2(w.zeros) && g.ones < Pow2(w.ones)
  }

  function Pair(g: Group): seq<bool> {
    Repeated(false, g.zeros) + Repeated(true, g.ones)
  }

  function Times(s: seq<bool>, n: nat): (r: seq<bool>)
    ensures |r| == n * |s|
  {
    if n == 0 then assert 0 * |s| == 0; [] else assert n * |s| == |s| + (n - 1) * |s|; s + Times(s, n - 1)
  }

  /** The dots a group stands for. */
  function Expanded(g: Group): seq<bool> {
    Times(Pair(g), g.more + 1)
  }

  /** A group in the font: both run lengths, then a set bit for every further repetition. */
  function Packed(w: Widths, g: Group): seq<bool> {
    ToBits(g.zeros, w.zeros) + ToBits(g.ones, w.ones) + (Repeated(true, g.more) + [false])
  }

  function Dots(gs: seq<Group>): seq<bool>
    decreases |gs|
  {
    if gs == [] then [] else Expanded(gs[0]) + Dots(gs[1..])
  }

  function PackAll(w: Widths, gs: seq<Group>): seq<bool>
    decreases |gs|
  {
    if gs == [] then [] else Packed(w, gs[0]) + PackAll(w, gs[1..])
  }

  /** The glyph is full exactly after its last group. */
  predicate Fills(gs: seq<Group>, dots: int)
    decreases |gs|
  {
    gs != [] && if |Expanded(gs[0])| >= dots then |gs| == 1 else Fills(gs[1..], dots - |Expanded(gs[0])|)
  }

  /** The bits of a byte from a bit up. */
  method RestOfByte(data: seq<byte>, ptr: nat, bit: nat) returns (val: nat)
    requires ptr < |data| && bit <= 8
    ensures val == FromBits(Bits(data)[8 * ptr + bit..8 * ptr + 8])
  {
    HighBits(data[ptr], bit);
    ByteOfBits(data, ptr);
    SliceOfSlice(Bits(data), 8 * ptr, 8, bit, 8 - bit);
    assert ToBits(data[ptr], 8)[bit..] == ToBits(data[ptr], 8)[bit..8];
    val := data[ptr] / Pow2(bit);
  }

  /** The same with the next byte shifted over them, which makes eight bits. */
  method JoinBytes(data: seq<byte>, ptr: nat, bit: nat) returns (val: nat)
    requires ptr + 1 < |data| && bit < 8
    ensures val == FromBits(Bits(data)[8 * ptr + bit..8 * ptr + bit + 8])
  {
    JoinBits(data[ptr], data[ptr + 1], bit);
    Neighbours(data, ptr);
    SliceOfSlice(Bits(data), 8 * ptr, 16, bit, 8);
    val := data[ptr] / Pow2(bit) + data[ptr + 1] * Pow2(8 - bit) % 256;
  }

  /** Masks a number made of held bits down to cnt of them. */
  method Keep(v: nat, cnt: nat, ghost s: seq<bool>, ghost at: nat, ghost held: nat) returns (val: nat)
    requires at + held <= |s| && cnt <= held && v == FromBits(s[at..at + held])
    ensures val == FromBits(s[at..at + cnt])
  {
    LowBits(v, s[at..at + held], cnt);
    assert s[at..at + held][..cnt] == s[at..at + cnt];
    val := v % Pow2(cnt);
  }

  class Decoder {
    const data: seq<byte>
    const box: Box
    const widths: Widths
    var ptr: nat
    var bitPos: nat
    var x: nat
    var y: nat
    /** Everything painted so far, in order. */
    ghost var painted: seq<Dot>

    ghost predicate Valid()
      reads this
    {
      bitPos < 8 && x < box.width <= 127 && widths.zeros <= 8 && widths.ones <= 8
    }

    ghost function Position(): nat
      reads `ptr, `bitPos
    {
      8 * ptr + bitPos
    }

    ghost function At(): Place
      reads `x, `y
    {
      Place(x, y)
    }

    /** The next cnt bits of the stream, as a number. The byte after a finished one is fetched at once. */
    method GetBits(cnt: nat) returns (val: nat)
      requires bitPos < 8 && cnt <= 8
      requires Position() + cnt < 8 * |data|
      modifies `ptr, `bitPos
      ensures val == FromBits(Bits(data)[old(Position())..old(Position()) + cnt])
      ensures bitPos < 8 && Position() == old(Position()) + cnt
    {
      var after := bitPos + cnt;
      if after >= 8 {
        val := JoinBytes(data, ptr, bitPos);
        val := Keep(val, cnt, Bits(data), Position(), 8);
        ptr := ptr + 1;
        after := after - 8;
      } else {
        val := RestOfByte(data, ptr, bitPos);
        val := Keep(val, cnt, Bits(data), Position(), 8 - bitPos);
      }
      bitPos := after;
    }

    /** One run: row by row, each piece a single horizontal line. */
    method DecodeLen(len: nat, ink: bool)
      requires Valid() && len <= 255
      requires Advance(box.width, At(), len).y <= 127
      modifies `x, `y, `painted
      ensures Valid()
      ensures painted == old(painted) + Raster(box, old(At()), Repeated(ink, len))
      ensures At() == Advance(box.width, old(At()), len)
    {
      var cnt: nat, lx: nat, ly: nat := len, x, y;
      ghost var total, end := painted + Raster(box, At(), Repeated(ink, len)), Advance(box.width, At(), len);
      var going := true;
      while going
        invariant Valid() && x == old(x) && y == old(y) && lx < box.width
        invariant going ==> Running(box, painted, Place(lx, ly), ink, cnt, total, end)
        invariant !going ==> painted == total && lx + cnt < box.width && Place(lx + cnt, ly) == end
        decreases going, cnt
      {
        var rem := box.width - lx;
        var current := if cnt < rem then cnt else rem;
        RunPiece(box, painted, Place(lx, ly), ink, cnt, total, end);
        painted := painted + Across(box, Place(lx, ly), current, ink);
        if cnt < rem {
          going := false;
        } else {
          cnt := cnt - rem;
          lx := 0;
          ly := ly + 1;
        }
      }
      x, y := lx + cnt, ly;
    }

    /** A run of clear dots, then a run of ink. */
    method DrawPair(a: nat, b: nat)
      requires Valid() && a <= 255 && b <= 255
      requires Advance(box.width, At(), a + b).y <= 127
      modifies `x, `y, `painted
      ensures Valid()
      ensures painted == old(painted) + Raster(box, old(At()), Repeated(false, a) + Repeated(true, b))
      ensures At() == Advance(box.width, old(At()), a + b)
    {
      AdvanceAppend(box.width, At(), a, b);
      NeverUp(box.width, Advance(box.width, At(), a), b);
      RasterAppend(box, At(), Repeated(false, a), Repeated(true, b));
      DecodeLen(a, false);
      DecodeLen(b, true);
    }

    /** Reads a field that comes next. */
    method TakeField(cnt: nat, ghost n: nat, ghost rest: seq<bool>) returns (val: nat)
      requires Valid() && cnt <= 8 && n < Pow2(cnt)
      requires Ahead(data, Position(), ToBits(n, cnt) + rest)
      modifies `ptr, `bitPos
      ensures Valid() && val == n && Ahead(data, Position(), rest) && Position() == old(Position()) + cnt
    {
      ghost var p := Position();
      TwoParts(Bits(data), p, ToBits(n, cnt), rest);
      FromToBits(n, cnt);
      val := GetBits(cnt);
    }

    /** One group of the font: its runs, drawn again for every set bit that follows. */
    method DrawGroup(ghost g: Group, ghost rest: seq<bool>)
      requires Valid() && Fits(widths, g)
      requires Ahead(data, Position(), Packed(widths, g) + rest)
      requires Advance(box.width, At(), |Expanded(g)|).y <= 127
      modifies `ptr, `bitPos, `x, `y, `painted
      ensures Valid() && Ahead(data, Position(), rest)
      ensures painted == old(painted) + Raster(box, old(At()), Expanded(g))
      ensures At() == Advance(box.width, old(At()), |Expanded(g)|)
      ensures Position() == old(Position()) + |Packed(widths, g)|
    {
      RegroupPacked(widths, g, rest);
      ByteSized(widths.zeros, g.zeros);
      ByteSized(widths.ones, g.ones);
      var a := TakeField(widths.zeros, g.zeros, ToBits(g.ones, widths.ones) + (Flags(g.more) + rest));
      var b := TakeField(widths.ones, g.ones, Flags(g.more) + rest);
      ghost var left, start := g.more, At();
      ghost var end, total := Advance(box.width, start, |Expanded(g)|), painted + Raster(box, start, Expanded(g));
      var again := true;
      while again
        invariant Valid()
        invariant again ==> Ahead(data, Position(), Flags(left) + rest)
                            && Pending(box, painted, At(), Pair(g), left, end, total)
        invariant again ==> Position() + left + 1 == old(Position()) + |Packed(widths, g)|
        invariant !again ==> Position() == old(Position()) + |Packed(widths, g)|
        invariant !again ==> Ahead(data, Position(), rest) && painted == total && At() == end
        decreases again, left
      {
        again := DrawOnce(a, b, Pair(g), left, rest, end, total);
        left := if again then left - 1 else 0;
      }
    }

    /** One repetition, and the bit that says whether another follows. */
    method DrawOnce(a: nat, b: nat, ghost pair: seq<bool>, ghost left: nat, ghost rest: seq<bool>, ghost end: Place,
                    ghost total: seq<Dot>)
      returns (again: bool)
      requires Valid() && a <= 255 && b <= 255 && pair == Repeated(false, a) + Repeated(true, b)
      requires Ahead(data, Position(), Flags(left) + rest) && Pending(box, painted, At(), pair, left, end, total)
      modifies `ptr, `bitPos, `x, `y, `painted
      ensures Valid() && again == (left > 0) && Position() == old(Position()) + 1
      ensures again ==> Ahead(data, Position(), Flags(left - 1) + rest)
      ensures again ==> Pending(box, painted, At(), pair, left - 1, end, total)
      ensures !again ==> Ahead(data, Position(), rest) && painted == total && At() == end
    {
      PendingStep(box, painted, At(), pair, left, end, total);
      DrawPair(a, b);
      FlagsFirst(left, rest);
      var bit := TakeField(1, if left > 0 then 1 else 0, if left > 0 then Flags(left - 1) + rest else rest);
      again := bit != 0;
    }

    /**
     * The whole glyph: groups are read until the box is full. For any packing of run groups that
     * fills the box with its last group, the dots painted are those the groups stand for.
     */
    method DecodeGlyph(h: nat, ghost gs: seq<Group>)
      requires 0 < box.width <= 127 && bitPos < 8 && widths.zeros <= 8 && widths.ones <= 8
      requires forall g :: g in gs ==> Fits(widths, g)
      requires Missing(box.width, h, Place(0, 0), gs) && Ahead(data, Position(), PackAll(widths, gs))
      requires Advance(box.width, Place(0, 0), |Dots(gs)|).y <= 127
      modifies `ptr, `bitPos, `x, `y, `painted
      ensures painted == old(painted) + Raster(box, Place(0, 0), Dots(gs))
      ensures Position() == old(Position()) + |PackAll(widths, gs)|
    {
      x, y := 0, 0;
      ghost var left, total := gs, painted + Raster(box, Place(0, 0), Dots(gs));
      ghost var end := Advance(box.width, Place(0, 0), |Dots(gs)|);
      ghost var stop := Position() + |PackAll(widths, gs)|;
      assert Awaiting(widths, box, data, Position(), painted, At(), gs, end, total, stop);
      var going := true;
      while going
        invariant Valid() && Awaiting(widths, box, data, Position(), painted, At(), left, end, total, stop)
        invariant if going then Missing(box.width, h, At(), left) else left == []
        decreases |left|
      {
        going := DrawNext(h, left, end, total, stop);
        left := left[1..];
      }
    }

    /** The first of the groups left, and whether the box still has room. */
    method DrawNext(h: nat, ghost left: seq<Group>, ghost end: Place, ghost total: seq<Dot>, ghost stop: nat)
      returns (going: bool)
      requires Valid() && Missing(box.width, h, At(), left)
      requires Awaiting(widths, box, data, Position(), painted, At(), left, end, total, stop)
      modifies `ptr, `bitPos, `x, `y, `painted
      ensures Valid() && Awaiting(widths, box, data, Position(), painted, At(), left[1..], end, total, stop)
      ensures if going then Missing(box.width, h, At(), left[1..]) else left[1..] == []
    {
      PictureStep(box, painted, At(), left, end, total);
      MissingStep(box.width, h, At(), left);
      DrawGroup(left[0], PackAll(widths, left[1..]));
      going := y < h;
    }
  }

  /** The bits that come next, with room for the byte the reader fetches ahead. */
  ghost predicate Ahead(data: seq<byte>, p: nat, bits: seq<bool>) {
    p + |bits| < 8 * |data| && Bits(data)[p..p + |bits|] == bits
  }

  /** Drawing the pair left + 1 times, from here, finishes the group. */
  ghost predicate Pending(box: Box, painted: seq<Dot>, at: Place, pair: seq<bool>, left: nat, end: Place,
                          total: seq<Dot>)
  {
    && painted + Raster(box, at, Times(pair, left + 1)) == total
    && Advance(box.width, at, |Times(pair, left + 1)|) == end
    && end.y <= 127
  }

  lemma PendingStep(box: Box, painted: seq<Dot>, at: Place, pair: seq<bool>, left: nat, end: Place, total: seq<Dot>)
    requires Pending(box, painted, at, pair, left, end, total)
    ensures Advance(box.width, at, |pair|).y <= 127
    ensures var painted', at' := painted + Raster(box, at, pair), Advance(box.width, at, |pair|);
            if left > 0 then Pending(box, painted', at', pair, left - 1, end, total)
            else painted' == total && at' == end
  {
    PairFirst(box, at, pair, left);
    var after := Advance(box.width, at, |pair|);
    Regroup(painted, Raster(box, at, pair), Raster(box, after, Times(pair, left)));
    if left == 0 {
      assert Raster(box, after, []) == [];
    } else {
      assert left - 1 + 1 == left;
    }
  }

  /** Drawing the groups left, from here, gives the whole picture. */
  ghost predicate Awaiting(w: Widths, box: Box, data: seq<byte>, p: nat, painted: seq<Dot>, at: Place,
                           left: seq<Group>, end: Place, total: seq<Dot>, stop: nat)
  {
    && (forall g :: g in left ==> Fits(w, g))
    && Ahead(data, p, PackAll(w, left)) && p + |PackAll(w, left)| == stop
    && painted + Raster(box, at, Dots(left)) == total
    && Advance(box.width, at, |Dots(left)|) == end && end.y <= 127
  }

  lemma PictureStep(box: Box, painted: seq<Dot>, at: Place, left: seq<Group>, end: Place, total: seq<Dot>)
    requires left != [] && painted + Raster(box, at, Dots(left)) == total
    requires Advance(box.width, at, |Dots(left)|) == end && end.y <= 127
    ensures var next := Advance(box.width, at, |Expanded(left[0])|);
            && next.y <= 127
            && (painted + Raster(box, at, Expanded(left[0]))) + Raster(box, next, Dots(left[1..])) == total
            && Advance(box.width, next, |Dots(left[1..])|) == end
  {
    var run := |Expanded(left[0])|;
    AdvanceAppend(box.width, at, run, |Dots(left[1..])|);
    NeverUp(box.width, Advance(box.width, at, run), |Dots(left[1..])|);
    RasterAppend(box, at, Expanded(left[0]), Dots(left[1..]));
  }

  /** The groups left fill what is left of the box. */
  ghost predicate Missing(w: nat, h: nat, at: Place, left: seq<Group>) {
    left != [] && Fills(left, h * w - Index(w, at))
  }

  lemma MissingStep(w: nat, h: nat, at: Place, left: seq<Group>)
    requires at.x < w && Missing(w, h, at, left)
    ensures var next := Advance(w, at, |Expanded(left[0])|);
            if next.y < h then Missing(w, h, next, left[1..]) else left[1..] == []
  {
    var run := |Expanded(left[0])|;
    var next := Advance(w, at, run);
    IndexOfAdvance(w, at, run);
    FullAtRow(w, h, next);
    var room := h * w - Index(w, at);
    assert next.y >= h <==> run >= room;
    assert Fills(left, room) && h * w - Index(w, next) == room - run;
    if run < room {
      assert Fills(left[1..], room - run);
      assert left[1..] != [];
    }
  }

  /** The repetition bits of a group. */
  function Flags(more: nat): seq<bool> {
    Repeated(true, more) + [false]
  }

  lemma FlagsFirst(left: nat, rest: seq<bool>)
    ensures Flags(left) + rest ==
              ToBits(if left > 0 then 1 else 0, 1) + (if left > 0 then Flags(left - 1) + rest else rest)
  {
    assert ToBits(1, 1) == [true] && ToBits(0, 1) == [false];
    if left > 0 {
      assert Repeated(true, left) == [true] + Repeated(true, left - 1);
    }
  }

  lemma RegroupPacked(w: Widths, g: Group, rest: seq<bool>)
    ensures Packed(w, g) + rest == ToBits(g.zeros, w.zeros) + (ToBits(g.ones, w.ones) + (Flags(g.more) + rest))
  {
  }

  lemma TwoParts(s: seq<bool>, p: nat, a: seq<bool>, b: seq<bool>)
    requires p + |a + b| <= |s| && s[p..p + |a + b|] == a + b
    ensures s[p..p + |a|] == a && s[p + |a|..p + |a| + |b|] == b
  {
    var whole := s[p..p + |a + b|];
    assert s[p..p + |a|] == whole[..|a|];
    assert s[p + |a|..p + |a| + |b|] == whole[|a|..];
  }

  lemma ByteSized(w: nat, n: nat)
    requires w <= 8 && n < Pow2(w)
    ensures n <= 255
  {
    Pow2Eight();
    Pow2Add(w, 8 - w);
    AtLeast(Pow2(w), Pow2(8 - w));
  }

  lemma AtLeast(a: nat, b: nat)
    requires b > 0
    ensures a <= a * b
  {
  }

  lemma {:induction false} NeverUp(w: nat, at: Place, n: nat)
    ensures at.y <= Advance(w, at, n).y
    decreases n
  {
    if n > 0 {
      NeverUp(w, Step(w, at), n - 1);
    }
  }

  /** Repetitions of a pair start with the pair. */
  lemma PairFirst(box: Box, at: Place, pair: seq<bool>, left: nat)
    ensures Raster(box, at, Times(pair, left + 1))
            == Raster(box, at, pair) + Raster(box, Advance(box.width, at, |pair|), Times(pair, left))
    ensures Advance(box.width, at, |Times(pair, left + 1)|)
            == Advance(box.width, Advance(box.width, at, |pair|), |Times(pair, left)|)
    ensures Advance(box.width, at, |pair|).y <= Advance(box.width, at, |Times(pair, left + 1)|).y
    ensures left == 0 ==> Times(pair, left) == []
  {
    assert Times(pair, left + 1) == pair + Times(pair, left);
    assert |Times(pair, left + 1)| == |pair| + |Times(pair, left)|;
    RasterAppend(box, at, pair, Times(pair, left));
    AdvanceAppend(box.width, at, |pair|, |Times(pair, left)|);
    NeverUp(box.width, Advance(box.width, at, |pair|), |Times(pair, left)|);
  }

  /** The box is full when the decoder has moved past its last row. */
  lemma FullAtRow(w: nat, h: nat, at: Place)
    requires at.x < w
    ensures at.y >= h <==> Index(w, at) >= h * w
  {
    if at.y >= h {
      assert at.y * w >= h * w;
    } else {
      assert (at.y + 1) * w <= h * w;
      NextRow(w, at.y);
    }
  }

  /** What a decoded bit string looks like: the dot at row r and column c of the box has bit r * w + c. */
  lemma {:induction false} Picture(box: Box, at: Place, bits: seq<bool>, d: Dot)
    requires at.x < box.width
    ensures d in Raster(box, at, bits)
            <==> var c, r := d.x - box.left, d.y - box.top;
                 && 0 <= c < box.width && r >= 0
                 && var k := Index(box.width, Place(c, r)) - Index(box.width, at);
                    0 <= k < |bits| && bits[k] == d.ink && (d.ink || !box.transparent)
    decreases |bits|
  {
    if bits != [] {
      Picture(box, Step(box.width, at), bits[1..], d);
      NextRow(box.width, at.y);
      var c, r := d.x - box.left, d.y - box.top;
      if 0 <= c < box.width && r >= 0 {
        SameIndex(box.width, at, Place(c, r));
      }
    }
  }

  lemma SameIndex(w: nat, a: Place, b: Place)
    requires a.x < w && b.x < w
    ensures Index(w, a) == Index(w, b) <==> a == b
  {
    if a.y < b.y {
      FullAtRow(w, b.y, a);
    } else if b.y < a.y {
      FullAtRow(w, a.y, b);
    }
  }

  /** One group for every dot: the plainest packing. */
  function OneByOne(bits: seq<bool>): (gs: seq<Group>)
    decreases |bits|
  {
    if bits == [] then [] else [if bits[0] then Group(0, 1, 0) else Group(1, 0, 0)] + OneByOne(bits[1..])
  }

  /** Every bitmap has a packing that fills its box, in any font with fields for both runs. */
  lemma {:induction false} EveryBitmapPacks(w: Widths, bits: seq<bool>)
    requires bits != [] && 1 <= w.zeros <= 8 && 1 <= w.ones <= 8
    ensures Dots(OneByOne(bits)) == bits && Fills(OneByOne(bits), |bits|)
    ensures forall g :: g in OneByOne(bits) ==> Fits(w, g)
    decreases |bits|
  {
    var g := OneByOne(bits)[0];
    assert OneByOne(bits)[1..] == OneByOne(bits[1..]);
    assert Pair(g) == [bits[0]] && Times(Pair(g), 0) == [] && Expanded(g) == [bits[0]];
    if |bits| > 1 {
      EveryBitmapPacks(w, bits[1..]);
    } else {
      assert bits[1..] == [] && OneByOne(bits) == [g];
    }
  }
}
