/** One row of an X bitmap (u8g2_DrawHXBM of rp/src/u8g2/u8g2_bitmap.c): the run-batching loop
    against the pixel-at-a-time loop it replaced, both of which are in the file. */
module Xbm {
  import opened Arithmetic
  import opened Bytes
  import opened HvLine

  /** A call of u8g2_DrawHVLine in direction 0, with the draw colour in force. */
  datatype Call = Call(x: int, y: int, len: nat, colour: nat)

  datatype Dot = Dot(x: int, y: int, colour: nat)

  /** A horizontal line is its pixels from left to right; one of length zero is nothing. */
  function Dots(c: Call): (r: seq<Dot>)
    ensures |r| == c.len
  {
    seq(c.len, i requires 0 <= i < c.len => Dot(c.x + i, c.y, c.colour))
  }

  function AllDots(calls: seq<Call>): seq<Dot> {
    if calls == [] then [] else AllDots(calls[..|calls| - 1]) + Dots(calls[|calls| - 1])
  }

  class Painter {
    var drawColor: nat
    const transparent: bool
    var calls: seq<Call>

    constructor (colour: nat, transparent: bool)
      ensures drawColor == colour && this.transparent == transparent && calls == []
    {
      drawColor, this.transparent, calls := colour, transparent, [];
    }

    method DrawHLine(x: int, y: int, len: nat)
      modifies this`calls
      ensures AllDots(calls) == AllDots(old(calls)) + Dots(Call(x, y, len, drawColor))
    {
      var c := Call(x, y, len, drawColor);
      assert (calls + [c])[..|calls|] == calls;
      calls := calls + [c];
    }
  }

  function Opposite(colour: nat): nat {
    if colour == 0 then 1 else 0
  }

  /** The n-th pixel of the row, least significant bit first. */
  predicate Set(b: seq<bv8>, n: nat)
    requires n / 8 < |b|
  {
    b[n / 8] & Bit(n % 8) != 0
  }

  /** Pixel i of a byte, counted from the left, is the bit of that weight. */
  lemma PixelOfByte(b: seq<bv8>, k: nat, i: nat)
    requires k < |b| && i < 8
    ensures (8 * k + i) / 8 == k
    ensures Set(b, 8 * k + i) <==>
            b[k] & (if i == 0 then 0x01 else if i == 1 then 0x02 else if i == 2 then 0x04 else if i == 3 then 0x08
                    else if i == 4 then 0x10 else if i == 5 then 0x20 else if i == 6 then 0x40 else 0x80) != 0
  {
    Quotient(8 * k + i, 8, k, i);
  }

  /** The row as its pixels. */
  function Pixels(b: seq<bv8>): (r: seq<bool>)
    ensures |r| == 8 * |b|
  {
    seq(8 * |b|, n requires 0 <= n < 8 * |b| => Set(b, n))
  }

  /** What `len` pixels of the row that are all set, or all clear, should draw. */
  function RunDots(set_: bool, x: int, y: int, len: nat, colour: nat, transparent: bool): seq<Dot> {
    if len == 0 || (!set_ && transparent) then []
    else RunDots(set_, x, y, len - 1, colour, transparent) +
         [Dot(x + len - 1, y, if set_ then colour else Opposite(colour))]
  }

  lemma {:induction false} LineIsRun(set_: bool, x: int, y: int, len: nat, colour: nat, transparent: bool)
    requires set_ || !transparent
    ensures Dots(Call(x, y, len, if set_ then colour else Opposite(colour)))
            == RunDots(set_, x, y, len, colour, transparent)
  {
    if len > 0 {
      LineIsRun(set_, x, y, len - 1, colour, transparent);
    }
  }

  /** What the row should draw from its first n pixels, one by one. */
  function Row(b: seq<bool>, n: nat, x: int, y: int, colour: nat, transparent: bool): seq<Dot>
    requires n <= |b|
  {
    if n == 0 then []
    else Row(b, n - 1, x, y, colour, transparent) + RunDots(b[n - 1], x + n - 1, y, 1, colour, transparent)
  }

  /** With an opaque background every pixel is drawn in its place, a set one in the draw colour
      and a clear one in colour 0, or 1 when that is the draw colour. */
  lemma {:induction false} OpaqueRow(b: seq<bool>, n: nat, x: int, y: int, colour: nat)
    requires n <= |b|
    ensures var row := Row(b, n, x, y, colour, false);
            |row| == n && forall i :: 0 <= i < n ==>
              row[i] == Dot(x + i, y, if b[i] then colour else if colour == 0 then 1 else 0)
  {
    if n > 0 {
      OpaqueRow(b, n - 1, x, y, colour);
      OneRunDot(b[n - 1], x + n - 1, y, colour, false);
    }
  }

  /** With a transparent one exactly the set pixels are. */
  lemma {:induction false} TransparentRow(b: seq<bool>, n: nat, x: int, y: int, colour: nat, d: Dot)
    requires n <= |b|
    ensures d in Row(b, n, x, y, colour, true)
            <==> d.y == y && d.colour == colour && x <= d.x < x + n && b[d.x - x]
  {
    if n > 0 {
      TransparentRow(b, n - 1, x, y, colour, d);
      OneRunDot(b[n - 1], x + n - 1, y, colour, true);
    }
  }

  lemma OneRunDot(set_: bool, x: int, y: int, colour: nat, transparent: bool)
    ensures RunDots(set_, x, y, 1, colour, transparent)
            == if !set_ && transparent then [] else [Dot(x, y, if set_ then colour else Opposite(colour))]
  {
    assert RunDots(set_, x, y, 0, colour, transparent) == [];
  }

  /** The mask and byte pointer after one more pixel. */
  method Shift(mask: bv8, ptr: nat, ghost n: nat) returns (mask': bv8, ptr': nat)
    requires mask == Bit(n % 8) && ptr == n / 8
    ensures mask' == Bit((n + 1) % 8) && ptr' == (n + 1) / 8
  {
    MaskUp(n % 8);
    assert Bit(7) << 1 == 0;
    mask', ptr' := mask << 1, ptr;
    if mask' == 0 {
      mask', ptr' := 1, ptr + 1;
    }
  }

  /** The two arms of both loops. */
  method DrawRun(p: Painter, set_: bool, x: int, y: int, len: nat, color: nat, ncolor: nat)
    requires ncolor == Opposite(color)
    modifies p
    ensures AllDots(p.calls) == AllDots(old(p.calls)) + RunDots(set_, x, y, len, color, p.transparent)
  {
    if set_ {
      LineIsRun(set_, x, y, len, color, p.transparent);
      p.drawColor := color;
      p.DrawHLine(x, y, len);
    } else if !p.transparent {
      LineIsRun(set_, x, y, len, color, p.transparent);
      p.drawColor := ncolor;
      p.DrawHLine(x, y, len);
    } else {
      assert AllDots(p.calls) + [] == AllDots(p.calls);
    }
  }

  /** Pixels n to m - 1 are all set or all clear. */
  ghost predicate Uniform(b: seq<bool>, n: nat, m: nat, set_: bool) {
    m <= |b| && forall k :: n <= k < m ==> b[k] == set_
  }

  /** A uniform run is one line of its length, or nothing. */
  lemma {:induction false} RunOfRow(b: seq<bool>, n: nat, m: nat, set_: bool, x: int, y: int, colour: nat,
                                    transparent: bool)
    requires n <= m && Uniform(b, n, m, set_)
    ensures Row(b, m, x, y, colour, transparent) ==
            Row(b, n, x, y, colour, transparent) + RunDots(set_, x + n, y, m - n, colour, transparent)
    decreases m - n
  {
    if n < m {
      RunOfRow(b, n, m - 1, set_, x, y, colour, transparent);
      RowGrows(b, m - 1, set_, x, y, colour, transparent);
      RunGrows(set_, x + n, y, m - 1 - n, colour, transparent);
      Regroup(Row(b, n, x, y, colour, transparent), RunDots(set_, x + n, y, m - 1 - n, colour, transparent),
              RunDots(set_, x + m - 1, y, 1, colour, transparent));
    }
  }

  lemma RowGrows(b: seq<bool>, n: nat, set_: bool, x: int, y: int, colour: nat, transparent: bool)
    requires n < |b| && b[n] == set_
    ensures Row(b, n + 1, x, y, colour, transparent) ==
            Row(b, n, x, y, colour, transparent) + RunDots(set_, x + n, y, 1, colour, transparent)
  {
  }

  lemma RunGrows(set_: bool, x: int, y: int, len: nat, colour: nat, transparent: bool)
    ensures RunDots(set_, x, y, len + 1, colour, transparent) ==
            RunDots(set_, x, y, len, colour, transparent) + RunDots(set_, x + len, y, 1, colour, transparent)
  {
    assert RunDots(set_, x + len, y, 0, colour, transparent) == [];
  }

  method TestBit(b: seq<bv8>, ptr: nat, mask: bv8, ghost n: nat) returns (set_: bool)
    requires n < 8 * |b| && mask == Bit(n % 8) && ptr == n / 8
    ensures set_ == Pixels(b)[n]
  {
    set_ := b[ptr] & mask != 0;
  }

  /** The pixels before n are drawn; draw the equal pixels from n to the end of their run. */
  method DrawSpan(p: Painter, set_: bool, x: int, y: int, run: nat, color: nat, ncolor: nat,
                  ghost before: seq<Dot>, ghost b: seq<bool>, n: nat, ghost end: nat)
    requires ncolor == Opposite(color) && end == n + run && Uniform(b, n, end, set_)
    requires AllDots(p.calls) == before + Row(b, n, x, y, color, p.transparent)
    modifies p
    ensures AllDots(p.calls) == before + Row(b, end, x, y, color, p.transparent)
  {
    RunOfRow(b, n, end, set_, x, y, color, p.transparent);
    Regroup(before, Row(b, n, x, y, color, p.transparent), RunDots(set_, x + n, y, run, color, p.transparent));
    DrawRun(p, set_, x + n, y, run, color, ncolor);
  }

  /** The OLD loop: one call per pixel. */
  method DrawRowOld(p: Painter, x: int, y: int, len: nat, b: seq<bv8>)
    requires len <= 8 * |b|
    modifies p
    ensures AllDots(p.calls) == AllDots(old(p.calls)) + Row(Pixels(b), len, x, y, old(p.drawColor), p.transparent)
    ensures p.drawColor == old(p.drawColor)
  {
    var color, ncolor := p.drawColor, Opposite(p.drawColor);
    var mask: bv8, ptr := 1, 0;
    ghost var before, row := AllDots(p.calls), Pixels(b);
    for n := 0 to len
      invariant mask == Bit(n % 8) && ptr == n / 8
      invariant AllDots(p.calls) == before + Row(row, n, x, y, color, p.transparent)
    {
      var set_ := TestBit(b, ptr, mask, n);
      DrawSpan(p, set_, x, y, 1, color, ncolor, before, row, n, n + 1);
      mask, ptr := Shift(mask, ptr, n);
    }
    p.drawColor := color;
  }

  /** The inner loop: the run of equal bits that starts at n, at least one long and as long as
      it can be. */
  method FindRun(mask: bv8, ptr: nat, b: seq<bv8>, n: nat, len: nat) returns (run: nat, mask': bv8, ptr': nat)
    requires n < len <= 8 * |b| && mask == Bit(n % 8) && ptr == n / 8
    ensures 0 < run <= len - n && Uniform(Pixels(b), n, n + run, Pixels(b)[n])
    ensures n + run < len ==> Pixels(b)[n + run] != Pixels(b)[n]
    ensures mask' == Bit((n + run) % 8) && ptr' == (n + run) / 8
  {
    ghost var row, end: nat := Pixels(b), n;
    var current := TestBit(b, ptr, mask, n);
    var next := current;
    run, mask', ptr' := 0, mask, ptr;
    while next == current
      invariant end == n + run && end < len && mask' == Bit(end % 8) && ptr' == end / 8
      invariant Uniform(row, n, end, current) && next == row[end]
      decreases len - end
    {
      mask', ptr' := Shift(mask', ptr', end);
      UniformGrows(row, n, end, current);
      run, end := run + 1, end + 1;
      if run == len - n {
        break;
      }
      next := TestBit(b, ptr', mask', end);
    }
  }

  lemma UniformGrows(b: seq<bool>, n: nat, m: nat, set_: bool)
    requires m < |b| && Uniform(b, n, m, set_) && b[m] == set_
    ensures Uniform(b, n, m + 1, set_)
  {
  }

  /** One turn of the outer loop: find the run that starts at n and draw it. */
  method DrawNextRun(p: Painter, x: int, y: int, len: nat, b: seq<bv8>, mask: bv8, ptr: nat, n: nat,
                     color: nat, ncolor: nat, ghost before: seq<Dot>, ghost row: seq<bool>)
    returns (end: nat, mask': bv8, ptr': nat)
    requires n < len <= 8 * |b| && mask == Bit(n % 8) && ptr == n / 8
    requires row == Pixels(b) && ncolor == Opposite(color)
    requires AllDots(p.calls) == before + Row(row, n, x, y, color, p.transparent)
    modifies p
    ensures n < end <= len && mask' == Bit(end % 8) && ptr' == end / 8
    ensures AllDots(p.calls) == before + Row(row, end, x, y, color, p.transparent)
  {
    var set_ := TestBit(b, ptr, mask, n);
    var run;
    run, mask', ptr' := FindRun(mask, ptr, b, n, len);
    end := n + run;
    DrawSpan(p, set_, x, y, run, color, ncolor, before, row, n, end);
  }

  /** u8g2_DrawHXBM: for any row, length and position, batching the runs draws the same pixels
      in the same colours and order as the old loop, and leaves the draw colour alone. */
  method DrawRow(p: Painter, x: int, y: int, len: nat, b: seq<bv8>)
    requires len <= 8 * |b|
    modifies p
    ensures AllDots(p.calls) == AllDots(old(p.calls)) + Row(Pixels(b), len, x, y, old(p.drawColor), p.transparent)
    ensures p.drawColor == old(p.drawColor)
  {
    var color, ncolor := p.drawColor, Opposite(p.drawColor);
    var mask: bv8, ptr, n := 1, 0, 0;
    ghost var before, row := AllDots(p.calls), Pixels(b);
    while n < len
      invariant n <= len && mask == Bit(n % 8) && ptr == n / 8
      invariant AllDots(p.calls) == before + Row(row, n, x, y, color, p.transparent)
      decreases len - n
    {
      n, mask, ptr := DrawNextRun(p, x, y, len, b, mask, ptr, n, color, ncolor, before, row);
    }
    p.drawColor := color;
  }
}
