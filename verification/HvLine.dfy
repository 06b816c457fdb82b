/** The low-level line writers of rp/src/u8g2/u8g2_ll_hvline.c. Each has a pixel-at-a-time form
    and an optimised form that keeps a moving mask and pointer. */
module HvLine {
  /** A byte is a column of eight pixels, least significant on top, or a row of eight, most
      significant on the left. */
  datatype Layout = VerticalTopLsb | HorizontalRightLsb

  type Colour = c: nat | c <= 2  // clear, set, exclusive or

  function Bit(k: nat): bv8
    requires k < 8
  {
    if k == 0 then 1 else if k == 1 then 2 else if k == 2 then 4 else if k == 3 then 8
    else if k == 4 then 16 else if k == 5 then 32 else if k == 6 then 64 else 128
  }

  /** The two statements that every writer applies to a byte. */
  function Put(b: bv8, mask: bv8, c: Colour): bv8 {
    var set_ := if c <= 1 then b | mask else b;
    if c != 1 then set_ ^ mask else set_
  }

  function Index(l: Layout, tileWidth: nat, x: nat, y: nat): nat {
    match l
    case VerticalTopLsb => (y - y % 8) * tileWidth + x
    case HorizontalRightLsb => y * tileWidth + x / 8
  }

  function Position(l: Layout, x: nat, y: nat): (k: nat)
    ensures k < 8
  {
    match l
    case VerticalTopLsb => y % 8
    case HorizontalRightLsb => 7 - x % 8
  }

  /** The pixel is inside a buffer of 8 * tileWidth columns. */
  ghost predicate InBounds(l: Layout, tileWidth: nat, size: nat, x: nat, y: nat) {
    x < 8 * tileWidth && Index(l, tileWidth, x, y) < size
  }

  /** The buffer after one pixel; a pixel beyond the buffer is nothing. */
  function Pixel(buf: seq<bv8>, l: Layout, tileWidth: nat, x: nat, y: nat, c: Colour): (r: seq<bv8>)
    ensures |r| == |buf|
  {
    var i := Index(l, tileWidth, x, y);
    if i < |buf| then buf[i := Put(buf[i], Bit(Position(l, x, y)), c)] else buf
  }

  /** The n-th pixel of a line: to the right or downwards. */
  function LineX(x: nat, dir: nat, n: nat): nat {
    if dir == 0 then x + n else x
  }

  function LineY(y: nat, dir: nat, n: nat): nat {
    if dir == 0 then y else y + n
  }

  ghost predicate LineFits(l: Layout, tileWidth: nat, size: nat, x: nat, y: nat, len: nat, dir: nat) {
    forall n :: 0 <= n < len ==> InBounds(l, tileWidth, size, LineX(x, dir, n), LineY(y, dir, n))
  }

  ghost function Line(buf: seq<bv8>, l: Layout, tileWidth: nat, x: nat, y: nat, len: nat, dir: nat,
                      c: Colour): (r: seq<bv8>)
    ensures |r| == |buf|
  {
    if len == 0 then buf
    else Pixel(Line(buf, l, tileWidth, x, y, len - 1, dir, c),
               l, tileWidth, LineX(x, dir, len - 1), LineY(y, dir, len - 1), c)
  }

  // ---------------------------------------------------------------- one pixel at a time

  /** The statements on a byte, as the source writes them. */
  method PutByte(buf: array<bv8>, ptr: nat, mask: bv8, c: Colour)
    requires ptr < buf.Length
    modifies buf
    ensures buf[..] == old(buf[..])[ptr := Put(old(buf[ptr]), mask, c)]
  {
    if c <= 1 {
      buf[ptr] := buf[ptr] | mask;
    }
    if c != 1 {
      buf[ptr] := buf[ptr] ^ mask;
    }
  }

  method DrawPixel(buf: array<bv8>, l: Layout, tileWidth: nat, x: nat, y: nat, c: Colour)
    requires Index(l, tileWidth, x, y) < buf.Length
    modifies buf
    ensures buf[..] == Pixel(old(buf[..]), l, tileWidth, x, y, c)
  {
    var ptr := Index(l, tileWidth, x, y);
    var mask := Bit(Position(l, x, y));
    PutByte(buf, ptr, mask, c);
  }

  /** The unoptimised writers of the file. */
  method SlowLine(buf: array<bv8>, l: Layout, tileWidth: nat, x: nat, y: nat, len: nat, dir: nat, c: Colour)
    requires len > 0 && LineFits(l, tileWidth, buf.Length, x, y, len, dir)
    modifies buf
    ensures buf[..] == Line(old(buf[..]), l, tileWidth, x, y, len, dir, c)
  {
    var n := 0;
    while n < len
      invariant n <= len
      invariant buf[..] == Line(old(buf[..]), l, tileWidth, x, y, n, dir, c)
    {
      assert InBounds(l, tileWidth, buf.Length, LineX(x, dir, n), LineY(y, dir, n));
      DrawPixel(buf, l, tileWidth, LineX(x, dir, n), LineY(y, dir, n), c);
      n := n + 1;
    }
  }

  // ---------------------------------------------------------------- moving masks

  lemma MaskUp(k: nat)
    requires k < 8
    ensures k < 7 ==> Bit(k) << 1 == Bit(k + 1)
  {
  }

  lemma MaskDown(k: nat)
    requires k < 8
    ensures k > 0 ==> Bit(k) >> 1 == Bit(k - 1) && Bit(k) >> 1 != 0
    ensures k == 0 ==> Bit(k) >> 1 == 0
  {
  }

  /** Applying both masks at once is Put; a mask of zero does nothing. */
  lemma TwoMasks(b: bv8, mask: bv8, c: Colour)
    ensures (b | (if c <= 1 then mask else 0)) ^ (if c != 1 then mask else 0) == Put(b, mask, c)
  {
    assert b | 0 == b;
    assert b ^ 0 == b;
    assert (b | mask) ^ 0 == b | mask;
  }

  method Touch(buf: array<bv8>, ptr: nat, orMask: bv8, xorMask: bv8, ghost mask: bv8, c: Colour)
    requires ptr < buf.Length
    requires orMask == (if c <= 1 then mask else 0) && xorMask == (if c != 1 then mask else 0)
    modifies buf
    ensures buf[..] == old(buf[..])[ptr := Put(old(buf[ptr]), mask, c)]
  {
    TwoMasks(buf[ptr], mask, c);
    buf[ptr] := buf[ptr] | orMask;
    buf[ptr] := buf[ptr] ^ xorMask;
  }

  /** Going down one pixel: the next bit of the same byte, or the first bit one row of bytes on. */
  lemma DownOne(tileWidth: nat, x: nat, y: nat)
    ensures Index(VerticalTopLsb, tileWidth, x, y + 1) ==
            Index(VerticalTopLsb, tileWidth, x, y) + if y % 8 == 7 then 8 * tileWidth else 0
    ensures (y + 1) % 8 == if y % 8 == 7 then 0 else y % 8 + 1
  {
    if y % 8 == 7 {
      assert (y + 1) - (y + 1) % 8 == (y - y % 8) + 8;
      assert ((y - y % 8) + 8) * tileWidth == (y - y % 8) * tileWidth + 8 * tileWidth;
    }
  }

  /** u8g2_ll_hvline_vertical_top_lsb, optimised: refines the pixel-at-a-time form. */
  method FastVertical(buf: array<bv8>, tileWidth: nat, x: nat, y: nat, len: nat, dir: nat, c: Colour)
    requires len > 0 && LineFits(VerticalTopLsb, tileWidth, buf.Length, x, y, len, dir)
    modifies buf
    ensures buf[..] == Line(old(buf[..]), VerticalTopLsb, tileWidth, x, y, len, dir, c)
  {
    var bitPos := y % 8;
    var mask := Bit(bitPos);
    var orMask: bv8 := if c <= 1 then mask else 0;
    var xorMask: bv8 := if c != 1 then mask else 0;
    var ptr := (y - y % 8) * tileWidth + x;
    if dir == 0 {
      Sideways(buf, ptr, orMask, xorMask, tileWidth, x, y, len, c, mask);
    } else {
      Down(buf, ptr, bitPos, orMask, xorMask, tileWidth, x, y, len, dir, c);
    }
  }

  /** The loop to the right: the masks stay. */
  method Sideways(buf: array<bv8>, ptr0: nat, orMask: bv8, xorMask: bv8, ghost tileWidth: nat, ghost x: nat,
                  ghost y: nat, len: nat, c: Colour, ghost mask: bv8)
    requires len > 0 && LineFits(VerticalTopLsb, tileWidth, buf.Length, x, y, len, 0)
    requires ptr0 == Index(VerticalTopLsb, tileWidth, x, y) && mask == Bit(y % 8)
    requires orMask == (if c <= 1 then mask else 0) && xorMask == (if c != 1 then mask else 0)
    modifies buf
    ensures buf[..] == Line(old(buf[..]), VerticalTopLsb, tileWidth, x, y, len, 0, c)
  {
    var ptr, left: nat := ptr0, len;
    ghost var n: nat, was := 0, buf[..];
    while left != 0
      invariant n + left == len && ptr == Index(VerticalTopLsb, tileWidth, x + n, y)
      invariant buf[..] == Line(was, VerticalTopLsb, tileWidth, x, y, n, 0, c)
    {
      assert InBounds(VerticalTopLsb, tileWidth, buf.Length, LineX(x, 0, n), LineY(y, 0, n));
      Touch(buf, ptr, orMask, xorMask, mask, c);
      ptr, left, n := ptr + 1, left - 1, n + 1;
    }
  }

  /** The loop downwards: the masks move through the byte and on to the next row of bytes. */
  method Down(buf: array<bv8>, ptr0: nat, bitPos0: nat, orMask0: bv8, xorMask0: bv8, tileWidth: nat, ghost x: nat,
              ghost y: nat, len: nat, ghost dir: nat, c: Colour)
    requires len > 0 && dir != 0 && LineFits(VerticalTopLsb, tileWidth, buf.Length, x, y, len, dir)
    requires ptr0 == Index(VerticalTopLsb, tileWidth, x, y) && bitPos0 == y % 8
    requires orMask0 == (if c <= 1 then Bit(bitPos0) else 0) && xorMask0 == (if c != 1 then Bit(bitPos0) else 0)
    modifies buf
    ensures buf[..] == Line(old(buf[..]), VerticalTopLsb, tileWidth, x, y, len, dir, c)
  {
    var ptr, bitPos, orMask, xorMask, left: nat := ptr0, bitPos0, orMask0, xorMask0, len;
    ghost var n: nat, was := 0, buf[..];
    while left != 0
      invariant n + left == len && ptr == Index(VerticalTopLsb, tileWidth, x, y + n) && bitPos == (y + n) % 8
      invariant orMask == (if c <= 1 then Bit(bitPos) else 0) && xorMask == (if c != 1 then Bit(bitPos) else 0)
      invariant buf[..] == Line(was, VerticalTopLsb, tileWidth, x, y, n, dir, c)
    {
      assert InBounds(VerticalTopLsb, tileWidth, buf.Length, LineX(x, dir, n), LineY(y, dir, n));
      Touch(buf, ptr, orMask, xorMask, Bit(bitPos), c);
      ptr, bitPos, orMask, xorMask := NextDown(ptr, bitPos, orMask, xorMask, tileWidth, c, x, y + n);
      left, n := left - 1, n + 1;
    }
  }

  /** The mask update of the downward loop. */
  method NextDown(ptr: nat, bitPos: nat, orMask: bv8, xorMask: bv8, tileWidth: nat, c: Colour, ghost x: nat,
                  ghost y: nat)
    returns (ptr': nat, bitPos': nat, orMask': bv8, xorMask': bv8)
    requires bitPos == y % 8 && ptr == Index(VerticalTopLsb, tileWidth, x, y)
    requires orMask == (if c <= 1 then Bit(bitPos) else 0) && xorMask == (if c != 1 then Bit(bitPos) else 0)
    ensures bitPos' == (y + 1) % 8 && ptr' == Index(VerticalTopLsb, tileWidth, x, y + 1)
    ensures orMask' == (if c <= 1 then Bit(bitPos') else 0) && xorMask' == (if c != 1 then Bit(bitPos') else 0)
  {
    DownOne(tileWidth, x, y);
    MaskUp(bitPos);
    ptr', bitPos', orMask', xorMask' := ptr, (bitPos + 1) % 8, orMask, xorMask;
    if bitPos' == 0 {
      ptr' := ptr + 8 * tileWidth;
      if c <= 1 { orMask' := 1; }
      if c != 1 { xorMask' := 1; }
    } else {
      orMask' := orMask << 1;
      xorMask' := xorMask << 1;
    }
  }

  /** u8g2_ll_hvline_horizontal_right_lsb, optimised. */
  method FastHorizontal(buf: array<bv8>, tileWidth: nat, x: nat, y: nat, len: nat, dir: nat, c: Colour)
    requires len > 0 && LineFits(HorizontalRightLsb, tileWidth, buf.Length, x, y, len, dir)
    modifies buf
    ensures buf[..] == Line(old(buf[..]), HorizontalRightLsb, tileWidth, x, y, len, dir, c)
  {
    var mask := Bit(7 - x % 8);  // 128 shifted right by x % 8
    var ptr := y * tileWidth + x / 8;
    if dir == 0 {
      Rightwards(buf, ptr, mask, tileWidth, x, y, len, c);
    } else {
      Downwards(buf, ptr, mask, tileWidth, x, y, len, dir, c);
    }
  }

  /** The next pixel of the line to the right, in column col; n are drawn. */
  method DrawRight(buf: array<bv8>, ptr: nat, mask: bv8, ghost tileWidth: nat, ghost x: nat, ghost y: nat, ghost n: nat,
                   ghost len: nat, c: Colour, ghost was: seq<bv8>, ghost col: nat)
    returns (ptr': nat, mask': bv8, ghost n': nat, ghost col': nat)
    requires n < len && col == x + n && |was| == buf.Length
    requires InBounds(HorizontalRightLsb, tileWidth, buf.Length, col, y)
    requires ptr == Index(HorizontalRightLsb, tileWidth, col, y) && mask == Bit(7 - col % 8)
    requires buf[..] == Line(was, HorizontalRightLsb, tileWidth, x, y, n, 0, c)
    modifies buf
    ensures n' == n + 1 && col' == x + n'
    ensures ptr' == Index(HorizontalRightLsb, tileWidth, col', y) && mask' == Bit(7 - col' % 8)
    ensures buf[..] == Line(was, HorizontalRightLsb, tileWidth, x, y, n', 0, c)
  {
    PutRight(buf, ptr, mask, tileWidth, col, y, c);
    ptr', mask' := NextRight(ptr, mask, tileWidth, col, y);
    n', col' := n + 1, col + 1;
  }

  method PutRight(buf: array<bv8>, ptr: nat, mask: bv8, ghost tileWidth: nat, ghost col: nat, ghost y: nat, c: Colour)
    requires ptr == Index(HorizontalRightLsb, tileWidth, col, y) < buf.Length && mask == Bit(7 - col % 8)
    modifies buf
    ensures buf[..] == Pixel(old(buf[..]), HorizontalRightLsb, tileWidth, col, y, c)
  {
    PutByte(buf, ptr, mask, c);
  }

  method Rightwards(buf: array<bv8>, ptr0: nat, mask0: bv8, tileWidth: nat, ghost x: nat, ghost y: nat, len: nat,
                    c: Colour)
    requires len > 0 && LineFits(HorizontalRightLsb, tileWidth, buf.Length, x, y, len, 0)
    requires ptr0 == Index(HorizontalRightLsb, tileWidth, x, y) && mask0 == Bit(7 - x % 8)
    modifies buf
    ensures buf[..] == Line(old(buf[..]), HorizontalRightLsb, tileWidth, x, y, len, 0, c)
  {
    var ptr, mask, left: nat := ptr0, mask0, len;
    ghost var n: nat, col: nat, was := 0, x, buf[..];
    while left != 0
      invariant n + left == len && col == x + n
      invariant ptr == Index(HorizontalRightLsb, tileWidth, col, y) && mask == Bit(7 - col % 8)
      invariant buf[..] == Line(was, HorizontalRightLsb, tileWidth, x, y, n, 0, c)
    {
      assert InBounds(HorizontalRightLsb, tileWidth, buf.Length, LineX(x, 0, n), LineY(y, 0, n));
      ptr, mask, n, col := DrawRight(buf, ptr, mask, tileWidth, x, y, n, len, c, was, col);
      left := left - 1;
    }
  }

  method Downwards(buf: array<bv8>, ptr0: nat, mask: bv8, tileWidth: nat, ghost x: nat, ghost y: nat, len: nat,
                   dir: nat, c: Colour)
    requires len > 0 && dir != 0 && LineFits(HorizontalRightLsb, tileWidth, buf.Length, x, y, len, dir)
    requires ptr0 == Index(HorizontalRightLsb, tileWidth, x, y) && mask == Bit(7 - x % 8)
    modifies buf
    ensures buf[..] == Line(old(buf[..]), HorizontalRightLsb, tileWidth, x, y, len, dir, c)
  {
    var ptr, left := ptr0, len;
    ghost var n := 0;
    while left != 0
      invariant n + left == len && ptr == Index(HorizontalRightLsb, tileWidth, x, y + n)
      invariant buf[..] == Line(old(buf[..]), HorizontalRightLsb, tileWidth, x, y, n, dir, c)
    {
      assert InBounds(HorizontalRightLsb, tileWidth, buf.Length, LineX(x, dir, n), LineY(y, dir, n));
      PutByte(buf, ptr, mask, c);
      RowDown(x, y + n, tileWidth);
      ptr := ptr + tileWidth;
      left, n := left - 1, n + 1;
    }
  }

  lemma RowDown(x: nat, y: nat, w: nat)
    ensures Index(HorizontalRightLsb, w, x, y + 1) == Index(HorizontalRightLsb, w, x, y) + w
  {
    assert (y + 1) * w == y * w + w;
  }

  method NextRight(ptr: nat, mask: bv8, ghost tileWidth: nat, ghost x: nat, ghost y: nat)
    returns (ptr': nat, mask': bv8)
    requires ptr == Index(HorizontalRightLsb, tileWidth, x, y) && mask == Bit(7 - x % 8)
    ensures ptr' == Index(HorizontalRightLsb, tileWidth, x + 1, y) && mask' == Bit(7 - (x + 1) % 8)
  {
    MaskDown(7 - x % 8);
    ptr', mask' := ptr, mask >> 1;
    if mask' == 0 {
      mask' := 128;
      ptr' := ptr + 1;
    }
  }

  // ---------------------------------------------------------------- the layouts

  /** In the column layout byte x of band y / 8 holds the column, the uppermost pixel in bit 0; in
      the row layout byte x / 8 of row y holds eight pixels, the leftmost in bit 7. A band is as
      many bytes as the screen has columns, a row one byte for each tile. */
  lemma WherePixelsAre(tileWidth: nat, x: nat, y: nat)
    ensures Index(VerticalTopLsb, tileWidth, x, y) == y / 8 * (8 * tileWidth) + x
    ensures Index(HorizontalRightLsb, tileWidth, x, y) == y * tileWidth + x / 8
    ensures y % 8 == 0 ==> Bit(Position(VerticalTopLsb, x, y)) == 0x01
    ensures y % 8 == 7 ==> Bit(Position(VerticalTopLsb, x, y)) == 0x80
    ensures x % 8 == 0 ==> Bit(Position(HorizontalRightLsb, x, y)) == 0x80
    ensures x % 8 == 7 ==> Bit(Position(HorizontalRightLsb, x, y)) == 0x01
  {
    Octets(y, tileWidth);
  }

  /** And the pixels between follow one another bit by bit. */
  lemma NextPixelsAre(x: nat, y: nat)
    ensures y % 8 < 7 ==> Bit(Position(VerticalTopLsb, x, y + 1)) == Bit(Position(VerticalTopLsb, x, y)) << 1
    ensures x % 8 < 7 ==> Bit(Position(HorizontalRightLsb, x + 1, y)) == Bit(Position(HorizontalRightLsb, x, y)) >> 1
  {
    NextOctet(x);
    NextOctet(y);
    MaskUp(y % 8);
    MaskDown(7 - x % 8);
  }

  lemma NextOctet(n: nat)
    ensures n % 8 < 7 ==> (n + 1) % 8 == n % 8 + 1
  {
  }

  // ---------------------------------------------------------------- what a line changes

  predicate Lit(buf: seq<bv8>, l: Layout, tileWidth: nat, x: nat, y: nat)
    requires Index(l, tileWidth, x, y) < |buf|
  {
    buf[Index(l, tileWidth, x, y)] & Bit(Position(l, x, y)) != 0
  }

  /** What a colour makes of a pixel. */
  function Painted(c: Colour, was: bool): bool {
    if c == 0 then false else if c == 1 then true else !was
  }

  lemma PutBit(b: bv8, k: nat, j: nat, c: Colour)
    requires k < 8 && j < 8
    ensures (Put(b, Bit(k), c) & Bit(j) != 0) == if j == k then Painted(c, b & Bit(k) != 0) else b & Bit(j) != 0
  {
    if j == k {
      OneBit(k);
      OwnBit(b, Bit(k), c);
    } else {
      BitsApart(k, j);
      OtherBit(b, Bit(k), Bit(j), c);
    }
  }

  lemma OneBit(k: nat)
    requires k < 8
    ensures Bit(k) in {1, 2, 4, 8, 16, 32, 64, 128}
  {
  }

  lemma BitsApart(k: nat, j: nat)
    requires k < 8 && j < 8 && j != k
    ensures Bit(k) & Bit(j) == 0
  {
  }

  lemma OwnBit(b: bv8, m: bv8, c: Colour)
    requires m in {1, 2, 4, 8, 16, 32, 64, 128}
    ensures (Put(b, m, c) & m != 0) == Painted(c, b & m != 0)
  {
    assert (b | m) & m != 0 && ((b | m) ^ m) & m == 0;
    assert ((b ^ m) & m != 0) <==> b & m == 0;
  }

  lemma OtherBit(b: bv8, m: bv8, k: bv8, c: Colour)
    requires m & k == 0
    ensures Put(b, m, c) & k == b & k
  {
    assert (b | m) & k == b & k;
    assert (b ^ m) & k == b & k;
    assert ((b | m) ^ m) & k == ((b & k) | (m & k)) ^ (m & k);
  }

  /** Different pixels of the buffer are different bits. */
  lemma DistinctBits(l: Layout, tileWidth: nat, size: nat, x: nat, y: nat, p: nat, q: nat)
    requires InBounds(l, tileWidth, size, x, y) && InBounds(l, tileWidth, size, p, q)
    requires Index(l, tileWidth, x, y) == Index(l, tileWidth, p, q) && Position(l, x, y) == Position(l, p, q)
    ensures x == p && y == q
  {
    match l {
      case VerticalTopLsb =>
        Rows(8 * tileWidth, y / 8, x, q / 8, p);
        assert (y - y % 8) * tileWidth == y / 8 * (8 * tileWidth) by { Octets(y, tileWidth); }
        assert (q - q % 8) * tileWidth == q / 8 * (8 * tileWidth) by { Octets(q, tileWidth); }
      case HorizontalRightLsb =>
        assert x / 8 < tileWidth && p / 8 < tileWidth;
        Rows(tileWidth, y, x / 8, q, p / 8);
    }
  }

  lemma Octets(y: nat, w: nat)
    ensures (y - y % 8) * w == y / 8 * (8 * w)
  {
    assert y - y % 8 == y / 8 * 8;
    assert y / 8 * 8 * w == y / 8 * (8 * w);
  }

  lemma Rows(w: nat, r: nat, c: nat, s: nat, d: nat)
    requires c < w && d < w
    ensures r * w + c == s * w + d ==> r == s && c == d
  {
    if r < s {
      assert (r + 1) * w <= s * w;
    } else if s < r {
      assert (s + 1) * w <= r * w;
    }
  }

  lemma PixelChanges(buf: seq<bv8>, l: Layout, tileWidth: nat, x: nat, y: nat, c: Colour, p: nat, q: nat)
    requires InBounds(l, tileWidth, |buf|, x, y) && InBounds(l, tileWidth, |buf|, p, q)
    ensures Lit(Pixel(buf, l, tileWidth, x, y, c), l, tileWidth, p, q) ==
            if p == x && q == y then Painted(c, Lit(buf, l, tileWidth, x, y)) else Lit(buf, l, tileWidth, p, q)
  {
    if Index(l, tileWidth, x, y) == Index(l, tileWidth, p, q) {
      PutBit(buf[Index(l, tileWidth, x, y)], Position(l, x, y), Position(l, p, q), c);
      if Position(l, x, y) == Position(l, p, q) {
        DistinctBits(l, tileWidth, |buf|, x, y, p, q);
      }
    }
  }

  predicate OnLine(x: nat, y: nat, len: nat, dir: nat, p: nat, q: nat) {
    if dir == 0 then q == y && x <= p < x + len else p == x && y <= q < y + len
  }

  /** A line paints exactly its own pixels, once each, and no other pixel of the screen; so do
      the optimised writers, which produce the same buffer. */
  lemma {:induction false} LineChanges(buf: seq<bv8>, l: Layout, tileWidth: nat, x: nat, y: nat, len: nat, dir: nat,
                                       c: Colour, p: nat, q: nat)
    requires LineFits(l, tileWidth, |buf|, x, y, len, dir) && InBounds(l, tileWidth, |buf|, p, q)
    ensures Lit(Line(buf, l, tileWidth, x, y, len, dir, c), l, tileWidth, p, q) ==
            if OnLine(x, y, len, dir, p, q) then Painted(c, Lit(buf, l, tileWidth, p, q))
            else Lit(buf, l, tileWidth, p, q)
  {
    if len > 0 {
      LineChanges(buf, l, tileWidth, x, y, len - 1, dir, c, p, q);
      var px, py := LineX(x, dir, len - 1), LineY(y, dir, len - 1);
      assert InBounds(l, tileWidth, |buf|, px, py);
      PixelChanges(Line(buf, l, tileWidth, x, y, len - 1, dir, c), l, tileWidth, px, py, c, p, q);
    }
  }
}
