/** The Bresenham line of rp/src/u8g2/u8g2_line.c. */
module Line {
  import opened Arithmetic

  type coord = n: int | 0 <= n <= 0xFFFF

  function Abs(n: int): nat {
    if n < 0 then -n else n
  }

  /** A line with its major axis first and increasing; `steep` lines have x and y exchanged. */
  datatype Normal = Normal(steep: bool, a1: coord, b1: coord, a2: coord, b2: coord)

  function Normalise(p: Point, q: Point): Normal
    requires 0 <= p.x <= 0xFFFF && 0 <= p.y <= 0xFFFF && 0 <= q.x <= 0xFFFF && 0 <= q.y <= 0xFFFF
  {
    var steep := Abs(q.y - p.y) > Abs(q.x - p.x);
    var n := if steep then Normal(true, p.y, p.x, q.y, q.x) else Normal(false, p.x, p.y, q.x, q.y);
    if n.a1 > n.a2 then Normal(steep, n.a2, n.b2, n.a1, n.b1) else n
  }

  ghost predicate OnScreen(p: Point) {
    0 <= p.x <= 0xFFFF && 0 <= p.y <= 0xFFFF
  }

  /** Differences that a 16-bit error term can hold. */
  ghost predicate Short(p: Point, q: Point) {
    Abs(q.x - p.x) <= 0x7FFF && Abs(q.y - p.y) <= 0x7FFF
  }

  /** How far along the minor axis step k is: k * dy / dx rounded, halves down for even dx. */
  function Minor(dx: nat, dy: nat, k: nat): nat {
    if dx == 0 then 0 else (k * dy + (dx - 1 - dx / 2)) / dx
  }

  /** The minor ordinate after m moves. */
  function Ordinate(b1: int, b2: int, m: nat): int {
    if b2 > b1 then b1 + m else b1 - m
  }

  function PixelAt(n: Normal, k: nat): Point
    requires n.a1 <= n.a2
  {
    var b := Ordinate(n.b1, n.b2, Minor(n.a2 - n.a1, Abs(n.b2 - n.b1), k));
    if n.steep then Point(b, n.a1 + k) else Point(n.a1 + k, b)
  }

  /** The pixel count: the whole major axis, or one less when it ends at the largest
      coordinate, where the loop's counter could not pass the end. */
  function Count(n: Normal): nat
    requires n.a1 <= n.a2
  {
    n.a2 - n.a1 + if n.a2 == 0xFFFF then 0 else 1
  }

  function Pixels(n: Normal): (r: seq<Point>)
    requires n.a1 <= n.a2
    ensures |r| == Count(n)
  {
    seq(Count(n), k requires 0 <= k => PixelAt(n, k))
  }

  // ---------------------------------------------------------------- the error term

  /** err is what is left of half of dx after k steps and m minor moves. */
  lemma DivisionIsMinor(dx: nat, dy: nat, k: nat, m: nat, err: int)
    requires dx > 0 && err == dx / 2 - k * dy + m * dx && 0 <= err < dx
    ensures m == Minor(dx, dy, k)
  {
    var top := k * dy + (dx - 1 - dx / 2);
    assert top == m * dx + (dx - 1 - err);
    Quotient(top, dx, m, dx - 1 - err);
  }

  /** The converse: Minor is the number of moves that keeps the error term in range. */
  lemma MinorInRange(dx: nat, dy: nat, k: nat)
    requires dx > 0
    ensures 0 <= dx / 2 - k * dy + Minor(dx, dy, k) * dx < dx
  {
    var top := k * dy + (dx - 1 - dx / 2);
    assert top / dx * dx + top % dx == top;
  }

  /** It is the one integer nearest to k * dy / dx, and of two that are as near the lower. */
  lemma MinorIsNearest(dx: nat, dy: nat, k: nat, m: nat)
    requires dx > 0
    ensures m == Minor(dx, dy, k) <==> -(dx as int) <= 2 * (m * dx - k * dy) < dx
  {
    MinorInRange(dx, dy, k);
    var n := Minor(dx, dy, k);
    MulGap(m, n, dx);
    MulGap(n, m, dx);
  }

  /** Accuracy: no pixel is more than half a pixel from the ideal line. */
  lemma HalfPixel(dx: nat, dy: nat, k: nat)
    ensures dx > 0 ==> 2 * Abs(Minor(dx, dy, k) * dx - k * dy) <= dx
  {
    if dx > 0 {
      MinorInRange(dx, dy, k);
    }
  }

  lemma EndsMeet(dx: nat, dy: nat)
    requires dy <= dx
    ensures Minor(dx, dy, 0) == 0 && Minor(dx, dy, dx) == dy
  {
    if dx > 0 {
      DivisionIsMinor(dx, dy, 0, 0, dx / 2);
      DivisionIsMinor(dx, dy, dx, dy, dx / 2);
    }
  }

  /** Successive pixels touch: the minor axis moves by at most one. */
  lemma Connected(dx: nat, dy: nat, k: nat)
    requires dy <= dx
    ensures Minor(dx, dy, k) <= Minor(dx, dy, k + 1) <= Minor(dx, dy, k) + 1
  {
    if dx > 0 {
      var m := Minor(dx, dy, k);
      var err := dx / 2 - k * dy + m * dx;
      MinorInRange(dx, dy, k);
      NextMinor(dx, dy, k, m, err);
    }
  }

  lemma NextMinor(dx: nat, dy: nat, k: nat, m: nat, err: int)
    requires dx > 0 && dy <= dx && err == dx / 2 - k * dy + m * dx && 0 <= err < dx
    ensures err - dy >= 0 ==> Minor(dx, dy, k + 1) == m && err - dy == dx / 2 - (k + 1) * dy + m * dx
    ensures err - dy < 0 ==> Minor(dx, dy, k + 1) == m + 1 && err - dy + dx == dx / 2 - (k + 1) * dy + (m + 1) * dx
                             && 0 <= err - dy + dx < dx
  {
    assert (k + 1) * dy == k * dy + dy && (m + 1) * dx == m * dx + dx;
    if err - dy >= 0 {
      DivisionIsMinor(dx, dy, k + 1, m, err - dy);
    } else {
      DivisionIsMinor(dx, dy, k + 1, m + 1, err - dy + dx);
    }
  }

  // ---------------------------------------------------------------- the drawing loop

  class Canvas {
    var pixels: seq<Point>

    method DrawPixel(x: int, y: int)
      modifies this
      ensures pixels == old(pixels) + [Point(x, y)]
    {
      pixels := pixels + [Point(x, y)];
    }
  }

  /** The loop's error term before step k. */
  ghost predicate AtStep(dx: nat, dy: nat, k: nat, err: int) {
    if dx > 0 then err == dx / 2 - k * dy + Minor(dx, dy, k) * dx && 0 <= err < dx else err == 0
  }

  /** One step: the minor ordinate moves exactly when Minor does, and the error term keeps track. */
  method Advance(dx: nat, dy: nat, ystep: int, y: int, err: int, ghost k: nat) returns (y': int, err': int)
    requires dy <= dx && AtStep(dx, dy, k, err)
    ensures AtStep(dx, dy, k + 1, err')
    ensures Minor(dx, dy, k) <= Minor(dx, dy, k + 1) <= Minor(dx, dy, k) + 1
    ensures y' == if Minor(dx, dy, k + 1) == Minor(dx, dy, k) then y else y + ystep
  {
    y', err' := y, err - dy;
    if dx > 0 {
      NextMinor(dx, dy, k, Minor(dx, dy, k), err);
    }
    if err' < 0 {
      y' := y + ystep;
      err' := err' + dx;
    }
  }

  /** u8g2_DrawLine: for every pair of points the octant swaps reduce the line to a Normal
      one and the loop plots exactly its rounded ordinates, in order. */
  method DrawLine(c: Canvas, p: Point, q: Point)
    requires OnScreen(p) && OnScreen(q) && Short(p, q)
    modifies c
    ensures c.pixels == old(c.pixels) + Pixels(Normalise(p, q))
  {
    var x1, y1, x2, y2 := p.x, p.y, q.x, q.y;
    var dx, dy := Abs(x2 - x1), Abs(y2 - y1);
    var swapxy := false;
    if dy > dx {
      swapxy := true;
      dx, dy := dy, dx;
      x1, y1 := y1, x1;
      x2, y2 := y2, x2;
    }
    if x1 > x2 {
      x1, x2 := x2, x1;
      y1, y2 := y2, y1;
    }
    ghost var n := Normalise(p, q);
    assert n == Normal(swapxy, x1, y1, x2, y2) && dx == n.a2 - n.a1 && dy == Abs(n.b2 - n.b1);
    Plot(c, n, dx, dy, swapxy, x1, y1, x2, y2);
  }

  /** The second half of u8g2_DrawLine, on the normalised line. */
  method Plot(c: Canvas, ghost n: Normal, dx: nat, dy: nat, swapxy: bool, x1: coord, y1: coord, end: coord, y2: coord)
    requires n == Normal(swapxy, x1, y1, end, y2) && x1 <= end && dx == end - x1 && dy == Abs(y2 - y1) <= dx
    modifies c
    ensures c.pixels == old(c.pixels) + Pixels(n)
  {
    var err, ystep, y := dx / 2, if y2 > y1 then 1 else -1, y1 as int;
    var x2 := if end == 0xFFFF then 0xFFFE else end as int;
    EndsMeet(dx, dy);
    var x := x1 as int;
    ghost var k: nat, start := 0, c.pixels;
    while x <= x2
      invariant x == x1 + k && k <= Count(n) && AtStep(dx, dy, k, err)
      invariant y == Ordinate(y1, y2, Minor(dx, dy, k))
      invariant c.pixels == start + Pixels(n)[..k]
    {
      OnePixelMore(c.pixels, start, n, k);
      if swapxy {
        c.DrawPixel(y, x);
      } else {
        c.DrawPixel(x, y);
      }
      y, err := Advance(dx, dy, ystep, y, err, k);
      x, k := x + 1, k + 1;
    }
    assert Pixels(n)[..Count(n)] == Pixels(n);
  }

  lemma OnePixelMore(pixels: seq<Point>, start: seq<Point>, n: Normal, k: nat)
    requires n.a1 <= n.a2 && k < Count(n) && pixels == start + Pixels(n)[..k]
    ensures pixels + [PixelAt(n, k)] == start + Pixels(n)[..k + 1]
  {
    assert Pixels(n)[..k + 1] == Pixels(n)[..k] + [PixelAt(n, k)];
  }

  // ---------------------------------------------------------------- what is drawn

  lemma Extent(p: Point, q: Point)
    requires OnScreen(p) && OnScreen(q)
    ensures var n := Normalise(p, q); n.a1 <= n.a2 && Abs(n.b2 - n.b1) <= n.a2 - n.a1
  {
  }

  function Major(n: Normal, p: Point): int {
    if n.steep then p.y else p.x
  }

  /** The first and last pixels are the two endpoints, for every line, if and only if the
      major axis does not end at the largest coordinate; there the far endpoint is missing. */
  lemma EndpointsDrawn(p: Point, q: Point)
    requires OnScreen(p) && OnScreen(q)
    ensures var n := Normalise(p, q);
            var line := Pixels(n);
            && (n.a2 != 0xFFFF <==> |line| > 0 && {line[0], line[|line| - 1]} == {p, q})
            && (n.a2 != 0xFFFF <==> |line| == n.a2 - n.a1 + 1)
            && (n.a2 == 0xFFFF ==> forall r <- line :: Major(n, r) < 0xFFFF)
  {
    Extent(p, q);
    var n := Normalise(p, q);
    var line, dx, dy := Pixels(n), n.a2 - n.a1, Abs(n.b2 - n.b1);
    EndsMeet(dx, dy);
    if n.a2 != 0xFFFF {
      assert line[0] == PixelAt(n, 0) && line[dx] == PixelAt(n, dx);
    } else if |line| > 0 {
      assert Major(n, line[0]) < 0xFFFF && Major(n, line[|line| - 1]) < 0xFFFF;
      var far := if Major(n, p) == 0xFFFF then p else q;
      assert Major(n, far) == 0xFFFF && far in {p, q} && far !in {line[0], line[|line| - 1]};
    }
  }

  /** A line is the same in both directions. */
  lemma Reversible(p: Point, q: Point)
    requires OnScreen(p) && OnScreen(q)
    ensures Pixels(Normalise(p, q)) == Pixels(Normalise(q, p))
  {
    var n, m := Normalise(p, q), Normalise(q, p);
    if n.a1 != n.a2 {
      assert n == m;
    } else {
      assert p == q;
    }
  }
}
