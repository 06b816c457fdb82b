/** The midpoint circle and disc loops of rp/src/u8g2/u8g2_circle.c. */
module Circle {
  datatype Quadrants = Quadrants(upperRight: bool, upperLeft: bool, lowerRight: bool, lowerLeft: bool)

  /** A call of the pixel and line primitives. Coordinates are those the C code computes
      before they wrap to 16 bits. */
  datatype Call = Pixel(x: int, y: int) | VLine(x: int, y: int, len: nat)

  /** One call of a section procedure: the reflections of (x, y) about a centre. */
  datatype Section = Section(filled: bool, x: nat, y: nat, x0: int, y0: int, q: Quadrants)

  class Canvas {
    var calls: seq<Call>
    ghost var sections: seq<Section>  // history

    /** Everything drawn was drawn by the recorded sections, in order. */
    ghost predicate Faithful()
      reads this
    {
      calls == Trace(sections)
    }

    method DrawPixel(x: int, y: int)
      modifies this`calls
      ensures calls == old(calls) + [Pixel(x, y)]
    {
      calls := calls + [Pixel(x, y)];
    }

    method DrawVLine(x: int, y: int, len: nat)
      modifies this`calls
      ensures calls == old(calls) + [VLine(x, y, len)]
    {
      calls := calls + [VLine(x, y, len)];
    }
  }

  // ---------------------------------------------------------------- the exact ordinate

  /** (x, y) is within half a pixel of the circle, on either side. */
  predicate InBand(rad: int, x: int, y: int) {
    x * x + y * y - y <= rad * rad <= x * x + y * y + y
  }

  /** y is the square root of rad^2 - x^2 rounded to the nearest integer. */
  predicate Nearest(rad: int, x: int, y: int) {
    y * y - y < rad * rad - x * x <= y * y + y
  }

  lemma Squares(a: int, b: int)
    requires 0 <= a < b
    ensures a * a + a <= b * b - b
  {
    assert (b - a - 1) * (a + b) >= 0;
    assert b * b - b - (a * a + a) == (b - a - 1) * (a + b);
  }

  /** No other ordinate is as close. */
  lemma NearestUnique(rad: int, x: int, y: int, z: int)
    requires Nearest(rad, x, y) && Nearest(rad, x, z) && y >= 0 && z >= 0
    ensures y == z
  {
    if y < z {
      Squares(y, z);
    } else if z < y {
      Squares(z, y);
    }
  }

  /** The loop variables after reaching (x, y): three incremental sums in closed form. */
  predicate Loop(rad: int, x: int, y: int, f: int, ddFx: int, ddFy: int) {
    && 0 <= x && 0 <= y <= rad && x <= y + 1
    && f == (x + 1) * (x + 1) + y * y - y - rad * rad
    && ddFx == 2 * x + 1 && ddFy == -2 * y
    && InBand(rad, x, y)
    && (rad > 0 && x <= y ==> Nearest(rad, x, y))
  }

  lemma LoopStart(rad: nat)
    ensures Loop(rad, 0, rad, 1 - rad, 1, -2 * rad)
  {
  }

  /** One turn of the loop: y goes down exactly when f is not negative. */
  lemma LoopStep(rad: int, x: int, y: int, f: int, ddFx: int, ddFy: int)
    requires Loop(rad, x, y, f, ddFx, ddFy) && x < y
    ensures f < 0 ==> Loop(rad, x + 1, y, f + (ddFx + 2), ddFx + 2, ddFy)
    ensures f >= 0 ==> Loop(rad, x + 1, y - 1, f + (ddFy + 2) + (ddFx + 2), ddFx + 2, ddFy + 2)
  {
    assert (x + 1) * (x + 1) == x * x + 2 * x + 1;
    assert (x + 2) * (x + 2) == x * x + 4 * x + 4;
    assert (y - 1) * (y - 1) == y * y - 2 * y + 1;
  }

  lemma SquaresGrow(a: int, b: int)
    requires 0 <= a && 0 <= b
    ensures a < b ==> a * a < b * b
  {
    assert b * b - a * a == (b - a) * (b + a);
    Positive(b - a, b + a);
  }

  lemma Positive(a: int, b: int)
    ensures a > 0 && b > 0 ==> a * b > 0
  {
  }

  /** The decision variable stays small enough for 16 bits. */
  lemma LoopBounded(rad: int, x: int, y: int, f: int, ddFx: int, ddFy: int)
    requires Loop(rad, x, y, f, ddFx, ddFy)
    ensures x <= rad && -(2 * rad + 1) <= f <= 2 * rad + 1
  {
    assert y * y - y >= 0 by {
      if y > 0 { assert y * y - y == y * (y - 1) >= 0; }
    }
    SquaresGrow(rad, x);
    assert (x + 1) * (x + 1) == x * x + 2 * x + 1;
  }

  /** The ordinates of one octant, one per column from 0 on: each in the band, each but the
      last the nearest integer, the last one where the octant ends: on the diagonal only when
      that is nearest, else just past it. */
  ghost predicate Octant(rad: int, ys: seq<nat>) {
    && ys != [] && ys[0] == rad
    && (forall k :: 0 <= k < |ys| ==> InBand(rad, k, ys[k]) && 0 <= ys[k] <= rad)
    && (forall k :: 0 <= k < |ys| - 1 ==> k < ys[k] && Nearest(rad, k, ys[k]) && ys[k] - 1 <= ys[k + 1] <= ys[k])
    && ys[|ys| - 1] <= |ys| - 1 <= ys[|ys| - 1] + 1
    && (rad > 0 && ys[|ys| - 1] == |ys| - 1 ==> Nearest(rad, |ys| - 1, |ys| - 1))
  }

  /** An octant under construction. */
  ghost predicate Partial(rad: int, ys: seq<nat>) {
    && ys != [] && ys[0] == rad
    && (forall k :: 0 <= k < |ys| ==> InBand(rad, k, ys[k]) && 0 <= ys[k] <= rad)
    && (forall k :: 0 <= k < |ys| - 1 ==> k < ys[k] && Nearest(rad, k, ys[k]) && ys[k] - 1 <= ys[k + 1] <= ys[k])
  }

  lemma PartialGrows(rad: int, ys: seq<nat>, y: nat, f: int, ddFx: int, ddFy: int)
    requires Partial(rad, ys) && |ys| - 1 < ys[|ys| - 1] && ys[|ys| - 1] - 1 <= y <= ys[|ys| - 1]
    requires Nearest(rad, |ys| - 1, ys[|ys| - 1]) && Loop(rad, |ys|, y, f, ddFx, ddFy)
    ensures Partial(rad, ys + [y])
  {
  }

  /** The loop head of both loops: the sums for column |ys| - 1, and the octant so far. */
  ghost predicate Head(rad: int, ys: seq<nat>, x: int, y: int, f: int, ddFx: int, ddFy: int) {
    x >= 0 && |ys| == x + 1 && ys[x] == y && Partial(rad, ys) && Loop(rad, x, y, f, ddFx, ddFy)
  }

  lemma HeadStart(rad: nat)
    ensures Head(rad, [rad], 0, rad, 1 - rad, 1, -2 * rad)
  {
    LoopStart(rad);
  }

  lemma HeadStep(rad: int, ys: seq<nat>, x: nat, y: nat, f: int, ddFx: int, ddFy: int)
    requires Head(rad, ys, x, y, f, ddFx, ddFy) && x < y
    ensures f < 0 ==> Head(rad, ys + [y], x + 1, y, f + (ddFx + 2), ddFx + 2, ddFy)
    ensures f >= 0 ==> Head(rad, ys + [y - 1], x + 1, y - 1, f + (ddFy + 2) + (ddFx + 2), ddFx + 2, ddFy + 2)
  {
    LoopStep(rad, x, y, f, ddFx, ddFy);
    assert Nearest(rad, x, y);
    if f < 0 {
      PartialGrows(rad, ys, y, f + (ddFx + 2), ddFx + 2, ddFy);
    } else {
      PartialGrows(rad, ys, y - 1, f + (ddFy + 2) + (ddFx + 2), ddFx + 2, ddFy + 2);
    }
  }

  // ---------------------------------------------------------------- the loops

  /** Both reflections of (x, y) in each selected quadrant: those of the upper half, then those
      of the lower. */
  function CircleSection(x: int, y: int, x0: int, y0: int, q: Quadrants): seq<Call> {
    CircleHalf(x, y, x0, y0 - y, y0 - x, q.upperRight, q.upperLeft) +
    CircleHalf(x, y, x0, y0 + y, y0 + x, q.lowerRight, q.lowerLeft)
  }

  function CircleHalf(x: int, y: int, x0: int, y1: int, y2: int, right: bool, left: bool): seq<Call> {
    (if right then [Pixel(x0 + x, y1), Pixel(x0 + y, y2)] else []) +
    (if left then [Pixel(x0 - x, y1), Pixel(x0 - y, y2)] else [])
  }

  function DiscSection(x: nat, y: nat, x0: int, y0: int, q: Quadrants): seq<Call> {
    DiscHalf(x, y, x0, y0 - y, y0 - x, q.upperRight, q.upperLeft) +
    DiscHalf(x, y, x0, y0, y0, q.lowerRight, q.lowerLeft)
  }

  function DiscHalf(x: nat, y: nat, x0: int, y1: int, y2: int, right: bool, left: bool): seq<Call> {
    (if right then [VLine(x0 + x, y1, y + 1), VLine(x0 + y, y2, x + 1)] else []) +
    (if left then [VLine(x0 - x, y1, y + 1), VLine(x0 - y, y2, x + 1)] else [])
  }

  function CallsOf(d: Section): seq<Call> {
    if d.filled then DiscSection(d.x, d.y, d.x0, d.y0, d.q) else CircleSection(d.x, d.y, d.x0, d.y0, d.q)
  }

  function Trace(sections: seq<Section>): seq<Call> {
    if sections == [] then [] else Trace(sections[..|sections| - 1]) + CallsOf(sections[|sections| - 1])
  }

  lemma TraceGrows(sections: seq<Section>, d: Section)
    ensures Trace(sections + [d]) == Trace(sections) + CallsOf(d)
  {
    assert (sections + [d])[..|sections|] == sections;
  }

  /** One section per column of an octant. */
  function Columns(filled: bool, ys: seq<nat>, x0: int, y0: int, q: Quadrants): (r: seq<Section>)
    ensures |r| == |ys|
  {
    seq(|ys|, k requires 0 <= k < |ys| => Section(filled, k, ys[k], x0, y0, q))
  }

  lemma OneColumnMore(sections: seq<Section>, start: seq<Section>, filled: bool, ys: seq<nat>, y: nat, x0: int,
                      y0: int, q: Quadrants)
    requires sections == start + Columns(filled, ys, x0, y0, q)
    ensures sections + [Section(filled, |ys|, y, x0, y0, q)] == start + Columns(filled, ys + [y], x0, y0, q)
  {
    assert Columns(filled, ys + [y], x0, y0, q)
           == Columns(filled, ys, x0, y0, q) + [Section(filled, |ys|, y, x0, y0, q)];
  }

  /** The arithmetic of one turn of the loop. */
  method Turn(x: nat, y: nat, f: int, ddFx: int, ddFy: int, ghost rad: nat, ghost ys: seq<nat>)
    returns (x': nat, y': nat, f': int, ddFx': int, ddFy': int)
    requires Head(rad, ys, x, y, f, ddFx, ddFy) && x < y
    ensures Head(rad, ys + [y'], x', y', f', ddFx', ddFy')
    ensures y' - x' < y - x && x' == x + 1
  {
    HeadStep(rad, ys, x, y, f, ddFx, ddFy);
    x', y', f', ddFx', ddFy' := x, y, f, ddFx, ddFy;
    if f >= 0 {
      y' := y - 1;
      ddFy' := ddFy + 2;
      f' := f + ddFy';
    }
    x' := x' + 1;
    ddFx' := ddFx + 2;
    f' := f' + ddFx';
  }

  lemma HeadEnd(rad: int, ys: seq<nat>, x: nat, y: nat, f: int, ddFx: int, ddFy: int)
    requires Head(rad, ys, x, y, f, ddFx, ddFy) && x >= y
    ensures Octant(rad, ys)
  {
  }

  /** u8g2_draw_circle_section. */
  method DrawCircleSection(c: Canvas, x: nat, y: nat, x0: int, y0: int, q: Quadrants)
    requires c.Faithful()
    modifies c
    ensures c.Faithful()
    ensures c.sections == old(c.sections) + [Section(false, x, y, x0, y0, q)]
  {
    CircleCalls(c, x, y, x0, y0, q);
    TraceGrows(c.sections, Section(false, x, y, x0, y0, q));
    c.sections := c.sections + [Section(false, x, y, x0, y0, q)];
  }

  method CircleCalls(c: Canvas, x: nat, y: nat, x0: int, y0: int, q: Quadrants)
    modifies c`calls
    ensures c.calls == old(c.calls) + CircleSection(x, y, x0, y0, q)
  {
    CircleHalves(c, x, y, x0, y0 - y, y0 - x, q.upperRight, q.upperLeft);
    CircleHalves(c, x, y, x0, y0 + y, y0 + x, q.lowerRight, q.lowerLeft);
  }

  method CircleHalves(c: Canvas, x: nat, y: nat, x0: int, y1: int, y2: int, right: bool, left: bool)
    modifies c`calls
    ensures c.calls == old(c.calls) + CircleHalf(x, y, x0, y1, y2, right, left)
  {
    if right {
      c.DrawPixel(x0 + x, y1);
      c.DrawPixel(x0 + y, y2);
    }
    if left {
      c.DrawPixel(x0 - x, y1);
      c.DrawPixel(x0 - y, y2);
    }
  }

  /** u8g2_draw_circle: one point per column of the octant, mirrored into the selected
      quadrants, each as close to the true circle as an integer ordinate can be. */
  method DrawCircle(c: Canvas, x0: int, y0: int, rad: nat, q: Quadrants) returns (ghost ys: seq<nat>)
    requires rad <= 0x3FFF
    requires c.Faithful()
    modifies c
    ensures c.Faithful() && Octant(rad, ys)
    ensures c.sections == old(c.sections) + Columns(false, ys, x0, y0, q)
  {
    var f, ddFx, ddFy := 1 - rad, 1, -2 * rad;
    ghost var start := c.sections;
    var x: nat, y: nat := 0, rad;
    ys := [rad];
    HeadStart(rad);
    DrawCircleSection(c, x, y, x0, y0, q);
    while x < y
      invariant c.Faithful() && Head(rad, ys, x, y, f, ddFx, ddFy)
      invariant c.sections == start + Columns(false, ys, x0, y0, q)
      decreases y - x
    {
      x, y, f, ddFx, ddFy := Turn(x, y, f, ddFx, ddFy, rad, ys);
      OneColumnMore(c.sections, start, false, ys, y, x0, y0, q);
      ys := ys + [y];
      DrawCircleSection(c, x, y, x0, y0, q);
    }
    HeadEnd(rad, ys, x, y, f, ddFx, ddFy);
  }

  /** u8g2_draw_disc_section. */
  method DrawDiscSection(c: Canvas, x: nat, y: nat, x0: int, y0: int, q: Quadrants)
    requires c.Faithful()
    modifies c
    ensures c.Faithful()
    ensures c.sections == old(c.sections) + [Section(true, x, y, x0, y0, q)]
  {
    DiscCalls(c, x, y, x0, y0, q);
    TraceGrows(c.sections, Section(true, x, y, x0, y0, q));
    c.sections := c.sections + [Section(true, x, y, x0, y0, q)];
  }

  method DiscCalls(c: Canvas, x: nat, y: nat, x0: int, y0: int, q: Quadrants)
    modifies c`calls
    ensures c.calls == old(c.calls) + DiscSection(x, y, x0, y0, q)
  {
    DiscHalves(c, x, y, x0, y0 - y, y0 - x, q.upperRight, q.upperLeft);
    DiscHalves(c, x, y, x0, y0, y0, q.lowerRight, q.lowerLeft);
  }

  method DiscHalves(c: Canvas, x: nat, y: nat, x0: int, y1: int, y2: int, right: bool, left: bool)
    modifies c`calls
    ensures c.calls == old(c.calls) + DiscHalf(x, y, x0, y1, y2, right, left)
  {
    if right {
      c.DrawVLine(x0 + x, y1, y + 1);
      c.DrawVLine(x0 + y, y2, x + 1);
    }
    if left {
      c.DrawVLine(x0 - x, y1, y + 1);
      c.DrawVLine(x0 - y, y2, x + 1);
    }
  }

  /** u8g2_draw_disc: the same octant, filled to the diameter column by column. */
  method DrawDisc(c: Canvas, x0: int, y0: int, rad: nat, q: Quadrants) returns (ghost ys: seq<nat>)
    requires rad <= 0x3FFF
    requires c.Faithful()
    modifies c
    ensures c.Faithful() && Octant(rad, ys)
    ensures c.sections == old(c.sections) + Columns(true, ys, x0, y0, q)
  {
    var f, ddFx, ddFy := 1 - rad, 1, -2 * rad;
    ghost var start := c.sections;
    var x: nat, y: nat := 0, rad;
    ys := [rad];
    HeadStart(rad);
    DrawDiscSection(c, x, y, x0, y0, q);
    while x < y
      invariant c.Faithful() && Head(rad, ys, x, y, f, ddFx, ddFy)
      invariant c.sections == start + Columns(true, ys, x0, y0, q)
      decreases y - x
    {
      x, y, f, ddFx, ddFy := Turn(x, y, f, ddFx, ddFy, rad, ys);
      OneColumnMore(c.sections, start, true, ys, y, x0, y0, q);
      ys := ys + [y];
      DrawDiscSection(c, x, y, x0, y0, q);
    }
    HeadEnd(rad, ys, x, y, f, ddFx, ddFy);
  }

  // ---------------------------------------------------------------- consequences

  /** The octant and its mirror image reach every column up to the radius: a disc has no
      missing column. */
  lemma NoMissingColumn(rad: int, ys: seq<nat>, column: int)
    requires Octant(rad, ys) && 0 <= column <= rad
    ensures column < |ys| || exists k :: 0 <= k < |ys| && ys[k] == column
  {
    if column >= |ys| {
      StepsDown(ys, 0, |ys| - 1, column);
    }
  }

  lemma {:induction false} StepsDown(ys: seq<nat>, lo: nat, hi: nat, v: int)
    requires lo <= hi < |ys| && ys[hi] <= v <= ys[lo]
    requires forall k :: lo <= k < hi ==> ys[k] <= ys[k + 1] + 1 && ys[k + 1] <= ys[k]
    ensures exists k :: lo <= k <= hi && ys[k] == v
    decreases hi - lo
  {
    if lo < hi && ys[lo] != v {
      StepsDown(ys, lo + 1, hi, v);
    }
  }

  /** The octant is determined by the radius alone, its length and its last column included. */
  lemma OctantUnique(rad: nat, ys: seq<nat>, zs: seq<nat>)
    requires Octant(rad, ys) && Octant(rad, zs)
    ensures ys == zs
  {
    NoLonger(rad, ys, zs);
    NoLonger(rad, zs, ys);
    forall k | 0 <= k < |ys|
      ensures ys[k] == zs[k]
    {
      ColumnUnique(rad, ys, zs, k);
    }
  }

  lemma ColumnUnique(rad: nat, ys: seq<nat>, zs: seq<nat>, k: nat)
    requires Octant(rad, ys) && Octant(rad, zs) && k < |ys| == |zs|
    ensures ys[k] == zs[k]
  {
    if k < |ys| - 1 {
      NearestUnique(rad, k, ys[k], zs[k]);
    } else if k > 0 {
      OneEnd(rad, k);
      assert InBand(rad, k, ys[k]) && InBand(rad, k, zs[k]);
    }
  }

  /** Ending past the diagonal and ending on it cannot both be in range. */
  lemma OneEnd(rad: nat, n: nat)
    requires n > 0
    ensures !(InBand(rad, n, n - 1) && Nearest(rad, n, n))
  {
    assert (n - 1) * (n - 1) == n * n - 2 * n + 1;
  }

  /** An octant that ends in column n leaves no room for one that goes on there. */
  lemma NoLonger(rad: nat, ys: seq<nat>, zs: seq<nat>)
    requires Octant(rad, ys) && Octant(rad, zs)
    ensures |zs| <= |ys|
  {
    var n := |ys| - 1;
    if n < |zs| - 1 {
      assert Nearest(rad, n, zs[n]) && zs[n] > n;
      Beyond(rad, n, zs[n]);
      assert InBand(rad, n, ys[n]);
      if ys[n] == n && rad > 0 {
        NearestUnique(rad, n, n, zs[n]);
      }
      assert false;
    }
  }

  lemma Beyond(rad: nat, n: nat, z: nat)
    requires z > n && Nearest(rad, n, z)
    ensures rad * rad > 2 * n * n + n
    ensures n > 0 ==> !InBand(rad, n, n - 1)
  {
    Squares(n, z);
    if n > 0 {
      assert (n - 1) * (n - 1) == n * n - 2 * n + 1;
    }
  }
}
