/** Which pixels the circle and the disc of rp/src/u8g2/u8g2_circle.c consist of. */
module CircleLaws {
  import opened Bytes
  import opened Circle

  function Abs(n: int): nat {
    if n < 0 then -n else n
  }

  /** The offset from the centre lies in a selected quadrant; an axis belongs to both sides. */
  predicate Selected(q: Quadrants, dx: int, dy: int) {
    || (q.upperRight && dx >= 0 && dy <= 0)
    || (q.upperLeft && dx <= 0 && dy <= 0)
    || (q.lowerRight && dx >= 0 && dy >= 0)
    || (q.lowerLeft && dx <= 0 && dy >= 0)
  }

  /** Some vertical line covers the pixel. */
  predicate Covered(calls: seq<Call>, px: int, py: int) {
    exists c <- calls :: c.VLine? && c.x == px && c.y <= py < c.y + c.len
  }

  /** A section plots the eight reflections of (x, y), as far as their quadrants are selected. */
  lemma SectionPlots(x: nat, y: nat, x0: int, y0: int, q: Quadrants, px: int, py: int)
    ensures Pixel(px, py) in CircleSection(x, y, x0, y0, q) <==>
            var dx, dy := px - x0, py - y0;
            Selected(q, dx, dy) && ((Abs(dx) == x && Abs(dy) == y) || (Abs(dx) == y && Abs(dy) == x))
  {
    HalfPlots(x, y, x0, y0 - y, y0 - x, q.upperRight, q.upperLeft, px, py);
    HalfPlots(x, y, x0, y0 + y, y0 + x, q.lowerRight, q.lowerLeft, px, py);
  }

  lemma HalfPlots(x: nat, y: nat, x0: int, y1: int, y2: int, right: bool, left: bool, px: int, py: int)
    ensures Pixel(px, py) in CircleHalf(x, y, x0, y1, y2, right, left) <==>
            || (right && ((px == x0 + x && py == y1) || (px == x0 + y && py == y2)))
            || (left && ((px == x0 - x && py == y1) || (px == x0 - y && py == y2)))
  {
    PairHolds(right, Pixel(x0 + x, y1), Pixel(x0 + y, y2), Pixel(px, py));
    PairHolds(left, Pixel(x0 - x, y1), Pixel(x0 - y, y2), Pixel(px, py));
  }

  lemma PairHolds(selected: bool, a: Call, b: Call, c: Call)
    ensures c in (if selected then [a, b] else []) <==> selected && (c == a || c == b)
  {
  }

  lemma CoveredByEither(a: seq<Call>, b: seq<Call>, px: int, py: int)
    ensures Covered(a + b, px, py) <==> Covered(a, px, py) || Covered(b, px, py)
  {
    assert forall c <- a :: c in a + b;
    assert forall c <- b :: c in a + b;
  }

  lemma PairCovers(selected: bool, a: Call, b: Call, px: int, py: int)
    ensures Covered(if selected then [a, b] else [], px, py)
            <==> selected && (Covered([a], px, py) || Covered([b], px, py))
  {
    if selected {
      CoveredByEither([a], [b], px, py);
      assert [a] + [b] == [a, b];
    }
  }

  lemma LineCovers(x: int, y: int, len: nat, px: int, py: int)
    ensures Covered([VLine(x, y, len)], px, py) <==> px == x && y <= py < y + len
  {
    assert VLine(x, y, len) in [VLine(x, y, len)];
  }

  lemma HalfCovers(x: nat, y: nat, x0: int, y1: int, y2: int, right: bool, left: bool, px: int, py: int)
    ensures Covered(DiscHalf(x, y, x0, y1, y2, right, left), px, py) <==>
            || (right && ((px == x0 + x && y1 <= py <= y1 + y) || (px == x0 + y && y2 <= py <= y2 + x)))
            || (left && ((px == x0 - x && y1 <= py <= y1 + y) || (px == x0 - y && y2 <= py <= y2 + x)))
  {
    var r1, r2 := VLine(x0 + x, y1, y + 1), VLine(x0 + y, y2, x + 1);
    var l1, l2 := VLine(x0 - x, y1, y + 1), VLine(x0 - y, y2, x + 1);
    CoveredByEither(if right then [r1, r2] else [], if left then [l1, l2] else [], px, py);
    PairCovers(right, r1, r2, px, py);
    PairCovers(left, l1, l2, px, py);
    LineCovers(x0 + x, y1, y + 1, px, py);
    LineCovers(x0 + y, y2, x + 1, px, py);
    LineCovers(x0 - x, y1, y + 1, px, py);
    LineCovers(x0 - y, y2, x + 1, px, py);
  }

  /** The filled section covers the columns x and y away from the centre, to the heights y and x. */
  lemma SectionCovers(x: nat, y: nat, x0: int, y0: int, q: Quadrants, px: int, py: int)
    ensures Covered(DiscSection(x, y, x0, y0, q), px, py) <==>
            var dx, dy := px - x0, py - y0;
            Selected(q, dx, dy) && ((Abs(dx) == x && Abs(dy) <= y) || (Abs(dx) == y && Abs(dy) <= x))
  {
    CoveredByEither(DiscHalf(x, y, x0, y0 - y, y0 - x, q.upperRight, q.upperLeft),
                    DiscHalf(x, y, x0, y0, y0, q.lowerRight, q.lowerLeft), px, py);
    HalfCovers(x, y, x0, y0 - y, y0 - x, q.upperRight, q.upperLeft, px, py);
    HalfCovers(x, y, x0, y0, y0, q.lowerRight, q.lowerLeft, px, py);
  }

  // ---------------------------------------------------------------- the whole figure

  lemma ColumnsGrow(filled: bool, ys: seq<nat>, x0: int, y0: int, q: Quadrants)
    requires ys != []
    ensures var n := |ys| - 1;
            Trace(Columns(filled, ys, x0, y0, q))
            == Trace(Columns(filled, ys[..n], x0, y0, q)) + CallsOf(Section(filled, n, ys[n], x0, y0, q))
  {
    var n := |ys| - 1;
    assert Columns(filled, ys, x0, y0, q)
           == Columns(filled, ys[..n], x0, y0, q) + [Section(filled, n, ys[n], x0, y0, q)];
    TraceGrows(Columns(filled, ys[..n], x0, y0, q), Section(filled, n, ys[n], x0, y0, q));
  }

  /** Column k of the octant, or its mirror image, reaches the offset (a, b). */
  predicate Reached(ys: seq<nat>, k: nat, a: nat, b: nat)
    requires k < |ys|
  {
    (a == k && b <= ys[k]) || (a == ys[k] && b <= k)
  }

  predicate OnRim(ys: seq<nat>, k: nat, a: nat, b: nat)
    requires k < |ys|
  {
    (a == k && b == ys[k]) || (a == ys[k] && b == k)
  }

  predicate AnyReached(ys: seq<nat>, a: nat, b: nat) {
    exists k: nat :: k < |ys| && Reached(ys, k, a, b)
  }

  predicate AnyOnRim(ys: seq<nat>, a: nat, b: nat) {
    exists k: nat :: k < |ys| && OnRim(ys, k, a, b)
  }

  lemma AnyReachedGrows(ys: seq<nat>, a: nat, b: nat)
    requires ys != []
    ensures AnyReached(ys, a, b) <==> AnyReached(ys[..|ys| - 1], a, b) || Reached(ys, |ys| - 1, a, b)
  {
    var front := ys[..|ys| - 1];
    if AnyReached(front, a, b) {
      var k: nat :| k < |front| && Reached(front, k, a, b);
      assert Reached(ys, k, a, b);
    }
    if AnyReached(ys, a, b) && !Reached(ys, |ys| - 1, a, b) {
      var k: nat :| k < |ys| && Reached(ys, k, a, b);
      assert Reached(front, k, a, b);
    }
  }

  lemma AnyOnRimGrows(ys: seq<nat>, a: nat, b: nat)
    requires ys != []
    ensures AnyOnRim(ys, a, b) <==> AnyOnRim(ys[..|ys| - 1], a, b) || OnRim(ys, |ys| - 1, a, b)
  {
    var front := ys[..|ys| - 1];
    if AnyOnRim(front, a, b) {
      var k: nat :| k < |front| && OnRim(front, k, a, b);
      assert OnRim(ys, k, a, b);
    }
    if AnyOnRim(ys, a, b) && !OnRim(ys, |ys| - 1, a, b) {
      var k: nat :| k < |ys| && OnRim(ys, k, a, b);
      assert OnRim(front, k, a, b);
    }
  }

  lemma {:induction false} DiscCovers(ys: seq<nat>, x0: int, y0: int, q: Quadrants, px: int, py: int)
    ensures var dx, dy := px - x0, py - y0;
            Covered(Trace(Columns(true, ys, x0, y0, q)), px, py)
            <==> Selected(q, dx, dy) && AnyReached(ys, Abs(dx), Abs(dy))
    decreases |ys|
  {
    if ys != [] {
      var n := |ys| - 1;
      DiscCovers(ys[..n], x0, y0, q, px, py);
      ColumnsGrow(true, ys, x0, y0, q);
      CoveredByEither(Trace(Columns(true, ys[..n], x0, y0, q)), DiscSection(n, ys[n], x0, y0, q), px, py);
      SectionCovers(n, ys[n], x0, y0, q, px, py);
      AnyReachedGrows(ys, Abs(px - x0), Abs(py - y0));
    }
  }

  lemma {:induction false} CirclePlots(ys: seq<nat>, x0: int, y0: int, q: Quadrants, px: int, py: int)
    ensures var dx, dy := px - x0, py - y0;
            Pixel(px, py) in Trace(Columns(false, ys, x0, y0, q))
            <==> Selected(q, dx, dy) && AnyOnRim(ys, Abs(dx), Abs(dy))
    decreases |ys|
  {
    if ys != [] {
      var n := |ys| - 1;
      CirclePlots(ys[..n], x0, y0, q, px, py);
      ColumnsGrow(false, ys, x0, y0, q);
      InEither(Trace(Columns(false, ys[..n], x0, y0, q)), CircleSection(n, ys[n], x0, y0, q), Pixel(px, py));
      SectionPlots(n, ys[n], x0, y0, q, px, py);
      AnyOnRimGrows(ys, Abs(px - x0), Abs(py - y0));
    }
  }

  lemma InEither(a: seq<Call>, b: seq<Call>, c: Call)
    ensures c in a + b <==> c in a || c in b
  {
  }

  // ---------------------------------------------------------------- how round they are

  lemma SquareUp(a: nat, b: nat)
    ensures a <= b ==> a * a <= b * b
  {
    assert b * b - a * a == (b - a) * (b + a);
  }

  lemma NextSquare(y: nat)
    ensures (y + 1) * (y + 1) == y * y + 2 * y + 1
  {
  }

  /** No pixel reached is further out than half a pixel or so. */
  lemma NotTooFar(rad: nat, ys: seq<nat>, k: nat, a: nat, b: nat)
    requires Octant(rad, ys) && k < |ys| && Reached(ys, k, a, b)
    ensures a * a + b * b <= rad * rad + rad
  {
    var y := ys[k];
    assert InBand(rad, k, y) && y <= rad;
    if a == k && b <= y {
      SquareUp(b, y);
    } else {
      SquareUp(b, k);
    }
  }

  /** No pixel inside the circle is left out: one whose column is in the octant lies below it. */
  lemma BelowOctant(rad: nat, ys: seq<nat>, a: nat, b: nat)
    requires Octant(rad, ys) && a < |ys| && a * a + b * b <= rad * rad
    ensures b <= ys[a]
  {
    assert InBand(rad, a, ys[a]);
    UnderBand(rad, a, ys[a], b);
  }

  lemma UnderBand(rad: nat, x: nat, y: nat, b: nat)
    requires InBand(rad, x, y) && x * x + b * b <= rad * rad
    ensures b <= y
  {
    SquareUp(y + 1, b);
    NextSquare(y);
  }

  /** Beyond the octant's last column the other coordinate is within it. */
  lemma OneIsShort(rad: nat, ys: seq<nat>, a: nat, b: nat)
    requires Octant(rad, ys) && a >= |ys| && a * a + b * b <= rad * rad
    ensures b < |ys|
  {
    var n := |ys|;
    assert InBand(rad, n - 1, ys[n - 1]);
    SquareUp(ys[n - 1], n - 1);
    SquareUp(n, a);
    SquareUp(n, b);
    NextSquare(n - 1);
  }

  lemma InsideIsReached(rad: nat, ys: seq<nat>, a: nat, b: nat)
    requires Octant(rad, ys) && a * a + b * b <= rad * rad
    ensures AnyReached(ys, a, b)
  {
    if a < |ys| {
      BelowOctant(rad, ys, a, b);
      assert Reached(ys, a, a, b);
    } else {
      OneIsShort(rad, ys, a, b);
      BelowOctant(rad, ys, b, a);
      StepsDown(ys, b, |ys| - 1, a);
      var k :| b <= k <= |ys| - 1 && ys[k] == a;
      assert Reached(ys, k, a, b);
    }
  }

  /** The disc is round and has no holes: in the selected quadrants it covers every pixel at a
      distance of at most the radius from the centre, and no pixel whose distance squared is more
      than the radius squared and the radius. */
  lemma DiscIsRound(rad: nat, ys: seq<nat>, x0: int, y0: int, q: Quadrants, px: int, py: int)
    requires Octant(rad, ys)
    ensures var dx, dy := px - x0, py - y0;
            var covered := Covered(Trace(Columns(true, ys, x0, y0, q)), px, py);
            && (covered ==> Selected(q, dx, dy) && dx * dx + dy * dy <= rad * rad + rad)
            && (Selected(q, dx, dy) && dx * dx + dy * dy <= rad * rad ==> covered)
  {
    DiscCovers(ys, x0, y0, q, px, py);
    RoundAbout(rad, ys, px - x0, py - y0);
  }

  lemma RoundAbout(rad: nat, ys: seq<nat>, dx: int, dy: int)
    requires Octant(rad, ys)
    ensures AnyReached(ys, Abs(dx), Abs(dy)) ==> dx * dx + dy * dy <= rad * rad + rad
    ensures dx * dx + dy * dy <= rad * rad ==> AnyReached(ys, Abs(dx), Abs(dy))
  {
    ReachedIsRound(rad, ys, Abs(dx), Abs(dy));
    SameSquare(dx);
    SameSquare(dy);
  }

  lemma ReachedIsRound(rad: nat, ys: seq<nat>, a: nat, b: nat)
    requires Octant(rad, ys)
    ensures AnyReached(ys, a, b) ==> a * a + b * b <= rad * rad + rad
    ensures a * a + b * b <= rad * rad ==> AnyReached(ys, a, b)
  {
    if AnyReached(ys, a, b) {
      var k: nat :| k < |ys| && Reached(ys, k, a, b);
      NotTooFar(rad, ys, k, a, b);
    }
    if a * a + b * b <= rad * rad {
      InsideIsReached(rad, ys, a, b);
    }
  }

  /** The circle lies in the band: the distance squared of every plotted pixel differs from the
      radius squared by at most the radius. */
  lemma CircleInBand(rad: nat, ys: seq<nat>, x0: int, y0: int, q: Quadrants, px: int, py: int)
    requires Octant(rad, ys) && Pixel(px, py) in Trace(Columns(false, ys, x0, y0, q))
    ensures var dx, dy := px - x0, py - y0;
            Selected(q, dx, dy) && rad * rad - rad <= dx * dx + dy * dy <= rad * rad + rad
  {
    CirclePlots(ys, x0, y0, q, px, py);
    RimInBand(rad, ys, Abs(px - x0), Abs(py - y0));
    SameSquare(px - x0);
    SameSquare(py - y0);
  }

  lemma SameSquare(n: int)
    ensures Abs(n) * Abs(n) == n * n
  {
  }

  lemma RimInBand(rad: nat, ys: seq<nat>, a: nat, b: nat)
    requires Octant(rad, ys) && AnyOnRim(ys, a, b)
    ensures rad * rad - rad <= a * a + b * b <= rad * rad + rad
  {
    var k: nat :| k < |ys| && OnRim(ys, k, a, b);
    assert InBand(rad, k, ys[k]) && ys[k] <= rad;
  }
}
