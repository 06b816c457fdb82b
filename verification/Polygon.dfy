/** The convex polygon filler of rp/src/u8g2/u8g2_polygon.c: two integer edge walkers stepped
    down one scan line at a time. Coordinates are taken small enough for 16-bit differences. */
module Polygon {
  import opened Arithmetic
  import opened Bytes

  /** Which neighbour an edge walker goes to next: pg_inc or pg_dec. */
  datatype Dir = Inc | Dec

  /** C division truncates towards zero. */
  function Quot(a: int, b: int): int
    requires b > 0
  {
    if a >= 0 then a / b else -((-a) / b)
  }

  function CeilDiv(a: int, b: int): int
    requires b > 0
  {
    -((-a) / b)
  }

  /** Where the edge from p to q meets the k-th line below p: the exact abscissa rounded up. */
  function EdgeX(p: Point, q: Point, k: nat): int
    requires p.y < q.y
  {
    p.x + CeilDiv(k * (q.x - p.x), q.y - p.y)
  }

  lemma CeilUnique(a: int, b: int, c: int)
    requires b > 0 && -b < a - b * c <= 0
    ensures CeilDiv(a, b) == c
  {
    Quotient(-a, b, -c, b * c - a);
  }

  /** pg_edge_struct: the line loop, and which way round the outline it goes. */
  class Edge {
    var dir: Dir
    var currIdx: nat
    var xDirection: int
    var height: int
    var currentXOffset: int
    var errorOffset: int
    var currentY: int
    var maxY: int
    var currentX: int
    var error: int

    /** The walker is on line k of the edge from p to q. */
    ghost predicate On(p: Point, q: Point, k: int)
      reads this
    {
      && p.y < q.y && 0 <= k <= q.y - p.y
      && height == q.y - p.y && maxY == q.y && currentY == p.y + k
      && xDirection == (if q.x >= p.x then 1 else -1)
      && currentXOffset == Quot(q.x - p.x, height)
      && 0 <= errorOffset < height
      && q.x - p.x == currentXOffset * height + xDirection * errorOffset
      && -height < error <= 0
      && Residue(p, q, k) == if q.x >= p.x then error else 1 - height - error
    }

    /** How far the walker is left of the exact line, times the height. */
    ghost function Residue(p: Point, q: Point, k: int): int
      reads this
    {
      k * (q.x - p.x) - height * (currentX - p.x)
    }

    /** pge_Init, which the C code calls with y2 > y1 only. */
    method Init(p: Point, q: Point)
      requires p.y < q.y
      modifies this
      ensures On(p, q, 0) && dir == old(dir) && currIdx == old(currIdx)
    {
      var dx := q.x - p.x;
      var width;
      height := q.y - p.y;
      maxY := q.y;
      currentY := p.y;
      currentX := p.x;
      if dx >= 0 {
        xDirection := 1;
        width := dx;
        error := 0;
      } else {
        xDirection := -1;
        width := -dx;
        error := 1 - height;
      }
      currentXOffset := Quot(dx, height);
      errorOffset := width % height;
      DivMod(width, height);
      ZeroTimes(q.x - p.x, height);
      NegTimes(width / height, height);
    }

    /** pge_Next: one line down, unless the edge is used up. */
    method Next(ghost p: Point, ghost q: Point, ghost k: int) returns (moved: bool)
      requires On(p, q, k)
      modifies this
      ensures moved <==> k < q.y - p.y
      ensures On(p, q, if moved then k + 1 else k)
      ensures !moved ==> unchanged(this)
      ensures dir == old(dir) && currIdx == old(currIdx)
    {
      if currentY >= maxY {
        return false;
      }
      ghost var dx, x := q.x - p.x, currentX - p.x;
      currentX := currentX + currentXOffset;
      error := error + errorOffset;
      ResidueStep(k, dx, height, x, currentXOffset, xDirection * errorOffset);
      if error > 0 {
        currentX := currentX + xDirection;
        error := error - height;
        ResidueCarry(k + 1, dx, height, x + currentXOffset, xDirection);
      }
      currentY := currentY + 1;
      return true;
    }
  }

  lemma DivMod(a: int, h: int)
    requires h > 0
    ensures a == a / h * h + a % h && 0 <= a % h < h
  {
  }

  lemma ZeroTimes(a: int, h: int)
    ensures 0 * a - h * 0 == 0
  {
  }

  lemma NegTimes(a: int, h: int)
    ensures (-a) * h == -(a * h)
  {
  }

  lemma ResidueStep(k: int, dx: int, h: int, x: int, off: int, r: int)
    requires dx == off * h + r
    ensures (k + 1) * dx - h * (x + off) == k * dx - h * x + r
  {
    assert (k + 1) * dx == k * dx + dx;
    assert h * (x + off) == h * x + off * h;
  }

  lemma ResidueCarry(k: int, dx: int, h: int, x: int, d: int)
    requires d == 1 || d == -1
    ensures k * dx - h * (x + d) == k * dx - h * x - d * h
  {
    assert h * (x + d) == h * x + h * d;
  }

  /** Closed form: for either sign of the slope the walker's abscissa is the exact one rounded
      up, so that shapes sharing an edge agree on every line; it ends on q. */
  lemma WalkerIsExact(e: Edge, p: Point, q: Point, k: int)
    requires e.On(p, q, k)
    ensures e.currentX == EdgeX(p, q, k)
    ensures k == q.y - p.y ==> e.currentX == q.x
  {
    var h, dx, x := q.y - p.y, q.x - p.x, e.currentX - p.x;
    CeilUnique(k * dx, h, x);
    if k == h {
      CeilUnique(h * dx, h, dx);
    }
  }

  // ---------------------------------------------------------------- chains

  type Outline = l: seq<Point> | |l| > 0 witness [Point(0, 0)]

  function Neighbour(list: Outline, d: Dir, i: nat): (j: nat)
    requires i < |list|
    ensures j < |list|
  {
    match d
    case Inc => if i + 1 >= |list| then 0 else i + 1
    case Dec => if i == 0 then |list| - 1 else i - 1
  }

  /** From point i the outline goes strictly down, in at most `steps` edges, to the bottom. */
  predicate Descends(list: Outline, d: Dir, i: nat, bottom: int, steps: nat)
    decreases steps
  {
    i < |list| &&
    (list[i].y == bottom ||
     (steps > 0 && list[i].y < list[Neighbour(list, d, i)].y
      && Descends(list, d, Neighbour(list, d, i), bottom, steps - 1)))
  }

  lemma {:induction false} DescendsBelow(list: Outline, d: Dir, i: nat, bottom: int, steps: nat)
    requires Descends(list, d, i, bottom, steps)
    ensures list[i].y <= bottom
    decreases steps
  {
    if list[i].y != bottom {
      DescendsBelow(list, d, Neighbour(list, d, i), bottom, steps - 1);
    }
  }

  /** Where a descending chain meets scan line y. */
  function ChainX(list: Outline, d: Dir, i: nat, bottom: int, steps: nat, y: int): int
    requires Descends(list, d, i, bottom, steps) && list[i].y <= y <= bottom
    decreases steps
  {
    if y == list[i].y then list[i].x
    else
      var j := Neighbour(list, d, i);
      if y <= list[j].y then EdgeX(list[i], list[j], y - list[i].y)
      else ChainX(list, d, j, bottom, steps - 1, y)
  }

  /** A chain from its start, and the vertex the walker last passed. */
  datatype Chain = Chain(list: Outline, d: Dir, start: nat, bottom: int, steps: nat, from: nat, left: nat)

  /** Going down from point i, with `steps` to go, one comes to `from` with `left` to go. */
  predicate Passed(list: Outline, d: Dir, i: nat, steps: nat, from: nat, left: nat)
    decreases steps
  {
    i < |list| &&
    ((i == from && steps == left) ||
     (steps > 0 && list[i].y < list[Neighbour(list, d, i)].y
      && Passed(list, d, Neighbour(list, d, i), steps - 1, from, left)))
  }

  lemma {:induction false} PassedIsAbove(list: Outline, d: Dir, i: nat, steps: nat, from: nat, left: nat)
    requires Passed(list, d, i, steps, from, left)
    ensures from < |list| && list[i].y <= list[from].y
    decreases steps
  {
    if !(i == from && steps == left) {
      PassedIsAbove(list, d, Neighbour(list, d, i), steps - 1, from, left);
    }
  }

  lemma {:induction false} PassOne(list: Outline, d: Dir, i: nat, steps: nat, from: nat, left: nat)
    requires Passed(list, d, i, steps, from, left) && from < |list| && left > 0
    requires list[from].y < list[Neighbour(list, d, from)].y
    ensures Passed(list, d, i, steps, Neighbour(list, d, from), left - 1)
    decreases steps
  {
    if !(i == from && steps == left) {
      PassOne(list, d, Neighbour(list, d, i), steps - 1, from, left);
    }
  }

  /** What is below `from` is the same seen from there as seen from i. */
  lemma {:induction false} SameBelow(list: Outline, d: Dir, i: nat, bottom: int, steps: nat, from: nat, left: nat,
                                     y: int)
    requires Passed(list, d, i, steps, from, left) && from < |list| && list[from].y < y <= bottom
    requires Descends(list, d, i, bottom, steps) && Descends(list, d, from, bottom, left)
    ensures list[i].y <= list[from].y
    ensures ChainX(list, d, i, bottom, steps, y) == ChainX(list, d, from, bottom, left, y)
    decreases steps
  {
    if !(i == from && steps == left) {
      var j := Neighbour(list, d, i);
      PassedIsAbove(list, d, j, steps - 1, from, left);
      SameBelow(list, d, j, bottom, steps - 1, from, left, y);
    }
  }

  /** The walker is at scan line y of the chain. */
  ghost predicate Walking(e: Edge, c: Chain, y: int)
    reads e
  {
    && Descends(c.list, c.d, c.start, c.bottom, c.steps) && Descends(c.list, c.d, c.from, c.bottom, c.left)
    && c.list[c.start].y <= c.list[c.from].y <= y <= c.bottom && c.list[c.from].y < c.bottom
    && (y == c.list[c.from].y ==> c.from == c.start)
    && Passed(c.list, c.d, c.start, c.steps, c.from, c.left)
    && e.dir == c.d && e.currIdx == Neighbour(c.list, c.d, c.from)
    && e.On(c.list[c.from], c.list[e.currIdx], y - c.list[c.from].y)
  }

  lemma WalkerOnChain(e: Edge, c: Chain, y: int)
    requires Walking(e, c, y)
    ensures c.list[c.start].y <= y <= c.bottom
    ensures e.currentX == ChainX(c.list, c.d, c.start, c.bottom, c.steps, y)
  {
    var k := y - c.list[c.from].y;
    WalkerIsExact(e, c.list[c.from], c.list[e.currIdx], k);
    if k == 0 {
      CeilUnique(0 * (c.list[e.currIdx].x - c.list[c.from].x), c.list[e.currIdx].y - c.list[c.from].y, 0);
    } else {
      SameBelow(c.list, c.d, c.start, c.bottom, c.steps, c.from, c.left, y);
      assert ChainX(c.list, c.d, c.from, c.bottom, c.left, y) == EdgeX(c.list[c.from], c.list[e.currIdx], k);
    }
  }

  /** pg_line_init: go on with the next edge of the outline. */
  method LineInit(e: Edge, list: Outline)
    requires e.currIdx < |list| && list[e.currIdx].y < list[Neighbour(list, e.dir, e.currIdx)].y
    modifies e
    ensures e.dir == old(e.dir) && e.currIdx == Neighbour(list, e.dir, old(e.currIdx))
    ensures e.On(list[old(e.currIdx)], list[e.currIdx], 0)
  {
    var p := list[e.currIdx];
    e.currIdx := Neighbour(list, e.dir, e.currIdx);
    e.Init(p, list[e.currIdx]);
  }

  /** The inner while of pg_exec: one line down the chain, over a vertex if need be. On a
      descending chain no edge of zero height is ever set up. */
  method Down(e: Edge, ghost c: Chain, list: Outline, ghost y: int) returns (ghost c': Chain)
    requires Walking(e, c, y) && y < c.bottom && list == c.list
    modifies e
    ensures Walking(e, c', y + 1)
    ensures c' == c.(from := c'.from, left := c'.left)
  {
    c' := c;
    DescendsBelow(list, c.d, e.currIdx, c.bottom, c.left - 1);
    var moved := e.Next(list[c'.from], list[e.currIdx], y - list[c'.from].y);
    while !moved
      invariant if moved then Walking(e, c', y + 1) else c' == c && Walking(e, c, y) && y == list[e.currIdx].y
      invariant c' == c.(from := c'.from, left := c'.left)
      decreases !moved
    {
      ghost var i := e.currIdx;
      c' := c.(from := i, left := c.left - 1);
      OverVertex(c, i);
      DescendsBelow(list, c.d, Neighbour(list, c.d, i), c.bottom, c'.left - 1);
      LineInit(e, list);
      moved := e.Next(list[i], list[e.currIdx], 0);
    }
  }

  lemma OverVertex(c: Chain, i: nat)
    requires Descends(c.list, c.d, c.from, c.bottom, c.left) && c.list[c.from].y < c.bottom
    requires Passed(c.list, c.d, c.start, c.steps, c.from, c.left) && i == Neighbour(c.list, c.d, c.from)
    ensures c.left > 0 && Descends(c.list, c.d, i, c.bottom, c.left - 1) && c.list[c.from].y < c.list[i].y
    ensures Passed(c.list, c.d, c.start, c.steps, i, c.left - 1)
  {
    PassOne(c.list, c.d, c.start, c.steps, c.from, c.left);
  }

  // ---------------------------------------------------------------- drawing

  datatype Span = Span(left: int, right: int, y: int)

  datatype HLine = HLine(x: int, y: int, len: int)

  /** pg_hline: the line it asks for, clipped to a screen of w by h pixels. */
  function Clipped(s: Span, w: nat, h: nat): seq<HLine> {
    if s.y < 0 || s.y >= h then []
    else if s.left < s.right then
      if s.right < 0 || s.left >= w then []
      else
        var a := if s.left < 0 then 0 else s.left;
        var b := if s.right >= w then w as int else s.right;
        [HLine(a, s.y, b - a)]
    else
      if s.left < 0 || s.right >= w then []
      else
        var a := if s.right < 0 then 0 else s.left;
        var b := if a >= w then w as int else a;
        [HLine(s.right, s.y, b - s.right)]
  }

  function Covers(lines: seq<HLine>, x: int): bool {
    lines != [] && lines[0].x <= x < lines[0].x + lines[0].len
  }

  function Lower(s: Span): int { if s.left < s.right then s.left else s.right }

  function Upper(s: Span): int { if s.left < s.right then s.right else s.left }

  /** A visible pixel column is covered exactly when it lies between the two edges, with one
      exception: when the edges are exchanged and the smaller one is off the screen to the
      left, nothing of the line is drawn. */
  lemma ClippingExact(s: Span, w: nat, h: nat)
    requires 0 <= s.y < h
    ensures (forall x :: 0 <= x < w ==> (Covers(Clipped(s, w, h), x) <==> Lower(s) <= x < Upper(s)))
            <==> !(s.right < 0 < s.left && w > 0)
  {
    if s.right < 0 < s.left && w > 0 {
      assert !Covers(Clipped(s, w, h), 0) && Lower(s) <= 0 < Upper(s);
    }
  }

  /** A line above or below the screen draws nothing, and one from left to right nothing beside it. */
  lemma OffScreen(s: Span, w: nat, h: nat)
    ensures s.y < 0 || s.y >= h ==> Clipped(s, w, h) == []
    ensures s.left < s.right ==> forall l <- Clipped(s, w, h) :: l.y == s.y && 0 <= l.x <= l.x + l.len <= w
  {
  }

  class Screen {
    const width: nat
    const height: nat
    var calls: seq<HLine>
    ghost var spans: seq<Span>  // history

    ghost predicate Faithful()
      reads this
    {
      calls == Lines(spans, width, height)
    }

    constructor (width: nat, height: nat)
      ensures Faithful() && calls == [] && this.width == width && this.height == height
    {
      this.width, this.height, calls, spans := width, height, [], [];
    }

    method Draw(s: Span)
      requires Faithful()
      modifies this
      ensures Faithful() && spans == old(spans) + [s]
    {
      LinesStep(spans, s, width, height);
      spans := spans + [s];
      DrawClipped(s);
    }

    /** pg_hline. */
    method DrawClipped(s: Span)
      modifies this`calls
      ensures calls == old(calls) + Clipped(s, width, height)
    {
      var x1, x2 := s.left, s.right;
      assert calls + [] == calls;
      if s.y < 0 || s.y >= height {
        return;
      }
      if x1 < x2 {
        if x2 < 0 || x1 >= width {
          return;
        }
        if x1 < 0 { x1 := 0; }
        if x2 >= width { x2 := width; }
        calls := calls + [HLine(x1, s.y, x2 - x1)];
      } else {
        if x1 < 0 || x2 >= width {
          return;
        }
        if x2 < 0 { x1 := 0; }
        if x1 >= width { x1 := width; }
        calls := calls + [HLine(x2, s.y, x1 - x2)];
      }
    }
  }

  function Lines(spans: seq<Span>, w: nat, h: nat): seq<HLine> {
    Flatten(EachClipped(spans, w, h))
  }

  function EachClipped(spans: seq<Span>, w: nat, h: nat): (r: seq<seq<HLine>>)
    ensures |r| == |spans|
  {
    seq(|spans|, i requires 0 <= i < |spans| => Clipped(spans[i], w, h))
  }

  lemma LinesAppend(a: seq<Span>, b: seq<Span>, w: nat, h: nat)
    ensures Lines(a + b, w, h) == Lines(a, w, h) + Lines(b, w, h)
  {
    assert EachClipped(a + b, w, h) == EachClipped(a, w, h) + EachClipped(b, w, h);
    FlattenAppend(EachClipped(a, w, h), EachClipped(b, w, h));
  }

  lemma LinesOfOne(s: Span, w: nat, h: nat)
    ensures Lines([s], w, h) == Clipped(s, w, h)
  {
    assert EachClipped([s], w, h) == [Clipped(s, w, h)];
    FlattenOne(Clipped(s, w, h));
  }

  lemma LinesStep(spans: seq<Span>, s: Span, w: nat, h: nat)
    ensures Lines(spans + [s], w, h) == Lines(spans, w, h) + Clipped(s, w, h)
  {
    LinesAppend(spans, [s], w, h);
    LinesOfOne(s, w, h);
  }

  ghost function SpanAt(l: Chain, r: Chain, y: int): Span
    requires Descends(l.list, l.d, l.start, l.bottom, l.steps) && l.list[l.start].y <= y <= l.bottom
    requires Descends(r.list, r.d, r.start, r.bottom, r.steps) && r.list[r.start].y <= y <= r.bottom
  {
    Span(ChainX(l.list, l.d, l.start, l.bottom, l.steps, y), ChainX(r.list, r.d, r.start, r.bottom, r.steps, y), y)
  }

  /** Two chains from the top of an outline to its bottom. */
  ghost predicate Sides(l: Chain, r: Chain, top: int) {
    && l.list == r.list && l.bottom == r.bottom && top < l.bottom
    && Descends(l.list, l.d, l.start, l.bottom, l.steps) && Descends(r.list, r.d, r.start, r.bottom, r.steps)
    && l.list[l.start].y == top == r.list[r.start].y
  }

  /** The spans of n consecutive scan lines from y on. */
  ghost function SpansFrom(l: Chain, r: Chain, top: int, y: int, n: nat): seq<Span>
    requires Sides(l, r, top) && top <= y && y + n <= l.bottom
  {
    if n == 0 then [] else SpansFrom(l, r, top, y, n - 1) + [SpanAt(l, r, y + n - 1)]
  }

  method Begin(e: Edge, ghost c: Chain, list: Outline)
    requires c.list == list && c.from == c.start && c.left == c.steps && e.dir == c.d && e.currIdx == c.start
    requires Descends(c.list, c.d, c.start, c.bottom, c.steps) && list[c.start].y < c.bottom
    modifies e
    ensures Walking(e, c, list[c.start].y)
  {
    DescendsBelow(list, c.d, Neighbour(list, c.d, c.start), c.bottom, c.steps - 1);
    LineInit(e, list);
  }

  /** The first edge of a side; the first line is skipped when the top is a point. */
  method StartSide(e: Edge, ghost c: Chain, list: Outline, skip: bool) returns (ghost c': Chain)
    requires c.list == list && c.from == c.start && c.left == c.steps && e.dir == c.d && e.currIdx == c.start
    requires Descends(c.list, c.d, c.start, c.bottom, c.steps) && list[c.start].y < c.bottom
    modifies e
    ensures c' == c.(from := c'.from, left := c'.left)
    ensures Walking(e, c', list[c.start].y + if skip then 1 else 0)
  {
    Begin(e, c, list);
    c' := c;
    if skip {
      DescendsBelow(list, c.d, e.currIdx, c.bottom, c.left - 1);
      var moved := e.Next(list[c.from], list[e.currIdx], 0);
      assert moved;
    }
  }

  /** Lines `first` to y - 1 have been drawn and both walkers are on line y. */
  ghost predicate Filling(screen: Screen, left: Edge, right: Edge, l: Chain, r: Chain, lc: Chain, rc: Chain,
                          top: int, first: int, y: int, before: seq<Span>)
    reads screen, left, right
  {
    && screen.Faithful() && Sides(l, r, top) && top <= first <= y <= l.bottom
    && lc == l.(from := lc.from, left := lc.left) && rc == r.(from := rc.from, left := rc.left)
    && Walking(left, lc, y) && Walking(right, rc, y)
    && screen.spans == before + SpansFrom(l, r, top, first, y - first)
  }

  /** The body of the scan-line loop: draw between the two walkers, then move both down. */
  method FillLine(screen: Screen, list: Outline, left: Edge, right: Edge,
                  ghost l: Chain, ghost r: Chain, ghost lc: Chain, ghost rc: Chain,
                  ghost top: int, ghost first: int, ghost y: int, ghost before: seq<Span>)
    returns (ghost lc': Chain, ghost rc': Chain)
    requires left != right && l.list == list && y < l.bottom
    requires Filling(screen, left, right, l, r, lc, rc, top, first, y, before)
    modifies screen, left, right
    ensures Filling(screen, left, right, l, r, lc', rc', top, first, y + 1, before)
  {
    WalkerOnChain(left, lc, y);
    WalkerOnChain(right, rc, y);
    screen.Draw(Span(left.currentX, right.currentX, right.currentY));
    lc' := Down(left, lc, list, y);
    rc' := Down(right, rc, list, y);
  }

  method StartBoth(screen: Screen, list: Outline, left: Edge, right: Edge, notFlat: bool, ghost l: Chain,
                   ghost r: Chain, ghost top: int)
    returns (ghost lc: Chain, ghost rc: Chain)
    requires screen.Faithful() && left != right
    requires Sides(l, r, top) && l.list == list
             && l.from == l.start && r.from == r.start && l.left == l.steps && r.left == r.steps
    requires left.dir == l.d && left.currIdx == l.start && right.dir == r.d && right.currIdx == r.start
    requires top + (if notFlat then 1 else 0) < l.bottom
    modifies left, right
    ensures var first := top + if notFlat then 1 else 0;
            Filling(screen, left, right, l, r, lc, rc, top, first, first, screen.spans)
  {
    lc := StartSide(left, l, list, notFlat);
    rc := StartSide(right, r, list, notFlat);
  }

  /** pg_exec: one line per consecutive scan line, from the top, or the line below it when the
      top is a single point, to the one above the bottom; each between the exact edges. */
  method Exec(screen: Screen, list: Outline, left: Edge, right: Edge, notFlat: bool, total: nat,
              ghost l: Chain, ghost r: Chain, ghost top: int)
    requires screen.Faithful() && left != right
    requires Sides(l, r, top) && l.list == list
             && l.from == l.start && r.from == r.start && l.left == l.steps && r.left == r.steps
    requires left.dir == l.d && left.currIdx == l.start && right.dir == r.d && right.currIdx == r.start
    requires total == l.bottom - top - (if notFlat then 1 else 0) && total > 0
    modifies screen, left, right
    ensures screen.Faithful()
    ensures screen.spans == old(screen.spans) + SpansFrom(l, r, top, l.bottom - total, total)
  {
    ghost var first := l.bottom - total;
    ghost var lc, rc := StartBoth(screen, list, left, right, notFlat, l, r, top);
    FillLines(screen, list, left, right, total, l, r, lc, rc, top, first, screen.spans);
  }

  /** The scan-line loop. */
  method FillLines(screen: Screen, list: Outline, left: Edge, right: Edge, total: nat,
                   ghost l: Chain, ghost r: Chain, ghost lc0: Chain, ghost rc0: Chain,
                   ghost top: int, ghost first: int, ghost before: seq<Span>)
    requires left != right && l.list == list && first + total == l.bottom
    requires Filling(screen, left, right, l, r, lc0, rc0, top, first, first, before)
    modifies screen, left, right
    ensures screen.Faithful() && screen.spans == before + SpansFrom(l, r, top, first, total)
  {
    ghost var lc, rc, y := lc0, rc0, first;
    var i := total;
    while i > 0
      invariant y + i == first + total
      invariant Filling(screen, left, right, l, r, lc, rc, top, first, y, before)
    {
      lc, rc := FillLine(screen, list, left, right, l, r, lc, rc, top, first, y, before);
      i, y := i - 1, y + 1;
    }
    AllFilled(screen, left, right, l, r, lc, rc, top, first, y, before, total);
  }

  lemma AllFilled(screen: Screen, left: Edge, right: Edge, l: Chain, r: Chain, lc: Chain, rc: Chain,
                  top: int, first: int, y: int, before: seq<Span>, total: nat)
    requires Filling(screen, left, right, l, r, lc, rc, top, first, y, before) && y == first + total
    ensures screen.Faithful() && screen.spans == before + SpansFrom(l, r, top, first, total)
  {
    assert y - first == total;
  }

  // ---------------------------------------------------------------- preparing

  ghost predicate Range(list: Outline, lo: int, hi: int) {
    && (forall i :: 0 <= i < |list| ==> lo <= list[i].y <= hi)
    && (exists i :: 0 <= i < |list| && list[i].y == lo)
    && (exists i :: 0 <= i < |list| && list[i].y == hi)
  }

  lemma SameRange(list: Outline, lo: int, hi: int, lo': int, hi': int)
    requires Range(list, lo, hi) && Range(list, lo', hi')
    ensures lo == lo' && hi == hi'
  {
  }

  function Around(list: Outline, d: Dir, i: nat, k: nat): (j: nat)
    requires i < |list|
    ensures j < |list|
    decreases k
  {
    if k == 0 then i else Around(list, d, Neighbour(list, d, i), k - 1)
  }

  /** Either way round, every point of the outline is reached. */
  lemma {:induction false} Reaches(list: Outline, d: Dir, i: nat, j: nat) returns (k: nat)
    requires i < |list| && j < |list|
    ensures Around(list, d, i, k) == j
    decreases if d == Inc then (if i <= j then j - i else |list| + j - i)
              else (if j <= i then i - j else |list| + i - j)
  {
    if i == j {
      k := 0;
    } else {
      k := Reaches(list, d, Neighbour(list, d, i), j);
      k := k + 1;
    }
  }

  /** pg_expand_min_y: move along the top as long as it is flat. */
  method ExpandTop(e: Edge, list: Outline, lo: int)
    requires e.currIdx < |list| && list[e.currIdx].y == lo
    requires exists i :: 0 <= i < |list| && list[i].y != lo
    modifies e
    ensures e.dir == old(e.dir) && e.currIdx < |list|
    ensures list[e.currIdx].y == lo && list[Neighbour(list, e.dir, e.currIdx)].y != lo
  {
    ghost var j :| 0 <= j < |list| && list[j].y != lo;
    ghost var k := Reaches(list, e.dir, e.currIdx, j);
    var i := e.currIdx;
    while true
      invariant e.dir == old(e.dir) && e.currIdx < |list| && i == e.currIdx && list[i].y == lo
      invariant Around(list, e.dir, i, k) == j
      decreases k
    {
      i := Neighbour(list, e.dir, i);
      if list[i].y != lo {
        break;
      }
      e.currIdx := i;
      k := k - 1;
    }
  }

  /** pg_prepare. */
  method Prepare(list: Outline, left: Edge, right: Edge) returns (ok: bool, notFlat: bool, total: int, lo: int, hi: int)
    requires left != right
    modifies left, right
    ensures Range(list, lo, hi)
    ensures left.dir == Dec && right.dir == Inc
    ensures lo < hi ==>
              && left.currIdx < |list| && list[left.currIdx].y == lo && list[Neighbour(list, Dec, left.currIdx)].y != lo
              && right.currIdx < |list| && list[right.currIdx].y == lo
              && list[Neighbour(list, Inc, right.currIdx)].y != lo
              && notFlat == (list[left.currIdx].x == list[right.currIdx].x)
              && total == hi - lo - (if notFlat then 1 else 0)
    ensures ok <==> lo < hi && total > 0
  {
    right.dir, left.dir := Inc, Dec;
    hi, lo := list[0].y, list[0].y;
    left.currIdx := 0;
    notFlat := false;
    for i := 1 to |list|
      invariant left.currIdx < i && list[left.currIdx].y == lo && left.dir == Dec && right.dir == Inc
      invariant forall k :: 0 <= k < i ==> lo <= list[k].y <= hi
      invariant exists k :: 0 <= k < i && list[k].y == hi
    {
      if hi < list[i].y {
        hi := list[i].y;
      }
      if lo > list[i].y {
        left.currIdx := i;
        lo := list[i].y;
      }
    }
    total := hi - lo;
    if total == 0 {
      return false, notFlat, total, lo, hi;
    }
    right.currIdx := left.currIdx;
    ExpandTop(right, list, lo);
    ExpandTop(left, list, lo);
    notFlat := true;
    if list[left.currIdx].x != list[right.currIdx].x {
      notFlat := false;
    } else {
      total := total - 1;
      if total == 0 {
        return false, notFlat, total, lo, hi;
      }
    }
    return true, notFlat, total, lo, hi;
  }

  // ---------------------------------------------------------------- the area filled

  /** Some of the calls covers the pixel. */
  predicate OnCalls(calls: seq<HLine>, x: int, y: int) {
    exists i :: 0 <= i < |calls| && calls[i].y == y && calls[i].x <= x < calls[i].x + calls[i].len
  }

  lemma OnMoreCalls(a: seq<HLine>, b: seq<HLine>, x: int, y: int)
    ensures OnCalls(a + b, x, y) <==> OnCalls(a, x, y) || OnCalls(b, x, y)
  {
    var all := a + b;
    if OnCalls(a, x, y) {
      var i :| 0 <= i < |a| && a[i].y == y && a[i].x <= x < a[i].x + a[i].len;
      assert all[i] == a[i];
    }
    if OnCalls(b, x, y) {
      var i :| 0 <= i < |b| && b[i].y == y && b[i].x <= x < b[i].x + b[i].len;
      assert all[|a| + i] == b[i];
    }
  }

  lemma OneSpan(s: Span, w: nat, h: nat, x: int, y: int)
    ensures OnCalls(Clipped(s, w, h), x, y) <==> y == s.y && Covers(Clipped(s, w, h), x)
  {
    var calls := Clipped(s, w, h);
    if y == s.y && Covers(calls, x) {
      assert calls[0].y == y && calls[0].x <= x < calls[0].x + calls[0].len;
    }
  }

  lemma {:induction false} OnSpans(l: Chain, r: Chain, top: int, first: int, n: nat, w: nat, h: nat, x: int, y: int)
    requires Sides(l, r, top) && top <= first && first + n <= l.bottom
    ensures OnCalls(Lines(SpansFrom(l, r, top, first, n), w, h), x, y)
            <==> first <= y < first + n && Covers(Clipped(SpanAt(l, r, y), w, h), x)
    decreases n
  {
    if n > 0 {
      var rest, s := SpansFrom(l, r, top, first, n - 1), SpanAt(l, r, first + n - 1);
      OnSpans(l, r, top, first, n - 1, w, h, x, y);
      LinesStep(rest, s, w, h);
      OnMoreCalls(Lines(rest, w, h), Clipped(s, w, h), x, y);
      OneSpan(s, w, h, x, y);
    }
  }

  /** On the span's scan line the calls cover exactly the visible columns between its ends. */
  ghost predicate ExactOn(calls: seq<HLine>, s: Span, w: nat) {
    forall x :: 0 <= x < w ==> (OnCalls(calls, x, s.y) <==> Lower(s) <= x < Upper(s))
  }

  /** The case that pg_hline drops: exchanged edges, the smaller one off the left side. */
  predicate Lost(s: Span, w: nat, h: nat) {
    0 <= s.y < h && w > 0 && s.right < 0 < s.left
  }

  /** Every visible pixel of these lines is drawn exactly when it lies between the chains. */
  ghost predicate WholeArea(calls: seq<HLine>, l: Chain, r: Chain, top: int, first: int, n: nat, w: nat, h: nat)
    requires Sides(l, r, top) && top <= first && first + n <= l.bottom
  {
    forall y :: first <= y < first + n && 0 <= y < h ==> ExactOn(calls, SpanAt(l, r, y), w)
  }

  ghost predicate NoneLost(l: Chain, r: Chain, top: int, first: int, n: nat, w: nat, h: nat)
    requires Sides(l, r, top) && top <= first && first + n <= l.bottom
  {
    forall y :: first <= y < first + n ==> !Lost(SpanAt(l, r, y), w, h)
  }

  lemma LineExact(l: Chain, r: Chain, top: int, first: int, n: nat, w: nat, h: nat, y: int)
    requires Sides(l, r, top) && top <= first && first + n <= l.bottom && first <= y < first + n && 0 <= y < h
    ensures ExactOn(Lines(SpansFrom(l, r, top, first, n), w, h), SpanAt(l, r, y), w) <==> !Lost(SpanAt(l, r, y), w, h)
  {
    var calls, s := Lines(SpansFrom(l, r, top, first, n), w, h), SpanAt(l, r, y);
    forall x
      ensures OnCalls(calls, x, y) <==> Covers(Clipped(s, w, h), x)
    {
      OnSpans(l, r, top, first, n, w, h, x, y);
    }
    ClippingExact(s, w, h);
    if ExactOn(calls, s, w) {
      assert forall x :: 0 <= x < w ==> (OnCalls(calls, x, s.y) <==> Lower(s) <= x < Upper(s));
    }
  }

  /** The area comes out whole if and only if no scan line of it is lost. */
  lemma WholeIffNoneLost(l: Chain, r: Chain, top: int, first: int, n: nat, w: nat, h: nat)
    requires Sides(l, r, top) && top <= first && first + n <= l.bottom
    ensures WholeArea(Lines(SpansFrom(l, r, top, first, n), w, h), l, r, top, first, n, w, h)
            <==> NoneLost(l, r, top, first, n, w, h)
  {
    forall y | first <= y < first + n && 0 <= y < h
      ensures ExactOn(Lines(SpansFrom(l, r, top, first, n), w, h), SpanAt(l, r, y), w) <==> !Lost(SpanAt(l, r, y), w, h)
    {
      LineExact(l, r, top, first, n, w, h, y);
    }
  }

  /** From the ends of the top, both ways round the outline go strictly down to the bottom. */
  ghost predicate Fillable(list: Outline, lo: int, hi: int) {
    forall d, i :: 0 <= i < |list| && list[i].y == lo && list[Neighbour(list, d, i)].y != lo ==>
      Descends(list, d, i, hi, |list|)
  }

  /** pg_DrawPolygon: an outline of no height, or a single point one line high, draws nothing;
      any other that descends on both sides is filled line by line, without a gap. */
  method DrawPolygon(screen: Screen, list: Outline, ghost lo: int, ghost hi: int)
    returns (ghost l: Chain, ghost r: Chain, ghost total: nat)
    requires screen.Faithful() && Range(list, lo, hi) && Fillable(list, lo, hi)
    modifies screen
    ensures screen.Faithful()
    ensures lo < hi ==>
              && Sides(l, r, lo) && l.bottom == hi && l.list == list && l.d == Dec && r.d == Inc
              && total == hi - lo - (if list[l.start].x == list[r.start].x then 1 else 0)
    ensures total > 0 ==>
              && lo < hi && screen.spans == old(screen.spans) + SpansFrom(l, r, lo, hi - total, total)
              && var drawn := Lines(SpansFrom(l, r, lo, hi - total, total), screen.width, screen.height);
                 && screen.calls == old(screen.calls) + drawn
                 && (WholeArea(drawn, l, r, lo, hi - total, total, screen.width, screen.height)
                     <==> NoneLost(l, r, lo, hi - total, total, screen.width, screen.height))
    ensures total == 0 ==> screen.spans == old(screen.spans) && screen.calls == old(screen.calls)
  {
    var left, right := new Edge, new Edge;
    var ok, notFlat, lines, top, bottom := Prepare(list, left, right);
    SameRange(list, lo, hi, top, bottom);
    l, r, total := Chain(list, Dec, 0, hi, 0, 0, 0), Chain(list, Inc, 0, hi, 0, 0, 0), 0;
    if lo < hi {
      l := Chain(list, Dec, left.currIdx, hi, |list|, left.currIdx, |list|);
      r := Chain(list, Inc, right.currIdx, hi, |list|, right.currIdx, |list|);
      total := lines;
    }
    if !ok {
      return;
    }
    ghost var before := screen.spans;
    Exec(screen, list, left, right, notFlat, lines, l, r, lo);
    LinesAppend(before, SpansFrom(l, r, lo, hi - total, total), screen.width, screen.height);
    WholeIffNoneLost(l, r, lo, hi - total, total, screen.width, screen.height);
  }

  // ---------------------------------------------------------------- a triangle across the left border

  const TRIANGLE: Outline := [Point(0, 0), Point(-5, 10), Point(5, 10)]
  const TRIANGLE_LEFT := Chain(TRIANGLE, Dec, 0, 10, 3, 0, 3)
  const TRIANGLE_RIGHT := Chain(TRIANGLE, Inc, 0, 10, 3, 0, 3)

  /** A plain triangle whose points run clockwise loses lines when it reaches across the left
      border: on line 4 columns 0 and 1 lie between its edges and nothing is drawn. */
  lemma TriangleLosesLines(w: nat, h: nat)
    requires w > 0 && h > 4
    ensures Range(TRIANGLE, 0, 10) && Fillable(TRIANGLE, 0, 10) && Sides(TRIANGLE_LEFT, TRIANGLE_RIGHT, 0)
    ensures SpanAt(TRIANGLE_LEFT, TRIANGLE_RIGHT, 4) == Span(2, -2, 4) && Lost(Span(2, -2, 4), w, h)
    ensures !NoneLost(TRIANGLE_LEFT, TRIANGLE_RIGHT, 0, 1, 9, w, h)
    ensures forall x :: 0 <= x < w ==> !Covers(Clipped(Span(2, -2, 4), w, h), x)
  {
    TriangleDescends();
    TriangleEdges();
    assert Lost(SpanAt(TRIANGLE_LEFT, TRIANGLE_RIGHT, 4), w, h);
  }

  lemma TriangleDescends()
    ensures Range(TRIANGLE, 0, 10) && Fillable(TRIANGLE, 0, 10) && Sides(TRIANGLE_LEFT, TRIANGLE_RIGHT, 0)
  {
    assert TRIANGLE[0].y == 0 && TRIANGLE[1].y == 10;
    assert Neighbour(TRIANGLE, Inc, 0) == 1 && Neighbour(TRIANGLE, Dec, 0) == 2;
    assert Descends(TRIANGLE, Inc, 1, 10, 2) && Descends(TRIANGLE, Dec, 2, 10, 2);
  }

  lemma TriangleEdges()
    requires Sides(TRIANGLE_LEFT, TRIANGLE_RIGHT, 0)
    ensures SpanAt(TRIANGLE_LEFT, TRIANGLE_RIGHT, 4) == Span(2, -2, 4)
  {
    assert EdgeX(TRIANGLE[0], TRIANGLE[2], 4) == 2 && EdgeX(TRIANGLE[0], TRIANGLE[1], 4) == -2;
    assert ChainX(TRIANGLE, Dec, 0, 10, 3, 4) == 2;
    assert ChainX(TRIANGLE, Inc, 0, 10, 3, 4) == -2;
  }
}
