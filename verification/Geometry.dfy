/** The loops' own geometry, and how far the sweep's stepped fixed-point positions stray from it. */
module Geometry {
  import opened Common
  import opened Bezier
  import opened Winding
  import opened ActiveList
  import opened Spans
  import opened Coverage

  // ----- The edge's line against its stepped position -----

  /** Where an edge's line is at height y. */
  function TrueX(e: Edge, y: real): real
    requires e.y0 < e.y1
  {
    LineAt(e.x0, e.y0, Slope(e), y)
  }

  /** Sub-scanlines an edge has been stepped over, up to k. */
  function Steps(e: Edge, k: nat): nat {
    if k >= FirstScan(e.y0) then k - FirstScan(e.y0) else 0
  }

  /** How far its position may be off, in 1024ths of a pixel: half a unit at entry and half a unit for each step. */
  function Drift(e: Edge, k: nat): real { (1 + Steps(e, k)) as real / 2.0 }

  lemma RoundNear(r: real)
    ensures Abs(Round(r) as real - r) <= 0.5
  {
  }

  lemma StepNear(d: real)
    ensures Abs(StepOf(d) as real - FIX as real * d) <= 0.5
  {
    hide Round;
    RoundNear(FIX as real * d);
    RoundNear(FIX as real * -d);
  }

  function Error(at: int, exact: real): real { at as real - FIX as real * exact }

  /** What n steps add to the error. */
  function StepError(e: Edge, n: nat): real
    requires e.y0 < e.y1
  {
    n as real * Error(StepX(e), Slope(e))
  }

  /** The size of that. */
  function StepDrift(e: Edge, n: nat): real
    requires e.y0 < e.y1
  {
    n as real * Abs(Error(StepX(e), Slope(e)))
  }

  lemma StepErrorBound(e: Edge, n: nat)
    requires e.y0 < e.y1
    ensures Abs(StepError(e, n)) <= n as real / 2.0
  {
    StepNear(Slope(e));
    hide StepOf, Slope;
    Scaled(n as real, Error(StepX(e), Slope(e)));
  }

  /** The position's error is exactly its error at entry plus the step's error, once for each step. */
  lemma DriftIs(e: Edge, k: nat)
    requires e.y0 < e.y1 && k >= FirstScan(e.y0)
    ensures var f := FirstScan(e.y0);
            Error(XAt(e, k), TrueX(e, Scan(k))) ==
            Error(EntryX(e, f), TrueX(e, Scan(f))) + StepError(e, k - f)
  {
    hide EntryX, StepX, Slope, FirstScan;
    var f, s := FirstScan(e.y0), Slope(e);
    Stepped(EntryX(e, f), StepX(e), k - f);
    Straight(e.x0, s, Scan(f) - e.y0, (k - f) as real);
    assert Scan(k) - e.y0 == Scan(f) - e.y0 + (k - f) as real;
    Factor((k - f) as real, StepX(e) as real, s);
  }

  lemma Stepped(x: int, d: int, n: nat)
    ensures (x + d * n) as real == x as real + n as real * d as real
  {
    assert (d * n) as real == d as real * n as real;
  }

  lemma Straight(x0: real, s: real, y: real, n: real)
    ensures x0 + s * (y + n) == x0 + s * y + s * n
  {
  }

  lemma Factor(n: real, d: real, s: real)
    ensures n * (d - FIX as real * s) == n * d - FIX as real * (s * n)
  {
  }

  /** So it is half a unit at entry, and the step's own error once for each step: an edge whose step is exact does not drift. */
  lemma ErrorBound(e: Edge, k: nat)
    requires e.y0 < e.y1 && k >= FirstScan(e.y0)
    ensures Abs(Error(XAt(e, k), TrueX(e, Scan(k)))) <= 0.5 + StepDrift(e, Steps(e, k))
  {
    hide XAt, TrueX, EntryX, FirstScan, Error, Scan, StepX, Slope, StepError, StepDrift;
    var f := FirstScan(e.y0);
    DriftIs(e, k);
    EntryNear(e, f);
    StepErrorSize(e, k - f);
    Triangle(Error(EntryX(e, f), TrueX(e, Scan(f))), StepError(e, k - f));
  }

  lemma StepErrorSize(e: Edge, n: nat)
    requires e.y0 < e.y1
    ensures Abs(StepError(e, n)) == StepDrift(e, n)
  {
    hide Error, StepX, Slope;
    AbsTimes(n as real, Error(StepX(e), Slope(e)));
  }

  lemma AbsTimes(n: real, d: real)
    requires n >= 0.0
    ensures Abs(n * d) == n * Abs(d)
  {
    NotNegative(n, Abs(d));
    assert n * -d == -(n * d);
  }

  lemma VerticalSlope(e: Edge)
    requires e.y0 < e.y1 && e.x0 == e.x1
    ensures Slope(e) == 0.0 && StepX(e) == 0
  {
    Divided(0.0, e.y1 - e.y0, 0.0);
  }

  /** A vertical edge stays within half a unit, however long it is. */
  lemma VerticalStays(e: Edge, k: nat)
    requires e.y0 < e.y1 && e.x0 == e.x1 && k >= FirstScan(e.y0)
    ensures Abs(Error(XAt(e, k), TrueX(e, Scan(k)))) <= 0.5
  {
    VerticalSlope(e);
    hide Slope, XAt, TrueX, FirstScan, Scan, StepX, Steps;
    ErrorBound(e, k);
    assert Steps(e, k) as real * 0.0 == 0.0;
  }

  /** In any case it is within the drift of the true one. */
  lemma DriftBound(e: Edge, k: nat)
    requires e.y0 < e.y1 && k >= FirstScan(e.y0)
    ensures Abs(Error(XAt(e, k), TrueX(e, Scan(k)))) <= Drift(e, k)
  {
    hide XAt, TrueX, EntryX, FirstScan, Error, Scan, StepError;
    var f := FirstScan(e.y0);
    DriftIs(e, k);
    EntryNear(e, f);
    StepErrorBound(e, k - f);
    Triangle(Error(EntryX(e, f), TrueX(e, Scan(f))), StepError(e, k - f));
    assert Drift(e, k) == 0.5 + (k - f) as real / 2.0;
  }

  lemma Triangle(a: real, b: real)
    ensures Abs(a + b) <= Abs(a) + Abs(b)
  {
  }

  lemma EntryNear(e: Edge, f: nat)
    requires e.y0 < e.y1
    ensures Abs(Error(EntryX(e, f), TrueX(e, Scan(f)))) <= 0.5
  {
    hide EntryOf, LineAt, Slope, Scan;
    EntryOfNear(e.x0, e.y0, Slope(e), f);
  }

  lemma EntryOfNear(x0: real, y0: real, dxdy: real, f: nat)
    ensures Abs(EntryOf(x0, y0, dxdy, f) as real - FIX as real * LineAt(x0, y0, dxdy, Scan(f))) <= 0.5
  {
    hide Round, LineAt;
    RoundNear(FIX as real * LineAt(x0, y0, dxdy, Scan(f)));
  }

  lemma Scaled(n: real, d: real)
    requires n >= 0.0 && Abs(d) <= 0.5
    ensures Abs(n * d) <= n / 2.0
  {
    NotNegative(n, 0.5 - d);
    NotNegative(n, 0.5 + d);
    assert n * (0.5 - d) == n / 2.0 - n * d && n * (0.5 + d) == n / 2.0 + n * d;
  }

  // ----- The winding of the loops themselves -----

  /** Twice the signed area of the triangle a, b, (x, y): which side of the line from a to b the point is on. */
  function Side(a: Pt, b: Pt, y: real, x: real): real { (y - a.y) * (b.x - a.x) - (x - a.x) * (b.y - a.y) }

  /** A segment that crosses height y does so at x or left of it. */
  predicate MeetsUpTo(a: Pt, b: Pt, y: real, x: real) {
    if a.y < b.y then Side(a, b, y, x) <= 0.0 else Side(a, b, y, x) >= 0.0
  }

  /** A segment's share of the winding sum at (x, y): the drop of its level, or one, when it crosses at or left of x. */
  function SegmentWeight(rule: FillRule, a: Pt, b: Pt, y: real, x: real): int {
    if Level(a, y) != Level(b, y) && MeetsUpTo(a, b, y, x) then Weight(rule, Level(a, y) - Level(b, y)) else 0
  }

  function ChainWeight(rule: FillRule, pts: seq<Pt>, y: real, x: real): int {
    if |pts| < 2 then 0
    else ChainWeight(rule, pts[..|pts|-1], y, x) + SegmentWeight(rule, pts[|pts|-2], pts[|pts|-1], y, x)
  }

  function LoopWeight(rule: FillRule, pts: seq<Pt>, y: real, x: real): int {
    if pts == [] then 0 else SegmentWeight(rule, pts[|pts|-1], pts[0], y, x) + ChainWeight(rule, pts, y, x)
  }

  function LoopsWeight(rule: FillRule, loops: seq<seq<Pt>>, y: real, x: real): int {
    if loops == [] then 0
    else LoopsWeight(rule, loops[..|loops|-1], y, x) + LoopWeight(rule, loops[|loops|-1], y, x)
  }

  /** The point (x, y) of the plane lies inside the closed loops by the fill rule. */
  predicate InsideLoops(rule: FillRule, loops: seq<seq<Pt>>, y: real, x: real) {
    Inside(rule, LoopsWeight(rule, loops, y, x))
  }

  /** The same sum over edges, at their true positions. */
  function TrueSum(rule: FillRule, es: seq<Edge>, y: real, x: real): int {
    if es == [] then 0
    else
      var e := es[|es|-1];
      TrueSum(rule, es[..|es|-1], y, x) + if Crosses(e, y) && TrueX(e, y) <= x then Weight(rule, e.dir) else 0
  }

  lemma TrueSumNone(rule: FillRule, y: real, x: real)
    ensures TrueSum(rule, [], y, x) == 0
  {
  }

  lemma TrueSumOne(rule: FillRule, e: Edge, y: real, x: real)
    ensures TrueSum(rule, [e], y, x) == if Crosses(e, y) && TrueX(e, y) <= x then Weight(rule, e.dir) else 0
  {
    hide TrueX, Crosses, Weight;
    assert [e][..0] == [];
    TrueSumNone(rule, y, x);
  }

  lemma {:induction false} TrueSumConcat(rule: FillRule, a: seq<Edge>, b: seq<Edge>, y: real, x: real)
    ensures TrueSum(rule, a + b, y, x) == TrueSum(rule, a, y, x) + TrueSum(rule, b, y, x)
  {
    hide TrueX, Crosses, Weight;
    if b == [] {
      assert a + b == a;
    } else {
      assert (a + b)[..|a + b|-1] == a + b[..|b|-1];
      TrueSumConcat(rule, a, b[..|b|-1], y, x);
    }
  }

  /** The side does not depend on which end is named first, but for its sign. */
  lemma SideTurns(a: Pt, b: Pt, y: real, x: real)
    ensures Side(b, a, y, x) == -Side(a, b, y, x)
  {
    var u, v, w, z := y - a.y, x - a.x, b.x - a.x, b.y - a.y;
    assert y - b.y == u - z && x - b.x == v - w && a.x - b.x == -w && a.y - b.y == -z;
    Turned(u, v, w, z);
  }

  lemma Turned(u: real, v: real, w: real, z: real)
    ensures (u - z) * -w - (v - w) * -z == -(u * w - v * z)
  {
  }

  lemma Divided(n: real, d: real, q: real)
    requires d != 0.0 && q * d == n
    ensures n / d == q
  {
  }

  /** A point is at or right of an edge's line exactly when it is on that side of the segment from its upper to its lower end. */
  lemma LineSide(e: Edge, y: real, x: real)
    requires e.y0 < e.y1
    ensures TrueX(e, y) <= x <==> Side(Pt(e.x0, e.y0), Pt(e.x1, e.y1), y, x) <= 0.0
  {
    var s, h, w := Slope(e), e.y1 - e.y0, e.x1 - e.x0;
    assert s * h == w;
    var u, v := y - e.y0, x - e.x0;
    assert TrueX(e, y) == e.x0 + s * u;
    hide Slope;
    assert Side(Pt(e.x0, e.y0), Pt(e.x1, e.y1), y, x) == u * w - v * h;
    assert u * w - v * h == h * (s * u - v) by { Spread(u, s, h, v); }
    SignOfProduct(h, s * u - v);
  }

  lemma Spread(u: real, s: real, h: real, v: real)
    ensures u * (s * h) - v * h == h * (s * u - v)
  {
  }

  lemma SignOfProduct(h: real, d: real)
    requires h > 0.0
    ensures h * d <= 0.0 <==> d <= 0.0
  {
    if d > 0.0 {
      var q := h * d;
      assert q / h == d by { Divided(q, h, d); }
    } else {
      NotNegative(h, -d);
      assert h * -d == -(h * d);
    }
  }

  /** An edge's line goes through both its ends, and uniformly from one to the other. */
  lemma LineThroughEnds(e: Edge, t: real)
    requires e.y0 < e.y1
    ensures TrueX(e, e.y0) == e.x0 && TrueX(e, e.y1) == e.x1
    ensures TrueX(e, e.y0 + t * (e.y1 - e.y0)) == e.x0 + t * (e.x1 - e.x0)
  {
    var s, h := Slope(e), e.y1 - e.y0;
    assert s * h == e.x1 - e.x0;
    hide Slope;
    assert TrueX(e, e.y0) == e.x0 + s * 0.0;
    assert TrueX(e, e.y1) == e.x0 + s * h;
    assert TrueX(e, e.y0 + t * h) == e.x0 + s * (t * h);
    assert s * (t * h) == t * (s * h);
  }

  lemma SegmentTrueSum(rule: FillRule, a: Pt, b: Pt, y: real, x: real)
    ensures TrueSum(rule, SegmentEdges(a, b), y, x) == SegmentWeight(rule, a, b, y, x)
  {
    TrueSumNone(rule, y, x);
    if a.y != b.y {
      var e := SegmentEdges(a, b)[0];
      TrueSumOne(rule, e, y, x);
      LineSide(e, y, x);
      SideTurns(a, b, y, x);
      hide TrueSum, TrueX, Side;
      assert SegmentEdges(a, b) == [e];
    }
  }

  lemma {:induction false} ChainTrueSum(rule: FillRule, pts: seq<Pt>, y: real, x: real)
    ensures TrueSum(rule, ChainEdges(pts), y, x) == ChainWeight(rule, pts, y, x)
  {
    hide SegmentWeight, SegmentEdges, TrueSum;
    TrueSumNone(rule, y, x);
    if |pts| >= 2 {
      var a, b := pts[|pts|-2], pts[|pts|-1];
      ChainTrueSum(rule, pts[..|pts|-1], y, x);
      SegmentTrueSum(rule, a, b, y, x);
      TrueSumConcat(rule, ChainEdges(pts[..|pts|-1]), SegmentEdges(a, b), y, x);
    }
  }

  lemma LoopTrueSum(rule: FillRule, pts: seq<Pt>, y: real, x: real)
    ensures TrueSum(rule, LoopEdges(pts), y, x) == LoopWeight(rule, pts, y, x)
  {
    hide SegmentWeight, SegmentEdges, TrueSum, ChainWeight, ChainEdges;
    TrueSumNone(rule, y, x);
    if pts != [] {
      SegmentTrueSum(rule, pts[|pts|-1], pts[0], y, x);
      ChainTrueSum(rule, pts, y, x);
      TrueSumConcat(rule, SegmentEdges(pts[|pts|-1], pts[0]), ChainEdges(pts), y, x);
    }
  }

  /** Over the edges built from loops, the sum is the loops' winding sum. */
  lemma {:induction false} LoopsTrueSum(rule: FillRule, loops: seq<seq<Pt>>, y: real, x: real)
    ensures TrueSum(rule, ShapeEdges(loops), y, x) == LoopsWeight(rule, loops, y, x)
  {
    hide LoopWeight, LoopEdges, TrueSum;
    TrueSumNone(rule, y, x);
    if loops != [] {
      LoopsTrueSum(rule, loops[..|loops|-1], y, x);
      LoopTrueSum(rule, loops[|loops|-1], y, x);
      TrueSumConcat(rule, ShapeEdges(loops[..|loops|-1]), LoopEdges(loops[|loops|-1]), y, x);
    }
  }

  /** Placing an edge moves its line: x by tx, and y to sub-scanline units. */
  lemma PlacedLine(e: Edge, tx: real, ty: real, y: real)
    requires e.y0 < e.y1
    ensures var p := PlaceEdge(e, tx, ty);
            p.y0 < p.y1 && TrueX(p, y) == tx + TrueX(e, y / SUBSAMPLES as real - ty)
  {
    var p := PlaceEdge(e, tx, ty);
    var h, w := e.y1 - e.y0, e.x1 - e.x0;
    var s := Slope(e);
    assert s * h == w;
    assert p.y1 - p.y0 == 5.0 * h && p.x1 - p.x0 == w;
    assert Slope(p) == s / 5.0 by {
      assert s / 5.0 * (5.0 * h) == w;
      Divided(w, 5.0 * h, s / 5.0);
    }
    var t := y / 5.0 - ty - e.y0;
    assert y - p.y0 == 5.0 * t;
    assert s / 5.0 * (5.0 * t) == s * t;
  }

  lemma {:induction false} PlacedTrueSum(rule: FillRule, es: seq<Edge>, tx: real, ty: real, y: real, x: real)
    ensures TrueSum(rule, PlaceEdges(es, tx, ty), y, x) == TrueSum(rule, es, y / SUBSAMPLES as real - ty, x - tx)
  {
    hide TrueX, Weight;
    if es != [] {
      var e := es[|es|-1];
      PlacedTrueSum(rule, es[..|es|-1], tx, ty, y, x);
      assert PlaceEdges(es, tx, ty)[..|es|-1] == PlaceEdges(es[..|es|-1], tx, ty);
      assert Crosses(PlaceEdge(e, tx, ty), y) <==> Crosses(e, y / SUBSAMPLES as real - ty);
      if e.y0 < e.y1 { PlacedLine(e, tx, ty, y); }
    }
  }

  lemma TrueSumRemove(rule: FillRule, es: seq<Edge>, i: nat, y: real, x: real)
    requires i < |es|
    ensures TrueSum(rule, es, y, x) ==
            TrueSum(rule, es[..i] + es[i+1..], y, x) + TrueSum(rule, [es[i]], y, x)
  {
    hide TrueSum;
    assert es == es[..i] + ([es[i]] + es[i+1..]);
    TrueSumConcat(rule, es[..i], [es[i]] + es[i+1..], y, x);
    TrueSumConcat(rule, [es[i]], es[i+1..], y, x);
    TrueSumConcat(rule, es[..i], es[i+1..], y, x);
  }

  lemma {:induction false} TrueSumPermuted(rule: FillRule, a: seq<Edge>, b: seq<Edge>, y: real, x: real)
    requires multiset(a) == multiset(b)
    ensures TrueSum(rule, a, y, x) == TrueSum(rule, b, y, x)
    decreases |a|
  {
    hide TrueSum;
    if a == [] {
      assert |multiset(b)| == |b|;
      assert b == a;
    } else {
      var last := |a| - 1;
      assert a[last] in multiset(b);
      var i :| 0 <= i < |b| && b[i] == a[last];
      MultisetRemove(b, i);
      MultisetRemove(a, last);
      assert a[..last] + a[last+1..] == a[..last];
      TrueSumRemove(rule, b, i, y, x);
      TrueSumRemove(rule, a, last, y, x);
      TrueSumPermuted(rule, a[..last], b[..i] + b[i+1..], y, x);
    }
  }

  /** The loops' winding sum at x 1024ths of a pixel into the middle of the k-th fifth of a row, as a point of their plane. */
  function WeightAt(rule: FillRule, loops: seq<seq<Pt>>, tx: real, ty: real, k: nat, x: int): int {
    LoopsWeight(rule, loops, (k as real + 0.5) / 5.0 - ty, x as real / 1024.0 - tx)
  }

  /** That point lies inside them. */
  predicate InsideAt(rule: FillRule, loops: seq<seq<Pt>>, tx: real, ty: real, k: nat, x: int) {
    InsideLoops(rule, loops, (k as real + 0.5) / 5.0 - ty, x as real / 1024.0 - tx)
  }

  lemma InsideAtIs(rule: FillRule, loops: seq<seq<Pt>>, tx: real, ty: real, k: nat, x: int)
    ensures InsideAt(rule, loops, tx, ty, k, x) <==> Inside(rule, WeightAt(rule, loops, tx, ty, k, x))
  {
    hide LoopsWeight;
  }

  lemma WeightAtIsTrueSum(rule: FillRule, loops: seq<seq<Pt>>, tx: real, ty: real, sorted: seq<Edge>, k: nat, x: int)
    requires multiset(sorted) == multiset(PlaceEdges(ShapeEdges(loops), tx, ty))
    ensures WeightAt(rule, loops, tx, ty, k, x) == TrueSum(rule, sorted, Scan(k), x as real / FIX as real)
  {
    hide TrueSum, LoopsWeight, WeightAt, ShapeEdges, PlaceEdges, Scan;
    var es, at := ShapeEdges(loops), x as real / FIX as real;
    TrueSumPermuted(rule, sorted, PlaceEdges(es, tx, ty), Scan(k), at);
    PlacedTrueSum(rule, es, tx, ty, Scan(k), at);
    LoopsTrueSum(rule, loops, Scan(k) / SUBSAMPLES as real - ty, at - tx);
    WeightAtIs(rule, loops, tx, ty, k, x);
  }

  lemma WeightAtIs(rule: FillRule, loops: seq<seq<Pt>>, tx: real, ty: real, k: nat, x: int)
    ensures WeightAt(rule, loops, tx, ty, k, x)
         == LoopsWeight(rule, loops, Scan(k) / SUBSAMPLES as real - ty, x as real / FIX as real - tx)
  {
    hide LoopsWeight;
  }

  // ----- Where the sweep and the geometry agree -----

  predicate AtOrLeft(e: Edge, k: nat, x: int)
    requires e.y0 < e.y1
  {
    XAt(e, k) <= x
  }

  predicate TrulyAtOrLeft(e: Edge, k: nat, x: int)
    requires e.y0 < e.y1
  {
    TrueX(e, Scan(k)) <= x as real / FIX as real
  }

  /** Rounding has carried a crossing edge from one side of position x to the other. */
  predicate Carried(e: Edge, k: nat, x: int) {
    Crosses(e, Scan(k)) && AtOrLeft(e, k, x) != TrulyAtOrLeft(e, k, x)
  }

  /** What that changes in the winding sum at x. */
  function CarriedSum(rule: FillRule, edges: seq<Edge>, n: nat, k: nat, x: int): int
    requires n <= |edges| && AllWellFormed(edges)
  {
    if n == 0 then 0
    else
      var e := edges[n-1];
      CarriedSum(rule, edges, n - 1, k, x)
      + if Carried(e, k, x) then (if AtOrLeft(e, k, x) then Weight(rule, e.dir) else -Weight(rule, e.dir)) else 0
  }

  /** Number of edges carried across x. */
  function CarriedCount(edges: seq<Edge>, n: nat, k: nat, x: int): nat
    requires n <= |edges|
  {
    if n == 0 then 0 else CarriedCount(edges, n - 1, k, x) + if Carried(edges[n-1], k, x) then 1 else 0
  }

  /** The sweep's sum is the true sum and what was carried, for every list of edges and every position. */
  lemma {:induction false} EdgeSumIsTrueSum(rule: FillRule, edges: seq<Edge>, n: nat, k: nat, x: int)
    requires AllWellFormed(edges) && n <= |edges|
    ensures EdgeSum(rule, edges, n, k, x)
         == TrueSum(rule, edges[..n], Scan(k), x as real / FIX as real) + CarriedSum(rule, edges, n, k, x)
  {
    hide XAt, TrueX, Weight, Scan;
    if n > 0 {
      assert edges[..n][..n-1] == edges[..n-1];
      EdgeSumIsTrueSum(rule, edges, n - 1, k, x);
    }
  }

  /** The exact inside of the sweep: the fill rule on the loops' own winding sum and what rounding carried across x. */
  lemma InsideIsExact(rule: FillRule, loops: seq<seq<Pt>>, tx: real, ty: real, sorted: seq<Edge>, k: nat, x: int)
    requires AllWellFormed(sorted) && multiset(sorted) == multiset(PlaceEdges(ShapeEdges(loops), tx, ty))
    ensures InsideShape(rule, sorted, k, x) <==>
            Inside(rule, WeightAt(rule, loops, tx, ty, k, x) + CarriedSum(rule, sorted, |sorted|, k, x))
  {
    hide Inside, EdgeSum, TrueSum, CarriedSum, WeightAt, ShapeEdges, PlaceEdges, AllWellFormed;
    EdgeSumIsTrueSum(rule, sorted, |sorted|, k, x);
    assert sorted[..|sorted|] == sorted;
    WeightAtIsTrueSum(rule, loops, tx, ty, sorted, k, x);
  }

  lemma {:induction false} CarriedParity(edges: seq<Edge>, n: nat, k: nat, x: int)
    requires AllWellFormed(edges) && n <= |edges|
    ensures CarriedSum(EvenOdd, edges, n, k, x) % 2 == CarriedCount(edges, n, k, x) % 2
  {
    hide AtOrLeft, TrulyAtOrLeft, Carried;
    if n > 0 { CarriedParity(edges, n - 1, k, x); }
  }

  lemma {:induction false} NothingCarried(rule: FillRule, edges: seq<Edge>, n: nat, k: nat, x: int)
    requires AllWellFormed(edges) && n <= |edges|
    ensures CarriedCount(edges, n, k, x) == 0 ==> CarriedSum(rule, edges, n, k, x) == 0
  {
    hide AtOrLeft, TrulyAtOrLeft, Carried;
    if n > 0 { NothingCarried(rule, edges, n - 1, k, x); }
  }

  /** By the even-odd rule sweep and loops agree at a position if and only if an even number of edges is carried across it. */
  lemma EvenOddAgreesIff(loops: seq<seq<Pt>>, tx: real, ty: real, sorted: seq<Edge>, k: nat, x: int)
    requires AllWellFormed(sorted) && multiset(sorted) == multiset(PlaceEdges(ShapeEdges(loops), tx, ty))
    ensures (InsideShape(EvenOdd, sorted, k, x) <==> InsideAt(EvenOdd, loops, tx, ty, k, x))
       <==> CarriedCount(sorted, |sorted|, k, x) % 2 == 0
  {
    hide InsideShape, WeightAt, CarriedSum, CarriedCount, ShapeEdges, PlaceEdges, AllWellFormed;
    InsideIsExact(EvenOdd, loops, tx, ty, sorted, k, x);
    CarriedParity(sorted, |sorted|, k, x);
    InsideAtIs(EvenOdd, loops, tx, ty, k, x);
    hide InsideAt;
    SumParity(WeightAt(EvenOdd, loops, tx, ty, k, x), CarriedSum(EvenOdd, sorted, |sorted|, k, x));
  }

  lemma SumParity(a: int, b: int)
    ensures ((a + b) % 2 != 0 <==> a % 2 != 0) <==> b % 2 == 0
  {
  }

  /** By the non-zero rule they agree if and only if what is carried is nothing, or neither is nor leaves a winding of zero. */
  lemma NonZeroAgreesIff(loops: seq<seq<Pt>>, tx: real, ty: real, sorted: seq<Edge>, k: nat, x: int)
    requires AllWellFormed(sorted) && multiset(sorted) == multiset(PlaceEdges(ShapeEdges(loops), tx, ty))
    ensures var carried, winding := CarriedSum(NonZero, sorted, |sorted|, k, x), WeightAt(NonZero, loops, tx, ty, k, x);
            (InsideShape(NonZero, sorted, k, x) <==> InsideAt(NonZero, loops, tx, ty, k, x))
            <==> carried == 0 || (winding != 0 && winding + carried != 0)
  {
    hide InsideShape, WeightAt, CarriedSum, ShapeEdges, PlaceEdges, AllWellFormed;
    InsideIsExact(NonZero, loops, tx, ty, sorted, k, x);
    InsideAtIs(NonZero, loops, tx, ty, k, x);
  }

  /** Where no edge is carried across a position, the sweep's inside is that of the loops, by either rule. */
  lemma InsideIsTrue(rule: FillRule, loops: seq<seq<Pt>>, tx: real, ty: real, sorted: seq<Edge>, k: nat, x: int)
    requires AllWellFormed(sorted) && multiset(sorted) == multiset(PlaceEdges(ShapeEdges(loops), tx, ty))
    requires CarriedCount(sorted, |sorted|, k, x) == 0
    ensures InsideShape(rule, sorted, k, x) <==> InsideAt(rule, loops, tx, ty, k, x)
  {
    hide InsideShape, WeightAt, CarriedSum, CarriedCount, ShapeEdges, PlaceEdges, AllWellFormed;
    InsideIsExact(rule, loops, tx, ty, sorted, k, x);
    NothingCarried(rule, sorted, |sorted|, k, x);
    InsideAtIs(rule, loops, tx, ty, k, x);
  }

  /** An edge is carried only across positions between its own and its true one. */
  lemma CarriedIsBetween(e: Edge, k: nat, x: int)
    requires Carried(e, k, x)
    ensures (XAt(e, k) <= x && x as real < FIX as real * TrueX(e, Scan(k)))
            || (FIX as real * TrueX(e, Scan(k)) <= x as real && x < XAt(e, k))
  {
    hide XAt, TrueX;
  }

  // ----- The measure of a pixel -----

  /** Fixed-point positions of pixel p on sub-scanline k that lie inside the loops. */
  ghost function TruePixel(rule: FillRule, loops: seq<seq<Pt>>, tx: real, ty: real, k: nat, p: int): nat {
    InsideCount(x => InsideAt(rule, loops, tx, ty, k, x), 1024 * p, 1024 * p + 1024)
  }

  /** Positions of the pixel across which some edge is carried. */
  ghost function CarriedPixel(edges: seq<Edge>, k: nat, p: int): nat {
    InsideCount(x => CarriedCount(edges, |edges|, k, x) != 0, p * FIX, p * FIX + FIX)
  }

  lemma {:induction false} CountsDiffer(f: int -> bool, g: int -> bool, blur: int -> bool, lo: int, hi: int)
    requires forall x: int :: !blur(x) ==> (f(x) <==> g(x))
    ensures InsideCount(f, lo, hi) <= InsideCount(g, lo, hi) + InsideCount(blur, lo, hi)
    ensures InsideCount(g, lo, hi) <= InsideCount(f, lo, hi) + InsideCount(blur, lo, hi)
    decreases hi - lo
  {
    if lo < hi { CountsDiffer(f, g, blur, lo, hi - 1); }
  }

  /** The sweep's measure of a pixel is the loops' own, but for the positions across which an edge is carried. */
  lemma PixelIsTrue(rule: FillRule, loops: seq<seq<Pt>>, tx: real, ty: real, sorted: seq<Edge>, k: nat, p: int)
    requires AllWellFormed(sorted) && multiset(sorted) == multiset(PlaceEdges(ShapeEdges(loops), tx, ty))
    ensures InsidePixel(sorted, rule, k, p) <= TruePixel(rule, loops, tx, ty, k, p) + CarriedPixel(sorted, k, p)
    ensures TruePixel(rule, loops, tx, ty, k, p) <= InsidePixel(sorted, rule, k, p) + CarriedPixel(sorted, k, p)
  {
    hide InsideShape, InsideAt, CarriedCount, ShapeEdges, PlaceEdges, AllWellFormed, InsideCount;
    forall x: int | CarriedCount(sorted, |sorted|, k, x) == 0
      ensures InsideShape(rule, sorted, k, x) <==> InsideAt(rule, loops, tx, ty, k, x)
    {
      InsideIsTrue(rule, loops, tx, ty, sorted, k, x);
    }
    CountsDiffer(x => InsideShape(rule, sorted, k, x), x => InsideAt(rule, loops, tx, ty, k, x),
                 x => CarriedCount(sorted, |sorted|, k, x) != 0, p * FIX, p * FIX + FIX);
  }

  /** The error of a crossing edge's position on sub-scanline k, in 1024ths of a pixel. */
  function OffBy(e: Edge, k: nat): real { if Crosses(e, Scan(k)) then Abs(Error(XAt(e, k), TrueX(e, Scan(k)))) else 0.0 }

  /** It is at most half a unit, and half a unit for each sub-scanline that the edge has come down from its upper end y0. */
  lemma OffBySmall(e: Edge, k: nat)
    requires Crosses(e, Scan(k))
    ensures 0.0 <= OffBy(e, k) <= 0.5 + (k as real + 0.5 - e.y0) / 2.0
  {
    FirstScanIsFirst(e.y0, k);
    StepsAre(e.y0, k);
    hide XAt, TrueX, Error, FirstScan, Steps;
    DriftBound(e, k);
    AbsSign(Error(XAt(e, k), TrueX(e, Scan(k))));
    assert Drift(e, k) == 0.5 + Steps(e, k) as real / 2.0;
    StepsOf(e, k);
  }

  lemma StepsAre(y0: real, k: nat)
    requires k >= FirstScan(y0)
    ensures (k - FirstScan(y0)) as real <= k as real + 0.5 - y0
  {
  }

  lemma StepsOf(e: Edge, k: nat)
    requires k >= FirstScan(e.y0)
    ensures Steps(e, k) == k - FirstScan(e.y0)
  {
  }

  lemma AbsSign(r: real)
    ensures Abs(r) >= 0.0
  {
  }

  /** For each crossing edge its error, and one. */
  function CarryBound(edges: seq<Edge>, n: nat, k: nat): real
    requires n <= |edges|
  {
    if n == 0 then 0.0
    else CarryBound(edges, n - 1, k) + if Crosses(edges[n-1], Scan(k)) then OffBy(edges[n-1], k) + 1.0 else 0.0
  }

  /** Where no edge crosses it is nothing; so with OffBySmall it is at most the crossing edges' own shares. */
  lemma {:induction false} CarryBoundNone(edges: seq<Edge>, n: nat, k: nat)
    requires n <= |edges| && forall j :: 0 <= j < n ==> !Crosses(edges[j], Scan(k))
    ensures CarryBound(edges, n, k) == 0.0
  {
    if n > 0 { CarryBoundNone(edges, n - 1, k); }
  }

  lemma {:induction false} CountWithin(f: int -> bool, lo: int, hi: int, a: int, b: int)
    requires a <= b && forall x: int :: f(x) ==> a <= x < b
    ensures InsideCount(f, lo, hi) <= b - a
    ensures hi <= a ==> InsideCount(f, lo, hi) == 0
    ensures a <= hi <= b ==> InsideCount(f, lo, hi) <= hi - a
    decreases hi - lo
  {
    if lo < hi { CountWithin(f, lo, hi - 1, a, b); }
  }

  lemma {:induction false} CountUnion(f: int -> bool, g: int -> bool, h: int -> bool, lo: int, hi: int)
    requires forall x: int :: f(x) ==> g(x) || h(x)
    ensures InsideCount(f, lo, hi) <= InsideCount(g, lo, hi) + InsideCount(h, lo, hi)
    decreases hi - lo
  {
    if lo < hi { CountUnion(f, g, h, lo, hi - 1); }
  }

  /** An edge is carried across fewer positions than its error and one; so across none when its position is exact. */
  lemma CarriedFew(e: Edge, k: nat, lo: int, hi: int)
    requires Crosses(e, Scan(k))
    ensures InsideCount(x => Carried(e, k, x), lo, hi) as real < OffBy(e, k) + 1.0
  {
    hide XAt, TrueX, Carried;
    var at, c := XAt(e, k), FIX as real * TrueX(e, Scan(k));
    var up := -((-c).Floor);
    assert up as real - 1.0 < c <= up as real;
    forall x: int | Carried(e, k, x)
      ensures if at <= up then at <= x < up else up <= x < at
    {
      CarriedIsBetween(e, k, x);
    }
    CountWithin(x => Carried(e, k, x), lo, hi, if at <= up then at else up, if at <= up then up else at);
  }

  lemma NeverCarried(e: Edge, k: nat, lo: int, hi: int)
    requires !Crosses(e, Scan(k))
    ensures InsideCount(x => Carried(e, k, x), lo, hi) == 0
  {
    CountWithin(x => Carried(e, k, x), lo, hi, 0, 0);
  }

  /** So the positions across which some edge is carried are at most the crossing edges' errors, and one for each edge. */
  lemma {:induction false} CarriedIsBounded(edges: seq<Edge>, n: nat, k: nat, lo: int, hi: int)
    requires n <= |edges|
    ensures InsideCount(x => CarriedCount(edges, n, k, x) != 0, lo, hi) as real <= CarryBound(edges, n, k)
  {
    hide Carried, Crosses, OffBy;
    if n == 0 {
      CountWithin(x => CarriedCount(edges, n, k, x) != 0, lo, hi, 0, 0);
    } else {
      var e := edges[n-1];
      CarriedIsBounded(edges, n - 1, k, lo, hi);
      hide InsideCount;
      CountUnion(x => CarriedCount(edges, n, k, x) != 0, x => CarriedCount(edges, n - 1, k, x) != 0, x => Carried(e, k, x), lo, hi);
      if Crosses(e, Scan(k)) {
        CarriedFew(e, k, lo, hi);
      } else {
        NeverCarried(e, k, lo, hi);
      }
    }
  }

  // ----- Rows -----

  ghost function TrueTotal(rule: FillRule, loops: seq<seq<Pt>>, tx: real, ty: real, k0: nat, n: nat, p: int): nat {
    if n == 0 then 0
    else TrueTotal(rule, loops, tx, ty, k0, n - 1, p) + TruePixel(rule, loops, tx, ty, k0 + n - 1, p)
  }

  ghost function CarriedTotal(edges: seq<Edge>, k0: nat, n: nat, p: int): nat {
    if n == 0 then 0 else CarriedTotal(edges, k0, n - 1, p) + CarriedPixel(edges, k0 + n - 1, p)
  }

  /** The same over n sub-scanlines. */
  lemma {:induction false} TotalIsTrue(rule: FillRule, loops: seq<seq<Pt>>, tx: real, ty: real, sorted: seq<Edge>, k0: nat, n: nat, p: int)
    requires AllWellFormed(sorted) && multiset(sorted) == multiset(PlaceEdges(ShapeEdges(loops), tx, ty))
    ensures InsideTotal(sorted, rule, k0, n, p) <= TrueTotal(rule, loops, tx, ty, k0, n, p) + CarriedTotal(sorted, k0, n, p)
    ensures TrueTotal(rule, loops, tx, ty, k0, n, p) <= InsideTotal(sorted, rule, k0, n, p) + CarriedTotal(sorted, k0, n, p)
  {
    hide InsidePixel, TruePixel, CarriedPixel, AllWellFormed, ShapeEdges, PlaceEdges;
    if n > 0 {
      TotalIsTrue(rule, loops, tx, ty, sorted, k0, n - 1, p);
      PixelIsTrue(rule, loops, tx, ty, sorted, k0 + n - 1, p);
    }
  }

  function CarryBoundTotal(edges: seq<Edge>, k0: nat, n: nat): real {
    if n == 0 then 0.0 else CarryBoundTotal(edges, k0, n - 1) + CarryBound(edges, |edges|, k0 + n - 1)
  }

  lemma {:induction false} TotalCarriedIsBounded(edges: seq<Edge>, k0: nat, n: nat, p: int)
    ensures CarriedTotal(edges, k0, n, p) as real <= CarryBoundTotal(edges, k0, n)
  {
    hide CarryBound, CarriedCount, InsideCount;
    if n > 0 {
      TotalCarriedIsBounded(edges, k0, n - 1, p);
      CarriedIsBounded(edges, |edges|, k0 + n - 1, p * FIX, p * FIX + FIX);
    }
  }

  // ----- A shape the sweep does not see -----

  /** A triangle over two pixels wide at its foot and a thousand high. */
  const SLIVER: seq<Pt> := [Pt(0.0, 0.0), Pt(2.4, 1000.0), Pt(0.0, 1000.0)]

  function SliverEdges(): seq<Edge> { [Edge(0.0, 0.0, 0.0, 5000.0, -1), Edge(0.0, 0.0, 2.4, 5000.0, 1)] }

  lemma SliverPlaced()
    ensures PlaceEdges(ShapeEdges([SLIVER]), 0.0, 0.0) == SliverEdges() && AllWellFormed(SliverEdges())
  {
    var a, b, c := SLIVER[0], SLIVER[1], SLIVER[2];
    assert SLIVER[..2] == [a, b] && SLIVER[..2][..1] == [a];
    assert ChainEdges([a]) == [];
    assert SegmentEdges(a, b) == [Edge(0.0, 0.0, 2.4, 1000.0, 1)] && SegmentEdges(b, c) == [];
    assert ChainEdges([a, b]) == [] + SegmentEdges(a, b);
    assert ChainEdges(SLIVER) == SegmentEdges(a, b) + [];
    assert SegmentEdges(c, a) == [Edge(0.0, 0.0, 0.0, 1000.0, -1)];
    assert [SLIVER][..0] == [];
    assert ShapeEdges([SLIVER]) == [] + LoopEdges(SLIVER);
    assert ShapeEdges([SLIVER]) == [Edge(0.0, 0.0, 0.0, 1000.0, -1), Edge(0.0, 0.0, 2.4, 1000.0, 1)];
  }

  lemma RoundsToZero(r: real)
    requires -0.5 < r < 0.5
    ensures Round(r) == 0
  {
  }

  lemma SliverStands(k: nat)
    ensures XAt(SliverEdges()[0], k) == 0 && XAt(SliverEdges()[1], k) == 0
  {
    forall i | 0 <= i < 2
      ensures XAt(SliverEdges()[i], k) == 0
    {
      var e := SliverEdges()[i];
      assert Slope(e) == if i == 0 then 0.0 else 0.00048;
      hide Round, Slope;
      RoundsToZero(FIX as real * Slope(e));
      RoundsToZero(FIX as real * TrueX(e, Scan(0)));
      Standing(e, k);
    }
  }

  lemma Standing(e: Edge, k: nat)
    requires e.y0 == 0.0 < e.y1 && Slope(e) >= 0.0
    requires Round(FIX as real * Slope(e)) == 0 && Round(FIX as real * TrueX(e, Scan(0))) == 0
    ensures XAt(e, k) == 0
  {
    hide Round, Slope;
    assert FirstScan(e.y0) == 0 && StepX(e) == 0 && EntryX(e, 0) == 0;
    assert 0 * k == 0;
  }

  /** Its slope rounds to no step at all: the sweep sees nothing of it anywhere, though near its foot it covers whole pixels. */
  lemma SliverVanishes(rule: FillRule, k: nat, x: int)
    ensures AllWellFormed(SliverEdges()) && SliverEdges() == PlaceEdges(ShapeEdges([SLIVER]), 0.0, 0.0)
    ensures !InsideShape(rule, SliverEdges(), k, x)
    ensures k < 5000 && 0 <= x && x as real / 1024.0 < 0.00048 * Scan(k) ==> InsideAt(rule, [SLIVER], 0.0, 0.0, k, x)
  {
    SliverPlaced();
    SliverStands(k);
    SliverSums(rule, k, x);
    var es := SliverEdges();
    WeightAtIsTrueSum(rule, [SLIVER], 0.0, 0.0, es, k, x);
    InsideAtIs(rule, [SLIVER], 0.0, 0.0, k, x);
  }

  lemma SliverSums(rule: FillRule, k: nat, x: int)
    requires AllWellFormed(SliverEdges()) && XAt(SliverEdges()[0], k) == 0 && XAt(SliverEdges()[1], k) == 0
    ensures !Inside(rule, EdgeSum(rule, SliverEdges(), 2, k, x))
    ensures k < 5000 && 0 <= x && x as real / 1024.0 < 0.00048 * Scan(k) ==>
              Inside(rule, TrueSum(rule, SliverEdges(), Scan(k), x as real / FIX as real))
  {
    hide XAt, Slope, TrueSum;
    var es := SliverEdges();
    assert EdgeSum(rule, es, 1, k, x) == EdgeSum(rule, es, 0, k, x) + (if Crosses(es[0], Scan(k)) && 0 <= x then Weight(rule, -1) else 0);
    assert EdgeSum(rule, es, 2, k, x) == EdgeSum(rule, es, 1, k, x) + (if Crosses(es[1], Scan(k)) && 0 <= x then Weight(rule, 1) else 0);
    if k < 5000 { SliverTrueSum(rule, Scan(k), x as real / FIX as real); }
  }

  lemma SliverTrueSum(rule: FillRule, y: real, x: real)
    requires 0.0 <= y < 5000.0
    ensures 0.0 <= x < 0.00048 * y ==> Inside(rule, TrueSum(rule, SliverEdges(), y, x))
  {
    var es := SliverEdges();
    assert es == [es[0]] + [es[1]];
    TrueSumOne(rule, es[0], y, x);
    TrueSumOne(rule, es[1], y, x);
    TrueSumConcat(rule, [es[0]], [es[1]], y, x);
    hide TrueSum;
    assert Slope(es[0]) == 0.0 && Slope(es[1]) == 0.00048;
    hide Slope;
    assert TrueX(es[0], y) == 0.0 && TrueX(es[1], y) == 0.00048 * y;
  }
}
