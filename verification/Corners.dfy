/** What flat means, and the corners that flattening leaves: of straight segments all, of a curve its end when that is flat. */
module Corners {
  import opened Common
  import opened Bezier
  import opened Paths
  import opened Flatten
  import opened Flatness
  import opened Shapes

  function DistanceSquared(a: Pt, b: Pt): real { (b.x - a.x) * (b.x - a.x) + (b.y - a.y) * (b.y - a.y) }

  // ----- Merging -----

  /** A list of corners taking up one more: one whose squared distance from the last is below near is merged into it. */
  ghost function Taken(qs: seq<Pt>, q: Pt, near: real): seq<Pt> {
    if qs != [] && DistanceSquared(qs[|qs|-1], q) < near then qs else qs + [q]
  }

  ghost function TakenAll(qs: seq<Pt>, near: real): seq<Pt> {
    if qs == [] then [] else Taken(TakenAll(qs[..|qs|-1], near), qs[|qs|-1], near)
  }

  /** Adding a point takes up its position, and leaves its flags on the last point. */
  lemma AddPointTakes(pts: seq<PathPoint>, p: Pt, flags: set<PointFlag>, distTol: real)
    ensures var out := AddPoint(pts, p, flags, distTol);
            && Positions(out) == Taken(Positions(pts), p, distTol * distTol)
            && out[|out|-1].flags == flags + if |out| == |pts| then pts[|pts|-1].flags else {}
  {
  }

  // ----- Flat -----

  function Along(a: Pt, b: Pt, u: real): Pt { Pt(a.x + u * (b.x - a.x), a.y + u * (b.y - a.y)) }

  /** f is the foot of the perpendicular from p, h long, on a line in the direction from a to b. */
  predicate Foot(f: Pt, p: Pt, a: Pt, b: Pt, h: real) {
    (p.x - f.x) * (b.x - a.x) + (p.y - f.y) * (b.y - a.y) == 0.0 && h * h == DistanceSquared(f, p)
  }

  /** h is the distance of p from the line through a and b. */
  ghost predicate LineDistance(h: real, p: Pt, a: Pt, b: Pt) {
    h >= 0.0 && exists u: real :: Foot(Along(a, b, u), p, a, b, h)
  }

  function Det(ex: real, ey: real, dx: real, dy: real): real { ex * dy - ey * dx }

  function Dot(ex: real, ey: real, dx: real, dy: real): real { ex * dx + ey * dy }

  lemma Lagrange(ex: real, ey: real, dx: real, dy: real)
    ensures Squared(Det(ex, ey, dx, dy)) + Squared(Dot(ex, ey, dx, dy)) == Dot(ex, ey, ex, ey) * Dot(dx, dy, dx, dy)
  {
  }

  lemma CrossFromFoot(c: Cubic, p: Pt, u: real)
    ensures var f := Along(c.p1, c.p4, u);
            Cross(c, p) == Det(p.x - f.x, p.y - f.y, ChordX(c), ChordY(c))
  {
  }

  lemma CrossIsDistance(c: Cubic, p: Pt, h: real)
    requires LineDistance(h, p, c.p1, c.p4)
    ensures Squared(Cross(c, p)) == Squared(h) * ChordSquared(c)
  {
    hide Cross, Along;
    var u :| Foot(Along(c.p1, c.p4, u), p, c.p1, c.p4, h);
    var f := Along(c.p1, c.p4, u);
    CrossFromFoot(c, p, u);
    Lagrange(p.x - f.x, p.y - f.y, ChordX(c), ChordY(c));
    hide Det;
  }

  lemma Less(a: real, b: real)
    requires 0.0 <= a < b
    ensures Squared(a) < Squared(b)
  {
    Positive(b - a, b + a);
    assert (b - a) * (b + a) == b * b - a * a;
  }

  lemma RootsAgree(a: real, b: real)
    requires a >= 0.0 && b >= 0.0 && Squared(a) == Squared(b)
    ensures a == b
  {
    hide Squared;
    if a < b { Less(a, b); } else if b < a { Less(b, a); }
  }

  /** (|C2| + |C3|)^2 is L (h2 + h3)^2 when C2^2 is L h2^2 and C3^2 is L h3^2. */
  lemma SumOfDistances(c2: real, c3: real, h2: real, h3: real, l: real)
    requires h2 >= 0.0 && h3 >= 0.0 && l >= 0.0
    requires Squared(c2) == Squared(h2) * l && Squared(c3) == Squared(h3) * l
    ensures Squared(Abs(c2) + Abs(c3)) == Squared(h2 + h3) * l
  {
    hide *;
    var a, b, m := Abs(c2), Abs(c3), h2 * h3;
    SquaredAbs(c2);
    SquaredAbs(c3);
    NotNegative(a, b);
    NotNegative(h2, h3);
    NotNegative(m, l);
    calc {
      Squared(a * b);
      { SquaredProduct(a, b); }
      Squared(a) * Squared(b);
      (Squared(h2) * l) * (Squared(h3) * l);
      { Regroup(Squared(h2), Squared(h3), l); }
      Squared(h2) * Squared(h3) * Squared(l);
      { SquaredProduct(h2, h3); }
      Squared(m) * Squared(l);
      { SquaredProduct(m, l); }
      Squared(m * l);
    }
    RootsAgree(a * b, m * l);
    SquaredSum(a, b);
    SquaredSum(h2, h3);
    Expand(Squared(h2), Squared(h3), m, l);
  }

  lemma SquaredAbs(a: real)
    ensures Abs(a) >= 0.0 && Squared(Abs(a)) == Squared(a)
  {
  }

  lemma SquaredProduct(a: real, b: real)
    ensures Squared(a * b) == Squared(a) * Squared(b)
  {
  }

  lemma SquaredSum(a: real, b: real)
    ensures Squared(a + b) == Squared(a) + Squared(b) + 2.0 * (a * b)
  {
  }

  lemma Regroup(a: real, b: real, l: real)
    ensures a * l * (b * l) == a * b * Squared(l)
  {
  }

  lemma Expand(a: real, b: real, c: real, l: real)
    ensures (a + b + 2.0 * c) * l == a * l + b * l + 2.0 * (c * l)
  {
  }

  lemma ChordPositive(c: Cubic)
    ensures ChordSquared(c) >= 0.0 && (ChordSquared(c) > 0.0 <==> c.p1 != c.p4)
  {
    assert ChordSquared(c) == Squared(ChordX(c)) + Squared(ChordY(c));
    SquaredSign(ChordX(c));
    SquaredSign(ChordY(c));
    SquaredZero(ChordX(c));
    SquaredZero(ChordY(c));
    hide Squared, ChordSquared;
  }

  lemma SquaredZero(a: real)
    ensures Squared(a) > 0.0 <==> a != 0.0
  {
    if a > 0.0 { Less(0.0, a); } else if a < 0.0 { Less(0.0, -a); }
  }

  /** A curve whose ends differ is flat if and only if its inner control points' distances from the chord's line add up
      to less than the root of the tolerance; one whose ends coincide never is. */
  lemma FlatIff(c: Cubic, tessTol: real, h2: real, h3: real)
    requires LineDistance(h2, c.p2, c.p1, c.p4) && LineDistance(h3, c.p3, c.p1, c.p4)
    ensures Flat(c, tessTol) <==> c.p1 != c.p4 && (h2 + h3) * (h2 + h3) < tessTol
  {
    hide *;
    var l, d2, d3 := ChordSquared(c), Cross(c, c.p2), Cross(c, c.p3);
    CrossIsDistance(c, c.p2, h2);
    CrossIsDistance(c, c.p3, h3);
    SquaredIs(h2 + h3);
    ChordPositive(c);
    assert h2 >= 0.0 && h3 >= 0.0 by { DistanceSign(h2, c.p2, c.p1, c.p4); DistanceSign(h3, c.p3, c.p1, c.p4); }
    SumOfDistances(d2, d3, h2, h3, l);
    FlatIs(c, tessTol);
    Cancel(Squared(h2 + h3), tessTol, l);
  }

  lemma SquaredIs(a: real)
    ensures Squared(a) == a * a
  {
  }

  lemma DistanceSign(h: real, p: Pt, a: Pt, b: Pt)
    requires LineDistance(h, p, a, b)
    ensures h >= 0.0
  {
  }

  lemma FlatIs(c: Cubic, tessTol: real)
    ensures Flat(c, tessTol) <==> Squared(Abs(Cross(c, c.p2)) + Abs(Cross(c, c.p3))) < tessTol * ChordSquared(c)
  {
    hide Abs, Cross, Squared, ChordSquared;
  }

  lemma Cancel(a: real, b: real, l: real)
    requires l >= 0.0
    ensures a * l < b * l <==> l > 0.0 && a < b
  {
    if l > 0.0 {
      if a < b { Positive(b - a, l); } else { NotNegative(a - b, l); }
    }
  }

  lemma Positive(a: real, b: real)
    requires a > 0.0 && b > 0.0
    ensures a * b > 0.0
  {
  }

  lemma NotTheWhole(ls: seq<Piece>, rs: seq<Piece>, p: Piece)
    requires Ordered(ls, 0, 512) && Ordered(rs, 512, 1024) && p.lo == 0 && p.hi == 1024
    ensures ls + rs != [p]
  {
    var all := ls + rs;
    if all != [] { assert all[0] == if ls != [] then ls[0] else rs[0]; }
  }

  lemma SplitIsNotOne(c: Cubic, kind: set<PointFlag>, tessTol: real)
    requires !Flat(c, tessTol)
    ensures Pieces(c, 0, 0, kind, tessTol) != [Piece(c, 0, 1024, kind)]
  {
    hide Flat, LeftHalf, RightHalf, Pieces, Ordered, Width;
    var ls, rs := Pieces(LeftHalf(c), 1, 0, {}, tessTol), Pieces(RightHalf(c), 1, 512, kind, tessTol);
    WidthOfRoot();
    WidthHalves(0);
    PiecesSplit(c, 0, 0, kind, tessTol);
    PiecesOrdered(LeftHalf(c), 1, 0, {}, tessTol);
    PiecesOrdered(RightHalf(c), 1, 512, kind, tessTol);
    NotTheWhole(ls, rs, Piece(c, 0, 1024, kind));
  }

  lemma WholeIsOne(c: Cubic, kind: set<PointFlag>, tessTol: real)
    requires Flat(c, tessTol)
    ensures Pieces(c, 0, 0, kind, tessTol) == [Piece(c, 0, 1024, kind)]
  {
    hide Flat;
    WidthOfRoot();
  }

  /** Flattening makes the whole curve one piece if and only if it is flat in that sense. */
  lemma OnePieceIff(c: Cubic, kind: set<PointFlag>, tessTol: real, h2: real, h3: real)
    requires LineDistance(h2, c.p2, c.p1, c.p4) && LineDistance(h3, c.p3, c.p1, c.p4)
    ensures Pieces(c, 0, 0, kind, tessTol) == [Piece(c, 0, 1024, kind)] <==> c.p1 != c.p4 && (h2 + h3) * (h2 + h3) < tessTol
  {
    hide *;
    FlatIff(c, tessTol, h2, h3);
    if Flat(c, tessTol) { WholeIsOne(c, kind, tessTol); } else { SplitIsNotOne(c, kind, tessTol); }
  }

  /** Wherever flattening puts a straight line, the stretch of the curve it replaces is nearer to it than the root of the tolerance. */
  lemma PieceIsClose(root: Cubic, kind: set<PointFlag>, tessTol: real, p: Piece, s: real, h: real)
    requires p in Pieces(root, 0, 0, kind, tessTol) && p.lo as real <= s * 1024.0 <= p.hi as real
    requires LineDistance(h, At(root, s), p.sub.p1, p.sub.p4)
    ensures h * h < tessTol
  {
    hide Pieces, At, Cross, ChordSquared, Squared, LineDistance;
    PieceIsNear(root, kind, tessTol, p, s);
    CrossIsDistance(p.sub, At(root, s), h);
    ChordPositive(p.sub);
    Cancel(Squared(h), tessTol, ChordSquared(p.sub));
    SquaredIs(h);
  }

  // ----- Straight segments -----

  lemma XformLine(t: Xform, p: Pt, q: Pt)
    ensures XformCubic(t, LineCubic(p, q)) == LineCubic(XformPoint(t, p), XformPoint(t, q))
  {
    MixLine(p, q, t.t0, t.t2, t.t4);
    MixLine(p, q, t.t1, t.t3, t.t5);
  }

  lemma MixLine(p: Pt, q: Pt, a: real, b: real, d: real)
    ensures var l := LineCubic(p, q); var u := Mix(p.x, p.y, a, b, d); var v := Mix(q.x, q.y, a, b, d);
            Mix(l.p2.x, l.p2.y, a, b, d) == u + (v - u) / 3.0 && Mix(l.p3.x, l.p3.y, a, b, d) == v - (v - u) / 3.0
  {
    hide Mix;
    var tx, ty := (q.x - p.x) / 3.0, (q.y - p.y) / 3.0;
    MixMoves(p.x, p.y, tx, ty, a, b, d);
    MixMoves(q.x, q.y, -tx, -ty, a, b, d);
    MixMoves(p.x, p.y, 3.0 * tx, 3.0 * ty, a, b, d);
    MoveTimes(tx, ty, a, b);
    hide Moved;
  }

  function Moved(tx: real, ty: real, a: real, b: real): real { tx * a + ty * b }

  lemma MixMoves(x: real, y: real, tx: real, ty: real, a: real, b: real, d: real)
    ensures Mix(x + tx, y + ty, a, b, d) == Mix(x, y, a, b, d) + Moved(tx, ty, a, b)
  {
  }

  lemma MoveTimes(tx: real, ty: real, a: real, b: real)
    ensures Moved(3.0 * tx, 3.0 * ty, a, b) == 3.0 * Moved(tx, ty, a, b)
    ensures Moved(-tx, -ty, a, b) == -Moved(tx, ty, a, b)
  {
  }

  lemma ScaleLine(p: Pt, q: Pt, sx: real, sy: real)
    ensures ScaleCubic(LineCubic(p, q), sx, sy) == LineCubic(Scale(p, sx, sy), Scale(q, sx, sy))
  {
    var x, l := Xform(sx, 0.0, 0.0, sy, 0.0, 0.0), LineCubic(p, q);
    ScaleIsXform(p, sx, sy);
    ScaleIsXform(l.p2, sx, sy);
    ScaleIsXform(l.p3, sx, sy);
    ScaleIsXform(q, sx, sy);
    XformLine(x, p, q);
    hide XformPoint, Scale;
  }

  lemma LineIsFlat(p: Pt, q: Pt, tessTol: real)
    requires p != q && tessTol > 0.0
    ensures Flat(LineCubic(p, q), tessTol)
  {
    var c := LineCubic(p, q);
    LineCross(p, q);
    ChordPositive(c);
    LineEnds(p, q);
    hide LineCubic, Cross, ChordSquared;
    Positive(tessTol, ChordSquared(c));
  }

  lemma LineCross(p: Pt, q: Pt)
    ensures var c := LineCubic(p, q); Cross(c, c.p2) == 0.0 && Cross(c, c.p3) == 0.0
  {
  }

  /** Flattening a straight segment between two points takes up its end and no other point. */
  lemma LineFlattens(pts: seq<PathPoint>, p: Pt, q: Pt, kind: set<PointFlag>, tessTol: real, distTol: real)
    requires p != q && tessTol > 0.0
    ensures Positions(Flattened(pts, LineCubic(p, q), 0, kind, tessTol, distTol)) == Taken(Positions(pts), q, distTol * distTol)
  {
    hide Flat, LineCubic, AddPoint, Taken, Flattened;
    LineIsFlat(p, q, tessTol);
    LineEnds(p, q);
    FlattenedSteps(pts, LineCubic(p, q), 0, kind, tessTol, distTol);
    AddPointTakes(pts, q, kind, distTol);
  }

  lemma PointLine(p: Pt)
    ensures LineCubic(p, p) == Cubic(p, p, p, p)
  {
  }

  /** Flattening a segment from a point to itself adds nothing. */
  lemma PointFlattens(pts: seq<PathPoint>, p: Pt, kind: set<PointFlag>, tessTol: real, distTol: real)
    ensures Flattened(pts, LineCubic(p, p), 0, kind, tessTol, distTol) == pts
  {
    hide Pieces, Flattened, AddAll, LineCubic;
    PointLine(p);
    PointCurveVanishes(p, 0, 0, kind, tessTol);
    FlattenedIsPieces(pts, Cubic(p, p, p, p), 0, 0, kind, tessTol, distTol);
    AddAllNone(pts, distTol);
  }

  /** Every segment of the path is the one lineTo appends. */
  predicate Straight(pts: seq<Pt>) {
    WholeSegments(pts) && forall i :: 0 <= i < Segments(pts) ==> Segment(pts, i) == LineCubic(pts[3*i], pts[3*i+3])
  }

  /** Appending a line keeps a path straight. */
  lemma StraightOn(pts: seq<Pt>, q: Pt)
    requires Straight(pts) && pts != []
    ensures var c := LineCubic(pts[|pts|-1], q); Straight(pts + [c.p2, c.p3, c.p4])
  {
    var c := LineCubic(pts[|pts|-1], q);
    LineEnds(pts[|pts|-1], q);
    hide LineCubic;
    var all := pts + [c.p2, c.p3, c.p4];
    forall i | 0 <= i < Segments(all) ensures Segment(all, i) == LineCubic(all[3*i], all[3*i+3]) {
      if i < Segments(pts) { assert Segment(pts, i) == Segment(all, i); }
    }
  }

  /** Transforming a path keeps it straight, with transformed corners. */
  lemma StraightXform(t: Xform, pts: seq<Pt>)
    requires Straight(pts)
    ensures Straight(XformAll(t, pts))
  {
    hide XformPoint, LineCubic;
    var all := XformAll(t, pts);
    forall i | 0 <= i < Segments(all) ensures Segment(all, i) == LineCubic(all[3*i], all[3*i+3]) {
      assert Segment(pts, i) == LineCubic(pts[3*i], pts[3*i+3]);
      XformLine(t, pts[3*i], pts[3*i+3]);
    }
  }

  /** The scaled corners of a path's first n segments, its start included. */
  function ScaledCorners(pts: seq<Pt>, n: nat, sx: real, sy: real): (r: seq<Pt>)
    requires WholeSegments(pts) && n <= Segments(pts) && pts != []
    ensures |r| == n + 1 && forall i :: 0 <= i <= n ==> r[i] == Scale(pts[3*i], sx, sy)
  {
    seq(n + 1, i requires 0 <= i <= n => Scale(pts[3*i], sx, sy))
  }

  ghost predicate LastIsNear(qs: seq<Pt>, q: Pt) { qs != [] && DistanceSquared(qs[|qs|-1], q) < 0.0001 }

  lemma TakenNear(qs: seq<Pt>, q: Pt)
    ensures LastIsNear(Taken(qs, q, 0.0001), q)
    ensures LastIsNear(qs, q) ==> Taken(qs, q, 0.0001) == qs
  {
  }

  lemma TakenAllPush(qs: seq<Pt>, q: Pt, near: real)
    ensures TakenAll(qs + [q], near) == Taken(TakenAll(qs, near), q, near)
  {
    assert (qs + [q])[..|qs|] == qs;
    hide Taken;
  }

  lemma ScaledSegment(pts: seq<Pt>, i: nat, sx: real, sy: real)
    requires Straight(pts) && i < Segments(pts)
    ensures ScaleCubic(Segment(pts, i), sx, sy) == LineCubic(Scale(pts[3*i], sx, sy), Scale(pts[3*i+3], sx, sy))
  {
    ScaleLine(pts[3*i], pts[3*i+3], sx, sy);
    hide LineCubic, Scale;
  }

  lemma Tolerances()
    ensures DIST_TOL * DIST_TOL == 0.0001 && TESS_TOL > 0.0
  {
  }

  lemma SegmentTaken(before: seq<PathPoint>, p: Pt, q: Pt, tessTol: real, distTol: real)
    requires LastIsNear(Positions(before), p) && tessTol > 0.0 && distTol * distTol == 0.0001
    ensures Positions(Flattened(before, LineCubic(p, q), 0, {}, tessTol, distTol)) == Taken(Positions(before), q, 0.0001)
  {
    hide *;
    if p == q {
      PointFlattens(before, q, {}, tessTol, distTol);
      TakenNear(Positions(before), q);
    } else {
      LineFlattens(before, p, q, {}, tessTol, distTol);
    }
  }

  lemma StartTaken(q: Pt)
    ensures var out := Positions(AddPoint([], q, {}, DIST_TOL)); out == TakenAll([q], 0.0001) && LastIsNear(out, q)
  {
    assert [q][..0] == [];
  }

  lemma {:induction false} StraightSegments(pts: seq<Pt>, n: nat, sx: real, sy: real)
    requires Straight(pts) && n <= Segments(pts) && pts != []
    ensures var out := Positions(FlattenedSegments(pts, n, sx, sy));
            out == TakenAll(ScaledCorners(pts, n, sx, sy), 0.0001) && LastIsNear(out, Scale(pts[3*n], sx, sy))
  {
    hide Scale, ScaleCubic, LineCubic, Segment, Flattened, AddPoint, Taken, TakenAll, LastIsNear, Positions;
    var corners, q := ScaledCorners(pts, n, sx, sy), Scale(pts[3*n], sx, sy);
    if n == 0 {
      assert corners == [q];
      StartTaken(q);
    } else {
      var before, front := FlattenedSegments(pts, n - 1, sx, sy), ScaledCorners(pts, n - 1, sx, sy);
      StraightSegments(pts, n - 1, sx, sy);
      assert corners == front + [q];
      TakenAllPush(front, q, 0.0001);
      ScaledSegment(pts, n - 1, sx, sy);
      Tolerances();
      SegmentTaken(before, Scale(pts[3*n-3], sx, sy), q, TESS_TOL, DIST_TOL);
      TakenNear(Positions(before), q);
    }
  }

  /**
   * The loop of a path of straight segments is its scaled corners in order and the start again, less those nearer than
   * a hundredth to the corner kept before them.
   */
  lemma StraightLoop(path: Path, sx: real, sy: real)
    requires Drawable(path) && Straight(path.pts)
    ensures Positions(PathPoints(path, sx, sy))
         == TakenAll(ScaledCorners(path.pts, Segments(path.pts), sx, sy) + [Scale(path.pts[0], sx, sy)], 0.0001)
  {
    hide Scale, Straight, AddPoint, Taken, TakenAll, LastIsNear, FlattenedSegments;
    var n, start := Segments(path.pts), Scale(path.pts[0], sx, sy);
    StraightSegments(path.pts, n, sx, sy);
    TakenAllPush(ScaledCorners(path.pts, n, sx, sy), start, 0.0001);
    AddPointTakes(FlattenedSegments(path.pts, n, sx, sy), start, {}, DIST_TOL);
    Tolerances();
  }

  // ----- The ends of curves -----

  /** The subcurve at the end of c, d halvings deep. */
  ghost function EndPart(c: Cubic, d: nat): Cubic
    decreases d
  {
    if d == 0 then c else EndPart(RightHalf(c), d - 1)
  }

  /** Some subcurve at the curve's end is flat, at a depth the flattening reaches. */
  ghost predicate EndIsFlat(c: Cubic, tessTol: real) { exists d: nat :: d <= 10 && Flat(EndPart(c, d), tessTol) }

  lemma {:induction false} EndPartIsNode(c: Cubic, level: nat, depth: nat)
    requires level <= depth <= MAX_LEVEL
    ensures Node(c, level, Width(level) - 1, depth) == EndPart(c, depth - level)
    decreases depth - level
  {
    hide RightHalf, LeftHalf, Node, Width;
    if level == depth {
      NodeSelf(c, level, Width(level) - 1);
    } else {
      WidthHalves(level);
      NodeBelow(c, level, Width(level) - 1, depth);
      EndPartIsNode(RightHalf(c), level + 1, depth);
    }
  }

  lemma EndIsFlatAbove(c: Cubic, tessTol: real)
    requires EndIsFlat(c, tessTol)
    ensures Width(0) == 1024 && FlatAbove(c, 0, 1023, tessTol)
  {
    WidthOfRoot();
    hide Flat, EndPart, Node, Width;
    var d: nat :| d <= 10 && Flat(EndPart(c, d), tessTol);
    EndPartIsNode(c, 0, d);
  }

  lemma LastPieceOf(ps: seq<Piece>, i: nat)
    requires Ordered(ps, 0, 1024) && i < |ps| && ps[i].lo <= 1023 < ps[i].hi
    ensures i == |ps| - 1 && ps[i].hi == 1024
  {
    var last := ps[|ps|-1];
    assert last.lo < last.hi <= 1024;
  }

  lemma EndOfCurve(c: Cubic)
    ensures At(c, 1024 as real / 1024.0) == c.p4
  {
  }

  /** When a subcurve at the curve's end is flat, flattening ends at the curve's end or at a point that stands for it. */
  lemma EndKept(pts: seq<PathPoint>, c: Cubic, kind: set<PointFlag>, tessTol: real, distTol: real)
    requires pts != [] && EndIsFlat(c, tessTol)
    ensures var out := Flattened(pts, c, 0, kind, tessTol, distTol);
            out != [] && (out[|out|-1].p == c.p4 || DistanceSquared(out[|out|-1].p, c.p4) < distTol * distTol)
  {
    hide Flattened, AddAll, Pieces, Width, Node, Flat, At, Ordered, FlatAbove, EndIsFlat;
    EndIsFlatAbove(c, tessTol);
    var ps := Pieces(c, 0, 0, kind, tessTol);
    FlattenedIsPieces(pts, c, 0, 0, kind, tessTol, distTol);
    PiecesOrdered(c, 0, 0, kind, tessTol);
    PiecesCover(c, 0, 0, kind, tessTol, 1023);
    var i :| 0 <= i < |ps| && ps[i].lo <= 1023 < ps[i].hi;
    LastPieceOf(ps, i);
    assert ps[i] in ps;
    PieceEnds(c, kind, tessTol, ps[i]);
    EndOfCurve(c);
    LastAfter(pts, ps, distTol);
  }

  /** Segments after the n-th leave the points there in place. */
  lemma {:induction false} LaterKeep(pts: seq<Pt>, n: nat, m: nat, sx: real, sy: real)
    requires WholeSegments(pts) && n <= m <= Segments(pts) && pts != []
    ensures Positions(FlattenedSegments(pts, n, sx, sy)) <= Positions(FlattenedSegments(pts, m, sx, sy))
  {
    hide Flattened, ScaleCubic, Segment, Scale, AddPoint, At;
    if n < m {
      LaterKeep(pts, n, m - 1, sx, sy);
      var ks := FlattenedOnCurve(FlattenedSegments(pts, m - 1, sx, sy), ScaleCubic(Segment(pts, m - 1), sx, sy), {}, TESS_TOL, DIST_TOL);
    }
  }

  /** A segment that ends with a flat subcurve has its scaled end, or a point nearer than a hundredth to it, among the corners of the loop. */
  lemma EndIsCorner(path: Path, i: nat, sx: real, sy: real) returns (k: nat)
    requires Drawable(path) && i < Segments(path.pts)
    requires EndIsFlat(ScaleCubic(Segment(path.pts, i), sx, sy), 0.25)
    ensures var loop := Positions(PathPoints(path, sx, sy)); var end := Scale(path.pts[3*i+3], sx, sy);
            k < |loop| && (loop[k] == end || DistanceSquared(loop[k], end) < 0.0001)
  {
    hide Flattened, EndIsFlat, DistanceSquared, Scale, AddPoint;
    var n := Segments(path.pts);
    var before, c := FlattenedSegments(path.pts, i, sx, sy), ScaleCubic(Segment(path.pts, i), sx, sy);
    var out := FlattenedSegments(path.pts, i + 1, sx, sy);
    hide FlattenedSegments;
    NotEmpty(path.pts, i, sx, sy);
    EndKept(before, c, {}, TESS_TOL, DIST_TOL);
    Tolerances();
    k := |out| - 1;
    LaterKeep(path.pts, i + 1, n, sx, sy);
    AddPointKeeps(FlattenedSegments(path.pts, n, sx, sy), Scale(path.pts[0], sx, sy), {}, DIST_TOL);
    assert Positions(out)[k] == Positions(FlattenedSegments(path.pts, n, sx, sy))[k];
  }

  lemma NotEmpty(pts: seq<Pt>, n: nat, sx: real, sy: real)
    requires WholeSegments(pts) && n <= Segments(pts) && pts != []
    ensures FlattenedSegments(pts, n, sx, sy) != []
  {
    LaterKeep(pts, 0, n, sx, sy);
    hide Scale, Flattened;
  }
}
