/** Flattening the paths of a shape into closed loops of points and the edges of those loops. */
module Shapes {
  import opened Bezier
  import opened Flatten
  import opened Paths
  import opened Winding

  const TESS_TOL := 0.25
  const DIST_TOL := 0.01

  function Scale(p: Pt, sx: real, sy: real): Pt { Pt(p.x * sx, p.y * sy) }

  function ScaleCubic(c: Cubic, sx: real, sy: real): Cubic {
    Cubic(Scale(c.p1, sx, sy), Scale(c.p2, sx, sy), Scale(c.p3, sx, sy), Scale(c.p4, sx, sy))
  }

  lemma ScaleIsXform(p: Pt, sx: real, sy: real)
    ensures Scale(p, sx, sy) == XformPoint(Xform(sx, 0.0, 0.0, sy, 0.0, 0.0), p)
  {
  }

  /** Flattening the scaled control points gives points of the scaled curve. */
  lemma ScaledCurve(c: Cubic, sx: real, sy: real, t: real)
    ensures At(ScaleCubic(c, sx, sy), t) == Scale(At(c, t), sx, sy)
  {
    var x := Xform(sx, 0.0, 0.0, sy, 0.0, 0.0);
    ScaleIsXform(c.p1, sx, sy); ScaleIsXform(c.p2, sx, sy); ScaleIsXform(c.p3, sx, sy); ScaleIsXform(c.p4, sx, sy);
    ScaleIsXform(At(c, t), sx, sy);
    AffineInvariance(x, c, t);
    hide At, XformPoint, Scale;
  }

  predicate Drawable(path: Path) { WholeSegments(path.pts) && Segments(path.pts) > 0 }

  /** Paths with a segment are drawable when they are committed. */
  lemma CommittedDrawable(pts: seq<Pt>, xform: Xform, closed: bool)
    requires WholeSegments(pts) && Segments(pts) > 0
    ensures Drawable(Path(XformAll(xform, pts), closed))
  {
    hide XformPoint;
  }

  /** The point list after the start point and the first n segments of a path. */
  function FlattenedSegments(pts: seq<Pt>, n: nat, sx: real, sy: real): seq<PathPoint>
    requires WholeSegments(pts) && n <= Segments(pts) && pts != []
  {
    if n == 0 then AddPoint([], Scale(pts[0], sx, sy), {}, DIST_TOL)
    else Flattened(FlattenedSegments(pts, n - 1, sx, sy), ScaleCubic(Segment(pts, n - 1), sx, sy), 0, {}, TESS_TOL, DIST_TOL)
  }

  function PathPoints(path: Path, sx: real, sy: real): seq<PathPoint>
    requires Drawable(path)
  {
    AddPoint(FlattenedSegments(path.pts, Segments(path.pts), sx, sy), Scale(path.pts[0], sx, sy), {}, DIST_TOL)
  }

  function Positions(pts: seq<PathPoint>): (r: seq<Pt>)
    ensures |r| == |pts| && forall i :: 0 <= i < |pts| ==> r[i] == pts[i].p
  {
    seq(|pts|, i requires 0 <= i < |pts| => pts[i].p)
  }

  function Loops(paths: seq<Path>, sx: real, sy: real): (r: seq<seq<Pt>>)
    requires forall i :: 0 <= i < |paths| ==> Drawable(paths[i])
    ensures |r| == |paths| && forall i :: 0 <= i < |paths| ==> r[i] == Positions(PathPoints(paths[i], sx, sy))
  {
    seq(|paths|, i requires 0 <= i < |paths| => Positions(PathPoints(paths[i], sx, sy)))
  }

  function PathAt(pts: seq<Pt>, i: nat, k: nat, sx: real, sy: real): Pt
    requires WholeSegments(pts) && i < Segments(pts)
  {
    Scale(At(Segment(pts, i), k as real / 1024.0), sx, sy)
  }

  /** p is a point of the scaled path, at a parameter k/1024 of one of its first n segments. */
  ghost predicate OnPath(p: Pt, pts: seq<Pt>, n: nat, sx: real, sy: real)
    requires WholeSegments(pts) && n <= Segments(pts)
  {
    exists i: nat, k: nat :: i < n && k <= 1024 && p == PathAt(pts, i, k, sx, sy)
  }

  lemma StartOnPath(pts: seq<Pt>, sx: real, sy: real)
    requires WholeSegments(pts) && Segments(pts) > 0
    ensures OnPath(Scale(pts[0], sx, sy), pts, 1, sx, sy)
  {
    assert 0 as real / 1024.0 == 0.0;
    assert At(Segment(pts, 0), 0.0) == pts[0];
    assert Scale(pts[0], sx, sy) == PathAt(pts, 0, 0, sx, sy);
  }

  lemma {:induction false} SegmentsOnPath(pts: seq<Pt>, n: nat, sx: real, sy: real)
    requires WholeSegments(pts) && 0 < n <= Segments(pts)
    ensures forall q :: q in FlattenedSegments(pts, n, sx, sy) ==> OnPath(q.p, pts, n, sx, sy)
  {
    hide Flattened, At, Scale, Segment, ScaleCubic, PtEquals;
    var before := FlattenedSegments(pts, n - 1, sx, sy);
    if n > 1 {
      SegmentsOnPath(pts, n - 1, sx, sy);
      forall q | q in before ensures OnPath(q.p, pts, n, sx, sy) {
        var i: nat, k: nat :| i < n - 1 && k <= 1024 && q.p == PathAt(pts, i, k, sx, sy);
      }
    } else {
      StartOnPath(pts, sx, sy);
      assert before == [PathPoint(Scale(pts[0], sx, sy), {})];
    }
    var c := Segment(pts, n - 1);
    var ks := FlattenedOnCurve(before, ScaleCubic(c, sx, sy), {}, TESS_TOL, DIST_TOL);
    var out := FlattenedSegments(pts, n, sx, sy);
    assert out == Flattened(before, ScaleCubic(c, sx, sy), 0, {}, TESS_TOL, DIST_TOL);
    forall q | q in out ensures OnPath(q.p, pts, n, sx, sy) {
      var i :| 0 <= i < |out| && out[i] == q;
      if i < |before| {
        assert q.p == before[i].p && before[i] in before;
      } else {
        var k := ks[i - |before|];
        ScaledCurve(c, sx, sy, k as real / 1024.0);
        assert n - 1 < n && k <= 1024 && q.p == PathAt(pts, n - 1, k, sx, sy);
      }
    }
  }

  /** Every corner of a loop the rasterizer fills is a point of the scaled path. */
  lemma LoopOnPath(path: Path, sx: real, sy: real)
    requires Drawable(path)
    ensures forall p :: p in Positions(PathPoints(path, sx, sy)) ==> OnPath(p, path.pts, Segments(path.pts), sx, sy)
  {
    hide FlattenedSegments, At, Scale, Segment, PtEquals;
    var n := Segments(path.pts);
    SegmentsOnPath(path.pts, n, sx, sy);
    StartOnPath(path.pts, sx, sy);
    var start := Scale(path.pts[0], sx, sy);
    assert OnPath(start, path.pts, n, sx, sy) by {
      var i: nat, k: nat :| i < 1 && k <= 1024 && start == PathAt(path.pts, i, k, sx, sy);
    }
    AddPointKeeps(FlattenedSegments(path.pts, n, sx, sy), start, {}, DIST_TOL);
    hide AddPoint;
    var before, out := FlattenedSegments(path.pts, n, sx, sy), PathPoints(path, sx, sy);
    forall p | p in Positions(out) ensures OnPath(p, path.pts, n, sx, sy) {
      var i :| 0 <= i < |out| && out[i].p == p;
      if i < |before| { assert before[i] in before; }
    }
  }

  class Flattener {
    var points: seq<PathPoint>
    var edges: seq<Edge>

    constructor ()
      ensures points == [] && edges == []
    {
      points, edges := [], [];
    }

    method AddPathPoint(p: Pt, flags: set<PointFlag>)
      modifies this`points
      ensures points == AddPoint(old(points), p, flags, DIST_TOL)
    {
      if |points| > 0 {
        var last := points[|points|-1];
        if PtEquals(last.p, p, DIST_TOL) {
          points := points[|points|-1 := last.(flags := last.flags + flags)];
          return;
        }
      }
      points := points + [PathPoint(p, flags)];
    }

    method FlattenCubicBez(c: Cubic, level: nat, kind: set<PointFlag>)
      modifies this`points
      ensures points == Flattened(old(points), c, level, kind, TESS_TOL, DIST_TOL)
      decreases MAX_LEVEL + 1 - level
    {
      hide Flat, LeftHalf, RightHalf, AddPoint, Flattened;
      FlattenedSteps(points, c, level, kind, TESS_TOL, DIST_TOL);
      if level > MAX_LEVEL {
        return;
      }
      if Flat(c, TESS_TOL) {
        AddPathPoint(c.p4, kind);
        return;
      }
      var next := level + 1;
      if next > MAX_LEVEL {
        return;
      }
      FlattenCubicBez(LeftHalf(c), next, {});
      FlattenCubicBez(RightHalf(c), next, kind);
    }

    method AddEdge(a: Pt, b: Pt)
      modifies this`edges
      ensures edges == old(edges) + SegmentEdges(a, b)
    {
      if a.y == b.y {
        assert old(edges) + SegmentEdges(a, b) == old(edges);
        return;
      }
      var e := if a.y < b.y then Edge(a.x, a.y, b.x, b.y, 1) else Edge(b.x, b.y, a.x, a.y, -1);
      edges := edges + [e];
    }

    /** Replaces the point list by the closed loop of one path. */
    method FlattenPath(path: Path, sx: real, sy: real)
      requires Drawable(path)
      modifies this`points
      ensures points == PathPoints(path, sx, sy)
    {
      hide Flattened, AddPoint, Scale, ScaleCubic;
      points := [];
      AddPathPoint(Scale(path.pts[0], sx, sy), {});
      var i := 0;
      while i < |path.pts| - 1
        invariant 0 <= i && i % 3 == 0 && i / 3 <= Segments(path.pts)
        invariant points == FlattenedSegments(path.pts, i / 3, sx, sy)
      {
        FlattenCubicBez(ScaleCubic(Cubic(path.pts[i], path.pts[i+1], path.pts[i+2], path.pts[i+3]), sx, sy), 0, {});
        assert Segment(path.pts, i / 3) == Cubic(path.pts[i], path.pts[i+1], path.pts[i+2], path.pts[i+3]);
        assert (i + 3) / 3 == i / 3 + 1;
        i := i + 3;
      }
      AddPathPoint(Scale(path.pts[0], sx, sy), {});
    }

    /** Appends the edges of the loop held in the point list. */
    method BuildEdges()
      modifies this`edges
      ensures edges == old(edges) + LoopEdges(Positions(points))
    {
      hide SegmentEdges, LoopPrefix, LoopEdges;
      ghost var pos := Positions(points);
      var i, j := 0, |points| - 1;
      LoopPrefixNone(pos);
      while i < |points|
        invariant 0 <= i <= |points| && j == if i == 0 then |points| - 1 else i - 1
        invariant edges == old(edges) + LoopPrefix(pos, i)
      {
        LoopPrefixStep(pos, i);
        AddEdge(points[j].p, points[i].p);
        j := i;
        i := i + 1;
      }
      LoopPrefixAll(pos);
    }

    /** Appends the edges of every path of the shape, each flattened to a closed loop. */
    method FlattenShape(paths: seq<Path>, sx: real, sy: real)
      requires forall i :: 0 <= i < |paths| ==> Drawable(paths[i])
      modifies this
      ensures edges == old(edges) + ShapeEdges(Loops(paths, sx, sy))
    {
      hide PathPoints, LoopEdges, Drawable;
      ghost var loops := Loops(paths, sx, sy);
      var n := 0;
      while n < |paths|
        invariant 0 <= n <= |paths|
        invariant edges == old(edges) + ShapeEdges(loops[..n])
      {
        FlattenPath(paths[n], sx, sy);
        BuildEdges();
        assert loops[..n+1][..n] == loops[..n];
        n := n + 1;
      }
      assert loops[..n] == loops;
    }
  }
}
