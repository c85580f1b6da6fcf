/** Path building as 1 + 3N Bezier control points, and the transforms a path goes through. */
module Paths {
  import opened Bezier

  /** Row-major 2x3 transform, as the parser's xform array. */
  datatype Xform = Xform(t0: real, t1: real, t2: real, t3: real, t4: real, t5: real)

  function Mix(x: real, y: real, a: real, b: real, d: real): real { x * a + y * b + d }

  function XformPoint(t: Xform, p: Pt): Pt {
    Pt(Mix(p.x, p.y, t.t0, t.t2, t.t4), Mix(p.x, p.y, t.t1, t.t3, t.t5))
  }

  /** The origin goes to the translation, and the unit vectors to the columns from there. */
  lemma XformColumns(t: Xform)
    ensures XformPoint(t, Pt(0.0, 0.0)) == Pt(t.t4, t.t5)
    ensures XformPoint(t, Pt(1.0, 0.0)) == Pt(t.t4 + t.t0, t.t5 + t.t1)
    ensures XformPoint(t, Pt(0.0, 1.0)) == Pt(t.t4 + t.t2, t.t5 + t.t3)
  {
  }

  function XformAll(t: Xform, pts: seq<Pt>): (r: seq<Pt>)
    ensures |r| == |pts| && forall i :: 0 <= i < |pts| ==> r[i] == XformPoint(t, pts[i])
  {
    seq(|pts|, i requires 0 <= i < |pts| => XformPoint(t, pts[i]))
  }

  function XformCubic(t: Xform, c: Cubic): Cubic {
    Cubic(XformPoint(t, c.p1), XformPoint(t, c.p2), XformPoint(t, c.p3), XformPoint(t, c.p4))
  }

  /** Transforming the control points transforms every point of the curve. */
  lemma AffineInvariance(t: Xform, c: Cubic, s: real)
    ensures At(XformCubic(t, c), s) == XformPoint(t, At(c, s))
  {
    hide Eval, Mix;
    EvalAffine(s, c, t.t0, t.t2, t.t4);
    EvalAffine(s, c, t.t1, t.t3, t.t5);
  }

  /** The four weights of Eval. */
  function Weight0(s: real): real { (1.0 - s) * (1.0 - s) * (1.0 - s) }

  function Weight1(s: real): real { 3.0 * (1.0 - s) * (1.0 - s) * s }

  function Weight2(s: real): real { 3.0 * (1.0 - s) * s * s }

  function Weight3(s: real): real { s * s * s }

  /** Eval is an average of the control values: its weights sum to one. */
  lemma WeightsSum(s: real)
    ensures Weight0(s) + Weight1(s) + Weight2(s) + Weight3(s) == 1.0
  {
  }

  lemma Weighed(s: real, a: real, b: real, c: real, d: real)
    ensures Eval(s, a, b, c, d) == Weight0(s) * a + Weight1(s) * b + Weight2(s) * c + Weight3(s) * d
  {
  }

  lemma Spread(w: real, x: real, y: real, a: real, b: real, d: real)
    ensures w * (x * a + y * b + d) == (w * x) * a + (w * y) * b + w * d
  {
  }

  lemma Gather(x0: real, x1: real, x2: real, x3: real, a: real)
    ensures x0 * a + x1 * a + x2 * a + x3 * a == (x0 + x1 + x2 + x3) * a
  {
  }

  lemma EvalAffine(s: real, c: Cubic, a: real, b: real, d: real)
    ensures Eval(s, Mix(c.p1.x, c.p1.y, a, b, d), Mix(c.p2.x, c.p2.y, a, b, d), Mix(c.p3.x, c.p3.y, a, b, d), Mix(c.p4.x, c.p4.y, a, b, d))
         == Mix(At(c, s).x, At(c, s).y, a, b, d)
  {
    hide Eval, Weight0, Weight1, Weight2, Weight3;
    var w0, w1, w2, w3 := Weight0(s), Weight1(s), Weight2(s), Weight3(s);
    WeightsSum(s);
    Weighed(s, Mix(c.p1.x, c.p1.y, a, b, d), Mix(c.p2.x, c.p2.y, a, b, d), Mix(c.p3.x, c.p3.y, a, b, d), Mix(c.p4.x, c.p4.y, a, b, d));
    Weighed(s, c.p1.x, c.p2.x, c.p3.x, c.p4.x);
    Weighed(s, c.p1.y, c.p2.y, c.p3.y, c.p4.y);
    Spread(w0, c.p1.x, c.p1.y, a, b, d);
    Spread(w1, c.p2.x, c.p2.y, a, b, d);
    Spread(w2, c.p3.x, c.p3.y, a, b, d);
    Spread(w3, c.p4.x, c.p4.y, a, b, d);
    Gather(w0 * c.p1.x, w1 * c.p2.x, w2 * c.p3.x, w3 * c.p4.x, a);
    Gather(w0 * c.p1.y, w1 * c.p2.y, w2 * c.p3.y, w3 * c.p4.y, b);
    Gather(w0, w1, w2, w3, d);
  }

  /** The cubic lineTo appends after p to reach q. */
  function LineCubic(p: Pt, q: Pt): Cubic {
    var dx, dy := q.x - p.x, q.y - p.y;
    Cubic(p, Pt(p.x + dx / 3.0, p.y + dy / 3.0), Pt(q.x - dx / 3.0, q.y - dy / 3.0), q)
  }

  /** That cubic runs along the straight segment at constant speed. */
  lemma LineIsStraight(p: Pt, q: Pt, s: real)
    ensures At(LineCubic(p, q), s) == Pt(p.x + s * (q.x - p.x), p.y + s * (q.y - p.y))
  {
    EvalLine(s, p.x, q.x);
    EvalLine(s, p.y, q.y);
  }

  lemma EvalLine(s: real, a: real, b: real)
    ensures Eval(s, a, a + (b - a) / 3.0, b - (b - a) / 3.0, b) == a + s * (b - a)
  {
  }

  lemma LineEnds(p: Pt, q: Pt)
    ensures LineCubic(p, q).p1 == p && LineCubic(p, q).p4 == q
  {
  }

  datatype Path = Path(pts: seq<Pt>, closed: bool)

  /** Empty, or a start point followed by whole segments of three points each. */
  predicate WholeSegments(pts: seq<Pt>) { pts == [] || |pts| % 3 == 1 }

  function Segments(pts: seq<Pt>): nat { if pts == [] then 0 else (|pts| - 1) / 3 }

  function Segment(pts: seq<Pt>, i: nat): Cubic
    requires WholeSegments(pts) && i < Segments(pts)
  {
    Cubic(pts[3*i], pts[3*i+1], pts[3*i+2], pts[3*i+3])
  }

  class PathParser {
    var pts: seq<Pt>
    var paths: seq<Path>

    constructor ()
      ensures pts == [] && paths == []
    {
      pts, paths := [], [];
    }

    method MoveTo(p: Pt)
      modifies this`pts
      ensures pts == if old(pts) == [] then [p] else old(pts)[..|old(pts)|-1] + [p]
      ensures WholeSegments(old(pts)) ==> WholeSegments(pts) && Segments(pts) == Segments(old(pts))
    {
      if |pts| > 0 {
        pts := pts[|pts|-1 := p];
      } else {
        pts := pts + [p];
      }
    }

    method LineTo(q: Pt)
      modifies this`pts
      ensures old(pts) == [] ==> pts == []
      ensures old(pts) != [] ==> var p := old(pts)[|old(pts)|-1]; var c := LineCubic(p, q); pts == old(pts) + [c.p2, c.p3, c.p4]
    {
      if |pts| > 0 {
        var p := pts[|pts|-1];
        var dx, dy := q.x - p.x, q.y - p.y;
        pts := pts + [Pt(p.x + dx / 3.0, p.y + dy / 3.0)];
        pts := pts + [Pt(q.x - dx / 3.0, q.y - dy / 3.0)];
        pts := pts + [q];
      }
    }

    method CubicBezTo(c1: Pt, c2: Pt, p: Pt)
      modifies this`pts
      ensures pts == if old(pts) == [] then [] else old(pts) + [c1, c2, p]
    {
      if |pts| > 0 {
        pts := pts + [c1];
        pts := pts + [c2];
        pts := pts + [p];
      }
    }

    /** Commits the current path: refused exactly when it has no segment, and closed by a line when asked. */
    method AddPath(closed: bool, xform: Xform)
      requires WholeSegments(pts)
      modifies this
      ensures WholeSegments(pts)
      ensures Segments(old(pts)) == 0 ==> paths == old(paths) && pts == old(pts)
      ensures Segments(old(pts)) > 0 ==>
                && paths == [Path(XformAll(xform, pts), closed)] + old(paths)
                && old(pts) <= pts && Segments(pts) == Segments(old(pts)) + (if closed then 1 else 0)
                && (closed ==> pts[|pts|-1] == pts[0] && Segment(pts, Segments(old(pts))) == LineCubic(old(pts)[|old(pts)|-1], pts[0]))
    {
      hide LineCubic;
      if |pts| < 4 {
        return;
      }
      if closed {
        LineTo(pts[0]);
        LineEnds(old(pts)[|old(pts)|-1], pts[0]);
      }
      if |pts| % 3 != 1 {
        return;
      }
      paths := [Path(XformAll(xform, pts), closed)] + paths;
    }
  }
}
