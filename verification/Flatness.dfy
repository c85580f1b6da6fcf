/** What the flatness test promises about the curve between two points that it joins by a straight line. */
module Flatness {
  import opened Common
  import opened Bezier
  import opened Paths
  import opened Flatten

  function ChordX(c: Cubic): real { c.p4.x - c.p1.x }

  function ChordY(c: Cubic): real { c.p4.y - c.p1.y }

  function Offset(c: Cubic): real { c.p4.y * ChordX(c) - c.p4.x * ChordY(c) }

  /** The cross product is an affine function of the point. */
  lemma CrossIsMix(c: Cubic, p: Pt)
    ensures Cross(c, p) == Mix(p.x, p.y, ChordY(c), -ChordX(c), Offset(c))
  {
  }

  lemma CrossEnds(c: Cubic)
    ensures Cross(c, c.p1) == 0.0 && Cross(c, c.p4) == 0.0
  {
  }

  function Combined(w: real, a: real, v: real, b: real): real { w * a + v * b }

  function InnerWeight(t: real): real { 3.0 * (1.0 - t) * (1.0 - t) * t }

  /** Along the curve the cross product is a combination of the inner control points' ones. */
  lemma CrossAlong(c: Cubic, t: real)
    ensures Cross(c, At(c, t)) == Combined(InnerWeight(t), Cross(c, c.p2), InnerWeight(1.0 - t), Cross(c, c.p3))
  {
    hide *;
    CrossEnds(c);
    CrossIsMix(c, c.p1);
    CrossIsMix(c, c.p2);
    CrossIsMix(c, c.p3);
    CrossIsMix(c, c.p4);
    CrossIsMix(c, At(c, t));
    EvalAffine(t, c, ChordY(c), -ChordX(c), Offset(c));
    EndsZero(t, Cross(c, c.p2), Cross(c, c.p3));
  }

  lemma EndsZero(t: real, b: real, c: real)
    ensures Eval(t, 0.0, b, c, 0.0) == Combined(InnerWeight(t), b, InnerWeight(1.0 - t), c)
  {
  }

  lemma InnerWeightBound(t: real)
    requires 0.0 <= t <= 1.0
    ensures 0.0 <= InnerWeight(t) <= 1.0
  {
    var u := 1.0 - t;
    var ut := u * t;
    assert ut <= 0.25 by {
      assert ut == 0.25 - (t - 0.5) * (t - 0.5);
      Square(t - 0.5);
    }
    NotNegative(u, t);
    NotNegative(u, ut);
    NotNegative(u, 0.25 - ut);
    assert u * (0.25 - ut) == 0.25 * u - u * ut;
    assert InnerWeight(t) == 3.0 * (u * ut);
  }

  lemma Square(a: real)
    ensures a * a >= 0.0
  {
  }

  lemma Weighted(w: real, v: real, a: real, b: real)
    requires 0.0 <= w <= 1.0 && 0.0 <= v <= 1.0
    ensures Abs(Combined(w, a, v, b)) <= Abs(a) + Abs(b)
  {
    Shrunk(w, a);
    Shrunk(v, b);
  }

  lemma Shrunk(w: real, a: real)
    requires 0.0 <= w <= 1.0
    ensures Abs(w * a) <= Abs(a)
  {
    NotNegative(w, Abs(a));
    NotNegative(1.0 - w, Abs(a));
    assert (1.0 - w) * Abs(a) == Abs(a) - w * Abs(a);
    assert w * -a == -(w * a);
  }

  lemma SquareMono(a: real, b: real)
    requires Abs(a) <= b
    ensures Squared(a) <= Squared(b)
  {
    NotNegative(b - a, b + a);
    assert (b - a) * (b + a) == b * b - a * a;
  }

  /** The squared distance of every point of a flat curve from its chord's line is below the tolerance. */
  lemma FlatIsNear(c: Cubic, tessTol: real, t: real)
    requires Flat(c, tessTol) && 0.0 <= t <= 1.0
    ensures Squared(Cross(c, At(c, t))) < tessTol * ChordSquared(c)
  {
    assert Squared(Abs(Cross(c, c.p2)) + Abs(Cross(c, c.p3))) < tessTol * ChordSquared(c) by { hide Abs, Cross, Squared, ChordSquared; }
    hide *;
    var d2, d3 := Cross(c, c.p2), Cross(c, c.p3);
    CrossAlong(c, t);
    InnerWeightBound(t);
    InnerWeightBound(1.0 - t);
    Weighted(InnerWeight(t), InnerWeight(1.0 - t), d2, d3);
    SquareMono(Cross(c, At(c, t)), Abs(d2) + Abs(d3));
  }

  /** A point's squared distance from the line of the chord is below the tolerance, multiplied out by the chord's square. */
  predicate NearChord(c: Cubic, p: Pt, tessTol: real) { Squared(Cross(c, p)) < tessTol * ChordSquared(c) }

  lemma PieceEnds(root: Cubic, kind: set<PointFlag>, tessTol: real, p: Piece)
    requires p in Pieces(root, 0, 0, kind, tessTol)
    ensures p.lo < p.hi && Traces(root, p.sub, p.lo, p.hi) && Flat(p.sub, tessTol)
    ensures p.sub.p1 == At(root, p.lo as real / 1024.0) && p.sub.p4 == At(root, p.hi as real / 1024.0)
  {
    hide Flat, At, Pieces, Traces;
    WidthOfRoot();
    TracesSelf(root);
    PiecesTrace(root, root, 0, 0, kind, tessTol);
    TracesEnd(root, p.sub, p.lo, p.hi);
    TracesStart(root, p.sub, p.lo, p.hi);
  }

  /** Wherever a curve is replaced by a straight line, the stretch replaced is that near to it. */
  lemma PieceIsNear(root: Cubic, kind: set<PointFlag>, tessTol: real, p: Piece, s: real)
    requires p in Pieces(root, 0, 0, kind, tessTol) && p.lo as real <= s * 1024.0 <= p.hi as real
    ensures NearChord(p.sub, At(root, s), tessTol)
  {
    hide Flat, At, Cross, Squared, ChordSquared, Pieces, Traces;
    PieceEnds(root, kind, tessTol, p);
    var t := Rescaled(p.lo, p.hi, s);
    TracesAt(root, p.sub, p.lo, p.hi, t);
    FlatIsNear(p.sub, tessTol, t);
  }

  lemma Rescaled(lo: nat, hi: nat, s: real) returns (t: real)
    requires lo < hi && lo as real <= s * 1024.0 <= hi as real
    ensures 0.0 <= t <= 1.0 && Param(lo, hi, t) == s
  {
    var w := hi as real - lo as real;
    t := (s * 1024.0 - lo as real) / w;
    Fraction(s * 1024.0 - lo as real, w);
  }

  lemma Fraction(n: real, d: real)
    requires 0.0 <= n <= d && d > 0.0
    ensures 0.0 <= n / d <= 1.0 && n / d * d == n
  {
  }

  lemma TracesAt(root: Cubic, sub: Cubic, lo: nat, hi: nat, t: real)
    requires Traces(root, sub, lo, hi)
    ensures At(sub, t) == At(root, Param(lo, hi, t))
  {
    hide At, Param;
  }

  lemma TracesStart(root: Cubic, sub: Cubic, lo: nat, hi: nat)
    requires Traces(root, sub, lo, hi)
    ensures sub.p1 == At(root, lo as real / 1024.0)
  {
    assert Param(lo, hi, 0.0) == lo as real / 1024.0;
    assert At(sub, 0.0) == At(root, Param(lo, hi, 0.0));
    assert At(sub, 0.0) == sub.p1;
  }
  // ----- The segments that are filled -----

  /** A kept point that stands for the end of a leaf: the end itself, or a point it was merged into. */
  predicate StandsFor(kept: Pt, end: Pt, distTol: real) { kept == end || PtEquals(kept, end, distTol) }

  lemma LastStands(pts: seq<PathPoint>, p: Pt, flags: set<PointFlag>, distTol: real)
    ensures var out := AddPoint(pts, p, flags, distTol);
            out != [] && StandsFor(out[|out|-1].p, p, distTol) && |pts| <= |out|
  {
    hide PtEquals;
  }

  lemma AddAllLast(pts: seq<PathPoint>, ps: seq<Piece>, distTol: real)
    requires ps != []
    ensures var last := ps[|ps|-1];
            AddAll(pts, ps, distTol) == AddPoint(AddAll(pts, ps[..|ps|-1], distTol), last.sub.p4, last.flags, distTol)
  {
    hide AddPoint, AddAll;
    var front, last := ps[..|ps|-1], ps[|ps|-1];
    assert ps == front + [last];
    AddAllConcat(pts, front, [last], distTol);
    AddAllOne(AddAll(pts, front, distTol), last, distTol);
  }

  /** The point before leaf j's end point stands for the end of the leaf before, or is the one the curve was continued from. */
  ghost predicate Precedes(kept: Pt, pts: seq<PathPoint>, ps: seq<Piece>, j: nat, distTol: real)
    requires pts != [] && j < |ps|
  {
    if j == 0 then kept == pts[|pts|-1].p else StandsFor(kept, ps[j-1].sub.p4, distTol)
  }

  lemma LastAfter(pts: seq<PathPoint>, ps: seq<Piece>, distTol: real)
    requires pts != []
    ensures var out := AddAll(pts, ps, distTol);
            out != [] && if ps == [] then out == pts else StandsFor(out[|out|-1].p, ps[|ps|-1].sub.p4, distTol)
  {
    hide AddPoint, StandsFor;
    if ps == [] {
      AddAllNone(pts, distTol);
    } else {
      var front, last := ps[..|ps|-1], ps[|ps|-1];
      AddAllLast(pts, ps, distTol);
      hide AddAll;
      LastStands(AddAll(pts, front, distTol), last.sub.p4, last.flags, distTol);
    }
  }

  /** Every point added is the end of a leaf, and follows a point that stands for the end of the leaf before. */
  lemma {:induction false} AddedEndsLeaf(pts: seq<PathPoint>, ps: seq<Piece>, distTol: real, i: nat) returns (j: nat)
    requires pts != [] && |pts| <= i < |AddAll(pts, ps, distTol)|
    ensures j < |ps| && AddAll(pts, ps, distTol)[i].p == ps[j].sub.p4
    ensures Precedes(AddAll(pts, ps, distTol)[i-1].p, pts, ps, j, distTol)
    decreases |ps|
  {
    hide AddPoint, AddAll, StandsFor;
    if ps == [] {
      AddAllNone(pts, distTol);
    } else {
      var front, last := ps[..|ps|-1], ps[|ps|-1];
      var before := AddAll(pts, front, distTol);
      AddAllLast(pts, ps, distTol);
      AddPointKeeps(before, last.sub.p4, last.flags, distTol);
      if i < |before| {
        j := AddedEndsLeaf(pts, front, distTol, i);
        assert ps[j] == front[j] && (j > 0 ==> ps[j-1] == front[j-1]);
      } else {
        j := |front|;
        LastAfter(pts, front, distTol);
        assert j > 0 ==> front[j-1] == ps[j-1];
      }
    }
  }

  /**
   * The segment between two consecutive points of a flattened curve replaces a leaf: it ends where the leaf ends, and
   * starts where the leaf starts, or at a point within the distance tolerance of that when points were merged, unless
   * a stretch before the leaf was dropped; and the leaf's stretch of the curve is near the leaf's chord.
   */
  lemma FilledSegmentIsNear(pts: seq<PathPoint>, root: Cubic, kind: set<PointFlag>, tessTol: real, distTol: real, i: nat)
    returns (j: nat)
    requires pts != [] && |pts| <= i < |Flattened(pts, root, 0, kind, tessTol, distTol)|
    ensures var out, ps := Flattened(pts, root, 0, kind, tessTol, distTol), Pieces(root, 0, 0, kind, tessTol);
            && j < |ps| && out[i].p == ps[j].sub.p4
            && (j == 0 ==> out[i-1].p == pts[|pts|-1].p)
            && (j == 0 && ps[j].lo == 0 ==> ps[j].sub.p1 == root.p1)
            && (j > 0 && ps[j-1].hi == ps[j].lo ==> StandsFor(out[i-1].p, ps[j].sub.p1, distTol))
            && (forall s: real :: ps[j].lo as real <= s * 1024.0 <= ps[j].hi as real ==> NearChord(ps[j].sub, At(root, s), tessTol))
  {
    hide Flattened, AddAll, Pieces, At, StandsFor, Flat, NearChord;
    var ps := Pieces(root, 0, 0, kind, tessTol);
    FlattenedIsPieces(pts, root, 0, 0, kind, tessTol, distTol);
    j := AddedEndsLeaf(pts, ps, distTol, i);
    assert ps[j] in ps;
    PieceEnds(root, kind, tessTol, ps[j]);
    if j > 0 {
      assert ps[j-1] in ps;
      PieceEnds(root, kind, tessTol, ps[j-1]);
    }
    StartOfCurve(root);
    forall s: real | ps[j].lo as real <= s * 1024.0 <= ps[j].hi as real
      ensures NearChord(ps[j].sub, At(root, s), tessTol)
    {
      PieceIsNear(root, kind, tessTol, ps[j], s);
    }
  }

  lemma StartOfCurve(c: Cubic)
    ensures At(c, 0.0) == c.p1 && At(c, 0 as real / 1024.0) == c.p1
  {
  }
}
