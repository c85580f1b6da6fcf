/** Adaptive flattening of a cubic into path points, as a function on the point list. */
module Flatten {
  import opened Common
  import opened Bezier

  const MAX_LEVEL := 10

  /** The bits of a point's flags byte. */
  datatype PointFlag = Corner | Bevel | Left

  datatype PathPoint = PathPoint(p: Pt, flags: set<PointFlag>)

  /** A leaf of the subdivision: sub traces the root curve from lo/1024 to hi/1024. */
  datatype Piece = Piece(sub: Cubic, lo: nat, hi: nat, flags: set<PointFlag>)

  predicate PtEquals(a: Pt, b: Pt, tol: real) {
    var dx, dy := b.x - a.x, b.y - a.y;
    dx*dx + dy*dy < tol*tol
  }

  /** Cross product of the chord with the way from the curve's end to a point: its length times the distance from the line. */
  function Cross(c: Cubic, p: Pt): real {
    var dx, dy := c.p4.x - c.p1.x, c.p4.y - c.p1.y;
    (p.x - c.p4.x) * dy - (p.y - c.p4.y) * dx
  }

  function ChordSquared(c: Cubic): real {
    var dx, dy := c.p4.x - c.p1.x, c.p4.y - c.p1.y;
    dx*dx + dy*dy
  }

  function Squared(a: real): real { a * a }

  predicate Flat(c: Cubic, tessTol: real) {
    Squared(Abs(Cross(c, c.p2)) + Abs(Cross(c, c.p3))) < tessTol * ChordSquared(c)
  }

  function AddPoint(pts: seq<PathPoint>, p: Pt, flags: set<PointFlag>, distTol: real): seq<PathPoint> {
    if |pts| > 0 && PtEquals(pts[|pts|-1].p, p, distTol)
    then pts[|pts|-1 := pts[|pts|-1].(flags := pts[|pts|-1].flags + flags)]
    else pts + [PathPoint(p, flags)]
  }

  /** The points after flattening c at a recursion level. */
  function Flattened(pts: seq<PathPoint>, c: Cubic, level: nat, kind: set<PointFlag>, tessTol: real, distTol: real): seq<PathPoint>
    decreases MAX_LEVEL + 1 - level
  {
    if level > MAX_LEVEL then pts
    else if Flat(c, tessTol) then AddPoint(pts, c.p4, kind, distTol)
    else if level + 1 > MAX_LEVEL then pts
    else
      var left := Flattened(pts, LeftHalf(c), level + 1, {}, tessTol, distTol);
      Flattened(left, RightHalf(c), level + 1, kind, tessTol, distTol)
  }

  /** The unfolding of Flattened. */
  lemma FlattenedSteps(pts: seq<PathPoint>, c: Cubic, level: nat, kind: set<PointFlag>, tessTol: real, distTol: real)
    ensures Flattened(pts, c, level, kind, tessTol, distTol) ==
            if level > MAX_LEVEL then pts
            else if Flat(c, tessTol) then AddPoint(pts, c.p4, kind, distTol)
            else if level + 1 > MAX_LEVEL then pts
            else Flattened(Flattened(pts, LeftHalf(c), level + 1, {}, tessTol, distTol), RightHalf(c), level + 1, kind, tessTol, distTol)
  {
    hide Flat, LeftHalf, RightHalf, AddPoint;
  }

  /** Width of a level's subcurves, in 1024ths of the root curve. */
  function Width(level: nat): (w: nat)
    requires level <= MAX_LEVEL
    ensures w >= 1
    decreases MAX_LEVEL - level
  {
    if level == MAX_LEVEL then 1 else 2 * Width(level + 1)
  }

  lemma WidthHalves(level: nat)
    requires level < MAX_LEVEL
    ensures Width(level) == Width(level + 1) + Width(level + 1)
  {
  }

  ghost function Param(lo: nat, hi: nat, t: real): real {
    (lo as real + t * (hi - lo) as real) / 1024.0
  }

  ghost predicate Traces(root: Cubic, sub: Cubic, lo: nat, hi: nat) {
    forall t: real :: At(sub, t) == At(root, Param(lo, hi, t))
  }

  /** The flat leaves of the subdivision, left to right; depth-10 leaves that are not flat are missing. */
  ghost function Pieces(c: Cubic, level: nat, base: nat, kind: set<PointFlag>, tessTol: real): seq<Piece>
    requires level <= MAX_LEVEL
    decreases MAX_LEVEL - level
  {
    if Flat(c, tessTol) then [Piece(c, base, base + Width(level), kind)]
    else if level == MAX_LEVEL then []
    else
      Pieces(LeftHalf(c), level + 1, base, {}, tessTol)
      + Pieces(RightHalf(c), level + 1, base + Width(level + 1), kind, tessTol)
  }

  /** The subcurve of a depth over the k-th of the Width(level) unit cells of c: the nodes on the way from c to the cell. */
  ghost function Node(c: Cubic, level: nat, k: nat, depth: nat): Cubic
    requires level <= depth <= MAX_LEVEL && k < Width(level)
    decreases MAX_LEVEL - level
  {
    if level == depth then c
    else if k < Width(level + 1) then Node(LeftHalf(c), level + 1, k, depth)
    else Node(RightHalf(c), level + 1, k - Width(level + 1), depth)
  }

  /** Some node on the way to the cell is flat. */
  ghost predicate FlatAbove(c: Cubic, level: nat, k: nat, tessTol: real)
    requires level <= MAX_LEVEL && k < Width(level)
  {
    exists depth :: level <= depth <= MAX_LEVEL && Flat(Node(c, level, k, depth), tessTol)
  }

  ghost function AddAll(pts: seq<PathPoint>, ps: seq<Piece>, distTol: real): seq<PathPoint>
    decreases |ps|
  {
    if ps == [] then pts
    else AddAll(AddPoint(pts, ps[0].sub.p4, ps[0].flags, distTol), ps[1..], distTol)
  }

  lemma AddAllOne(pts: seq<PathPoint>, p: Piece, distTol: real)
    ensures AddAll(pts, [p], distTol) == AddPoint(pts, p.sub.p4, p.flags, distTol)
  {
    hide AddPoint;
    assert AddAll(AddPoint(pts, p.sub.p4, p.flags, distTol), [p][1..], distTol) == AddPoint(pts, p.sub.p4, p.flags, distTol);
  }

  lemma AddAllNone(pts: seq<PathPoint>, distTol: real)
    ensures AddAll(pts, [], distTol) == pts
  {
  }

  lemma {:induction false} AddAllConcat(pts: seq<PathPoint>, ps: seq<Piece>, qs: seq<Piece>, distTol: real)
    ensures AddAll(pts, ps + qs, distTol) == AddAll(AddAll(pts, ps, distTol), qs, distTol)
    decreases |ps|
  {
    hide AddPoint;
    if ps == [] {
      assert ps + qs == qs;
    } else {
      assert (ps + qs)[1..] == ps[1..] + qs;
      AddAllConcat(AddPoint(pts, ps[0].sub.p4, ps[0].flags, distTol), ps[1..], qs, distTol);
    }
  }

  /** Flattening feeds the endpoints of the flat leaves, in order, to AddPoint. */
  lemma {:induction false} FlattenedIsPieces(pts: seq<PathPoint>, c: Cubic, level: nat, base: nat, kind: set<PointFlag>, tessTol: real, distTol: real)
    requires level <= MAX_LEVEL
    ensures Flattened(pts, c, level, kind, tessTol, distTol) == AddAll(pts, Pieces(c, level, base, kind, tessTol), distTol)
    decreases MAX_LEVEL - level
  {
    hide AddPoint, AddAll, Flat, LeftHalf, RightHalf, Width, Flattened;
    FlattenedSteps(pts, c, level, kind, tessTol, distTol);
    if Flat(c, tessTol) {
      AddAllOne(pts, Piece(c, base, base + Width(level), kind), distTol);
    } else if level == MAX_LEVEL {
      AddAllNone(pts, distTol);
    } else {
      var ls := Pieces(LeftHalf(c), level + 1, base, {}, tessTol);
      var rs := Pieces(RightHalf(c), level + 1, base + Width(level + 1), kind, tessTol);
      FlattenedIsPieces(pts, LeftHalf(c), level + 1, base, {}, tessTol, distTol);
      FlattenedIsPieces(AddAll(pts, ls, distTol), RightHalf(c), level + 1, base + Width(level + 1), kind, tessTol, distTol);
      AddAllConcat(pts, ls, rs, distTol);
    }
  }

  lemma HalvesTrace(root: Cubic, c: Cubic, lo: nat, w: nat)
    requires Traces(root, c, lo, lo + 2 * w)
    ensures Traces(root, LeftHalf(c), lo, lo + w)
    ensures Traces(root, RightHalf(c), lo + w, lo + 2 * w)
  {
    hide At, LeftHalf, RightHalf;
    forall t: real
      ensures At(LeftHalf(c), t) == At(root, Param(lo, lo + w, t))
      ensures At(RightHalf(c), t) == At(root, Param(lo + w, lo + 2 * w, t))
    {
      HalvesReparametrise(c, t);
      assert Param(lo, lo + 2 * w, t * 0.5) == Param(lo, lo + w, t);
      assert Param(lo, lo + 2 * w, (1.0 + t) * 0.5) == Param(lo + w, lo + 2 * w, t);
    }
  }

  ghost predicate Ordered(ps: seq<Piece>, lo: nat, hi: nat) {
    && (forall i :: 0 <= i < |ps| ==> lo <= ps[i].lo < ps[i].hi <= hi)
    && (forall i, j :: 0 <= i < j < |ps| ==> ps[i].hi <= ps[j].lo)
  }

  ghost predicate InPiece(ps: seq<Piece>, k: nat) {
    exists i :: 0 <= i < |ps| && ps[i].lo <= k < ps[i].hi
  }

  lemma OrderedConcat(ls: seq<Piece>, rs: seq<Piece>, lo: nat, mid: nat, hi: nat)
    requires Ordered(ls, lo, mid) && Ordered(rs, mid, hi) && lo <= mid <= hi
    ensures Ordered(ls + rs, lo, hi)
  {
  }

  lemma InPieceConcat(ls: seq<Piece>, rs: seq<Piece>, k: nat)
    ensures InPiece(ls + rs, k) <==> InPiece(ls, k) || InPiece(rs, k)
  {
    var ps := ls + rs;
    if InPiece(ls, k) {
      var i :| 0 <= i < |ls| && ls[i].lo <= k < ls[i].hi;
      assert ps[i] == ls[i];
    }
    if InPiece(rs, k) {
      var i :| 0 <= i < |rs| && rs[i].lo <= k < rs[i].hi;
      assert ps[|ls| + i] == rs[i];
    }
    if InPiece(ps, k) {
      var i :| 0 <= i < |ps| && ps[i].lo <= k < ps[i].hi;
      assert if i < |ls| then ps[i] == ls[i] else ps[i] == rs[i - |ls|];
    }
  }

  lemma OutOfPieces(ps: seq<Piece>, lo: nat, hi: nat, k: nat)
    requires Ordered(ps, lo, hi) && !(lo <= k < hi)
    ensures !InPiece(ps, k)
  {
  }

  /** The unfolding of Pieces at a node that is split. */
  lemma PiecesSplit(c: Cubic, level: nat, base: nat, kind: set<PointFlag>, tessTol: real)
    requires level < MAX_LEVEL && !Flat(c, tessTol)
    ensures Pieces(c, level, base, kind, tessTol)
         == Pieces(LeftHalf(c), level + 1, base, {}, tessTol)
            + Pieces(RightHalf(c), level + 1, base + Width(level + 1), kind, tessTol)
  {
    hide Flat, LeftHalf, RightHalf, Width;
  }

  lemma PiecesLeafOrdered(c: Cubic, level: nat, base: nat, kind: set<PointFlag>, tessTol: real)
    requires level <= MAX_LEVEL && (Flat(c, tessTol) || level == MAX_LEVEL)
    ensures Ordered(Pieces(c, level, base, kind, tessTol), base, base + Width(level))
  {
    hide Flat;
    var ps := Pieces(c, level, base, kind, tessTol);
    assert ps == [] || ps == [Piece(c, base, base + Width(level), kind)];
  }

  /** The flat leaves are ordered and disjoint. */
  lemma {:induction false} PiecesOrdered(c: Cubic, level: nat, base: nat, kind: set<PointFlag>, tessTol: real)
    requires level <= MAX_LEVEL
    ensures Ordered(Pieces(c, level, base, kind, tessTol), base, base + Width(level))
    decreases MAX_LEVEL - level
  {
    hide Flat, LeftHalf, RightHalf, Ordered, Pieces, Width;
    if Flat(c, tessTol) || level == MAX_LEVEL {
      PiecesLeafOrdered(c, level, base, kind, tessTol);
    } else {
      var w := Width(level + 1);
      PiecesSplit(c, level, base, kind, tessTol);
      WidthHalves(level);
      PiecesOrdered(LeftHalf(c), level + 1, base, {}, tessTol);
      PiecesOrdered(RightHalf(c), level + 1, base + w, kind, tessTol);
      OrderedConcat(Pieces(LeftHalf(c), level + 1, base, {}, tessTol),
                    Pieces(RightHalf(c), level + 1, base + w, kind, tessTol), base, base + w, base + w + w);
    }
  }

  ghost predicate AllTrace(ps: seq<Piece>, root: Cubic, tessTol: real) {
    forall p :: p in ps ==> Flat(p.sub, tessTol) && p.lo < p.hi && Traces(root, p.sub, p.lo, p.hi)
  }

  lemma AllTraceConcat(ls: seq<Piece>, rs: seq<Piece>, root: Cubic, tessTol: real)
    requires AllTrace(ls, root, tessTol) && AllTrace(rs, root, tessTol)
    ensures AllTrace(ls + rs, root, tessTol)
  {
    hide Flat, Traces;
  }

  lemma LeafTraces(root: Cubic, c: Cubic, level: nat, base: nat, kind: set<PointFlag>, tessTol: real)
    requires level <= MAX_LEVEL && (Flat(c, tessTol) || level == MAX_LEVEL)
    requires Traces(root, c, base, base + Width(level))
    ensures AllTrace(Pieces(c, level, base, kind, tessTol), root, tessTol)
  {
    hide Flat, Traces, Width;
    assert Pieces(c, level, base, kind, tessTol) == if Flat(c, tessTol) then [Piece(c, base, base + Width(level), kind)] else [];
  }

  /** Each leaf is flat and traces its own stretch of the root curve. */
  lemma {:induction false} PiecesTrace(root: Cubic, c: Cubic, level: nat, base: nat, kind: set<PointFlag>, tessTol: real)
    requires level <= MAX_LEVEL
    requires Traces(root, c, base, base + Width(level))
    ensures AllTrace(Pieces(c, level, base, kind, tessTol), root, tessTol)
    decreases MAX_LEVEL - level
  {
    hide Flat, LeftHalf, RightHalf, Traces, Width, Pieces, AllTrace;
    if Flat(c, tessTol) || level == MAX_LEVEL {
      LeafTraces(root, c, level, base, kind, tessTol);
    } else {
      var w := Width(level + 1);
      PiecesSplit(c, level, base, kind, tessTol);
      WidthHalves(level);
      assert base + Width(level) == base + 2 * w && base + 2 * w == base + w + w;
      HalvesTrace(root, c, base, w);
      PiecesTrace(root, LeftHalf(c), level + 1, base, {}, tessTol);
      PiecesTrace(root, RightHalf(c), level + 1, base + w, kind, tessTol);
      AllTraceConcat(Pieces(LeftHalf(c), level + 1, base, {}, tessTol),
                     Pieces(RightHalf(c), level + 1, base + w, kind, tessTol), root, tessTol);
    }
  }

  lemma PiecesLeafCovers(c: Cubic, level: nat, base: nat, kind: set<PointFlag>, tessTol: real, k: nat)
    requires level <= MAX_LEVEL && (Flat(c, tessTol) || level == MAX_LEVEL) && k < Width(level)
    ensures InPiece(Pieces(c, level, base, kind, tessTol), base + k) <==> Flat(c, tessTol)
  {
    hide Flat, Width;
    var ps := Pieces(c, level, base, kind, tessTol);
    if Flat(c, tessTol) { assert ps[0].lo <= base + k < ps[0].hi; }
  }

  lemma FlatAboveLeaf(c: Cubic, level: nat, k: nat, tessTol: real)
    requires level <= MAX_LEVEL && k < Width(level) && (Flat(c, tessTol) || level == MAX_LEVEL)
    ensures FlatAbove(c, level, k, tessTol) <==> Flat(c, tessTol)
  {
    hide Flat, Width, LeftHalf, RightHalf;
    NodeSelf(c, level, k);
  }

  lemma FlatAboveSplit(c: Cubic, level: nat, k: nat, tessTol: real)
    requires level < MAX_LEVEL && k < Width(level) && !Flat(c, tessTol)
    ensures FlatAbove(c, level, k, tessTol) <==>
            if k < Width(level + 1) then FlatAbove(LeftHalf(c), level + 1, k, tessTol)
            else FlatAbove(RightHalf(c), level + 1, k - Width(level + 1), tessTol)
  {
    hide Flat, LeftHalf, RightHalf, Node;
    WidthHalves(level);
    hide Width;
    var w := Width(level + 1);
    var half, j := if k < w then LeftHalf(c) else RightHalf(c), if k < w then k else k - w;
    NodeSelf(c, level, k);
    if FlatAbove(c, level, k, tessTol) {
      var depth :| level <= depth <= MAX_LEVEL && Flat(Node(c, level, k, depth), tessTol);
      NodeBelow(c, level, k, depth);
    }
    if FlatAbove(half, level + 1, j, tessTol) {
      var depth :| level + 1 <= depth <= MAX_LEVEL && Flat(Node(half, level + 1, j, depth), tessTol);
      NodeBelow(c, level, k, depth);
    }
  }

  lemma NodeSelf(c: Cubic, level: nat, k: nat)
    requires level <= MAX_LEVEL && k < Width(level)
    ensures Node(c, level, k, level) == c
  {
  }

  lemma NodeBelow(c: Cubic, level: nat, k: nat, depth: nat)
    requires level < depth <= MAX_LEVEL && k < Width(level)
    ensures k < Width(level + 1) ==> Node(c, level, k, depth) == Node(LeftHalf(c), level + 1, k, depth)
    ensures k >= Width(level + 1) ==>
              && k - Width(level + 1) < Width(level + 1)
              && Node(c, level, k, depth) == Node(RightHalf(c), level + 1, k - Width(level + 1), depth)
  {
    hide LeftHalf, RightHalf;
    WidthHalves(level);
    hide Width;
  }

  /** A 1024th of the curve lies in a flat leaf if and only if some subcurve on the way down to it is flat; else it is dropped. */
  lemma {:induction false} PiecesCover(c: Cubic, level: nat, base: nat, kind: set<PointFlag>, tessTol: real, k: nat)
    requires level <= MAX_LEVEL && k < Width(level)
    ensures InPiece(Pieces(c, level, base, kind, tessTol), base + k) <==> FlatAbove(c, level, k, tessTol)
    decreases MAX_LEVEL - level
  {
    hide Flat, LeftHalf, RightHalf, Width, Pieces, InPiece, Ordered, FlatAbove;
    if Flat(c, tessTol) || level == MAX_LEVEL {
      PiecesLeafCovers(c, level, base, kind, tessTol, k);
      FlatAboveLeaf(c, level, k, tessTol);
    } else {
      var w := Width(level + 1);
      var ls, rs := Pieces(LeftHalf(c), level + 1, base, {}, tessTol), Pieces(RightHalf(c), level + 1, base + w, kind, tessTol);
      PiecesSplit(c, level, base, kind, tessTol);
      WidthHalves(level);
      FlatAboveSplit(c, level, k, tessTol);
      PiecesOrdered(LeftHalf(c), level + 1, base, {}, tessTol);
      PiecesOrdered(RightHalf(c), level + 1, base + w, kind, tessTol);
      InPieceConcat(ls, rs, base + k);
      if k < w {
        PiecesCover(LeftHalf(c), level + 1, base, {}, tessTol, k);
        OutOfPieces(rs, base + w, base + w + w, base + k);
      } else {
        PiecesCover(RightHalf(c), level + 1, base + w, kind, tessTol, k - w);
        assert base + w + (k - w) == base + k;
        OutOfPieces(ls, base, base + w, base + k);
      }
    }
  }

  lemma NoPiece(c: Cubic, base: nat, kind: set<PointFlag>, tessTol: real)
    requires !Flat(c, tessTol)
    ensures Pieces(c, MAX_LEVEL, base, kind, tessTol) == []
  {
    hide Flat;
  }

  lemma PointHalves(p: Pt)
    ensures LeftHalf(Cubic(p, p, p, p)) == Cubic(p, p, p, p) && RightHalf(Cubic(p, p, p, p)) == Cubic(p, p, p, p)
  {
    assert Mid(p, p) == p;
    hide Mid;
  }

  lemma PointNotFlat(p: Pt, tessTol: real)
    ensures !Flat(Cubic(p, p, p, p), tessTol)
  {
    var c := Cubic(p, p, p, p);
    assert ChordSquared(c) == 0.0;
    hide Cross, ChordSquared, Squared;
    assert tessTol * 0.0 == 0.0;
    SquaredSign(Abs(Cross(c, p)) + Abs(Cross(c, p)));
  }

  lemma SquaredSign(a: real)
    ensures Squared(a) >= 0.0
  {
  }

  /** A curve whose four control points coincide is never flat: all of it is dropped, its end point included. */
  lemma {:induction false} PointCurveVanishes(p: Pt, level: nat, base: nat, kind: set<PointFlag>, tessTol: real)
    requires level <= MAX_LEVEL
    ensures Pieces(Cubic(p, p, p, p), level, base, kind, tessTol) == []
    decreases MAX_LEVEL - level
  {
    hide Flat, LeftHalf, RightHalf, Width, Pieces;
    PointHalves(p);
    PointNotFlat(p, tessTol);
    if level == MAX_LEVEL {
      NoPiece(Cubic(p, p, p, p), base, kind, tessTol);
    } else {
      PiecesSplit(Cubic(p, p, p, p), level, base, kind, tessTol);
      PointCurveVanishes(p, level + 1, base, {}, tessTol);
      PointCurveVanishes(p, level + 1, base + Width(level + 1), kind, tessTol);
    }
  }

  lemma AddPointKeeps(pts: seq<PathPoint>, p: Pt, flags: set<PointFlag>, distTol: real)
    ensures var out := AddPoint(pts, p, flags, distTol);
            && (|out| == |pts| || (|out| == |pts| + 1 && out[|pts|].p == p))
            && (forall i :: 0 <= i < |pts| ==> out[i].p == pts[i].p)
  {
    hide PtEquals;
  }

  /** sel lists, in increasing order, the pieces whose endpoint became a point of its own. */
  ghost predicate Selects(pts: seq<PathPoint>, ps: seq<Piece>, out: seq<PathPoint>, sel: seq<nat>) {
    && |out| == |pts| + |sel|
    && (forall i :: 0 <= i < |pts| ==> out[i].p == pts[i].p)
    && (forall i :: 0 <= i < |sel| ==> sel[i] < |ps| && out[|pts| + i].p == ps[sel[i]].sub.p4)
    && (forall i, j :: 0 <= i < j < |sel| ==> sel[i] < sel[j])
  }

  lemma {:induction false} AddAllSelects(pts: seq<PathPoint>, ps: seq<Piece>, distTol: real) returns (sel: seq<nat>)
    ensures Selects(pts, ps, AddAll(pts, ps, distTol), sel)
    decreases |ps|
  {
    hide AddPoint;
    if ps == [] {
      sel := [];
    } else {
      var mid := AddPoint(pts, ps[0].sub.p4, ps[0].flags, distTol);
      var rest := AddAllSelects(mid, ps[1..], distTol);
      sel := SelectsPush(pts, mid, ps, AddAll(pts, ps, distTol), rest, distTol);
    }
  }

  /** One piece in front: its endpoint may have become a point of its own. */
  lemma SelectsPush(pts: seq<PathPoint>, mid: seq<PathPoint>, ps: seq<Piece>, out: seq<PathPoint>, rest: seq<nat>, distTol: real)
    returns (sel: seq<nat>)
    requires ps != [] && mid == AddPoint(pts, ps[0].sub.p4, ps[0].flags, distTol) && Selects(mid, ps[1..], out, rest)
    ensures Selects(pts, ps, out, sel)
  {
    AddPointKeeps(pts, ps[0].sub.p4, ps[0].flags, distTol);
    hide AddPoint;
    var shifted := seq(|rest|, i requires 0 <= i < |rest| => rest[i] + 1);
    if |mid| == |pts| {
      sel := shifted;
      assert forall i :: 0 <= i < |sel| ==> ps[1..][rest[i]] == ps[sel[i]];
    } else {
      sel := [0] + shifted;
      forall i | 0 <= i < |sel|
        ensures sel[i] < |ps| && out[|pts| + i].p == ps[sel[i]].sub.p4
      {
        if i == 0 {
          assert out[|pts|].p == mid[|pts|].p;
        } else {
          assert ps[1..][rest[i-1]] == ps[sel[i]] && out[|mid| + (i - 1)].p == ps[1..][rest[i-1]].sub.p4;
        }
      }
    }
  }

  lemma TracesEnd(root: Cubic, sub: Cubic, lo: nat, hi: nat)
    requires Traces(root, sub, lo, hi)
    ensures sub.p4 == At(root, hi as real / 1024.0)
  {
    assert Param(lo, hi, 1.0) == hi as real / 1024.0;
    assert At(sub, 1.0) == At(root, Param(lo, hi, 1.0));
    assert At(sub, 1.0) == sub.p4;
  }

  lemma TracesSelf(c: Cubic)
    ensures Traces(c, c, 0, 1024)
  {
    hide At;
    forall t: real ensures At(c, t) == At(c, Param(0, 1024, t)) {
      assert Param(0, 1024, t) == t;
    }
  }

  /**
   * Every point one top-level call appends is the curve's point at a parameter k/1024, the k strictly
   * increasing, and it ends a piece of the curve that passed the flatness test.
   */
  lemma FlattenedOnCurve(pts: seq<PathPoint>, c: Cubic, kind: set<PointFlag>, tessTol: real, distTol: real)
    returns (ks: seq<nat>)
    ensures var out := Flattened(pts, c, 0, kind, tessTol, distTol);
            && |out| == |pts| + |ks| <= |pts| + 1024
            && (forall i :: 0 <= i < |pts| ==> out[i].p == pts[i].p)
            && (forall i :: 0 <= i < |ks| ==> 0 < ks[i] <= 1024 && out[|pts| + i].p == At(c, ks[i] as real / 1024.0))
            && (forall i, j :: 0 <= i < j < |ks| ==> ks[i] < ks[j])
  {
    WidthOfRoot();
    TracesSelf(c);
    hide Flat, LeftHalf, RightHalf, PtEquals, AddPoint, Flattened, Pieces, AddAll, Node, FlatAbove, At, Traces;
    var ps := Pieces(c, 0, 0, kind, tessTol);
    FlattenedIsPieces(pts, c, 0, 0, kind, tessTol, distTol);
    PiecesTrace(c, c, 0, 0, kind, tessTol);
    PiecesOrdered(c, 0, 0, kind, tessTol);
    var sel := AddAllSelects(pts, ps, distTol);
    ks := seq(|sel|, i requires 0 <= i < |sel| => ps[sel[i]].hi);
    forall i | 0 <= i < |sel|
      ensures ps[sel[i]].sub.p4 == At(c, ks[i] as real / 1024.0)
    {
      var p := ps[sel[i]];
      assert p in ps;
      TracesEnd(c, p.sub, p.lo, p.hi);
    }
    IncreasingBound(ks, 1024);
  }

  lemma WidthOfRoot()
    ensures Width(0) == 1024
  {
    assert Width(9) == 2 && Width(8) == 4 && Width(7) == 8 && Width(6) == 16;
    assert Width(5) == 32 && Width(4) == 64 && Width(3) == 128 && Width(2) == 256;
  }

  lemma {:induction false} IncreasingBound(ks: seq<nat>, n: nat)
    requires forall i :: 0 <= i < |ks| ==> 0 < ks[i] <= n
    requires forall i, j :: 0 <= i < j < |ks| ==> ks[i] < ks[j]
    ensures |ks| <= n
  {
    if ks != [] {
      var m := |ks| - 1;
      IncreasingBound(ks[..m], ks[m] - 1);
    }
  }
}
