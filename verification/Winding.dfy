/** Edges built from closed loops of points, and why their directions cancel on every scanline. */
module Winding {
  import opened Bezier

  datatype Edge = Edge(x0: real, y0: real, x1: real, y1: real, dir: int)

  const SUBSAMPLES := 5

  /** What adding the directed segment a -> b appends: nothing when it is horizontal. */
  function SegmentEdges(a: Pt, b: Pt): seq<Edge> {
    if a.y == b.y then []
    else if a.y < b.y then [Edge(a.x, a.y, b.x, b.y, 1)]
    else [Edge(b.x, b.y, a.x, a.y, -1)]
  }

  /** The edges of the open chain pts[0] -> pts[1] -> ... */
  function ChainEdges(pts: seq<Pt>): seq<Edge> {
    if |pts| < 2 then [] else ChainEdges(pts[..|pts|-1]) + SegmentEdges(pts[|pts|-2], pts[|pts|-1])
  }

  /** The edges of one closed loop, closing segment first. */
  function LoopEdges(pts: seq<Pt>): seq<Edge> {
    if pts == [] then [] else SegmentEdges(pts[|pts|-1], pts[0]) + ChainEdges(pts)
  }

  /** The edges of a loop after its first i points have been visited, each as the end of a segment. */
  function LoopPrefix(pts: seq<Pt>, i: nat): seq<Edge>
    requires i <= |pts|
  {
    if i == 0 then [] else SegmentEdges(pts[|pts|-1], pts[0]) + ChainEdges(pts[..i])
  }

  lemma LoopPrefixStep(pts: seq<Pt>, i: nat)
    requires i < |pts|
    ensures LoopPrefix(pts, i + 1) == LoopPrefix(pts, i) + SegmentEdges(pts[if i == 0 then |pts| - 1 else i - 1], pts[i])
  {
    hide SegmentEdges;
    if i > 0 { assert pts[..i+1][..i] == pts[..i]; }
  }

  lemma LoopPrefixNone(pts: seq<Pt>)
    ensures LoopPrefix(pts, 0) == []
  {
  }

  lemma LoopPrefixAll(pts: seq<Pt>)
    ensures LoopPrefix(pts, |pts|) == LoopEdges(pts)
  {
    assert pts[..|pts|] == pts;
  }

  function ShapeEdges(loops: seq<seq<Pt>>): seq<Edge> {
    if loops == [] then [] else ShapeEdges(loops[..|loops|-1]) + LoopEdges(loops[|loops|-1])
  }

  predicate Crosses(e: Edge, y: real) { e.y0 <= y < e.y1 }

  /** Sum of the directions of the edges that cross y. */
  function DirSum(es: seq<Edge>, y: real): int {
    if es == [] then 0
    else DirSum(es[..|es|-1], y) + (if Crosses(es[|es|-1], y) then es[|es|-1].dir else 0)
  }

  function CrossCount(es: seq<Edge>, y: real): nat {
    if es == [] then 0
    else CrossCount(es[..|es|-1], y) + (if Crosses(es[|es|-1], y) then 1 else 0)
  }

  /** 1 for a point at or above the scanline, 0 below it: a segment's crossing is the drop of this level. */
  function Level(p: Pt, y: real): int { if p.y <= y then 1 else 0 }

  lemma {:induction false} DirSumConcat(a: seq<Edge>, b: seq<Edge>, y: real)
    ensures DirSum(a + b, y) == DirSum(a, y) + DirSum(b, y)
    ensures CrossCount(a + b, y) == CrossCount(a, y) + CrossCount(b, y)
  {
    if b == [] {
      assert a + b == a;
    } else {
      assert (a + b)[..|a + b|-1] == a + b[..|b|-1];
      DirSumConcat(a, b[..|b|-1], y);
    }
  }

  lemma NothingCrosses(y: real)
    ensures DirSum([], y) == 0 && CrossCount([], y) == 0
  {
  }

  lemma SegmentDirSum(a: Pt, b: Pt, y: real)
    ensures DirSum(SegmentEdges(a, b), y) == Level(a, y) - Level(b, y)
    ensures CrossCount(SegmentEdges(a, b), y) == if Level(a, y) == Level(b, y) then 0 else 1
  {
    if a.y != b.y {
      var e := SegmentEdges(a, b)[0];
      assert SegmentEdges(a, b) == [e] && [e][..0] == [];
      assert DirSum([e], y) == DirSum([], y) + if Crosses(e, y) then e.dir else 0;
      assert CrossCount([e], y) == CrossCount([], y) + if Crosses(e, y) then 1 else 0;
    }
  }

  lemma {:induction false} ChainDirSum(pts: seq<Pt>, y: real)
    requires pts != []
    ensures DirSum(ChainEdges(pts), y) == Level(pts[0], y) - Level(pts[|pts|-1], y)
    ensures Even(CrossCount(ChainEdges(pts), y) - DirSum(ChainEdges(pts), y))
  {
    hide SegmentEdges, Crosses, Level, DirSum, CrossCount, Even;
    if |pts| == 1 {
      NothingCrosses(y);
      EvenZero();
    } else {
      var front := pts[..|pts|-1];
      var last := SegmentEdges(pts[|pts|-2], pts[|pts|-1]);
      assert ChainEdges(pts) == ChainEdges(front) + last;
      hide ChainEdges;
      ChainDirSum(front, y);
      SegmentDirSum(pts[|pts|-2], pts[|pts|-1], y);
      DirSumConcat(ChainEdges(front), last, y);
      SegmentEven(pts[|pts|-2], pts[|pts|-1], y);
      EvenSum(CrossCount(ChainEdges(front), y) - DirSum(ChainEdges(front), y), CrossCount(last, y) - DirSum(last, y));
    }
  }

  predicate Even(n: int) { n % 2 == 0 }

  lemma EvenZero()
    ensures Even(0)
  {
  }

  lemma EvenSum(a: int, b: int)
    requires Even(a) && Even(b)
    ensures Even(a + b)
  {
  }

  lemma SegmentEven(a: Pt, b: Pt, y: real)
    ensures Even(CrossCount(SegmentEdges(a, b), y) - DirSum(SegmentEdges(a, b), y))
  {
    SegmentDirSum(a, b, y);
  }

  lemma LoopDirSum(pts: seq<Pt>, y: real)
    ensures DirSum(LoopEdges(pts), y) == 0
    ensures CrossCount(LoopEdges(pts), y) % 2 == 0
  {
    hide SegmentEdges, ChainEdges, Crosses, Level, DirSum, CrossCount;
    if pts == [] {
      NothingCrosses(y);
    } else {
      var closing, chain := SegmentEdges(pts[|pts|-1], pts[0]), ChainEdges(pts);
      assert LoopEdges(pts) == closing + chain;
      SegmentDirSum(pts[|pts|-1], pts[0], y);
      SegmentEven(pts[|pts|-1], pts[0], y);
      ChainDirSum(pts, y);
      DirSumConcat(closing, chain, y);
      EvenSum(CrossCount(closing, y) - DirSum(closing, y), CrossCount(chain, y) - DirSum(chain, y));
    }
  }

  /** On every scanline the edges of a shape made of closed loops cancel, and an even number of them cross. */
  lemma {:induction false} ShapeDirSum(loops: seq<seq<Pt>>, y: real)
    ensures DirSum(ShapeEdges(loops), y) == 0
    ensures CrossCount(ShapeEdges(loops), y) % 2 == 0
  {
    hide DirSum, CrossCount, LoopEdges;
    if loops == [] {
      NothingCrosses(y);
    } else {
      ShapeDirSum(loops[..|loops|-1], y);
      LoopDirSum(loops[|loops|-1], y);
      DirSumConcat(ShapeEdges(loops[..|loops|-1]), LoopEdges(loops[|loops|-1]), y);
    }
  }

  /** Scaling and translation into sub-scanline units, applied to an edge and to a point. */
  function PlaceEdge(e: Edge, tx: real, ty: real): Edge {
    Edge(tx + e.x0, (ty + e.y0) * SUBSAMPLES as real, tx + e.x1, (ty + e.y1) * SUBSAMPLES as real, e.dir)
  }

  function PlaceEdges(es: seq<Edge>, tx: real, ty: real): (r: seq<Edge>)
    ensures |r| == |es|
    ensures forall i :: 0 <= i < |es| ==> r[i] == PlaceEdge(es[i], tx, ty)
  {
    if es == [] then [] else PlaceEdges(es[..|es|-1], tx, ty) + [PlaceEdge(es[|es|-1], tx, ty)]
  }

  /** Placing the edges asks, on sub-scanline y, the crossing question of the original edges at y/5 - ty. */
  lemma {:induction false} PlacedDirSum(es: seq<Edge>, tx: real, ty: real, y: real)
    ensures DirSum(PlaceEdges(es, tx, ty), y) == DirSum(es, y / SUBSAMPLES as real - ty)
    ensures CrossCount(PlaceEdges(es, tx, ty), y) == CrossCount(es, y / SUBSAMPLES as real - ty)
  {
    if es != [] {
      PlacedDirSum(es[..|es|-1], tx, ty, y);
      assert PlaceEdges(es, tx, ty)[..|es|-1] == PlaceEdges(es[..|es|-1], tx, ty);
    }
  }

  /** Every edge that addEdge stores runs strictly downwards and has direction 1 or -1. */
  predicate WellFormed(e: Edge) { e.y0 < e.y1 && (e.dir == 1 || e.dir == -1) }

  lemma {:induction false} ChainEdgesWellFormed(pts: seq<Pt>)
    ensures forall e :: e in ChainEdges(pts) ==> WellFormed(e)
  {
    if |pts| > 1 { ChainEdgesWellFormed(pts[..|pts|-1]); }
  }

  lemma {:induction false} ShapeEdgesWellFormed(loops: seq<seq<Pt>>)
    ensures forall e :: e in ShapeEdges(loops) ==> WellFormed(e)
    ensures forall e :: e in ShapeEdges(loops) ==> e.y0 < e.y1 && (e.dir == 1 || e.dir == -1)
  {
    hide ChainEdges;
    if loops != [] {
      ShapeEdgesWellFormed(loops[..|loops|-1]);
      ChainEdgesWellFormed(loops[|loops|-1]);
    }
  }

  lemma DirSumRemove(es: seq<Edge>, i: nat, y: real)
    requires i < |es|
    ensures DirSum(es, y) == DirSum(es[..i] + es[i+1..], y) + if Crosses(es[i], y) then es[i].dir else 0
    ensures CrossCount(es, y) == CrossCount(es[..i] + es[i+1..], y) + if Crosses(es[i], y) then 1 else 0
  {
    assert es == es[..i+1] + es[i+1..] && es[..i+1][..i] == es[..i];
    DirSumConcat(es[..i+1], es[i+1..], y);
    DirSumConcat(es[..i], es[i+1..], y);
  }

  lemma MultisetRemove<T>(s: seq<T>, i: nat)
    requires i < |s|
    ensures multiset(s[..i] + s[i+1..]) == multiset(s) - multiset{s[i]}
  {
    assert s == s[..i] + [s[i]] + s[i+1..];
  }

  /** Sorting the edges changes neither sum. */
  lemma {:induction false} DirSumPermuted(a: seq<Edge>, b: seq<Edge>, y: real)
    requires multiset(a) == multiset(b)
    ensures DirSum(a, y) == DirSum(b, y) && CrossCount(a, y) == CrossCount(b, y)
    decreases |a|
  {
    if a == [] {
      assert |multiset(b)| == |b|;
    } else {
      var last := |a| - 1;
      assert a[last] in multiset(b);
      var i :| 0 <= i < |b| && b[i] == a[last];
      var b' := b[..i] + b[i+1..];
      MultisetRemove(b, i);
      MultisetRemove(a, last);
      assert a[..last] + a[last+1..] == a[..last];
      DirSumRemove(b, i, y);
      DirSumPermuted(a[..last], b', y);
    }
  }
}
