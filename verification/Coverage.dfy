/** The coverage of a shape's rows in terms of its edges at their stepped positions, without any list. */
module Coverage {
  import opened Bezier
  import opened Winding
  import opened ActiveList
  import opened Spans
  import opened Blend

  /** Fixed-point position x on sub-scanline k lies inside by the fill rule, each edge taken where stepping has put it. */
  predicate InsideShape(rule: FillRule, edges: seq<Edge>, k: nat, x: int)
    requires AllWellFormed(edges)
  {
    Inside(rule, EdgeSum(rule, edges, |edges|, k, x))
  }

  /** On every sub-scanline the crossing edges cancel, as they do for closed loops. */
  ghost predicate Cancels(edges: seq<Edge>) {
    forall k: nat :: DirSum(edges, Scan(k)) == 0 && CrossCount(edges, Scan(k)) % 2 == 0
  }

  /** Edges built from closed loops, placed on the image and sorted, cancel on every sub-scanline. */
  lemma LoopsCancel(loops: seq<seq<Pt>>, tx: real, ty: real, sorted: seq<Edge>)
    requires multiset(sorted) == multiset(PlaceEdges(ShapeEdges(loops), tx, ty))
    ensures Cancels(sorted)
  {
    hide DirSum, CrossCount, ShapeEdges, PlaceEdges;
    var placed := PlaceEdges(ShapeEdges(loops), tx, ty);
    forall k: nat ensures DirSum(sorted, Scan(k)) == 0 && CrossCount(sorted, Scan(k)) % 2 == 0 {
      DirSumPermuted(sorted, placed, Scan(k));
      PlacedDirSum(ShapeEdges(loops), tx, ty, Scan(k));
      ShapeDirSum(loops, Scan(k) / SUBSAMPLES as real - ty);
    }
  }

  /** They also all run strictly downwards. */
  lemma LoopsWellFormed(loops: seq<seq<Pt>>, tx: real, ty: real, sorted: seq<Edge>)
    requires multiset(sorted) == multiset(PlaceEdges(ShapeEdges(loops), tx, ty))
    ensures AllWellFormed(sorted)
  {
    var es := ShapeEdges(loops);
    var placed := PlaceEdges(es, tx, ty);
    ShapeEdgesWellFormed(loops);
    hide ShapeEdges;
    forall i | 0 <= i < |sorted| ensures WellFormed(sorted[i]) {
      assert sorted[i] in multiset(placed);
      var j :| 0 <= j < |placed| && placed[j] == sorted[i];
      assert es[j] in es;
    }
  }

  lemma {:induction false} EdgeSumAll(rule: FillRule, edges: seq<Edge>, n: nat, k: nat, x: int)
    requires n <= |edges| && AllWellFormed(edges)
    requires forall j :: 0 <= j < n && Crosses(edges[j], Scan(k)) ==> XAt(edges[j], k) <= x
    ensures EdgeSum(rule, edges, n, k, x) ==
            if rule == NonZero then DirSum(edges[..n], Scan(k)) else CrossCount(edges[..n], Scan(k))
  {
    hide XAt, Crosses;
    if n > 0 {
      assert edges[..n][..n-1] == edges[..n-1];
      EdgeSumAll(rule, edges, n - 1, k, x);
    }
  }

  /** A position at or right of every active edge. */
  ghost function RightEnd(s: seq<Active>): int { if s == [] then 0 else s[|s|-1].x }

  lemma SweepRightEnd(s: seq<Active>, edges: seq<Edge>, k: nat)
    requires AllWellFormed(edges) && SweepInv(s, edges, k)
    ensures forall j :: 0 <= j < |edges| && Crosses(edges[j], Scan(k)) ==> XAt(edges[j], k) <= RightEnd(s)
  {
    hide XAt, StepX;
    forall j: nat | j < |edges| && Crosses(edges[j], Scan(k)) ensures XAt(edges[j], k) <= RightEnd(s) {
      assert HasSrc(multiset(s), j);
      var a :| a in multiset(s) && a.src == j;
      assert Matches(a, edges, k);
      var i :| 0 <= i < |s| && s[i] == a;
      assert s[i].x <= s[|s|-1].x;
    }
  }

  lemma SweepDirs(s: seq<Active>, edges: seq<Edge>, k: nat)
    requires SweepInv(s, edges, k)
    ensures Dirs(s)
  {
    hide XAt, StepX;
    forall i | 0 <= i < |s| ensures s[i].dir == 1 || s[i].dir == -1 {
      assert s[i] in multiset(s);
      assert Matches(s[i], edges, k);
    }
  }

  /**
   * On every sub-scanline of a swept shape no span is left open, the spans are ordered, and together they
   * are exactly the positions inside it, edges at their stepped positions.
   */
  lemma SweepSpans(rule: FillRule, s: seq<Active>, edges: seq<Edge>, k: nat, x: int)
    requires AllWellFormed(edges) && Cancels(edges) && SweepInv(s, edges, k)
    ensures Scanned(rule, s).w == 0 && OrderedSpans(SpansOf(rule, s))
    ensures InSpans(SpansOf(rule, s), x) <==> InsideShape(rule, edges, k, x)
  {
    SweepDirs(s, edges, k);
    SweepRightEnd(s, edges, k);
    EdgeSumAll(rule, edges, |edges|, k, RightEnd(s));
    assert edges[..|edges|] == edges;
    assert DirSum(edges, Scan(k)) == 0 && CrossCount(edges, Scan(k)) % 2 == 0;
    SumUpToIsEdgeSum(rule, s, edges, |edges|, k, RightEnd(s));
    SumUpToIsEdgeSum(rule, s, edges, |edges|, k, x);
    assert forall i :: 0 <= i < |s| ==> s[i].x <= RightEnd(s);
    hide Exact, Scanned, SumUpTo, EdgeSum, InSpans, OrderedSpans, Cancels, AllWellFormed;
    SpansAreInside(rule, s, RightEnd(s), x);
  }

  /** Total coverage of pixel p over n sub-scanlines from k0 on. */
  function RowTotal(trace: seq<seq<Active>>, rule: FillRule, k0: nat, n: nat, p: int, weight: nat): nat
    requires k0 + n <= |trace|
  {
    if n == 0 then 0
    else RowTotal(trace, rule, k0, n - 1, p, weight) + CoverSum(p, SpansOf(rule, trace[k0 + n - 1]), weight)
  }

  lemma {:induction false} RowTotalPrefix(trace: seq<seq<Active>>, more: seq<seq<Active>>, rule: FillRule, k0: nat, n: nat, p: int, weight: nat)
    requires k0 + n <= |trace| && trace <= more
    ensures RowTotal(more, rule, k0, n, p, weight) == RowTotal(trace, rule, k0, n, p, weight)
  {
    if n > 0 { RowTotalPrefix(trace, more, rule, k0, n - 1, p, weight); }
  }

  /** Number of fixed-point positions of pixel p inside the shape on sub-scanline k. */
  ghost function InsidePixel(edges: seq<Edge>, rule: FillRule, k: nat, p: int): nat
    requires AllWellFormed(edges)
  {
    InsideCount(x => InsideShape(rule, edges, k, x), p * FIX, p * FIX + FIX)
  }

  /** Number of fixed-point positions of pixel p inside the shape, over n sub-scanlines from k0 on. */
  ghost function InsideTotal(edges: seq<Edge>, rule: FillRule, k0: nat, n: nat, p: int): nat
    requires AllWellFormed(edges)
  {
    if n == 0 then 0
    else InsideTotal(edges, rule, k0, n - 1, p)
         + InsidePixel(edges, rule, k0 + n - 1, p)
  }

  /** Number of spans that meet pixel p, over n sub-scanlines from k0 on. */
  function MeetingTotal(trace: seq<seq<Active>>, rule: FillRule, k0: nat, n: nat, p: int): nat
    requires k0 + n <= |trace|
  {
    if n == 0 then 0
    else MeetingTotal(trace, rule, k0, n - 1, p) + Meeting(SpansOf(rule, trace[k0 + n - 1]), p * FIX, p * FIX + FIX)
  }

  ghost predicate Swept(trace: seq<seq<Active>>, edges: seq<Edge>) {
    forall k :: 0 <= k < |trace| ==> SweepInv(trace[k], edges, k)
  }

  lemma SpansOrdered(rule: FillRule, s: seq<Active>)
    requires SortedX(s)
    ensures OrderedSpans(SpansOf(rule, s))
  {
    ScannedBehind(rule, s, if s == [] then 0 else s[|s|-1].x);
  }

  /** n sub-scanlines never add more than n times the weight. */
  lemma {:induction false} RowTotalBound(trace: seq<seq<Active>>, rule: FillRule, k0: nat, n: nat, p: int, weight: nat)
    requires k0 + n <= |trace| && forall k :: 0 <= k < |trace| ==> SortedX(trace[k])
    ensures RowTotal(trace, rule, k0, n, p, weight) <= n * weight
  {
    if n > 0 {
      RowTotalBound(trace, rule, k0, n - 1, p, weight);
      SpansOrdered(rule, trace[k0 + n - 1]);
      CoverSumBound(p, SpansOf(rule, trace[k0 + n - 1]), weight);
      assert n * weight == (n - 1) * weight + weight;
    }
  }

  lemma SubScanlineBounds(rule: FillRule, s: seq<Active>, edges: seq<Edge>, k: nat, p: int, weight: nat)
    requires AllWellFormed(edges) && Cancels(edges) && SweepInv(s, edges, k)
    ensures var inside := InsidePixel(edges, rule, k, p);
            var sum := CoverSum(p, SpansOf(rule, s), weight);
            && sum * FIX <= inside * weight
            && inside * weight <= sum * FIX + Meeting(SpansOf(rule, s), p * FIX, p * FIX + FIX) * (FIX - 1)
  {
    hide Exact, Scanned, SumUpTo, EdgeSum, InSpans, OrderedSpans, Cancels, AllWellFormed, Meeting, CoverSum, Overlap, OverlapSum, Inside, SortedX;
    var spans := SpansOf(rule, s);
    forall x: int ensures InSpans(spans, x) <==> InsideShape(rule, edges, k, x) {
      SweepSpans(rule, s, edges, k, x);
    }
    SweepSpans(rule, s, edges, k, 0);
    CoverSumBounds(p, spans, weight);
    OverlapIsMeasure(spans, x => InsideShape(rule, edges, k, x), p * FIX, p * FIX + FIX);
  }

  /**
   * The coverage a row's pixel receives is the weighted measure in that pixel of the inside at the stepped
   * positions, short of it by less than one unit for each span that meets the pixel; the measure mentions no list
   * and no order.
   */
  lemma {:induction false} RowCoverage(trace: seq<seq<Active>>, edges: seq<Edge>, rule: FillRule, k0: nat, n: nat, p: int, weight: nat)
    requires AllWellFormed(edges) && Cancels(edges) && Swept(trace, edges) && k0 + n <= |trace|
    ensures var total := RowTotal(trace, rule, k0, n, p, weight);
            var inside := InsideTotal(edges, rule, k0, n, p);
            && total * FIX <= inside * weight
            && inside * weight <= total * FIX + MeetingTotal(trace, rule, k0, n, p) * (FIX - 1)
  {
    hide CoverSum, Meeting, InsidePixel, SweepInv, Cancels, AllWellFormed;
    if n > 0 {
      RowCoverage(trace, edges, rule, k0, n - 1, p, weight);
      assert SweepInv(trace[k0 + n - 1], edges, k0 + n - 1);
      SubScanlineBounds(rule, trace[k0 + n - 1], edges, k0 + n - 1, p, weight);
      Distribute(InsideTotal(edges, rule, k0, n - 1, p), InsidePixel(edges, rule, k0 + n - 1, p), weight);
    }
  }

  /** Sub-scanlines that fill a pixel, each with a single span, add their full weights; ones that miss it add nothing. */
  lemma {:induction false} RowExtremes(trace: seq<seq<Active>>, edges: seq<Edge>, rule: FillRule, k0: nat, n: nat, p: int, weight: nat)
    requires AllWellFormed(edges) && Cancels(edges) && Swept(trace, edges) && k0 + n <= |trace|
    ensures (forall k :: k0 <= k < k0 + n ==>
               InsidePixel(edges, rule, k, p) == 1024 && Meeting(SpansOf(rule, trace[k]), p * 1024, p * 1024 + 1024) <= 1)
            ==> RowTotal(trace, rule, k0, n, p, weight) == n * weight
    ensures (forall k :: k0 <= k < k0 + n ==> InsidePixel(edges, rule, k, p) == 0) ==> RowTotal(trace, rule, k0, n, p, weight) == 0
  {
    hide CoverSum, Meeting, InsidePixel, SweepInv, Cancels, AllWellFormed, SpansOf;
    if n > 0 {
      RowExtremes(trace, edges, rule, k0, n - 1, p, weight);
      var k := k0 + n - 1;
      assert SweepInv(trace[k], edges, k);
      SubScanlineBounds(rule, trace[k], edges, k, p, weight);
      WholeUnits(CoverSum(p, SpansOf(rule, trace[k]), weight), InsidePixel(edges, rule, k, p), weight,
                 Meeting(SpansOf(rule, trace[k]), p * FIX, p * FIX + FIX));
      assert n * weight == (n - 1) * weight + weight;
    }
  }

  lemma WholeUnits(sum: nat, inside: nat, weight: nat, meeting: nat)
    requires sum * FIX <= inside * weight <= sum * FIX + meeting * (FIX - 1)
    ensures inside == 1024 && meeting <= 1 ==> sum == weight
    ensures inside == 0 ==> sum == 0
  {
  }

  lemma Distribute(a: nat, b: nat, c: nat)
    ensures (a + b) * c == a * c + b * c
  {
  }
}
