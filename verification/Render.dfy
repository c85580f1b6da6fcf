/** Filling shapes one over the other into a cleared image, and unpremultiplying the result. */
module Render {
  import opened Common
  import opened Bezier
  import opened Winding
  import opened ActiveList
  import opened Spans
  import opened Blend
  import opened Scanline
  import opened Coverage
  import opened Defringe
  import opened Geometry
  import opened Shapes
  import opened Paths
  import opened Raster

  /** A shape's fill: its paths, fill rule, the paint's colour for every row and column, and whether it is drawn at all. */
  datatype Shape = Shape(paths: seq<Path>, rule: FillRule, paint: nat -> seq<Pixel>, visible: bool, filled: bool)

  ghost predicate ShapeOk(shape: Shape, width: nat, height: nat) {
    && (forall i :: 0 <= i < |shape.paths| ==> Drawable(shape.paths[i]))
    && (forall y :: 0 <= y < height ==> |shape.paint(y)| == width)
  }

  ghost predicate ImageOk(bm: seq<Byte>, width: nat, height: nat, stride: nat) {
    forall y :: 0 <= y < height ==> RowOk(bm, RowBase(y, stride), width)
  }

  /** What filling one shape does to the image. */
  ghost predicate ShapePainted(now: seq<Byte>, was: seq<Byte>, width: nat, height: nat, stride: nat,
                               trace: seq<seq<Active>>, edges: seq<Edge>, shape: Shape)
    requires ImageOk(was, width, height, stride) && ShapeOk(shape, width, height)
  {
    && |now| == |was| && |trace| == SUBSAMPLES * height && Swept(trace, edges)
    && (forall y :: 0 <= y < height ==>
          RowPainted(now, was, RowBase(y, stride), width, trace, shape.rule, y, shape.paint(y)))
    && (forall q :: 0 <= q < |was| && OutsideRows(q, height, stride, width) ==> now[q] == was[q])
  }

  /** sorted is some order of the edges of the shape's loops, placed on the image. */
  ghost predicate EdgesOf(sorted: seq<Edge>, shape: Shape, tx: real, ty: real, sx: real, sy: real)
    requires forall i :: 0 <= i < |shape.paths| ==> Drawable(shape.paths[i])
  {
    multiset(sorted) == multiset(PlaceEdges(ShapeEdges(Loops(shape.paths, sx, sy)), tx, ty))
  }

  /**
   * End to end: the coverage under which a pixel of a filled shape is blended is at most 255, and is 51/1024 of
   * the measure of the inside of the shape's own loops in the pixel's five sub-scanlines. It is short of that by
   * under one unit for each span met, and off by 51/1024 for each position across which rounding has carried an
   * edge; those positions are at most the crossing edges' own errors, and one for each such edge.
   */
  lemma FilledCoverage(trace: seq<seq<Active>>, sorted: seq<Edge>, shape: Shape, tx: real, ty: real, sx: real, sy: real, y: nat, p: int)
    requires forall i :: 0 <= i < |shape.paths| ==> Drawable(shape.paths[i])
    requires EdgesOf(sorted, shape, tx, ty, sx, sy)
    requires Swept(trace, sorted) && 5 * y + 5 <= |trace|
    ensures var total := RowTotal(trace, shape.rule, 5 * y, 5, p, 51);
            var measure := TrueTotal(shape.rule, Loops(shape.paths, sx, sy), tx, ty, 5 * y, 5, p);
            var carried := CarriedTotal(sorted, 5 * y, 5, p);
            && total <= 255 && total * 1024 <= (measure + carried) * 51
            && measure * 51 <= total * 1024 + MeetingTotal(trace, shape.rule, 5 * y, 5, p) * 1023 + carried * 51
            && carried as real <= CarryBoundTotal(sorted, 5 * y, 5)
  {
    hide EdgesOf, RowTotal, InsideTotal, MeetingTotal, AllWellFormed, TrueTotal, CarriedTotal, CarryBoundTotal, Swept, Loops, Drawable;
    var k := SUBSAMPLES * y;
    SweptTotals(trace, sorted, shape, tx, ty, sx, sy, y, p);
    TrueTotals(sorted, shape, tx, ty, sx, sy, y, p);
    TotalCarriedIsBounded(sorted, k, SUBSAMPLES, p);
    ThroughInside(RowTotal(trace, shape.rule, k, SUBSAMPLES, p, WEIGHT), InsideTotal(sorted, shape.rule, k, SUBSAMPLES, p),
                  TrueTotal(shape.rule, Loops(shape.paths, sx, sy), tx, ty, k, SUBSAMPLES, p),
                  CarriedTotal(sorted, k, SUBSAMPLES, p), MeetingTotal(trace, shape.rule, k, SUBSAMPLES, p));
  }

  /** The totals of a row are the sums over its five sub-scanlines. */
  lemma RowSums(trace: seq<seq<Active>>, rule: FillRule, edges: seq<Edge>, k: nat, p: int)
    requires k + 5 <= |trace|
    ensures MeetingTotal(trace, rule, k, 5, p) == MeetingAt(trace[k], rule, p) + MeetingAt(trace[k+1], rule, p)
              + MeetingAt(trace[k+2], rule, p) + MeetingAt(trace[k+3], rule, p) + MeetingAt(trace[k+4], rule, p)
    ensures CarryBoundTotal(edges, k, 5) == CarryBound(edges, |edges|, k) + CarryBound(edges, |edges|, k + 1)
              + CarryBound(edges, |edges|, k + 2) + CarryBound(edges, |edges|, k + 3) + CarryBound(edges, |edges|, k + 4)
  {
    hide Meeting, SpansOf, CarryBound;
    assert MeetingTotal(trace, rule, k, 1, p) == MeetingAt(trace[k], rule, p) && CarryBoundTotal(edges, k, 1) == CarryBound(edges, |edges|, k);
    assert MeetingTotal(trace, rule, k, 2, p) == MeetingAt(trace[k], rule, p) + MeetingAt(trace[k+1], rule, p);
    assert CarryBoundTotal(edges, k, 2) == CarryBound(edges, |edges|, k) + CarryBound(edges, |edges|, k + 1);
    assert MeetingTotal(trace, rule, k, 4, p) == MeetingTotal(trace, rule, k, 2, p) + MeetingAt(trace[k+2], rule, p) + MeetingAt(trace[k+3], rule, p);
    assert CarryBoundTotal(edges, k, 4) == CarryBoundTotal(edges, k, 2) + CarryBound(edges, |edges|, k + 2) + CarryBound(edges, |edges|, k + 3);
  }

  /** Number of a sub-scanline's spans that meet pixel p. */
  function MeetingAt(s: seq<Active>, rule: FillRule, p: int): nat { Meeting(SpansOf(rule, s), p * 1024, p * 1024 + 1024) }

  /**
   * A pixel that lies wholly inside the shape's own loops on its five sub-scanlines, no edge carried across it and no
   * more than one span on each, is blended with its full coverage: an opaque paint replaces it. One that lies wholly
   * outside stays as it is.
   */
  lemma PixelExtremes(now: seq<Byte>, was: seq<Byte>, width: nat, height: nat, stride: nat, trace: seq<seq<Active>>, sorted: seq<Edge>,
                      shape: Shape, tx: real, ty: real, sx: real, sy: real, y: nat, p: nat)
    requires ImageOk(was, width, height, stride) && ShapeOk(shape, width, height) && EdgesOf(sorted, shape, tx, ty, sx, sy)
    requires ShapePainted(now, was, width, height, stride, trace, sorted, shape) && y < height && p < width
    requires forall k :: 5 * y <= k < 5 * y + 5 ==> CarriedPixel(sorted, k, p) == 0
    ensures (forall k :: 5 * y <= k < 5 * y + 5 ==>
               && TruePixel(shape.rule, Loops(shape.paths, sx, sy), tx, ty, k, p) == 1024
               && Meeting(SpansOf(shape.rule, trace[k]), p * 1024, p * 1024 + 1024) <= 1)
            && shape.paint(y)[p].a == 255
            ==> PixelAt(now, RowBase(y, stride) + 4 * p) == shape.paint(y)[p]
    ensures (forall k :: 5 * y <= k < 5 * y + 5 ==> TruePixel(shape.rule, Loops(shape.paths, sx, sy), tx, ty, k, p) == 0)
            ==> PixelAt(now, RowBase(y, stride) + 4 * p) == PixelAt(was, RowBase(y, stride) + 4 * p)
  {
    hide ShapeEdges, PlaceEdges, Cancels, AllWellFormed, RowBase, RowTotal, InsidePixel, TruePixel, CarriedPixel, Meeting, SpansOf;
    hide BlendPixel, Premultiplied, Swept, OutsideRows, Drawable;
    var loops := Loops(shape.paths, sx, sy);
    LoopsCancel(loops, tx, ty, sorted);
    LoopsWellFormed(loops, tx, ty, sorted);
    forall k | 5 * y <= k < 5 * y + 5
      ensures InsidePixel(sorted, shape.rule, k, p) == TruePixel(shape.rule, loops, tx, ty, k, p)
    {
      PixelIsTrue(shape.rule, loops, tx, ty, sorted, k, p);
    }
    RowExtremes(trace, sorted, shape.rule, 5 * y, 5, p, 51);
    PixelCover(now, was, width, height, stride, trace, sorted, shape, y, p);
    BlendExtremes(PixelAt(was, RowBase(y, stride) + 4 * p), shape.paint(y)[p]);
  }

  lemma PixelCover(now: seq<Byte>, was: seq<Byte>, width: nat, height: nat, stride: nat, trace: seq<seq<Active>>, edges: seq<Edge>,
                   shape: Shape, y: nat, p: nat)
    requires ImageOk(was, width, height, stride) && ShapeOk(shape, width, height)
    requires ShapePainted(now, was, width, height, stride, trace, edges, shape) && y < height && p < width
    ensures var cover := RowTotal(trace, shape.rule, 5 * y, 5, p, 51); var at := RowBase(y, stride) + 4 * p;
            cover <= 255 && Premultiplied(PixelAt(was, at)) && PixelAt(now, at) == BlendPixel(PixelAt(was, at), cover, shape.paint(y)[p])
  {
    hide BlendPixel, Premultiplied, RowBase, RowTotal, Swept, OutsideRows;
    assert RowPainted(now, was, RowBase(y, stride), width, trace, shape.rule, y, shape.paint(y));
  }

  lemma ThroughInside(total: nat, inside: nat, measure: nat, carried: nat, meeting: nat)
    requires total * FIX <= inside * WEIGHT <= total * FIX + meeting * (FIX - 1)
    requires inside <= measure + carried && measure <= inside + carried
    ensures total * FIX <= (measure + carried) * WEIGHT
    ensures measure * WEIGHT <= total * FIX + meeting * (FIX - 1) + carried * WEIGHT
  {
  }

  lemma SweptTotals(trace: seq<seq<Active>>, sorted: seq<Edge>, shape: Shape, tx: real, ty: real, sx: real, sy: real, y: nat, p: int)
    requires forall i :: 0 <= i < |shape.paths| ==> Drawable(shape.paths[i])
    requires EdgesOf(sorted, shape, tx, ty, sx, sy)
    requires Swept(trace, sorted) && SUBSAMPLES * y + SUBSAMPLES <= |trace|
    ensures AllWellFormed(sorted)
    ensures var total := RowTotal(trace, shape.rule, SUBSAMPLES * y, SUBSAMPLES, p, WEIGHT);
            var inside := InsideTotal(sorted, shape.rule, SUBSAMPLES * y, SUBSAMPLES, p);
            && total <= 255 && total * FIX <= inside * WEIGHT
            && inside * WEIGHT <= total * FIX + MeetingTotal(trace, shape.rule, SUBSAMPLES * y, SUBSAMPLES, p) * (FIX - 1)
  {
    hide ShapeEdges, PlaceEdges, RowTotal, InsideTotal, MeetingTotal, Cancels, AllWellFormed;
    var loops := Loops(shape.paths, sx, sy);
    LoopsCancel(loops, tx, ty, sorted);
    LoopsWellFormed(loops, tx, ty, sorted);
    RowCoverage(trace, sorted, shape.rule, SUBSAMPLES * y, SUBSAMPLES, p, WEIGHT);
    hide Exact;
    RowTotalBound(trace, shape.rule, SUBSAMPLES * y, SUBSAMPLES, p, WEIGHT);
  }

  lemma TrueTotals(sorted: seq<Edge>, shape: Shape, tx: real, ty: real, sx: real, sy: real, y: nat, p: int)
    requires forall i :: 0 <= i < |shape.paths| ==> Drawable(shape.paths[i])
    requires EdgesOf(sorted, shape, tx, ty, sx, sy) && AllWellFormed(sorted)
    ensures var inside := InsideTotal(sorted, shape.rule, SUBSAMPLES * y, SUBSAMPLES, p);
            var measure := TrueTotal(shape.rule, Loops(shape.paths, sx, sy), tx, ty, SUBSAMPLES * y, SUBSAMPLES, p);
            var carried := CarriedTotal(sorted, SUBSAMPLES * y, SUBSAMPLES, p);
            inside <= measure + carried && measure <= inside + carried
  {
    hide ShapeEdges, PlaceEdges, InsideTotal, AllWellFormed, TrueTotal, CarriedTotal;
    TotalIsTrue(shape.rule, Loops(shape.paths, sx, sy), tx, ty, sorted, SUBSAMPLES * y, SUBSAMPLES, p);
  }

  /** Painted rows stay premultiplied. */
  lemma PaintedImageOk(now: seq<Byte>, was: seq<Byte>, width: nat, height: nat, stride: nat,
                       trace: seq<seq<Active>>, edges: seq<Edge>, shape: Shape)
    requires ImageOk(was, width, height, stride) && ShapeOk(shape, width, height)
    requires ShapePainted(now, was, width, height, stride, trace, edges, shape)
    ensures ImageOk(now, width, height, stride)
  {
    hide RowBase, Swept, RowOk, RowPainted, OutsideRows;
    forall y | 0 <= y < height ensures RowOk(now, RowBase(y, stride), width) {
      PaintedRowOk(now, was, RowBase(y, stride), width, trace, shape.rule, y, shape.paint(y));
    }
  }

  lemma PaintedRowOk(now: seq<Byte>, was: seq<Byte>, base: nat, width: nat, trace: seq<seq<Active>>, rule: FillRule, y: nat, colors: seq<Pixel>)
    requires RowOk(was, base, width) && |now| == |was| && SUBSAMPLES * y + SUBSAMPLES <= |trace| && width <= |colors|
    requires RowPainted(now, was, base, width, trace, rule, y, colors)
    ensures RowOk(now, base, width)
  {
    hide RowTotal, Premultiplied, BlendPixel;
    forall p | 0 <= p < width ensures Premultiplied(PixelAt(now, base + 4 * p)) {
      assert Premultiplied(PixelAt(was, base + 4 * p));
      var cover := RowTotal(trace, rule, SUBSAMPLES * y, SUBSAMPLES, p, WEIGHT);
      assert PixelAt(now, base + 4 * p) == BlendPixel(PixelAt(was, base + 4 * p), cover, colors[p]);
    }
  }

  // ----- Sorting (the C library's qsort: any sorted permutation) -----

  lemma SortedPush(s: seq<Edge>, e: Edge)
    requires SortedY(s) && forall x :: x in s ==> x.y0 <= e.y0
    ensures SortedY(s + [e])
  {
  }

  function InsertByY(es: seq<Edge>, e: Edge): seq<Edge> {
    if es == [] || es[|es|-1].y0 <= e.y0 then es + [e]
    else InsertByY(es[..|es|-1], e) + [es[|es|-1]]
  }

  function SortByY(es: seq<Edge>): seq<Edge> {
    if es == [] then [] else InsertByY(SortByY(es[..|es|-1]), es[|es|-1])
  }

  lemma {:induction false} InsertedByY(es: seq<Edge>, e: Edge)
    requires SortedY(es)
    ensures SortedY(InsertByY(es, e)) && multiset(InsertByY(es, e)) == multiset(es) + multiset{e}
  {
    if es == [] || es[|es|-1].y0 <= e.y0 {
      SortedPush(es, e);
    } else {
      var front, last := es[..|es|-1], es[|es|-1];
      assert es == front + [last];
      InsertedByY(front, e);
      forall x | x in InsertByY(front, e) ensures x.y0 <= last.y0 {
        assert x in multiset(front) + multiset{e};
      }
      SortedPush(InsertByY(front, e), last);
    }
  }

  lemma {:induction false} SortedByY(es: seq<Edge>)
    ensures SortedY(SortByY(es)) && multiset(SortByY(es)) == multiset(es)
  {
    if es != [] {
      assert es == es[..|es|-1] + [es[|es|-1]];
      SortedByY(es[..|es|-1]);
      InsertedByY(SortByY(es[..|es|-1]), es[|es|-1]);
    }
  }

  /** Flattens a shape, places its edges on the image and sorts them. */
  method PrepareEdges(f: Flattener, shape: Shape, tx: real, ty: real, sx: real, sy: real) returns (sorted: seq<Edge>)
    requires forall i :: 0 <= i < |shape.paths| ==> Drawable(shape.paths[i])
    modifies f
    ensures EdgesOf(sorted, shape, tx, ty, sx, sy) && SortedY(sorted)
  {
    hide ShapeEdges, SortedY, Drawable, SortByY;
    f.edges := [];
    f.FlattenShape(shape.paths, sx, sy);
    ghost var flat := ShapeEdges(Loops(shape.paths, sx, sy));
    assert [] + flat == flat;
    PlaceAll(f, tx, ty);
    SortedByY(f.edges);
    sorted := SortByY(f.edges);
  }

  /** Scales and translates the edges in place. */
  method PlaceAll(f: Flattener, tx: real, ty: real)
    modifies f`edges
    ensures f.edges == PlaceEdges(old(f.edges), tx, ty)
  {
    ghost var flat := f.edges;
    var i := 0;
    while i < |f.edges|
      invariant 0 <= i <= |f.edges| == |flat|
      invariant forall j :: 0 <= j < i ==> f.edges[j] == PlaceEdge(flat[j], tx, ty)
      invariant forall j :: i <= j < |flat| ==> f.edges[j] == flat[j]
    {
      f.edges := f.edges[i := PlaceEdge(f.edges[i], tx, ty)];
      i := i + 1;
    }
    hide PlaceEdge;
    assert f.edges == PlaceEdges(flat, tx, ty);
  }

  /** Fills one shape: reset the pool, flatten, place, sort, sweep. */
  method FillShape(r: Rasterizer, f: Flattener, shape: Shape, tx: real, ty: real, sx: real, sy: real)
    returns (ghost trace: seq<seq<Active>>)
    requires r.Layout() && r.pool.Ok() && ShapeOk(shape, r.width, r.height)
    requires ImageOk(r.bitmap[..], r.width, r.height, r.stride)
    modifies r, r.pool, r.scanline, r.bitmap, f
    ensures EdgesOf(r.edges, shape, tx, ty, sx, sy)
    ensures ShapePainted(r.bitmap[..], old(r.bitmap[..]), r.width, r.height, r.stride, trace, r.edges, shape)
    ensures ImageOk(r.bitmap[..], r.width, r.height, r.stride) && r.pool.Ok()
  {
    hide EdgesOf, AllWellFormed, SortedY, Drawable, RowOk, RowPainted, OutsideRows, Swept, RowBase;
    r.pool.ResetPool();
    r.freelist := [];
    r.edges := PrepareEdges(f, shape, tx, ty, sx, sy);
    EdgesOfWellFormed(r.edges, shape, tx, ty, sx, sy);
    ghost var was := r.bitmap[..];
    trace := r.RasterizeSortedEdges(shape.rule, shape.paint);
    PaintedImageOk(r.bitmap[..], was, r.width, r.height, r.stride, trace, r.edges, shape);
  }

  lemma EdgesOfWellFormed(sorted: seq<Edge>, shape: Shape, tx: real, ty: real, sx: real, sy: real)
    requires forall i :: 0 <= i < |shape.paths| ==> Drawable(shape.paths[i])
    requires EdgesOf(sorted, shape, tx, ty, sx, sy)
    ensures AllWellFormed(sorted)
  {
    LoopsWellFormed(Loops(shape.paths, sx, sy), tx, ty, sorted);
  }

  // ----- Whole image -----

  /** A premultiplied pixel, unpremultiplied: every channel still fits a byte. */
  function UnpremultiplyPixel(p: Pixel): (r: Pixel)
    requires Premultiplied(p)
    ensures r.a == p.a
  {
    UnpremultiplyInRange(p.r, p.a);
    UnpremultiplyInRange(p.g, p.a);
    UnpremultiplyInRange(p.b, p.a);
    Pixel(Unpremultiplied(p.r, p.a), Unpremultiplied(p.g, p.a), Unpremultiplied(p.b, p.a), p.a)
  }

  /** The first n pixels of a row are unpremultiplied. */
  ghost predicate RowUnpremultiplied(now: seq<Byte>, was: seq<Byte>, base: nat, n: nat) {
    && |now| == |was| && RowOk(was, base, n)
    && (forall p :: 0 <= p < n ==> PixelAt(now, base + 4 * p) == UnpremultiplyPixel(PixelAt(was, base + 4 * p)))
  }

  method Divided(c: Byte, a: Byte) returns (u: Byte)
    requires c <= a && a != 0
    ensures u == Unpremultiplied(c, a)
  {
    UnpremultiplyInRange(c, a);
    u := c * 255 / a;
  }

  method UnpremultiplyAt(image: array<Byte>, o: nat)
    requires o + 4 <= image.Length && Premultiplied(PixelAt(image[..], o))
    modifies image
    ensures PixelAt(image[..], o) == UnpremultiplyPixel(old(PixelAt(image[..], o)))
    ensures forall q :: 0 <= q < image.Length && !(o <= q < o + 4) ==> image[q] == old(image[q])
  {
    hide Unpremultiplied;
    var r, g, b, a := image[o], image[o+1], image[o+2], image[o+3];
    UnpremultiplyInRange(r, a);
    UnpremultiplyInRange(g, a);
    UnpremultiplyInRange(b, a);
    if a != 0 {
      image[o] := Divided(r, a);
      image[o+1] := Divided(g, a);
      image[o+2] := Divided(b, a);
    }
  }

  method UnpremultiplyRow(image: array<Byte>, base: nat, w: nat)
    requires RowOk(image[..], base, w)
    modifies image
    ensures RowUnpremultiplied(image[..], old(image[..]), base, w)
    ensures forall q :: 0 <= q < image.Length && !(base <= q < base + 4 * w) ==> image[q] == old(image[q])
  {
    ghost var was := image[..];
    var x := 0;
    while x < w
      invariant 0 <= x <= w
      invariant RowUnpremultiplied(image[..], was, base, x)
      invariant forall q :: 0 <= q < image.Length && !(base <= q < base + 4 * x) ==> image[q] == was[q]
    {
      hide UnpremultiplyPixel, Premultiplied;
      ghost var before := image[..];
      assert PixelAt(before, base + 4 * x) == PixelAt(was, base + 4 * x);
      UnpremultiplyAt(image, base + 4 * x);
      forall p | 0 <= p < x ensures PixelAt(image[..], base + 4 * p) == PixelAt(before, base + 4 * p) {
        assert base + 4 * p + 4 <= base + 4 * x;
      }
      x := x + 1;
    }
  }

  /** Unpremultiplying row y leaves the rows above it done, and bytes outside the rows alone. */
  lemma RowsDone(now: seq<Byte>, before: seq<Byte>, was: seq<Byte>, y: nat, stride: nat, w: nat)
    requires |now| == |before| == |was| && 4 * w <= stride && RowOk(was, RowBase(y, stride), w)
    requires forall z :: 0 <= z < y ==> RowUnpremultiplied(before, was, RowBase(z, stride), w)
    requires forall q :: 0 <= q < |was| && OutsideRows(q, y, stride, w) ==> before[q] == was[q]
    requires forall p :: 0 <= p < w ==> PixelAt(before, RowBase(y, stride) + 4 * p) == PixelAt(was, RowBase(y, stride) + 4 * p)
    requires RowUnpremultiplied(now, before, RowBase(y, stride), w)
    requires forall q :: 0 <= q < |was| && !(RowBase(y, stride) <= q < RowBase(y, stride) + 4 * w) ==> now[q] == before[q]
    ensures forall z :: 0 <= z <= y ==> RowUnpremultiplied(now, was, RowBase(z, stride), w)
    ensures forall q :: 0 <= q < |was| && OutsideRows(q, y + 1, stride, w) ==> now[q] == was[q]
  {
    hide RowBase, Premultiplied, UnpremultiplyPixel;
    forall z | 0 <= z <= y ensures RowUnpremultiplied(now, was, RowBase(z, stride), w) {
      if z < y {
        RowsApart(z, y, stride);
        assert RowUnpremultiplied(before, was, RowBase(z, stride), w);
        forall p | 0 <= p < w ensures PixelAt(now, RowBase(z, stride) + 4 * p) == PixelAt(before, RowBase(z, stride) + 4 * p) {
        }
      }
    }
    forall q | 0 <= q < |was| && OutsideRows(q, y + 1, stride, w) ensures now[q] == was[q] {
      assert OutsideRows(q, y, stride, w);
    }
  }

  /** Unpremultiplies every row of a premultiplied image: no channel leaves a byte. */
  method UnpremultiplyRows(image: array<Byte>, w: nat, h: nat, stride: nat)
    requires 4 * w <= stride && ImageOk(image[..], w, h, stride)
    modifies image
    ensures forall y :: 0 <= y < h ==> RowUnpremultiplied(image[..], old(image[..]), RowBase(y, stride), w)
    ensures forall q :: 0 <= q < image.Length && OutsideRows(q, h, stride, w) ==> image[q] == old(image[q])
  {
    ghost var was := image[..];
    var y := 0;
    while y < h
      invariant 0 <= y <= h
      invariant forall z :: 0 <= z < y ==> RowUnpremultiplied(image[..], was, RowBase(z, stride), w)
      invariant forall q :: 0 <= q < image.Length && OutsideRows(q, y, stride, w) ==> image[q] == was[q]
    {
      hide RowBase, RowUnpremultiplied, RowOk, OutsideRows;
      ghost var before := image[..];
      RowUntouched(before, was, y, stride, w, image.Length);
      RowStart(y, stride);
      UnpremultiplyRow(image, y * stride, w);
      RowsDone(image[..], before, was, y, stride, w);
      y := y + 1;
    }
  }

  /** Both passes: every row unpremultiplied, and then transparent pixels coloured by their painted neighbours. */
  method UnpremultiplyAlpha(image: array<Byte>, w: nat, h: nat, stride: nat) returns (ghost divided: seq<Byte>)
    requires 4 * w <= stride && ImageOk(image[..], w, h, stride)
    modifies image
    ensures forall y :: 0 <= y < h ==> RowUnpremultiplied(divided, old(image[..]), RowBase(y, stride), w)
    ensures forall q :: 0 <= q < image.Length && OutsideRows(q, h, stride, w) ==> image[q] == old(image[q])
    ensures DoneTo(Frame(w, h, stride), image[..], divided, 0, h)
  {
    hide RowBase, OutsideRows, DoneTo;
    UnpremultiplyRows(image, w, h, stride);
    divided := image[..];
    RowsFit(divided, old(image[..]), w, h, stride);
    DefringeAll(image, w, h, stride);
    OthersKept(Frame(w, h, stride), image[..], divided, 0, h);
  }

  lemma RowsFit(now: seq<Byte>, was: seq<Byte>, w: nat, h: nat, stride: nat)
    requires 4 * w <= stride && ImageOk(was, w, h, stride) && |now| == |was|
    ensures Fits(Frame(w, h, stride), now)
  {
    hide RowBase;
  }

  lemma OthersKept(f: Frame, now: seq<Byte>, was: seq<Byte>, x: nat, y: nat)
    requires DoneTo(f, now, was, x, y)
    ensures |now| == |was| && forall q :: 0 <= q < |was| && OutsideRows(q, f.h, f.stride, f.w) ==> now[q] == was[q]
  {
    hide OutsideRows;
  }

  /** What the two passes make of a premultiplied pixel: alpha stays, and a pixel that is not transparent is unpremultiplied. */
  lemma FinalPixel(f: Frame, now: seq<Byte>, divided: seq<Byte>, was: seq<Byte>, x: nat, y: nat)
    requires DoneTo(f, now, divided, 0, f.h) && In(f, x, y)
    requires RowUnpremultiplied(divided, was, RowBase(y, f.stride), f.w)
    ensures Fits(f, now) && Fits(f, was) && Premultiplied(PixelOf(f, was, x, y))
    ensures PixelOf(f, now, x, y).a == PixelOf(f, was, x, y).a
    ensures PixelOf(f, was, x, y).a != 0 ==> PixelOf(f, now, x, y) == UnpremultiplyPixel(PixelOf(f, was, x, y))
    ensures PixelOf(f, was, x, y).a == 0 ==> PixelOf(f, now, x, y) == FringedAt(f, divided, x, y)
  {
    hide RowBase, Neighbours, Fringed, UnpremultiplyPixel;
    assert PixelOf(f, now, x, y) == FringedAt(f, divided, x, y);
    assert PixelOf(f, divided, x, y) == UnpremultiplyPixel(PixelOf(f, was, x, y));
  }

  ghost predicate Cleared(bm: seq<Byte>, width: nat, height: nat, stride: nat) {
    forall y, q :: 0 <= y < height && RowBase(y, stride) <= q < RowBase(y, stride) + 4 * width && q < |bm| ==> bm[q] == 0
  }

  lemma ClearedImageOk(bm: seq<Byte>, width: nat, height: nat, stride: nat)
    requires Cleared(bm, width, height, stride) && 4 * width <= stride && RowBase(height, stride) <= |bm|
    ensures ImageOk(bm, width, height, stride)
  {
    hide RowBase;
    forall y | 0 <= y < height ensures RowOk(bm, RowBase(y, stride), width) {
      RowsApart(y, height, stride);
    }
  }

  method ClearImage(image: array<Byte>, w: nat, h: nat, stride: nat)
    requires 4 * w <= stride && RowBase(h, stride) <= image.Length
    modifies image
    ensures Cleared(image[..], w, h, stride)
  {
    var y := 0;
    while y < h
      invariant 0 <= y <= h && Cleared(image[..], w, y, stride)
    {
      RowsApart(y, h, stride);
      hide RowBase;
      var base := y * stride;
      RowStart(y, stride);
      forall q | base <= q < base + 4 * w {
        image[q] := 0;
      }
      y := y + 1;
    }
  }

  /** The image after one shape, with the sweep that painted it, if one did. */
  datatype Layer = Layer(image: seq<Byte>, trace: seq<seq<Active>>, edges: seq<Edge>)

  ghost function Below(layers: seq<Layer>, base: seq<Byte>, i: nat): seq<Byte>
    requires i <= |layers|
  {
    if i == 0 then base else layers[i-1].image
  }

  ghost predicate LayerOn(layer: Layer, below: seq<Byte>, shape: Shape, width: nat, height: nat, stride: nat,
                          tx: real, ty: real, sx: real, sy: real)
    requires ShapeOk(shape, width, height)
  {
    && ImageOk(below, width, height, stride)
    && (if shape.visible && shape.filled then
          && ShapePainted(layer.image, below, width, height, stride, layer.trace, layer.edges, shape)
          && EdgesOf(layer.edges, shape, tx, ty, sx, sy)
        else layer.image == below)
  }

  /** Each layer is its shape painted over the layer below, the first over a cleared image. */
  ghost predicate Stacked(layers: seq<Layer>, base: seq<Byte>, shapes: seq<Shape>, width: nat, height: nat, stride: nat,
                          tx: real, ty: real, sx: real, sy: real)
    requires |layers| <= |shapes| && forall i :: 0 <= i < |shapes| ==> ShapeOk(shapes[i], width, height)
  {
    forall i :: 0 <= i < |layers| ==>
      LayerOn(layers[i], Below(layers, base, i), shapes[i], width, height, stride, tx, ty, sx, sy)
  }

  lemma StackedPush(layers: seq<Layer>, top: Layer, base: seq<Byte>, shapes: seq<Shape>, width: nat, height: nat, stride: nat,
                    tx: real, ty: real, sx: real, sy: real)
    requires |layers| < |shapes| && forall i :: 0 <= i < |shapes| ==> ShapeOk(shapes[i], width, height)
    requires Stacked(layers, base, shapes, width, height, stride, tx, ty, sx, sy)
    requires LayerOn(top, Below(layers, base, |layers|), shapes[|layers|], width, height, stride, tx, ty, sx, sy)
    ensures Stacked(layers + [top], base, shapes, width, height, stride, tx, ty, sx, sy)
  {
    hide LayerOn, ShapeOk, Below;
    var more := layers + [top];
    forall i | 0 <= i < |more|
      ensures LayerOn(more[i], Below(more, base, i), shapes[i], width, height, stride, tx, ty, sx, sy)
    {
      BelowPush(layers, top, base, i);
      if i < |layers| {
        assert LayerOn(layers[i], Below(layers, base, i), shapes[i], width, height, stride, tx, ty, sx, sy);
      }
    }
  }

  lemma BelowPush(layers: seq<Layer>, top: Layer, base: seq<Byte>, i: nat)
    requires i <= |layers|
    ensures Below(layers + [top], base, i) == Below(layers, base, i)
    ensures (layers + [top])[i] == if i < |layers| then layers[i] else top
  {
  }

  /**
   * The whole rendering of filled shapes: clear, paint each visible filled shape over the last, unpremultiply, defringe. The
   * image stays premultiplied while shapes are painted, so the division never leaves a byte.
   */
  method RasterizeFull(r: Rasterizer, f: Flattener, shapes: seq<Shape>, tx: real, ty: real, sx: real, sy: real)
    returns (ghost base: seq<Byte>, ghost layers: seq<Layer>, ghost divided: seq<Byte>)
    requires r.Layout() && r.pool.Ok()
    requires forall i :: 0 <= i < |shapes| ==> ShapeOk(shapes[i], r.width, r.height)
    modifies r, r.pool, r.scanline, r.bitmap, f
    ensures Cleared(base, r.width, r.height, r.stride) && |layers| == |shapes|
    ensures Stacked(layers, base, shapes, r.width, r.height, r.stride, tx, ty, sx, sy)
    ensures forall y :: 0 <= y < r.height ==>
              RowUnpremultiplied(divided, Below(layers, base, |layers|), RowBase(y, r.stride), r.width)
    ensures DoneTo(Frame(r.width, r.height, r.stride), r.bitmap[..], divided, 0, r.height)
  {
    hide RowBase, RowOk, EdgesOf, ShapePainted, Cleared, Drawable, OutsideRows, RowUnpremultiplied, DoneTo;
    ClearImage(r.bitmap, r.width, r.height, r.stride);
    base, layers := r.bitmap[..], [];
    ClearedImageOk(base, r.width, r.height, r.stride);
    var i := 0;
    while i < |shapes|
      invariant 0 <= i <= |shapes| && |layers| == i && r.pool.Ok()
      invariant r.bitmap[..] == Below(layers, base, i)
      invariant ImageOk(r.bitmap[..], r.width, r.height, r.stride)
      invariant Stacked(layers, base, shapes, r.width, r.height, r.stride, tx, ty, sx, sy)
    {
      hide ImageOk, Stacked;
      ghost var top := Layer(r.bitmap[..], [], []);
      if shapes[i].visible {
        if shapes[i].filled {
          ghost var trace := FillShape(r, f, shapes[i], tx, ty, sx, sy);
          top := Layer(r.bitmap[..], trace, r.edges);
        }
      }
      StackedPush(layers, top, base, shapes, r.width, r.height, r.stride, tx, ty, sx, sy);
      layers := layers + [top];
      i := i + 1;
    }
    divided := UnpremultiplyAlpha(r.bitmap, r.width, r.height, r.stride);
  }
}
