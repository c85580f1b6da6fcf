/** The coverage buffer of one pixel row: filling spans, filling from the active list, blitting. */
module Scanline {
  import opened Common
  import opened Winding
  import opened ActiveList
  import opened Spans
  import opened Blend

  /** Leftmost and rightmost pixel reached by any span, starting from given bounds. */
  function MinPixel(spans: seq<Span>, xmin: int): int {
    if spans == [] then xmin else Min(MinPixel(spans[..|spans|-1], xmin), spans[|spans|-1].x0 / FIX)
  }

  function MaxPixel(spans: seq<Span>, xmax: int): int {
    if spans == [] then xmax else Max(MaxPixel(spans[..|spans|-1], xmax), spans[|spans|-1].x1 / FIX)
  }

  /** Pixels outside the reached range get nothing. */
  lemma {:induction false} NothingOutside(spans: seq<Span>, xmin: int, xmax: int, p: int, weight: nat)
    requires p < MinPixel(spans, xmin) || MaxPixel(spans, xmax) < p
    ensures CoverSum(p, spans, weight) == 0
  {
    if spans != [] {
      NothingOutside(spans[..|spans|-1], xmin, xmax, p, weight);
      var sp := spans[|spans|-1];
      assert Overlap(sp, p * FIX, p * FIX + FIX) == 0;
    }
  }

  /** The shares of the first, the last and the only pixel of a span, as the fill loop computes them. */
  function StartShare(x0: int, weight: nat): nat { (FIX - x0 % FIX) * weight / FIX }

  function EndShare(x1: int, weight: nat): nat { x1 % FIX * weight / FIX }

  function InnerShare(x0: int, x1: int, weight: nat): nat
    requires x0 <= x1
  {
    (x1 - x0) * weight / FIX
  }

  /** Coverage of one span, pixel by pixel as the fill loop computes it. */
  lemma CoverCases(p: int, x0: int, x1: int, weight: nat)
    requires x0 <= x1
    ensures var i, j := x0 / FIX, x1 / FIX;
            Cover(p, Span(x0, x1), weight) ==
            if p < i || j < p then 0
            else if i == j then InnerShare(x0, x1, weight)
            else if p == i then StartShare(x0, weight)
            else if p == j then EndShare(x1, weight)
            else weight
  {
    var i, j := x0 / FIX, x1 / FIX;
    assert x0 == i * FIX + x0 % FIX && x1 == j * FIX + x1 % FIX;
    if i < p < j {
      assert FIX * weight / FIX == weight;
    }
  }

  /** One span has been added to the row; the casts to a byte wrap. */
  ghost predicate Added(now: seq<Byte>, was: seq<Byte>, len: nat, sp: Span, weight: nat) {
    && |now| == |was| && len <= |was|
    && (forall p :: 0 <= p < len ==> now[p] == (was[p] + Cover(p, sp, weight)) % 256)
    && (forall p :: len <= p < |was| ==> now[p] == was[p])
  }

  lemma AddedNone(was: seq<Byte>, len: nat, x0: int, x1: int, weight: nat)
    requires len <= |was| && x0 <= x1 && !(x0 / FIX < len && x1 / FIX >= 0)
    ensures Added(was, was, len, Span(x0, x1), weight)
  {
    hide Cover;
    forall p | 0 <= p < len
      ensures was[p] == (was[p] + Cover(p, Span(x0, x1), weight)) % 256
    {
      CoverCases(p, x0, x1, weight);
    }
  }

  lemma AddedOne(now: seq<Byte>, was: seq<Byte>, len: nat, x0: int, x1: int, weight: nat)
    requires len <= |was| && x0 <= x1 && x0 / FIX == x1 / FIX && 0 <= x0 / FIX < len
    requires now == was[x0 / FIX := (was[x0 / FIX] + InnerShare(x0, x1, weight)) % 256]
    ensures Added(now, was, len, Span(x0, x1), weight)
  {
    hide Cover, InnerShare;
    forall p | 0 <= p < len
      ensures now[p] == (was[p] + Cover(p, Span(x0, x1), weight)) % 256
    {
      CoverCases(p, x0, x1, weight);
    }
  }

  /** A byte of the row after a span over several pixels. */
  function FilledByte(b: Byte, p: int, x0: int, x1: int, weight: nat): Byte {
    if p < x0 / FIX || x1 / FIX < p then b
    else if p == x0 / FIX then (b + StartShare(x0, weight)) % 256
    else if p == x1 / FIX then (b + EndShare(x1, weight)) % 256
    else (b + weight) % 256
  }

  lemma AddedMany(now: seq<Byte>, was: seq<Byte>, len: nat, x0: int, x1: int, weight: nat)
    requires len <= |was| == |now| && x0 <= x1 && x0 / FIX < x1 / FIX && x0 / FIX < len
    requires forall p :: 0 <= p < len ==> now[p] == FilledByte(was[p], p, x0, x1, weight)
    requires forall p :: len <= p < |was| ==> now[p] == was[p]
    ensures Added(now, was, len, Span(x0, x1), weight)
  {
    hide Cover, StartShare, EndShare;
    forall p | 0 <= p < len
      ensures now[p] == (was[p] + Cover(p, Span(x0, x1), weight)) % 256
    {
      CoverCases(p, x0, x1, weight);
    }
  }

  lemma AddMod(a: int, b: int, c: int)
    ensures ((a + b) % 256 + c) % 256 == (a + (b + c)) % 256
  {
  }

  /** Adds one span to the row. */
  method FillScanline(scanline: array<Byte>, len: nat, x0: int, x1: int, maxWeight: Byte, xmin: int, xmax: int)
    returns (xmin': int, xmax': int)
    requires len <= scanline.Length && x0 <= x1
    modifies scanline
    ensures Added(scanline[..], old(scanline[..]), len, Span(x0, x1), maxWeight)
    ensures xmin' == Min(xmin, x0 / FIX) && xmax' == Max(xmax, x1 / FIX)
  {
    hide Added, InnerShare, StartShare, EndShare;
    ghost var was := scanline[..];
    var i := x0 / FIX;
    var j := x1 / FIX;
    xmin' := if i < xmin then i else xmin;
    xmax' := if j > xmax then j else xmax;
    if i < len && j >= 0 {
      if i == j {
        scanline[i] := (scanline[i] + InnerShare(x0, x1, maxWeight)) % 256;
        AddedOne(scanline[..], was, len, x0, x1, maxWeight);
      } else {
        if i >= 0 {
          scanline[i] := (scanline[i] + StartShare(x0, maxWeight)) % 256;
        } else {
          i := -1;
        }
        if j < len {
          scanline[j] := (scanline[j] + EndShare(x1, maxWeight)) % 256;
        } else {
          j := len;
        }
        ghost var ends := scanline[..];
        ghost var first := i;
        i := i + 1;
        while i < j
          invariant first < i <= j <= len
          invariant forall p :: first < p < i ==> scanline[p] == (ends[p] + maxWeight) % 256
          invariant forall p :: 0 <= p < scanline.Length && !(first < p < i) ==> scanline[p] == ends[p]
        {
          scanline[i] := (scanline[i] + maxWeight) % 256;
          i := i + 1;
        }
        AddedMany(scanline[..], was, len, x0, x1, maxWeight);
      }
    } else {
      AddedNone(was, len, x0, x1, maxWeight);
    }
  }

  /** The row now holds what was there plus the coverage of the spans. */
  ghost predicate Drawn(now: seq<Byte>, was: seq<Byte>, len: nat, spans: seq<Span>, weight: nat) {
    && |now| == |was| && len <= |was|
    && (forall p :: 0 <= p < len ==> now[p] == (was[p] + CoverSum(p, spans, weight)) % 256)
    && (forall p :: len <= p < |was| ==> now[p] == was[p])
  }

  lemma DrawnStep(now: seq<Byte>, mid: seq<Byte>, was: seq<Byte>, len: nat, spans: seq<Span>, sp: Span, weight: nat)
    requires Drawn(mid, was, len, spans, weight)
    requires Added(now, mid, len, sp, weight)
    ensures Drawn(now, was, len, spans + [sp], weight)
  {
    hide Cover;
    forall p | 0 <= p < len ensures now[p] == (was[p] + CoverSum(p, spans + [sp], weight)) % 256 {
      AddMod(was[p], CoverSum(p, spans, weight), Cover(p, sp, weight));
      assert (spans + [sp])[..|spans|] == spans;
    }
  }

  /** One scan step that closes a span: the span is ordered, and drawing it extends what is drawn. */
  lemma Closing(rule: FillRule, e: seq<Active>, n: nat, xmin: int, xmax: int)
    requires SortedX(e) && n < |e|
    requires var t := Scanned(rule, e[..n]); t.w != 0 && NextW(rule, t.w, e[n].dir) == 0
    ensures var t := Scanned(rule, e[..n]);
            && t.x0 <= e[n].x
            && SpansOf(rule, e[..n+1]) == t.spans + [Span(t.x0, e[n].x)]
            && MinPixel(SpansOf(rule, e[..n+1]), xmin) == Min(MinPixel(t.spans, xmin), t.x0 / FIX)
            && MaxPixel(SpansOf(rule, e[..n+1]), xmax) == Max(MaxPixel(t.spans, xmax), e[n].x / FIX)
  {
    assert e[..n+1][..n] == e[..n];
    ScannedBehind(rule, e[..n], e[n].x);
    var t := Scanned(rule, e[..n]);
    assert (t.spans + [Span(t.x0, e[n].x)])[..|t.spans|] == t.spans;
  }

  lemma ScannedPrefix(rule: FillRule, e: seq<Active>, n: nat)
    requires n < |e|
    ensures Scanned(rule, e[..n+1]) == Feed(rule, Scanned(rule, e[..n]), e[n])
  {
    assert e[..n+1][..n] == e[..n];
  }

  /** Draws the active list's spans under the given fill rule. */
  method FillActiveEdges(scanline: array<Byte>, len: nat, e: seq<Active>, maxWeight: Byte, xmin: int, xmax: int, rule: FillRule)
    returns (xmin': int, xmax': int)
    requires len <= scanline.Length && SortedX(e)
    modifies scanline
    ensures Drawn(scanline[..], old(scanline[..]), len, SpansOf(rule, e), maxWeight)
    ensures xmin' == MinPixel(SpansOf(rule, e), xmin) && xmax' == MaxPixel(SpansOf(rule, e), xmax)
  {
    hide Cover, Added, Scanned, SortedX;
    ghost var was := scanline[..];
    xmin', xmax' := xmin, xmax;
    var x0, w := 0, 0;
    var n := 0;
    ScannedNone(rule, e);
    if rule == NonZero {
      while n < |e|
        invariant 0 <= n <= |e|
        invariant w == Scanned(rule, e[..n]).w && x0 == Scanned(rule, e[..n]).x0
        invariant Drawn(scanline[..], was, len, SpansOf(rule, e[..n]), maxWeight)
        invariant xmin' == MinPixel(SpansOf(rule, e[..n]), xmin) && xmax' == MaxPixel(SpansOf(rule, e[..n]), xmax)
      {
        hide Drawn;
        ScannedPrefix(rule, e, n);
        if w == 0 {
          x0 := e[n].x;
          w := w + e[n].dir;
        } else {
          var x1 := e[n].x;
          w := w + e[n].dir;
          if w == 0 {
            Closing(rule, e, n, xmin, xmax);
            ghost var mid := scanline[..];
            xmin', xmax' := FillScanline(scanline, len, x0, x1, maxWeight, xmin', xmax');
            DrawnStep(scanline[..], mid, was, len, SpansOf(rule, e[..n]), Span(x0, x1), maxWeight);
          }
        }
        n := n + 1;
      }
    } else {
      while n < |e|
        invariant 0 <= n <= |e|
        invariant w == Scanned(rule, e[..n]).w && x0 == Scanned(rule, e[..n]).x0
        invariant Drawn(scanline[..], was, len, SpansOf(rule, e[..n]), maxWeight)
        invariant xmin' == MinPixel(SpansOf(rule, e[..n]), xmin) && xmax' == MaxPixel(SpansOf(rule, e[..n]), xmax)
      {
        hide Drawn;
        ScannedPrefix(rule, e, n);
        if w == 0 {
          x0 := e[n].x;
          w := 1;
        } else {
          var x1 := e[n].x;
          w := 0;
          Closing(rule, e, n, xmin, xmax);
          ghost var mid := scanline[..];
          xmin', xmax' := FillScanline(scanline, len, x0, x1, maxWeight, xmin', xmax');
          DrawnStep(scanline[..], mid, was, len, SpansOf(rule, e[..n]), Span(x0, x1), maxWeight);
        }
        n := n + 1;
      }
    }
    assert e[..n] == e;
  }

  lemma ScannedNone(rule: FillRule, e: seq<Active>)
    ensures Scanned(rule, e[..0]) == Scanner(0, 0, [])
  {
  }

  // ----- Blitting -----

  function PixelAt(bm: seq<Byte>, o: nat): Pixel
    requires o + 4 <= |bm|
  {
    Pixel(bm[o], bm[o+1], bm[o+2], bm[o+3])
  }

  /** Pixels [from, to) of a row at base are blended, every other byte is as it was. */
  ghost predicate Blended(now: seq<Byte>, was: seq<Byte>, base: nat, from: nat, to: nat, cover: seq<Byte>, colors: seq<Pixel>)
    requires base + 4 * to <= |was| == |now| && to <= |cover| && to <= |colors|
    requires forall p :: from <= p < to ==> Premultiplied(PixelAt(was, base + 4 * p))
  {
    && (forall p :: from <= p < to ==> PixelAt(now, base + 4 * p) == BlendPixel(PixelAt(was, base + 4 * p), cover[p], colors[p]))
    && (forall q :: 0 <= q < |was| && !(base + 4 * from <= q < base + 4 * to) ==> now[q] == was[q])
  }

  /** Blends count pixels from column x on with their coverage. */
  method ScanlineSolid(dst: array<Byte>, base: nat, count: nat, cover: array<Byte>, x: nat, colors: seq<Pixel>)
    requires dst != cover && base + 4 * (x + count) <= dst.Length && x + count <= cover.Length && x + count <= |colors|
    requires forall p :: x <= p < x + count ==> Premultiplied(PixelAt(dst[..], base + 4 * p))
    modifies dst
    ensures Blended(dst[..], old(dst[..]), base, x, x + count, cover[..], colors)
  {
    ghost var was := dst[..];
    var i := 0;
    while i < count
      invariant 0 <= i <= count
      invariant Blended(dst[..], was, base, x, x + i, cover[..], colors)
    {
      hide BlendPixel, Premultiplied;
      ghost var before := dst[..];
      var o := base + 4 * (x + i);
      assert PixelAt(before, o) == PixelAt(was, o);
      BlendAt(dst, o, cover[x + i], colors[x + i]);
      BlendedStep(dst[..], before, was, base, x, x + i, cover[..], colors);
      i := i + 1;
    }
  }

  lemma BlendedStep(now: seq<Byte>, before: seq<Byte>, was: seq<Byte>, base: nat, from: nat, to: nat, cover: seq<Byte>, colors: seq<Pixel>)
    requires from <= to && base + 4 * to + 4 <= |was| == |before| == |now| && to + 1 <= |cover| && to + 1 <= |colors|
    requires forall p :: from <= p < to + 1 ==> Premultiplied(PixelAt(was, base + 4 * p))
    requires Blended(before, was, base, from, to, cover, colors)
    requires PixelAt(now, base + 4 * to) == BlendPixel(PixelAt(was, base + 4 * to), cover[to], colors[to])
    requires forall q :: 0 <= q < |now| && !(base + 4 * to <= q < base + 4 * to + 4) ==> now[q] == before[q]
    ensures Blended(now, was, base, from, to + 1, cover, colors)
  {
    hide BlendPixel, Premultiplied;
    forall p | from <= p < to ensures PixelAt(now, base + 4 * p) == PixelAt(before, base + 4 * p) {
      assert base + 4 * p + 4 <= base + 4 * to;
    }
  }

  /** One pixel of the blend loop, on bytes: none of the sums leaves a byte. */
  method BlendAt(dst: array<Byte>, o: nat, cover: Byte, color: Pixel)
    requires o + 4 <= dst.Length && Premultiplied(PixelAt(dst[..], o))
    modifies dst
    ensures PixelAt(dst[..], o) == BlendPixel(old(PixelAt(dst[..], o)), cover, color)
    ensures forall q :: 0 <= q < dst.Length && !(o <= q < o + 4) ==> dst[q] == old(dst[q])
  {
    hide Div255;
    var px := PixelAt(dst[..], o);
    var a := Div255(cover * color.a);
    assert a == CoverAlpha(cover, color);
    hide CoverAlpha;
    OverBound(color.r, a, px.r, px.a);
    OverBound(color.g, a, px.g, px.a);
    OverBound(color.b, a, px.b, px.a);
    var ia := 255 - a;
    var r := Div255(color.r * a);
    var g := Div255(color.g * a);
    var b := Div255(color.b * a);
    r := r + Div255(ia * dst[o]);
    g := g + Div255(ia * dst[o+1]);
    b := b + Div255(ia * dst[o+2]);
    var alpha := a + Div255(ia * dst[o+3]);
    dst[o] := r;
    dst[o+1] := g;
    dst[o+2] := b;
    dst[o+3] := alpha;
  }

  /** Blitting only the reached columns is blending the whole row: elsewhere the coverage is zero. */
  lemma BlendedWholeRow(now: seq<Byte>, was: seq<Byte>, base: nat, from: nat, to: nat, w: nat, cover: seq<Byte>, colors: seq<Pixel>)
    requires from <= to <= w && base + 4 * w <= |was| == |now| && w <= |cover| && w <= |colors|
    requires forall p :: 0 <= p < w ==> Premultiplied(PixelAt(was, base + 4 * p))
    requires Blended(now, was, base, from, to, cover, colors)
    requires forall p :: 0 <= p < w && !(from <= p < to) ==> cover[p] == 0
    ensures Blended(now, was, base, 0, w, cover, colors)
  {
    hide BlendPixel, Premultiplied;
    forall p | 0 <= p < w
      ensures PixelAt(now, base + 4 * p) == BlendPixel(PixelAt(was, base + 4 * p), cover[p], colors[p])
    {
      if !(from <= p < to) {
        BlendExtremes(PixelAt(was, base + 4 * p), colors[p]);
        assert PixelAt(now, base + 4 * p) == PixelAt(was, base + 4 * p);
      }
    }
  }
}
