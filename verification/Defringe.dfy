/** The last pass over an unpremultiplied image: transparent pixels take the average colour of their painted neighbours. */
module Defringe {
  import opened Common
  import opened Blend
  import opened Scanline
  import opened Raster

  /** The pixels of an image: its size, and the bytes from one row to the next. */
  datatype Frame = Frame(w: nat, h: nat, stride: nat)

  function Offset(f: Frame, x: nat, y: nat): nat { RowBase(y, f.stride) + 4 * x }

  ghost predicate Fits(f: Frame, bm: seq<Byte>) {
    4 * f.w <= f.stride && forall y :: 0 <= y < f.h ==> RowBase(y, f.stride) + 4 * f.w <= |bm|
  }

  ghost predicate In(f: Frame, x: int, y: int) { 0 <= x < f.w && 0 <= y < f.h }

  ghost function PixelOf(f: Frame, bm: seq<Byte>, x: nat, y: nat): Pixel
    requires Fits(f, bm) && In(f, x, y)
  {
    PixelAt(bm, Offset(f, x, y))
  }

  // ----- The average -----

  /** Number of painted pixels, and the sums of their channels. */
  datatype Sum = Sum(n: nat, r: nat, g: nat, b: nat)

  function Added(s: Sum, p: Pixel): Sum {
    if p.a != 0 then Sum(s.n + 1, s.r + p.r, s.g + p.g, s.b + p.b) else s
  }

  function Total(ps: seq<Pixel>): Sum {
    if ps == [] then Sum(0, 0, 0, 0) else Added(Total(ps[..|ps|-1]), ps[|ps|-1])
  }

  lemma TotalPush(ps: seq<Pixel>, p: Pixel)
    ensures Total(ps + [p]) == Added(Total(ps), p)
  {
    assert (ps + [p])[..|ps|] == ps;
  }

  ghost predicate Within(ps: seq<Pixel>, lo: Pixel, hi: Pixel) {
    forall i :: 0 <= i < |ps| && ps[i].a != 0 ==>
      lo.r <= ps[i].r <= hi.r && lo.g <= ps[i].g <= hi.g && lo.b <= ps[i].b <= hi.b
  }

  lemma {:induction false} TotalWithin(ps: seq<Pixel>, lo: Pixel, hi: Pixel)
    requires Within(ps, lo, hi)
    ensures var s := Total(ps);
            s.n * lo.r <= s.r <= s.n * hi.r && s.n * lo.g <= s.g <= s.n * hi.g && s.n * lo.b <= s.b <= s.n * hi.b
  {
    if ps != [] {
      var front, p := ps[..|ps|-1], ps[|ps|-1];
      TotalWithin(front, lo, hi);
      var s := Total(front);
      if p.a != 0 {
        OneMore(s.n, lo.r, hi.r);
        OneMore(s.n, lo.g, hi.g);
        OneMore(s.n, lo.b, hi.b);
      }
    }
  }

  lemma OneMore(n: nat, a: int, b: int)
    ensures (n + 1) * a == n * a + a && (n + 1) * b == n * b + b
  {
  }

  lemma AverageWithin(n: nat, sum: nat, lo: nat, hi: nat)
    requires n > 0 && n * lo <= sum <= n * hi
    ensures lo <= sum / n <= hi
  {
    var q := Quotient(sum, n);
    if q < lo { MulMono(n, q + 1, lo); }
    if hi < q { MulMono(n, hi + 1, q); }
  }

  /** A transparent pixel with painted neighbours takes their average, which stays in a byte. */
  function Fringed(p: Pixel, ps: seq<Pixel>): (r: Pixel)
    ensures r.a == p.a && (p.a != 0 ==> r == p)
  {
    var s := Total(ps);
    if p.a != 0 || s.n == 0 then p
    else
      TotalWithin(ps, Pixel(0, 0, 0, 0), Pixel(255, 255, 255, 255));
      AverageWithin(s.n, s.r, 0, 255);
      AverageWithin(s.n, s.g, 0, 255);
      AverageWithin(s.n, s.b, 0, 255);
      Pixel(s.r / s.n, s.g / s.n, s.b / s.n, p.a)
  }

  /** Each channel it takes lies between the smallest and the largest among the painted neighbours. */
  lemma FringeIsBetween(p: Pixel, ps: seq<Pixel>, lo: Pixel, hi: Pixel)
    requires p.a == 0 && Total(ps).n > 0 && Within(ps, lo, hi)
    ensures var r := Fringed(p, ps); lo.r <= r.r <= hi.r && lo.g <= r.g <= hi.g && lo.b <= r.b <= hi.b
  {
    var s := Total(ps);
    TotalWithin(ps, lo, hi);
    AverageWithin(s.n, s.r, lo.r, hi.r);
    AverageWithin(s.n, s.g, lo.g, hi.g);
    AverageWithin(s.n, s.b, lo.b, hi.b);
  }

  // ----- Neighbours -----

  /** The neighbours looked at: left, right, above, below; the first column and row never serve as left and above. */
  ghost function Neighbours(f: Frame, bm: seq<Byte>, x: nat, y: nat): seq<Pixel>
    requires Fits(f, bm) && In(f, x, y)
  {
    (((if x > 1 then [PixelOf(f, bm, x - 1, y)] else [])
      + (if x + 1 < f.w then [PixelOf(f, bm, x + 1, y)] else []))
     + (if y > 1 then [PixelOf(f, bm, x, y - 1)] else []))
    + (if y + 1 < f.h then [PixelOf(f, bm, x, y + 1)] else [])
  }

  /** Two positions a step apart, to the side or up and down. */
  ghost predicate Adjacent(x: int, y: int, px: int, py: int) {
    (py == y && (px == x - 1 || px == x + 1)) || (px == x && (py == y - 1 || py == y + 1))
  }

  /** Where the neighbours are. */
  function Places(f: Frame, x: nat, y: nat): seq<(nat, nat)> {
    (((if x > 1 then [(x - 1, y)] else []) + (if x + 1 < f.w then [(x + 1, y)] else []))
     + (if y > 1 then [(x, y - 1)] else []))
    + (if y + 1 < f.h then [(x, y + 1)] else [])
  }

  /** They are the adjacent pixels of the image, each once, but for column 0 to its right and row 0 below it. */
  lemma PlacesAre(f: Frame, x: nat, y: nat)
    requires In(f, x, y)
    ensures forall i, j :: 0 <= i < j < |Places(f, x, y)| ==> Places(f, x, y)[i] != Places(f, x, y)[j]
    ensures forall px: nat, py: nat :: (px, py) in Places(f, x, y) <==>
      In(f, px, py) && Adjacent(x, y, px, py) && !(px == 0 && x == 1) && !(py == 0 && y == 1)
  {
  }

  /** The neighbours are the pixels there. */
  lemma NeighboursAt(f: Frame, bm: seq<Byte>, x: nat, y: nat)
    requires Fits(f, bm) && In(f, x, y)
    ensures |Neighbours(f, bm, x, y)| == |Places(f, x, y)|
    ensures forall i :: 0 <= i < |Places(f, x, y)| ==>
      var (px, py) := Places(f, x, y)[i]; In(f, px, py) && Neighbours(f, bm, x, y)[i] == PixelOf(f, bm, px, py)
  {
    hide PixelOf, Fits;
  }

  /** Two pixels that are the same, or both transparent. */
  predicate Alike(p: Pixel, q: Pixel) { p == q || (p.a == 0 && q.a == 0) }

  lemma {:induction false} AlikeTotal(ps: seq<Pixel>, qs: seq<Pixel>)
    requires |ps| == |qs| && forall i :: 0 <= i < |ps| ==> Alike(ps[i], qs[i])
    ensures Total(ps) == Total(qs)
  {
    if ps != [] {
      AlikeTotal(ps[..|ps|-1], qs[..|qs|-1]);
      assert Alike(ps[|ps|-1], qs[|ps|-1]);
    }
  }

  ghost predicate AlikeImages(f: Frame, now: seq<Byte>, was: seq<Byte>)
    requires Fits(f, now) && Fits(f, was)
  {
    forall x, y :: In(f, x, y) ==> Alike(PixelOf(f, now, x, y), PixelOf(f, was, x, y))
  }

  /** Colours of transparent pixels are never read: images alike but for those give the same sums. */
  lemma SumsAlike(f: Frame, now: seq<Byte>, was: seq<Byte>, x: nat, y: nat)
    requires Fits(f, now) && Fits(f, was) && AlikeImages(f, now, was) && In(f, x, y)
    ensures Total(Neighbours(f, now, x, y)) == Total(Neighbours(f, was, x, y))
  {
    hide PixelOf, Alike, Total;
    var ps, qs := Neighbours(f, now, x, y), Neighbours(f, was, x, y);
    assert x > 1 ==> Alike(PixelOf(f, now, x - 1, y), PixelOf(f, was, x - 1, y));
    assert x + 1 < f.w ==> Alike(PixelOf(f, now, x + 1, y), PixelOf(f, was, x + 1, y));
    assert y > 1 ==> Alike(PixelOf(f, now, x, y - 1), PixelOf(f, was, x, y - 1));
    assert y + 1 < f.h ==> Alike(PixelOf(f, now, x, y + 1), PixelOf(f, was, x, y + 1));
    AlikeTotal(ps, qs);
  }

  // ----- The pass -----

  /** The pixel the pass leaves at (x, y), in terms of the image before the pass. */
  ghost function FringedAt(f: Frame, was: seq<Byte>, x: nat, y: nat): Pixel
    requires Fits(f, was) && In(f, x, y)
  {
    Fringed(PixelOf(f, was, x, y), Neighbours(f, was, x, y))
  }

  ghost predicate Visited(px: int, py: int, x: int, y: int) { py < y || (py == y && px < x) }

  /** The pixels before (x, y), in row order, are done; the others and all other bytes are as they were. */
  ghost predicate DoneTo(f: Frame, now: seq<Byte>, was: seq<Byte>, x: nat, y: nat) {
    && |now| == |was| && Fits(f, was)
    && (forall px, py :: In(f, px, py) ==>
          PixelOf(f, now, px, py) == if Visited(px, py, x, y) then FringedAt(f, was, px, py) else PixelOf(f, was, px, py))
    && (forall q :: 0 <= q < |was| && OutsideRows(q, f.h, f.stride, f.w) ==> now[q] == was[q])
  }

  lemma DoneIsAlike(f: Frame, now: seq<Byte>, was: seq<Byte>, x: nat, y: nat)
    requires DoneTo(f, now, was, x, y)
    ensures Fits(f, now) && AlikeImages(f, now, was)
  {
    hide PixelOf, Fringed, Neighbours, OutsideRows;
    forall px, py | In(f, px, py)
      ensures Alike(PixelOf(f, now, px, py), PixelOf(f, was, px, py))
    {
      var p, q := PixelOf(f, now, px, py), PixelOf(f, was, px, py);
      assert p == if Visited(px, py, x, y) then FringedAt(f, was, px, py) else q;
    }
  }

  lemma OffsetsApart(f: Frame, px: nat, py: nat, x: nat, y: nat)
    requires 4 * f.w <= f.stride && In(f, px, py) && In(f, x, y) && (px != x || py != y)
    ensures Offset(f, px, py) + 4 <= Offset(f, x, y) || Offset(f, x, y) + 4 <= Offset(f, px, py)
  {
    if py < y { RowsApart(py, y, f.stride); }
    if y < py { RowsApart(y, py, f.stride); }
    hide RowBase;
  }

  /** One more pixel done. */
  lemma DoneStep(f: Frame, now: seq<Byte>, before: seq<Byte>, was: seq<Byte>, x: nat, y: nat)
    requires DoneTo(f, before, was, x, y) && In(f, x, y) && |now| == |before|
    requires Fits(f, now) && PixelOf(f, now, x, y) == FringedAt(f, was, x, y)
    requires forall q :: 0 <= q < |now| && !(Offset(f, x, y) <= q < Offset(f, x, y) + 4) ==> now[q] == before[q]
    ensures DoneTo(f, now, was, x + 1, y)
  {
    hide Fringed, Neighbours, FringedAt, RowBase;
    forall px, py | In(f, px, py)
      ensures PixelOf(f, now, px, py) == if Visited(px, py, x + 1, y) then FringedAt(f, was, px, py) else PixelOf(f, was, px, py)
    {
      if px != x || py != y {
        OffsetsApart(f, px, py, x, y);
        assert PixelOf(f, now, px, py) == PixelOf(f, before, px, py);
      }
    }
    forall q | 0 <= q < |was| && OutsideRows(q, f.h, f.stride, f.w)
      ensures now[q] == was[q]
    {
      assert !(RowBase(y, f.stride) <= q < RowBase(y, f.stride) + 4 * f.w);
    }
  }

  lemma DoneRow(f: Frame, now: seq<Byte>, was: seq<Byte>, y: nat)
    requires DoneTo(f, now, was, f.w, y)
    ensures DoneTo(f, now, was, 0, y + 1)
  {
    hide PixelOf, FringedAt, OutsideRows;
  }

  /** The painted neighbours' number and sums. */
  method SumNeighbours(image: array<Byte>, w: nat, h: nat, stride: nat, x: nat, y: nat) returns (s: Sum)
    requires Fits(Frame(w, h, stride), image[..]) && x < w && y < h
    ensures s == Total(Neighbours(Frame(w, h, stride), image[..], x, y))
  {
    hide Total, RowBase;
    ghost var f, bm := Frame(w, h, stride), image[..];
    var row := y * stride + 4 * x;
    RowStart(y, stride);
    s := Sum(0, 0, 0, 0);
    ghost var ps: seq<Pixel> := [];
    TotalNone();
    if x > 1 {
      s := AddPixel(image, s, row - 4, ps);
      ps := ps + [PixelOf(f, bm, x - 1, y)];
    }
    if x + 1 < w {
      s := AddPixel(image, s, row + 4, ps);
      ps := ps + [PixelOf(f, bm, x + 1, y)];
    }
    if y > 1 {
      NextRow(y - 1, stride);
      s := AddPixel(image, s, row - stride, ps);
      ps := ps + [PixelOf(f, bm, x, y - 1)];
    }
    if y + 1 < h {
      NextRow(y, stride);
      s := AddPixel(image, s, row + stride, ps);
      ps := ps + [PixelOf(f, bm, x, y + 1)];
    }
    hide PixelOf;
    assert ps == Neighbours(f, bm, x, y);
  }

  /** One pixel of the pass. */
  method DefringeAt(image: array<Byte>, w: nat, h: nat, stride: nat, x: nat, y: nat)
    requires Fits(Frame(w, h, stride), image[..]) && x < w && y < h
    modifies image
    ensures var f := Frame(w, h, stride);
            Fits(f, image[..]) && PixelOf(f, image[..], x, y)
              == Fringed(PixelOf(f, old(image[..]), x, y), Neighbours(f, old(image[..]), x, y))
    ensures forall q :: 0 <= q < image.Length && !(Offset(Frame(w, h, stride), x, y) <= q < Offset(Frame(w, h, stride), x, y) + 4)
              ==> image[q] == old(image[q])
  {
    hide Total, Fringed, RowBase, Neighbours;
    ghost var f, was := Frame(w, h, stride), image[..];
    var row := y * stride + 4 * x;
    RowStart(y, stride);
    FringedIs(PixelOf(f, was, x, y), Neighbours(f, was, x, y));
    if image[row + 3] == 0 {
      var s := SumNeighbours(image, w, h, stride, x, y);
      if s.n > 0 {
        image[row] := s.r / s.n;
        image[row + 1] := s.g / s.n;
        image[row + 2] := s.b / s.n;
      }
    }
  }

  lemma TotalNone()
    ensures Total([]) == Sum(0, 0, 0, 0)
  {
  }

  lemma FringedIs(p: Pixel, ps: seq<Pixel>)
    ensures var s := Total(ps);
            if p.a != 0 || s.n == 0 then Fringed(p, ps) == p
            else s.r / s.n <= 255 && s.g / s.n <= 255 && s.b / s.n <= 255
                 && Fringed(p, ps) == Pixel(s.r / s.n, s.g / s.n, s.b / s.n, p.a)
  {
    var s := Total(ps);
    if p.a == 0 && s.n > 0 {
      TotalWithin(ps, Pixel(0, 0, 0, 0), Pixel(255, 255, 255, 255));
      AverageWithin(s.n, s.r, 0, 255);
      AverageWithin(s.n, s.g, 0, 255);
      AverageWithin(s.n, s.b, 0, 255);
    }
  }

  lemma NextRow(y: nat, stride: nat)
    ensures RowBase(y + 1, stride) == RowBase(y, stride) + stride
  {
  }

  /** Adds the pixel at o unless it is transparent. */
  method AddPixel(image: array<Byte>, s: Sum, o: nat, ghost ps: seq<Pixel>) returns (r: Sum)
    requires o + 4 <= image.Length && s == Total(ps)
    ensures r == Total(ps + [PixelAt(image[..], o)])
  {
    TotalPush(ps, PixelAt(image[..], o));
    r := s;
    if image[o + 3] != 0 {
      r := Sum(s.n + 1, s.r + image[o], s.g + image[o + 1], s.b + image[o + 2]);
    }
  }

  /** The whole pass: every pixel ends as the image before the pass says, whatever was written in between. */
  method DefringeAll(image: array<Byte>, w: nat, h: nat, stride: nat)
    requires Fits(Frame(w, h, stride), image[..])
    modifies image
    ensures DoneTo(Frame(w, h, stride), image[..], old(image[..]), 0, h)
  {
    hide PixelOf, FringedAt, Neighbours, Fringed, OutsideRows, RowBase;
    ghost var f, was := Frame(w, h, stride), image[..];
    var y := 0;
    while y < h
      invariant 0 <= y <= h && DoneTo(f, image[..], was, 0, y)
    {
      var x := 0;
      while x < w
        invariant 0 <= x <= w && DoneTo(f, image[..], was, x, y)
      {
        ghost var before := image[..];
        Unvisited(f, before, was, x, y);
        DefringeAt(image, w, h, stride, x, y);
        DoneStep(f, image[..], before, was, x, y);
        x := x + 1;
      }
      DoneRow(f, image[..], was, y);
      y := y + 1;
    }
  }

  /** A pixel not yet visited, and what it is about to become. */
  lemma Unvisited(f: Frame, now: seq<Byte>, was: seq<Byte>, x: nat, y: nat)
    requires DoneTo(f, now, was, x, y) && In(f, x, y)
    ensures Fits(f, now)
    ensures Fringed(PixelOf(f, now, x, y), Neighbours(f, now, x, y)) == FringedAt(f, was, x, y)
  {
    DoneIsAlike(f, now, was, x, y);
    SumsAlike(f, now, was, x, y);
    hide PixelOf, Neighbours, Total;
    assert PixelOf(f, now, x, y) == PixelOf(f, was, x, y);
  }
  // ----- Any order of visiting -----

  /** The image after the pass's step at (x, y). */
  ghost function Stepped(f: Frame, bm: seq<Byte>, x: nat, y: nat): (r: seq<Byte>)
    requires Fits(f, bm) && In(f, x, y)
    ensures |r| == |bm| && Fits(f, r)
  {
    var o, p := Offset(f, x, y), FringedAt(f, bm, x, y);
    bm[o := p.r][o + 1 := p.g][o + 2 := p.b][o + 3 := p.a]
  }

  /** The image after steps at a sequence of pixels, in that order. */
  ghost function SteppedAll(f: Frame, was: seq<Byte>, order: seq<(nat, nat)>): (r: seq<Byte>)
    requires Fits(f, was) && forall i :: 0 <= i < |order| ==> In(f, order[i].0, order[i].1)
    ensures |r| == |was| && Fits(f, r)
  {
    if order == [] then was
    else
      var last := order[|order|-1];
      Stepped(f, SteppedAll(f, was, order[..|order|-1]), last.0, last.1)
  }

  /** The step changes one pixel. */
  lemma SteppedPixels(f: Frame, bm: seq<Byte>, x: nat, y: nat, px: nat, py: nat)
    requires Fits(f, bm) && In(f, x, y) && In(f, px, py)
    ensures PixelOf(f, Stepped(f, bm, x, y), px, py) == if px == x && py == y then FringedAt(f, bm, x, y) else PixelOf(f, bm, px, py)
  {
    hide RowBase, FringedAt;
    if px != x || py != y { OffsetsApart(f, px, py, x, y); }
  }

  /** A pixel that has had its step has it again without change. */
  lemma FringedTwice(p: Pixel, ps: seq<Pixel>)
    ensures Fringed(Fringed(p, ps), ps) == Fringed(p, ps)
  {
    hide Total;
  }

  /**
   * Whatever pixels are visited, in whatever order and however often: each visited pixel ends as the image before the
   * pass says, and the others as they were.
   */
  lemma {:induction false} OrderFree(f: Frame, was: seq<Byte>, order: seq<(nat, nat)>, px: nat, py: nat)
    requires Fits(f, was) && (forall i :: 0 <= i < |order| ==> In(f, order[i].0, order[i].1)) && In(f, px, py)
    ensures PixelOf(f, SteppedAll(f, was, order), px, py)
         == if (px, py) in order then FringedAt(f, was, px, py) else PixelOf(f, was, px, py)
  {
    hide PixelOf, Neighbours, Fringed, Total;
    if order != [] {
      var front, last := order[..|order|-1], order[|order|-1];
      var x, y := last.0, last.1;
      var now := SteppedAll(f, was, front);
      assert order == front + [last];
      OrderFree(f, was, front, px, py);
      SteppedPixels(f, now, x, y, px, py);
      if px == x && py == y {
        forall qx, qy | In(f, qx, qy)
          ensures Alike(PixelOf(f, now, qx, qy), PixelOf(f, was, qx, qy))
        {
          OrderFree(f, was, front, qx, qy);
        }
        SumsAlike(f, now, was, x, y);
        SameSums(PixelOf(f, was, x, y), Neighbours(f, now, x, y), Neighbours(f, was, x, y));
        FringedTwice(PixelOf(f, was, x, y), Neighbours(f, was, x, y));
        SameSums(PixelOf(f, now, x, y), Neighbours(f, now, x, y), Neighbours(f, was, x, y));
      }
    }
  }

  lemma SameSums(p: Pixel, ps: seq<Pixel>, qs: seq<Pixel>)
    requires Total(ps) == Total(qs)
    ensures Fringed(p, ps) == Fringed(p, qs)
  {
    hide Total;
  }

  /** A sequence that comes to every pixel leaves the image that the pass in row order leaves. */
  lemma AnyOrderIsRowOrder(f: Frame, was: seq<Byte>, order: seq<(nat, nat)>, now: seq<Byte>, px: nat, py: nat)
    requires Fits(f, was) && (forall i :: 0 <= i < |order| ==> In(f, order[i].0, order[i].1)) && In(f, px, py)
    requires (px, py) in order && DoneTo(f, now, was, 0, f.h)
    ensures PixelOf(f, SteppedAll(f, was, order), px, py) == PixelOf(f, now, px, py)
  {
    hide PixelOf, FringedAt, SteppedAll;
    OrderFree(f, was, order, px, py);
  }
}
