/** Premultiplied 8-bit blending: exact division by 255 and the invariant that makes unpremultiplying safe. */
module Blend {
  import opened Common

  datatype Pixel = Pixel(r: Byte, g: Byte, b: Byte, a: Byte)

  function Div255(x: int): int { (x + 1) * 257 / 0x10000 }

  /** The multiply-and-shift is the exact quotient on every product of two bytes. */
  lemma Div255Exact(x: int)
    requires 0 <= x <= 255 * 255
    ensures Div255(x) == x / 255
  {
  }

  lemma Product(x: Byte, y: Byte)
    ensures 0 <= x * y <= 255 * 255 && x * y <= 255 * y && x * y <= x * 255
  {
    MulMono(y, x, 255);
    MulMono(x, y, 255);
    MulMono(x, 0, y);
  }

  lemma Div255Mono(x: Byte, y: Byte, z: Byte)
    requires x <= y
    ensures 0 <= Div255(z * x) <= Div255(z * y) <= 255
    ensures Div255(z * y) <= z && Div255(z * y) <= y
  {
    Product(z, x);
    Product(z, y);
    MulMono(z, x, y);
    Mono(z * x, z * y);
    assert Div255(255 * y) == y && Div255(z * 255) == z;
    Mono(z * y, 255 * y);
    Mono(z * y, z * 255);
  }

  lemma Mono(x: int, y: int)
    requires 0 <= x <= y
    ensures 0 <= Div255(x) <= Div255(y)
  {
  }

  /** One channel: the paint's premultiplied share over what is left of the destination. */
  function Over(c: Byte, a: Byte, dst: Byte): int { Div255(c * a) + Div255((255 - a) * dst) }

  function CoverAlpha(cover: Byte, color: Pixel): (a: Byte)
    ensures a <= color.a && a <= cover
  {
    Div255Mono(color.a, color.a, cover);
    Div255(cover * color.a)
  }

  lemma OverBound(c: Byte, a: Byte, dst: Byte, dstA: Byte)
    requires dst <= dstA
    ensures 0 <= Over(c, a, dst) <= a + Div255((255 - a) * dstA) <= 255
  {
    Div255Mono(c, c, a);
    assert c * a == a * c;
    Div255Mono(dst, dstA, 255 - a);
  }

  /** Channels never exceed alpha. */
  predicate Premultiplied(p: Pixel) { p.r <= p.a && p.g <= p.a && p.b <= p.a }

  /** What blending computes for a premultiplied destination, before the casts back to a byte. */
  function BlendPixel(dst: Pixel, cover: Byte, color: Pixel): (p: Pixel)
    requires Premultiplied(dst)
    ensures Premultiplied(p)
  {
    var a := CoverAlpha(cover, color);
    OverBound(color.r, a, dst.r, dst.a);
    OverBound(color.g, a, dst.g, dst.a);
    OverBound(color.b, a, dst.b, dst.a);
    Pixel(Over(color.r, a, dst.r), Over(color.g, a, dst.g), Over(color.b, a, dst.b), a + Div255((255 - a) * dst.a))
  }

  /** Coverage scales the colour's alpha, rounded down. */
  lemma CoveredAlpha(cover: Byte, color: Pixel)
    ensures 255 * CoverAlpha(cover, color) <= cover * color.a < 255 * CoverAlpha(cover, color) + 255
  {
    Product(cover, color.a);
    Div255Exact(cover * color.a);
    hide Div255;
  }

  /** 255 times a channel is the mean of c and d with weights a and 255 - a, or short of it by less than twice 255. */
  predicate MeanOf(now: int, c: int, d: int, a: int) { 255 * now <= c * a + (255 - a) * d < 255 * now + 510 }

  lemma OverIsMean(c: Byte, a: Byte, d: Byte)
    ensures MeanOf(Over(c, a, d), c, d, a)
  {
    Product(c, a);
    Product(255 - a, d);
    Div255Exact(c * a);
    Div255Exact((255 - a) * d);
    hide Div255;
  }

  /** Blending paints each channel's mean, weighted by what the coverage makes of the colour's alpha, and lays the
      same alpha over the pixel's. */
  lemma BlendIsMean(dst: Pixel, cover: Byte, color: Pixel)
    requires Premultiplied(dst)
    ensures var a := cover * color.a / 255;
            var p := BlendPixel(dst, cover, color);
            MeanOf(p.r, color.r, dst.r, a) && MeanOf(p.g, color.g, dst.g, a) && MeanOf(p.b, color.b, dst.b, a) &&
            255 * p.a <= 255 * a + (255 - a) * dst.a < 255 * p.a + 255
  {
    var a := CoverAlpha(cover, color);
    CoveredAlpha(cover, color);
    OverIsMean(color.r, a, dst.r);
    OverIsMean(color.g, a, dst.g);
    OverIsMean(color.b, a, dst.b);
    Product(255 - a, dst.a);
    Div255Exact((255 - a) * dst.a);
    Rounded(cover * color.a, a);
    hide Div255, CoverAlpha, Over, MeanOf;
  }

  lemma Rounded(n: int, a: int)
    requires 255 * a <= n < 255 * a + 255
    ensures n / 255 == a
  {
  }

  lemma Unchanged(dst: Byte)
    ensures Div255(255 * dst) == dst && Div255(dst * 255) == dst && Div255(0 * dst) == 0 && Div255(dst * 0) == 0
  {
  }

  /** No coverage leaves the pixel alone; full coverage by an opaque colour replaces it. */
  lemma BlendExtremes(dst: Pixel, color: Pixel)
    requires Premultiplied(dst)
    ensures BlendPixel(dst, 0, color) == dst
    ensures color.a == 255 ==> BlendPixel(dst, 255, color) == color
  {
    Unchanged(dst.r); Unchanged(dst.g); Unchanged(dst.b); Unchanged(dst.a);
    Unchanged(color.r); Unchanged(color.g); Unchanged(color.b); Unchanged(color.a);
  }

  /** Painting never makes a pixel more transparent, nor less opaque than the paint laid on it. */
  lemma AlphaGrows(dst: Pixel, cover: Byte, color: Pixel)
    requires Premultiplied(dst)
    ensures BlendPixel(dst, cover, color).a >= dst.a
    ensures BlendPixel(dst, cover, color).a >= CoverAlpha(cover, color)
  {
    LeftOver(CoverAlpha(cover, color), dst.a);
  }

  lemma LeftOver(a: Byte, d: Byte)
    ensures a + Div255((255 - a) * d) >= d && Div255((255 - a) * d) >= 0
  {
    hide Div255;
    Product(255 - a, d);
    Product(a, d);
    Div255Exact((255 - a) * d);
    assert (255 - a) * d == 255 * d - a * d;
  }

  /** The channel value unpremultiplying stores. */
  function Unpremultiplied(c: Byte, a: Byte): int { if a != 0 then c * 255 / a else c }

  /** Unpremultiplying scales by 255/a, rounded down; it stays in a byte exactly when the channel does not exceed a non-zero alpha. */
  lemma UnpremultiplyInRange(c: Byte, a: Byte)
    ensures 0 <= Unpremultiplied(c, a) <= 255 <==> (c <= a || a == 0)
    ensures if a == 0 then Unpremultiplied(c, a) == c else a * Unpremultiplied(c, a) <= 255 * c < a * Unpremultiplied(c, a) + a
  {
    if a != 0 {
      var q := Quotient(c * 255, a);
      if c <= a {
        if q >= 256 { MulMono(a, 256, q); }
      } else {
        if q <= 255 { MulMono(a, q, 255); }
      }
    }
  }

  lemma Quotient(n: nat, a: int) returns (q: nat)
    requires a > 0
    ensures q == n / a && a * q <= n < a * q + a
  {
    q := n / a;
    assert n == a * q + n % a;
  }

  /** Dividing by 255 and by a again, from the product of c and a: what is lost, in terms of the products. */
  lemma LossBound(product: int, scaled: int, kept: int, a: int)
    requires 0 <= product - scaled <= 254 && kept <= scaled < kept + a
    ensures 0 <= product - kept <= 253 + a
  {
  }

  lemma NotMore(c: int, u: int, a: int)
    requires a > 0 && a * u <= c * a
    ensures u <= c
  {
    if u > c { MulMono(a, c + 1, u); }
  }

  /** Unpremultiplying a premultiplied channel loses at most about 255/a of it, and never gains. */
  lemma UnpremultiplyUndoes(c: Byte, a: Byte)
    requires a > 0
    ensures var u := Unpremultiplied(Div255(c * a), a);
            u <= c && (c - u) * a <= 253 + a
  {
    Product(c, a);
    Div255Exact(c * a);
    hide Div255;
    var scaled := Div255(c * a) * 255;
    assert 0 <= c * a - scaled <= 254;
    var u := Quotient(scaled, a);
    LossBound(c * a, scaled, a * u, a);
    NotMore(c, u, a);
    Spread(c, u, a);
  }

  lemma Spread(c: int, u: int, a: int)
    ensures (c - u) * a == c * a - a * u
  {
  }
}
