/** Fill spans of one sub-scanline, their meaning by fill rule, and the pixel coverage they add. */
module Spans {
  import opened Common
  import opened Winding
  import opened ActiveList

  datatype FillRule = NonZero | EvenOdd

  /** Fixed-point x from x0 up to but not including x1. */
  datatype Span = Span(x0: int, x1: int)

  /** The fill loop's variables: winding counter, start of the open span, spans drawn so far. */
  datatype Scanner = Scanner(w: int, x0: int, spans: seq<Span>)

  function NextW(rule: FillRule, w: int, dir: int): int {
    if rule == NonZero then w + dir else if w == 0 then 1 else 0
  }

  function Feed(rule: FillRule, t: Scanner, a: Active): Scanner {
    var w := NextW(rule, t.w, a.dir);
    if t.w == 0 then Scanner(w, a.x, t.spans)
    else if w == 0 then Scanner(w, t.x0, t.spans + [Span(t.x0, a.x)])
    else Scanner(w, t.x0, t.spans)
  }

  function Scanned(rule: FillRule, s: seq<Active>): Scanner {
    if s == [] then Scanner(0, 0, []) else Feed(rule, Scanned(rule, s[..|s|-1]), s[|s|-1])
  }

  function SpansOf(rule: FillRule, s: seq<Active>): seq<Span> { Scanned(rule, s).spans }

  // ----- What the spans cover -----

  function Weight(rule: FillRule, dir: int): int { if rule == NonZero then dir else 1 }

  /** Sum over the active edges at or left of x: of directions, or of ones. */
  function SumUpTo(rule: FillRule, s: seq<Active>, x: int): int {
    if s == [] then 0
    else SumUpTo(rule, s[..|s|-1], x) + if s[|s|-1].x <= x then Weight(rule, s[|s|-1].dir) else 0
  }

  /** SVG's fill rules: a non-zero winding sum, or an odd number of crossings. */
  predicate Inside(rule: FillRule, sum: int) {
    if rule == NonZero then sum != 0 else sum % 2 != 0
  }

  predicate Holding(sp: Span, x: int) { sp.x0 <= x < sp.x1 }

  ghost predicate InSpans(spans: seq<Span>, x: int) {
    exists i :: 0 <= i < |spans| && Holding(spans[i], x)
  }

  /** Left to right, without overlap. */
  predicate OrderedSpans(spans: seq<Span>) {
    && (forall i :: 0 <= i < |spans| ==> spans[i].x0 <= spans[i].x1)
    && (forall i, j :: 0 <= i < j < |spans| ==> spans[i].x1 <= spans[j].x0)
  }

  ghost predicate Dirs(s: seq<Active>) {
    forall i :: 0 <= i < |s| ==> s[i].dir == 1 || s[i].dir == -1
  }

  /** Every span, and the open one, ends by x. */
  ghost predicate Behind(t: Scanner, x: int) {
    && OrderedSpans(t.spans)
    && (forall i :: 0 <= i < |t.spans| ==> t.spans[i].x1 <= x)
    && (t.w != 0 ==> t.x0 <= x && forall i :: 0 <= i < |t.spans| ==> t.spans[i].x1 <= t.x0)
  }

  lemma {:induction false} ScannedBehind(rule: FillRule, s: seq<Active>, x: int)
    requires SortedX(s) && (s != [] ==> s[|s|-1].x <= x)
    ensures Behind(Scanned(rule, s), x)
  {
    if s != [] {
      ScannedBehind(rule, s[..|s|-1], s[|s|-1].x);
    }
  }

  lemma {:induction false} ScannedCounter(rule: FillRule, s: seq<Active>, x: int)
    requires Dirs(s) && SortedX(s) && (s != [] ==> s[|s|-1].x <= x)
    ensures var w := Scanned(rule, s).w;
            if rule == NonZero then w == SumUpTo(rule, s, x) else w == SumUpTo(rule, s, x) % 2
  {
    if s != [] {
      ScannedCounter(rule, s[..|s|-1], x);
    }
  }

  lemma {:induction false} SumBefore(rule: FillRule, s: seq<Active>, x: int)
    requires SortedX(s) && s != [] && x < s[|s|-1].x
    ensures SumUpTo(rule, s, x) == SumUpTo(rule, s[..|s|-1], x)
  {
  }

  lemma InSpansExtended(spans: seq<Span>, sp: Span, x: int)
    ensures InSpans(spans + [sp], x) <==> InSpans(spans, x) || Holding(sp, x)
  {
    var more := spans + [sp];
    if InSpans(spans, x) {
      var i :| 0 <= i < |spans| && Holding(spans[i], x);
      assert Holding(more[i], x);
    }
    if Holding(sp, x) { assert Holding(more[|spans|], x); }
  }

  /** Up to an open span at the right end, the spans are exactly where the fill rule holds. */
  lemma {:induction false} ScannedMeaning(rule: FillRule, s: seq<Active>, x: int)
    requires Dirs(s) && SortedX(s)
    ensures var t := Scanned(rule, s);
            Inside(rule, SumUpTo(rule, s, x)) <==> InSpans(t.spans, x) || (t.w != 0 && t.x0 <= x)
  {
    if s != [] {
      var front, a := s[..|s|-1], s[|s|-1];
      var t0, t := Scanned(rule, front), Scanned(rule, s);
      ScannedMeaning(rule, front, x);
      ScannedBehind(rule, front, a.x);
      ScannedBehind(rule, s, a.x);
      InSpansExtended(t0.spans, Span(t0.x0, a.x), x);
      if x < a.x {
        SumBefore(rule, s, x);
      } else {
        ScannedCounter(rule, s, x);
      }
    }
  }

  /** When the whole list cancels, no span stays open and the spans are exactly the inside of the shape. */
  lemma SpansAreInside(rule: FillRule, s: seq<Active>, right: int, x: int)
    requires Dirs(s) && SortedX(s)
    requires forall i :: 0 <= i < |s| ==> s[i].x <= right
    requires !Inside(rule, SumUpTo(rule, s, right))
    ensures Scanned(rule, s).w == 0
    ensures OrderedSpans(SpansOf(rule, s))
    ensures InSpans(SpansOf(rule, s), x) <==> Inside(rule, SumUpTo(rule, s, x))
  {
    ScannedCounter(rule, s, right);
    ScannedBehind(rule, s, right);
    ScannedMeaning(rule, s, x);
  }

  // ----- Coverage -----

  function Max(a: int, b: int): int { if a > b then a else b }

  /** Length of the part of a span between lo and hi. */
  function Overlap(sp: Span, lo: int, hi: int): nat { Max(0, Min(sp.x1, hi) - Max(sp.x0, lo)) }

  /** What one span adds to pixel p: its share of the pixel, weighted and rounded down. */
  function Cover(p: int, sp: Span, weight: nat): nat {
    Overlap(sp, p * FIX, p * FIX + FIX) * weight / FIX
  }

  function CoverSum(p: int, spans: seq<Span>, weight: nat): nat {
    if spans == [] then 0 else CoverSum(p, spans[..|spans|-1], weight) + Cover(p, spans[|spans|-1], weight)
  }

  function OverlapSum(spans: seq<Span>, lo: int, hi: int): nat {
    if spans == [] then 0 else OverlapSum(spans[..|spans|-1], lo, hi) + Overlap(spans[|spans|-1], lo, hi)
  }

  /** Number of spans that meet the stretch from lo to hi. */
  function Meeting(spans: seq<Span>, lo: int, hi: int): nat {
    if spans == [] then 0
    else Meeting(spans[..|spans|-1], lo, hi) + if Overlap(spans[|spans|-1], lo, hi) > 0 then 1 else 0
  }

  /** Those are the spans with a position in common with it, in order. */
  lemma {:induction false} MeetingAre(spans: seq<Span>, lo: int, hi: int) returns (met: seq<nat>)
    ensures |met| == Meeting(spans, lo, hi) && forall i, j :: 0 <= i < j < |met| ==> met[i] < met[j]
    ensures forall i: nat :: i in met <==> i < |spans| && spans[i].x0 < hi && lo < spans[i].x1 && spans[i].x0 < spans[i].x1 && lo < hi
  {
    if spans == [] {
      met := [];
    } else {
      var front, sp := spans[..|spans|-1], spans[|spans|-1];
      met := MeetingAre(front, lo, hi);
      assert forall i: nat :: i < |front| ==> front[i] == spans[i];
      assert forall j :: 0 <= j < |met| ==> met[j] in met;
      if Overlap(sp, lo, hi) > 0 { met := met + [|front|]; }
    }
  }

  lemma {:induction false} OverlapSumBound(spans: seq<Span>, lo: int, hi: int)
    requires OrderedSpans(spans) && lo <= hi
    ensures OverlapSum(spans, lo, hi) <= hi - lo
    ensures spans != [] ==> OverlapSum(spans, lo, hi) <= Max(0, Min(spans[|spans|-1].x1, hi) - lo)
  {
    if spans != [] {
      OverlapSumBound(spans[..|spans|-1], lo, hi);
    }
  }

  /** A pixel's total is its weighted covered length, less at most one unit of rounding for each span met. */
  lemma {:induction false} CoverSumBounds(p: int, spans: seq<Span>, weight: nat)
    ensures var covered := OverlapSum(spans, p * FIX, p * FIX + FIX);
            && CoverSum(p, spans, weight) * FIX <= covered * weight
            && covered * weight <= CoverSum(p, spans, weight) * FIX + Meeting(spans, p * FIX, p * FIX + FIX) * (FIX - 1)
  {
    hide Overlap;
    if spans != [] {
      var front, sp := spans[..|spans|-1], spans[|spans|-1];
      var lo, hi := p * FIX, p * FIX + FIX;
      CoverSumBounds(p, front, weight);
      CoverStep(OverlapSum(front, lo, hi), Overlap(sp, lo, hi), CoverSum(p, front, weight), Meeting(front, lo, hi), weight);
    }
  }

  lemma CoverStep(covered: nat, o: nat, sum: nat, meeting: nat, weight: nat)
    requires sum * FIX <= covered * weight <= sum * FIX + meeting * (FIX - 1)
    ensures (sum + o * weight / FIX) * FIX <= (covered + o) * weight
    ensures (covered + o) * weight <= (sum + o * weight / FIX) * FIX + (meeting + if o > 0 then 1 else 0) * (FIX - 1)
  {
    assert (covered + o) * weight == covered * weight + o * weight;
    CoverBounds(o * weight);
    if o == 0 { assert o * weight == 0; }
  }

  lemma CoverBounds(n: nat)
    ensures n / FIX * FIX <= n <= n / FIX * FIX + (FIX - 1)
    ensures n == 0 ==> n / FIX == 0
  {
  }

  /** One sub-scanline adds at most the full weight to any pixel. */
  lemma CoverSumBound(p: int, spans: seq<Span>, weight: nat)
    requires OrderedSpans(spans)
    ensures CoverSum(p, spans, weight) <= weight
  {
    var covered := OverlapSum(spans, p * FIX, p * FIX + FIX);
    OverlapSumBound(spans, p * FIX, p * FIX + FIX);
    CoverSumBounds(p, spans, weight);
    assert covered * weight <= FIX * weight by { MulMono(weight, covered, FIX); }
  }

  // ----- Covered length is the measure of the inside -----

  /** How many fixed-point positions from lo up to hi lie inside. */
  ghost function InsideCount(inside: int -> bool, lo: int, hi: int): nat
    decreases hi - lo
  {
    if hi <= lo then 0 else InsideCount(inside, lo, hi - 1) + if inside(hi - 1) then 1 else 0
  }

  lemma {:induction false} OverlapSumEmpty(spans: seq<Span>, lo: int, hi: int)
    requires hi <= lo
    ensures OverlapSum(spans, lo, hi) == 0
  {
    if spans != [] { OverlapSumEmpty(spans[..|spans|-1], lo, hi); }
  }

  lemma {:induction false} OverlapSumStep(spans: seq<Span>, lo: int, hi: int)
    requires OrderedSpans(spans) && lo < hi
    ensures OverlapSum(spans, lo, hi) == OverlapSum(spans, lo, hi - 1) + if InSpans(spans, hi - 1) then 1 else 0
  {
    if spans != [] {
      var front, sp := spans[..|spans|-1], spans[|spans|-1];
      assert spans == front + [sp];
      OverlapSumStep(front, lo, hi);
      InSpansExtended(front, sp, hi - 1);
    }
  }

  /** The spans' covered length is the number of positions at which the fill rule holds. */
  lemma {:induction false} OverlapIsMeasure(spans: seq<Span>, inside: int -> bool, lo: int, hi: int)
    requires OrderedSpans(spans)
    requires forall x: int :: InSpans(spans, x) <==> inside(x)
    ensures OverlapSum(spans, lo, hi) == InsideCount(inside, lo, hi)
    decreases hi - lo
  {
    if hi <= lo {
      OverlapSumEmpty(spans, lo, hi);
    } else {
      OverlapIsMeasure(spans, inside, lo, hi - 1);
      OverlapSumStep(spans, lo, hi);
    }
  }

  // ----- The same sums over the edges themselves -----

  /** Sum over the first n edges that cross sub-scanline k at or left of x; no reference to any list order. */
  function EdgeSum(rule: FillRule, edges: seq<Edge>, n: nat, k: nat, x: int): int
    requires n <= |edges| && AllWellFormed(edges)
  {
    if n == 0 then 0
    else
      var e := edges[n-1];
      EdgeSum(rule, edges, n - 1, k, x) + if Crosses(e, Scan(k)) && XAt(e, k) <= x then Weight(rule, e.dir) else 0
  }

  lemma {:induction false} SumUpToConcat(rule: FillRule, a: seq<Active>, b: seq<Active>, x: int)
    ensures SumUpTo(rule, a + b, x) == SumUpTo(rule, a, x) + SumUpTo(rule, b, x)
  {
    if b == [] {
      assert a + b == a;
    } else {
      assert (a + b)[..|a + b|-1] == a + b[..|b|-1];
      SumUpToConcat(rule, a, b[..|b|-1], x);
    }
  }

  lemma SumUpToRemove(rule: FillRule, s: seq<Active>, i: nat, x: int)
    requires i < |s|
    ensures SumUpTo(rule, s, x) == SumUpTo(rule, s[..i] + s[i+1..], x) + if s[i].x <= x then Weight(rule, s[i].dir) else 0
  {
    assert s == s[..i+1] + s[i+1..] && s[..i+1][..i] == s[..i];
    SumUpToConcat(rule, s[..i+1], s[i+1..], x);
    SumUpToConcat(rule, s[..i], s[i+1..], x);
  }

  lemma RemoveLastSrc(m: multiset<Active>, a: Active, edges: seq<Edge>, n: nat, k: nat)
    requires n > 0 && Exact(m, edges, n, k) && a in m && a.src == n - 1
    ensures Exact(m - multiset{a}, edges, n - 1, k)
  {
    hide Matches, HasSrc;
    var m' := m - multiset{a};
    assert Each(m', edges, n - 1, k);
    assert Covers(m', edges, n - 1, k) by {
      forall j: nat | j < n - 1 && Crosses(edges[j], Scan(k)) ensures HasSrc(m', j) {
        OtherSrc(m, a, j);
      }
    }
  }

  lemma OtherSrc(m: multiset<Active>, a: Active, j: nat)
    requires HasSrc(m, j) && a.src != j
    ensures HasSrc(m - multiset{a}, j)
  {
    var b :| b in m && b.src == j;
    assert b in m - multiset{a};
  }

  lemma NoLastSrc(m: multiset<Active>, edges: seq<Edge>, n: nat, k: nat)
    requires n > 0 && Exact(m, edges, n, k) && !Crosses(edges[n-1], Scan(k))
    ensures Exact(m, edges, n - 1, k)
  {
    hide HasSrc, XAt, StepX, WellFormed;
  }

  /** On an exact list, sums over the list are sums over the crossing edges, whatever the list's order. */
  lemma {:induction false} SumUpToIsEdgeSum(rule: FillRule, s: seq<Active>, edges: seq<Edge>, n: nat, k: nat, x: int)
    requires AllWellFormed(edges) && Exact(multiset(s), edges, n, k)
    ensures SumUpTo(rule, s, x) == EdgeSum(rule, edges, n, k, x)
  {
    hide XAt, StepX, Matches, Crosses, Each, Unique, Covers, HasSrc;
    if n == 0 {
      NoneActive(s, edges, k);
    } else if Crosses(edges[n-1], Scan(k)) {
      var i := LastSrc(s, edges, n, k);
      SumUpToRemove(rule, s, i, x);
      MultisetRemove(s, i);
      RemoveLastSrc(multiset(s), s[i], edges, n, k);
      SumUpToIsEdgeSum(rule, s[..i] + s[i+1..], edges, n - 1, k, x);
    } else {
      NoLastSrc(multiset(s), edges, n, k);
      SumUpToIsEdgeSum(rule, s, edges, n - 1, k, x);
    }
  }

  lemma LastSrc(s: seq<Active>, edges: seq<Edge>, n: nat, k: nat) returns (i: nat)
    requires n > 0 && Exact(multiset(s), edges, n, k) && Crosses(edges[n-1], Scan(k))
    ensures i < |s| && s[i] in multiset(s) && s[i].src == n - 1
    ensures edges[n-1].y0 < edges[n-1].y1 && s[i].x == XAt(edges[n-1], k) && s[i].dir == edges[n-1].dir
  {
    hide XAt, StepX;
    assert HasSrc(multiset(s), n - 1);
    var a :| a in multiset(s) && a.src == n - 1;
    i :| 0 <= i < |s| && s[i] == a;
    assert Matches(a, edges, k);
  }

  lemma NoneActive(s: seq<Active>, edges: seq<Edge>, k: nat)
    requires Exact(multiset(s), edges, 0, k)
    ensures s == []
  {
    assert forall a :: a !in multiset(s);
    assert multiset(s) == multiset{};
    assert |s| == |multiset(s)|;
  }
}
