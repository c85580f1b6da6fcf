/** The scanline sweep over a rasterizer's sorted edges, from active list to blended image rows. */
module Raster {
  import opened Common
  import opened Winding
  import opened PagePool
  import opened ActiveList
  import opened Spans
  import opened Blend
  import opened Scanline
  import opened Coverage

  /** Size of an active edge record in the pool. */
  const NODE_SIZE := 32

  /** Weight of one sub-scanline. */
  const WEIGHT: Byte := 255 / SUBSAMPLES

  // ----- Node bookkeeping -----

  /** Nodes in use and nodes in the freelist together are each node the pool gave out, exactly once. */
  ghost predicate Accounted(nodes: seq<Block>, free: seq<Block>, blocks: seq<Block>) {
    && multiset(nodes) + multiset(free) == multiset(blocks)
    && (forall b :: b in blocks ==> b.size == NODE_SIZE)
  }

  lemma AccountedSame(nodes: seq<Block>, more: seq<Block>, free: seq<Block>, blocks: seq<Block>)
    requires Accounted(nodes, free, blocks) && multiset(more) == multiset(nodes)
    ensures Accounted(more, free, blocks)
  {
  }

  lemma {:induction false} DisjointBlocksOnce(blocks: seq<Block>, b: Block)
    requires forall i, j :: 0 <= i < j < |blocks| ==> Disjoint(blocks[i], blocks[j])
    requires b.size > 0
    ensures multiset(blocks)[b] <= 1
  {
    if blocks != [] {
      var front, last := blocks[..|blocks|-1], blocks[|blocks|-1];
      assert blocks == front + [last];
      DisjointBlocksOnce(front, b);
      forall i | 0 <= i < |front| ensures front[i] == b ==> b != last {
        assert Disjoint(blocks[i], blocks[|blocks|-1]);
      }
    }
  }

  lemma Twice<T>(s: seq<T>, i: nat, j: nat)
    requires i < j < |s| && s[i] == s[j]
    ensures multiset(s)[s[i]] >= 2
  {
    assert s == s[..i] + [s[i]] + s[i+1..j] + [s[j]] + s[j+1..];
  }

  /** Removing, or replacing, the element after a prefix. */
  lemma AfterPrefix<T>(r: seq<T>, kept: seq<T>, z: T, rest: seq<T>, w: T)
    requires r == kept + ([z] + rest)
    ensures r[..|kept|] + r[|kept|+1..] == kept + rest
    ensures r[|kept| := w] == (kept + [w]) + rest
  {
  }

  /** No record is in the active list twice, or both active and free; live records never overlap in memory. */
  lemma NodesApart(st: State, active: seq<Active>, free: seq<Block>, blocks: seq<Block>)
    requires Holds(st, blocks) && Accounted(Nodes(active), free, blocks)
    ensures forall i, j :: 0 <= i < j < |active| ==> active[i].node != active[j].node
    ensures forall i :: 0 <= i < |active| ==> active[i].node !in free
    ensures |active| + |free| == |blocks|
  {
    var ns := Nodes(active);
    forall i | 0 <= i < |active|
      ensures multiset(ns)[ns[i]] == 1 && multiset(free)[ns[i]] == 0
    {
      assert ns[i] in multiset(ns);
      assert ns[i] in multiset(blocks);
      DisjointBlocksOnce(blocks, ns[i]);
    }
    forall i, j | 0 <= i < j < |active| ensures active[i].node != active[j].node {
      if ns[i] == ns[j] { Twice(ns, i, j); }
    }
    assert |multiset(ns)| + |multiset(free)| == |multiset(blocks)|;
  }

  lemma KeptFreedNone(y: real, free: seq<Block>)
    ensures Kept([], y) == [] && Freed([], y, free) == free
  {
  }

  lemma KeptFreedPush(front: seq<Active>, a: Active, y: real, free: seq<Block>)
    ensures Kept(front + [a], y) == Kept(front, y) + if a.ey <= y then [] else [Advanced(a)]
    ensures Freed(front + [a], y, free) == (if a.ey <= y then [a.node] else []) + Freed(front, y, free)
  {
    assert (front + [a])[..|front|] == front;
  }

  /** One step of the removal loop, over the edge after those already seen. */
  lemma ExpireStep(active: seq<Active>, done: seq<Active>, tail: seq<Active>, r: seq<Active>, y: real, free: seq<Block>)
    requires tail != [] && active == done + tail && r == Kept(done, y) + tail
    ensures var z, step, seen := tail[0], |Kept(done, y)|, done + [tail[0]];
            && step < |r| && r[step] == z && active == seen + tail[1..]
            && Freed(seen, y, free) == (if z.ey <= y then [z.node] else []) + Freed(done, y, free)
            && (z.ey <= y ==> |Kept(seen, y)| == step && r[..step] + r[step+1..] == Kept(seen, y) + tail[1..])
            && (!(z.ey <= y) ==> |Kept(seen, y)| == step + 1 && r[step := Advanced(z)] == Kept(seen, y) + tail[1..])
  {
    hide Kept, Freed, Advanced;
    var z, rest := tail[0], tail[1..];
    assert tail == [z] + rest;
    KeptFreedPush(done, z, y, free);
    AfterPrefix(r, Kept(done, y), z, rest, Advanced(z));
    AfterPrefix(active, done, z, rest, z);
  }

  lemma {:induction false} FreedNodes(s: seq<Active>, y: real, free: seq<Block>)
    ensures multiset(Nodes(Kept(s, y))) + multiset(Freed(s, y, free)) == multiset(Nodes(s)) + multiset(free)
  {
    if s == [] {
      assert Kept(s, y) == [];
    } else {
      var front, a := s[..|s|-1], s[|s|-1];
      FreedNodes(front, y, free);
      assert s == front + [a];
      KeptFreedPush(front, a, y, free);
      hide Nodes, Kept, Freed;
      NodesPush(front, a);
      NodesPush(Kept(front, y), Advanced(a));
      var kept, freed := Kept(front, y), Freed(front, y, free);
      Shift(multiset(Nodes(kept)), multiset(freed), multiset(Nodes(front)), multiset(free), a.node);
      if a.ey <= y {
        assert Kept(s, y) == kept && Freed(s, y, free) == [a.node] + freed;
      } else {
        assert Kept(s, y) == kept + [Advanced(a)] && Freed(s, y, free) == freed;
      }
    }
  }

  lemma Shift(a: multiset<Block>, b: multiset<Block>, c: multiset<Block>, d: multiset<Block>, x: Block)
    requires a + b == c + d
    ensures (a + multiset{x}) + b == (c + multiset{x}) + d
    ensures a + (multiset{x} + b) == (c + multiset{x}) + d
  {
    forall y
      ensures ((a + multiset{x}) + b)[y] == ((c + multiset{x}) + d)[y]
      ensures (a + (multiset{x} + b))[y] == ((c + multiset{x}) + d)[y]
    {
      assert (a + b)[y] == (c + d)[y];
    }
  }

  lemma NodesPush(s: seq<Active>, a: Active)
    ensures Nodes(s + [a]) == Nodes(s) + [a.node]
  {
  }

  // ----- Between the phases of a sub-scanline -----

  /** Edges before the cursor have started by sub-scanline k; the others start on it or later. */
  ghost predicate Ready(edges: seq<Edge>, cursor: nat, k: nat) {
    && cursor <= |edges|
    && (forall j :: 0 <= j < cursor ==> edges[j].y0 <= Scan(k))
    && (forall j :: cursor <= j < |edges| ==> FirstScan(edges[j].y0) >= k)
  }

  /** What one sub-scanline hands to the next. */
  ghost predicate Handed(active: seq<Active>, edges: seq<Edge>, cursor: nat, k: nat) {
    if k == 0 then active == [] && cursor == 0
    else Exact(multiset(active), edges, cursor, k - 1) && CursorAt(edges, cursor, k - 1)
  }

  lemma HandedFirst(edges: seq<Edge>)
    ensures Ready(edges, 0, 0) && Exact(multiset(Kept([], Scan(0))), edges, 0, 0)
  {
    hide Matches, HasSrc;
    assert multiset(Kept([], Scan(0))) == multiset{};
  }

  lemma HandedReady(active: seq<Active>, edges: seq<Edge>, cursor: nat, k: nat)
    requires AllWellFormed(edges) && Handed(active, edges, cursor, k)
    ensures Ready(edges, cursor, k) && Exact(multiset(Kept(active, Scan(k))), edges, cursor, k)
  {
    hide FirstScan, Exact, Kept;
    if k == 0 {
      HandedFirst(edges);
    } else {
      KeptExact(active, edges, cursor, k - 1);
      forall j | cursor <= j < |edges| ensures FirstScan(edges[j].y0) >= k {
        FirstScanIsFirst(edges[j].y0, k - 1);
      }
    }
  }

  lemma ReadyDone(edges: seq<Edge>, cursor: nat, k: nat)
    requires SortedY(edges) && Ready(edges, cursor, k)
    requires cursor < |edges| ==> edges[cursor].y0 > Scan(k)
    ensures CursorAt(edges, cursor, k)
  {
  }

  // ----- Rows -----

  /** The row of coverage bytes after n of a row's sub-scanlines. */
  ghost predicate RowHolds(scanline: seq<Byte>, width: nat, trace: seq<seq<Active>>, rule: FillRule, k0: nat, n: nat, xmin: int, xmax: int)
    requires width <= |scanline| && k0 + n <= |trace|
  {
    forall p :: 0 <= p < width ==>
      scanline[p] == RowTotal(trace, rule, k0, n, p, WEIGHT) && ((p < xmin || xmax < p) ==> scanline[p] == 0)
  }

  lemma {:induction false} PixelBounds(spans: seq<Span>, xmin: int, xmax: int)
    ensures MinPixel(spans, xmin) <= xmin && xmax <= MaxPixel(spans, xmax)
  {
    if spans != [] { PixelBounds(spans[..|spans|-1], xmin, xmax); }
  }

  /** Filling one more sub-scanline keeps the row's meaning; five times the weight still fits a byte. */
  lemma RowFilled(now: seq<Byte>, was: seq<Byte>, width: nat, trace: seq<seq<Active>>, active: seq<Active>, rule: FillRule,
                  k0: nat, n: nat, xmin: int, xmax: int)
    requires width <= |was| && k0 + n == |trace| && n < SUBSAMPLES
    requires RowHolds(was, width, trace, rule, k0, n, xmin, xmax)
    requires Drawn(now, was, width, SpansOf(rule, active), WEIGHT)
    requires SortedX(active) && forall k :: 0 <= k < |trace| ==> SortedX(trace[k])
    ensures RowHolds(now, width, trace + [active], rule, k0, n + 1, MinPixel(SpansOf(rule, active), xmin), MaxPixel(SpansOf(rule, active), xmax))
  {
    hide CoverSum, SortedX, RowTotal, MinPixel, MaxPixel, SpansOf;
    assert |now| == |was|;
    hide Drawn;
    forall p | 0 <= p < width
      ensures now[p] == RowTotal(trace + [active], rule, k0, n + 1, p, WEIGHT)
      ensures (p < MinPixel(SpansOf(rule, active), xmin) || MaxPixel(SpansOf(rule, active), xmax) < p) ==> now[p] == 0
    {
      DrawnAt(now, was, width, SpansOf(rule, active), p);
      PixelFilled(now[p], was[p], trace, active, rule, k0, n, p, xmin, xmax);
    }
  }

  lemma DrawnAt(now: seq<Byte>, was: seq<Byte>, width: nat, spans: seq<Span>, p: nat)
    requires Drawn(now, was, width, spans, WEIGHT) && p < width
    ensures now[p] == (was[p] + CoverSum(p, spans, WEIGHT)) % 256
  {
    hide CoverSum;
  }

  lemma PixelFilled(now: Byte, was: Byte, trace: seq<seq<Active>>, active: seq<Active>, rule: FillRule, k0: nat, n: nat, p: nat, xmin: int, xmax: int)
    requires k0 + n == |trace| && n < SUBSAMPLES && was == RowTotal(trace, rule, k0, n, p, WEIGHT)
    requires (p < xmin || xmax < p) ==> was == 0
    requires now == (was + CoverSum(p, SpansOf(rule, active), WEIGHT)) % 256
    requires SortedX(active) && forall k :: 0 <= k < |trace| ==> SortedX(trace[k])
    ensures now == RowTotal(trace + [active], rule, k0, n + 1, p, WEIGHT)
    ensures (p < MinPixel(SpansOf(rule, active), xmin) || MaxPixel(SpansOf(rule, active), xmax) < p) ==> now == 0
  {
    hide CoverSum, SortedX, MinPixel, MaxPixel, SpansOf;
    var spans, more := SpansOf(rule, active), trace + [active];
    PixelBounds(spans, xmin, xmax);
    RowTotalPrefix(trace, more, rule, k0, n, p, WEIGHT);
    RowTotalBound(more, rule, k0, n + 1, p, WEIGHT);
    if p < MinPixel(spans, xmin) || MaxPixel(spans, xmax) < p {
      NothingOutside(spans, xmin, xmax, p, WEIGHT);
    }
  }

  /** Start of pixel row y. */
  function RowBase(y: nat, stride: nat): nat { y * stride }

  lemma RowStart(y: nat, stride: nat)
    ensures RowBase(y, stride) == y * stride
  {
  }

  lemma RowsApart(y: nat, z: nat, stride: nat)
    requires y < z
    ensures RowBase(y, stride) + stride <= RowBase(z, stride)
  {
    RowBaseSteps(y + 1, z - (y + 1), stride);
    assert (y + 1) * stride == y * stride + stride;
  }

  lemma {:induction false} RowBaseSteps(y: nat, n: nat, stride: nat)
    ensures RowBase(y, stride) <= RowBase(y + n, stride)
  {
    if n > 0 {
      RowBaseSteps(y, n - 1, stride);
      assert (y + n) * stride == (y + (n - 1)) * stride + stride;
    }
  }

  /** Every pixel of a row is premultiplied. */
  ghost predicate RowOk(bm: seq<Byte>, base: nat, width: nat) {
    base + 4 * width <= |bm| && forall p :: 0 <= p < width ==> Premultiplied(PixelAt(bm, base + 4 * p))
  }

  /** The paint of one row, laid over it with the coverage of its five sub-scanlines. */
  ghost predicate RowPainted(now: seq<Byte>, was: seq<Byte>, base: nat, width: nat, trace: seq<seq<Active>>, rule: FillRule, y: nat, colors: seq<Pixel>)
    requires RowOk(was, base, width) && |now| == |was| && SUBSAMPLES * y + SUBSAMPLES <= |trace| && width <= |colors|
  {
    forall p :: 0 <= p < width ==>
      var cover := RowTotal(trace, rule, SUBSAMPLES * y, SUBSAMPLES, p, WEIGHT);
      cover <= 255 && PixelAt(now, base + 4 * p) == BlendPixel(PixelAt(was, base + 4 * p), cover, colors[p])
  }

  /** Byte q belongs to none of the first n rows of pixels. */
  ghost predicate OutsideRows(q: nat, n: nat, stride: nat, width: nat) {
    forall y :: 0 <= y < n ==> !(RowBase(y, stride) <= q < RowBase(y, stride) + 4 * width)
  }

  lemma NothingDrawn(was: seq<Byte>, width: nat, rule: FillRule)
    requires width <= |was|
    ensures Drawn(was, was, width, SpansOf(rule, []), WEIGHT)
    ensures forall x: int :: MinPixel(SpansOf(rule, []), x) == x && MaxPixel(SpansOf(rule, []), x) == x
  {
  }

  lemma NothingSwept(edges: seq<Edge>)
    ensures Swept([], edges) && Accounted(Nodes([]), [], [])
  {
    assert Nodes([]) == [];
  }

  /** A row the sweep has not come to is as it was. */
  lemma RowUntouched(now: seq<Byte>, was: seq<Byte>, y: nat, stride: nat, width: nat, length: nat)
    requires |now| == |was| == length && 4 * width <= stride && RowOk(was, RowBase(y, stride), width)
    requires forall q :: 0 <= q < length && OutsideRows(q, y, stride, width) ==> now[q] == was[q]
    ensures RowOk(now, RowBase(y, stride), width)
    ensures forall p :: 0 <= p < width ==> PixelAt(now, RowBase(y, stride) + 4 * p) == PixelAt(was, RowBase(y, stride) + 4 * p)
  {
    hide RowBase, Premultiplied;
    forall q | RowBase(y, stride) <= q < RowBase(y, stride) + 4 * width ensures now[q] == was[q] {
      assert OutsideRows(q, y, stride, width) by {
        forall z | 0 <= z < y ensures !(RowBase(z, stride) <= q < RowBase(z, stride) + 4 * width) {
          RowsApart(z, y, stride);
        }
      }
    }
  }

  /** Painting row y leaves the rows above it painted, and bytes outside the rows alone. */
  lemma RowsKept(now: seq<Byte>, before: seq<Byte>, was: seq<Byte>, y: nat, stride: nat, width: nat,
                 earlier: seq<seq<Active>>, trace: seq<seq<Active>>, rule: FillRule, paint: nat -> seq<Pixel>)
    requires |now| == |before| == |was| && 4 * width <= stride
    requires |earlier| == SUBSAMPLES * y && earlier <= trace && |trace| == SUBSAMPLES * y + SUBSAMPLES
    requires forall z :: 0 <= z <= y ==> RowOk(was, RowBase(z, stride), width) && |paint(z)| == width
    requires RowOk(before, RowBase(y, stride), width)
    requires forall p :: 0 <= p < width ==> PixelAt(before, RowBase(y, stride) + 4 * p) == PixelAt(was, RowBase(y, stride) + 4 * p)
    requires forall z :: 0 <= z < y ==> RowPainted(before, was, RowBase(z, stride), width, earlier, rule, z, paint(z))
    requires forall q :: 0 <= q < |was| && OutsideRows(q, y, stride, width) ==> before[q] == was[q]
    requires RowPainted(now, before, RowBase(y, stride), width, trace, rule, y, paint(y))
    requires forall q :: 0 <= q < |was| && !(RowBase(y, stride) <= q < RowBase(y, stride) + 4 * width) ==> now[q] == before[q]
    ensures forall z :: 0 <= z <= y ==> RowPainted(now, was, RowBase(z, stride), width, trace, rule, z, paint(z))
    ensures forall q :: 0 <= q < |was| && OutsideRows(q, y + 1, stride, width) ==> now[q] == was[q]
  {
    hide RowBase, Premultiplied, BlendPixel, RowTotal;
    forall z | 0 <= z <= y ensures RowPainted(now, was, RowBase(z, stride), width, trace, rule, z, paint(z)) {
      if z < y {
        RowsApart(z, y, stride);
        assert RowPainted(before, was, RowBase(z, stride), width, earlier, rule, z, paint(z));
        forall p | 0 <= p < width
          ensures PixelAt(now, RowBase(z, stride) + 4 * p) == PixelAt(before, RowBase(z, stride) + 4 * p)
          ensures RowTotal(trace, rule, SUBSAMPLES * z, SUBSAMPLES, p, WEIGHT) == RowTotal(earlier, rule, SUBSAMPLES * z, SUBSAMPLES, p, WEIGHT)
        {
          RowTotalPrefix(earlier, trace, rule, SUBSAMPLES * z, SUBSAMPLES, p, WEIGHT);
        }
      }
    }
    forall q | 0 <= q < |was| && OutsideRows(q, y + 1, stride, width) ensures now[q] == was[q] {
      assert OutsideRows(q, y, stride, width);
    }
  }

  class Rasterizer {
    var edges: seq<Edge>
    var freelist: seq<Block>
    const pool: Pool
    const scanline: array<Byte>
    const bitmap: array<Byte>
    const width: nat
    const height: nat
    const stride: nat

    constructor (sorted: seq<Edge>, bitmap: array<Byte>, width: nat, height: nat, stride: nat)
      requires 4 * width <= stride && RowBase(height, stride) <= bitmap.Length
      ensures edges == sorted && freelist == [] && fresh(pool) && pool.Ok() && pool.blocks == []
      ensures this.bitmap == bitmap && this.width == width && this.height == height && this.stride == stride
      ensures fresh(scanline) && Layout()
    {
      edges, freelist := sorted, [];
      this.bitmap, this.width, this.height, this.stride := bitmap, width, height, stride;
      pool := new Pool();
      scanline := new Byte[width](_ => 0);
    }

    ghost predicate Layout() {
      width <= scanline.Length && scanline != bitmap && 4 * width <= stride && RowBase(height, stride) <= bitmap.Length
    }

    /** Removes the edges that end by y, freeing their nodes, and advances the others. */
    method RemoveExpired(active: seq<Active>, y: real) returns (r: seq<Active>)
      modifies this`freelist
      ensures r == Kept(active, y) && freelist == Freed(active, y, old(freelist))
    {
      hide Kept, Freed, Advanced;
      r := active;
      var step := 0;
      ghost var done, tail: seq<Active> := [], active;
      ghost var free := freelist;
      KeptFreedNone(y, free);
      assert active == [] + active;
      while step < |r|
        invariant active == done + tail
        invariant step == |Kept(done, y)| && r == Kept(done, y) + tail
        invariant freelist == Freed(done, y, free)
        decreases |tail|
      {
        ExpireStep(active, done, tail, r, y, free);
        var z := r[step];
        if z.ey <= y {
          r := r[..step] + r[step+1..];
          freelist := [z.node] + freelist;
        } else {
          r := r[step := Advanced(z)];
          step := step + 1;
        }
        done, tail := done + [tail[0]], tail[1..];
      }
      assert done == active;
    }

    /** A node from the freelist, or a new one from the pool. */
    method TakeNode(ghost nodes: seq<Block>) returns (node: Block)
      requires pool.Ok() && Accounted(nodes, freelist, pool.blocks)
      modifies this`freelist, pool
      ensures pool.Ok() && Accounted(nodes + [node], freelist, pool.blocks)
      ensures old(freelist) != [] ==> pool.blocks == old(pool.blocks)
    {
      if freelist != [] {
        node := freelist[0];
        assert freelist == [node] + freelist[1..];
        freelist := freelist[1..];
      } else {
        var ok;
        ok, node := pool.Alloc(NODE_SIZE);
      }
    }

    /** The active edge for edge j, entered at sub-scanline k. */
    method AddActive(j: nat, k: nat, ghost nodes: seq<Block>) returns (z: Active)
      requires j < |edges| && edges[j].y0 < edges[j].y1
      requires pool.Ok() && Accounted(nodes, freelist, pool.blocks)
      modifies this`freelist, pool
      ensures z == Entered(edges[j], j, k, z.node)
      ensures pool.Ok() && Accounted(nodes + [z.node], freelist, pool.blocks)
      ensures old(freelist) != [] ==> pool.blocks == old(pool.blocks)
    {
      hide Accounted, Slope, StepOf, EntryOf;
      var node := TakeNode(nodes);
      var e := edges[j];
      var dxdy := Slope(e);
      z := Active(node, j, EntryOf(e.x0, e.y0, dxdy, k), StepOf(dxdy), e.y1, e.dir);
    }

    /** Enters the edge at the cursor, unless it also ends by this sub-scanline. */
    method Enter(active: seq<Active>, c: nat, k: nat) returns (r: seq<Active>)
      requires AllWellFormed(edges) && SortedX(active) && c < |edges|
      requires Exact(multiset(active), edges, c, k) && edges[c].y0 <= Scan(k) && FirstScan(edges[c].y0) >= k
      requires pool.Ok() && Accounted(Nodes(active), freelist, pool.blocks)
      modifies this`freelist, pool
      ensures SortedX(r) && Exact(multiset(r), edges, c + 1, k)
      ensures pool.Ok() && Accounted(Nodes(r), freelist, pool.blocks)
    {
      hide Exact, Entered, SortedX, Accounted, Nodes, FirstScan;
      if edges[c].y1 > Scan(k) {
        var z := AddActive(c, k, Nodes(active));
        FirstScanIsFirst(edges[c].y0, k);
        EnteredExact(multiset(active), edges, c, k, z.node);
        r := Insert(active, z);
        AccountedSame(Nodes(active) + [z.node], Nodes(r), freelist, pool.blocks);
      } else {
        SkippedExact(multiset(active), edges, c, k);
        r := active;
      }
    }

    /** Enters the edges that start by sub-scanline k, leaving out those that also end by it. */
    method InsertStarting(active: seq<Active>, cursor: nat, k: nat) returns (r: seq<Active>, c: nat)
      requires AllWellFormed(edges) && SortedY(edges) && SortedX(active)
      requires Exact(multiset(active), edges, cursor, k) && Ready(edges, cursor, k)
      requires pool.Ok() && Accounted(Nodes(active), freelist, pool.blocks)
      modifies this`freelist, pool
      ensures SortedX(r) && Exact(multiset(r), edges, c, k) && CursorAt(edges, c, k)
      ensures pool.Ok() && Accounted(Nodes(r), freelist, pool.blocks)
    {
      hide Exact, SortedX, Accounted, Nodes, FirstScan;
      r, c := active, cursor;
      while c < |edges| && edges[c].y0 <= Scan(k)
        invariant SortedX(r) && Exact(multiset(r), edges, c, k) && Ready(edges, c, k)
        invariant pool.Ok() && Accounted(Nodes(r), freelist, pool.blocks)
      {
        r := Enter(r, c, k);
        c := c + 1;
      }
      ReadyDone(edges, c, k);
    }

    /** One sub-scanline: remove and advance, re-sort, insert. */
    method Step(active: seq<Active>, cursor: nat, k: nat) returns (r: seq<Active>, c: nat)
      requires AllWellFormed(edges) && SortedY(edges) && Handed(active, edges, cursor, k)
      requires pool.Ok() && Accounted(Nodes(active), freelist, pool.blocks)
      modifies this`freelist, pool
      ensures SweepInv(r, edges, k) && Handed(r, edges, c, k + 1)
      ensures pool.Ok() && Accounted(Nodes(r), freelist, pool.blocks)
    {
      hide Exact, Kept, Freed, CursorAt, Ready, SortedX, Nodes;
      HandedReady(active, edges, cursor, k);
      FreedNodes(active, Scan(k), freelist);
      r := RemoveExpired(active, Scan(k));
      r := Resort(r);
      r, c := InsertStarting(r, cursor, k);
      ExactAll(multiset(r), edges, c, k);
    }

    /** The five sub-scanlines of row y: the coverage row and the range of columns reached. */
    method CoverRow(y: nat, active: seq<Active>, cursor: nat, rule: FillRule, ghost trace: seq<seq<Active>>)
      returns (r: seq<Active>, c: nat, xmin: int, xmax: int, ghost trace': seq<seq<Active>>)
      requires Layout() && AllWellFormed(edges) && SortedY(edges)
      requires |trace| == SUBSAMPLES * y && Swept(trace, edges)
      requires Handed(active, edges, cursor, SUBSAMPLES * y)
      requires pool.Ok() && Accounted(Nodes(active), freelist, pool.blocks)
      modifies this`freelist, pool, scanline
      ensures trace <= trace' && |trace'| == SUBSAMPLES * y + SUBSAMPLES && Swept(trace', edges)
      ensures Handed(r, edges, c, SUBSAMPLES * y + SUBSAMPLES)
      ensures pool.Ok() && Accounted(Nodes(r), freelist, pool.blocks)
      ensures RowHolds(scanline[..], width, trace', rule, SUBSAMPLES * y, SUBSAMPLES, xmin, xmax)
    {
      hide Exact, CursorAt, SortedX, Nodes, Accounted, Handed, WellFormed, SortedY, AllWellFormed, CoverSum;
      r, c, trace' := active, cursor, trace;
      forall p | 0 <= p < width {
        scanline[p] := 0;
      }
      xmin, xmax := width, 0;
      var s := 0;
      while s < SUBSAMPLES
        invariant 0 <= s <= SUBSAMPLES
        invariant trace <= trace' && |trace'| == SUBSAMPLES * y + s && Swept(trace', edges)
        invariant Handed(r, edges, c, SUBSAMPLES * y + s)
        invariant pool.Ok() && Accounted(Nodes(r), freelist, pool.blocks)
        invariant RowHolds(scanline[..], width, trace', rule, SUBSAMPLES * y, s, xmin, xmax)
      {
        hide RowHolds;
        r, c := Step(r, c, SUBSAMPLES * y + s);
        ghost var was, oldMin, oldMax := scanline[..], xmin, xmax;
        if r != [] {
          xmin, xmax := FillActiveEdges(scanline, width, r, WEIGHT, xmin, xmax, rule);
        } else {
          NothingDrawn(was, width, rule);
        }
        RowFilled(scanline[..], was, width, trace', r, rule, SUBSAMPLES * y, s, oldMin, oldMax);
        trace' := trace' + [r];
        s := s + 1;
      }
    }

    /** Blits the covered columns of row y; the whole row is then painted. */
    method BlitRow(y: nat, xmin0: int, xmax0: int, rule: FillRule, colors: seq<Pixel>, ghost trace: seq<seq<Active>>)
      requires Layout() && y < height && |colors| == width
      requires SUBSAMPLES * y + SUBSAMPLES <= |trace|
      requires RowHolds(scanline[..], width, trace, rule, SUBSAMPLES * y, SUBSAMPLES, xmin0, xmax0)
      requires RowOk(bitmap[..], RowBase(y, stride), width)
      modifies bitmap
      ensures RowPainted(bitmap[..], old(bitmap[..]), RowBase(y, stride), width, trace, rule, y, colors)
      ensures forall q :: 0 <= q < bitmap.Length && !(RowBase(y, stride) <= q < RowBase(y, stride) + 4 * width) ==> bitmap[q] == old(bitmap[q])
    {
      hide BlendPixel, Premultiplied, RowTotal, RowBase;
      var base := y * stride;
      RowStart(y, stride);
      var xmin, xmax := xmin0, xmax0;
      ghost var was := bitmap[..];
      if xmin < 0 { xmin := 0; }
      if xmax > width - 1 { xmax := width - 1; }
      if xmin <= xmax {
        ScanlineSolid(bitmap, base, xmax - xmin + 1, scanline, xmin, colors);
        BlendedWholeRow(bitmap[..], was, base, xmin, xmax + 1, width, scanline[..], colors);
      } else {
        BlendedWholeRow(bitmap[..], was, base, 0, 0, width, scanline[..], colors);
      }
    }

    /**
     * Sweeps all rows. The trace holds the active list of every sub-scanline, and every pixel of the image
     * ends as its old value blended with the paint under the coverage the trace gives it.
     */
    method RasterizeSortedEdges(rule: FillRule, paint: nat -> seq<Pixel>) returns (ghost trace: seq<seq<Active>>)
      requires Layout() && AllWellFormed(edges) && SortedY(edges)
      requires pool.Ok() && pool.blocks == [] && freelist == []
      requires forall y :: 0 <= y < height ==> RowOk(bitmap[..], RowBase(y, stride), width) && |paint(y)| == width
      modifies this`freelist, pool, scanline, bitmap
      ensures pool.Ok() && |trace| == SUBSAMPLES * height && Swept(trace, edges)
      ensures forall y :: 0 <= y < height ==>
                RowPainted(bitmap[..], old(bitmap[..]), RowBase(y, stride), width, trace, rule, y, paint(y))
      ensures forall q :: 0 <= q < bitmap.Length && OutsideRows(q, height, stride, width) ==> bitmap[q] == old(bitmap[q])
    {
      hide Exact, SortedX, Nodes, Accounted, WellFormed, SortedY, AllWellFormed, RowPainted, RowOk, RowHolds, Swept, RowBase;
      var active: seq<Active>, e := [], 0;
      trace := [];
      ghost var was := bitmap[..];
      NothingSwept(edges);
      var y := 0;
      while y < height
        invariant 0 <= y <= height
        invariant |trace| == SUBSAMPLES * y && Swept(trace, edges)
        invariant Handed(active, edges, e, SUBSAMPLES * y)
        invariant pool.Ok() && Accounted(Nodes(active), freelist, pool.blocks)
        invariant forall z :: 0 <= z < y ==> RowPainted(bitmap[..], was, RowBase(z, stride), width, trace, rule, z, paint(z))
        invariant forall q :: 0 <= q < bitmap.Length && OutsideRows(q, y, stride, width) ==> bitmap[q] == was[q]
      {
        hide Handed, OutsideRows;
        var xmin, xmax;
        ghost var before, earlier := bitmap[..], trace;
        active, e, xmin, xmax, trace := CoverRow(y, active, e, rule, trace);
        RowUntouched(before, was, y, stride, width, bitmap.Length);
        BlitRow(y, xmin, xmax, rule, paint(y), trace);
        RowsKept(bitmap[..], before, was, y, stride, width, earlier, trace, rule, paint);
        y := y + 1;
      }
    }
  }
}
