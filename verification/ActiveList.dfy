/** The x-sorted list of active edges that the scanline sweep keeps, and what its phases preserve. */
module ActiveList {
  import opened Winding
  import opened PagePool

  /** An active edge: the pool block it occupies, the index of its edge (model only), and the source's fields. */
  datatype Active = Active(node: Block, src: nat, x: int, dx: int, ey: real, dir: int)

  const FIX := 1024

  /** Centre of sub-scanline k. */
  function Scan(k: nat): real { k as real + 0.5 }

  /** C's roundf: half away from zero. */
  function Round(r: real): int {
    if r >= 0.0 then (r + 0.5).Floor else -((-r + 0.5).Floor)
  }

  /** The nearest integer, halves away from zero. */
  lemma RoundIs(r: real)
    ensures Round(-r) == -Round(r)
    ensures r >= 0.0 ==> Round(r) as real - 0.5 <= r < Round(r) as real + 0.5
  {
  }

  /** The first sub-scanline whose centre is not above y0. */
  function FirstScan(y0: real): nat
  {
    if y0 <= 0.5 then 0 else -((0.5 - y0).Floor)
  }

  lemma FirstScanIsFirst(y0: real, k: nat)
    ensures y0 <= Scan(k) <==> FirstScan(y0) <= k
  {
  }

  function Slope(e: Edge): real
    requires e.y0 < e.y1
  {
    (e.x1 - e.x0) / (e.y1 - e.y0)
  }

  /** Step of x per sub-scanline for a slope, in 22.10 fixed point. */
  function StepOf(dxdy: real): int {
    if dxdy < 0.0 then -Round(FIX as real * -dxdy) else Round(FIX as real * dxdy)
  }

  /** Where the line through (x0, y0) is at height y. */
  function LineAt(x0: real, y0: real, dxdy: real, y: real): real { x0 + dxdy * (y - y0) }

  /** Fixed-point x of an edge through (x0, y0) entered at sub-scanline k. */
  function EntryOf(x0: real, y0: real, dxdy: real, k: nat): int {
    Round(FIX as real * LineAt(x0, y0, dxdy, Scan(k)))
  }

  function StepX(e: Edge): int
    requires e.y0 < e.y1
  {
    StepOf(Slope(e))
  }

  function EntryX(e: Edge, k: nat): int
    requires e.y0 < e.y1
  {
    EntryOf(e.x0, e.y0, Slope(e), k)
  }

  /** Closed form of an edge's x on sub-scanline k: entered on its first scanline, then stepped. */
  function XAt(e: Edge, k: nat): int
    requires e.y0 < e.y1
  {
    EntryX(e, FirstScan(e.y0)) + StepX(e) * (k - FirstScan(e.y0))
  }

  lemma XAtStep(e: Edge, k: nat)
    requires e.y0 < e.y1
    ensures XAt(e, k + 1) == XAt(e, k) + StepX(e)
    ensures XAt(e, FirstScan(e.y0)) == EntryX(e, FirstScan(e.y0))
  {
    hide StepX, EntryX, FirstScan;
    var s, d := StepX(e), k - FirstScan(e.y0);
    assert s * (d + 1) == s * d + s;
  }

  // ----- Exactness: the active edges are the crossing edges -----

  ghost predicate Matches(a: Active, edges: seq<Edge>, k: nat) {
    && a.src < |edges|
    && var e := edges[a.src];
       && WellFormed(e) && Crosses(e, Scan(k))
       && a.x == XAt(e, k) && a.dx == StepX(e) && a.ey == e.y1 && a.dir == e.dir
  }

  ghost predicate HasSrc(m: multiset<Active>, j: nat) {
    exists a :: a in m && a.src == j
  }

  ghost predicate Each(m: multiset<Active>, edges: seq<Edge>, cursor: nat, k: nat) {
    forall a :: a in m ==> m[a] == 1 && a.src < cursor && Matches(a, edges, k)
  }

  ghost predicate Unique(m: multiset<Active>) {
    forall a, b :: a in m && b in m && a.src == b.src ==> a == b
  }

  ghost predicate Covers(m: multiset<Active>, edges: seq<Edge>, cursor: nat, k: nat)
    requires cursor <= |edges|
  {
    forall j: nat :: j < cursor && Crosses(edges[j], Scan(k)) ==> HasSrc(m, j)
  }

  /** m holds exactly one active edge for each of the first cursor edges that cross sub-scanline k, at its x there. */
  ghost predicate Exact(m: multiset<Active>, edges: seq<Edge>, cursor: nat, k: nat) {
    cursor <= |edges| && Each(m, edges, cursor, k) && Unique(m) && Covers(m, edges, cursor, k)
  }

  predicate SortedX(s: seq<Active>) {
    forall i, j :: 0 <= i < j < |s| ==> s[i].x <= s[j].x
  }

  predicate SortedY(es: seq<Edge>) {
    forall i, j :: 0 <= i < j < |es| ==> es[i].y0 <= es[j].y0
  }

  predicate AllWellFormed(es: seq<Edge>) {
    forall i :: 0 <= i < |es| ==> WellFormed(es[i])
  }

  /** The first cursor edges, and no others, start at or above sub-scanline k. */
  ghost predicate CursorAt(edges: seq<Edge>, cursor: nat, k: nat) {
    && cursor <= |edges|
    && (forall j :: 0 <= j < cursor ==> edges[j].y0 <= Scan(k))
    && (forall j :: cursor <= j < |edges| ==> edges[j].y0 > Scan(k))
  }

  /** What the sweep establishes on every sub-scanline. */
  ghost predicate SweepInv(active: seq<Active>, edges: seq<Edge>, k: nat) {
    SortedX(active) && Exact(multiset(active), edges, |edges|, k)
  }

  /** Past the cursor nothing crosses, so exactness extends to all edges. */
  lemma ExactAll(m: multiset<Active>, edges: seq<Edge>, cursor: nat, k: nat)
    requires Exact(m, edges, cursor, k) && CursorAt(edges, cursor, k)
    ensures Exact(m, edges, |edges|, k)
  {
    hide XAt, StepX, WellFormed;
    forall j: nat | j < |edges| && Crosses(edges[j], Scan(k)) ensures HasSrc(m, j) {
      assert j < cursor;
    }
  }

  // ----- Remove and advance -----

  function Advanced(a: Active): Active { a.(x := a.x + a.dx) }

  /** The list after edges that end at or above y are removed and the others advance. */
  function Kept(s: seq<Active>, y: real): seq<Active> {
    if s == [] then []
    else
      var a := s[|s|-1];
      Kept(s[..|s|-1], y) + if a.ey <= y then [] else [Advanced(a)]
  }

  /** The freelist after the removed nodes are pushed onto its front, one by one. */
  function Freed(s: seq<Active>, y: real, free: seq<Block>): seq<Block> {
    if s == [] then free
    else
      var a := s[|s|-1];
      (if a.ey <= y then [a.node] else []) + Freed(s[..|s|-1], y, free)
  }

  lemma {:induction false} KeptCounts(s: seq<Active>, y: real, b: Active)
    ensures multiset(Kept(s, y))[b] == if b.ey <= y then 0 else multiset(s)[b.(x := b.x - b.dx)]
  {
    if s != [] {
      var front, a := s[..|s|-1], s[|s|-1];
      KeptCounts(front, y, b);
      assert s == front + [a];
      assert a == b.(x := b.x - b.dx) <==> Advanced(a) == b;
    }
  }

  lemma KeptMatches(s: seq<Active>, edges: seq<Edge>, cursor: nat, k: nat, b: Active)
    requires AllWellFormed(edges) && Exact(multiset(s), edges, cursor, k)
    requires b in multiset(Kept(s, Scan(k + 1)))
    ensures multiset(Kept(s, Scan(k + 1)))[b] == 1 && b.(x := b.x - b.dx) in multiset(s)
    ensures b.src < cursor && Matches(b, edges, k + 1)
  {
    hide XAt, StepX, Kept;
    KeptCounts(s, Scan(k + 1), b);
    var a := b.(x := b.x - b.dx);
    assert a in multiset(s);
    XAtStep(edges[a.src], k);
  }

  lemma KeptHasSrc(s: seq<Active>, edges: seq<Edge>, cursor: nat, k: nat, j: nat)
    requires Exact(multiset(s), edges, cursor, k) && CursorAt(edges, cursor, k)
    requires j < cursor && Crosses(edges[j], Scan(k + 1))
    ensures HasSrc(multiset(Kept(s, Scan(k + 1))), j)
  {
    hide XAt, StepX, Kept;
    assert HasSrc(multiset(s), j);
    var a :| a in multiset(s) && a.src == j;
    KeptCounts(s, Scan(k + 1), Advanced(a));
    assert Advanced(a).(x := Advanced(a).x - a.dx) == a;
    assert Advanced(a) in multiset(Kept(s, Scan(k + 1)));
  }

  lemma KeptUnique(s: seq<Active>, edges: seq<Edge>, cursor: nat, k: nat)
    requires AllWellFormed(edges) && Exact(multiset(s), edges, cursor, k)
    ensures Unique(multiset(Kept(s, Scan(k + 1))))
  {
    hide Matches, Kept, Each, Covers;
    var m' := multiset(Kept(s, Scan(k + 1)));
    forall a, b | a in m' && b in m' && a.src == b.src ensures a == b {
      KeptMatches(s, edges, cursor, k, a);
      KeptMatches(s, edges, cursor, k, b);
      assert a.(x := a.x - a.dx) == b.(x := b.x - b.dx);
    }
  }

  /** Removing and advancing carries exactness from one sub-scanline to the next. */
  lemma KeptExact(s: seq<Active>, edges: seq<Edge>, cursor: nat, k: nat)
    requires AllWellFormed(edges) && Exact(multiset(s), edges, cursor, k) && CursorAt(edges, cursor, k)
    ensures Exact(multiset(Kept(s, Scan(k + 1))), edges, cursor, k + 1)
  {
    var m' := multiset(Kept(s, Scan(k + 1)));
    assert Each(m', edges, cursor, k + 1) by {
      hide Matches, Kept;
      forall b | b in m' ensures m'[b] == 1 && b.src < cursor && Matches(b, edges, k + 1) {
        KeptMatches(s, edges, cursor, k, b);
      }
    }
    assert Unique(m') by { KeptUnique(s, edges, cursor, k); }
    assert Covers(m', edges, cursor, k + 1) by {
      hide Matches, Kept, HasSrc;
      forall j: nat | j < cursor && Crosses(edges[j], Scan(k + 1)) ensures HasSrc(m', j) {
        KeptHasSrc(s, edges, cursor, k, j);
      }
    }
  }

  // ----- Re-sort -----

  function CountGreater(s: seq<Active>, x: int): nat {
    if s == [] then 0 else CountGreater(s[..|s|-1], x) + if s[|s|-1].x > x then 1 else 0
  }

  /** Number of pairs out of order. */
  function Inversions(s: seq<Active>): nat {
    if s == [] then 0 else Inversions(s[..|s|-1]) + CountGreater(s[..|s|-1], s[|s|-1].x)
  }

  function Swapped<T>(s: seq<T>, i: nat): (r: seq<T>)
    requires i + 1 < |s|
    ensures |r| == |s| && multiset(r) == multiset(s)
  {
    s[i := s[i+1]][i + 1 := s[i]]
  }

  lemma {:induction false} CountGreaterSwapped(s: seq<Active>, i: nat, x: int)
    requires i + 1 < |s|
    ensures CountGreater(Swapped(s, i), x) == CountGreater(s, x)
  {
    var n := |s| - 1;
    if i + 1 < n {
      assert Swapped(s, i)[..n] == Swapped(s[..n], i);
      CountGreaterSwapped(s[..n], i, x);
    } else {
      var t := Swapped(s, i);
      assert t[..n][..i] == s[..n][..i];
      assert CountGreater(s[..n], x) == CountGreater(s[..n][..i], x) + if s[i].x > x then 1 else 0;
      assert CountGreater(t[..n], x) == CountGreater(t[..n][..i], x) + if t[i].x > x then 1 else 0;
    }
  }

  lemma InversionsPush(p: seq<Active>, a: Active, x: int)
    ensures Inversions(p + [a]) == Inversions(p) + CountGreater(p, a.x)
    ensures CountGreater(p + [a], x) == CountGreater(p, x) + if a.x > x then 1 else 0
  {
    assert (p + [a])[..|p|] == p;
  }

  /** Swapping two neighbours that are out of order removes exactly one inversion. */
  lemma {:induction false} InversionsSwapped(s: seq<Active>, i: nat)
    requires i + 1 < |s| && s[i].x > s[i+1].x
    ensures Inversions(Swapped(s, i)) == Inversions(s) - 1
  {
    var n := |s| - 1;
    var t := Swapped(s, i);
    if i + 1 < n {
      assert t[..n] == Swapped(s[..n], i);
      InversionsSwapped(s[..n], i);
      CountGreaterSwapped(s[..n], i, s[n].x);
    } else {
      assert s[..n] == s[..i] + [s[i]] && t[..n] == s[..i] + [s[n]];
      InversionsPush(s[..i], s[i], s[n].x);
      InversionsPush(s[..i], s[n], s[i].x);
    }
  }

  function Nodes(s: seq<Active>): (r: seq<Block>)
    ensures |r| == |s| && forall i :: 0 <= i < |s| ==> r[i] == s[i].node
  {
    seq(|s|, i requires 0 <= i < |s| => s[i].node)
  }

  lemma NodesSwapped(s: seq<Active>, i: nat)
    requires i + 1 < |s|
    ensures multiset(Nodes(Swapped(s, i))) == multiset(Nodes(s))
  {
    assert Nodes(Swapped(s, i)) == Swapped(Nodes(s), i);
  }

  lemma {:induction false} NeighboursSorted(s: seq<Active>)
    requires forall i :: 0 <= i < |s| - 1 ==> s[i].x <= s[i+1].x
    ensures SortedX(s)
  {
    if |s| > 1 {
      NeighboursSorted(s[..|s|-1]);
      forall i, j | 0 <= i < j < |s| ensures s[i].x <= s[j].x {
        if j == |s| - 1 {
          assert s[..j][i].x <= s[..j][j-1].x;
        } else {
          assert s[..|s|-1][i].x <= s[..|s|-1][j].x;
        }
      }
    }
  }

  /** One pass of neighbour swaps: the same edges, and either nothing was out of order or fewer inversions remain. */
  method SwapPass(s: seq<Active>) returns (r: seq<Active>, changed: bool)
    ensures multiset(r) == multiset(s) && multiset(Nodes(r)) == multiset(Nodes(s))
    ensures changed ==> Inversions(r) < Inversions(s)
    ensures !changed ==> r == s && SortedX(r)
  {
    r, changed := s, false;
    var step := 0;
    while step + 1 < |r|
      invariant 0 <= step && |r| == |s|
      invariant multiset(r) == multiset(s) && multiset(Nodes(r)) == multiset(Nodes(s))
      invariant changed ==> Inversions(r) < Inversions(s)
      invariant !changed ==> r == s && forall i :: 0 <= i < step && i + 1 < |r| ==> r[i].x <= r[i+1].x
    {
      hide Inversions, Nodes;
      if r[step].x > r[step+1].x {
        InversionsSwapped(r, step);
        NodesSwapped(r, step);
        r := Swapped(r, step);
        changed := true;
      }
      step := step + 1;
    }
    if !changed {
      NeighboursSorted(r);
    }
  }

  /** Re-sorting by repeated passes ends, with the same edges in order of x. */
  method Resort(s: seq<Active>) returns (r: seq<Active>)
    ensures SortedX(r) && multiset(r) == multiset(s) && multiset(Nodes(r)) == multiset(Nodes(s))
  {
    r := s;
    while true
      invariant multiset(r) == multiset(s) && multiset(Nodes(r)) == multiset(Nodes(s))
      decreases Inversions(r)
    {
      var changed;
      r, changed := SwapPass(r);
      if !changed { break; }
    }
  }

  // ----- Insert -----

  /** Insertion of a new edge keeps the order of x. */
  method Insert(active: seq<Active>, z: Active) returns (r: seq<Active>)
    requires SortedX(active)
    ensures SortedX(r) && multiset(r) == multiset(active) + multiset{z}
    ensures multiset(Nodes(r)) == multiset(Nodes(active)) + multiset{z.node}
  {
    var at := 0;
    if active == [] || z.x < active[0].x {
      r := [z] + active;
      assert r == active[..at] + [z] + active[at..];
    } else {
      var p := 0;
      while p + 1 < |active| && active[p + 1].x < z.x
        invariant 0 <= p < |active| && active[p].x <= z.x
      {
        p := p + 1;
      }
      at := p + 1;
      r := active[..at] + [z] + active[at..];
    }
    InsertedSorted(active, at, z);
    InsertedAt(active, at, z);
  }

  lemma InsertedSorted(s: seq<Active>, at: nat, z: Active)
    requires SortedX(s) && at <= |s|
    requires at > 0 ==> s[at-1].x <= z.x
    requires at < |s| ==> z.x <= s[at].x
    ensures SortedX(s[..at] + [z] + s[at..])
  {
  }

  lemma InsertedAt(s: seq<Active>, at: nat, z: Active)
    requires at <= |s|
    ensures var r := s[..at] + [z] + s[at..];
            multiset(r) == multiset(s) + multiset{z} && multiset(Nodes(r)) == multiset(Nodes(s)) + multiset{z.node}
  {
    var r := s[..at] + [z] + s[at..];
    assert s == s[..at] + s[at..];
    assert Nodes(s) == Nodes(s)[..at] + Nodes(s)[at..];
    assert Nodes(r) == Nodes(s)[..at] + [z.node] + Nodes(s)[at..];
  }

  /** The active edge made for an edge on the sub-scanline where it is entered. */
  function Entered(e: Edge, j: nat, k: nat, node: Block): Active
    requires e.y0 < e.y1
  {
    Active(node, j, EntryX(e, k), StepX(e), e.y1, e.dir)
  }

  lemma EnteredExact(m: multiset<Active>, edges: seq<Edge>, cursor: nat, k: nat, node: Block)
    requires AllWellFormed(edges) && cursor < |edges| && Exact(m, edges, cursor, k)
    requires Crosses(edges[cursor], Scan(k)) && FirstScan(edges[cursor].y0) == k
    ensures Exact(m + multiset{Entered(edges[cursor], cursor, k, node)}, edges, cursor + 1, k)
  {
    var z := Entered(edges[cursor], cursor, k, node);
    var m' := m + multiset{z};
    XAtStep(edges[cursor], k);
    hide XAt, StepX, EntryX;
    assert Matches(z, edges, k);
    hide Matches;
    forall j: nat | j < cursor + 1 && Crosses(edges[j], Scan(k)) ensures HasSrc(m', j) {
      if j == cursor {
        assert z in m' && z.src == j;
      } else {
        assert HasSrc(m, j);
        var a :| a in m && a.src == j;
        assert a in m';
      }
    }
  }

  lemma SkippedExact(m: multiset<Active>, edges: seq<Edge>, cursor: nat, k: nat)
    requires cursor < |edges| && Exact(m, edges, cursor, k) && !Crosses(edges[cursor], Scan(k))
    ensures Exact(m, edges, cursor + 1, k)
  {
    hide XAt, StepX, EntryX;
  }
}
