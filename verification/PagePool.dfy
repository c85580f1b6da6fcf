/** The rasterizer's page pool: bump allocation in a chain of fixed pages that a reset recycles. */
module PagePool {

  const PAGE_SIZE := 1024

  /** Bytes [off, off + size) of a page, pages numbered along the chain. */
  datatype Block = Block(page: nat, off: nat, size: nat)

  /** The size field of each page in chain order, and the index of curpage (-1 for null). */
  datatype State = State(sizes: seq<nat>, cur: int)

  const EMPTY := State([], -1)

  predicate Valid(st: State) {
    && -1 <= st.cur < |st.sizes|
    && (st.cur == -1 <==> st.sizes == [])
    && (forall i :: 0 <= i < |st.sizes| ==> st.sizes[i] <= PAGE_SIZE)
    && (forall i :: st.cur < i < |st.sizes| ==> st.sizes[i] == 0)
  }

  function NextPage(st: State): (r: State)
    requires Valid(st)
    ensures Valid(r) && r.cur == st.cur + 1 && r.sizes[r.cur] == 0
    ensures st.sizes <= r.sizes
  {
    if 0 <= st.cur && st.cur + 1 < |st.sizes| then State(st.sizes, st.cur + 1)
    else State(st.sizes + [0], |st.sizes|)
  }

  function Target(st: State, size: nat): (r: State)
    requires Valid(st) && size <= PAGE_SIZE
    ensures Valid(r) && 0 <= r.cur && r.sizes[r.cur] + size <= PAGE_SIZE && st.sizes <= r.sizes
  {
    if st.cur == -1 || st.sizes[st.cur] + size > PAGE_SIZE then NextPage(st) else st
  }

  function AllocBlock(st: State, size: nat): Block
    requires Valid(st) && size <= PAGE_SIZE
  {
    var t := Target(st, size);
    Block(t.cur, t.sizes[t.cur], size)
  }

  function AllocState(st: State, size: nat): (r: State)
    requires Valid(st) && size <= PAGE_SIZE
    ensures Valid(r) && |r.sizes| >= |st.sizes|
  {
    var t := Target(st, size);
    State(t.sizes[t.cur := t.sizes[t.cur] + size], t.cur)
  }

  function Reset(st: State): (r: State)
    requires Valid(st)
    ensures Valid(r)
  {
    State(seq(|st.sizes|, i => 0), if st.sizes == [] then -1 else 0)
  }

  predicate Disjoint(a: Block, b: Block) {
    a.page != b.page || a.off + a.size <= b.off || b.off + b.size <= a.off
  }

  /** The blocks given out since the last reset all lie below the fill mark of their page, apart from each other. */
  ghost predicate Holds(st: State, blocks: seq<Block>) {
    && Valid(st)
    && (forall b :: b in blocks ==> b.page <= st.cur && b.off + b.size <= st.sizes[b.page])
    && (forall i, j :: 0 <= i < j < |blocks| ==> Disjoint(blocks[i], blocks[j]))
  }

  lemma AllocHolds(st: State, blocks: seq<Block>, size: nat)
    requires Holds(st, blocks) && size <= PAGE_SIZE
    ensures Holds(AllocState(st, size), blocks + [AllocBlock(st, size)])
    ensures forall b :: b in blocks ==> Disjoint(b, AllocBlock(st, size))
  {
    var r := AllocState(st, size);
    var b := AllocBlock(st, size);
    forall c | c in blocks
      ensures c.page <= r.cur && c.off + c.size <= r.sizes[c.page] && Disjoint(c, b)
    {
    }
  }

  predicate Fit(reqs: seq<nat>) {
    forall i :: 0 <= i < |reqs| ==> reqs[i] <= PAGE_SIZE
  }

  /** A run of requests from a state: the blocks in order and the final state. */
  ghost function RunBlocks(st: State, reqs: seq<nat>): seq<Block>
    requires Valid(st) && Fit(reqs)
    decreases |reqs|
  {
    if reqs == [] then [] else [AllocBlock(st, reqs[0])] + RunBlocks(AllocState(st, reqs[0]), reqs[1..])
  }

  ghost function RunState(st: State, reqs: seq<nat>): (r: State)
    requires Valid(st) && Fit(reqs)
    ensures Valid(r)
    decreases |reqs|
  {
    if reqs == [] then st else RunState(AllocState(st, reqs[0]), reqs[1..])
  }

  /** A run of requests from any state keeps all blocks apart and in their pages. */
  lemma {:induction false} RunHolds(st: State, blocks: seq<Block>, reqs: seq<nat>)
    requires Holds(st, blocks) && Fit(reqs)
    ensures Holds(RunState(st, reqs), blocks + RunBlocks(st, reqs))
    decreases |reqs|
  {
    assert Valid(st);
    hide Holds, AllocState, AllocBlock, Valid;
    if reqs == [] {
      assert blocks + [] == blocks;
    } else {
      var b, r := AllocBlock(st, reqs[0]), AllocState(st, reqs[0]);
      AllocHolds(st, blocks, reqs[0]);
      RunHolds(r, blocks + [b], reqs[1..]);
      assert (blocks + [b]) + RunBlocks(r, reqs[1..]) == blocks + RunBlocks(st, reqs);
    }
  }

  /** Each request gets a block of its size. */
  lemma {:induction false} RunSizes(st: State, reqs: seq<nat>)
    requires Valid(st) && Fit(reqs)
    ensures |RunBlocks(st, reqs)| == |reqs| && forall i :: 0 <= i < |reqs| ==> RunBlocks(st, reqs)[i].size == reqs[i]
    decreases |reqs|
  {
    hide AllocState, Valid, Target;
    if reqs != [] { RunSizes(AllocState(st, reqs[0]), reqs[1..]); }
  }

  /** b is a, plus possibly more empty pages at the end of the chain. */
  ghost predicate Longer(a: State, b: State) {
    && Valid(a) && Valid(b) && |a.sizes| <= |b.sizes|
    && (a.cur == b.cur || (a == EMPTY && b.cur == 0 && b.sizes[0] == 0))
    && (forall i :: 0 <= i < |a.sizes| ==> a.sizes[i] == b.sizes[i])
  }

  lemma LongerStep(a: State, b: State, size: nat)
    requires Longer(a, b) && size <= PAGE_SIZE
    ensures AllocBlock(a, size) == AllocBlock(b, size)
    ensures Longer(AllocState(a, size), AllocState(b, size))
    ensures |AllocState(b, size).sizes| == if |AllocState(a, size).sizes| > |b.sizes| then |AllocState(a, size).sizes| else |b.sizes|
  {
  }

  lemma {:induction false} LongerRun(a: State, b: State, reqs: seq<nat>)
    requires Longer(a, b) && Fit(reqs)
    ensures RunBlocks(a, reqs) == RunBlocks(b, reqs)
    ensures |RunState(a, reqs).sizes| >= |a.sizes|
    ensures |RunState(b, reqs).sizes| == if |RunState(a, reqs).sizes| > |b.sizes| then |RunState(a, reqs).sizes| else |b.sizes|
    decreases |reqs|
  {
    if reqs != [] {
      LongerStep(a, b, reqs[0]);
      hide AllocState, AllocBlock;
      LongerRun(AllocState(a, reqs[0]), AllocState(b, reqs[0]), reqs[1..]);
    }
  }

  /**
   * After a reset, any run of requests gets the very addresses a new pool would give, and new pages
   * are allocated only for what the old chain cannot hold.
   */
  lemma ResetReusesPages(st: State, reqs: seq<nat>)
    requires Valid(st) && Fit(reqs)
    ensures RunBlocks(Reset(st), reqs) == RunBlocks(EMPTY, reqs)
    ensures var pages := |RunState(EMPTY, reqs).sizes|;
            |RunState(Reset(st), reqs).sizes| == if pages > |st.sizes| then pages else |st.sizes|
  {
    LongerRun(EMPTY, Reset(st), reqs);
  }

  class Pool {
    var sizes: seq<nat>
    var cur: int
    ghost var blocks: seq<Block>

    ghost function St(): State
      reads this
    {
      State(sizes, cur)
    }

    ghost predicate Ok()
      reads this
    {
      Holds(St(), blocks)
    }

    constructor ()
      ensures Ok() && St() == EMPTY && blocks == []
    {
      sizes, cur, blocks := [], -1, [];
    }

    method NextPageOf() returns (page: int)
      requires Ok()
      modifies this`sizes
      ensures State(sizes, page) == NextPage(old(St()))
    {
      if cur != -1 && cur + 1 < |sizes| {
        return cur + 1;
      }
      sizes := sizes + [0];
      page := |sizes| - 1;
    }

    method ResetPool()
      requires Ok()
      modifies this
      ensures Ok() && blocks == [] && St() == Reset(old(St()))
    {
      var p := 0;
      while p < |sizes|
        invariant 0 <= p <= |sizes| == |old(sizes)|
        invariant forall i :: 0 <= i < p ==> sizes[i] == 0
      {
        sizes := sizes[p := 0];
        p := p + 1;
      }
      cur := if |sizes| == 0 then -1 else 0;
      blocks := [];
    }

    /** A request larger than a page is refused; any other gets bytes no live block shares, inside one page. */
    method Alloc(size: nat) returns (ok: bool, block: Block)
      requires Ok()
      modifies this
      ensures Ok()
      ensures ok <==> size <= 1024
      ensures !ok ==> St() == old(St()) && blocks == old(blocks)
      ensures ok ==> St() == AllocState(old(St()), size) && block == AllocBlock(old(St()), size)
      ensures ok ==> blocks == old(blocks) + [block]
      ensures ok ==> block.size == size && block.off + block.size <= 1024
      ensures ok ==> forall b :: b in old(blocks) ==> Disjoint(b, block)
    {
      block := Block(0, 0, 0);
      if size > PAGE_SIZE {
        return false, block;
      }
      if cur == -1 || sizes[cur] + size > PAGE_SIZE {
        cur := NextPageOf();
      }
      block := Block(cur, sizes[cur], size);
      sizes := sizes[cur := sizes[cur] + size];
      ok := true;
      AllocHolds(old(St()), old(blocks), size);
      blocks := blocks + [block];
    }
  }
}
