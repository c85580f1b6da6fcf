/** Big5: the rank index from Unicode to the character set, and the two directions over one chart. */
module Big5 {
  import opened Common
  import opened PopCount

  /** The number of characters before a block of 16 code points, and which of the 16 exist. */
  datatype Summary = Summary(indx: nat, used: bv16)

  // ----- The block a code point belongs to -----

  /** Number of blocks on all eight pages. */
  const BLOCKS := 1528

  /** Position of a code point's block, the pages laid end to end. */
  function Slot(wc: nat): (r: Option<nat>)
    ensures r.Some? ==> r.value < BLOCKS
  {
    if wc < 0x100 then Some(wc / 16)
    else if 0x200 <= wc < 0x460 then Some(16 + (wc / 16 - 0x20))
    else if 0x2000 <= wc < 0x22C0 then Some(54 + (wc / 16 - 0x200))
    else if 0x2400 <= wc < 0x2650 then Some(98 + (wc / 16 - 0x240))
    else if 0x3000 <= wc < 0x33E0 then Some(135 + (wc / 16 - 0x300))
    else if 0x4E00 <= wc < 0x9FB0 then Some(197 + (wc / 16 - 0x4E0))
    else if 0xFA00 <= wc < 0xFA10 then Some(1504 + (wc / 16 - 0xFA0))
    else if 0xFE00 <= wc < 0xFF70 then Some(1505 + (wc / 16 - 0xFE0))
    else None
  }

  /** The first code point of a block. */
  function BlockStart(slot: nat): nat
    requires slot < BLOCKS
  {
    if slot < 16 then slot * 16
    else if slot < 54 then (slot - 16 + 0x20) * 16
    else if slot < 98 then (slot - 54 + 0x200) * 16
    else if slot < 135 then (slot - 98 + 0x240) * 16
    else if slot < 197 then (slot - 135 + 0x300) * 16
    else if slot < 1504 then (slot - 197 + 0x4E0) * 16
    else if slot < 1505 then (slot - 1504 + 0xFA0) * 16
    else (slot - 1505 + 0xFE0) * 16
  }

  lemma SlotOfBlock(slot: nat, i: nat)
    requires slot < BLOCKS && i < 16
    ensures Slot(BlockStart(slot) + i) == Some(slot) && (BlockStart(slot) + i) % 16 == i
  {
  }

  /** A code point has a block if and only if it lies on one of the eight pages, and the block is the one that holds it. */
  lemma SlotIff(wc: nat)
    ensures Slot(wc).Some? <==>
              || wc < 0x100 || 0x200 <= wc < 0x460 || 0x2000 <= wc < 0x22C0 || 0x2400 <= wc < 0x2650
              || 0x3000 <= wc < 0x33E0 || 0x4E00 <= wc < 0x9FB0 || 0xFA00 <= wc < 0xFA10 || 0xFE00 <= wc < 0xFF70
    ensures Slot(wc).Some? ==> BlockStart(Slot(wc).value) <= wc < BlockStart(Slot(wc).value) + 16
  {
  }

  lemma SlotMonotone(a: nat, b: nat)
    requires a < b && Slot(a).Some? && Slot(b).Some?
    ensures Slot(a).value < Slot(b).value || (Slot(a) == Slot(b) && a % 16 < b % 16)
  {
  }

  // ----- The rank index -----

  ghost predicate Tables(blocks: seq<Summary>) {
    && |blocks| == BLOCKS && blocks[0].indx == 0
    && (forall k :: 0 <= k < BLOCKS - 1 ==> blocks[k+1].indx == blocks[k].indx + Count(blocks[k].used, 16))
  }

  /** Number of characters indexed. */
  function Total(blocks: seq<Summary>): nat
    requires |blocks| == BLOCKS
  {
    blocks[BLOCKS-1].indx + Count(blocks[BLOCKS-1].used, 16)
  }

  predicate Accepted(blocks: seq<Summary>, wc: nat)
    requires |blocks| == BLOCKS
  {
    Slot(wc).Some? && Has(blocks[Slot(wc).value].used, wc % 16)
  }

  /** The index the code computes: the block's base and the masked additions. */
  function Rank(blocks: seq<Summary>, wc: nat): nat
    requires |blocks| == BLOCKS && Slot(wc).Some?
  {
    var s := blocks[Slot(wc).value];
    s.indx + ToNat(FourAdds(And(s.used, Below(wc % 16))))
  }

  lemma RankCounts(blocks: seq<Summary>, wc: nat)
    requires |blocks| == BLOCKS && Slot(wc).Some?
    ensures Rank(blocks, wc) == blocks[Slot(wc).value].indx + Count(blocks[Slot(wc).value].used, wc % 16)
  {
    hide FourAdds, ToNat, And, Below, Slot;
    var s := blocks[Slot(wc).value];
    FourAddsCounts(And(s.used, Below(wc % 16)));
    CountMasked(s.used, wc % 16, 16);
  }

  lemma {:induction false} CountMonotone(u: bv16, i: nat, j: nat)
    requires i <= j
    ensures Count(u, i) <= Count(u, j)
    ensures i < j && Has(u, i) ==> Count(u, i) < Count(u, j)
    decreases j - i
  {
    hide Has, Count;
    if i < j {
      CountStep(u, i);
      CountMonotone(u, i + 1, j);
    }
  }

  lemma {:induction false} IndxMonotone(blocks: seq<Summary>, k: nat, m: nat)
    requires Tables(blocks) && k < m < BLOCKS
    ensures blocks[k].indx + Count(blocks[k].used, 16) <= blocks[m].indx
    decreases m - k
  {
    hide Count;
    if m > k + 1 { IndxMonotone(blocks, k, m - 1); }
  }

  /** The index is strictly increasing in the code point, and stays below the total. */
  lemma RankIncreasing(blocks: seq<Summary>, a: nat, b: nat)
    requires Tables(blocks) && Accepted(blocks, a) && Accepted(blocks, b)
    ensures a < b ==> Rank(blocks, a) < Rank(blocks, b)
    ensures Rank(blocks, a) < Total(blocks)
  {
    hide Slot, Count, Rank, Has;
    RankCounts(blocks, a);
    RankCounts(blocks, b);
    var k, m := Slot(a).value, Slot(b).value;
    CountMonotone(blocks[k].used, a % 16, 16);
    if k < BLOCKS - 1 { IndxMonotone(blocks, k, BLOCKS - 1); }
    if a < b {
      SlotMonotone(a, b);
      if k < m {
        IndxMonotone(blocks, k, m);
      } else {
        CountMonotone(blocks[k].used, a % 16, b % 16);
      }
    }
  }

  lemma {:induction false} FindBit(u: bv16, r: nat, n: nat) returns (i: nat)
    requires r < Count(u, n)
    ensures i < n && Has(u, i) && Count(u, i) == r
  {
    hide Has, Count;
    if n == 0 {
      CountNone(u);
    } else {
      CountStep(u, n - 1);
      if r < Count(u, n - 1) {
        i := FindBit(u, r, n - 1);
      } else {
        i := n - 1;
      }
    }
  }

  lemma CountNone(u: bv16)
    ensures Count(u, 0) == 0
  {
  }

  lemma {:induction false} FindBlock(blocks: seq<Summary>, r: nat, n: nat) returns (k: nat)
    requires Tables(blocks) && 0 < n <= BLOCKS && r < blocks[n-1].indx + Count(blocks[n-1].used, 16)
    ensures k < n && blocks[k].indx <= r < blocks[k].indx + Count(blocks[k].used, 16)
  {
    hide Count;
    if r < blocks[n-1].indx {
      k := FindBlock(blocks, r, n - 1);
    } else {
      k := n - 1;
    }
  }

  /** Every index below the total is the index of an accepted code point. */
  lemma RankOnto(blocks: seq<Summary>, r: nat) returns (wc: nat)
    requires Tables(blocks) && r < Total(blocks)
    ensures Accepted(blocks, wc) && Rank(blocks, wc) == r
  {
    hide Slot, BlockStart, Count, Rank, Has;
    var k := FindBlock(blocks, r, BLOCKS);
    var i := FindBit(blocks[k].used, r - blocks[k].indx, 16);
    wc := BlockStart(k) + i;
    SlotOfBlock(k, i);
    RankCounts(blocks, wc);
  }

  // ----- The two directions over one chart -----

  predicate LeadByte(c1: nat) { 0xA1 <= c1 <= 0xC7 || 0xC9 <= c1 <= 0xF9 }

  predicate TrailByte(c2: nat) { 0x40 <= c2 < 0x7F || 0xA1 <= c2 < 0xFF }

  /** Table index of a byte pair. */
  function Index(c1: nat, c2: nat): nat
    requires LeadByte(c1) && TrailByte(c2)
  {
    157 * (c1 - 0xA1) + (c2 - (if c2 >= 0xA1 then 0x62 else 0x40))
  }

  // ----- The byte pairs in order -----

  /** The pair after p: trail bytes run from 0x40 to 0x7e and from 0xa1 to 0xfe, then the next lead byte's begin. */
  function NextPair(p: (nat, nat)): (nat, nat) {
    if p.1 == 0x7E then (p.0, 0xA1) else if p.1 == 0xFE then (p.0 + 1, 0x40) else (p.0, p.1 + 1)
  }

  /** The i-th pair from p on. */
  function PairFrom(p: (nat, nat), i: nat): (nat, nat) { if i == 0 then p else NextPair(PairFrom(p, i - 1)) }

  function TrailOf(k: nat): nat { if k < 63 then 0x40 + k else 0x62 + k }

  lemma {:induction false} PairFromIs(c1: nat, i: nat)
    ensures PairFrom((c1, 0x40), i) == (c1 + i / 157, TrailOf(i % 157))
  {
    if i > 0 {
      PairFromIs(c1, i - 1);
      Rows(i);
    }
  }

  lemma Rows(i: nat)
    requires i > 0
    ensures i % 157 == if (i - 1) % 157 == 156 then 0 else (i - 1) % 157 + 1
    ensures i / 157 == (i - 1) / 157 + if (i - 1) % 157 == 156 then 1 else 0
  {
  }

  /** The table index of a pair is its place in byte order: from a1 40, the unused lead byte c8 counted. */
  lemma IndexIsPlace(c1: nat, c2: nat)
    requires LeadByte(c1) && TrailByte(c2)
    ensures PairFrom((0xA1, 0x40), Index(c1, c2)) == (c1, c2)
    ensures c1 >= 0xC9 <==> Index(c1, c2) >= 6280
    ensures c1 >= 0xC9 ==> PairFrom((0xC9, 0x40), Index(c1, c2) - 6280) == (c1, c2)
  {
    var row, k := c1 - 0xA1, c2 - (if c2 >= 0xA1 then 0x62 else 0x40);
    PairFromIs(0xA1, Index(c1, c2));
    InRow(row, k);
    if c1 >= 0xC9 {
      PairFromIs(0xC9, Index(c1, c2) - 6280);
      InRow(c1 - 0xC9, k);
    }
  }

  lemma InRow(row: nat, k: nat)
    requires k < 157
    ensures (157 * row + k) / 157 == row && (157 * row + k) % 157 == k
  {
  }

  /** Different byte pairs have different table indexes. */
  lemma IndexInjective(c1: nat, c2: nat, d1: nat, d2: nat)
    requires LeadByte(c1) && TrailByte(c2) && LeadByte(d1) && TrailByte(d2)
    requires Index(c1, c2) == Index(d1, d2)
    ensures c1 == d1 && c2 == d2
  {
    hide Index;
    IndexIsPlace(c1, c2);
    IndexIsPlace(d1, d2);
  }

  /** A byte pair as a 16-bit code, as the tables store it. */
  function Code(c1: nat, c2: nat): nat { c1 * 0x100 + c2 }

  /** The character chart: byte pairs with their code points. */
  type Chart = map<(nat, nat), nat>

  /** Both pages of the decoding table in byte order: the first begins at a1 40, the second at c9 40. */
  const FIRST_PAIR := (0xA1, 0x40)
  const SECOND_PAIR := (0xC9, 0x40)

  /** The chart can be tabulated: each of its pairs is on a page, and its 16-bit code points leave 0xfffd for the gaps. */
  ghost predicate ChartOk(chart: Chart) {
    forall p :: p in chart ==>
      && chart[p] < 0x10000 && chart[p] != 0xFFFD
      && ((exists i: nat :: i < 6121 && PairFrom(FIRST_PAIR, i) == p) || exists i: nat :: i < 7652 && PairFrom(SECOND_PAIR, i) == p)
  }

  /** n entries of the table for a chart: the code points of the pairs from first on in byte order, 0xfffd without one. */
  function Page(chart: Chart, first: (nat, nat), n: nat): (r: seq<nat>)
    ensures |r| == n
    ensures forall i :: 0 <= i < n ==> r[i] == if PairFrom(first, i) in chart then chart[PairFrom(first, i)] else 0xFFFD
  {
    seq(n, i requires 0 <= i < n => if PairFrom(first, i) in chart then chart[PairFrom(first, i)] else 0xFFFD)
  }

  /** The chart's code points in increasing order, each with one of its pairs. */
  ghost predicate Listing(listing: seq<(nat, nat)>, chart: Chart) {
    && (forall i :: 0 <= i < |listing| ==> listing[i] in chart)
    && (forall i, j :: 0 <= i < j < |listing| ==> chart[listing[i]] < chart[listing[j]])
    && (forall p :: p in chart ==> exists i :: 0 <= i < |listing| && chart[listing[i]] == chart[p])
  }

  /** A bit is set for exactly the code points of the chart. */
  ghost predicate Marks(blocks: seq<Summary>, chart: Chart) {
    && |blocks| == BLOCKS
    && forall wc: nat :: Accepted(blocks, wc) <==> exists p :: p in chart && chart[p] == wc
  }

  /** The encoding tables generated from a chart: bits for its code points, bases that add up, and its pairs in code point order. */
  ghost predicate EncodesChart(blocks: seq<Summary>, charset: seq<nat>, listing: seq<(nat, nat)>, chart: Chart) {
    && Tables(blocks) && Marks(blocks, chart) && Listing(listing, chart) && |charset| == |listing|
    && forall i :: 0 <= i < |listing| ==> charset[i] == Code(listing[i].0, listing[i].1)
  }

  /** The accepted code points in increasing order. */
  ghost predicate Enumerates(codes: seq<nat>, blocks: seq<Summary>) {
    && |blocks| == BLOCKS
    && (forall i, j :: 0 <= i < j < |codes| ==> codes[i] < codes[j])
    && (forall i :: 0 <= i < |codes| ==> Accepted(blocks, codes[i]))
    && (forall wc: nat :: Accepted(blocks, wc) ==> wc in codes)
  }

  lemma AcceptedSlot(blocks: seq<Summary>, wc: nat)
    requires |blocks| == BLOCKS && Accepted(blocks, wc)
    ensures Slot(wc).Some?
  {
    hide Slot, Has;
  }

  lemma {:induction false} RankAtLeast(blocks: seq<Summary>, codes: seq<nat>, i: nat)
    requires Tables(blocks) && Enumerates(codes, blocks) && i < |codes|
    ensures Slot(codes[i]).Some? && i <= Rank(blocks, codes[i]) < Total(blocks)
  {
    hide Accepted, Slot, Rank, Tables, Total;
    AcceptedSlot(blocks, codes[i]);
    RankIncreasing(blocks, codes[i], codes[i]);
    if i > 0 {
      RankAtLeast(blocks, codes, i - 1);
      RankIncreasing(blocks, codes[i-1], codes[i]);
    }
  }

  /** The rank index of the i-th accepted code point is i: this is why a table in code point order can be looked up by it. */
  lemma {:induction false} RankIsPlace(blocks: seq<Summary>, codes: seq<nat>, i: nat)
    requires Tables(blocks) && Enumerates(codes, blocks) && i < |codes|
    ensures Slot(codes[i]).Some? && Rank(blocks, codes[i]) == i
  {
    hide Accepted, Slot, Rank, Tables, Total;
    RankAtLeast(blocks, codes, i);
    var wc := RankOnto(blocks, i);
    var j :| 0 <= j < |codes| && codes[j] == wc;
    if j < i {
      RankIsPlace(blocks, codes, j);
    } else {
      RankAtLeast(blocks, codes, j);
    }
  }

  /** So the total of the bases is the number of accepted code points. */
  lemma TotalIsCount(blocks: seq<Summary>, codes: seq<nat>)
    requires Tables(blocks) && Enumerates(codes, blocks)
    ensures Total(blocks) == |codes|
  {
    hide Accepted, Slot, Rank, Tables, Total;
    if |codes| < Total(blocks) {
      var wc := RankOnto(blocks, |codes|);
      var j :| 0 <= j < |codes| && codes[j] == wc;
      RankIsPlace(blocks, codes, j);
    }
    if Total(blocks) < |codes| { RankAtLeast(blocks, codes, |codes| - 1); }
  }

  ghost function CodesOf(listing: seq<(nat, nat)>, chart: Chart): (codes: seq<nat>)
    requires Listing(listing, chart)
    ensures |codes| == |listing| && forall i :: 0 <= i < |listing| ==> codes[i] == chart[listing[i]]
  {
    seq(|listing|, i requires 0 <= i < |listing| => chart[listing[i]])
  }

  lemma ListingEnumerates(blocks: seq<Summary>, listing: seq<(nat, nat)>, chart: Chart)
    requires Marks(blocks, chart) && Listing(listing, chart)
    ensures Enumerates(CodesOf(listing, chart), blocks)
  {
    hide Accepted;
    var codes := CodesOf(listing, chart);
    forall i | 0 <= i < |codes|
      ensures Accepted(blocks, codes[i])
    {
      assert listing[i] in chart;
    }
    forall wc: nat | Accepted(blocks, wc)
      ensures wc in codes
    {
      var p :| p in chart && chart[p] == wc;
      var i :| 0 <= i < |listing| && chart[listing[i]] == chart[p];
      assert codes[i] == wc;
    }
  }

  datatype Decoded = Wide(wc: nat, length: nat) | IllegalSequence | TooFew

  datatype Encoded = Bytes(r0: nat, r1: nat) | IllegalUnicode | TooSmall

  /** big5_mbtowc on the first bytes of a buffer with n bytes left. */
  function MbToWc(s: seq<nat>, n: int, pagea1: seq<nat>, pagec9: seq<nat>): Decoded
    requires s != [] && (n >= 2 ==> |s| >= 2) && |pagea1| == 6121 && |pagec9| == 7652
  {
    if !LeadByte(s[0]) then IllegalSequence
    else if n < 2 then TooFew
    else if !TrailByte(s[1]) then IllegalSequence
    else
      var i := Index(s[0], s[1]);
      var wc := if i < 6280 then (if i < 6121 then pagea1[i] else 0xFFFD) else if i < 13932 then pagec9[i-6280] else 0xFFFD;
      if wc != 0xFFFD then Wide(wc, 2) else IllegalSequence
  }

  /** Decoding with the two pages of a chart. */
  function DecodePair(c1: nat, c2: nat, chart: Chart): Decoded {
    MbToWc([c1, c2], 2, Page(chart, (0xA1, 0x40), 6121), Page(chart, (0xC9, 0x40), 7652))
  }

  /** big5_wctomb into a buffer of n bytes. */
  method WcToMb(wc: nat, n: int, blocks: seq<Summary>, charset: seq<nat>) returns (r: Encoded)
    requires Tables(blocks) && |charset| == Total(blocks)
    ensures r == WcToMbSpec(wc, n, blocks, charset)
  {
    hide FourAdds, And, Below, Count, Slot, Rank;
    if n < 2 {
      return TooSmall;
    }
    var slot := Slot(wc);
    if slot.Some? {
      var summary := blocks[slot.value];
      var used := summary.used;
      var i := wc % 16;
      if And(used, One(i)) != 0 {
        used := And(used, Below(i));
        used := FourAdds(used);
        var at := summary.indx + ToNat(used);
        assert Accepted(blocks, wc);
        assert at == Rank(blocks, wc) by { RankIs(blocks, wc); }
        RankIncreasing(blocks, wc, wc);
        var c := charset[at];
        return Bytes(c / 0x100 % 0x100, c % 0x100);
      }
    }
    return IllegalUnicode;
  }

  lemma RankIs(blocks: seq<Summary>, wc: nat)
    requires |blocks| == BLOCKS && Slot(wc).Some?
    ensures Rank(blocks, wc) == blocks[Slot(wc).value].indx + ToNat(FourAdds(And(blocks[Slot(wc).value].used, Below(wc % 16))))
  {
    hide Slot, FourAdds, ToNat;
  }

  ghost function WcToMbSpec(wc: nat, n: int, blocks: seq<Summary>, charset: seq<nat>): Encoded
    requires Tables(blocks) && |charset| == Total(blocks)
  {
    if n < 2 then TooSmall
    else if !Accepted(blocks, wc) then IllegalUnicode
    else
      RankIncreasing(blocks, wc, wc);
      var c := charset[Rank(blocks, wc)];
      Bytes(c / 0x100 % 0x100, c % 0x100)
  }

  lemma PairIsValid(c1: nat, c2: nat, chart: Chart)
    requires ChartOk(chart) && (c1, c2) in chart
    ensures LeadByte(c1) && TrailByte(c2) && chart[(c1, c2)] != 0xFFFD
    ensures if c1 < 0xC9 then Index(c1, c2) < 6121 else Index(c1, c2) < 13932
  {
    var p := (c1, c2);
    hide PairFrom;
    if i: nat :| i < 6121 && PairFrom(FIRST_PAIR, i) == p {
      PairFromIs(0xA1, i);
    } else {
      var i: nat :| i < 7652 && PairFrom(SECOND_PAIR, i) == p;
      PairFromIs(0xC9, i);
    }
  }

  /** Decoding follows the chart: a pair of the chart gives its code point, any other pair of bytes is illegal. */
  lemma DecodingIsChart(c1: nat, c2: nat, chart: Chart)
    requires ChartOk(chart)
    ensures DecodePair(c1, c2, chart) == if (c1, c2) in chart then Wide(chart[(c1, c2)], 2) else IllegalSequence
  {
    hide Index, LeadByte, TrailByte, PairFrom, ChartOk;
    if (c1, c2) in chart { PairIsValid(c1, c2, chart); }
    if LeadByte(c1) && TrailByte(c2) { IndexIsPlace(c1, c2); }
  }

  /** With a single byte left, a lead byte asks for more and any other byte is illegal. */
  lemma LoneByte(c1: nat, chart: Chart)
    ensures MbToWc([c1], 1, Page(chart, (0xA1, 0x40), 6121), Page(chart, (0xC9, 0x40), 7652))
         == if 0xA1 <= c1 <= 0xF9 && c1 != 0xC8 then TooFew else IllegalSequence
  {
    hide Page;
  }

  lemma CodeBytes(c1: nat, c2: nat)
    requires LeadByte(c1) && TrailByte(c2)
    ensures Code(c1, c2) / 0x100 % 0x100 == c1 && Code(c1, c2) % 0x100 == c2
  {
  }

  /** Encoding accepts exactly the chart's code points, and decoding the bytes gives the code point back. */
  lemma EncodingRoundTrip(wc: nat, blocks: seq<Summary>, charset: seq<nat>, listing: seq<(nat, nat)>, chart: Chart)
    requires ChartOk(chart) && EncodesChart(blocks, charset, listing, chart)
    ensures |charset| == Total(blocks)
    ensures var r := WcToMbSpec(wc, 2, blocks, charset);
            && (r.Bytes? <==> exists p :: p in chart && chart[p] == wc)
            && (r.Bytes? ==> DecodePair(r.r0, r.r1, chart) == Wide(wc, 2))
  {
    hide Index, Rank, Total, Tables, Code, LeadByte, TrailByte, Slot, Has, DecodePair, PairFrom, ChartOk;
    ListingEnumerates(blocks, listing, chart);
    TotalIsCount(blocks, CodesOf(listing, chart));
    if Accepted(blocks, wc) {
      var i := EncodedAt(wc, blocks, charset, listing, chart);
      var p := listing[i];
      DecodingIsChart(p.0, p.1, chart);
      assert p == (p.0, p.1);
    }
  }

  /** The bytes of an accepted code point are its listed pair. */
  lemma EncodedAt(wc: nat, blocks: seq<Summary>, charset: seq<nat>, listing: seq<(nat, nat)>, chart: Chart) returns (i: nat)
    requires ChartOk(chart) && EncodesChart(blocks, charset, listing, chart) && Accepted(blocks, wc)
    ensures |charset| == Total(blocks) && i < |listing| && listing[i] in chart && chart[listing[i]] == wc
    ensures WcToMbSpec(wc, 2, blocks, charset) == Bytes(listing[i].0, listing[i].1)
  {
    hide Index, Rank, Total, Tables, Code, LeadByte, TrailByte, Slot, Has, PairFrom, ChartOk;
    var codes := CodesOf(listing, chart);
    ListingEnumerates(blocks, listing, chart);
    TotalIsCount(blocks, codes);
    i :| 0 <= i < |codes| && codes[i] == wc;
    RankIsPlace(blocks, codes, i);
    PairIsValid(listing[i].0, listing[i].1, chart);
    CodeBytes(listing[i].0, listing[i].1);
  }

  /** When no two pairs of the chart share a code point, encoding what a pair decodes to gives the pair back. */
  lemma DecodingRoundTrip(c1: nat, c2: nat, blocks: seq<Summary>, charset: seq<nat>, listing: seq<(nat, nat)>, chart: Chart)
    requires ChartOk(chart) && EncodesChart(blocks, charset, listing, chart)
    requires forall p, q :: p in chart && q in chart && chart[p] == chart[q] ==> p == q
    ensures |charset| == Total(blocks)
    ensures var d := DecodePair(c1, c2, chart);
            d.Wide? ==> WcToMbSpec(d.wc, 2, blocks, charset) == Bytes(c1, c2)
  {
    hide Index, Rank, Total, Tables, Code, LeadByte, TrailByte, Slot, Has, DecodePair, WcToMbSpec, PairFrom, ChartOk;
    DecodingIsChart(c1, c2, chart);
    ListingEnumerates(blocks, listing, chart);
    TotalIsCount(blocks, CodesOf(listing, chart));
    if (c1, c2) in chart {
      var wc := chart[(c1, c2)];
      assert Accepted(blocks, wc);
      var i := EncodedAt(wc, blocks, charset, listing, chart);
      assert listing[i] == (c1, c2);
    }
  }

  // ----- A chart of one character -----

  /** The blocks of a chart whose one code point starts block k: a bit there, and bases that count it from then on. */
  function OneBlock(k: nat): (r: seq<Summary>)
    ensures |r| == BLOCKS && forall i :: 0 <= i < BLOCKS ==> r[i] == Summary(if i <= k then 0 else 1, if i == k then 1 else 0)
  {
    seq(BLOCKS, i => Summary(if i <= k then 0 else 1, if i == k then 1 else 0))
  }

  lemma RawHasOne(o: bv16)
    ensures And(0, o) == 0 && (And(1, Double(o)) == 0) && And(1, 1) == 1
  {
  }

  lemma {:induction false} CountOne(n: nat)
    ensures Count(1, n) == (if n == 0 then 0 else 1) && Count(0, n) == 0
  {
    CountZero(n);
    if n > 0 {
      RawHalfOne();
      CountZero(n - 1);
      hide LowBit, Shr1;
    }
  }

  lemma RawHalfOne()
    ensures LowBit(1) && Shr1(1) == 0
  {
  }

  lemma HasOne(i: nat)
    ensures !Has(0, i) && (Has(1, i) <==> i == 0)
  {
    RawHasOne(if i == 0 then 1 else One(i - 1));
    RawHasOne(One(i));
    hide And, Double;
  }

  lemma OneTables(k: nat)
    requires k < BLOCKS
    ensures Tables(OneBlock(k))
  {
    CountOne(16);
    hide Count;
  }

  lemma OneAccepted(k: nat, wc: nat)
    requires k < BLOCKS
    ensures Accepted(OneBlock(k), wc) <==> wc == BlockStart(k)
  {
    hide Slot, BlockStart, Has;
    HasOne(wc % 16);
    SlotOfBlock(k, 0);
    if Slot(wc) == Some(k) { SlotIff(wc); StartsApart(k, wc); }
  }

  lemma StartsApart(k: nat, wc: nat)
    requires k < BLOCKS && BlockStart(k) <= wc < BlockStart(k) + 16
    ensures wc % 16 == 0 <==> wc == BlockStart(k)
  {
  }

  lemma OneListing(p: (nat, nat), wc: nat)
    ensures Listing([p], map[p := wc])
  {
    var chart, listing := map[p := wc], [p];
    forall q | q in chart ensures exists i :: 0 <= i < |listing| && chart[listing[i]] == chart[q] {
      assert listing[0] == q;
    }
  }

  lemma OneMarks(p: (nat, nat), k: nat)
    requires k < BLOCKS
    ensures Marks(OneBlock(k), map[p := BlockStart(k)])
  {
    hide BlockStart, Accepted;
    var chart := map[p := BlockStart(k)];
    forall wc: nat ensures Accepted(OneBlock(k), wc) <==> exists q :: q in chart && chart[q] == wc {
      OneAccepted(k, wc);
      assert p in chart && chart[p] == BlockStart(k);
    }
  }

  /**
   * The hypotheses can be met, and in the shipped order: the chart that only has A4 40, the first ideograph, is
   * tabulated at place 471 of the first page, and decodes.
   */
  lemma FirstIdeograph()
    ensures var chart: Chart := map[(0xA4, 0x40) := 0x4E00];
            && ChartOk(chart) && EncodesChart(OneBlock(197), [0xA440], [(0xA4, 0x40)], chart)
            && Page(chart, (0xA1, 0x40), 6121)[471] == 0x4E00
            && DecodePair(0xA4, 0x40, chart) == Wide(0x4E00, 2)
  {
    var p := (0xA4, 0x40);
    var chart: Chart := map[p := 0x4E00];
    PairFromIs(0xA1, 471);
    assert BlockStart(197) == 0x4E00;
    hide BlockStart, Tables, Accepted, PairFrom, MbToWc, OneBlock, Marks, Listing;
    assert ChartOk(chart) by { assert 471 < 6121 && PairFrom(FIRST_PAIR, 471) == p; }
    OneTables(197);
    OneMarks(p, 197);
    OneListing(p, 0x4E00);
    DecodingIsChart(0xA4, 0x40, chart);
  }
}
