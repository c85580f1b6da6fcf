/** The CRC as the remainder of a polynomial division over GF(2), on rows of bits. */
module CrcDivision {
  import opened WordBits
  import C = Crc32

  // ----- Polynomials: rows of coefficients, highest first -----

  function Plus(a: seq<bool>, b: seq<bool>): (r: seq<bool>)
    requires |a| == |b|
    ensures |r| == |a| && forall i :: 0 <= i < |a| ==> r[i] == (a[i] != b[i])
  {
    seq(|a|, i requires 0 <= i < |a| => a[i] != b[i])
  }

  /** The product: each term of q adds g once, at its own place. */
  function Times(q: seq<bool>, g: seq<bool>): (r: seq<bool>)
    requires |g| > 0
    ensures |r| == |q| + |g| - 1
  {
    if q == [] then Zeros(|g| - 1)
    else
      var front, t := q[..|q|-1], q[|q|-1];
      Plus(Times(front, g) + [false], Zeros(|front|) + if t then g else Zeros(|g|))
  }

  lemma TimesPush(q: seq<bool>, t: bool, g: seq<bool>)
    requires |g| > 0
    ensures Times(q + [t], g) == Plus(Times(q, g) + [false], Zeros(|q|) + if t then g else Zeros(|g|))
  {
    assert (q + [t])[..|q|] == q;
  }

  /** x^32 and the polynomial's lower terms. */
  function Generator(poly: bv32): (g: seq<bool>)
    ensures |g| == 33
  {
    [true] + Bits(poly)
  }

  /** The message times x^32, and the start value added at its front, is q times the generator and the remainder reg. */
  ghost predicate Divides(bits: seq<bool>, start: bv32, q: seq<bool>, reg: bv32, poly: bv32) {
    |q| == |bits| &&
    Plus(Bits(start) + Zeros(|bits|), bits + Zeros(32)) == Plus(Times(q, Generator(poly)), Zeros(|q|) + Bits(reg))
  }

  // ----- One bit -----

  function FeedBit(v: bv32, b: bool, poly: bv32): bv32 {
    if Msb(v) != b then C.Xor(Up(v), poly) else Up(v)
  }

  lemma RawXorHigh(a: bv8, b: bv8, k: nat)
    requires k < 4
    ensures BitAt(C.XorByte(a, b), k) == (BitAt(a, k) != BitAt(b, k))
  {
  }

  lemma RawXorLow(a: bv8, b: bv8, k: nat)
    requires 4 <= k < 8
    ensures BitAt(C.XorByte(a, b), k) == (BitAt(a, k) != BitAt(b, k))
  {
  }

  lemma XorByteBits(a: bv8, b: bv8)
    ensures ByteBits(C.XorByte(a, b)) == Plus(ByteBits(a), ByteBits(b))
  {
    hide ByteBits, BitAt, C.XorByte;
    var left, right := ByteBits(C.XorByte(a, b)), Plus(ByteBits(a), ByteBits(b));
    forall k | 0 <= k < 8 ensures left[k] == right[k] {
      BitAtIsBit(a, k);
      BitAtIsBit(b, k);
      BitAtIsBit(C.XorByte(a, b), k);
      if k < 4 { RawXorHigh(a, b, k); } else { RawXorLow(a, b, k); }
    }
  }

  lemma RawXorByte0(a: bv32, b: bv32)
    ensures ByteOf(C.Xor(a, b), 0) == C.XorByte(ByteOf(a, 0), ByteOf(b, 0))
  {
  }

  lemma RawXorByte1(a: bv32, b: bv32)
    ensures ByteOf(C.Xor(a, b), 1) == C.XorByte(ByteOf(a, 1), ByteOf(b, 1))
  {
  }

  lemma RawXorByte2(a: bv32, b: bv32)
    ensures ByteOf(C.Xor(a, b), 2) == C.XorByte(ByteOf(a, 2), ByteOf(b, 2))
  {
  }

  lemma RawXorByte3(a: bv32, b: bv32)
    ensures ByteOf(C.Xor(a, b), 3) == C.XorByte(ByteOf(a, 3), ByteOf(b, 3))
  {
  }

  lemma PlusRows(a0: seq<bool>, a1: seq<bool>, a2: seq<bool>, a3: seq<bool>, b0: seq<bool>, b1: seq<bool>, b2: seq<bool>, b3: seq<bool>)
    requires |a0| == |a1| == |a2| == |a3| == |b0| == |b1| == |b2| == |b3| == 8
    ensures Plus(a0, b0) + Plus(a1, b1) + Plus(a2, b2) + Plus(a3, b3) == Plus(a0 + a1 + a2 + a3, b0 + b1 + b2 + b3)
  {
  }

  lemma XorBits(a: bv32, b: bv32)
    ensures Bits(C.Xor(a, b)) == Plus(Bits(a), Bits(b))
  {
    hide ByteBits, ByteOf, Plus, C.Xor, C.XorByte;
    RawXorByte0(a, b);
    RawXorByte1(a, b);
    RawXorByte2(a, b);
    RawXorByte3(a, b);
    XorByteBits(ByteOf(a, 0), ByteOf(b, 0));
    XorByteBits(ByteOf(a, 1), ByteOf(b, 1));
    XorByteBits(ByteOf(a, 2), ByteOf(b, 2));
    XorByteBits(ByteOf(a, 3), ByteOf(b, 3));
    PlusRows(ByteBits(ByteOf(a, 0)), ByteBits(ByteOf(a, 1)), ByteBits(ByteOf(a, 2)), ByteBits(ByteOf(a, 3)),
             ByteBits(ByteOf(b, 0)), ByteBits(ByteOf(b, 1)), ByteBits(ByteOf(b, 2)), ByteBits(ByteOf(b, 3)));
  }

  lemma RowStep(r: seq<bool>, b: bool, p: seq<bool>, up: seq<bool>, next: seq<bool>)
    requires |r| == |p| == 32 && up == r[1..] + [false] && next == if r[0] != b then Plus(up, p) else up
    ensures Plus(r + [false], [b] + Zeros(32)) == Plus(if r[0] != b then [true] + p else Zeros(33), [false] + next)
  {
    var left, right := Plus(r + [false], [b] + Zeros(32)), Plus(if r[0] != b then [true] + p else Zeros(33), [false] + next);
    forall i | 0 <= i < 33 ensures left[i] == right[i] {
      if i > 0 { assert up[i-1] == (r + [false])[i]; }
    }
  }

  /** The register one bit on: its next term taken off by the generator, or shifted up when that term is zero. */
  lemma FeedBitBits(v: bv32, b: bool, poly: bv32)
    ensures Plus(Bits(v) + [false], [b] + Zeros(32))
         == Plus(if Msb(v) != b then Generator(poly) else Zeros(33), [false] + Bits(FeedBit(v, b, poly)))
  {
    hide Bits, Msb, Up, C.Xor, Plus, Zeros;
    BitsUp(v);
    XorBits(Up(v), poly);
    RowStep(Bits(v), b, Bits(poly), Bits(Up(v)), Bits(FeedBit(v, b, poly)));
  }

  /** Appending a row of lower terms to both sides of a division. */
  lemma NextTerm(dividend: seq<bool>, product: seq<bool>, rest: seq<bool>, n: nat, low: seq<bool>, term: seq<bool>, next: seq<bool>)
    requires |dividend| == |product| == n + 32 && |rest| == 32 && |low| == |term| == |next| == 33
    requires dividend == Plus(product, Zeros(n) + rest) && Plus(rest + [false], low) == Plus(term, next)
    ensures Plus(dividend + [false], Zeros(n) + low) == Plus(Plus(product + [false], Zeros(n) + term), Zeros(n) + next)
  {
    var left, right := Plus(dividend + [false], Zeros(n) + low), Plus(Plus(product + [false], Zeros(n) + term), Zeros(n) + next);
    forall i | 0 <= i < n + 33 ensures left[i] == right[i] {
      if i < n {
        assert dividend[i] == (product[i] != (Zeros(n) + rest)[i]);
      } else {
        assert Plus(rest + [false], low)[i - n] == Plus(term, next)[i - n];
        if i < n + 32 { assert dividend[i] == (product[i] != rest[i - n]); }
      }
    }
  }

  lemma DividendNext(first: seq<bool>, bits: seq<bool>, b: bool)
    requires |first| == 32
    ensures var n := |bits|;
            Plus(first + Zeros(n + 1), (bits + [b]) + Zeros(32))
            == Plus(Plus(first + Zeros(n), bits + Zeros(32)) + [false], Zeros(n) + ([b] + Zeros(32)))
  {
    var n := |bits|;
    var now, was := Plus(first + Zeros(n + 1), (bits + [b]) + Zeros(32)), Plus(first + Zeros(n), bits + Zeros(32));
    var added := Zeros(n) + ([b] + Zeros(32));
    forall i | 0 <= i < n + 33 ensures now[i] == Plus(was + [false], added)[i] {
      assert i < n + 32 ==> (first + Zeros(n + 1))[i] == (first + Zeros(n))[i];
      assert i < n ==> (bits + [b] + Zeros(32))[i] == (bits + Zeros(32))[i];
    }
  }

  lemma ZerosNext(n: nat, row: seq<bool>)
    ensures Zeros(n) + ([false] + row) == Zeros(n + 1) + row
  {
  }

  lemma DividesNext(bits: seq<bool>, start: bv32, q: seq<bool>, reg: bv32, b: bool, poly: bv32)
    requires Divides(bits, start, q, reg, poly)
    ensures Divides(bits + [b], start, q + [Msb(reg) != b], FeedBit(reg, b, poly), poly)
  {
    var t, n, g := Msb(reg) != b, |q|, Generator(poly);
    assert Plus(Bits(start) + Zeros(n), bits + Zeros(32)) == Plus(Times(q, g), Zeros(n) + Bits(reg));
    hide Bits, Msb, FeedBit, Times, Plus, Zeros, Generator;
    FeedBitBits(reg, b, poly);
    TimesPush(q, t, g);
    NextTerm(Plus(Bits(start) + Zeros(n), bits + Zeros(32)), Times(q, g), Bits(reg), n, [b] + Zeros(32), if t then g else Zeros(33),
             [false] + Bits(FeedBit(reg, b, poly)));
    DividendNext(Bits(start), bits, b);
    ZerosNext(n, Bits(FeedBit(reg, b, poly)));
  }

  lemma DividesStart(start: bv32, poly: bv32)
    ensures Divides([], start, [], start, poly)
  {
    hide Bits;
  }

  // ----- One byte -----

  function FeedBits(v: bv32, w: seq<bool>, poly: bv32): bv32 {
    if w == [] then v else FeedBit(FeedBits(v, w[..|w|-1], poly), w[|w|-1], poly)
  }

  lemma RawFeed(v: bv32, b: bv8)
    ensures C.Msb(C.Xor(v, C.AtTop(b))) <==> Msb(v) != Top8(b)
    ensures C.Shl1(C.Xor(v, C.AtTop(b))) == C.Xor(Up(v), C.AtTop(Up8(b, false)))
    ensures C.AtTop(0) == 0
  {
  }

  /** Shifting the register with a byte at its top feeds in the byte's top bit. */
  lemma StepFeeds(v: bv32, b: bv8, poly: bv32)
    ensures C.BitStep(C.Xor(v, C.AtTop(b)), poly) == C.Xor(FeedBit(v, Top8(b), poly), C.AtTop(Up8(b, false)))
  {
    RawFeed(v, b);
    C.XorAlgebra(Up(v), C.AtTop(Up8(b, false)), poly);
    hide C.Xor, C.Shl1, C.Msb, C.AtTop, Msb, Up, Up8, Top8;
  }

  /** The byte shifted up until its bit k is at the top. */
  function UpTimes(b: bv8, k: nat): bv8 { if k == 0 then b else Up8(UpTimes(b, k - 1), false) }

  lemma ShiftedRow(row: seq<bool>, k: nat, was: seq<bool>, now: seq<bool>)
    requires |row| == 8 && 0 < k <= 8 && was == row[k-1..] + Zeros(k - 1) && now == was[1..] + [false]
    ensures now == row[k..] + Zeros(k) && was[0] == row[k-1]
  {
  }

  lemma {:induction false} UpTimesBits(b: bv8, k: nat)
    requires k <= 8
    ensures ByteBits(UpTimes(b, k)) == ByteBits(b)[k..] + Zeros(k)
  {
    hide ByteBits, Up8;
    if k == 0 {
      assert ByteBits(b)[0..] + Zeros(0) == ByteBits(b);
    } else {
      UpTimesBits(b, k - 1);
      Up8Bits(UpTimes(b, k - 1), false);
      ShiftedRow(ByteBits(b), k, ByteBits(UpTimes(b, k - 1)), ByteBits(UpTimes(b, k)));
    }
  }

  lemma TopIsBit(b: bv8, k: nat)
    requires k < 8
    ensures Top8(UpTimes(b, k)) == ByteBits(b)[k]
  {
    hide ByteBits, Up8, Top8, UpTimes;
    UpTimesBits(b, k);
    Up8Bits(UpTimes(b, k), false);
  }

  lemma UpEight(b: bv8)
    ensures UpTimes(b, 8) == 0
  {
    hide ByteBits, UpTimes;
    UpTimesBits(b, 8);
    ByteBitsZero();
    assert ByteBits(b)[8..] + Zeros(8) == ByteBits(0);
    ByteBitsInjective(UpTimes(b, 8), 0);
  }

  function StepTimes(v: bv32, k: nat, poly: bv32): bv32 { if k == 0 then v else C.BitStep(StepTimes(v, k - 1, poly), poly) }

  lemma StepTimesNext(v: bv32, k: nat, poly: bv32)
    ensures StepTimes(v, 0, poly) == v && StepTimes(v, k + 1, poly) == C.BitStep(StepTimes(v, k, poly), poly)
  {
  }

  lemma EightIsTimes(v: bv32, poly: bv32)
    ensures C.EightSteps(v, poly) == StepTimes(v, 8, poly)
  {
    hide C.BitStep, StepTimes;
    StepTimesNext(v, 0, poly); StepTimesNext(v, 1, poly); StepTimesNext(v, 2, poly); StepTimesNext(v, 3, poly);
    StepTimesNext(v, 4, poly); StepTimesNext(v, 5, poly); StepTimesNext(v, 6, poly); StepTimesNext(v, 7, poly);
  }

  lemma {:induction false} StepsFeed(v: bv32, b: bv8, k: nat, poly: bv32)
    requires k <= 8
    ensures StepTimes(C.Xor(v, C.AtTop(b)), k, poly) == C.Xor(FeedBits(v, ByteBits(b)[..k], poly), C.AtTop(UpTimes(b, k)))
  {
    hide C.BitStep, C.Xor, C.AtTop, FeedBit, Up8, ByteBits, Top8;
    if k > 0 {
      StepsFeed(v, b, k - 1, poly);
      TopIsBit(b, k - 1);
      StepFeeds(FeedBits(v, ByteBits(b)[..k-1], poly), UpTimes(b, k - 1), poly);
      assert ByteBits(b)[..k][..k-1] == ByteBits(b)[..k-1];
    }
  }

  /** Feeding a byte feeds its bits, the highest first. */
  lemma FeedIsBits(v: bv32, b: bv8, poly: bv32)
    ensures C.Feed(v, b, poly) == FeedBits(v, ByteBits(b), poly)
  {
    hide C.EightSteps, C.Xor, C.AtTop, StepTimes, UpTimes, FeedBits, ByteBits;
    EightIsTimes(C.Xor(v, C.AtTop(b)), poly);
    StepsFeed(v, b, 8, poly);
    UpEight(b);
    RawFeed(v, b);
    C.XorSelf(FeedBits(v, ByteBits(b), poly));
    assert ByteBits(b)[..8] == ByteBits(b);
  }

  // ----- Messages -----

  lemma {:induction false} DividesMore(bits: seq<bool>, w: seq<bool>, start: bv32, q: seq<bool>, reg: bv32, poly: bv32) returns (more: seq<bool>)
    requires Divides(bits, start, q, reg, poly)
    ensures Divides(bits + w, start, more, FeedBits(reg, w, poly), poly)
  {
    hide Divides, FeedBit;
    if w == [] {
      assert bits + w == bits;
      more := q;
    } else {
      var front, b := w[..|w|-1], w[|w|-1];
      var q' := DividesMore(bits, front, start, q, reg, poly);
      DividesNext(bits + front, start, q', FeedBits(reg, front, poly), b, poly);
      assert (bits + front) + [b] == bits + w;
      more := q' + [Msb(FeedBits(reg, front, poly)) != b];
    }
  }

  /**
   * The register after a message is the remainder, of degree below 32, when the message's bits times x^32, the start value
   * added to the first 32, are divided by x^32 and the polynomial over GF(2).
   */
  lemma {:induction false} SerialIsRemainder(start: bv32, s: seq<bv8>, poly: bv32) returns (q: seq<bool>)
    ensures Divides(SeqBits(s), start, q, C.Serial(start, s, poly), poly)
  {
    hide Divides, FeedBits, C.Feed, ByteBits;
    if s == [] {
      DividesStart(start, poly);
      q := [];
    } else {
      var front, b := s[..|s|-1], s[|s|-1];
      var q' := SerialIsRemainder(start, front, poly);
      FeedIsBits(C.Serial(start, front, poly), b, poly);
      q := DividesMore(SeqBits(front), ByteBits(b), start, q', C.Serial(start, front, poly), poly);
    }
  }
}
