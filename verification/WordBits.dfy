/** 32-bit words as rows of bits, most significant bit first, one byte at a time. */
module WordBits {

  function ByteBits(b: bv8): (r: seq<bool>)
    ensures |r| == 8
  {
    [b & 0x80 != 0, b & 0x40 != 0, b & 0x20 != 0, b & 0x10 != 0, b & 0x08 != 0, b & 0x04 != 0, b & 0x02 != 0, b & 0x01 != 0]
  }

  /** The bits of a string of bytes. */
  function SeqBits(s: seq<bv8>): (r: seq<bool>)
    ensures |r| == 8 * |s|
  {
    if s == [] then [] else SeqBits(s[..|s|-1]) + ByteBits(s[|s|-1])
  }

  function Zeros(n: nat): (r: seq<bool>)
    ensures |r| == n && forall i :: 0 <= i < n ==> !r[i]
  {
    seq(n, i => false)
  }

  /** Byte k of a word, counted from the top. */
  function ByteOf(v: bv32, k: nat): bv8 {
    if k == 0 then ((v >> 24) & 0xFF) as bv8
    else if k == 1 then ((v >> 16) & 0xFF) as bv8
    else if k == 2 then ((v >> 8) & 0xFF) as bv8
    else (v & 0xFF) as bv8
  }

  function Load(b0: bv8, b1: bv8, b2: bv8, b3: bv8): bv32 {
    ((b0 as bv32) << 24) | ((b1 as bv32) << 16) | ((b2 as bv32) << 8) | (b3 as bv32)
  }

  function Bits(v: bv32): (r: seq<bool>)
    ensures |r| == 32
  {
    ByteBits(ByteOf(v, 0)) + ByteBits(ByteOf(v, 1)) + ByteBits(ByteOf(v, 2)) + ByteBits(ByteOf(v, 3))
  }

  predicate Msb(v: bv32) { v & 0x8000_0000 != 0 }

  function Up(v: bv32): bv32 { v << 1 }

  /** Shift left by one, a new bit entering at the right. */
  function ShiftIn(v: bv32, bit: bool): bv32 {
    ((v << 1) & 0xFFFF_FFFE) | (if bit then 1 else 0)
  }

  /** Shift right by one, a new bit entering at the top. */
  function ShiftDown(v: bv32, top: bool): bv32 {
    (if top then 0x8000_0000 else 0) | (v >> 1)
  }

  function Or(a: bv32, b: bv32): bv32 { a | b }

  function And(a: bv32, b: bv32): bv32 { a & b }

  function Down(v: bv32): bv32 { v >> 1 }

  predicate Top8(b: bv8) { b & 0x80 != 0 }

  predicate Low8(b: bv8) { b & 0x01 != 0 }

  function Up8(b: bv8, bit: bool): bv8 { (b << 1) | (if bit then 1 else 0) }

  function Down8(b: bv8, top: bool): bv8 { (b >> 1) | (if top then 0x80 else 0) }

  lemma Up8Bits(b: bv8, bit: bool)
    ensures ByteBits(Up8(b, bit)) == ByteBits(b)[1..] + [bit]
    ensures ByteBits(b)[0] == Top8(b)
  {
  }

  lemma Down8Bits(b: bv8, top: bool)
    ensures ByteBits(Down8(b, top)) == [top] + ByteBits(b)[..7]
    ensures ByteBits(b)[7] == Low8(b)
  {
  }

  lemma ShiftInBytes(v: bv32, bit: bool)
    ensures ByteOf(ShiftIn(v, bit), 0) == Up8(ByteOf(v, 0), Top8(ByteOf(v, 1)))
    ensures ByteOf(ShiftIn(v, bit), 1) == Up8(ByteOf(v, 1), Top8(ByteOf(v, 2)))
    ensures ByteOf(ShiftIn(v, bit), 2) == Up8(ByteOf(v, 2), Top8(ByteOf(v, 3)))
    ensures ByteOf(ShiftIn(v, bit), 3) == Up8(ByteOf(v, 3), bit)
  {
  }

  lemma ShiftDownBytes(v: bv32, top: bool)
    ensures ByteOf(ShiftDown(v, top), 0) == Down8(ByteOf(v, 0), top)
    ensures ByteOf(ShiftDown(v, top), 1) == Down8(ByteOf(v, 1), Low8(ByteOf(v, 0)))
    ensures ByteOf(ShiftDown(v, top), 2) == Down8(ByteOf(v, 2), Low8(ByteOf(v, 1)))
    ensures ByteOf(ShiftDown(v, top), 3) == Down8(ByteOf(v, 3), Low8(ByteOf(v, 2)))
  {
  }

  lemma RowsUp(x0: seq<bool>, x1: seq<bool>, x2: seq<bool>, x3: seq<bool>, bit: bool)
    requires |x0| == 8 && |x1| == 8 && |x2| == 8 && |x3| == 8
    ensures (x0[1..] + [x1[0]]) + (x1[1..] + [x2[0]]) + (x2[1..] + [x3[0]]) + (x3[1..] + [bit]) == (x0 + x1 + x2 + x3)[1..] + [bit]
  {
    assert [x1[0]] + x1[1..] == x1 && [x2[0]] + x2[1..] == x2 && [x3[0]] + x3[1..] == x3;
    assert (x0 + x1 + x2 + x3)[1..] == x0[1..] + x1 + x2 + x3;
  }

  lemma RowsDown(x0: seq<bool>, x1: seq<bool>, x2: seq<bool>, x3: seq<bool>, top: bool)
    requires |x0| == 8 && |x1| == 8 && |x2| == 8 && |x3| == 8
    ensures ([top] + x0[..7]) + ([x0[7]] + x1[..7]) + ([x1[7]] + x2[..7]) + ([x2[7]] + x3[..7]) == [top] + (x0 + x1 + x2 + x3)[..31]
  {
    assert x0[..7] + [x0[7]] == x0 && x1[..7] + [x1[7]] == x1 && x2[..7] + [x2[7]] == x2;
    assert (x0 + x1 + x2 + x3)[..31] == x0 + x1 + x2 + x3[..7];
  }

  lemma BitsShiftIn(v: bv32, bit: bool)
    ensures Bits(ShiftIn(v, bit)) == Bits(v)[1..] + [bit]
  {
    hide ByteBits, ByteOf, ShiftIn, Up8, Top8;
    ShiftInBytes(v, bit);
    Up8Bits(ByteOf(v, 0), Top8(ByteOf(v, 1)));
    Up8Bits(ByteOf(v, 1), Top8(ByteOf(v, 2)));
    Up8Bits(ByteOf(v, 2), Top8(ByteOf(v, 3)));
    Up8Bits(ByteOf(v, 3), bit);
    RowsUp(ByteBits(ByteOf(v, 0)), ByteBits(ByteOf(v, 1)), ByteBits(ByteOf(v, 2)), ByteBits(ByteOf(v, 3)), bit);
  }

  lemma BitsShiftDown(v: bv32, top: bool)
    ensures Bits(ShiftDown(v, top)) == [top] + Bits(v)[..31]
  {
    hide ByteBits, ByteOf, ShiftDown, Down8, Low8;
    ShiftDownBytes(v, top);
    Down8Bits(ByteOf(v, 0), top);
    Down8Bits(ByteOf(v, 1), Low8(ByteOf(v, 0)));
    Down8Bits(ByteOf(v, 2), Low8(ByteOf(v, 1)));
    Down8Bits(ByteOf(v, 3), Low8(ByteOf(v, 2)));
    RowsDown(ByteBits(ByteOf(v, 0)), ByteBits(ByteOf(v, 1)), ByteBits(ByteOf(v, 2)), ByteBits(ByteOf(v, 3)), top);
  }

  lemma LoadBytes(b0: bv8, b1: bv8, b2: bv8, b3: bv8)
    ensures ByteOf(Load(b0, b1, b2, b3), 0) == b0 && ByteOf(Load(b0, b1, b2, b3), 1) == b1
    ensures ByteOf(Load(b0, b1, b2, b3), 2) == b2 && ByteOf(Load(b0, b1, b2, b3), 3) == b3
  {
  }

  lemma BytesLoad(v: bv32)
    ensures v == Load(ByteOf(v, 0), ByteOf(v, 1), ByteOf(v, 2), ByteOf(v, 3))
  {
  }

  lemma BitsLoad(b0: bv8, b1: bv8, b2: bv8, b3: bv8)
    ensures Bits(Load(b0, b1, b2, b3)) == ByteBits(b0) + ByteBits(b1) + ByteBits(b2) + ByteBits(b3)
  {
    hide ByteBits, ByteOf, Load;
    LoadBytes(b0, b1, b2, b3);
  }

  lemma ByteBitsInjective(a: bv8, b: bv8)
    requires ByteBits(a) == ByteBits(b)
    ensures a == b
  {
  }

  lemma RowsEqual(x0: seq<bool>, x1: seq<bool>, x2: seq<bool>, x3: seq<bool>, y0: seq<bool>, y1: seq<bool>, y2: seq<bool>, y3: seq<bool>)
    requires |x0| == |x1| == |x2| == |x3| == |y0| == |y1| == |y2| == |y3|
    requires x0 + x1 + x2 + x3 == y0 + y1 + y2 + y3
    ensures x0 == y0 && x1 == y1 && x2 == y2 && x3 == y3
  {
    var n := |x0|;
    var x, y := x0 + x1 + x2 + x3, y0 + y1 + y2 + y3;
    assert x0 == x[..n] && x1 == x[n..2*n] && x2 == x[2*n..3*n] && x3 == x[3*n..];
    assert y0 == y[..n] && y1 == y[n..2*n] && y2 == y[2*n..3*n] && y3 == y[3*n..];
  }

  lemma BitsInjective(v: bv32, w: bv32)
    requires Bits(v) == Bits(w)
    ensures v == w
  {
    hide ByteBits, ByteOf, Load;
    RowsEqual(ByteBits(ByteOf(v, 0)), ByteBits(ByteOf(v, 1)), ByteBits(ByteOf(v, 2)), ByteBits(ByteOf(v, 3)),
              ByteBits(ByteOf(w, 0)), ByteBits(ByteOf(w, 1)), ByteBits(ByteOf(w, 2)), ByteBits(ByteOf(w, 3)));
    ByteBitsInjective(ByteOf(v, 0), ByteOf(w, 0));
    ByteBitsInjective(ByteOf(v, 1), ByteOf(w, 1));
    ByteBitsInjective(ByteOf(v, 2), ByteOf(w, 2));
    ByteBitsInjective(ByteOf(v, 3), ByteOf(w, 3));
    BytesLoad(v);
    BytesLoad(w);
  }

  lemma TopByteBits(v: bv32)
    ensures ByteBits(ByteOf(v, 0)) == Bits(v)[..8]
  {
    hide ByteBits, ByteOf;
  }

  lemma ByteBitsZero()
    ensures ByteBits(0) == [false, false, false, false, false, false, false, false]
    ensures ByteOf(0, 0) == 0 && ByteOf(0, 1) == 0 && ByteOf(0, 2) == 0 && ByteOf(0, 3) == 0
  {
  }

  /** A word is zero exactly when none of its bits is set. */
  lemma BitsZero(v: bv32)
    ensures v == 0 <==> forall i :: 0 <= i < 32 ==> !Bits(v)[i]
  {
    hide ByteBits, ByteOf;
    ByteBitsZero();
    assert forall i :: 0 <= i < 32 ==> !Bits(0)[i];
    if forall i :: 0 <= i < 32 ==> !Bits(v)[i] {
      assert Bits(v) == Bits(0);
      BitsInjective(v, 0);
    }
  }

  lemma RawRebuild(v: bv32)
    ensures ShiftDown(Up(v), Msb(v)) == v
  {
  }

  lemma RawMask(v: bv32, m: bv32)
    ensures Up(And(v, ShiftDown(m, true))) == And(Up(v), m)
    ensures Msb(And(v, ShiftDown(m, true))) == Msb(v)
  {
  }

  /** A comparison under a mask, bit by bit from the top. */
  lemma MaskStep(v: bv32, e: bv32, m: bv32)
    ensures And(v, ShiftDown(m, true)) == e <==> Msb(v) == Msb(e) && And(Up(v), m) == Up(e)
  {
    hide ShiftDown, Msb, Up, And;
    RawMask(v, m);
    RawRebuild(And(v, ShiftDown(m, true)));
    RawRebuild(e);
  }

  lemma RawUp(v: bv32)
    ensures Up(v) == ShiftIn(v, false)
    ensures Msb(v) == Top8(ByteOf(v, 0))
  {
  }

  lemma BitsUp(v: bv32)
    ensures Bits(Up(v)) == Bits(v)[1..] + [false]
    ensures Bits(v)[0] == Msb(v)
  {
    RawUp(v);
    Up8Bits(ByteOf(v, 0), false);
    hide ByteBits, ByteOf, ShiftIn, Up, Msb, Top8;
    BitsShiftIn(v, false);
  }

  /** Bit k of a byte, counted from the top. */
  function BitAt(b: bv8, k: nat): bool {
    if k == 0 then (b >> 7) & 1 != 0 else if k == 1 then (b >> 6) & 1 != 0
    else if k == 2 then (b >> 5) & 1 != 0 else if k == 3 then (b >> 4) & 1 != 0
    else if k == 4 then (b >> 3) & 1 != 0 else if k == 5 then (b >> 2) & 1 != 0
    else if k == 6 then (b >> 1) & 1 != 0 else b & 1 != 0
  }

  lemma BitAtIsBit(b: bv8, k: nat)
    requires k < 8
    ensures BitAt(b, k) == ByteBits(b)[k]
  {
  }

  /** The byte with the given bits. */
  function ByteFrom(w: seq<bool>): bv8
    requires |w| == 8
  {
    (if w[0] then 0x80 else 0) | (if w[1] then 0x40 else 0) | (if w[2] then 0x20 else 0) | (if w[3] then 0x10 else 0)
    | (if w[4] then 0x08 else 0) | (if w[5] then 0x04 else 0) | (if w[6] then 0x02 else 0) | (if w[7] then 0x01 else 0)
  }

  lemma ByteFromBits(b: bv8)
    ensures ByteFrom(ByteBits(b)) == b
  {
  }
}
