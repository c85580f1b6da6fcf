/** The table-driven CRC and the bit-serial shift register it stands for. */
module Crc32 {

  // The register operations have names so that proofs about whole messages need not look at bits.

  function Xor(a: bv32, b: bv32): bv32 { a ^ b }

  function Shl1(v: bv32): bv32 { v << 1 }

  function Shl8(v: bv32): bv32 { v << 8 }

  function TopByte(v: bv32): bv8 { (v >> 24) as bv8 }

  /** A byte at the top of the register. */
  function AtTop(b: bv8): bv32 { (b as bv32) << 24 }

  predicate Msb(v: bv32) { v & 0x8000_0000 != 0 }

  /** One shift of the register, most significant bit first. */
  function BitStep(v: bv32, poly: bv32): bv32 {
    if Msb(v) then Xor(Shl1(v), poly) else Shl1(v)
  }

  function EightSteps(v: bv32, poly: bv32): bv32 {
    var v1 := BitStep(v, poly);
    var v2 := BitStep(v1, poly);
    var v3 := BitStep(v2, poly);
    var v4 := BitStep(v3, poly);
    var v5 := BitStep(v4, poly);
    var v6 := BitStep(v5, poly);
    var v7 := BitStep(v6, poly);
    BitStep(v7, poly)
  }

  /** A table holds, for every byte, eight shifts of that byte at the top of the register. */
  ghost predicate TableFor(table: bv8 -> bv32, poly: bv32) {
    forall b: bv8 :: table(b) == EightSteps(AtTop(b), poly)
  }

  /** One byte into the register: fed in at the top, then shifted through bit by bit. */
  function Feed(v: bv32, b: bv8, poly: bv32): bv32 { EightSteps(Xor(v, AtTop(b)), poly) }

  /** The register after the bytes s. */
  function Serial(v: bv32, s: seq<bv8>, poly: bv32): bv32 {
    if s == [] then v else Feed(Serial(v, s[..|s|-1], poly), s[|s|-1], poly)
  }

  // ----- Bits -----

  lemma RawXor(a: bv32, b: bv32, p: bv32)
    ensures (a ^ b) ^ p == a ^ (b ^ p)
    ensures a ^ b == b ^ a
    ensures p ^ p == 0 && a ^ 0 == a
  {
  }

  lemma RawShift(a: bv32, b: bv32)
    ensures (a ^ b) << 1 == (a << 1) ^ (b << 1)
  {
  }

  lemma RawMsb(a: bv32, b: bv32)
    ensures (a ^ b) & 0x8000_0000 != 0 <==> (a & 0x8000_0000 != 0) != (b & 0x8000_0000 != 0)
  {
  }

  lemma XorBits(a: bv32, b: bv32)
    ensures Shl1(Xor(a, b)) == Xor(Shl1(a), Shl1(b))
    ensures Msb(Xor(a, b)) <==> Msb(a) != Msb(b)
  {
    RawShift(a, b);
    RawMsb(a, b);
  }

  lemma XorAssoc(a: bv32, b: bv32, p: bv32)
    ensures Xor(Xor(a, b), p) == Xor(a, Xor(b, p)) && Xor(a, b) == Xor(b, a)
  {
    RawXor(a, b, p);
  }

  lemma XorSelf(a: bv32)
    ensures Xor(a, a) == 0 && Xor(a, 0) == a
  {
    RawXor(a, a, a);
  }

  lemma XorAlgebra(a: bv32, b: bv32, p: bv32)
    ensures Xor(Xor(a, p), Xor(b, p)) == Xor(a, b)
    ensures Xor(Xor(a, p), b) == Xor(Xor(a, b), p) && Xor(a, Xor(b, p)) == Xor(Xor(a, b), p)
    ensures Xor(a, b) == Xor(b, a)
  {
    hide Xor;
    XorAssoc(a, b, p);
    XorAssoc(a, p, b);
    XorAssoc(b, p, a);
    XorAssoc(a, p, Xor(b, p));
    XorAssoc(p, b, p);
    XorAssoc(b, p, p);
    XorAssoc(p, Xor(b, p), a);
    XorSelf(p);
    XorSelf(b);
  }

  lemma BitStepLinear(a: bv32, b: bv32, poly: bv32)
    ensures BitStep(Xor(a, b), poly) == Xor(BitStep(a, poly), BitStep(b, poly))
  {
    XorBits(a, b);
    XorAlgebra(Shl1(a), Shl1(b), poly);
    hide Xor, Shl1, Msb;
  }

  lemma EightStepsLinear(a: bv32, b: bv32, poly: bv32)
    ensures EightSteps(Xor(a, b), poly) == Xor(EightSteps(a, poly), EightSteps(b, poly))
  {
    hide BitStep, Xor;
    var x, y := a, b;
    BitStepLinear(x, y, poly); x, y := BitStep(x, poly), BitStep(y, poly);
    BitStepLinear(x, y, poly); x, y := BitStep(x, poly), BitStep(y, poly);
    BitStepLinear(x, y, poly); x, y := BitStep(x, poly), BitStep(y, poly);
    BitStepLinear(x, y, poly); x, y := BitStep(x, poly), BitStep(y, poly);
    BitStepLinear(x, y, poly); x, y := BitStep(x, poly), BitStep(y, poly);
    BitStepLinear(x, y, poly); x, y := BitStep(x, poly), BitStep(y, poly);
    BitStepLinear(x, y, poly); x, y := BitStep(x, poly), BitStep(y, poly);
    BitStepLinear(x, y, poly);
  }

  predicate Clear(v: bv32, mask: bv32) { v & mask == 0 }

  /** While the masked top bits are clear, a step only shifts. */
  lemma BitStepShifts(v: bv32, mask: bv32, poly: bv32)
    requires Clear(v, mask) && Msb(mask)
    ensures BitStep(v, poly) == Shl1(v) && Clear(Shl1(v), Shl1(mask))
  {
    hide Xor;
    assert !Msb(v);
  }

  lemma Shl1EightTimes(v: bv32)
    ensures Shl1(Shl1(Shl1(Shl1(Shl1(Shl1(Shl1(Shl1(v)))))))) == Shl8(v)
  {
  }

  lemma TopMasks()
    ensures Msb(0xFF00_0000) && Msb(0xFE00_0000) && Msb(0xFC00_0000) && Msb(0xF800_0000)
    ensures Msb(0xF000_0000) && Msb(0xE000_0000) && Msb(0xC000_0000) && Msb(0x8000_0000)
    ensures Shl1(0xFF00_0000) == 0xFE00_0000 && Shl1(0xFE00_0000) == 0xFC00_0000 && Shl1(0xFC00_0000) == 0xF800_0000
    ensures Shl1(0xF800_0000) == 0xF000_0000 && Shl1(0xF000_0000) == 0xE000_0000 && Shl1(0xE000_0000) == 0xC000_0000
    ensures Shl1(0xC000_0000) == 0x8000_0000
  {
  }

  /** With the top byte clear, eight steps only shift. */
  lemma EightStepsShift(v: bv32, poly: bv32)
    requires Clear(v, 0xFF00_0000)
    ensures EightSteps(v, poly) == Shl8(v)
  {
    TopMasks();
    Shl1EightTimes(v);
    hide BitStep, Shl1, Shl8, Clear, Msb;
    var x := v;
    BitStepShifts(x, 0xFF00_0000, poly); x := Shl1(x);
    BitStepShifts(x, 0xFE00_0000, poly); x := Shl1(x);
    BitStepShifts(x, 0xFC00_0000, poly); x := Shl1(x);
    BitStepShifts(x, 0xF800_0000, poly); x := Shl1(x);
    BitStepShifts(x, 0xF000_0000, poly); x := Shl1(x);
    BitStepShifts(x, 0xE000_0000, poly); x := Shl1(x);
    BitStepShifts(x, 0xC000_0000, poly); x := Shl1(x);
    BitStepShifts(x, 0x8000_0000, poly);
  }

  function Low(v: bv32): bv32 { v & 0x00FF_FFFF }

  function XorByte(a: bv8, b: bv8): bv8 { a ^ b }

  lemma RawSplit(v: bv32, b: bv8)
    ensures v == (((v >> 24) as bv8 as bv32) << 24) ^ (v & 0x00FF_FFFF)
  {
  }

  lemma RawTop(a: bv8, b: bv8)
    ensures ((a ^ b) as bv32) << 24 == ((a as bv32) << 24) ^ ((b as bv32) << 24)
  {
  }

  lemma TopAndLow(v: bv32, b: bv8)
    ensures v == Xor(AtTop(TopByte(v)), Low(v))
    ensures AtTop(XorByte(TopByte(v), b)) == Xor(AtTop(TopByte(v)), AtTop(b))
  {
    RawSplit(v, b);
    RawTop(TopByte(v), b);
  }

  lemma SplitTop(v: bv32, b: bv8)
    ensures Xor(v, AtTop(b)) == Xor(AtTop(XorByte(TopByte(v), b)), Low(v))
  {
    hide Xor, AtTop, TopByte, Low, XorByte;
    TopAndLow(v, b);
    XorAlgebra(AtTop(TopByte(v)), AtTop(b), Low(v));
    XorAlgebra(AtTop(TopByte(v)), Low(v), AtTop(b));
  }

  lemma LowClear(v: bv32)
    ensures Clear(Low(v), 0xFF00_0000) && Shl8(Low(v)) == Shl8(v)
  {
  }

  // ----- Bytes and messages -----

  /** One table look-up does the work of eight shifts. */
  lemma TableStep(table: bv8 -> bv32, v: bv32, b: bv8, poly: bv32)
    requires TableFor(table, poly)
    ensures Xor(Shl8(v), table(XorByte(TopByte(v), b))) == Feed(v, b, poly)
  {
    hide Xor, Shl8, TopByte, AtTop, Low, XorByte, EightSteps, Clear;
    var top := XorByte(TopByte(v), b);
    assert table(top) == EightSteps(AtTop(top), poly);
    SplitTop(v, b);
    LowClear(v);
    EightStepsShift(Low(v), poly);
    EightStepsLinear(AtTop(top), Low(v), poly);
    XorAlgebra(Shl8(v), table(top), Low(v));
  }

  /** The bytes a length selects: none when it is not positive. */
  function Prefix(s: seq<bv8>, len: int): seq<bv8>
    requires len <= |s|
  {
    if len < 0 then [] else s[..len]
  }

  lemma SerialPush(v: bv32, s: seq<bv8>, b: bv8, poly: bv32)
    ensures Serial(v, s + [b], poly) == Feed(Serial(v, s, poly), b, poly)
  {
    hide Feed;
    assert (s + [b])[..|s|] == s;
  }

  /** The table loop computes the bit-serial register, for any polynomial and any table built for it. */
  method Crc(val0: bv32, s: seq<bv8>, len0: int, table: bv8 -> bv32, ghost poly: bv32) returns (val: bv32)
    requires len0 <= |s| && TableFor(table, poly)
    ensures val == Serial(val0, Prefix(s, len0), poly)
  {
    hide Feed, TableFor, Xor, Shl8, XorByte, TopByte;
    val := val0;
    var len, at := len0 - 1, 0;
    while len >= 0
      invariant 0 <= at && (if len0 < 0 then at == 0 && len < 0 else at <= len0 && len == len0 - at - 1)
      invariant val == Serial(val0, s[..at], poly)
    {
      hide Serial;
      TableStep(table, val, s[at], poly);
      SerialPush(val0, s[..at], s[at], poly);
      assert s[..at] + [s[at]] == s[..at+1];
      val := Xor(Shl8(val), table(XorByte(TopByte(val), s[at])));
      at := at + 1;
      len := len - 1;
    }
    hide Serial;
    assert s[..at] == Prefix(s, len0);
  }

  /** Running on from an earlier result is running over the concatenation. */
  lemma {:induction false} SerialConcat(v: bv32, s: seq<bv8>, t: seq<bv8>, poly: bv32)
    ensures Serial(v, s + t, poly) == Serial(Serial(v, s, poly), t, poly)
  {
    hide Feed;
    if t == [] {
      assert s + t == s;
    } else {
      assert (s + t)[..|s + t|-1] == s + t[..|t|-1];
      SerialConcat(v, s, t[..|t|-1], poly);
    }
  }

  function XorSeq(s: seq<bv8>, t: seq<bv8>): (r: seq<bv8>)
    requires |s| == |t|
    ensures |r| == |s| && forall i :: 0 <= i < |s| ==> r[i] == XorByte(s[i], t[i])
  {
    seq(|s|, i requires 0 <= i < |s| => XorByte(s[i], t[i]))
  }

  lemma XorFeed(a: bv32, b: bv32, x: bv8, y: bv8)
    ensures Xor(Xor(a, b), AtTop(XorByte(x, y))) == Xor(Xor(a, AtTop(x)), Xor(b, AtTop(y)))
  {
  }

  lemma FeedLinear(a: bv32, b: bv32, x: bv8, y: bv8, poly: bv32)
    ensures Feed(Xor(a, b), XorByte(x, y), poly) == Xor(Feed(a, x, poly), Feed(b, y, poly))
  {
    hide Xor, AtTop, XorByte, EightSteps;
    XorFeed(a, b, x, y);
    EightStepsLinear(Xor(a, AtTop(x)), Xor(b, AtTop(y)), poly);
  }

  /** The register is linear: xor of states and of equal-length inputs gives the xor of results. */
  lemma {:induction false} SerialLinear(v: bv32, w: bv32, s: seq<bv8>, t: seq<bv8>, poly: bv32)
    requires |s| == |t|
    ensures Serial(Xor(v, w), XorSeq(s, t), poly) == Xor(Serial(v, s, poly), Serial(w, t, poly))
  {
    hide Feed, Xor, XorByte;
    if s != [] {
      var n := |s| - 1;
      SerialLinear(v, w, s[..n], t[..n], poly);
      assert XorSeq(s, t)[..n] == XorSeq(s[..n], t[..n]);
      FeedLinear(Serial(v, s[..n], poly), Serial(w, t[..n], poly), s[n], t[n], poly);
    }
  }

  /** The four bytes of a CRC in transmission order. */
  function BigEndian(v: bv32): seq<bv8> {
    [TopByte(v), TopByte(Shl8(v)), TopByte(Shl8(Shl8(v))), TopByte(Shl8(Shl8(Shl8(v))))]
  }

  lemma CancelTop(v: bv32)
    ensures Clear(Xor(v, AtTop(TopByte(v))), 0xFF00_0000) && Shl8(Xor(v, AtTop(TopByte(v)))) == Shl8(v)
  {
  }

  lemma FeedOwnTop(v: bv32, poly: bv32)
    ensures Feed(v, TopByte(v), poly) == Shl8(v)
  {
    hide Xor, AtTop, TopByte, EightSteps, Shl8, Clear;
    CancelTop(v);
    EightStepsShift(Xor(v, AtTop(TopByte(v))), poly);
  }

  lemma FourShifts(v: bv32)
    ensures Shl8(Shl8(Shl8(Shl8(v)))) == 0
  {
  }

  /** Data followed by its own CRC checks to zero, whatever the data, start value and polynomial. */
  lemma OwnCrcGivesZero(v: bv32, s: seq<bv8>, poly: bv32)
    ensures Serial(v, s + BigEndian(Serial(v, s, poly)), poly) == 0
  {
    hide Feed, TopByte, Serial, Shl8;
    var c := Serial(v, s, poly);
    var be := BigEndian(c);
    var s1 := s + [be[0]];
    var s2 := s1 + [be[1]];
    var s3 := s2 + [be[2]];
    assert s + be == s3 + [be[3]];
    SerialPush(v, s, be[0], poly);
    SerialPush(v, s1, be[1], poly);
    SerialPush(v, s2, be[2], poly);
    SerialPush(v, s3, be[3], poly);
    FeedOwnTop(c, poly);
    FeedOwnTop(Shl8(c), poly);
    FeedOwnTop(Shl8(Shl8(c)), poly);
    FeedOwnTop(Shl8(Shl8(Shl8(c))), poly);
    FourShifts(c);
  }
}
