/** Counting the set bits of a 16-bit word by four masked additions. */
module PopCount {

  function And(u: bv16, m: bv16): bv16 { u & m }

  function Shr1(u: bv16): bv16 { u >> 1 }

  predicate LowBit(u: bv16) { u & 1 != 0 }

  function Double(o: bv16): bv16 { o << 1 }

  /** 1 << i. */
  function One(i: nat): bv16 { if i == 0 then 1 else Double(One(i - 1)) }

  /** Bit i of a word, as the code tests it. */
  predicate Has(u: bv16, i: nat) { And(u, One(i)) != 0 }

  /** (1 << i) - 1, the mask of the bits below i. */
  function Below(i: nat): bv16 { One(i) - 1 }

  /** The four masked additions. */
  function FourAdds(u: bv16): bv16 {
    LastAdds(FirstAdds(u))
  }

  function FirstAdds(u: bv16): bv16 {
    var a := (u & 0x5555) + ((u & 0xAAAA) >> 1);
    (a & 0x3333) + ((a & 0xCCCC) >> 2)
  }

  function LastAdds(b: bv16): bv16 {
    var c := (b & 0x0F0F) + ((b & 0xF0F0) >> 4);
    (c & 0x00FF) + (c >> 8)
  }

  /** Number of set bits among the low n. */
  function Count(u: bv16, n: nat): nat {
    if n == 0 then 0 else (if LowBit(u) then 1 else 0) + Count(Shr1(u), n - 1)
  }

  // ----- Small words as numbers -----

  /** A word of at most 16 as a number. */
  function ToNat(v: bv16): nat {
    if v == 0 then 0 else if v == 1 then 1 else if v == 2 then 2 else if v == 3 then 3 else if v == 4 then 4
    else if v == 5 then 5 else if v == 6 then 6 else if v == 7 then 7 else if v == 8 then 8 else if v == 9 then 9
    else if v == 10 then 10 else if v == 11 then 11 else if v == 12 then 12 else if v == 13 then 13
    else if v == 14 then 14 else if v == 15 then 15 else 16
  }

  lemma AddSmall(a: bv16, b: bv16)
    requires a <= 12 && b <= 4
    ensures ToNat(a + b) == ToNat(a) + ToNat(b) && a + b <= a + 4
  {
  }

  // ----- The additions compute the count -----

  function Sum4(a: bv16, b: bv16, c: bv16, d: bv16): bv16 { a + b + c + d }

  function Hex(u: bv16): bv16 { u >> 4 }

  predicate AtMost16(u: bv16) { u <= 16 }

  predicate Small(u: bv16) { u <= 4 }

  /** The set bits of the lowest hexadecimal digit, as a word. */
  function Nibble(u: bv16): bv16 { (u & 1) + ((u >> 1) & 1) + ((u >> 2) & 1) + ((u >> 3) & 1) }

  function Digits(a: bv16, b: bv16, c: bv16, d: bv16): bv16 { a | (b << 4) | (c << 8) | (d << 12) }

  lemma RawFirst(u: bv16)
    ensures FirstAdds(u) == Digits(Nibble(u), Nibble(Hex(u)), Nibble(Hex(Hex(u))), Nibble(Hex(Hex(Hex(u)))))
  {
  }

  lemma RawNibbleSmall(u: bv16)
    ensures Small(Nibble(u))
  {
  }

  lemma RawLast(a: bv16, b: bv16, c: bv16, d: bv16)
    requires Small(a) && Small(b) && Small(c) && Small(d)
    ensures LastAdds(Digits(a, b, c, d)) == Sum4(a, b, c, d)
  {
  }

  lemma FourAddsByNibbles(u: bv16)
    ensures FourAdds(u) == Sum4(Nibble(u), Nibble(Hex(u)), Nibble(Hex(Hex(u))), Nibble(Hex(Hex(Hex(u)))))
  {
    RawFirst(u);
    RawNibbleSmall(u);
    RawNibbleSmall(Hex(u));
    RawNibbleSmall(Hex(Hex(u)));
    RawNibbleSmall(Hex(Hex(Hex(u))));
    hide FirstAdds, LastAdds, Nibble, Digits, Sum4, Hex, Small;
    RawLast(Nibble(u), Nibble(Hex(u)), Nibble(Hex(Hex(u))), Nibble(Hex(Hex(Hex(u)))));
  }

  function Unit(u: bv16): nat { if LowBit(u) then 1 else 0 }

  lemma RawUnits(u: bv16)
    ensures ToNat(Nibble(u)) == Unit(u) + Unit(u >> 1) + Unit(u >> 2) + Unit(u >> 3)
  {
  }

  lemma RawShifts(u: bv16)
    ensures Shr1(u) == u >> 1 && Shr1(u >> 1) == u >> 2 && Shr1(u >> 2) == u >> 3 && Shr1(u >> 3) == u >> 4
  {
  }

  lemma CountNibble(u: bv16, n: nat)
    requires n >= 4
    ensures Count(u, n) == ToNat(Nibble(u)) + Count(Hex(u), n - 4)
  {
    RawUnits(u);
    RawShifts(u);
    hide Nibble, ToNat, Shr1, LowBit;
    assert Count(u, n) == Unit(u) + Count(u >> 1, n - 1);
    assert Count(u >> 1, n - 1) == Unit(u >> 1) + Count(u >> 2, n - 2);
    assert Count(u >> 2, n - 2) == Unit(u >> 2) + Count(u >> 3, n - 3);
    assert Count(u >> 3, n - 3) == Unit(u >> 3) + Count(u >> 4, n - 4);
  }

  lemma SumSmall(a: bv16, b: bv16, c: bv16, d: bv16)
    requires Small(a) && Small(b) && Small(c) && Small(d)
    ensures ToNat(Sum4(a, b, c, d)) == ToNat(a) + ToNat(b) + ToNat(c) + ToNat(d)
    ensures AtMost16(Sum4(a, b, c, d))
  {
    AddSmall(a, b);
    AddSmall(a + b, c);
    AddSmall(a + b + c, d);
  }

  /** The four masked additions count the set bits. */
  lemma FourAddsCounts(u: bv16)
    ensures AtMost16(FourAdds(u)) && ToNat(FourAdds(u)) == Count(u, 16)
  {
    hide AtMost16, FourAdds, Nibble, Hex, Sum4, ToNat, Small;
    FourAddsByNibbles(u);
    RawNibbleSmall(u);
    RawNibbleSmall(Hex(u));
    RawNibbleSmall(Hex(Hex(u)));
    RawNibbleSmall(Hex(Hex(Hex(u))));
    SumSmall(Nibble(u), Nibble(Hex(u)), Nibble(Hex(Hex(u))), Nibble(Hex(Hex(Hex(u)))));
    CountNibble(u, 16);
    CountNibble(Hex(u), 12);
    CountNibble(Hex(Hex(u)), 8);
    CountNibble(Hex(Hex(Hex(u))), 4);
  }

  // ----- Counting below a bit -----

  function Grow(m: bv16): bv16 { (m << 1) | 1 }

  lemma RawMaskLow(u: bv16, m: bv16)
    ensures LowBit(And(u, Grow(m))) == LowBit(u)
    ensures Shr1(And(u, Grow(m))) == And(Shr1(u), m)
    ensures And(u, 0) == 0 && !LowBit(0) && Shr1(0) == 0
  {
  }

  lemma RawOne(o: bv16)
    ensures Double(o) - 1 == Grow(o - 1)
  {
  }

  lemma {:induction false} CountZero(n: nat)
    ensures Count(0, n) == 0
  {
    RawMaskLow(0, 0);
    hide Shr1, LowBit;
    if n > 0 { CountZero(n - 1); }
  }

  lemma BelowStep(i: nat)
    ensures Below(0) == 0 && Below(i + 1) == Grow(Below(i))
  {
    RawOne(One(i));
    hide Grow, Double;
  }

  /** Keeping only the bits below i, the word counts the set bits below i. */
  lemma {:induction false} CountMasked(u: bv16, i: nat, n: nat)
    requires i <= n
    ensures Count(And(u, Below(i)), n) == Count(u, i)
    decreases n
  {
    hide Shr1, LowBit, And, Below, Grow;
    BelowStep(if i == 0 then 0 else i - 1);
    if i == 0 {
      RawMaskLow(u, 0);
      CountZero(n);
    } else {
      RawMaskLow(u, Below(i - 1));
      CountMasked(Shr1(u), i - 1, n - 1);
    }
  }

  lemma RawHas(u: bv16, o: bv16)
    ensures And(u, Double(o)) != 0 <==> And(Shr1(u), o) != 0
    ensures And(u, 1) != 0 <==> LowBit(u)
  {
  }

  /** One more position counts one more when its bit is set. */
  lemma {:induction false} CountStep(u: bv16, i: nat)
    ensures Count(u, i + 1) == Count(u, i) + if Has(u, i) then 1 else 0
    decreases i
  {
    RawHas(u, if i == 0 then 1 else One(i - 1));
    hide Shr1, LowBit, And, Double;
    if i > 0 {
      CountStep(Shr1(u), i - 1);
    } else {
      assert Count(u, 1) == (if LowBit(u) then 1 else 0) + Count(Shr1(u), 0);
    }
  }
}
