/** The Freesat decoder: a context-dependent prefix code read through a sliding 32-bit window. */
module Freesat {
  import opened Common
  import opened WordBits

  const START: bv8 := 0
  const STOP: bv8 := 0
  const ESCAPE: bv8 := 1

  /** A code of a context: its bits left-aligned in a word, their number, and the character it stands for. */
  datatype Entry = Entry(value: bv32, bits: nat, next: bv8)

  predicate Ascii(c: bv8) { c & 0x80 == 0 }

  // ----- Masks and codes -----

  function RecMask(k: nat): bv32 { if k == 0 then 0 else ShiftDown(RecMask(k - 1), true) }

  function RecBit(k: nat): bv32 { if k == 0 then 0x8000_0000 else ShiftDown(RecBit(k - 1), false) }

  lemma RawShiftDownOr(a: bv32, b: bv32, t: bool)
    ensures Or(ShiftDown(a, t), ShiftDown(b, false)) == ShiftDown(Or(a, b), t)
  {
  }

  lemma RawSmall(a: bv32, t: bool)
    ensures ShiftDown(a, false) == Down(a) && ShiftDown(0, false) == 0
    ensures Or(a, 0) == a && Or(0, a) == a && And(a, 0) == 0
    ensures ShiftDown(0, true) == 0x8000_0000
  {
  }

  lemma {:induction false} MaskGrows(k: nat)
    ensures Or(RecMask(k), RecBit(k)) == RecMask(k + 1)
  {
    hide ShiftDown, Or;
    if k == 0 {
      RawSmall(0x8000_0000, true);
    } else {
      MaskGrows(k - 1);
      RawShiftDownOr(RecMask(k - 1), RecBit(k - 1), true);
    }
  }

  /** The mask of a code of a given length. */
  method MaskOf(bits: nat) returns (mask: bv32)
    ensures mask == RecMask(bits)
  {
    mask := 0;
    var maskbit: bv32 := 0x8000_0000;
    var kk := 0;
    while kk < bits
      invariant 0 <= kk <= bits && mask == RecMask(kk) && maskbit == RecBit(kk)
    {
      hide ShiftDown, Or, Down;
      MaskGrows(kk);
      RawSmall(maskbit, false);
      mask := Or(mask, maskbit);
      maskbit := Down(maskbit);
      kk := kk + 1;
    }
  }

  /** A word under the mask of length k is e exactly when their top k bits agree and e has no others. */
  lemma {:induction false} MaskedEqual(v: bv32, e: bv32, k: nat)
    ensures And(v, RecMask(k)) == e <==> forall i :: 0 <= i < 32 ==> Bits(e)[i] == (i < k && Bits(v)[i])
    decreases k
  {
    hide Bits, Up, Msb, ShiftDown, And;
    if k == 0 {
      RawSmall(v, false);
      BitsZero(e);
    } else {
      MaskStep(v, e, RecMask(k - 1));
      MaskedEqual(Up(v), Up(e), k - 1);
      BitsUp(v);
      BitsUp(e);
      MaskedShift(Bits(v), Bits(e), k);
    }
  }

  lemma MaskedShift(v: seq<bool>, e: seq<bool>, k: nat)
    requires |v| == 32 && |e| == 32 && k > 0
    ensures (e[0] == v[0] && forall i :: 0 <= i < 32 ==> (e[1..] + [false])[i] == (i < k - 1 && (v[1..] + [false])[i]))
       <==> forall i :: 0 <= i < 32 ==> e[i] == (i < k && v[i])
  {
    var v', e' := v[1..] + [false], e[1..] + [false];
    if e[0] == v[0] && forall i :: 0 <= i < 32 ==> e'[i] == (i < k - 1 && v'[i]) {
      forall i | 0 <= i < 32 ensures e[i] == (i < k && v[i]) {
        if i > 0 { assert e[i] == e'[i-1] && v[i] == v'[i-1]; }
      }
    }
    if forall i :: 0 <= i < 32 ==> e[i] == (i < k && v[i]) {
      forall i | 0 <= i < 32 ensures e'[i] == (i < k - 1 && v'[i]) {
        if i < 31 { assert e'[i] == e[i+1] && v'[i] == v[i+1]; }
      }
    }
  }

  function RecVal(s: string): bv32 { if s == "" then 0 else ShiftDown(RecVal(s[1..]), s[0] == '1') }

  function Digit(c: char, k: nat): bv32 { if c == '1' then RecBit(k) else 0 }

  lemma {:induction false} ValGrows(s: string, c: char)
    ensures RecVal(s + [c]) == Or(RecVal(s), Digit(c, |s|))
  {
    hide ShiftDown, Or;
    if s == "" {
      assert s + [c] == [c] && [c][1..] == "";
      RawSmall(Digit(c, 0), false);
    } else {
      assert (s + [c])[1..] == s[1..] + [c];
      RawSmall(0, false);
      RawShiftDownOr(RecVal(s[1..]), Digit(c, |s| - 1), s[0] == '1');
      ValGrows(s[1..], c);
    }
  }

  /** A code written as a string of digits becomes a word with those bits on top. */
  method DecodeBinary(binary: string) returns (val: bv32)
    ensures forall i :: 0 <= i < 32 ==> Bits(val)[i] == (i < |binary| && binary[i] == '1')
  {
    var mask: bv32 := 0x8000_0000;
    val := 0;
    var at := 0;
    while at < |binary|
      invariant 0 <= at <= |binary| && mask == RecBit(at) && val == RecVal(binary[..at])
    {
      hide ShiftDown, Or, Down;
      ValGrows(binary[..at], binary[at]);
      assert binary[..at] + [binary[at]] == binary[..at+1];
      RawSmall(mask, false);
      RawSmall(val, false);
      if binary[at] == '1' {
        val := Or(val, mask);
      }
      mask := Down(mask);
      at := at + 1;
    }
    assert binary[..at] == binary;
    RecValBits(binary);
  }

  lemma {:induction false} RecValBits(s: string)
    ensures forall i :: 0 <= i < 32 ==> Bits(RecVal(s))[i] == (i < |s| && s[i] == '1')
  {
    hide Bits, ShiftDown;
    if s == "" {
      BitsZero(0);
    } else {
      RecValBits(s[1..]);
      BitsShiftDown(RecVal(s[1..]), s[0] == '1');
    }
  }

  // ----- Payload bits and the window -----

  lemma {:induction false} SeqBitsAt(s: seq<bv8>, j: nat, k: nat)
    requires j < |s| && k < 8
    ensures SeqBits(s)[8 * j + k] == ByteBits(s[j])[k]
  {
    hide ByteBits;
    if j < |s| - 1 { SeqBitsAt(s[..|s|-1], j, k); }
  }

  /** Payload bit q, zero past the end. */
  function BitOrZero(p: seq<bool>, q: nat): bool { q < |p| && p[q] }

  /** The 32 payload bits from pos on, zero-padded. */
  function Window(p: seq<bool>, pos: nat): (w: seq<bool>)
    ensures |w| == 32 && forall i :: 0 <= i < 32 ==> w[i] == BitOrZero(p, pos + i)
  {
    seq(32, i requires 0 <= i < 32 => BitOrZero(p, pos + i))
  }

  predicate AllZero(w: seq<bool>) { forall i :: 0 <= i < |w| ==> !w[i] }

  lemma PastEndZero(p: seq<bool>, pos: nat)
    requires pos >= |p|
    ensures AllZero(Window(p, pos))
  {
  }

  // ----- Decoding as a function of the bits -----

  /** A code matches a window when its word is the window cut to the code's length. */
  predicate Matches(e: Entry, w: seq<bool>)
    requires |w| == 32
  {
    forall i :: 0 <= i < 32 ==> Bits(e.value)[i] == (i < e.bits && w[i])
  }

  /** Index of the first code of a context that matches, or their number. */
  function Find(es: seq<Entry>, w: seq<bool>): (r: nat)
    requires |w| == 32
    ensures r <= |es|
    ensures r < |es| ==> Matches(es[r], w)
    ensures forall j :: 0 <= j < r ==> !Matches(es[j], w)
  {
    if es == [] then 0 else if Matches(es[0], w) then 0 else 1 + Find(es[1..], w)
  }

  /** Every code is at least one bit long and leads to a context that exists. */
  ghost predicate TableOk(table: bv8 -> seq<Entry>) {
    forall c: bv8, i :: 0 <= i < |table(c)| ==> table(c)[i].bits >= 1 && Ascii(table(c)[i].next)
  }

  function Output(c: bv8): seq<bv8> { if c != STOP && c != ESCAPE then [c] else [] }

  /** One round: no code matches, or a symbol's text, length and the context it leads to. */
  datatype Round = NoCode | Symbol(out: seq<bv8>, shift: nat, next: bv8)

  function NextSymbol(table: bv8 -> seq<Entry>, w: seq<bool>, last: bv8): Round
    requires |w| == 32
  {
    if last == ESCAPE then
      var c := ByteFrom(w[..8]);
      Symbol([c], 8, if Ascii(c) then c else ESCAPE)
    else
      var es := table(last);
      var i := Find(es, w);
      if i == |es| then NoCode else Symbol(Output(es[i].next), es[i].bits, es[i].next)
  }

  lemma SymbolAdvances(table: bv8 -> seq<Entry>, w: seq<bool>, last: bv8)
    requires |w| == 32 && TableOk(table)
    ensures NextSymbol(table, w, last).Symbol? ==> NextSymbol(table, w, last).shift >= 1
  {
    hide Find, ByteFrom, Output, Ascii;
    if last != ESCAPE && Find(table(last), w) < |table(last)| {
      assert table(last)[Find(table(last), w)].bits >= 1;
    }
  }

  /** The text decoded from bit pos on in context last. */
  function Run(table: bv8 -> seq<Entry>, p: seq<bool>, pos: nat, last: bv8): seq<bv8>
    requires TableOk(table) && pos <= |p|
    decreases |p| - pos
  {
    SymbolAdvances(table, Window(p, pos), last);
    match NextSymbol(table, Window(p, pos), last)
    case NoCode => []
    case Symbol(out, shift, next) => out + More(table, p, pos, pos + shift, next)
  }

  /** What follows a symbol: nothing after STOP or when only zeros are in sight. */
  function More(table: bv8 -> seq<Entry>, p: seq<bool>, pos: nat, next: nat, last: bv8): seq<bv8>
    requires TableOk(table) && pos <= |p| && next > pos
    decreases |p| - pos, 0
  {
    if last == STOP || AllZero(Window(p, next)) then [] else
    PastEnd(p, next);
    Run(table, p, next, last)
  }

  lemma PastEnd(p: seq<bool>, pos: nat)
    requires !AllZero(Window(p, pos))
    ensures pos < |p|
  {
    if pos >= |p| { PastEndZero(p, pos); }
  }

  // ----- The decoder's loops -----

  /** src[byte], bit is where the bit after the window at pos comes from; or both are past the end. */
  ghost predicate CursorAt(size: nat, byte: nat, bit: nat, pos: nat)
    requires size >= 2
  {
    bit < 8 && byte >= 2 && (8 * (byte - 2) + bit == pos + 32 || (byte >= size && pos + 32 >= 8 * (size - 2)))
  }

  function ByteOrZero(src: seq<bv8>, i: nat): bv8 { if i < |src| then src[i] else 0 }

  /** The word the first loop builds from the payload bytes before byte n. */
  function Loaded(src: seq<bv8>, n: nat): bv32 {
    Load(if n > 2 then ByteOrZero(src, 2) else 0, if n > 3 then ByteOrZero(src, 3) else 0,
         if n > 4 then ByteOrZero(src, 4) else 0, if n > 5 then ByteOrZero(src, 5) else 0)
  }

  /** The word with one more byte, shifted to its place. */
  function WithByte(v: bv32, b: bv8, byte: nat): bv32 {
    if byte == 2 then Or(v, (b as bv32) << 24) else if byte == 3 then Or(v, (b as bv32) << 16)
    else if byte == 4 then Or(v, (b as bv32) << 8) else Or(v, b as bv32)
  }

  lemma RawWithByte0(b0: bv8)
    ensures WithByte(0, b0, 2) == Load(b0, 0, 0, 0) && Load(0, 0, 0, 0) == 0
  {
  }

  lemma RawWithByte1(b0: bv8, b1: bv8)
    ensures WithByte(Load(b0, 0, 0, 0), b1, 3) == Load(b0, b1, 0, 0)
  {
  }

  lemma RawWithByte2(b0: bv8, b1: bv8, b2: bv8)
    ensures WithByte(Load(b0, b1, 0, 0), b2, 4) == Load(b0, b1, b2, 0)
  {
  }

  lemma RawWithByte3(b0: bv8, b1: bv8, b2: bv8, b3: bv8)
    ensures WithByte(Load(b0, b1, b2, 0), b3, 5) == Load(b0, b1, b2, b3)
  {
  }

  lemma {:induction false} SeqBitsPrefix(s: seq<bv8>, n: nat)
    requires n <= |s|
    ensures SeqBits(s[..n]) == SeqBits(s)[..8 * n]
  {
    hide ByteBits;
    if n < |s| {
      SeqBitsPrefix(s[..|s|-1], n);
      assert s[..|s|-1][..n] == s[..n];
    } else {
      assert s[..n] == s;
    }
  }

  lemma WindowByte(src: seq<bv8>, j: nat)
    requires |src| >= 2 && j < 4
    ensures Window(SeqBits(src[2..]), 0)[8*j..8*j+8] == ByteBits(ByteOrZero(src, 2 + j))
  {
    hide ByteBits;
    ByteBitsZero();
    var p := SeqBits(src[2..]);
    var row := Window(p, 0)[8*j..8*j+8];
    forall k | 0 <= k < 8 ensures row[k] == ByteBits(ByteOrZero(src, 2 + j))[k] {
      if 2 + j < |src| { SeqBitsAt(src[2..], j, k); }
    }
  }

  lemma LoadedBits(src: seq<bv8>)
    requires |src| >= 2
    ensures Bits(Loaded(src, 6)) == Window(SeqBits(src[2..]), 0)
  {
    hide ByteBits, Bits, Load, ByteOrZero, SeqBits, Window;
    var w := Window(SeqBits(src[2..]), 0);
    WindowByte(src, 0);
    WindowByte(src, 1);
    WindowByte(src, 2);
    WindowByte(src, 3);
    FourRows(w, ByteBits(ByteOrZero(src, 2)), ByteBits(ByteOrZero(src, 3)), ByteBits(ByteOrZero(src, 4)), ByteBits(ByteOrZero(src, 5)));
    BitsLoad(ByteOrZero(src, 2), ByteOrZero(src, 3), ByteOrZero(src, 4), ByteOrZero(src, 5));
    LoadedAll(src);
  }

  lemma LoadedAll(src: seq<bv8>)
    ensures Loaded(src, 6) == Load(ByteOrZero(src, 2), ByteOrZero(src, 3), ByteOrZero(src, 4), ByteOrZero(src, 5))
  {
  }

  lemma FourRows(w: seq<bool>, x0: seq<bool>, x1: seq<bool>, x2: seq<bool>, x3: seq<bool>)
    requires |w| == 32 && w[0..8] == x0 && w[8..16] == x1 && w[16..24] == x2 && w[24..32] == x3
    ensures w == x0 + x1 + x2 + x3
  {
  }

  /** Fills the window with the first payload bytes. */
  method FirstWindow(src: seq<bv8>) returns (value: bv32, byte: nat)
    requires |src| >= 2
    ensures Bits(value) == Window(SeqBits(src[2..]), 0)
    ensures CursorAt(|src|, byte, 0, 0)
  {
    hide ByteBits, Bits, Load, WithByte, SeqBits;
    value, byte := 0, 2;
    RawWithByte0(ByteOrZero(src, 2));
    RawWithByte1(ByteOrZero(src, 2), ByteOrZero(src, 3));
    RawWithByte2(ByteOrZero(src, 2), ByteOrZero(src, 3), ByteOrZero(src, 4));
    RawWithByte3(ByteOrZero(src, 2), ByteOrZero(src, 3), ByteOrZero(src, 4), ByteOrZero(src, 5));
    while byte < 6 && byte < |src|
      invariant 2 <= byte <= 6 && byte <= |src| && value == Loaded(src, byte)
    {
      value := WithByte(value, src[byte], byte);
      byte := byte + 1;
    }
    assert Loaded(src, byte) == Loaded(src, 6);
    LoadedBits(src);
  }

  /** Shifts the window up by a number of bits, taking new bits from the payload. */
  method ShiftWindow(src: seq<bv8>, value0: bv32, byte0: nat, bit0: nat, bitShift: nat, ghost pos: nat)
    returns (value: bv32, byte: nat, bit: nat)
    requires |src| >= 2 && Bits(value0) == Window(SeqBits(src[2..]), pos) && CursorAt(|src|, byte0, bit0, pos)
    ensures Bits(value) == Window(SeqBits(src[2..]), pos + bitShift) && CursorAt(|src|, byte, bit, pos + bitShift)
  {
    hide ByteBits, Bits, ShiftIn, SeqBits, BitAt;
    value, byte, bit := value0, byte0, bit0;
    ghost var p := SeqBits(src[2..]);
    var b := 0;
    while b < bitShift
      invariant 0 <= b <= bitShift
      invariant Bits(value) == Window(p, pos + b) && CursorAt(|src|, byte, bit, pos + b)
    {
      var next := byte < |src| && BitAt(src[byte], bit);
      NextBit(src, byte, bit, pos + b);
      BitsShiftIn(value, next);
      assert Window(p, pos + b)[1..] + [next] == Window(p, pos + b + 1);
      value := ShiftIn(value, next);
      if bit == 7 {
        bit := 0;
        byte := byte + 1;
      } else {
        bit := bit + 1;
      }
      b := b + 1;
    }
  }

  lemma NextBit(src: seq<bv8>, byte: nat, bit: nat, pos: nat)
    requires |src| >= 2 && CursorAt(|src|, byte, bit, pos)
    ensures (byte < |src| && BitAt(src[byte], bit)) == BitOrZero(SeqBits(src[2..]), pos + 32)
  {
    hide ByteBits, BitAt;
    if byte < |src| {
      BitAtIsBit(src[byte], bit);
      SeqBitsAt(src[2..], byte - 2, bit);
    }
  }

  /** Looks the window up in a context's list of codes. */
  method FindEntry(es: seq<Entry>, value: bv32) returns (i: nat)
    ensures i == Find(es, Bits(value))
  {
    hide Bits, Matches;
    i := 0;
    assert es[0..] == es;
    while i < |es|
      invariant 0 <= i <= |es| && Find(es, Bits(value)) == i + Find(es[i..], Bits(value))
    {
      var mask := MaskOf(es[i].bits);
      MatchIsMask(es[i], value);
      assert es[i..][1..] == es[i+1..];
      if And(value, mask) == es[i].value {
        return;
      }
      i := i + 1;
    }
  }

  lemma MatchIsMask(e: Entry, value: bv32)
    ensures Matches(e, Bits(value)) <==> And(value, RecMask(e.bits)) == e.value
  {
    hide Bits, And;
    MaskedEqual(value, e.value, e.bits);
  }

  lemma TopIsByte(value: bv32, w: seq<bool>)
    requires |w| == 32 && Bits(value) == w
    ensures ByteOf(value, 0) == ByteFrom(w[..8])
  {
    hide ByteBits, Bits, ByteOf, ByteFrom;
    TopByteBits(value);
    ByteFromBits(ByteOf(value, 0));
  }

  lemma ZeroIsAllZero(value: bv32, w: seq<bool>)
    requires |w| == 32 && Bits(value) == w
    ensures value == 0 <==> AllZero(w)
  {
    hide Bits;
    BitsZero(value);
  }

  /** One round of the decoder: an escaped character, or the first code of the context that matches. */
  method ReadSymbol(table: bv8 -> seq<Entry>, value: bv32, last: bv8) returns (r: Round)
    ensures r == NextSymbol(table, Bits(value), last)
  {
    hide Bits, ByteOf, ByteFrom, Find, Ascii;
    if last == ESCAPE {
      var nextCh := ByteOf(value, 0);
      TopIsByte(value, Bits(value));
      r := Symbol([nextCh], 8, if Ascii(nextCh) then nextCh else last);
    } else {
      var i := FindEntry(table(last), value);
      if i == |table(last)| {
        r := NoCode;
      } else {
        var e := table(last)[i];
        r := Symbol(if e.next != STOP && e.next != ESCAPE then [e.next] else [], e.bits, e.next);
      }
    }
  }

  /** Run from a position: nothing when no code matches, else a symbol and what follows it. */
  lemma RunUnfold(table: bv8 -> seq<Entry>, p: seq<bool>, pos: nat, last: bv8, text: seq<bv8>)
    requires TableOk(table) && pos <= |p|
    ensures match NextSymbol(table, Window(p, pos), last)
            case NoCode => text + Run(table, p, pos, last) == text
            case Symbol(out, shift, next) =>
              shift >= 1 && text + Run(table, p, pos, last) == (text + out) + More(table, p, pos, pos + shift, next)
  {
    hide NextSymbol, Window, More, TableOk;
    SymbolAdvances(table, Window(p, pos), last);
    var r := NextSymbol(table, Window(p, pos), last);
    if r.Symbol? {
      Assoc(text, r.out, More(table, p, pos, pos + r.shift, r.next));
    } else {
      assert text + [] == text;
    }
  }

  lemma MoreUnfold(table: bv8 -> seq<Entry>, p: seq<bool>, pos: nat, next: nat, last: bv8, text: seq<bv8>)
    requires TableOk(table) && pos <= |p| && next > pos
    ensures last == STOP || AllZero(Window(p, next)) ==> text + More(table, p, pos, next, last) == text
    ensures !(last == STOP || AllZero(Window(p, next))) ==>
              next < |p| && text + More(table, p, pos, next, last) == text + Run(table, p, next, last)
  {
    hide Run, Window, AllZero, TableOk;
    if !AllZero(Window(p, next)) { PastEnd(p, next); }
  }

  /**
   * The decoder. The text is Run over the payload bits, and the loop goes round at most once more than
   * there are payload bits, whatever the table and the payload.
   */
  method Decode(src: seq<bv8>, tables: bv8 -> bv8 -> seq<Entry>) returns (text: seq<bv8>, ghost rounds: nat)
    requires |src| >= 2 && TableOk(tables(1)) && TableOk(tables(2))
    ensures text == if src[0] == 0x1F && (src[1] == 1 || src[1] == 2) then Run(tables(src[1]), SeqBits(src[2..]), 0, START) else []
    ensures rounds <= 8 * (|src| - 2) + 1
  {
    hide Bits, SeqBits, CursorAt, Window, AllZero, NextSymbol, TableOk, Run, More;
    text, rounds := [], 0;
    if src[0] != 0x1F {
      return;
    }
    if src[1] == 1 || src[1] == 2 {
      var table := tables(src[1]);
      ghost var p := SeqBits(src[2..]);
      var value, byte := FirstWindow(src);
      var bit, lastch, more := 0, START, true;
      ghost var pos := 0;
      while more
        invariant more ==> pos <= |p| && text + Run(table, p, pos, lastch) == Run(table, p, 0, START)
        invariant !more ==> text == Run(table, p, 0, START)
        invariant more ==> Bits(value) == Window(p, pos) && CursorAt(|src|, byte, bit, pos)
        invariant if more then rounds <= pos else rounds <= |p| + 1
        decreases if more then |p| + 1 - pos else 0
      {
        rounds := rounds + 1;
        var symbol := ReadSymbol(table, value, lastch);
        RunUnfold(table, p, pos, lastch, text);
        if symbol.NoCode? {
          return;
        }
        text, lastch := text + symbol.out, symbol.next;
        MoreUnfold(table, p, pos, pos + symbol.shift, lastch, text);
        value, byte, bit := ShiftWindow(src, value, byte, bit, symbol.shift, pos);
        ZeroIsAllZero(value, Window(p, pos + symbol.shift));
        more := lastch != STOP && value != 0;
        pos := pos + symbol.shift;
      }
    }
  }
}
