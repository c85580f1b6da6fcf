/** Encoded Freesat texts, and exactly when decoding one gives the text back. */
module FreesatEncoding {
  import opened WordBits
  import opened Freesat

  /** A unit of an encoded text: a code of the current context, or a raw byte after an escape. */
  datatype Sym = Code(e: Entry) | Raw(c: bv8)

  predicate EntryOk(e: Entry) {
    1 <= e.bits <= 32 && e.next < 0x80 && forall i :: e.bits <= i < 32 ==> !Bits(e.value)[i]
  }

  function CodeBits(e: Entry): seq<bool>
    requires EntryOk(e)
  {
    Bits(e.value)[..e.bits]
  }

  ghost predicate PrefixFree(es: seq<Entry>)
    requires forall i :: 0 <= i < |es| ==> EntryOk(es[i])
  {
    forall i, j :: 0 <= i < |es| && 0 <= j < |es| && i != j ==> !(CodeBits(es[i]) <= CodeBits(es[j]))
  }

  /** Prefix-free codes of 1 to 32 bits in every context. */
  ghost predicate CodeTable(table: bv8 -> seq<Entry>) {
    forall c: bv8 :: (forall i :: 0 <= i < |table(c)| ==> EntryOk(table(c)[i])) && PrefixFree(table(c))
  }

  lemma CodeTableOk(table: bv8 -> seq<Entry>)
    requires CodeTable(table)
    ensures TableOk(table)
  {
    hide Ascii, Bits, PrefixFree;
    forall c: bv8, i | 0 <= i < |table(c)| ensures table(c)[i].bits >= 1 && Ascii(table(c)[i].next) {
      assert EntryOk(table(c)[i]);
      AsciiIs(table(c)[i].next);
    }
  }

  lemma AsciiIs(c: bv8)
    ensures Ascii(c) <==> c < 0x80
  {
  }

  predicate SymOk(s: Sym) { s.Code? ==> EntryOk(s.e) }

  function SymBits(s: Sym): (r: seq<bool>)
    requires SymOk(s)
    ensures 1 <= |r| <= 32
  {
    match s case Code(e) => CodeBits(e) case Raw(c) => ByteBits(c)
  }

  /** What a unit stands for: codes that lead to 0, which ends the text, or to 1, which escapes, stand for nothing. */
  function SymOut(s: Sym): seq<bv8> {
    match s case Code(e) => if e.next == 0 || e.next == 1 then [] else [e.next] case Raw(c) => [c]
  }

  /** The context a unit leads to: the first raw byte below 0x80 ends an escape. */
  function SymNext(s: Sym): bv8 {
    match s case Code(e) => e.next case Raw(c) => if c < 0x80 then c else 1
  }

  /** s may stand in context last: a raw byte after an escape, else one of the context's codes. */
  ghost predicate Fits(table: bv8 -> seq<Entry>, last: bv8, s: Sym) {
    if last == 1 then s.Raw? else s.Code? && s.e in table(last)
  }

  /** An encoded text from context last: the contexts chain, and the end of the text, 0, comes last and only last. */
  ghost predicate Chain(table: bv8 -> seq<Entry>, last: bv8, syms: seq<Sym>)
    decreases |syms|
  {
    && syms != [] && SymOk(syms[0]) && Fits(table, last, syms[0])
    && if |syms| == 1 then SymNext(syms[0]) == 0
       else SymNext(syms[0]) != 0 && Chain(table, SymNext(syms[0]), syms[1..])
  }

  function Text(syms: seq<Sym>): seq<bv8> {
    if syms == [] then [] else SymOut(syms[0]) + Text(syms[1..])
  }

  /** The units encode the text, one byte after the other: ends and escapes encode nothing. */
  ghost predicate Encodes(syms: seq<Sym>, text: seq<bv8>)
    decreases |syms|
  {
    if syms == [] then text == [] else
      match syms[0]
      case Code(e) =>
        if e.next == 0 || e.next == 1 then Encodes(syms[1..], text)
        else text != [] && text[0] == e.next && Encodes(syms[1..], text[1..])
      case Raw(c) => text != [] && text[0] == c && Encodes(syms[1..], text[1..])
  }

  /** Units encode one text and no other. */
  lemma {:induction false} EncodesText(syms: seq<Sym>, text: seq<bv8>)
    ensures Encodes(syms, text) <==> text == Text(syms)
    decreases |syms|
  {
    if syms != [] {
      var out := SymOut(syms[0]);
      if out == [] {
        EncodesText(syms[1..], text);
      } else if text != [] {
        EncodesText(syms[1..], text[1..]);
        assert text == [text[0]] + text[1..];
      }
    }
  }

  function AllBits(syms: seq<Sym>): seq<bool>
    requires forall i :: 0 <= i < |syms| ==> SymOk(syms[i])
  {
    if syms == [] then [] else SymBits(syms[0]) + AllBits(syms[1..])
  }

  lemma {:induction false} ChainSymsOk(table: bv8 -> seq<Entry>, last: bv8, syms: seq<Sym>)
    requires Chain(table, last, syms)
    ensures forall i :: 0 <= i < |syms| ==> SymOk(syms[i])
    decreases |syms|
  {
    hide SymOk, SymNext, Fits;
    if |syms| > 1 {
      ChainSymsOk(table, SymNext(syms[0]), syms[1..]);
      forall i | 0 <= i < |syms| ensures SymOk(syms[i]) {
        if i > 0 { assert syms[i] == syms[1..][i-1]; }
      }
    }
  }

  /**
   * At every symbol boundary before which the loop could stop too early, that is with text still to come,
   * the next 32 bits are not all zero.
   */
  ghost predicate SeenToTheEnd(p: seq<bool>, pos: nat, syms: seq<Sym>)
    requires forall i :: 0 <= i < |syms| ==> SymOk(syms[i])
    decreases |syms|
  {
    |syms| <= 1 ||
    (var next := pos + |SymBits(syms[0])|;
     && (Text(syms[1..]) != [] ==> !AllZero(Window(p, next)))
     && SeenToTheEnd(p, next, syms[1..]))
  }

  // ----- The decoder picks the encoder's code -----

  lemma CodeMatches(e: Entry, w: seq<bool>)
    requires EntryOk(e) && |w| == 32
    ensures Matches(e, w) <==> CodeBits(e) <= w
  {
    hide Bits, Ascii;
    var b, c := Bits(e.value), CodeBits(e);
    if Matches(e, w) {
      assert forall i :: 0 <= i < |c| ==> c[i] == w[i];
    }
    if c <= w {
      forall i | 0 <= i < 32 ensures b[i] == (i < e.bits && w[i]) {
        if i < e.bits { assert b[i] == c[i] == w[i]; }
      }
    }
  }

  lemma PrefixesCompare(a: seq<bool>, b: seq<bool>, w: seq<bool>)
    requires a <= w && b <= w
    ensures a <= b || b <= a
  {
  }

  lemma FindPicks(es: seq<Entry>, i: nat, w: seq<bool>)
    requires i < |es| && |w| == 32 && (forall j :: 0 <= j < |es| ==> EntryOk(es[j])) && PrefixFree(es)
    requires CodeBits(es[i]) <= w
    ensures Find(es, w) == i
  {
    hide EntryOk, CodeBits, Matches;
    CodeMatches(es[i], w);
    var f := Find(es, w);
    if f < i {
      CodeMatches(es[f], w);
      PrefixesCompare(CodeBits(es[f]), CodeBits(es[i]), w);
    }
  }

  lemma PicksSym(table: bv8 -> seq<Entry>, last: bv8, s: Sym, w: seq<bool>)
    requires CodeTable(table) && Fits(table, last, s) && SymOk(s) && |w| == 32 && SymBits(s) <= w
    ensures NextSymbol(table, w, last) == Symbol(SymOut(s), |SymBits(s)|, SymNext(s))
  {
    hide EntryOk, CodeBits, PrefixFree, Find, ByteBits, ByteFrom, Ascii, Bits;
    if last == ESCAPE {
      assert w[..8] == ByteBits(s.c);
      ByteFromBits(s.c);
      AsciiIs(s.c);
    } else {
      var es := table(last);
      var i :| 0 <= i < |es| && es[i] == s.e;
      FindPicks(es, i, w);
      CodeLength(s.e);
    }
  }

  lemma CodeLength(e: Entry)
    requires EntryOk(e)
    ensures |CodeBits(e)| == e.bits
  {
  }

  lemma WindowStarts(p: seq<bool>, pos: nat, a: seq<bool>, rest: seq<bool>)
    requires pos <= |p| && p[pos..] == a + rest && |a| <= 32
    ensures a <= Window(p, pos) && pos + |a| <= |p| && p[pos + |a|..] == rest
  {
    forall i | 0 <= i < |a| ensures Window(p, pos)[i] == a[i] {
      assert p[pos..][i] == a[i];
    }
    assert p[pos + |a|..] == p[pos..][|a|..];
  }

  lemma BitsUnfold(syms: seq<Sym>)
    requires syms != [] && forall i :: 0 <= i < |syms| ==> SymOk(syms[i])
    ensures AllBits(syms) == SymBits(syms[0]) + AllBits(syms[1..])
    ensures Text(syms) == SymOut(syms[0]) + Text(syms[1..])
  {
  }

  lemma {:induction false} RunIsText(table: bv8 -> seq<Entry>, p: seq<bool>, pos: nat, last: bv8, syms: seq<Sym>, rest: seq<bool>)
    requires CodeTable(table) && TableOk(table) && Chain(table, last, syms)
    requires forall i :: 0 <= i < |syms| ==> SymOk(syms[i])
    requires pos <= |p| && p[pos..] == AllBits(syms) + rest
    ensures Run(table, p, pos, last) <= Text(syms)
    ensures Run(table, p, pos, last) == Text(syms) <==> SeenToTheEnd(p, pos, syms)
    decreases |syms|
  {
    hide SymBits, SymOut, SymNext, Window, AllZero, NextSymbol, CodeTable, TableOk, Fits, SymOk;
    var s, tail := syms[0], syms[1..];
    var next := pos + |SymBits(s)|;
    BitsUnfold(syms);
    assert p[pos..] == SymBits(s) + (AllBits(tail) + rest);
    WindowStarts(p, pos, SymBits(s), AllBits(tail) + rest);
    PicksSym(table, last, s, Window(p, pos));
    RunOne(table, p, pos, last, SymOut(s), |SymBits(s)|, SymNext(s));
    hide Run, More, AllBits;
    if |syms| == 1 {
      assert Text(tail) == [];
    } else {
      MoreUnfold(table, p, pos, next, SymNext(s), []);
      if !AllZero(Window(p, next)) {
        RunIsText(table, p, next, SymNext(s), tail, rest);
      }
      Cut(SymOut(s), More(table, p, pos, next, SymNext(s)), Text(tail));
      if AllZero(Window(p, next)) && Text(tail) == [] {
        NothingToSee(p, next, tail);
      }
    }
  }

  lemma RunOne(table: bv8 -> seq<Entry>, p: seq<bool>, pos: nat, last: bv8, out: seq<bv8>, shift: nat, next: bv8)
    requires TableOk(table) && pos <= |p| && shift >= 1 && NextSymbol(table, Window(p, pos), last) == Symbol(out, shift, next)
    ensures Run(table, p, pos, last) == out + More(table, p, pos, pos + shift, next)
    ensures next == STOP ==> More(table, p, pos, pos + shift, next) == []
  {
    hide NextSymbol, Window, TableOk, AllZero;
  }

  lemma Cut(a: seq<bv8>, b: seq<bv8>, c: seq<bv8>)
    ensures a + b == a + c <==> b == c
    ensures a + b <= a + c <==> b <= c
  {
    assert (a + b)[|a|..] == b && (a + c)[|a|..] == c;
    if b <= c { assert a + c == (a + b) + c[|b|..]; }
    if a + b <= a + c { assert b == c[..|b|]; }
  }

  /** With no text to come there is nothing left to lose sight of. */
  lemma {:induction false} NothingToSee(p: seq<bool>, pos: nat, syms: seq<Sym>)
    requires (forall i :: 0 <= i < |syms| ==> SymOk(syms[i])) && Text(syms) == []
    ensures SeenToTheEnd(p, pos, syms)
    decreases |syms|
  {
    if |syms| > 1 {
      BitsUnfold(syms);
      NothingToSee(p, pos + |SymBits(syms[0])|, syms[1..]);
    }
  }

  /**
   * Decoding an encoded text followed by any padding yields a prefix of the text, and yields the whole
   * text if and only if the bits stay in sight to its end.
   */
  lemma RunDecodes(table: bv8 -> seq<Entry>, p: seq<bool>, pos: nat, last: bv8, syms: seq<Sym>, text: seq<bv8>, rest: seq<bool>)
    requires CodeTable(table) && TableOk(table) && Chain(table, last, syms) && Encodes(syms, text)
    requires forall i :: 0 <= i < |syms| ==> SymOk(syms[i])
    requires pos <= |p| && p[pos..] == AllBits(syms) + rest
    ensures Run(table, p, pos, last) <= text
    ensures Run(table, p, pos, last) == text <==> SeenToTheEnd(p, pos, syms)
  {
    hide *;
    RunIsText(table, p, pos, last, syms, rest);
    EncodesText(syms, text);
  }

  /** The round trip on whole payloads, from the initial context. */
  lemma DecodesText(table: bv8 -> seq<Entry>, payload: seq<bv8>, syms: seq<Sym>, text: seq<bv8>, rest: seq<bool>)
    requires CodeTable(table) && Chain(table, 0, syms) && Encodes(syms, text)
    requires forall i :: 0 <= i < |syms| ==> SymOk(syms[i])
    requires SeqBits(payload) == AllBits(syms) + rest
    ensures TableOk(table)
    ensures Run(table, SeqBits(payload), 0, START) == text <==> SeenToTheEnd(SeqBits(payload), 0, syms)
  {
    CodeTableOk(table);
    var p := SeqBits(payload);
    assert p[0..] == p;
    RunDecodes(table, p, 0, START, syms, text, rest);
  }

  // ----- A text that decoding cuts short -----

  const FIRST := Entry(0x8000_0000, 1, 0x61)
  const ZEROS := Entry(0, 32, 0x62)
  const LAST := Entry(0x8000_0000, 1, STOP)

  /** A table whose code for b after a is 32 zeros. */
  function ZeroCode(c: bv8): seq<Entry> {
    if c == START then [FIRST] else if c == 0x61 then [ZEROS] else if c == 0x62 then [LAST] else []
  }

  lemma OneBits()
    ensures forall i :: 0 <= i < 32 ==> Bits(0x8000_0000)[i] == (i == 0)
  {
    RawSmall(0, true);
    BitsShiftDown(0, true);
    BitsZero(0);
    hide Bits, ShiftDown;
  }

  lemma ZeroCodeEntries()
    ensures EntryOk(FIRST) && EntryOk(ZEROS) && EntryOk(LAST)
    ensures CodeBits(FIRST) == [true] && CodeBits(ZEROS) == Zeros(32) && CodeBits(LAST) == [true]
  {
    OneBits();
    BitsZero(0);
    hide Bits;
    assert Ascii(0x61) && Ascii(0x62) && Ascii(STOP);
  }

  lemma ZeroCodeTable()
    ensures CodeTable(ZeroCode)
  {
    ZeroCodeEntries();
    hide Bits, Ascii, EntryOk, CodeBits;
  }

  lemma ZeroChain()
    ensures var syms := [Code(FIRST), Code(ZEROS), Code(LAST)];
            Chain(ZeroCode, START, syms) && forall i :: 0 <= i < |syms| ==> SymOk(syms[i])
  {
    ZeroCodeEntries();
    hide Bits, EntryOk, CodeBits;
    var syms := [Code(FIRST), Code(ZEROS), Code(LAST)];
    assert syms[1..] == [Code(ZEROS), Code(LAST)] && syms[1..][1..] == [Code(LAST)];
    assert Chain(ZeroCode, 0x62, [Code(LAST)]);
    assert Chain(ZeroCode, 0x61, syms[1..]);
  }

  /** After the bit for a, the 32 zeros for b end the loop: the text is ab, the decoder returns a. */
  lemma ZeroCodeCutShort(rest: seq<bool>)
    ensures var syms := [Code(FIRST), Code(ZEROS), Code(LAST)];
            && TableOk(ZeroCode) && Chain(ZeroCode, START, syms) && Text(syms) == [0x61, 0x62]
            && (forall i :: 0 <= i < |syms| ==> SymOk(syms[i]))
            && Run(ZeroCode, AllBits(syms) + rest, 0, START) != Text(syms)
  {
    ZeroCodeEntries();
    ZeroCodeTable();
    CodeTableOk(ZeroCode);
    ZeroChain();
    hide Bits, EntryOk, Ascii, CodeBits, TableOk, CodeTable, Run, Window, AllZero, Chain;
    var syms := [Code(FIRST), Code(ZEROS), Code(LAST)];
    assert syms[1..] == [Code(ZEROS), Code(LAST)] && syms[1..][1..] == [Code(LAST)];
    BitsUnfold(syms);
    BitsUnfold(syms[1..]);
    BitsUnfold([Code(LAST)]);
    var p := AllBits(syms) + rest;
    assert p[0..] == p;
    assert p == [true] + (Zeros(32) + (AllBits([Code(LAST)]) + rest));
    WindowStarts(p, 1, Zeros(32), AllBits([Code(LAST)]) + rest);
    AllZeroPrefix(Window(p, 1));
    RunIsText(ZeroCode, p, 0, START, syms, rest);
    assert !SeenToTheEnd(p, 0, syms);
  }

  lemma AllZeroPrefix(w: seq<bool>)
    requires |w| == 32 && Zeros(32) <= w
    ensures AllZero(w)
  {
    assert w == Zeros(32);
  }
}
