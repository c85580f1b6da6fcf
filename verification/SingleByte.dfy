/** Single-byte code tables: recoding bytes to UTF-8, converting UTF-8 back to bytes, and when that round trip is exact. */
module SingleByte {
  import opened Common
  import opened CodePoints

  /** The 96 codes of bytes 0xA0 to 0xFF. */
  type Table = t: seq<int> | |t| == 96 && forall i :: 0 <= i < 96 ==> 0 <= t[i] < 0x200000
    witness seq(96, i => 0)

  /** The code of a byte. */
  function Recode(b: Byte, table: Table): int { if b < 0xA0 then b else table[b - 0xA0] }

  /** The text of a byte string: bytes whose code is 0 are dropped. */
  function ToUtf8(s: seq<Byte>, table: Table): seq<Byte> {
    if s == [] then []
    else (if Recode(s[0], table) == 0 then [] else Encode(Recode(s[0], table))) + ToUtf8(s[1..], table)
  }

  /** The byte a code goes back to: its first place in the table, or its low byte when it has none. */
  function Back(c: int, table: Table): Byte
    requires c >= 0
  {
    var j := FirstIndex(table, c);
    if j < 96 then 0xA0 + j else c % 0x100
  }

  function FirstIndex(t: seq<int>, c: int): (j: nat)
    ensures j <= |t| && (j < |t| ==> t[j] == c) && forall i :: 0 <= i < j ==> t[i] != c
  {
    if t == [] then 0 else if t[0] == c then 0 else 1 + FirstIndex(t[1..], c)
  }

  function ByteOrNul(s: seq<Byte>, i: nat): Byte { if i < |s| then s[i] else 0 }

  /** The two-byte reading of the conversion: six bits from each byte, whatever they are. */
  function PairCode(c1: Byte, c2: Byte): int { Low(c1, 0x40) * 0x40 + Low(c2, 0x40) }

  /** What the conversion makes of a UTF-8 string. */
  function FromUtf8(s: seq<Byte>, table: Table): seq<Byte>
    decreases |s|
  {
    if s == [] then []
    else if s[0] < 0x80 then [s[0]] + FromUtf8(s[1..], table)
    else
      var c := PairCode(s[0], ByteOrNul(s, 1));
      [if s[0] < 0xA0 then c % 0x100 else Back(c, table)] + if |s| < 2 then [] else FromUtf8(s[2..], table)
  }

  lemma PairIs(c1: Byte, c2: Byte)
    ensures PairCode(c1, c2) == Low(c1, 0x40) * 0x40 + Low(c2, 0x40)
  {
  }

  /** The conversion loop of convertUTF8DVB for one of the tables. */
  method ConvertUTF8DVB(s: seq<Byte>, table: Table) returns (buf: seq<Byte>)
    ensures buf == FromUtf8(s, table)
  {
    hide FromUtf8, Back, PairCode;
    FromUtf8Nil(table);
    buf := [];
    var i := 0;
    assert s[0..] == s && [] + FromUtf8(s, table) == FromUtf8(s, table);
    while i < |s|
      invariant 0 <= i <= |s| + 1
      invariant buf + FromUtf8(if i <= |s| then s[i..] else [], table) == FromUtf8(s, table)
    {
      ghost var rest := s[i..];
      FromUtf8Step(rest, table, buf);
      var c1 := s[i];
      var c: int := c1;
      if c1 >= 0x80 {
        i := i + 1;
        var c2 := if i < |s| then s[i] else 0;
        c := Low(c1, 0x40) * 0x40 + Low(c2, 0x40);
        PairIs(c1, c2);
        if c1 >= 0xA0 {
          c := SearchTable(c, table);
        }
        assert i + 1 <= |s| ==> rest[2..] == s[i+1..];
      } else {
        assert rest[1..] == s[i+1..];
      }
      buf := buf + [c % 0x100];
      i := i + 1;
    }
    assert buf + [] == buf;
    if i == |s| { assert s[i..] == []; }
  }

  /** The table search: the code's first place, or the code itself. */
  method SearchTable(c: int, table: Table) returns (r: int)
    requires c >= 0
    ensures r % 0x100 == Back(c, table)
  {
    r := c;
    var j := 0;
    assert table[0..] == table;
    while j < 96
      invariant 0 <= j <= 96 && FirstIndex(table, c) == j + FirstIndex(table[j..], c)
    {
      assert table[j..][1..] == table[j+1..];
      if table[j] == c {
        return 0xA0 + j;
      }
      j := j + 1;
    }
  }

  lemma FromUtf8Step(s: seq<Byte>, table: Table, done: seq<Byte>)
    requires s != []
    ensures s[0] < 0x80 ==> done + FromUtf8(s, table) == (done + [s[0]]) + FromUtf8(s[1..], table)
    ensures s[0] >= 0x80 ==>
              var c := PairCode(s[0], ByteOrNul(s, 1));
              c >= 0 && done + FromUtf8(s, table)
                 == (done + [if s[0] < 0xA0 then c % 0x100 else Back(c, table)]) + FromUtf8(if |s| < 2 then [] else s[2..], table)
  {
    hide Back, PairCode;
    var tail := if s[0] < 0x80 then s[1..] else if |s| < 2 then [] else s[2..];
    var c := PairNat(s[0], ByteOrNul(s, 1));
    var b := if s[0] < 0x80 then s[0] else if s[0] < 0xA0 then c % 0x100 else Back(c, table);
    FromUtf8Nil(table);
    assert FromUtf8(s, table) == [b] + FromUtf8(tail, table);
    hide FromUtf8;
    Assoc(done, [b], FromUtf8(tail, table));
  }

  /** A pair code is never negative. */
  lemma PairNat(c1: Byte, c2: Byte) returns (c: int)
    ensures c == PairCode(c1, c2) >= 0
  {
    c := PairCode(c1, c2);
  }

  // ----- The round trip -----

  /** A byte survives: its code is not 0, fits two bytes, and leads back to it. */
  predicate Stable(b: Byte, table: Table) {
    var c := Recode(b, table);
    0 < c < 0x800 && (if c < 0x80 then c == b else Back(c, table) == b)
  }

  lemma OneCharBack(c: int, rest: seq<Byte>, table: Table)
    requires 0 < c < 0x800
    ensures FromUtf8(Encode(c) + rest, table) == [if c < 0x80 then c else Back(c, table)] + FromUtf8(rest, table)
  {
    var s := Encode(c) + rest;
    if c < 0x80 {
      assert s[0] == c && s[1..] == rest;
    } else {
      assert s[0] == 0xC0 + c / 0x40 && s[1] == 0x80 + c % 0x40 && s[2..] == rest;
      assert PairCode(s[0], s[1]) == c by {
        assert (0xC0 + c / 0x40) % 0x40 == c / 0x40 && (0x80 + c % 0x40) % 0x40 == c % 0x40;
      }
      assert c / 0x40 >= 2;
      hide Back, Encode, PairCode;
    }
  }

  lemma FromUtf8Nil(table: Table)
    ensures FromUtf8([], table) == []
  {
  }

  /** When every code fits two bytes, the round trip returns the string exactly when every byte is stable. */
  lemma {:induction false} RoundTrip(s: seq<Byte>, table: Table)
    requires forall i :: 0 <= i < |s| ==> Recode(s[i], table) < 0x800
    ensures FromUtf8(ToUtf8(s, table), table) == s <==> forall i :: 0 <= i < |s| ==> Stable(s[i], table)
    ensures |FromUtf8(ToUtf8(s, table), table)| <= |s|
  {
    hide Encode, Back, FromUtf8, PairCode;
    FromUtf8Nil(table);
    if s != [] {
      var c, tail := Recode(s[0], table), s[1..];
      RoundTrip(tail, table);
      assert forall i :: 0 <= i < |tail| ==> tail[i] == s[i+1];
      assert [s[0]] + tail == s;
      if c == 0 {
        assert [] + ToUtf8(tail, table) == ToUtf8(tail, table);
      } else {
        OneCharBack(c, ToUtf8(tail, table), table);
      }
    }
  }

  /** A code of three or four bytes is read as two characters, so its byte never comes back alone. */
  lemma LongCodeLost(b: Byte, table: Table)
    requires Recode(b, table) >= 0x800
    ensures FromUtf8(ToUtf8([b], table), table) != [b]
  {
    var c := Recode(b, table);
    var s := Encode(c);
    assert [b][1..] == [];
    assert ToUtf8([b], table) == s + [];
    assert s + [] == s;
    assert |s| >= 3 && s[0] >= 0x80 && s[2..][0] == s[2] >= 0x80;
    hide Back, Encode, PairCode;
    FromUtf8Step(s, table, []);
    FromUtf8Step(s[2..], table, []);
  }

  ghost predicate Over(s: seq<Byte>, allowed: set<Byte>) { forall i :: 0 <= i < |s| ==> s[i] in allowed }

  /** Every string over a set of bytes makes the round trip. */
  ghost predicate AllReturn(allowed: set<Byte>, table: Table) {
    forall s: seq<Byte> :: Over(s, allowed) ==> FromUtf8(ToUtf8(s, table), table) == s
  }

  /**
   * Over a set of bytes, every string makes the round trip if and only if every byte of the set is stable:
   * a condition on the table alone.
   */
  lemma RoundTripForTable(allowed: set<Byte>, table: Table)
    ensures AllReturn(allowed, table) <==> forall b: Byte :: b in allowed ==> Stable(b, table)
  {
    hide FromUtf8, ToUtf8, Recode, Stable;
    if forall b: Byte :: b in allowed ==> Stable(b, table) {
      forall s: seq<Byte> | Over(s, allowed)
        ensures FromUtf8(ToUtf8(s, table), table) == s
      {
        StableReturns(s, table);
      }
    }
    if AllReturn(allowed, table) {
      forall b: Byte | b in allowed
        ensures Stable(b, table)
      {
        assert Over([b], allowed);
        ReturnsStable(b, table);
      }
    }
  }

  lemma StableReturns(s: seq<Byte>, table: Table)
    requires forall i :: 0 <= i < |s| ==> Stable(s[i], table)
    ensures FromUtf8(ToUtf8(s, table), table) == s
  {
    hide FromUtf8, ToUtf8, Recode;
    RoundTrip(s, table);
  }

  lemma ReturnsStable(b: Byte, table: Table)
    requires FromUtf8(ToUtf8([b], table), table) == [b]
    ensures Stable(b, table)
  {
    hide FromUtf8, ToUtf8, Recode;
    if Recode(b, table) >= 0x800 {
      LongCodeLost(b, table);
    } else {
      RoundTrip([b], table);
      assert Stable([b][0], table);
    }
  }

  /** Stability read off the table: no code 0, none of the codes below 0xA0 in the table, no code twice. */
  lemma StableByTable(b: Byte, table: Table)
    ensures Stable(b, table) <==>
            if b < 0x80 then b != 0
            else if b < 0xA0 then b !in table
            else 0x80 <= table[b - 0xA0] < 0x800 && forall i :: 0 <= i < b - 0xA0 ==> table[i] != table[b - 0xA0]
  {
    var c := Recode(b, table);
    var j := FirstIndex(table, c);
  }
}
