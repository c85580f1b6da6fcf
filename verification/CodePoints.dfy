/** Code points to bytes and back, and the Georgian single-byte table. */
module CodePoints {
  import opened Common
  import opened Utf8

  /** UnicodeToUTF8 on any long: one to four bytes, nothing above 0x1FFFFF, the low byte of a negative. */
  function Encode(c: int): seq<Byte> {
    if c < 0x80 then [c % 0x100]
    else if c < 0x800 then [0xC0 + c / 0x40, 0x80 + c % 0x40]
    else if c < 0x10000 then [0xE0 + c / 0x1000, 0x80 + c / 0x40 % 0x40, 0x80 + c % 0x40]
    else if c < 0x200000 then [0xF0 + c / 0x40000, 0x80 + c / 0x1000 % 0x40, 0x80 + c / 0x40 % 0x40, 0x80 + c % 0x40]
    else []
  }

  function EncodeAll(cs: seq<int>): seq<Byte> {
    if cs == [] then [] else Encode(cs[0]) + EncodeAll(cs[1..])
  }

  /** The bits of a byte below the given power of two. */
  function Low(b: int, m: int): int
    requires m > 0
  {
    b % m
  }

  /** The code point of a whole character. */
  function DecodeChar(s: seq<Byte>): int
    requires HasChar(s)
  {
    if CharLen(s[0]) == 1 then s[0]
    else if CharLen(s[0]) == 2 then Low(s[0], 0x20) * 0x40 + Low(s[1], 0x40)
    else if CharLen(s[0]) == 3 then Low(s[0], 0x10) * 0x1000 + Low(s[1], 0x40) * 0x40 + Low(s[2], 0x40)
    else Low(s[0], 0x08) * 0x40000 + Low(s[1], 0x40) * 0x1000 + Low(s[2], 0x40) * 0x40 + Low(s[3], 0x40)
  }

  function DecodeAll(s: seq<Byte>): seq<int>
    requires WellFormed(s)
    decreases |s|
  {
    if s == [] then [] else [DecodeChar(s)] + DecodeAll(s[CharLen(s[0])..])
  }

  predicate CodePoint(c: int) { 0 <= c < 0x200000 }

  /** A byte built from six bits is a continuation byte that gives them back. */
  lemma Tail(x: int)
    ensures 0 <= x % 0x40 < 0x40 && Cont(0x80 + x % 0x40) && (0x80 + x % 0x40) % 0x40 == x % 0x40
  {
  }

  lemma Lead2(x: int)
    requires 0 <= x < 0x20
    ensures CharLen(0xC0 + x) == 2 && (0xC0 + x) % 0x20 == x
  {
  }

  lemma Lead3(x: int)
    requires 0 <= x < 0x10
    ensures CharLen(0xE0 + x) == 3 && (0xE0 + x) % 0x10 == x
  {
  }

  lemma Lead4(x: int)
    requires 0 <= x < 0x08
    ensures CharLen(0xF0 + x) == 4 && (0xF0 + x) % 0x08 == x
  {
  }

  /** Six-bit groups of a number. */
  lemma Groups(c: int)
    requires 0 <= c
    ensures c == c / 0x40 * 0x40 + c % 0x40
    ensures c == c / 0x1000 * 0x1000 + c / 0x40 % 0x40 * 0x40 + c % 0x40
    ensures c == c / 0x40000 * 0x40000 + c / 0x1000 % 0x40 * 0x1000 + c / 0x40 % 0x40 * 0x40 + c % 0x40
  {
    var a, b := c / 0x40, c / 0x1000;
    assert b == a / 0x40 by { SixMore(c, 0x40); }
    assert c / 0x40000 == b / 0x40 by { SixMore(c, 0x1000); }
    assert a == a / 0x40 * 0x40 + a % 0x40;
    assert b == b / 0x40 * 0x40 + b % 0x40;
  }

  lemma SixMore(c: int, m: int)
    requires 0 <= c && (m == 0x40 || m == 0x1000)
    ensures c / (m * 0x40) == c / m / 0x40
  {
  }

  lemma Encoded2(c: int, s: seq<Byte>)
    requires 0x80 <= c < 0x800 && |s| >= 2 && s[0] == 0xC0 + c / 0x40 && s[1] == 0x80 + c % 0x40
    ensures HasChar(s) && CharLen(s[0]) == 2 && DecodeChar(s) == c
  {
    Lead2(c / 0x40); Tail(c); Groups(c);
    hide CharLen, Cont;
  }

  lemma Encoded3(c: int, s: seq<Byte>)
    requires 0x800 <= c < 0x10000 && |s| >= 3
    requires s[0] == 0xE0 + c / 0x1000 && s[1] == 0x80 + c / 0x40 % 0x40 && s[2] == 0x80 + c % 0x40
    ensures HasChar(s) && CharLen(s[0]) == 3 && DecodeChar(s) == c
  {
    Lead3(c / 0x1000); Tail(c / 0x40); Tail(c); Groups(c);
    hide CharLen, Cont;
  }

  lemma Encoded4(c: int, s: seq<Byte>)
    requires 0x10000 <= c < 0x200000 && |s| >= 4
    requires s[0] == 0xF0 + c / 0x40000 && s[1] == 0x80 + c / 0x1000 % 0x40 && s[2] == 0x80 + c / 0x40 % 0x40 && s[3] == 0x80 + c % 0x40
    ensures HasChar(s) && CharLen(s[0]) == 4 && DecodeChar(s) == c
  {
    Lead4(c / 0x40000); Tail(c / 0x1000); Tail(c / 0x40); Tail(c); Groups(c);
    hide CharLen, Cont;
  }

  /** A code point is encoded as exactly one character, which decodes to it, whatever follows. */
  lemma EncodedChar(c: int, rest: seq<Byte>)
    requires CodePoint(c)
    ensures var s := Encode(c) + rest;
            HasChar(s) && CharLen(s[0]) == |Encode(c)| && DecodeChar(s) == c && s[CharLen(s[0])..] == rest
  {
    var s := Encode(c) + rest;
    assert forall i :: 0 <= i < |Encode(c)| ==> s[i] == Encode(c)[i];
    if c < 0x80 {
      assert s[0] == c && CharLen(s[0]) == 1;
    } else if c < 0x800 {
      Encoded2(c, s);
    } else if c < 0x10000 {
      Encoded3(c, s);
    } else {
      Encoded4(c, s);
    }
    hide CharLen, Cont, DecodeChar, HasChar;
    assert s[|Encode(c)|..] == rest;
  }

  /** The checker accepts the encoding of a long, except for negatives whose low byte is not ASCII. */
  lemma EncodeWellFormed(c: int)
    ensures WellFormed(Encode(c)) <==> c >= 0 || c % 0x100 < 0x80
  {
    var e := Encode(c);
    if CodePoint(c) {
      EncodedChar(c, []);
      assert e + [] == e;
    } else if c < 0 {
      assert e[1..] == [];
    }
  }

  /** Any concatenation of encoded code points passes the checker and decodes to those code points. */
  lemma {:induction false} EncodeAllDecodes(cs: seq<int>)
    requires forall i :: 0 <= i < |cs| ==> CodePoint(cs[i])
    ensures WellFormed(EncodeAll(cs)) && DecodeAll(EncodeAll(cs)) == cs
  {
    if cs != [] {
      EncodeAllDecodes(cs[1..]);
      EncodedChar(cs[0], EncodeAll(cs[1..]));
    }
  }

  // ----- GEOSTD8 -----

  /** Bytes without a character: the 0x10 prefix, and the gaps in the table. */
  predicate Dropped(b: Byte) {
    b == 0x10 || (0x80 <= b < 0xA0) || b == 0xC6 || (0xC8 <= b <= 0xCC) || b == 0xCE || b == 0xCF
  }

  /** The code point a kept byte stands for: Georgian letters run from U+10A0 on. */
  function GeoCode(b: Byte): int { if b < 0x80 then b else 0x1000 + b }

  function GeoCodes(s: seq<Byte>): seq<int> {
    if s == [] then []
    else GeoCodes(s[..|s|-1]) + if Dropped(s[|s|-1]) then [] else [GeoCode(s[|s|-1])]
  }

  lemma EncodeAllNone()
    ensures EncodeAll([]) == []
  {
  }

  /** The bytes the conversion writes for a kept byte. */
  lemma GeoBytes(b: Byte)
    requires !Dropped(b)
    ensures Encode(GeoCode(b)) == if b < 0x80 then [b] else if b < 0xC0 then [0xE1, 0x82, b] else [0xE1, 0x83, b - 0x40]
  {
    if b >= 0xC0 {
      assert (0x1000 + b) / 0x40 == 0x40 + b / 0x40 && b / 0x40 == 3;
    } else if b >= 0xA0 {
      assert (0x1000 + b) / 0x40 == 0x40 + b / 0x40 && b / 0x40 == 2;
    }
  }

  lemma {:induction false} EncodeAllPush(cs: seq<int>, c: int)
    ensures EncodeAll(cs + [c]) == EncodeAll(cs) + Encode(c)
  {
    hide Encode;
    EncodeAllNone();
    if cs == [] {
      assert [c][1..] == [] && Encode(c) + [] == Encode(c) && [] + Encode(c) == Encode(c) && [] + [c] == [c];
    } else {
      assert (cs + [c])[1..] == cs[1..] + [c];
      EncodeAllPush(cs[1..], c);
    }
  }

  lemma GeoPush(s: seq<Byte>, i: nat)
    requires i < |s|
    ensures EncodeAll(GeoCodes(s[..i+1])) == EncodeAll(GeoCodes(s[..i])) +
              if Dropped(s[i]) then [] else if s[i] < 0x80 then [s[i]] else if s[i] < 0xC0 then [0xE1, 0x82, s[i]] else [0xE1, 0x83, s[i] - 0x40]
  {
    assert s[..i+1][..i] == s[..i];
    if !Dropped(s[i]) {
      GeoBytes(s[i]);
      hide EncodeAll, Encode, GeoCode;
      EncodeAllPush(GeoCodes(s[..i]), GeoCode(s[i]));
    } else {
      assert GeoCodes(s[..i]) + [] == GeoCodes(s[..i]);
    }
  }

  /** The conversion writes the UTF-8 of each kept byte's code point, and reports the length it wrote. */
  method GEOSTD8ToUTF8(s: seq<Byte>) returns (out: seq<Byte>, convertedLen: nat)
    ensures out == EncodeAll(GeoCodes(s)) && convertedLen == |out|
  {
    out, convertedLen := [], 0;
    var i := 0;
    while i < |s|
      invariant 0 <= i <= |s| && convertedLen == |out|
      invariant out == EncodeAll(GeoCodes(s[..i]))
    {
      hide EncodeAll, Encode, GeoCode, GeoCodes;
      GeoPush(s, i);
      var b := s[i];
      i := i + 1;
      if b == 0x10 {
        continue;
      }
      if (b >= 0x80 && b < 0xA0) || b == 0xC6 || (b >= 0xC8 && b <= 0xCC) || b == 0xCE || b == 0xCF {
        continue;
      }
      ghost var before := out;
      if b >= 0xA0 && b < 0xC0 {
        out := out + [0xE1, 0x82];
        out := out + [b];
        convertedLen := convertedLen + 3;
        assert out == before + [0xE1, 0x82, b];
      } else if b >= 0xC0 {
        out := out + [0xE1, 0x83];
        out := out + [b - 0x40];
        convertedLen := convertedLen + 3;
        assert out == before + [0xE1, 0x83, b - 0x40];
      } else {
        out := out + [b];
        convertedLen := convertedLen + 1;
      }
    }
    assert s[..i] == s;
  }

  lemma {:induction false} GeoCodesAreCodePoints(s: seq<Byte>)
    ensures forall i :: 0 <= i < |GeoCodes(s)| ==> CodePoint(GeoCodes(s)[i])
  {
    if s != [] { GeoCodesAreCodePoints(s[..|s|-1]); }
  }

  /** So its output always passes the checker and reads as those code points. */
  lemma GeoOutputReads(s: seq<Byte>)
    ensures WellFormed(EncodeAll(GeoCodes(s))) && DecodeAll(EncodeAll(GeoCodes(s))) == GeoCodes(s)
  {
    GeoCodesAreCodePoints(s);
    EncodeAllDecodes(GeoCodes(s));
  }
}
