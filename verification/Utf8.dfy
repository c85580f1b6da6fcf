/** UTF-8 as this repository encodes, checks, truncates and searches it: lead bytes and continuation bytes, no further rules. */
module Utf8 {
  import opened Common

  /** Continuation byte: top bits 10. */
  predicate Cont(b: Byte) { b / 0x40 == 2 }

  /** Length of the character a byte leads: by its top bits 0, 110, 1110 or 11110; 0 for any other byte. */
  function CharLen(b: Byte): nat {
    if b / 0x80 == 0 then 1 else if b / 0x20 == 6 then 2 else if b / 0x10 == 14 then 3 else if b / 0x08 == 30 then 4 else 0
  }

  /** The bytes by the ranges they fall in. */
  lemma LeadBytes(b: Byte)
    ensures CharLen(b) == if b < 0x80 then 1 else if b < 0xC0 then 0 else if b < 0xE0 then 2 else if b < 0xF0 then 3 else if b < 0xF8 then 4 else 0
    ensures Cont(b) <==> 0x80 <= b < 0xC0
  {
  }

  lemma LeadNotCont(b: Byte)
    ensures CharLen(b) > 0 ==> !Cont(b)
  {
  }

  /** s starts with one whole character. */
  predicate HasChar(s: seq<Byte>) {
    s != [] && CharLen(s[0]) > 0 && CharLen(s[0]) <= |s| && forall j :: 1 <= j < CharLen(s[0]) ==> Cont(s[j])
  }

  /** A sequence of whole characters. */
  predicate WellFormed(s: seq<Byte>)
    decreases |s|
  {
    s == [] || (HasChar(s) && WellFormed(s[CharLen(s[0])..]))
  }

  // ----- Boundaries -----

  /** Position i is not inside a character. */
  predicate Boundary(s: seq<Byte>, i: nat) { i == |s| || (i < |s| && !Cont(s[i])) }

  /** In a well-formed string every boundary but the last starts a whole character, which ends at the next one. */
  lemma {:induction false} CharAtBoundary(s: seq<Byte>, i: nat)
    requires WellFormed(s) && i < |s| && Boundary(s, i)
    ensures HasChar(s[i..]) && Boundary(s, i + CharLen(s[i]))
    ensures forall j :: i < j < i + CharLen(s[i]) ==> Cont(s[j])
    decreases |s|
  {
    var n := CharLen(s[0]);
    if i == 0 {
      assert s[0..] == s;
      if n < |s| { LeadNotCont(s[n..][0]); }
    } else {
      hide CharLen, Cont;
      assert i >= n;
      assert s[n..][i - n..] == s[i..] && s[n..][i - n] == s[i];
      CharAtBoundary(s[n..], i - n);
      hide HasChar, WellFormed;
      forall j | i < j < i + CharLen(s[i]) ensures Cont(s[j]) {
        assert s[n..][j - n] == s[j];
      }
    }
  }

  /** A well-formed string splits into well-formed parts exactly at its boundaries. */
  lemma {:induction false} SplitAtBoundary(s: seq<Byte>, i: nat)
    requires WellFormed(s) && i <= |s|
    ensures WellFormed(s[..i]) <==> Boundary(s, i)
    ensures Boundary(s, i) ==> WellFormed(s[i..])
    decreases |s|
  {
    if i == 0 {
      assert s[0..] == s;
      if s != [] { LeadNotCont(s[0]); }
    } else {
      var n := CharLen(s[0]);
      hide CharLen, Cont;
      if i < n {
        assert Cont(s[i]);
        assert s[..i][0] == s[0];
      } else {
        assert s[n..][..i - n] == s[..i][n..];
        assert s[n..][i - n..] == s[i..];
        assert i < |s| ==> s[n..][i - n] == s[i];
        SplitAtBoundary(s[n..], i - n);
        assert s[..i][0] == s[0] && HasChar(s[..i]);
      }
    }
  }

  /** Cutting a well-formed prefix off a well-formed string leaves a well-formed string. */
  lemma PrefixEndsOnBoundary(s: seq<Byte>, e: seq<Byte>)
    requires WellFormed(s) && WellFormed(e) && e <= s
    ensures WellFormed(s[|e|..])
  {
    assert s[..|e|] == e;
    SplitAtBoundary(s, |e|);
  }

  // ----- Checking -----

  lemma CharStep(s: seq<Byte>, i: nat)
    requires i < |s|
    ensures WellFormed(s[i..]) <==> HasChar(s[i..]) && WellFormed(s[i + CharLen(s[i])..])
  {
    hide CharLen, Cont;
    if HasChar(s[i..]) {
      assert s[i..][CharLen(s[i])..] == s[i + CharLen(s[i])..];
    }
  }

  lemma CharSpan(s: seq<Byte>, i: nat, n: nat)
    requires i < |s| && n == CharLen(s[i]) > 0
    ensures HasChar(s[i..]) <==> i + n <= |s| && forall j :: i < j < i + n ==> Cont(s[j])
  {
    hide CharLen, Cont;
    if HasChar(s[i..]) {
      forall j | i < j < i + n ensures Cont(s[j]) { assert s[i..][j - i] == s[j]; }
    }
  }

  /** Number of continuation bytes a byte announces, by the checker's cascade; 0 for a byte that leads nothing. */
  method Following(b: Byte) returns (l: nat)
    requires b / 0x80 != 0
    ensures l == if CharLen(b) == 0 then 0 else CharLen(b) - 1
    ensures l == 0 <==> CharLen(b) == 0
  {
    l := 0;
    if b / 0x20 == 6 { l := 1; }
    else if b / 0x10 == 14 { l := 2; }
    else if b / 0x08 == 30 { l := 3; }
  }

  /** The checker accepts exactly the well-formed strings. */
  method IsUTF8(s: seq<Byte>) returns (ok: bool)
    ensures ok <==> WellFormed(s)
  {
    hide WellFormed, HasChar, Cont;
    var i := 0;
    assert s[0..] == s;
    while i < |s|
      invariant 0 <= i <= |s|
      invariant WellFormed(s) <==> WellFormed(s[i..])
    {
      CharStep(s, i);
      ghost var start := i;
      var l := 0;
      if s[i] / 0x80 != 0 {
        l := Following(s[i]);
        if l == 0 || i + l >= |s| {
          if l != 0 { CharSpan(s, i, l + 1); } else { NoChar(s, i); }
          return false;
        }
      }
      CharSpan(s, i, l + 1);
      ghost var len := l;
      hide CharLen;
      while l > 0
        invariant 0 <= l <= len && i == start + len - l
        invariant forall j :: start < j <= i ==> Cont(s[j])
      {
        l := l - 1;
        i := i + 1;
        if !Cont(s[i]) {
          return false;
        }
      }
      i := i + 1;
    }
    NothingLeft();
    assert s[i..] == [];
    return true;
  }

  lemma NoChar(s: seq<Byte>, i: nat)
    requires i < |s| && CharLen(s[i]) == 0
    ensures !HasChar(s[i..])
  {
  }

  lemma NothingLeft()
    ensures WellFormed([])
  {
  }

  // ----- Truncation -----

  /** i is the last boundary of s not after n. */
  ghost predicate LastBoundary(s: seq<Byte>, n: nat, i: nat) {
    i <= n && i <= |s| && Boundary(s, i) && forall j :: i < j <= n && j <= |s| ==> !Boundary(s, j)
  }

  /** When truncation gives the longest well-formed prefix that fits: not for a size of zero, nor when the first character is exactly that long. */
  predicate TruncatesWell(s: seq<Byte>, newsize: nat) {
    s == [] || (newsize != 0 && (newsize > |s| || CharLen(s[0]) != newsize))
  }

  lemma BoundaryBeforeCont(s: seq<Byte>, p: nat, n: nat)
    requires WellFormed(s) && p <= n < |s| && Boundary(s, p) && forall j :: p < j <= n ==> Cont(s[j])
    ensures n < p + CharLen(s[p])
  {
    CharAtBoundary(s, p);
    hide CharLen, Cont;
  }

  /** The result when the scan stops at the boundary p before position newsize - 1. */
  lemma TruncatedAt(s: seq<Byte>, newsize: nat, p: nat, len: nat)
    requires WellFormed(s) && 1 <= newsize <= |s| && p < newsize && Boundary(s, p) && forall j :: p < j < newsize ==> Cont(s[j])
    requires len == if p > 0 && p + CharLen(s[p]) == newsize then newsize else p
    ensures len <= newsize && Boundary(s, len)
    ensures LastBoundary(s, newsize, len) <==> TruncatesWell(s, newsize)
    ensures len > 0 ==> LastBoundary(s, newsize, len)
  {
    CharAtBoundary(s, p);
    BoundaryBeforeCont(s, p, newsize - 1);
    hide CharLen;
    if newsize < p + CharLen(s[p]) {
      assert Cont(s[newsize]);
    }
    if p > 0 {
      FirstBoundary(s);
      CharAtBoundary(s, 0);
    }
  }

  lemma FirstBoundary(s: seq<Byte>)
    requires WellFormed(s) && s != []
    ensures Boundary(s, 0)
  {
    LeadNotCont(s[0]);
  }

  lemma WholeIsLast(s: seq<Byte>, newsize: nat)
    requires newsize == 0 || newsize > |s|
    ensures LastBoundary(s, newsize, |s|) <==> TruncatesWell(s, newsize)
    ensures newsize > |s| ==> LastBoundary(s, newsize, |s|)
  {
    hide CharLen, Cont;
  }

  /** The two-byte string of one character, cut to size 2: whatever meets the contract below is empty, though all of it fits. */
  lemma WholeCharGivenUp(t: seq<Byte>)
    requires t <= [0xC3, 0xA9] && WellFormed(t)
    requires LastBoundary([0xC3, 0xA9], 2, |t|) <==> TruncatesWell([0xC3, 0xA9], 2)
    ensures WellFormed([0xC3, 0xA9]) && LastBoundary([0xC3, 0xA9], 2, 2) && t == []
  {
    var s: seq<Byte> := [0xC3, 0xA9];
    assert s[2..] == [];
  }

  /** Past the character at idx when exactly its bytes up to position idx + n fit. */
  method StepOver(s: seq<Byte>, idx: nat, n: nat) returns (r: nat)
    requires idx + n < |s| && CharLen(s[idx]) > n
    ensures r == if CharLen(s[idx]) == n + 1 then idx + n + 1 else idx
  {
    r := idx;
    if s[idx] / 0x80 == 0 { r := idx + 1; }
    else if s[idx] / 0x08 == 30 && n == 3 { r := idx + n + 1; }
    else if s[idx] / 0x10 == 14 && n == 2 { r := idx + n + 1; }
    else if s[idx] / 0x20 == 6 && n == 1 { r := idx + n + 1; }
  }

  /** Cuts a string down to a size, backing up to the start of a character that does not fit. */
  method TruncateUTF8(s: seq<Byte>, newsize: nat) returns (t: seq<Byte>)
    requires WellFormed(s) && |s| < 0x1_0000_0000 && newsize < 0x1_0000_0000
    ensures t <= s && WellFormed(t)
    ensures newsize >= 1 ==> |t| <= newsize
    ensures LastBoundary(s, newsize, |t|) <==> TruncatesWell(s, newsize)
    ensures newsize >= 1 && t != [] ==> LastBoundary(s, newsize, |t|)
    ensures newsize == 0 ==> t == s
  {
    hide WellFormed, CharLen, Cont;
    var len, n := |s|, 0;
    var idx := (newsize - 1) % 0x1_0000_0000;
    assert idx == if newsize == 0 then 0xFFFF_FFFF else newsize - 1;
    if len > idx {
      while idx > 0
        invariant 1 <= newsize <= |s|
        invariant 0 <= idx < |s| && 0 <= n && idx + n == newsize - 1
        invariant forall j :: idx < j < newsize ==> Cont(s[j])
      {
        if !Cont(s[idx]) {
          break;
        }
        n := n + 1;
        idx := idx - 1;
      }
      ghost var p := idx;
      if p == 0 { FirstBoundary(s); }
      BoundaryBeforeCont(s, p, newsize - 1);
      if idx > 0 {
        idx := StepOver(s, idx, n);
      }
      len := idx;
      TruncatedAt(s, newsize, p, len);
    } else {
      WholeIsLast(s, newsize);
    }
    t := s[..len];
    SplitAtBoundary(s, len);
  }
}
