/** Exactly when the character-stepping search ends, and when it finds what the plain search finds, on any text at all. */
module ReplaceExact {
  import opened Common
  import opened Utf8
  import opened ReplaceAll

  /** Stepping from lead byte to lead byte never lands on a byte that leads nothing. */
  predicate LeadsOnly(s: seq<Byte>)
    decreases |s|
  {
    s == [] || (CharLen(s[0]) > 0 && (CharLen(s[0]) >= |s| || LeadsOnly(s[CharLen(s[0])..])))
  }

  /** That stepping comes to position j. */
  predicate GroupStart(s: seq<Byte>, j: nat)
    decreases |s|
  {
    j == 0 || (s != [] && 0 < CharLen(s[0]) <= j && CharLen(s[0]) < |s| && GroupStart(s[CharLen(s[0])..], j - CharLen(s[0])))
  }

  /** Every place where the entity stands in the text is one the stepping comes to. */
  ghost predicate OnlyAtStarts(s: seq<Byte>, e: seq<Byte>) {
    forall j :: 0 <= j < |s| && e <= s[j..] ==> GroupStart(s, j)
  }

  // ----- Stepping over a well-formed prefix -----

  /** The first character of a well-formed prefix is a step of the text, and the rest is a prefix of what follows. */
  lemma FirstStep(s: seq<Byte>, e: seq<Byte>)
    requires WellFormed(e) && e != [] && e <= s
    ensures var n := CharLen(e[0]);
            && 0 < n <= |e| && CharLen(s[0]) == n
            && WellFormed(e[n..]) && e[n..] <= s[n..] && s[n..][|e[n..]|..] == s[|e|..]
  {
    hide CharLen, Cont;
    var n := CharLen(e[0]);
    assert e[n..] == s[n..][..|e| - n];
  }

  lemma {:induction false} LeadsAfter(s: seq<Byte>, e: seq<Byte>)
    requires WellFormed(e) && e <= s
    ensures LeadsOnly(s) <==> LeadsOnly(s[|e|..])
    decreases |e|
  {
    hide CharLen, Cont, WellFormed;
    if e == [] {
      assert s[0..] == s;
    } else {
      FirstStep(s, e);
      var n := CharLen(e[0]);
      LeadsAfter(s[n..], e[n..]);
      if n == |s| { assert s[n..] == [] && e[n..] == []; }
    }
  }

  lemma {:induction false} StartsAfter(s: seq<Byte>, e: seq<Byte>, j: nat)
    requires WellFormed(e) && e <= s && |e| <= j < |s|
    ensures GroupStart(s, j) <==> GroupStart(s[|e|..], j - |e|)
    decreases |e|
  {
    hide CharLen, Cont, WellFormed;
    if e == [] {
      assert s[0..] == s;
    } else {
      FirstStep(s, e);
      StartsAfter(s[CharLen(e[0])..], e[CharLen(e[0])..], j - CharLen(e[0]));
    }
  }

  /** Inside a well-formed prefix the stepping comes to every byte that does not continue a character. */
  lemma {:induction false} BoundaryIsStart(s: seq<Byte>, e: seq<Byte>, j: nat)
    requires WellFormed(e) && e <= s && j < |e| && !Cont(e[j])
    ensures GroupStart(s, j)
    decreases |e|
  {
    hide CharLen, Cont;
    if j > 0 {
      FirstStep(s, e);
      var n := CharLen(e[0]);
      assert j >= n;
      assert e[n..][j - n] == e[j];
      BoundaryIsStart(s[n..], e[n..], j - n);
    }
  }

  /** With a match in front, only the places after it matter. */
  lemma OnlyAfterMatch(s: seq<Byte>, e: seq<Byte>)
    requires WellFormed(e) && e != [] && e <= s
    ensures OnlyAtStarts(s, e) <==> OnlyAtStarts(s[|e|..], e)
  {
    hide GroupStart, WellFormed, CharLen, Cont;
    var t := s[|e|..];
    if OnlyAtStarts(s, e) {
      forall j | 0 <= j < |t| && e <= t[j..]
        ensures GroupStart(t, j)
      {
        assert t[j..] == s[|e| + j..];
        StartsAfter(s, e, |e| + j);
      }
    }
    if OnlyAtStarts(t, e) {
      forall j | 0 <= j < |s| && e <= s[j..]
        ensures GroupStart(s, j)
      {
        if j < |e| {
          MatchStartsLead(s, e, j);
          BoundaryIsStart(s, e, j);
        } else {
          assert t[j - |e|..] == s[j..];
          StartsAfter(s, e, j);
        }
      }
    }
  }

  lemma MatchStartsLead(s: seq<Byte>, e: seq<Byte>, j: nat)
    requires WellFormed(e) && e != [] && e <= s && j < |e| && j < |s| && e <= s[j..]
    ensures !Cont(e[j])
  {
    LeadNotCont(e[0]);
    assert s[j..][0] == s[j] == e[j];
  }

  /** Without one, no match may start inside the first group, and then only the places after the group matter. */
  lemma OnlyAfterGroup(s: seq<Byte>, e: seq<Byte>)
    requires s != [] && e != [] && !(e <= s) && CharLen(s[0]) > 0
    ensures var n := CharLen(s[0]);
            OnlyAtStarts(s, e) <==> NoneInside(s, e, n) && (n < |s| ==> OnlyAtStarts(s[n..], e))
  {
    hide CharLen;
    var n := CharLen(s[0]);
    if OnlyAtStarts(s, e) && n < |s| {
      forall j | 0 <= j < |s[n..]| && e <= s[n..][j..]
        ensures GroupStart(s[n..], j)
      {
        assert s[n..][j..] == s[n + j..];
        assert GroupStart(s, n + j);
      }
    }
    if NoneInside(s, e, n) && (n < |s| ==> OnlyAtStarts(s[n..], e)) {
      forall j | 0 <= j < |s| && e <= s[j..]
        ensures GroupStart(s, j)
      {
        assert s[0..] == s;
        if n <= j { assert s[n..][j - n..] == s[j..]; }
      }
    }
  }

  /** No match starts inside the first n bytes. */
  ghost predicate NoneInside(s: seq<Byte>, e: seq<Byte>, n: nat) {
    forall j :: 0 < j < n && j < |s| ==> !(e <= s[j..])
  }

  // ----- Ending -----

  /** For a non-empty well-formed entity the loop ends if and only if the stepping over the text never gets stuck. */
  lemma {:induction false} WalkEndsIff(s: seq<Byte>, e: seq<Byte>, sym: seq<Byte>)
    requires WellFormed(e) && e != []
    ensures Walk(s, e, sym) != None <==> LeadsOnly(s)
    decreases |s|
  {
    hide CharLen, WellFormed;
    if s == [] {
    } else if e <= s {
      LeadsAfter(s, e);
      WalkEndsIff(s[|e|..], e, sym);
    } else if 0 < CharLen(s[0]) < |s| {
      WalkEndsIff(s[CharLen(s[0])..], e, sym);
    }
  }

  // ----- Agreeing -----

  /** Over a whole group without a match both searches copy. */
  lemma GroupCopied(s: seq<Byte>, e: seq<Byte>, sym: seq<Byte>)
    requires s != [] && e != [] && !(e <= s) && CharLen(s[0]) > 0 && NoneInside(s, e, CharLen(s[0]))
    ensures var n := if CharLen(s[0]) < |s| then CharLen(s[0]) else |s|;
            && Plain(s, e, sym) == s[..n] + Plain(s[n..], e, sym)
            && Walk(s, e, sym) == Prepend(s[..n], Walk(s[n..], e, sym))
  {
    hide CharLen;
    var n := if CharLen(s[0]) < |s| then CharLen(s[0]) else |s|;
    assert s[0..] == s;
    PlainCopies(s, e, sym, n);
    if n == |s| {
      assert s[..n] == s && s[n..] == [] && s + [] == s;
      WalkEnds(e, sym);
    }
  }

  /** When every match stands at a step, the search finds what the plain one finds, whatever is put in. */
  lemma {:induction false} WalkIsPlainWhen(s: seq<Byte>, e: seq<Byte>, sym: seq<Byte>)
    requires WellFormed(e) && e != [] && LeadsOnly(s) && OnlyAtStarts(s, e)
    ensures Walk(s, e, sym) == Some(Plain(s, e, sym))
    decreases |s|
  {
    hide CharLen, WellFormed, OnlyAtStarts, NoneInside;
    if s == [] {
    } else if e <= s {
      LeadsAfter(s, e);
      OnlyAfterMatch(s, e);
      WalkIsPlainWhen(s[|e|..], e, sym);
    } else {
      OnlyAfterGroup(s, e);
      GroupCopied(s, e, sym);
      var n := if CharLen(s[0]) < |s| then CharLen(s[0]) else |s|;
      if n < |s| {
        WalkIsPlainWhen(s[n..], e, sym);
      } else {
        WalkEnds(e, sym);
        assert s[n..] == [];
      }
    }
  }

  /** A match inside the first group: the plain search puts its first byte where the other keeps the entity's. */
  lemma HiddenMatch(s: seq<Byte>, e: seq<Byte>, sym: seq<Byte>)
    requires s != [] && e != [] && !(e <= s) && CharLen(s[0]) > 0 && !NoneInside(s, e, CharLen(s[0]))
    requires sym != [] && sym[0] != e[0]
    ensures Walk(s, e, sym) != Some(Plain(s, e, sym))
  {
    hide CharLen, Plain;
    var n := CharLen(s[0]);
    var j := FirstInside(s, e, n);
    assert s[0..] == s;
    PlainCopies(s, e, sym, j);
    PlainReplaces(s[j..], e, sym);
    var p := Plain(s, e, sym);
    assert p == s[..j] + (sym + Plain(s[j..][|e|..], e, sym));
    assert p[j] == sym[0];
    assert s[j..][0] == s[j] == e[0];
    if n < |s| && Walk(s, e, sym).Some? {
      assert Walk(s, e, sym).value[j] == s[..n][j];
    }
  }

  lemma PlainReplaces(s: seq<Byte>, e: seq<Byte>, sym: seq<Byte>)
    requires e != [] && e <= s
    ensures Plain(s, e, sym) == sym + Plain(s[|e|..], e, sym)
  {
  }

  lemma {:induction false} FirstInside(s: seq<Byte>, e: seq<Byte>, n: nat) returns (j: nat)
    requires !NoneInside(s, e, n)
    ensures 0 < j < n && j < |s| && e <= s[j..] && NoneInside(s, e, j)
  {
    if NoneInside(s, e, n - 1) {
      j := n - 1;
    } else {
      j := FirstInside(s, e, n - 1);
    }
  }

  lemma {:induction false} WalkIsPlainOnly(s: seq<Byte>, e: seq<Byte>, sym: seq<Byte>)
    requires WellFormed(e) && e != [] && sym != [] && sym[0] != e[0]
    requires Walk(s, e, sym) == Some(Plain(s, e, sym))
    ensures OnlyAtStarts(s, e)
    decreases |s|
  {
    hide CharLen, WellFormed, OnlyAtStarts, NoneInside;
    if s == [] {
      NothingStands(e);
    } else if e <= s {
      SamePrepended(sym, Walk(s[|e|..], e, sym), Plain(s[|e|..], e, sym));
      WalkIsPlainOnly(s[|e|..], e, sym);
      OnlyAfterMatch(s, e);
    } else {
      var n := CharLen(s[0]);
      if !NoneInside(s, e, n) { HiddenMatch(s, e, sym); }
      OnlyAfterGroup(s, e);
      if n < |s| {
        GroupCopied(s, e, sym);
        SamePrepended(s[..n], Walk(s[n..], e, sym), Plain(s[n..], e, sym));
        WalkIsPlainOnly(s[n..], e, sym);
      }
    }
  }

  lemma NothingStands(e: seq<Byte>)
    ensures OnlyAtStarts([], e)
  {
  }

  lemma SamePrepended(a: seq<Byte>, w: Option<seq<Byte>>, p: seq<Byte>)
    requires Prepend(a, w) == Some(a + p)
    ensures w == Some(p)
  {
    assert (a + w.value)[|a|..] == w.value && (a + p)[|a|..] == p;
  }

  /** Whatever the replacement, the search gives the plain result. */
  ghost predicate AlwaysPlain(s: seq<Byte>, e: seq<Byte>)
    requires e != []
  {
    forall sym: seq<Byte> :: Walk(s, e, sym) == Some(Plain(s, e, sym))
  }

  /**
   * On any text and a non-empty well-formed entity, the character-stepping search gives the plain result for every
   * replacement if and only if the stepping never gets stuck and comes to every place where the entity stands.
   */
  lemma WalkIsPlainIff(s: seq<Byte>, e: seq<Byte>)
    requires WellFormed(e) && e != []
    ensures AlwaysPlain(s, e) <==> LeadsOnly(s) && OnlyAtStarts(s, e)
  {
    hide WellFormed, LeadsOnly, OnlyAtStarts, Walk, Plain;
    if LeadsOnly(s) && OnlyAtStarts(s, e) {
      forall sym: seq<Byte>
        ensures Walk(s, e, sym) == Some(Plain(s, e, sym))
      {
        WalkIsPlainWhen(s, e, sym);
      }
    }
    if AlwaysPlain(s, e) {
      var other: seq<Byte> := [if e[0] == 0 then 1 else 0];
      assert Walk(s, e, other) == Some(Plain(s, e, other));
      WalkEndsIff(s, e, other);
      WalkIsPlainOnly(s, e, other);
    }
  }
}
