/** replace_all: the character-stepping search for UTF-8 text and the plain search give the same result. */
module ReplaceAll {
  import opened Common
  import opened Utf8

  /** Leftmost non-overlapping replacement, byte by byte. */
  function Plain(s: seq<Byte>, e: seq<Byte>, sym: seq<Byte>): seq<Byte>
    requires e != []
    decreases |s|
  {
    if s == [] then [] else if e <= s then sym + Plain(s[|e|..], e, sym) else [s[0]] + Plain(s[1..], e, sym)
  }

  /** The character-stepping search; None when the loop stands still forever. */
  function Walk(s: seq<Byte>, e: seq<Byte>, sym: seq<Byte>): Option<seq<Byte>>
    decreases |s|
  {
    if s == [] then Some([])
    else if e == [] then None
    else if e <= s then Prepend(sym, Walk(s[|e|..], e, sym))
    else
      var n := CharLen(s[0]);
      if n == 0 then None
      else if n >= |s| then Some(s)
      else Prepend(s[..n], Walk(s[n..], e, sym))
  }

  function Prepend(a: seq<Byte>, b: Option<seq<Byte>>): Option<seq<Byte>> {
    if b == None then None else Some(a + b.value)
  }

  /** Over n bytes at which no match starts, the plain search copies. */
  lemma {:induction false} PlainCopies(s: seq<Byte>, e: seq<Byte>, sym: seq<Byte>, n: nat)
    requires e != [] && n <= |s| && forall j :: 0 <= j < n ==> !(e <= s[j..])
    ensures Plain(s, e, sym) == s[..n] + Plain(s[n..], e, sym)
  {
    if n > 0 {
      assert s[0..] == s;
      forall j | 0 <= j < n - 1 ensures !(e <= s[1..][j..]) {
        assert s[1..][j..] == s[j+1..];
      }
      PlainCopies(s[1..], e, sym, n - 1);
      assert s[1..][n-1..] == s[n..];
      Assoc([s[0]], s[1..][..n-1], Plain(s[n..], e, sym));
      assert [s[0]] + s[1..][..n-1] == s[..n];
    } else {
      assert s[0..] == s && s[..0] + Plain(s, e, sym) == Plain(s, e, sym);
    }
  }

  /** In well-formed text no match of a well-formed entity starts inside a character. */
  lemma NoMatchInside(s: seq<Byte>, e: seq<Byte>, j: nat)
    requires WellFormed(s) && WellFormed(e) && s != [] && e != [] && 0 < j < CharLen(s[0])
    ensures j < |s| && !(e <= s[j..])
  {
    LeadNotCont(e[0]);
    assert Cont(s[j]);
    assert s[j..][0] == s[j];
  }

  /** On well-formed text and a non-empty well-formed entity the walk ends, with the plain result. */
  lemma {:induction false} WalkIsPlain(s: seq<Byte>, e: seq<Byte>, sym: seq<Byte>)
    requires WellFormed(s) && WellFormed(e) && e != []
    ensures Walk(s, e, sym) == Some(Plain(s, e, sym))
    decreases |s|
  {
    hide CharLen, Cont;
    if s == [] {
    } else if e <= s {
      PrefixEndsOnBoundary(s, e);
      WalkIsPlain(s[|e|..], e, sym);
    } else {
      var n := CharLen(s[0]);
      forall j | 0 <= j < n ensures !(e <= s[j..]) {
        if j == 0 { assert s[0..] == s; } else { NoMatchInside(s, e, j); }
      }
      PlainCopies(s, e, sym, n);
      WalkIsPlain(s[n..], e, sym);
      if n == |s| {
        assert s[..n] == s && s[n..] == [] && s + [] == s;
      }
    }
  }

  /** A stray continuation byte holds the walk forever; a lead byte without its followers hides a match from it. */
  lemma IllFormedText()
    ensures Walk([0x80], [0x41], []) == None && Plain([0x80], [0x41], []) == [0x80]
    ensures Walk([0xC3, 0x41], [0x41], []) == Some([0xC3, 0x41]) && Plain([0xC3, 0x41], [0x41], []) == [0xC3]
  {
    var s: seq<Byte> := [0x80];
    assert s[1..] == [];
    var t: seq<Byte> := [0xC3, 0x41];
    assert t[1..] == [0x41] && t[1..][1..] == [];
  }

  /** Cutting a joined string n bytes after the joint. */
  lemma Cut(done: seq<Byte>, rest: seq<Byte>, n: nat)
    requires n <= |rest|
    ensures var out := done + rest; var at := |done| + n;
            out[|done|..at] == rest[..n] && out[..at] == done + rest[..n] && out[at..] == rest[n..]
            && out[..|done|] == done && out[|done|..] == rest
  {
  }

  /** The comparison of the loop is the prefix test. */
  lemma ComparesPrefix(done: seq<Byte>, rest: seq<Byte>, e: seq<Byte>)
    ensures var out := done + rest; var loc := |done|;
            (|e| + loc <= |out| && out[loc..loc + |e|] == e) <==> e <= rest
  {
    if |e| <= |rest| { Cut(done, rest, |e|); }
  }

  lemma LastChar(s: seq<Byte>, e: seq<Byte>, sym: seq<Byte>, done: seq<Byte>)
    requires s != [] && e != [] && !(e <= s) && CharLen(s[0]) >= |s|
    ensures Prepend(done, Walk(s, e, sym)) == Prepend(done + s, Walk([], e, sym))
  {
    hide CharLen;
    assert done + s + [] == done + s;
  }

  /** The edited string after a replacement, and after stepping over n bytes. */
  lemma Replaced(done: seq<Byte>, rest: seq<Byte>, e: seq<Byte>, sym: seq<Byte>)
    requires e <= rest
    ensures var out, loc := done + rest, |done|;
            out[..loc] + sym + out[loc + |e|..] == (done + sym) + rest[|e|..]
  {
    Cut(done, rest, |e|);
    Cut(done, rest, 0);
  }

  lemma Copied(done: seq<Byte>, rest: seq<Byte>, n: nat)
    requires n <= |rest|
    ensures done + rest == (done + rest[..n]) + rest[n..]
  {
    assert rest[..n] + rest[n..] == rest;
    Assoc(done, rest[..n], rest[n..]);
  }

  /** The UTF-8 branch: steps character by character through the string it edits. Hung when it would not move again. */
  method ReplaceAllUtf8(s: seq<Byte>, entity: seq<Byte>, symbol: seq<Byte>) returns (out: seq<Byte>, hung: bool)
    ensures if hung then Walk(s, entity, symbol) == None else Walk(s, entity, symbol) == Some(out)
    ensures WellFormed(s) && WellFormed(entity) && entity != [] ==> !hung && out == Plain(s, entity, symbol)
  {
    hide CharLen, WellFormed, Plain;
    if WellFormed(s) && WellFormed(entity) && entity != [] {
      WalkIsPlain(s, entity, symbol);
    }
    out, hung := s, false;
    var loc := 0;
    ghost var done, rest: seq<Byte> := [], s;
    assert [] + s == s;
    PrependNone(Walk(s, entity, symbol));
    hide Walk;
    while loc < |out|
      invariant out == done + rest && (loc == |done| || (rest == [] && loc >= |done|))
      invariant Walk(s, entity, symbol) == Prepend(done, Walk(rest, entity, symbol))
      decreases |rest|
    {
      hide Prepend;
      ComparesPrefix(done, rest, entity);
      if |entity| + loc <= |out| && out[loc..loc + |entity|] == entity {
        if entity == [] {
          WalkHangs(rest, entity, symbol, done);
          return out, true;
        }
        Replaced(done, rest, entity, symbol);
        WalkReplaces(rest, entity, symbol);
        PrependTwice(done, symbol, Walk(rest[|entity|..], entity, symbol));
        out := out[..loc] + symbol + out[loc + |entity|..];
        loc := loc + |symbol|;
        done, rest := done + symbol, rest[|entity|..];
        continue;
      }
      var n := CharLen(out[loc]);
      if n == 0 {
        WalkHangs(rest, entity, symbol, done);
        return out, true;
      }
      if n >= |rest| {
        LastChar(rest, entity, symbol, done);
        done, rest := done + rest, [];
        assert done + [] == done;
      } else {
        Copied(done, rest, n);
        WalkSteps(rest, entity, symbol);
        PrependTwice(done, rest[..n], Walk(rest[n..], entity, symbol));
        done, rest := done + rest[..n], rest[n..];
      }
      loc := loc + n;
    }
    assert done + [] == done;
    WalkEnds(entity, symbol);
  }

  lemma WalkReplaces(s: seq<Byte>, e: seq<Byte>, sym: seq<Byte>)
    requires s != [] && e != [] && e <= s
    ensures Walk(s, e, sym) == Prepend(sym, Walk(s[|e|..], e, sym))
  {
  }

  lemma WalkSteps(s: seq<Byte>, e: seq<Byte>, sym: seq<Byte>)
    requires s != [] && e != [] && !(e <= s) && 0 < CharLen(s[0]) < |s|
    ensures var n := CharLen(s[0]); Walk(s, e, sym) == Prepend(s[..n], Walk(s[n..], e, sym))
  {
    hide CharLen;
  }

  lemma WalkEnds(e: seq<Byte>, sym: seq<Byte>)
    ensures Walk([], e, sym) == Some([])
  {
  }

  lemma WalkHangs(s: seq<Byte>, e: seq<Byte>, sym: seq<Byte>, done: seq<Byte>)
    requires s != [] && (e == [] || (!(e <= s) && CharLen(s[0]) == 0))
    ensures Prepend(done, Walk(s, e, sym)) == None
  {
    hide CharLen;
  }

  lemma PrependNone(w: Option<seq<Byte>>)
    ensures Prepend([], w) == w
  {
    if w.Some? { assert [] + w.value == w.value; }
  }

  lemma PrependTwice(a: seq<Byte>, b: seq<Byte>, w: Option<seq<Byte>>)
    ensures Prepend(a, Prepend(b, w)) == Prepend(a + b, w)
  {
    if w.Some? { Assoc(a, b, w.value); }
  }

  /** The default branch: find from the current place on, replace, go on after the replacement. */
  method ReplaceAllPlain(s: seq<Byte>, entity: seq<Byte>, symbol: seq<Byte>) returns (out: seq<Byte>)
    requires entity != []
    ensures out == Plain(s, entity, symbol)
  {
    hide Plain;
    out := s;
    var loc := 0;
    ghost var done, rest: seq<Byte> := [], s;
    assert [] + s == s && [] + Plain(s, entity, symbol) == Plain(s, entity, symbol);
    while true
      invariant out == done + rest && loc == |done|
      invariant done + Plain(rest, entity, symbol) == Plain(s, entity, symbol)
      decreases |rest|
    {
      Cut(done, rest, 0);
      var at := FindFrom(out, entity, loc);
      var n := at - loc;
      if at == |out| {
        RestIsCopied(rest, entity, symbol, n);
        return;
      }
      PlainMatches(rest, entity, symbol, n);
      Cut(done, rest, n);
      Cut(done, rest, n + |entity|);
      Assoc(done, rest[..n], symbol + Plain(rest[n + |entity|..], entity, symbol));
      Assoc(done + rest[..n], symbol, Plain(rest[n + |entity|..], entity, symbol));
      out := out[..at] + symbol + out[at + |entity|..];
      loc := at + |symbol|;
      done, rest := done + rest[..n] + symbol, rest[n + |entity|..];
    }
  }

  lemma RestIsCopied(s: seq<Byte>, e: seq<Byte>, sym: seq<Byte>, n: nat)
    requires e != [] && n == |s| && forall j :: 0 <= j < n ==> !(e <= s[j..])
    ensures Plain(s, e, sym) == s
  {
    PlainCopies(s, e, sym, n);
    assert s[n..] == [] && s[..n] == s && s + [] == s;
  }

  lemma PlainMatches(s: seq<Byte>, e: seq<Byte>, sym: seq<Byte>, n: nat)
    requires e != [] && n < |s| && e <= s[n..] && forall j :: 0 <= j < n ==> !(e <= s[j..])
    ensures Plain(s, e, sym) == s[..n] + (sym + Plain(s[n + |e|..], e, sym))
  {
    PlainCopies(s, e, sym, n);
    assert s[n..][|e|..] == s[n + |e|..];
  }

  /** std::string::find: the first match not before loc, or the length when there is none. */
  method FindFrom(s: seq<Byte>, e: seq<Byte>, loc: nat) returns (at: nat)
    requires e != [] && loc <= |s|
    ensures loc <= at <= |s|
    ensures at < |s| ==> |e| + at <= |s| && e <= s[at..] && e <= s[loc..][at - loc..]
    ensures forall j :: 0 <= j < at - loc ==> !(e <= s[loc..][j..])
  {
    at := loc;
    while at < |s| && !(e <= s[at..])
      invariant loc <= at <= |s|
      invariant forall j :: 0 <= j < at - loc ==> !(e <= s[loc..][j..])
    {
      assert s[loc..][at - loc..] == s[at..];
      at := at + 1;
    }
    if at < |s| { assert s[loc..][at - loc..] == s[at..]; }
  }
}
