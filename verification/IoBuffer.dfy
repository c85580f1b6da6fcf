/** The chunked buffer, refining one queue of bytes. */
module IoBuffer {
  import opened Common

  /** Growing the last block appends to the whole. */
  lemma JoinedGrows(blocks: seq<seq<Byte>>, more: seq<Byte>)
    requires blocks != []
    ensures var n := |blocks| - 1;
            Joined(blocks[n := blocks[n] + more]) == Joined(blocks) + more
  {
    var n := |blocks| - 1;
    var grown := blocks[n := blocks[n] + more];
    JoinedSplits(blocks, n);
    JoinedSplits(grown, n);
    assert grown[..n] == blocks[..n] && grown[n..] == [blocks[n] + more] && blocks[n..] == [blocks[n]];
    JoinedOne(blocks[n]);
    JoinedOne(blocks[n] + more);
  }

  /** Blocks are never empty, never over the allocation size, and the read position is inside the first one. */
  ghost predicate WellFormed(blocks: seq<seq<Byte>>, ptr: nat, allocationsize: nat) {
    && allocationsize > 0
    && (forall k :: 0 <= k < |blocks| ==> 0 < |blocks[k]| <= allocationsize)
    && ptr <= |Joined(blocks)|
    && (if blocks == [] then ptr == 0 else ptr < |blocks[0]|)
  }

  class IOBuffer {
    const allocationsize: nat
    var buffer: seq<seq<Byte>>
    var ptr: nat

    ghost predicate Valid()
      reads this
    {
      WellFormed(buffer, ptr, allocationsize)
    }

    /** The bytes not yet read. */
    ghost function Contents(): seq<Byte>
      requires Valid()
      reads this
    {
      Joined(buffer)[ptr..]
    }

    constructor (allocationsize: nat)
      requires allocationsize > 0
      ensures Valid() && Contents() == []
    {
      this.allocationsize := allocationsize;
      buffer, ptr := [], 0;
    }

    method RemoveBlock()
      requires buffer != []
      modifies this
      ensures buffer == old(buffer)[1..] && ptr == 0
    {
      buffer := buffer[1..];
      ptr := 0;
    }

    method AddBlock()
      modifies this`buffer
      ensures buffer == old(buffer) + [[]]
    {
      buffer := buffer + [[]];
    }

    method Clear()
      requires Valid()
      modifies this
      ensures Valid() && Contents() == []
    {
      while buffer != []
        decreases |buffer|
      {
        RemoveBlock();
      }
      ptr := 0;
    }

    method Size() returns (total: int)
      requires Valid()
      ensures total == |Contents()|
    {
      total := 0;
      for i := 0 to |buffer|
        invariant total == |Joined(buffer[..i])|
      {
        JoinedNext(buffer, i);
        total := total + |buffer[i]|;
      }
      assert buffer[..|buffer|] == buffer;
      total := total - ptr;
    }

    method Empty() returns (r: bool)
      requires Valid()
      ensures r <==> Contents() == []
    {
      if buffer != [] { JoinedNext(buffer, 0); }
      r := buffer == [];
    }

    /** The first bytes, as many as there are up to len, leaving them where they are. */
    method Peek(len: nat) returns (dest: seq<Byte>)
      requires Valid()
      ensures dest == Contents()[..Min(len, |Contents()|)]
    {
      hide Joined, WellFormed;
      StartInside(buffer, ptr, allocationsize);
      var i, p, left := 0, ptr, len;
      dest := [];
      while left > 0
        invariant 0 <= i <= |buffer| && 0 <= left <= len
        invariant left > 0 ==> p == if i == 0 then ptr else 0
        invariant i == 0 ==> left == len && dest == []
        invariant i > 0 ==> ptr <= |Joined(buffer[..i])|
        invariant i > 0 && left > 0 ==> dest == Joined(buffer[..i])[ptr..] && |dest| + left == len
        invariant left == 0 ==> |dest| == len <= |Contents()| && dest == Contents()[..len]
        decreases |buffer| - i + left
      {
        if i == |buffer| {
          assert buffer[..i] == buffer;
          break;
        }
        var tc := |buffer[i]| - p;
        if tc > left { tc := left; }
        ghost var before := dest;
        dest := dest + buffer[i][p..p+tc];
        PeekStep(buffer, ptr, i, p, before, tc);
        i := i + 1;
        p := 0;
        left := left - tc;
      }
    }

    /** Drops bytes from the front; the source asserts that there are enough. */
    method Skip(len: nat)
      requires Valid() && len <= |Contents()|
      modifies this
      ensures Valid() && Contents() == old(Contents())[len..]
    {
      hide Joined;
      var left := len;
      while left > 0
        invariant 0 <= left <= len && Valid() && left <= |Contents()|
        invariant Contents() == old(Contents())[len - left..]
      {
        NotEmpty(buffer);
        var tn := left;
        if tn > |buffer[0]| - ptr {
          tn := |buffer[0]| - ptr;
        }
        SkipStep(buffer, ptr, tn, allocationsize);
        ptr := ptr + tn;
        if ptr == |buffer[0]| {
          RemoveBlock();
        }
        left := left - tn;
      }
    }

    /** Removes and returns the first bytes, as many as there are up to len. */
    method Read(len: nat) returns (dest: seq<Byte>)
      requires Valid()
      modifies this
      ensures Valid() && dest + Contents() == old(Contents())
      ensures |dest| == Min(len, |old(Contents())|)
    {
      dest := Peek(len);
      Skip(|dest|);
    }

    /** Appends bytes, filling the last block before adding another. */
    method Write(source: seq<Byte>)
      requires Valid()
      modifies this
      ensures Valid() && Contents() == old(Contents()) + source
    {
      hide Joined, WellFormed;
      var src, len := 0, |source|;
      while len > 0
        invariant 0 <= src && 0 <= len && src + len == |source| && Valid()
        invariant Contents() == old(Contents()) + source[..src]
      {
        var tc := len;
        ghost var blocks := buffer;
        LastFits(buffer, ptr, allocationsize);
        if buffer == [] || allocationsize == |buffer[|buffer|-1]| {
          AddBlock();
        }
        var last := |buffer| - 1;
        if tc > allocationsize - |buffer[last]| {
          tc := allocationsize - |buffer[last]|;
        }
        WriteStep(blocks, buffer, ptr, source[src..src+tc], allocationsize);
        buffer := buffer[last := buffer[last] + source[src..src+tc]];
        AppendSlice(old(Contents()), source, src, tc);
        src := src + tc;
        len := len - tc;
      }
      assert source[..src] == source;
    }

    /**
     * The position of the first byte equal to a char, or -1. The char's value may be negative where char is signed;
     * a byte passed as such a char is found exactly when it is there and is ASCII.
     */
    method SearchChr(ch: int) returns (c: int)
      requires Valid() && -128 <= ch < 256
      ensures c == -1 ==> forall k :: 0 <= k < |Contents()| ==> Contents()[k] != ch
      ensures c != -1 ==> 0 <= c < |Contents()| && Contents()[c] == ch
                          && forall k :: 0 <= k < c ==> Contents()[k] != ch
      ensures forall b: Byte :: ch == SignedChar(b) ==> (c != -1 <==> b < 128 && b in Contents())
      ensures forall b: Byte :: ch == b ==> (c != -1 <==> b in Contents())
    {
      var i, p := 0, ptr;
      c := 0;
      while i < |buffer|
        invariant 0 <= i <= |buffer|
        invariant p == if i == 0 then ptr else 0
        invariant Reached(buffer, ptr, i, p, c)
        invariant forall k :: 0 <= k < c && k < |Contents()| ==> Contents()[k] != ch
      {
        while p < |buffer[i]|
          invariant p <= |buffer[i]| && Reached(buffer, ptr, i, p, c)
          invariant forall k :: 0 <= k < c && k < |Contents()| ==> Contents()[k] != ch
          decreases |buffer[i]| - p
        {
          AtPosition(buffer, ptr, i, p, c);
          if buffer[i][p] == ch {
            Found(Contents(), ch, c);
            return;
          }
          c := c + 1;
          p := p + 1;
        }
        JoinedNext(buffer, i);
        i := i + 1;
        p := 0;
      }
      assert buffer[..i] == buffer;
      NotFound(Contents(), ch);
      c := -1;
    }
  }

  /** A byte passed as a char, on a platform whose char is signed. */
  function SignedChar(b: Byte): int { if b < 128 then b else b - 256 }

  /** A signed char is the byte, or 256 below it. */
  lemma SignedCharIs(b: Byte)
    ensures -128 <= SignedChar(b) < 128 && (SignedChar(b) == b || SignedChar(b) + 256 == b)
  {
  }

  lemma Found(s: seq<Byte>, ch: int, c: nat)
    requires c < |s| && s[c] == ch
    ensures forall b: Byte :: ch == SignedChar(b) ==> b < 128 && b in s
    ensures forall b: Byte :: ch == b ==> b in s
  {
  }

  lemma NotFound(s: seq<Byte>, ch: int)
    requires forall k :: 0 <= k < |s| ==> s[k] != ch
    ensures forall b: Byte :: ch == SignedChar(b) ==> !(b < 128 && b in s)
    ensures forall b: Byte :: ch == b ==> b !in s
  {
  }

  /** A byte passed as a signed char stands in the buffer for the comparison if and only if it is there and is ASCII. */
  lemma FindsOnlyAscii(s: seq<Byte>, b: Byte)
    ensures (exists k :: 0 <= k < |s| && s[k] == SignedChar(b)) <==> b < 128 && b in s
  {
    if b < 128 && b in s {
      var k :| 0 <= k < |s| && s[k] == b;
      assert s[k] == SignedChar(b);
    }
  }

  /** Where char is signed, the byte 0xE9 becomes another number, so a buffer that holds it is searched in vain. */
  lemma HighByteMissed()
    ensures SignedChar(0xE9) != 0xE9
    ensures var s: seq<Byte> := [0xE9];
            0xE9 in s && !exists k :: 0 <= k < |s| && s[k] == SignedChar(0xE9)
  {
    FindsOnlyAscii([0xE9], 0xE9);
  }

  /** c counts the bytes from the read position up to byte p of block i. */
  ghost predicate Reached(blocks: seq<seq<Byte>>, ptr: nat, i: nat, p: nat, c: int) {
    i <= |blocks| && |Joined(blocks[..i])| + p == ptr + c && c >= 0
  }

  lemma AtPosition(blocks: seq<seq<Byte>>, ptr: nat, i: nat, p: nat, c: int)
    requires i < |blocks| && p < |blocks[i]| && Reached(blocks, ptr, i, p, c)
    ensures ptr + c < |Joined(blocks)| && Joined(blocks)[ptr..][c] == blocks[i][p]
  {
    JoinedSplits(blocks, i);
    assert blocks[i..][0] == blocks[i];
  }

  lemma PeekStep(blocks: seq<seq<Byte>>, ptr: nat, i: nat, p: nat, before: seq<Byte>, tc: nat)
    requires i < |blocks| && p + tc <= |blocks[i]|
    requires if i == 0 then p == ptr && before == [] else p == 0 && ptr <= |Joined(blocks[..i])| && before == Joined(blocks[..i])[ptr..]
    ensures var after := before + blocks[i][p..p+tc];
            && ptr + |after| <= |Joined(blocks)| && after == Joined(blocks)[ptr..][..|after|]
            && ptr <= |Joined(blocks[..i+1])|
            && (p + tc == |blocks[i]| ==> after == Joined(blocks[..i+1])[ptr..])
  {
    JoinedNext(blocks, i);
    JoinedSplits(blocks, i + 1);
    assert blocks[..0] == [] && Joined(blocks[..0]) == [];
    hide Joined;
    var after, sofar := before + blocks[i][p..p+tc], Joined(blocks[..i+1]);
    assert after == sofar[ptr..][..|after|];
    assert Joined(blocks)[ptr..] == sofar[ptr..] + Joined(blocks[i+1..]);
  }

  lemma NotEmpty(blocks: seq<seq<Byte>>)
    ensures blocks == [] ==> Joined(blocks) == []
  {
  }

  lemma StartInside(blocks: seq<seq<Byte>>, ptr: nat, allocationsize: nat)
    requires WellFormed(blocks, ptr, allocationsize)
    ensures ptr <= |Joined(blocks)| && (if blocks == [] then ptr == 0 && Joined(blocks) == [] else ptr < |blocks[0]|)
  {
  }

  lemma LastFits(blocks: seq<seq<Byte>>, ptr: nat, allocationsize: nat)
    requires WellFormed(blocks, ptr, allocationsize)
    ensures allocationsize > 0 && (blocks != [] ==> |blocks[|blocks|-1]| <= allocationsize)
  {
  }

  lemma AppendSlice(s: seq<Byte>, source: seq<Byte>, i: nat, n: nat)
    requires i + n <= |source|
    ensures s + source[..i] + source[i..i+n] == s + source[..i+n]
  {
  }

  /** Moving the read position, and dropping the first block when it is used up. */
  lemma SkipStep(blocks: seq<seq<Byte>>, ptr: nat, tn: nat, allocationsize: nat)
    requires WellFormed(blocks, ptr, allocationsize) && blocks != [] && ptr + tn <= |blocks[0]|
    ensures ptr + tn < |blocks[0]| ==> WellFormed(blocks, ptr + tn, allocationsize)
    ensures ptr + tn <= |Joined(blocks)|
    ensures Joined(blocks)[ptr + tn..] == Joined(blocks)[ptr..][tn..]
    ensures ptr + tn == |blocks[0]| ==>
              WellFormed(blocks[1..], 0, allocationsize) && Joined(blocks[1..])[0..] == Joined(blocks)[ptr..][tn..]
  {
  }

  /** Filling the last block, or a new one after it, appends to the contents. */
  lemma WriteStep(old_blocks: seq<seq<Byte>>, blocks: seq<seq<Byte>>, ptr: nat, more: seq<Byte>, allocationsize: nat)
    requires WellFormed(old_blocks, ptr, allocationsize) && blocks != [] && more != []
    requires blocks == old_blocks || blocks == old_blocks + [[]]
    requires |blocks[|blocks|-1]| + |more| <= allocationsize
    ensures var n := |blocks| - 1;
            var grown := blocks[n := blocks[n] + more];
            WellFormed(grown, ptr, allocationsize) && Joined(grown)[ptr..] == Joined(old_blocks)[ptr..] + more
  {
    JoinedGrows(blocks, more);
    if blocks != old_blocks {
      JoinedSplits(blocks, |old_blocks|);
      assert blocks[..|old_blocks|] == old_blocks && blocks[|old_blocks|..] == [[]];
      JoinedOne<Byte>([]);
    }
    assert Joined(blocks) == Joined(old_blocks);
  }
}
