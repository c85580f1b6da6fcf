/** A read cache in front of a source of bytes. */
module CachedSource {
  import opened Common

  const CACHE_SIZE := 32 * 1024

  /** The unchanging source behind the cache. A read may fail, or be shorter than what there is. */
  class Source {
    const content: seq<Byte>
    ghost var asked: nat

    constructor (content: seq<Byte>)
      ensures this.content == content && asked == 0
    {
      this.content := content;
      asked := 0;
    }

    method Read(offset: nat, count: nat, answer: int) returns (ret: int, data: seq<Byte>)
      modifies this
      ensures asked == old(asked) + 1
      ensures answer < 0 ==> ret == -1 && data == []
      ensures answer >= 0 ==> ret == |data| <= count && Agrees(content, offset, data)
      ensures answer >= 0 ==> (ret == 0 <==> count == 0 || offset >= |content|)
      ensures answer == 0 && offset <= |content| ==> ret == Min(count, |content| - offset)
    {
      asked := asked + 1;
      if answer < 0 {
        return -1, [];
      }
      var available := if offset <= |content| then Min(count, |content| - offset) else 0;
      ret := if available == 0 then 0 else if 1 <= answer <= available then answer else available;
      data := if ret == 0 then [] else content[offset..offset+ret];
    }
  }

  /** Bytes that are the content's at an offset; no bytes agree anywhere. */
  ghost predicate Agrees(content: seq<Byte>, offset: nat, data: seq<Byte>) {
    data == [] || (offset + |data| <= |content| && data == content[offset..offset+|data|])
  }

  lemma AgreesSlice(content: seq<Byte>, offset: nat, data: seq<Byte>, lo: nat, hi: nat)
    requires Agrees(content, offset, data) && lo <= hi <= |data|
    ensures Agrees(content, offset + lo, data[lo..hi])
    ensures lo < hi ==> offset + hi <= |content|
  {
    if lo < hi {
      var part, whole := data[lo..hi], content[offset + lo..offset + hi];
      forall k | 0 <= k < hi - lo
        ensures part[k] == whole[k]
      {
        assert part[k] == data[lo + k] == content[offset + (lo + k)];
      }
      assert part == whole;
    }
  }

  class Cached {
    const source: Source
    const buffer: array<Byte>
    var cacheOffset: nat
    var cacheBytes: nat

    /** The used part of the buffer is the source's content at the cached offset. */
    ghost predicate Valid()
      reads this, buffer
    {
      && buffer.Length == CACHE_SIZE && cacheBytes <= CACHE_SIZE
      && Agrees(source.content, cacheOffset, buffer[..cacheBytes])
    }

    constructor (source: Source)
      ensures Valid() && this.source == source && fresh(buffer)
    {
      this.source := source;
      buffer := new Byte[CACHE_SIZE](i => 0);
      cacheOffset, cacheBytes := 0, 0;
    }

    /** Fewer than 32 kB are asked for, and they end before the cached ones do. */
    predicate Hit(offset: nat, count: nat)
      reads this
    {
      count < CACHE_SIZE && offset >= cacheOffset && offset + count < cacheOffset + cacheBytes
    }

    /**
     * The bytes are the source's; there are as many as asked for, unless the source was asked and gave fewer.
     * A hit does not ask the source, and a failure or an end is the source's own.
     */
    method Read(offset: nat, count: nat, answer: int) returns (ret: int, data: seq<Byte>)
      requires Valid()
      modifies this, buffer, source
      ensures Valid()
      ensures source.asked == old(source.asked) + (if old(Hit(offset, count)) then 0 else 1)
      ensures ret < 0 <==> answer < 0 && !old(Hit(offset, count))
      ensures ret >= 0 ==> ret == |data| <= count && Agrees(source.content, offset, data)
      ensures ret >= 0 ==> (ret == 0 <==> count == 0 || offset >= |source.content|)
      ensures old(Hit(offset, count)) ==> ret == count && buffer[..] == old(buffer[..])
      ensures count < 32768 && 0 <= ret < count ==> ret == 0 || (cacheOffset == offset && cacheBytes == ret)
      ensures answer == 0 && offset <= |source.content| ==> ret == Min(count, |source.content| - offset)
    {
      hide Agrees;
      if count >= CACHE_SIZE {
        ret, data := source.Read(offset, count, answer);
        return;
      }
      var copied := count;
      if offset < cacheOffset || offset + count >= cacheOffset + cacheBytes {
        var bytes, refill := source.Read(offset, CACHE_SIZE, answer);
        if bytes <= 0 {
          return bytes, [];
        }
        forall i | 0 <= i < bytes {
          buffer[i] := refill[i];
        }
        if bytes < copied {
          copied := bytes;
        }
        cacheOffset := offset;
        cacheBytes := bytes;
        assert buffer[..bytes] == refill;
      }
      var held := buffer[..cacheBytes];
      AgreesSlice(source.content, cacheOffset, held, 0, cacheBytes);
      assert held[0..cacheBytes] == held;
      var index := offset - cacheOffset;
      AgreesSlice(source.content, cacheOffset, held, index, index + copied);
      data := held[index..index+copied];
      ret := copied;
    }
  }

  /** Two answers for the same offset never disagree, whether they came from the cache or from the source. */
  lemma AnswersAgree(content: seq<Byte>, offset: nat, a: seq<Byte>, b: seq<Byte>)
    requires Agrees(content, offset, a) && Agrees(content, offset, b)
    ensures a <= b || b <= a
  {
    if a != [] && b != [] {
      assert |a| <= |b| ==> a == content[offset..offset+|b|][..|a|];
      assert |b| <= |a| ==> b == content[offset..offset+|a|][..|b|];
    }
  }
}
