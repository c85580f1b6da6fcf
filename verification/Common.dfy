/** Small things several models share. */
module Common {

  type Byte = b: int | 0 <= b < 256

  datatype Option<T> = None | Some(value: T)

  function Min(a: int, b: int): int { if a < b then a else b }

  function Abs(r: real): real { if r >= 0.0 then r else -r }

  lemma NotNegative(a: real, b: real)
    requires a >= 0.0 && b >= 0.0
    ensures a * b >= 0.0
  {
  }

  /** Parts laid end to end. */
  function Joined<T>(parts: seq<seq<T>>): seq<T> {
    if parts == [] then [] else parts[0] + Joined(parts[1..])
  }

  lemma {:induction false} JoinedSplits<T>(parts: seq<seq<T>>, k: nat)
    requires k <= |parts|
    ensures Joined(parts) == Joined(parts[..k]) + Joined(parts[k..])
  {
    if k == 0 {
      assert parts[k..] == parts;
    } else {
      JoinedSplits(parts[1..], k - 1);
      assert parts[1..][..k-1] == parts[..k][1..] && parts[1..][k-1..] == parts[k..];
    }
  }

  lemma JoinedOne<T>(part: seq<T>)
    ensures Joined([part]) == part
  {
    assert [part][1..] == [];
  }

  lemma JoinedNext<T>(parts: seq<seq<T>>, k: nat)
    requires k < |parts|
    ensures Joined(parts[..k+1]) == Joined(parts[..k]) + parts[k]
  {
    JoinedSplits(parts[..k+1], k);
    assert parts[..k+1][..k] == parts[..k] && parts[..k+1][k..] == [parts[k]];
    JoinedOne(parts[k]);
  }

  lemma MulMono(c: int, x: int, y: int)
    requires 0 <= c && x <= y
    ensures c * x <= c * y
  {
  }

  lemma Assoc<T>(a: seq<T>, b: seq<T>, c: seq<T>)
    ensures (a + b) + c == a + (b + c)
  {
  }
}
