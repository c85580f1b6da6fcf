/** Timers and the main loop that keeps them in one sorted list. */
module Timers {
  import opened Common
  import opened Timespecs
  import opened TimerQueue

  /** A timer as the sorted list sees it. */
  ghost function EntryOf(t: Timer): Entry<Timer>
    reads t
  {
    Entry(t, t.nextActivation, t.interval, t.singleShot)
  }

  ghost function Entries(ts: seq<Timer>): (q: Queue<Timer>)
    reads ts
    ensures |q| == |ts| && forall i :: 0 <= i < |ts| ==> q[i] == EntryOf(ts[i])
  {
    if ts == [] then [] else [EntryOf(ts[0])] + Entries(ts[1..])
  }

  /** A list without the first occurrence of a timer. */
  function Without(ts: seq<Timer>, e: Timer): seq<Timer> {
    if ts == [] then [] else if ts[0] == e then ts[1..] else [ts[0]] + Without(ts[1..], e)
  }

  ghost predicate Once(ts: seq<Timer>) { forall i, j :: 0 <= i < j < |ts| ==> ts[i] != ts[j] }

  lemma OnceSplits(ts: seq<Timer>)
    requires ts != []
    ensures Once(ts) <==> Once(ts[1..]) && ts[0] !in ts[1..]
  {
    if Once(ts[1..]) && ts[0] !in ts[1..] {
      forall i, j | 0 <= i < j < |ts|
        ensures ts[i] != ts[j]
      {
        assert ts[j] == ts[1..][j-1];
        assert i > 0 ==> ts[i] == ts[1..][i-1];
      }
    }
  }

  lemma {:induction false} WithoutKeeps(ts: seq<Timer>, e: Timer)
    requires Once(ts)
    ensures Once(Without(ts, e)) && forall t :: t in Without(ts, e) <==> t in ts && t != e
  {
    hide Once;
    if ts != [] {
      assert forall t :: t in ts <==> t == ts[0] || t in ts[1..];
      OnceSplits(ts);
      if ts[0] != e {
        WithoutKeeps(ts[1..], e);
        assert Without(ts, e)[1..] == Without(ts[1..], e);
        OnceSplits(Without(ts, e));
      }
    }
  }

  /** No timer of the list comes before the instant. */
  ghost predicate NotBefore(ts: seq<Timer>, at: Timespec)
    reads ts
  {
    forall t :: t in ts ==> LessEq(at, t.nextActivation)
  }

  lemma SortedSplits(ts: seq<Timer>)
    requires ts != []
    ensures Sorted(Entries(ts)) <==> Sorted(Entries(ts[1..])) && NotBefore(ts[1..], ts[0].nextActivation)
  {
    hide LessEq;
    var q := Entries(ts);
    assert q[1..] == Entries(ts[1..]);
    hide Entries;
    if Sorted(q) {
      forall t | t in ts[1..]
        ensures LessEq(ts[0].nextActivation, t.nextActivation)
      {
        var k :| 0 <= k < |ts[1..]| && ts[1..][k] == t;
        assert LessEq(q[0].at, q[k+1].at);
      }
    }
    if Sorted(q[1..]) && NotBefore(ts[1..], ts[0].nextActivation) {
      forall i, j | 0 <= i < j < |q|
        ensures LessEq(q[i].at, q[j].at)
      {
        if i == 0 {
          assert ts[1..][j-1] == ts[j];
        } else {
          assert LessEq(q[1..][i-1].at, q[1..][j-1].at);
        }
      }
    }
  }

  lemma {:induction false} WithoutSorted(ts: seq<Timer>, e: Timer)
    requires Sorted(Entries(ts))
    ensures Sorted(Entries(Without(ts, e)))
    ensures forall t :: t in Without(ts, e) ==> t in ts
  {
    hide LessEq, Sorted, Entries;
    if ts != [] {
      SortedSplits(ts);
      if ts[0] != e {
        WithoutSorted(ts[1..], e);
        assert Without(ts, e)[1..] == Without(ts[1..], e);
        SortedSplits(Without(ts, e));
      }
    }
  }

  lemma {:induction false} WithoutAfter(front: seq<Timer>, rest: seq<Timer>, e: Timer)
    requires e !in front
    ensures Without(front + rest, e) == front + Without(rest, e)
  {
    if front == [] {
      assert front + rest == rest;
    } else {
      var tail := front[1..];
      assert front == [front[0]] + tail;
      WithoutAfter(tail, rest, e);
      assert (front + rest)[1..] == tail + rest;
      assert Without(front + rest, e) == [front[0]] + Without(tail + rest, e);
    }
  }

  lemma WithoutSplit(ts: seq<Timer>, e: Timer, i: nat)
    requires i <= |ts| && (forall k :: 0 <= k < i ==> ts[k] != e) && (i < |ts| ==> ts[i] == e)
    ensures Without(ts, e) == if i < |ts| then ts[..i] + ts[i+1..] else ts
  {
    WithoutAfter(ts[..i], ts[i..], e);
    assert ts == ts[..i] + ts[i..];
    if i < |ts| { assert ts[i..][1..] == ts[i+1..]; }
  }

  lemma InsertOnce(ts: seq<Timer>, e: Timer, p: nat)
    requires Once(ts) && e !in ts && p <= |ts|
    ensures Once(ts[..p] + [e] + ts[p..])
    ensures forall t :: t in ts[..p] + [e] + ts[p..] <==> t == e || t in ts
  {
    var r := ts[..p] + [e] + ts[p..];
    forall i, j | 0 <= i < j < |r|
      ensures r[i] != r[j]
    {
      assert r[i] == if i < p then ts[i] else if i == p then e else ts[i-1];
      assert r[j] == if j < p then ts[j] else if j == p then e else ts[j-1];
    }
    assert ts == ts[..p] + ts[p..];
  }

  lemma EntriesOfInsert(ts: seq<Timer>, e: Timer, p: nat)
    requires SplitsAt(Entries(ts), e.nextActivation, p)
    ensures Entries(ts[..p] + [e] + ts[p..]) == Insert(Entries(ts), EntryOf(e))
  {
    hide Insert, Entries;
    var q, r := Entries(ts), ts[..p] + [e] + ts[p..];
    InsertAtSplit(q, EntryOf(e), p);
    hide SplitsAt;
    assert Entries(r) == q[..p] + [EntryOf(e)] + q[p..];
  }

  class MainLoop {
    var timers: seq<Timer>
    var existing: bool
    ghost var owned: set<Timer>
    ghost var fired: seq<Firing<Timer>>

    /** The list is sorted, and holds each active timer of the loop exactly once, leaving out one in transit. */
    ghost predicate Holding(loose: Timer?)
      reads this, owned, timers
    {
      && Once(timers)
      && (forall t :: t in owned ==> t.context == this)
      && (forall t :: t in timers ==> t in owned && t.active && t != loose)
      && (forall t :: t in owned && t.active && t != loose ==> t in timers)
      && Sorted(Entries(timers))
    }

    ghost predicate Valid()
      reads this, owned, timers
    {
      Holding(null)
    }

    constructor ()
      ensures Valid() && existing && timers == [] && owned == {} && fired == []
    {
      timers, existing, owned, fired := [], true, {}, [];
    }

    /** Binary search for the first timer that is not earlier. */
    method LowerBound(at: Timespec) returns (first: nat)
      requires Sorted(Entries(timers))
      ensures first <= |timers| && SplitsAt(Entries(timers), at, first)
    {
      hide Less, LessEq, Entries, Sorted;
      first := 0;
      var len := |timers|;
      while len > 0
        invariant 0 <= len && first + len <= |timers|
        invariant forall i :: 0 <= i < first ==> Less(timers[i].nextActivation, at)
        invariant forall i :: first + len <= i < |timers| ==> !Less(timers[i].nextActivation, at)
      {
        var half := len / 2;
        var middle := first + half;
        EarlierIsDown(timers, middle, at);
        if Less(timers[middle].nextActivation, at) {
          first, len := middle + 1, len - half - 1;
        } else {
          len := half;
        }
      }
    }

    /** Insertion in order. */
    method AddTimer(e: Timer)
      requires Holding(e) && e in owned && e.active
      modifies this`timers
      ensures Valid()
      ensures Entries(timers) == Insert(old(Entries(timers)), EntryOf(e))
    {
      hide Less, LessEq, Entries, Sorted, Insert, SplitsAt, Once;
      var first := LowerBound(e.nextActivation);
      EntriesOfInsert(timers, e, first);
      InsertKeeps(Entries(timers), EntryOf(e));
      InsertOnce(timers, e, first);
      timers := timers[..first] + [e] + timers[first..];
    }

    /** Removes the first occurrence, if there is one. */
    method RemoveTimer(e: Timer)
      modifies this`timers
      ensures timers == Without(old(timers), e)
    {
      var i := 0;
      while i < |timers|
        invariant i <= |timers| && timers == old(timers)
        invariant forall k :: 0 <= k < i ==> timers[k] != e
      {
        if timers[i] == e {
          WithoutSplit(timers, e, i);
          timers := timers[..i] + timers[i+1..];
          return;
        }
        i := i + 1;
      }
      WithoutSplit(timers, e, i);
    }

    /** The timer part of processing one event: dispatch at one instant, then the timeout for poll. */
    method ProcessTimers(now: Timespec, later: Timespec, user: int) returns (timeout: int, reason: int)
      requires Valid() && Steady(Entries(timers), now)
      modifies this`timers, this`fired, owned
      ensures Valid() && owned == old(owned) && existing == old(existing)
      ensures var p := Pass(old(Entries(timers)), now); fired == old(fired) + p.fired && Entries(timers) == p.rest
      ensures var wait := if old(timers) == [] then -1 else Wait(Entries(timers), later);
              if wait < 0 || 0 <= user < wait then timeout == user && reason == 1 else timeout == wait && reason == 0
    {
      var pollTimeout := -1;
      reason := 0;
      if timers != [] {
        Dispatch(now);
        if timers != [] {
          pollTimeout := TimeoutUsec(timers[0].nextActivation, later);
        }
        pollTimeout := if pollTimeout < 0 then 0 else pollTimeout / 1000;
      }
      if pollTimeout < 0 || (user >= 0 && pollTimeout > user) {
        pollTimeout := user;
        reason := 1;
      }
      timeout := pollTimeout;
    }

    /** The dispatch loop: while the first timer is due, take it out of the list and activate it. */
    method Dispatch(now: Timespec)
      requires Valid() && Steady(Entries(timers), now) && timers != []
      modifies this`timers, this`fired, owned
      ensures Valid() && owned == old(owned)
      ensures var p := Pass(old(Entries(timers)), now); fired == old(fired) + p.fired && Entries(timers) == p.rest
    {
      hide Less, LessEq, Entries, Sorted, Insert, Once, Steady, Hangs, Fire, Life, Pass;
      ghost var q := Entries(timers);
      var tmr := timers[0];
      while LessEq(tmr.nextActivation, now)
        invariant Valid() && owned == old(owned) && timers != [] && tmr == timers[0]
        invariant Steady(Entries(timers), now)
        invariant Pass(q, now).rest == Pass(Entries(timers), now).rest
        invariant old(fired) + Pass(q, now).fired == fired + Pass(Entries(timers), now).fired
        decreases Life(Entries(timers), now)
      {
        ghost var before := Entries(timers);
        PassFires(before, now);
        Assoc(fired, [Firing(tmr, tmr.nextActivation)], Pass(Fire(before), now).fired);
        EraseKeeps();
        timers := timers[1..];
        tmr.Activate();
        assert Entries(timers) == Fire(before);
        if timers == [] {
          break;
        }
        tmr := timers[0];
      }
      PassStops(Entries(timers), now);
    }

    /** With the first timer taken out, the rest of the list is as before. */
    lemma EraseKeeps()
      requires Valid() && timers != []
      ensures Once(timers[1..]) && timers[0] !in timers[1..] && Sorted(Entries(timers[1..]))
      ensures forall t :: t in timers[1..] <==> t in timers && t != timers[0]
      ensures Entries(timers[1..]) == Entries(timers)[1..]
    {
      hide LessEq;
    }

    /** Destruction stops every timer and takes the loop off the list of existing ones. */
    method Destroy()
      requires Valid()
      modifies this`timers, this`existing, owned
      ensures Valid() && !existing && timers == [] && owned == old(owned)
      ensures forall t :: t in owned ==> !t.active
    {
      existing := false;
      while timers != []
        invariant Valid() && !existing && owned == old(owned)
        decreases |timers|
      {
        timers[0].Stop();
      }
    }
  }

  /** In a sorted list, what holds in the middle holds on its side. */
  lemma EarlierIsDown(ts: seq<Timer>, m: nat, at: Timespec)
    requires Sorted(Entries(ts)) && m < |ts|
    ensures Less(ts[m].nextActivation, at) ==> forall i :: 0 <= i <= m ==> Less(ts[i].nextActivation, at)
    ensures !Less(ts[m].nextActivation, at) ==> forall i :: m <= i < |ts| ==> !Less(ts[i].nextActivation, at)
  {
    hide Sorted, Entries, Less, LessEq;
    forall i | 0 <= i < |ts|
      ensures i <= m && Less(ts[m].nextActivation, at) ==> Less(ts[i].nextActivation, at)
      ensures m <= i && !Less(ts[m].nextActivation, at) ==> !Less(ts[i].nextActivation, at)
    {
      if i < m {
        Ordered(ts, i, m);
        Chain(ts[i].nextActivation, ts[m].nextActivation, at);
      } else if m < i {
        Ordered(ts, m, i);
        Chain(ts[m].nextActivation, ts[i].nextActivation, at);
      }
    }
  }

  lemma Ordered(ts: seq<Timer>, i: nat, j: nat)
    requires Sorted(Entries(ts)) && i < j < |ts|
    ensures LessEq(ts[i].nextActivation, ts[j].nextActivation)
  {
    hide Entries, LessEq;
    assert LessEq(Entries(ts)[i].at, Entries(ts)[j].at);
  }

  lemma Chain(a: Timespec, b: Timespec, c: Timespec)
    requires LessEq(a, b)
    ensures Less(b, c) ==> Less(a, c)
  {
  }

  class Timer {
    const context: MainLoop
    var nextActivation: Timespec
    var interval: int
    var singleShot: bool
    var active: bool

    /** Only `active` is set by the source; the other fields start with any value. */
    constructor (loop: MainLoop, at: Timespec, interval: int, singleShot: bool)
      requires loop.Valid()
      modifies loop`owned
      ensures loop.Valid() && context == loop && !active && loop.owned == old(loop.owned) + {this}
    {
      hide LessEq, Sorted, Entries, Once;
      context := loop;
      nextActivation, this.interval, this.singleShot, active := at, interval, singleShot, false;
      new;
      loop.owned := loop.owned + {this};
    }

    /** Starts or restarts the timer; a negative delay counts as none, but is kept as the interval. */
    method Start(now: Timespec, msek: int, single: bool)
      requires context.Valid() && this in context.owned
      modifies this, context`timers
      ensures context.Valid() && active == context.existing
      ensures active ==> singleShot == single && interval == msek
      ensures active ==> nextActivation == AddMsec(now, if msek < 0 then 0 else msek)
      ensures active ==> Entries(context.timers) == Insert(old(Entries(Without(context.timers, this))), EntryOf(this))
      ensures !active ==> context.timers == old(Without(context.timers, this))
    {
      hide Less, LessEq, Entries, Sorted, Insert, Once, Without;
      StopIfActive();
      if context.existing {
        active := true;
        singleShot := single;
        interval := msek;
        nextActivation := now;
        nextActivation := AddMsec(nextActivation, if msek < 0 then 0 else msek);
        context.AddTimer(this);
      }
    }

    /** A single shot after a number of seconds. */
    method StartLongTimer(now: Timespec, seconds: int)
      requires context.Valid() && this in context.owned
      modifies this, context`timers
      ensures context.Valid() && active == context.existing
      ensures active ==> singleShot && interval == 0
      ensures active ==> nextActivation == Timespec(now.sec + (if seconds > 0 then seconds else 0), now.nsec)
      ensures active ==> Entries(context.timers) == Insert(old(Entries(Without(context.timers, this))), EntryOf(this))
      ensures !active ==> context.timers == old(Without(context.timers, this))
    {
      hide Less, LessEq, Entries, Sorted, Insert, Once, Without;
      StopIfActive();
      if context.existing {
        active, singleShot := true, true;
        interval := 0;
        nextActivation := now;
        if seconds > 0 {
          nextActivation := nextActivation.(sec := nextActivation.sec + seconds);
        }
        context.AddTimer(this);
      }
    }

    method StopIfActive()
      requires context.Valid() && this in context.owned
      modifies this`active, context`timers
      ensures context.Valid() && !active
      ensures context.timers == old(Without(context.timers, this))
      ensures Entries(context.timers) == old(Entries(Without(context.timers, this)))
    {
      hide Less, LessEq, Entries, Sorted, Insert, Once, Without;
      if active {
        Stop();
      } else {
        NotThere(context.timers, this);
      }
    }

    /** Takes the timer out of the list. */
    method Stop()
      requires context.Valid() && this in context.owned
      modifies this`active, context`timers
      ensures context.Valid() && !active
      ensures context.timers == old(Without(context.timers, this))
      ensures Entries(context.timers) == old(Entries(Without(context.timers, this)))
      ensures old(active) ==> |context.timers| < old(|context.timers|)
    {
      hide Less, LessEq, Entries, Sorted, Insert, Once, Without;
      NotThere(context.timers, this);
      if active {
        WithoutKeeps(context.timers, this);
        WithoutSorted(context.timers, this);
        WithoutShorter(context.timers, this);
        active := false;
        context.RemoveTimer(this);
        SameEntries(context.timers);
      }
    }

    static twostate lemma SameEntries(ts: seq<Timer>)
      requires forall t :: t in ts ==> t.nextActivation == old(t.nextActivation) && t.interval == old(t.interval)
                                       && t.singleShot == old(t.singleShot)
      ensures Entries(ts) == old(Entries(ts))
    {
    }

    /** Moves the deadline by the change of interval; an idle timer goes on from its last deadline. */
    method ChangeInterval(msek: int)
      requires context.Valid() && this in context.owned
      modifies this, context`timers
      ensures context.Valid() && active && interval == msek && singleShot == old(singleShot)
      ensures nextActivation == AddMsec(if old(active) then SubMsec(old(nextActivation), old(interval))
                                        else old(nextActivation), msek)
      ensures Entries(context.timers) == Insert(old(Entries(Without(context.timers, this))), EntryOf(this))
    {
      hide Less, LessEq, Entries, Sorted, Insert, Once, Without;
      NotThere(context.timers, this);
      WithoutKeeps(context.timers, this);
      WithoutSorted(context.timers, this);
      if active {
        context.RemoveTimer(this);
        nextActivation := SubMsec(nextActivation, interval);
      } else {
        active := true;
      }
      interval := msek;
      nextActivation := AddMsec(nextActivation, interval);
      SameEntries(context.timers);
      context.AddTimer(this);
    }

    /** Fires the timer, which the loop has already taken out of its list. */
    method Activate()
      requires context.Holding(this) && this in context.owned && active
      modifies this, context`timers, context`fired
      ensures context.Valid() && interval == old(interval) && singleShot == old(singleShot)
      ensures context.fired == old(context.fired) + [Firing(this, old(nextActivation))]
      ensures if singleShot then Entries(context.timers) == old(Entries(context.timers))
              else Entries(context.timers) == Insert(old(Entries(context.timers)), Later(old(EntryOf(this))))
    {
      hide Less, LessEq, Entries, Sorted, Insert, Once, Without;
      ghost var at := nextActivation;
      if !singleShot {
        nextActivation := AddMsec(nextActivation, interval);
        SameEntries(context.timers);
        context.AddTimer(this);
      } else {
        active := false;
        SameEntries(context.timers);
      }
      context.fired := context.fired + [Firing(this, at)];
    }
  }

  lemma {:induction false} NotThere(ts: seq<Timer>, e: Timer)
    ensures e !in ts ==> Without(ts, e) == ts
  {
    if ts != [] { NotThere(ts[1..], e); }
  }

  lemma {:induction false} WithoutShorter(ts: seq<Timer>, e: Timer)
    requires e in ts
    ensures |Without(ts, e)| < |ts|
  {
    if ts[0] != e { WithoutShorter(ts[1..], e); }
  }

  /** Restarting with a new interval: a timer started with k and changed to k2 is due k2 after the start. */
  lemma ChangedIntervalIsFromStart(now: Timespec, k: int, k2: int)
    requires Normal(now) && k >= 0 && k2 >= 0
    ensures AddMsec(SubMsec(AddMsec(now, k), k), k2) == AddMsec(now, k2)
  {
    hide AddMsec, SubMsec, Value, Normal;
    AddMsecMoves(now, k);
    SubMsecMoves(AddMsec(now, k), k);
    SameInstant(SubMsec(AddMsec(now, k), k), now);
  }

  lemma SameInstant(a: Timespec, b: Timespec)
    requires Normal(a) && Normal(b) && Value(a) == Value(b)
    ensures a == b
  {
  }
}
