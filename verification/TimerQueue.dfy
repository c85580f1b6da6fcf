/** The sorted timer list and one dispatch pass over it, on values. */
module TimerQueue {
  import opened Timespecs

  /** A running timer: its next activation, its interval in milliseconds, and whether it fires once. */
  datatype Entry<T> = Entry(id: T, at: Timespec, interval: int, single: bool)

  datatype Firing<T> = Firing(id: T, at: Timespec)

  type Queue<T> = seq<Entry<T>>

  ghost predicate Sorted<T>(q: Queue<T>) { forall i, j :: 0 <= i < j < |q| ==> LessEq(q[i].at, q[j].at) }

  ghost predicate Distinct<T>(q: Queue<T>) { forall i, j :: 0 <= i < j < |q| ==> q[i].id != q[j].id }

  predicate Due<T>(e: Entry<T>, now: Timespec) { LessEq(e.at, now) }

  // ----- Insertion in order -----

  /** Insertion before the first entry that is not earlier. */
  function Insert<T>(q: Queue<T>, e: Entry<T>): Queue<T> {
    if q == [] || !Less(q[0].at, e.at) then [e] + q else [q[0]] + Insert(q[1..], e)
  }

  /** p separates the entries earlier than an instant from the others. */
  ghost predicate SplitsAt<T>(q: Queue<T>, at: Timespec, p: nat) {
    && p <= |q|
    && (forall i :: 0 <= i < p ==> Less(q[i].at, at))
    && (forall i :: p <= i < |q| ==> !Less(q[i].at, at))
  }

  /** Whatever way the split point is found, inserting there is insertion in order. */
  lemma {:induction false} InsertAtSplit<T>(q: Queue<T>, e: Entry<T>, p: nat)
    requires SplitsAt(q, e.at, p)
    ensures Insert(q, e) == q[..p] + [e] + q[p..]
  {
    hide Less;
    if p > 0 {
      InsertAtSplit(q[1..], e, p - 1);
      assert q[..p] == [q[0]] + q[1..][..p-1];
    }
  }

  /** Insertion keeps the order and adds one entry, ahead of those with the same instant. */
  lemma {:induction false} InsertKeeps<T>(q: Queue<T>, e: Entry<T>)
    requires Sorted(q)
    ensures Sorted(Insert(q, e)) && |Insert(q, e)| == |q| + 1
    ensures forall x :: x in Insert(q, e) <==> x == e || x in q
    ensures Insert(q, e) != [] && (Insert(q, e)[0] == e || (q != [] && Insert(q, e)[0] == q[0]))
  {
    var r := Insert(q, e);
    if q == [] || !Less(q[0].at, e.at) {
    } else {
      InsertKeeps(q[1..], e);
      assert r[1..] == Insert(q[1..], e);
      assert forall x :: x in q <==> x == q[0] || x in q[1..];
      assert forall k :: 0 < k < |r| ==> r[k] in r[1..];
    }
  }

  lemma {:induction false} InsertDistinct<T>(q: Queue<T>, e: Entry<T>)
    requires Distinct(q) && Absent(q, e.id)
    ensures Distinct(Insert(q, e))
    ensures forall id :: Absent(Insert(q, e), id) <==> id != e.id && Absent(q, id)
  {
    hide Less;
    var r := Insert(q, e);
    if q == [] || !Less(q[0].at, e.at) {
      assert r[1..] == q;
      AbsentSplits(r);
      DistinctFromTail(r);
    } else {
      InsertDistinct(q[1..], e);
      AbsentSplits(q);
      AbsentSplits(r);
      assert r[1..] == Insert(q[1..], e);
      assert Absent(r[1..], q[0].id);
      DistinctFromTail(r);
    }
  }

  ghost predicate Absent<T>(q: Queue<T>, id: T) { forall k :: 0 <= k < |q| ==> q[k].id != id }

  lemma AbsentSplits<T>(q: Queue<T>)
    requires q != []
    ensures forall id :: Absent(q, id) <==> q[0].id != id && Absent(q[1..], id)
    ensures Distinct(q) ==> Distinct(q[1..]) && Absent(q[1..], q[0].id)
  {
    forall id
      ensures Absent(q, id) <==> q[0].id != id && Absent(q[1..], id)
    {
      if q[0].id != id && Absent(q[1..], id) {
        forall k | 0 <= k < |q|
          ensures q[k].id != id
        {
          if k > 0 { assert q[k] == q[1..][k-1]; }
        }
      }
    }
  }

  lemma DistinctFromTail<T>(q: Queue<T>)
    requires q != [] && Distinct(q[1..]) && Absent(q[1..], q[0].id)
    ensures Distinct(q)
  {
    forall i, j | 0 <= i < j < |q|
      ensures q[i].id != q[j].id
    {
      assert q[j] == q[1..][j-1];
      if i > 0 { assert q[i] == q[1..][i-1]; }
    }
  }

  // ----- One firing -----

  /** The entry a repeating timer re-enters the list with. */
  function Later<T>(e: Entry<T>): Entry<T> { e.(at := AddMsec(e.at, e.interval)) }

  /** The first timer fires: it leaves the list, and re-enters it unless it is a single shot. */
  function Fire<T>(q: Queue<T>): Queue<T>
    requires q != []
  {
    if q[0].single then q[1..] else Insert(q[1..], Later(q[0]))
  }

  /** A due repeating timer must move forward, or the pass cannot end. */
  predicate Advances<T>(e: Entry<T>, now: Timespec) {
    Due(e, now) && !e.single ==> e.interval > 0
  }

  ghost predicate Safe<T>(q: Queue<T>, now: Timespec) {
    Normal(now) && forall k :: 0 <= k < |q| ==> Normal(q[k].at) && Advances(q[k], now)
  }

  // ----- Timers that never stop firing -----

  /** A step that does not go forward brings an out-of-range nsec down. */
  lemma LaterShrinks<T>(e: Entry<T>)
    requires e.interval <= 0 && e.at.nsec >= BILLION
    ensures Later(e).at.nsec < e.at.nsec
  {
    assert -1000 < Rem(e.interval) <= 0;
  }

  /**
   * A due repeating timer with an interval that is not positive stays due; only an nsec out of range upwards can
   * still carry it past now.
   */
  predicate Hangs<T>(e: Entry<T>, now: Timespec)
    decreases if e.at.nsec < 0 then 0 else e.at.nsec
  {
    && Due(e, now) && !e.single && e.interval <= 0
    && (e.at.nsec < BILLION || (LaterShrinks(e); Hangs(Later(e), now)))
  }

  /** On deadlines in range the condition is the sign of the interval. */
  lemma HangsInRange<T>(e: Entry<T>, now: Timespec)
    requires e.at.nsec < BILLION
    ensures Hangs(e, now) <==> !Advances(e, now)
  {
  }

  ghost predicate Steady<T>(q: Queue<T>, now: Timespec) { forall k :: 0 <= k < |q| ==> !Hangs(q[k], now) }

  lemma SafeIsSteady<T>(q: Queue<T>, now: Timespec)
    requires Safe(q, now)
    ensures Steady(q, now)
  {
    forall k | 0 <= k < |q|
      ensures !Hangs(q[k], now)
    {
      HangsInRange(q[k], now);
    }
  }

  /** Once fired, a timer that hangs still hangs. */
  lemma HangsStays<T>(e: Entry<T>, now: Timespec)
    requires Hangs(e, now)
    ensures Hangs(Later(e), now)
  {
    if e.at.nsec < BILLION {
      AddMsecBackwards(e.at, e.interval);
    }
  }

  /** One that does not hang never does, however often it fires. */
  lemma HangsBefore<T>(e: Entry<T>, now: Timespec)
    requires Due(e, now) && !e.single && !Hangs(e, now)
    ensures !Hangs(Later(e), now)
  {
  }

  /** A step back, or on the spot, is followed by others. */
  lemma {:induction false} StepBackHangs<T>(e: Entry<T>, now: Timespec)
    requires Due(e, now) && !e.single && e.interval <= 0 && LessEq(Later(e).at, e.at)
    ensures Hangs(e, now)
    decreases if e.at.nsec < 0 then 0 else e.at.nsec
  {
    if e.at.nsec >= BILLION {
      LaterShrinks(e);
      var l := Later(e);
      assert Due(l, now);
      if l.at.nsec >= BILLION {
        assert -1000 < Rem(e.interval) <= 0;
        StepBackHangs(l, now);
      }
    }
  }

  lemma StepForward<T>(e: Entry<T>)
    requires e.interval > 0
    ensures Less(e.at, Later(e).at)
    ensures Later(e).at.nsec < BILLION || Later(e).at.nsec <= e.at.nsec
  {
    assert Quot(e.interval) * 1000 + Rem(e.interval) == e.interval && 0 <= Rem(e.interval) < 1000;
  }

  /** A repeating timer that does not hang re-enters the list later than it was. */
  lemma LaterIsLater<T>(e: Entry<T>, now: Timespec)
    requires Due(e, now) && !e.single && !Hangs(e, now)
    ensures Less(e.at, Later(e).at)
  {
    if e.interval > 0 {
      StepForward(e);
    } else if !Less(e.at, Later(e).at) {
      StepBackHangs(e, now);
    }
  }

  /** A bound on the firings of a timer that does not hang. */
  function Rank<T>(e: Entry<T>, now: Timespec): nat
    requires !Hangs(e, now)
    decreases if e.at.nsec < 0 then 0 else e.at.nsec
  {
    if !Due(e, now) then 0
    else if e.single then 1
    else if e.interval > 0 then now.sec * BILLION + (if e.at.nsec > BILLION then e.at.nsec else BILLION) - Value(e.at) + 1
    else (LaterShrinks(e); HangsBefore(e, now); 1 + Rank(Later(e), now))
  }

  lemma RankFalls<T>(e: Entry<T>, now: Timespec)
    requires Due(e, now) && !e.single && !Hangs(e, now)
    ensures !Hangs(Later(e), now) && Rank(Later(e), now) < Rank(e, now)
  {
    HangsBefore(e, now);
    if e.interval > 0 {
      AddMsecMoves(e.at, e.interval);
      StepForward(e);
    }
  }

  // ----- Counting firings -----

  /** How often a timer fires in a pass: floor((now - deadline) / interval) + 1 when due and repeating. */
  function Times<T>(e: Entry<T>, now: Timespec): nat
    requires Normal(now) && Normal(e.at) && Advances(e, now)
  {
    if !Due(e, now) then 0
    else if e.single then 1
    else
      ComparesInstants(e.at, now);
      PeriodsBetween(Value(now) - Value(e.at), e.interval * 1_000_000) + 1
  }

  function PeriodsBetween(x: nat, k: nat): nat
    requires k > 0
  {
    x / k
  }

  lemma PeriodsStep(x: nat, k: nat)
    requires k > 0
    ensures if x < k then PeriodsBetween(x, k) == 0 else PeriodsBetween(x, k) == PeriodsBetween(x - k, k) + 1
  {
    if x >= k {
      assert x / k == (x - k) / k + 1 by { DivStep(x, k); }
    }
  }

  lemma DivStep(x: nat, k: nat)
    requires 0 < k <= x
    ensures x / k == (x - k) / k + 1
  {
    var q, r := (x - k) / k, (x - k) % k;
    assert x == (q + 1) * k + r;
    QuotientIs(x, k, q + 1, r);
  }

  lemma QuotientIs(x: nat, k: nat, q: nat, r: nat)
    requires r < k && x == q * k + r
    ensures x / k == q
  {
    var p := x / k;
    assert p * k <= x < p * k + k;
    if p < q { TimesGrows(p, q, k); }
    if p > q { TimesGrows(q, p, k); }
  }

  lemma TimesGrows(a: nat, b: nat, k: nat)
    requires a < b
    ensures a * k + k <= b * k
  {
    assert (b - a - 1) * k >= 0;
    assert b * k == a * k + k + (b - a - 1) * k;
  }

  /** A firing takes one off the count, and keeps the timer well-behaved. */
  lemma LaterFires<T>(e: Entry<T>, now: Timespec)
    requires Normal(now) && Normal(e.at) && Due(e, now) && !e.single && e.interval > 0
    ensures Normal(Later(e).at) && Value(Later(e).at) == Value(e.at) + e.interval * 1_000_000
    ensures Advances(Later(e), now) && Times(Later(e), now) == Times(e, now) - 1
    ensures Less(e.at, Later(e).at)
  {
    hide Value, Normal, LessEq, Less, AddMsec, PeriodsBetween;
    AddMsecMoves(e.at, e.interval);
    ComparesInstants(e.at, now);
    ComparesInstants(Later(e).at, now);
    ComparesInstants(e.at, Later(e).at);
    PeriodsStep(Value(now) - Value(e.at), e.interval * 1_000_000);
  }

  // ----- The pass -----

  /** Firings still to come in a pass. */
  function Work<T>(q: Queue<T>, now: Timespec): nat
    requires Safe(q, now)
  {
    if q == [] then 0 else Times(q[0], now) + Work(q[1..], now)
  }

  lemma {:induction false} WorkOfInsert<T>(q: Queue<T>, e: Entry<T>, now: Timespec)
    requires Safe(q, now) && Normal(e.at) && Advances(e, now)
    ensures Safe(Insert(q, e), now) && Work(Insert(q, e), now) == Times(e, now) + Work(q, now)
  {
    hide Less, Normal, Advances, Times;
    if q == [] || !Less(q[0].at, e.at) {
      assert ([e] + q)[1..] == q;
    } else {
      WorkOfInsert(q[1..], e, now);
      assert Insert(q, e)[1..] == Insert(q[1..], e);
    }
  }

  lemma FireWorks<T>(q: Queue<T>, now: Timespec)
    requires Safe(q, now) && q != [] && Due(q[0], now)
    ensures Safe(Fire(q), now) && Work(Fire(q), now) == Work(q, now) - 1
  {
    hide Normal, Insert, Later, LessEq;
    assert Safe(q[1..], now);
    if q[0].single {
      assert Times(q[0], now) == 1;
    } else {
      LaterFires(q[0], now);
      WorkOfInsert(q[1..], Later(q[0]), now);
    }
  }

  /** A bound on the firings still to come, for a list in which no timer hangs. */
  ghost function Life<T>(q: Queue<T>, now: Timespec): nat
    requires Steady(q, now)
  {
    if q == [] then 0 else Rank(q[0], now) + Life(q[1..], now)
  }

  lemma {:induction false} LifeOfInsert<T>(q: Queue<T>, e: Entry<T>, now: Timespec)
    requires Steady(q, now) && !Hangs(e, now)
    ensures Steady(Insert(q, e), now) && Life(Insert(q, e), now) == Rank(e, now) + Life(q, now)
  {
    hide Less, Hangs, Rank;
    if q == [] || !Less(q[0].at, e.at) {
      assert ([e] + q)[1..] == q;
    } else {
      LifeOfInsert(q[1..], e, now);
      assert Insert(q, e)[1..] == Insert(q[1..], e);
    }
  }

  /** Every firing leaves fewer to come. */
  lemma FireEnds<T>(q: Queue<T>, now: Timespec)
    requires Steady(q, now) && q != [] && Due(q[0], now)
    ensures Steady(Fire(q), now) && Life(Fire(q), now) < Life(q, now)
  {
    hide Insert, Later, LessEq, Hangs;
    assert Steady(q[1..], now);
    if q[0].single {
      assert Rank(q[0], now) == 1;
    } else {
      hide Rank;
      RankFalls(q[0], now);
      LifeOfInsert(q[1..], Later(q[0]), now);
    }
  }

  lemma FireKeeps<T>(q: Queue<T>)
    requires Sorted(q) && q != []
    ensures Sorted(Fire(q))
  {
    assert Sorted(q[1..]);
    InsertKeeps(q[1..], Later(q[0]));
  }

  lemma FireDistinct<T>(q: Queue<T>)
    requires Distinct(q) && q != []
    ensures Distinct(Fire(q))
    ensures forall id :: Absent(q, id) ==> Absent(Fire(q), id)
  {
    AbsentSplits(q);
    InsertDistinct(q[1..], Later(q[0]));
  }

  datatype Passed<T> = Passed(fired: seq<Firing<T>>, rest: Queue<T>)

  /** The dispatch loop at a fixed instant: fire the first timer as long as it is due. */
  ghost function Pass<T>(q: Queue<T>, now: Timespec): Passed<T>
    requires Steady(q, now)
    decreases Life(q, now)
  {
    if q == [] || !Due(q[0], now) then Passed([], q)
    else
      FireEnds(q, now);
      var p := Pass(Fire(q), now);
      p.(fired := [Firing(q[0].id, q[0].at)] + p.fired)
  }

  lemma PassFires<T>(q: Queue<T>, now: Timespec)
    requires Steady(q, now) && q != [] && Due(q[0], now)
    ensures Fire(q) == if q[0].single then q[1..] else Insert(q[1..], Later(q[0]))
    ensures Steady(Fire(q), now) && Life(Fire(q), now) < Life(q, now)
    ensures Pass(q, now).fired == [Firing(q[0].id, q[0].at)] + Pass(Fire(q), now).fired
    ensures Pass(q, now).rest == Pass(Fire(q), now).rest
  {
    FireEnds(q, now);
  }

  lemma PassStops<T>(q: Queue<T>, now: Timespec)
    requires Steady(q, now) && (q == [] || !Due(q[0], now))
    ensures Pass(q, now) == Passed([], q)
  {
  }

  /** Afterwards no timer is due, and the list is still sorted. */
  lemma {:induction false} PassEnds<T>(q: Queue<T>, now: Timespec)
    requires Steady(q, now) && Sorted(q)
    ensures var p := Pass(q, now);
            && Sorted(p.rest) && Steady(p.rest, now)
            && (forall k :: 0 <= k < |p.rest| ==> !Due(p.rest[k], now))
    decreases Life(q, now)
  {
    hide Fire, LessEq, Hangs, Life;
    if q == [] || !Due(q[0], now) {
      NothingDue(q, now);
    } else {
      FireEnds(q, now);
      FireKeeps(q);
      PassEnds(Fire(q), now);
    }
  }

  lemma NothingDue<T>(q: Queue<T>, now: Timespec)
    requires Sorted(q) && (q == [] || !Due(q[0], now))
    ensures forall k :: 0 <= k < |q| ==> !Due(q[k], now)
  {
    forall k | 0 <= k < |q|
      ensures !Due(q[k], now)
    {
      assert k > 0 ==> LessEq(q[0].at, q[k].at);
    }
  }

  /** Timers in range fire as often as their counts say, in all. */
  lemma {:induction false} PassCounts<T>(q: Queue<T>, now: Timespec)
    requires Safe(q, now) && Sorted(q)
    ensures Steady(q, now) && |Pass(q, now).fired| == Work(q, now)
    decreases Work(q, now)
  {
    hide Fire, Advances, Normal, LessEq, Hangs, Times;
    SafeIsSteady(q, now);
    if q == [] || !Due(q[0], now) {
      NothingDue(q, now);
      NoWork(q, now);
    } else {
      FireWorks(q, now);
      FireKeeps(q);
      PassCounts(Fire(q), now);
    }
  }

  lemma {:induction false} NoWork<T>(q: Queue<T>, now: Timespec)
    requires Safe(q, now) && forall k :: 0 <= k < |q| ==> !Due(q[k], now)
    ensures Work(q, now) == 0
  {
    if q != [] { NoWork(q[1..], now); }
  }

  ghost predicate InOrder<T>(f: seq<Firing<T>>) { forall i, j :: 0 <= i < j < |f| ==> LessEq(f[i].at, f[j].at) }

  /** Timers fire in the order of their deadlines, none of them early. */
  lemma {:induction false} PassInOrder<T>(q: Queue<T>, now: Timespec)
    requires Steady(q, now) && Sorted(q)
    ensures InOrder(Pass(q, now).fired)
    ensures forall k :: 0 <= k < |Pass(q, now).fired| ==> LessEq(Pass(q, now).fired[k].at, now)
    ensures Pass(q, now).fired != [] ==> q != [] && Pass(q, now).fired[0].at == q[0].at
    decreases Life(q, now)
  {
    hide Fire, Hangs, Life, LessEq, Less;
    if q != [] && Due(q[0], now) {
      FireEnds(q, now);
      FireKeeps(q);
      PassInOrder(Fire(q), now);
      FiresNoEarlier(q, now);
      var f := Pass(Fire(q), now).fired;
      Prepend(Firing(q[0].id, q[0].at), f);
    }
  }

  lemma FiresNoEarlier<T>(q: Queue<T>, now: Timespec)
    requires Steady(q, now) && Sorted(q) && q != [] && Due(q[0], now)
    ensures Fire(q) != [] ==> LessEq(q[0].at, Fire(q)[0].at)
  {
    hide LessEq, Hangs, Later;
    if !q[0].single {
      LaterIsLater(q[0], now);
      LessIsLessEq(q[0].at, Later(q[0]).at);
      InsertKeeps(q[1..], Later(q[0]));
    }
  }

  lemma LessIsLessEq(a: Timespec, b: Timespec)
    requires Less(a, b)
    ensures LessEq(a, b)
  {
  }

  lemma Prepend<T>(x: Firing<T>, f: seq<Firing<T>>)
    requires InOrder(f) && (f != [] ==> LessEq(x.at, f[0].at))
    ensures InOrder([x] + f)
  {
    var g := [x] + f;
    forall i, j | 0 <= i < j < |g|
      ensures LessEq(g[i].at, g[j].at)
    {
      assert LessEq(f[0].at, f[j-1].at);
    }
  }

  // ----- What each timer does in a pass -----

  /** One timer's own firings. */
  function Mine<T(==)>(f: seq<Firing<T>>, id: T): seq<Firing<T>> {
    if f == [] then [] else (if f[0].id == id then [f[0]] else []) + Mine(f[1..], id)
  }

  /** Firing number j of a timer comes j intervals after its deadline. */
  ghost predicate OnSchedule<T>(f: seq<Firing<T>>, e: Entry<T>) {
    forall j :: 0 <= j < |f| ==> f[j].id == e.id && Value(f[j].at) == Value(e.at) + j * (e.interval * 1_000_000)
  }

  lemma ScheduleStep<T>(f: seq<Firing<T>>, e: Entry<T>)
    requires OnSchedule(f, Later(e)) && Value(Later(e).at) == Value(e.at) + e.interval * 1_000_000
    ensures OnSchedule([Firing(e.id, e.at)] + f, e)
  {
    hide Value;
    var g, k := [Firing(e.id, e.at)] + f, e.interval * 1_000_000;
    forall j | 0 <= j < |g|
      ensures g[j].id == e.id && Value(g[j].at) == Value(e.at) + j * k
    {
      if j > 0 {
        assert g[j] == f[j-1];
        assert (j - 1) * k + k == j * k;
      }
    }
  }

  /** What is left of a timer: nothing of a single shot that fired, else the timer moved on by its firings. */
  ghost predicate LeftBehind<T>(rest: Queue<T>, e: Entry<T>, now: Timespec)
    requires Normal(now) && Normal(e.at) && Advances(e, now)
  {
    if e.single && Due(e, now) then Absent(rest, e.id)
    else exists r :: r in rest && r.id == e.id && r.interval == e.interval && r.single == e.single
                     && Value(r.at) == Value(e.at) + Times(e, now) * (e.interval * 1_000_000)
  }

  lemma LeftBehindStep<T>(rest: Queue<T>, e: Entry<T>, now: Timespec)
    requires Normal(now) && Normal(e.at) && Due(e, now) && !e.single && e.interval > 0
    requires Normal(Later(e).at) && Advances(Later(e), now) && LeftBehind(rest, Later(e), now)
    ensures LeftBehind(rest, e, now)
  {
    LaterFires(e, now);
    hide Value, LessEq, Normal, Times, AddMsec;
    var r :| r in rest && r.id == e.id && r.interval == e.interval && r.single == e.single
             && Value(r.at) == Value(Later(e).at) + Times(Later(e), now) * (e.interval * 1_000_000);
    var n, k := Times(e, now), e.interval * 1_000_000;
    assert (n - 1) * k + k == n * k;
  }

  /** A timer that is not in the list neither fires nor appears. */
  lemma {:induction false} AbsentNeverFires<T>(q: Queue<T>, now: Timespec, id: T)
    requires Steady(q, now) && Distinct(q) && Absent(q, id)
    ensures Mine(Pass(q, now).fired, id) == [] && Absent(Pass(q, now).rest, id)
    decreases Life(q, now)
  {
    hide Fire, Hangs, Life;
    if q != [] && Due(q[0], now) {
      FireEnds(q, now);
      FireDistinct(q);
      AbsentNeverFires(Fire(q), now, id);
      assert Pass(q, now).fired[1..] == Pass(Fire(q), now).fired;
    }
  }

  /**
   * In one pass a timer fires exactly floor((now - deadline) / interval) + 1 times if it repeats and is
   * due, once if it is a due single shot, and not at all otherwise; each firing is on schedule, and the
   * timer is afterwards in the list at the first deadline not yet reached.
   */
  lemma {:induction false} EachTimerFires<T>(q: Queue<T>, now: Timespec, i: nat)
    requires Safe(q, now) && Sorted(q) && Distinct(q) && i < |q|
    ensures Steady(q, now)
    ensures var mine := Mine(Pass(q, now).fired, q[i].id);
            && |mine| == Times(q[i], now) && OnSchedule(mine, q[i])
            && LeftBehind(Pass(q, now).rest, q[i], now)
    decreases Work(q, now)
  {
    hide Fire, Advances, Normal, Times, OnSchedule, LeftBehind, LessEq, Hangs;
    SafeIsSteady(q, now);
    if !Due(q[0], now) {
      NothingDue(q, now);
      StandsStill(q, now, i);
    } else {
      FireWorks(q, now);
      FireEnds(q, now);
      FireKeeps(q);
      FireDistinct(q);
      assert Pass(q, now).fired[1..] == Pass(Fire(q), now).fired;
      if i == 0 {
        HeadFires(q, now);
      } else {
        assert q[0].id != q[i].id;
        var m := FireHolds(q, i);
        EachTimerFires(Fire(q), now, m);
        assert Mine(Pass(q, now).fired, q[i].id) == Mine(Pass(Fire(q), now).fired, q[i].id);
      }
    }
  }

  lemma StandsStill<T>(q: Queue<T>, now: Timespec, i: nat)
    requires Safe(q, now) && i < |q| && !Due(q[0], now) && !Due(q[i], now)
    ensures Steady(q, now)
    ensures Pass(q, now) == Passed([], q)
    ensures Times(q[i], now) == 0 && OnSchedule([], q[i]) && LeftBehind(q, q[i], now)
  {
    hide LessEq, Value, Normal;
    SafeIsSteady(q, now);
    hide Hangs;
    assert q[i] in q && 0 * (q[i].interval * 1_000_000) == 0;
  }

  /** The other timers are untouched by a firing. */
  lemma FireHolds<T>(q: Queue<T>, i: nat) returns (m: nat)
    requires Sorted(q) && 0 < i < |q|
    ensures m < |Fire(q)| && Fire(q)[m] == q[i]
  {
    hide LessEq, Less, AddMsec;
    assert q[i] == q[1..][i-1];
    if q[0].single {
      m := i - 1;
    } else {
      InsertKeeps(q[1..], Later(q[0]));
      assert q[i] in Fire(q);
      m :| m < |Fire(q)| && Fire(q)[m] == q[i];
    }
  }

  lemma {:induction false} HeadFires<T>(q: Queue<T>, now: Timespec)
    requires Safe(q, now) && Sorted(q) && Distinct(q) && q != [] && Due(q[0], now)
    ensures Steady(q, now)
    ensures var mine := Mine(Pass(q, now).fired, q[0].id);
            && |mine| == Times(q[0], now) && OnSchedule(mine, q[0])
            && LeftBehind(Pass(q, now).rest, q[0], now)
    decreases Work(q, now), 0
  {
    hide Advances, Normal, LessEq, OnSchedule, AddMsec, Hangs, Life;
    var e := q[0];
    SafeIsSteady(q, now);
    FireWorks(q, now);
    FireEnds(q, now);
    FireKeeps(q);
    FireDistinct(q);
    AbsentSplits(q);
    assert Pass(q, now).fired[1..] == Pass(Fire(q), now).fired;
    if e.single {
      AbsentNeverFires(q[1..], now, e.id);
      OneFiring(e);
    } else {
      LaterStays(q, now);
      var m := LaterAt(q);
      EachTimerFires(Fire(q), now, m);
      ScheduleStep(Mine(Pass(Fire(q), now).fired, e.id), e);
      LeftBehindStep(Pass(q, now).rest, e, now);
    }
  }

  lemma LaterStays<T>(q: Queue<T>, now: Timespec)
    requires Safe(q, now) && q != [] && Due(q[0], now) && !q[0].single
    ensures q[0].interval > 0
    ensures Normal(Later(q[0]).at) && Value(Later(q[0]).at) == Value(q[0].at) + q[0].interval * 1_000_000
    ensures Advances(Later(q[0]), now) && Times(Later(q[0]), now) == Times(q[0], now) - 1
  {
    LaterFires(q[0], now);
  }

  lemma LaterAt<T>(q: Queue<T>) returns (m: nat)
    requires Sorted(q) && q != [] && !q[0].single
    ensures m < |Fire(q)| && Fire(q)[m] == Later(q[0])
  {
    hide LessEq, Less, AddMsec, Later;
    InsertKeeps(q[1..], Later(q[0]));
    assert Later(q[0]) in Fire(q);
    m :| m < |Fire(q)| && Fire(q)[m] == Later(q[0]);
  }

  lemma OneFiring<T>(e: Entry<T>)
    ensures OnSchedule([Firing(e.id, e.at)] + [], e)
  {
  }

  // ----- The passes that do not end -----

  /** The list after n firings, as far as there is a due timer to fire. */
  function FireMany<T>(q: Queue<T>, now: Timespec, n: nat): Queue<T>
    decreases n
  {
    if n == 0 || q == [] || !Due(q[0], now) then q else FireMany(Fire(q), now, n - 1)
  }

  lemma HangFires<T>(q: Queue<T>, now: Timespec)
    requires Sorted(q) && !Steady(q, now)
    ensures Due(q[0], now) && !Steady(Fire(q), now)
  {
    hide Fire, Later;
    var k :| 0 <= k < |q| && Hangs(q[k], now);
    assert Due(q[k], now);
    assert LessEq(q[0].at, q[k].at);
    assert Due(q[0], now);
    hide LessEq, Hangs;
    var m: nat;
    if k == 0 {
      HangsStays(q[0], now);
      m := LaterAt(q);
    } else {
      m := FireHolds(q, k);
    }
    assert Hangs(Fire(q)[m], now);
  }

  /** With a timer that hangs in the list: however many timers fire, the first one is due. */
  lemma {:induction false} NeverEnds<T>(q: Queue<T>, now: Timespec, n: nat)
    requires Sorted(q) && !Steady(q, now)
    ensures !Ended(FireMany(q, now, n), now)
    decreases n
  {
    hide Fire, LessEq, Hangs;
    HangFires(q, now);
    if n > 0 {
      FireKeeps(q);
      NeverEnds(Fire(q), now, n - 1);
    }
  }

  /** For example a repeating timer with interval 0: its first due pass never ends. */
  lemma ZeroIntervalHangs(now: Timespec, n: nat)
    ensures var q := [Entry(0, now, 0, false)];
            now.nsec < BILLION ==> !Ended(FireMany(q, now, n), now)
  {
    var q := [Entry(0, now, 0, false)];
    if now.nsec < BILLION {
      assert Hangs(q[0], now);
      NeverEnds(q, now, n);
    }
  }

  /** A pass ends if and only if no timer in the list hangs. */
  lemma PassEndsIff<T>(q: Queue<T>, now: Timespec)
    requires Sorted(q)
    ensures (exists n: nat :: Ended(FireMany(q, now, n), now)) <==> forall k :: 0 <= k < |q| ==> !Hangs(q[k], now)
  {
    hide Hangs, Life;
    if Steady(q, now) {
      EndsAfterLife(q, now);
    } else {
      forall n: nat
        ensures !Ended(FireMany(q, now, n), now)
      {
        NeverEnds(q, now, n);
      }
    }
  }

  predicate Ended<T>(q: Queue<T>, now: Timespec) { q == [] || !Due(q[0], now) }

  lemma {:induction false} EndsAfterLife<T>(q: Queue<T>, now: Timespec)
    requires Steady(q, now)
    ensures exists n: nat :: Ended(FireMany(q, now, n), now) && FireMany(q, now, n) == Pass(q, now).rest
    decreases Life(q, now)
  {
    hide Hangs, LessEq, Fire, Life;
    if q == [] || !Due(q[0], now) {
      assert Ended(FireMany(q, now, 0), now);
    } else {
      FireEnds(q, now);
      EndsAfterLife(Fire(q), now);
      var n: nat :| Ended(FireMany(Fire(q), now, n), now) && FireMany(Fire(q), now, n) == Pass(Fire(q), now).rest;
      assert FireMany(q, now, n + 1) == FireMany(Fire(q), now, n);
    }
  }

  // ----- The wait afterwards -----

  /** The poll timeout in milliseconds for what is left of a list that was not empty: 0 also when nothing is left. */
  function Wait<T>(rest: Queue<T>, later: Timespec): nat {
    if rest == [] then 0
    else
      var usec := TimeoutUsec(rest[0].at, later);
      if usec < 0 then 0 else usec / 1000
  }

  /** The wait ends no later than the earliest deadline, and less than a millisecond before it, up to 2001 seconds ahead. */
  lemma WaitMeetsDeadline<T>(rest: Queue<T>, later: Timespec, i: nat)
    requires Sorted(rest) && i < |rest| && Normal(later)
    requires forall k :: 0 <= k < |rest| ==> Normal(rest[k].at)
    ensures var w := Value(later) + Wait(rest, later) * 1_000_000;
            && (w <= Value(rest[i].at) || (Wait(rest, later) == 0 && Value(rest[0].at) <= Value(later)))
            && (Value(rest[0].at) - Value(later) < 2001 * BILLION ==> Value(rest[0].at) < w + 1_000_000)
  {
    TimeoutRoundsDown(rest[0].at, later);
    ComparesInstants(rest[0].at, rest[i].at);
    assert i > 0 ==> LessEq(rest[0].at, rest[i].at);
  }
}
