/** The timespec operators the timers use, against plain nanosecond arithmetic. */
module Timespecs {

  const BILLION := 1_000_000_000

  /** Seconds and nanoseconds; the operators do not insist that nsec is in range. */
  datatype Timespec = Timespec(sec: int, nsec: int)

  /** The instant in nanoseconds. */
  function Value(t: Timespec): int { t.sec * BILLION + t.nsec }

  predicate Normal(t: Timespec) { 0 <= t.nsec < BILLION }

  predicate Less(a: Timespec, b: Timespec) {
    a.sec < b.sec || (a.sec == b.sec && a.nsec < b.nsec)
  }

  predicate LessEq(a: Timespec, b: Timespec) {
    a.sec < b.sec || (a.sec == b.sec && a.nsec <= b.nsec)
  }

  /** On normal operands the comparisons compare instants. */
  lemma ComparesInstants(a: Timespec, b: Timespec)
    requires Normal(a) && Normal(b)
    ensures Less(a, b) <==> Value(a) < Value(b)
    ensures LessEq(a, b) <==> Value(a) <= Value(b)
  {
  }

  /** Quotient and remainder of a division by 1000 that truncates toward zero. */
  function Quot(a: int): int { if a >= 0 then a / 1000 else -(-a / 1000) }

  function Rem(a: int): int { a - Quot(a) * 1000 }

  /** t += msek */
  function AddMsec(t: Timespec, msek: int): Timespec {
    var sec, nsec := t.sec + Quot(msek), t.nsec + Rem(msek) * 1_000_000;
    if nsec >= BILLION then Timespec(sec + 1, nsec - BILLION) else Timespec(sec, nsec)
  }

  /** t -= msek */
  function SubMsec(t: Timespec, msek: int): Timespec {
    var sec, nsec := t.sec - Quot(msek), t.nsec - Rem(msek) * 1_000_000;
    if nsec < 0 then Timespec(sec - 1, nsec + BILLION) else Timespec(sec, nsec)
  }

  /** a - b */
  function Minus(a: Timespec, b: Timespec): Timespec {
    var sec, nsec := a.sec - b.sec, a.nsec - b.nsec;
    if nsec < 0 then Timespec(sec - 1, nsec + BILLION) else Timespec(sec, nsec)
  }

  /** `+=` moves the instant by msek milliseconds; it leaves range exactly when it borrows from the seconds. */
  lemma AddMsecMoves(t: Timespec, msek: int)
    ensures Value(AddMsec(t, msek)) == Value(t) + msek * 1_000_000
    ensures Normal(t) ==> (Normal(AddMsec(t, msek)) <==> t.nsec + Rem(msek) * 1_000_000 >= 0)
    ensures Normal(t) && msek >= 0 ==> Normal(AddMsec(t, msek))
  {
    assert Quot(msek) * 1000 + Rem(msek) == msek && -1000 < Rem(msek) < 1000;
  }

  /** `-=` moves the instant back; it leaves range exactly when it carries into the seconds. */
  lemma SubMsecMoves(t: Timespec, msek: int)
    ensures Value(SubMsec(t, msek)) == Value(t) - msek * 1_000_000
    ensures Normal(t) ==> (Normal(SubMsec(t, msek)) <==> t.nsec - Rem(msek) * 1_000_000 < BILLION)
    ensures Normal(t) && msek >= 0 ==> Normal(SubMsec(t, msek))
  {
    assert Quot(msek) * 1000 + Rem(msek) == msek && -1000 < Rem(msek) < 1000;
  }

  /** Negative steps that leave the range: one second less a millisecond, and a step back by minus one. */
  lemma RangeLeft()
    ensures AddMsec(Timespec(1, 0), -1) == Timespec(1, -1_000_000)
    ensures SubMsec(Timespec(1, 999_000_000), -1) == Timespec(1, 1_000_000_000)
  {
  }

  /** Taking an interval off and putting it on again gives the same timespec back. */
  lemma SubThenAdd(t: Timespec, msek: int)
    requires Normal(t) && msek >= 0
    ensures AddMsec(SubMsec(t, msek), msek) == t
  {
    SubMsecMoves(t, msek);
    AddMsecMoves(SubMsec(t, msek), msek);
  }

  /** A step that does not go forward never makes a timer later. */
  lemma AddMsecBackwards(t: Timespec, msek: int)
    requires msek <= 0 && t.nsec < BILLION
    ensures LessEq(AddMsec(t, msek), t) && AddMsec(t, msek).nsec < BILLION
  {
    assert Quot(msek) <= 0 && -1000 < Rem(msek) <= 0;
  }

  /** timeout_usec: the microseconds from now to an instant, cut off above 2000 seconds. */
  function TimeoutUsec(orig: Timespec, now: Timespec): int {
    var diff := Minus(orig, now);
    if diff.sec > 2000 then 2000 * 1000 * 1000
    else diff.sec * 1_000_000 + (if diff.nsec >= 0 then diff.nsec / 1000 else -(-diff.nsec / 1000))
  }

  /** The wait rounds down: below 2001 seconds by less than a microsecond, and it is negative only for a past instant. */
  lemma TimeoutRoundsDown(orig: Timespec, now: Timespec)
    requires Normal(orig) && Normal(now)
    ensures var d := Value(orig) - Value(now);
            TimeoutUsec(orig, now) == if d < 2001 * BILLION then d / 1000 else 2_000_000_000
  {
    var diff := Minus(orig, now);
    assert Value(diff) == Value(orig) - Value(now) && Normal(diff);
    if diff.sec <= 2000 { FloorSplit(diff.sec, diff.nsec); }
  }

  lemma FloorSplit(sec: int, nsec: nat)
    ensures (sec * BILLION + nsec) / 1000 == sec * 1_000_000 + nsec / 1000
  {
  }
}
