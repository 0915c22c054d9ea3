/** A daily activation window on a 24-hour clock face: a start time of day and a duration
    in seconds. Both crates carry the same `end`, `has_inside` and `overlaps` code; only
    their constructors differ (see `Outputs.NewActivation` and `Terrarium.NewActivation`). */
module Window {

  const SecondsInDay: int := 24 * 60 * 60

  /** A chrono `NaiveTime` reduced to whole seconds since midnight. */
  type TimeOfDay = t: int | 0 <= t < 86400

  /** Rust's `u32`, the type of `for_seconds`. */
  type U32 = x: int | 0 <= x < 0x1_0000_0000

  /** `NaiveTime::hour()`. */
  function Hour(t: TimeOfDay): int {
    t / 3600
  }

  datatype ScheduledActivation = ScheduledActivation(when: TimeOfDay, forSeconds: U32) {

    /** `when + TimeDelta::seconds(for_seconds)`: adding a delta to a `NaiveTime` wraps
        around midnight, as many times as needed. */
    function End(): (e: TimeOfDay)
      ensures (when + forSeconds - e) % SecondsInDay == 0
    {
      (when + forSeconds) % SecondsInDay
    }

    /** Inclusive at both ends. The window counts as crossing midnight only when the hour
        of its end is smaller than the hour of its start. */
    predicate HasInside(time: TimeOfDay) {
      var start := when;
      var end := End();
      var jumpsOverMidnight := Hour(end) < Hour(start);
      if jumpsOverMidnight then
        time >= start || time <= end
      else
        time >= start && time <= end
    }

    /** A boundary-point test: one window holds the other's start or end. */
    predicate Overlaps(other: ScheduledActivation) {
      || HasInside(other.when)
      || HasInside(other.End())
      || other.HasInside(when)
      || other.HasInside(End())
    }
  }

  /** Some two windows at distinct positions of `acts` overlap: the condition under which
      `ScheduledActivations::new` rejects a non-empty list, in both crates. */
  predicate Overlapping(acts: seq<ScheduledActivation>) {
    exists i, j :: 0 <= i < |acts| && 0 <= j < |acts| && i != j && acts[i].Overlaps(acts[j])
  }

  /** How far `time` lies after `start` going forward around the clock face. */
  function Offset(start: TimeOfDay, time: TimeOfDay): (d: int)
    ensures 0 <= d < SecondsInDay
    ensures d == (time - start) % SecondsInDay
  {
    if time >= start then time - start else time - start + SecondsInDay
  }

  /** Plain membership in the arc of the clock face that starts at `a.when` and is
      `a.forSeconds` long, both ends included: the reference `HasInside` is measured against. */
  predicate OnArc(a: ScheduledActivation, time: TimeOfDay) {
    Offset(a.when, time) <= a.forSeconds
  }

  /** For windows of at most 23 hours the hour-based test is exactly arc membership. */
  lemma HasInsideIsOnArc(a: ScheduledActivation, time: TimeOfDay)
    requires a.forSeconds <= 23 * 3600
    ensures a.HasInside(time) <==> OnArc(a, time)
  {
    if a.when + a.forSeconds < SecondsInDay {
      assert a.End() == a.when + a.forSeconds;
    } else {
      assert a.End() == a.when + a.forSeconds - SecondsInDay;
      assert a.End() <= a.when - 3600;
      assert Hour(a.End()) < Hour(a.when);
    }
  }

  /** A window of at most 23 hours holds its own start and its own end. */
  lemma HoldsOwnBoundaries(a: ScheduledActivation)
    requires a.forSeconds <= 23 * 3600
    ensures a.HasInside(a.when) && a.HasInside(a.End())
    ensures a.Overlaps(a)
  {
    HasInsideIsOnArc(a, a.when);
    HasInsideIsOnArc(a, a.End());
    assert Offset(a.when, a.End()) == a.forSeconds;
  }

  /** A full-day window ends where it starts, and then holds that one instant only. */
  lemma FullDayHoldsOnlyItsStart(a: ScheduledActivation, time: TimeOfDay)
    requires a.forSeconds == SecondsInDay
    ensures a.End() == a.when
    ensures a.HasInside(time) <==> time == a.when
  {
    assert a.when + a.forSeconds == a.when + 1 * SecondsInDay;
  }

  /** An instance of `EmptyIffEndEarlierInSameHour`: 12:30:00 (45000) for 86340 seconds ends
      at 12:29:00 (44940), in the same hour as it starts, so the window is read as not
      crossing midnight and holds no time of day. */
  lemma NearlyFullDayCanBeEmpty(time: TimeOfDay)
    ensures var a := ScheduledActivation(45000, SecondsInDay - 60);
      a.End() == 44940 && !a.HasInside(time) && !a.Overlaps(a)
  {
  }

  lemma OverlapsIsSymmetric(a: ScheduledActivation, b: ScheduledActivation)
    ensures a.Overlaps(b) <==> b.Overlaps(a)
  {
  }

  /** If a time of day lies on two arcs, the start of one of them lies on the other. */
  lemma SharedInstantHoldsAStart(a: ScheduledActivation, b: ScheduledActivation, time: TimeOfDay)
    requires OnArc(a, time) && OnArc(b, time)
    ensures OnArc(a, b.when) || OnArc(b, a.when)
  {
    var x, y := Offset(a.when, time), Offset(b.when, time);
    if x <= y {
      // going forward from b.when one meets a.when after y - x seconds
      assert Offset(b.when, a.when) == y - x;
    } else {
      assert Offset(a.when, b.when) == x - y;
    }
  }

  /** For windows of at most 23 hours the boundary-point test is exact: two windows
      overlap iff some time of day lies in both. */
  lemma OverlapsIffShareInstant(a: ScheduledActivation, b: ScheduledActivation)
    requires a.forSeconds <= 23 * 3600 && b.forSeconds <= 23 * 3600
    ensures a.Overlaps(b) <==> exists t: TimeOfDay :: a.HasInside(t) && b.HasInside(t)
  {
    HoldsOwnBoundaries(a);
    HoldsOwnBoundaries(b);
    if t: TimeOfDay :| a.HasInside(t) && b.HasInside(t) {
      HasInsideIsOnArc(a, t);
      HasInsideIsOnArc(b, t);
      SharedInstantHoldsAStart(a, b, t);
      HasInsideIsOnArc(a, b.when);
      HasInsideIsOnArc(b, a.when);
    }
  }

  /** The hour test reads a window as empty exactly when its end falls earlier than its
      start within the same hour; every other window holds at least its start. */
  lemma EmptyIffEndEarlierInSameHour(a: ScheduledActivation)
    ensures (forall t: TimeOfDay :: !a.HasInside(t)) <==> (a.End() < a.when && Hour(a.End()) == Hour(a.when))
  {
    if !(a.End() < a.when && Hour(a.End()) == Hour(a.when)) {
      assert a.HasInside(a.when);
    }
  }

  /** Splitting a count of seconds into whole days and a remainder below one day gives
      that remainder as the count modulo one day. */
  lemma ModOfSplit(x: int, days: int, rest: int)
    requires x == days * SecondsInDay + rest && 0 <= rest < SecondsInDay
    ensures x % SecondsInDay == rest
  {
  }

  /** The same start with the duration taken modulo one day: the same end. */
  function Reduced(a: ScheduledActivation): (b: ScheduledActivation)
    ensures b.when == a.when && b.forSeconds < SecondsInDay
    ensures b.End() == a.End()
  {
    var q, r := a.forSeconds / SecondsInDay, a.forSeconds % SecondsInDay;
    var x := a.when + r;
    if x < SecondsInDay then
      ModOfSplit(a.when + a.forSeconds, q, x);
      ScheduledActivation(a.when, r)
    else
      ModOfSplit(a.when + a.forSeconds, q + 1, x - SecondsInDay);
      ScheduledActivation(a.when, r)
  }

  /** Any window the hour test does not read as empty is arc membership for its duration
      taken modulo one day, whatever that duration. */
  lemma HasInsideIsReducedArc(a: ScheduledActivation, time: TimeOfDay)
    requires !(a.End() < a.when && Hour(a.End()) == Hour(a.when))
    ensures a.HasInside(time) <==> OnArc(Reduced(a), time)
  {
    var r := Reduced(a).forSeconds;
    if a.when + r < SecondsInDay {
      assert a.End() == a.when + r;
    } else {
      assert a.End() == a.when + r - SecondsInDay;
    }
  }

  /** Two windows, of any duration, that share a time of day overlap. */
  lemma SharedInstantMeansOverlap(a: ScheduledActivation, b: ScheduledActivation, time: TimeOfDay)
    ensures a.HasInside(time) && b.HasInside(time) ==> a.Overlaps(b)
  {
    if a.HasInside(time) && b.HasInside(time) {
      EmptyIffEndEarlierInSameHour(a);
      EmptyIffEndEarlierInSameHour(b);
      HasInsideIsReducedArc(a, time);
      HasInsideIsReducedArc(b, time);
      SharedInstantHoldsAStart(Reduced(a), Reduced(b), time);
      HasInsideIsReducedArc(a, b.when);
      HasInsideIsReducedArc(b, a.when);
    }
  }

  /** In a list that passed the overlap check no time of day lies in two windows. */
  lemma AtMostOneWindowActive(acts: seq<ScheduledActivation>, i: int, j: int, time: TimeOfDay)
    requires !Overlapping(acts)
    requires 0 <= i < |acts| && 0 <= j < |acts| && i != j
    ensures !(acts[i].HasInside(time) && acts[j].HasInside(time))
  {
    SharedInstantMeansOverlap(acts[i], acts[j], time);
  }

  /** Two windows that differ only by whole days of duration behave identically. */
  lemma {:induction false} WholeDaysDoNotMatter(a: ScheduledActivation, time: TimeOfDay)
    requires a.forSeconds >= SecondsInDay
    ensures var b := ScheduledActivation(a.when, a.forSeconds - SecondsInDay);
      b.End() == a.End() && (b.HasInside(time) <==> a.HasInside(time))
  {
    var b := ScheduledActivation(a.when, a.forSeconds - SecondsInDay);
    assert a.when + a.forSeconds == (b.when + b.forSeconds) + 1 * SecondsInDay;
  }
}
