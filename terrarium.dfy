/** The earlier terrarium crate's schedule: the same windows as the vivarium crate, but a
    constructor with no upper bound on the duration, and a window list that only borrows
    the caller's slice once no two of its windows overlap. */
module Terrarium {
  import opened Errors
  import opened Window

  /** `ScheduledActivation::new`: only a zero duration is refused. */
  function NewActivation(when: TimeOfDay, forSeconds: U32): (r: Result<ScheduledActivation>)
    ensures r.Err? <==> forSeconds == 0
    ensures r.Err? ==> r.error == ZeroDuration
    ensures r.Ok? ==> r.value.when == when && r.value.forSeconds == forSeconds
  {
    if forSeconds == 0 then Err(ZeroDuration) else Ok(ScheduledActivation(when, forSeconds))
  }

  /** A duration longer than a day wraps around the clock face as many times as it needs:
      the end, and with it the whole window, is that of the duration modulo one day. */
  lemma {:induction false} EndWrapsModuloDay(a: ScheduledActivation, time: TimeOfDay)
    ensures var b := ScheduledActivation(a.when, a.forSeconds % SecondsInDay);
      a.End() == (a.when + a.forSeconds % SecondsInDay) % SecondsInDay
      && (a.HasInside(time) <==> b.HasInside(time))
    decreases a.forSeconds
  {
    if a.forSeconds >= SecondsInDay {
      var c := ScheduledActivation(a.when, a.forSeconds - SecondsInDay);
      WholeDaysDoNotMatter(a, time);
      EndWrapsModuloDay(c, time);
      ModSubtractDay(a.forSeconds);
    }
  }

  lemma ModSubtractDay(x: int)
    requires x >= SecondsInDay
    ensures (x - SecondsInDay) % SecondsInDay == x % SecondsInDay
  {
  }

  /** `ScheduledActivations::new`: an empty slice and a slice holding two overlapping
      windows at distinct positions are refused; any other slice is kept as it is. */
  function NewActivations(acts: seq<ScheduledActivation>): (r: Result<seq<ScheduledActivation>>)
    ensures r.Ok? <==> |acts| > 0 && !Overlapping(acts)
    ensures r.Ok? ==> r.value == acts
    ensures r.Err? ==> r.error == if |acts| == 0 then EmptyActivations else OverlappingActivations
  {
    if |acts| == 0 then
      Err(EmptyActivations)
    else if Overlapping(acts) then
      Err(OverlappingActivations)
    else
      Ok(acts)
  }

  /** A window the test tables build with `new`; they only use valid ones. Times of day are
      written in seconds since midnight, with the clock reading beside them. */
  function TestWindow(when: TimeOfDay, forSeconds: U32): (w: ScheduledActivation)
    requires forSeconds > 0
    ensures w == ScheduledActivation(when, forSeconds)
  {
    NewActivation(when, forSeconds).value
  }

  /** The crate's `test_has_inside` table, for the window crossing midnight:
      23:59:55 for 10 s holds 23:59:55, 23:59:59, 00:00:00 and 00:00:05 but not 12:00:00. */
  lemma HasInsideMidnightCases()
    ensures TestWindow(86395, 10).HasInside(86395)
    ensures TestWindow(86395, 10).HasInside(86399)
    ensures TestWindow(86395, 10).HasInside(0)
    ensures TestWindow(86395, 10).HasInside(5)
    ensures !TestWindow(86395, 10).HasInside(43200)
  {
    assert TestWindow(86395, 10).End() == 5;
  }

  /** The crate's `test_has_inside` table, for the window within the day:
      12:00:00 for 10 s holds 12:00:00, 12:00:05 and 12:00:10 but not 18:00:00. */
  lemma HasInsideNoonCases()
    ensures TestWindow(43200, 10).HasInside(43200)
    ensures TestWindow(43200, 10).HasInside(43205)
    ensures TestWindow(43200, 10).HasInside(43210)
    ensures !TestWindow(43200, 10).HasInside(64800)
  {
    assert TestWindow(43200, 10).End() == 43210;
  }

  /** The crate's `test_overlaps` table for windows within the day, each pair asked in
      both directions. */
  lemma OverlapsDaytimeCases()
    // identical: 14:00:00 for 10 s, twice
    ensures TestWindow(50400, 10).Overlaps(TestWindow(50400, 10))
    // inside: 14:00:00 for 20 s and 14:00:05 for 10 s
    ensures TestWindow(50400, 20).Overlaps(TestWindow(50405, 10))
    ensures TestWindow(50405, 10).Overlaps(TestWindow(50400, 20))
    // overlap: 14:00:00 for 10 s and 14:00:05 for 10 s
    ensures TestWindow(50400, 10).Overlaps(TestWindow(50405, 10))
    ensures TestWindow(50405, 10).Overlaps(TestWindow(50400, 10))
    // outside: 14:00:00 for 10 s and 18:00:00 for 10 s
    ensures !TestWindow(50400, 10).Overlaps(TestWindow(64800, 10))
    ensures !TestWindow(64800, 10).Overlaps(TestWindow(50400, 10))
  {
    assert TestWindow(50400, 10).End() == 50410;
    assert TestWindow(50400, 20).End() == 50420;
    assert TestWindow(50405, 10).End() == 50415;
    assert TestWindow(64800, 10).End() == 64810;
  }

  /** The crate's `test_overlaps` table for windows around midnight, each pair asked in
      both directions. */
  lemma OverlapsMidnightCases()
    // midnight_inside: 23:59:50 for 20 s and 23:59:55 for 10 s
    ensures TestWindow(86390, 20).Overlaps(TestWindow(86395, 10))
    ensures TestWindow(86395, 10).Overlaps(TestWindow(86390, 20))
    // midnight_inside_before: 23:59:50 for 20 s and 23:59:55 for 1 s
    ensures TestWindow(86390, 20).Overlaps(TestWindow(86395, 1))
    ensures TestWindow(86395, 1).Overlaps(TestWindow(86390, 20))
    // midnight_inside_after: 23:59:50 for 20 s and 00:00:05 for 1 s
    ensures TestWindow(86390, 20).Overlaps(TestWindow(5, 1))
    ensures TestWindow(5, 1).Overlaps(TestWindow(86390, 20))
    // midnight_outside: 23:59:50 for 20 s and 18:00:00 for 10 s
    ensures !TestWindow(86390, 20).Overlaps(TestWindow(64800, 10))
    ensures !TestWindow(64800, 10).Overlaps(TestWindow(86390, 20))
  {
    assert TestWindow(86390, 20).End() == 10;
    assert TestWindow(86395, 10).End() == 5;
    assert TestWindow(86395, 1).End() == 86396;
    assert TestWindow(5, 1).End() == 6;
    assert TestWindow(64800, 10).End() == 64810;
  }

  /** The crate's `test_construct` table: empty, 12:00:00 and 12:00:05 for 10 s each
      (overlapping), and 12:00:00 and 18:00:00 for 10 s each (accepted). */
  lemma NewActivationsCases()
    ensures NewActivations([]) == Err(EmptyActivations)
    ensures NewActivations([TestWindow(43200, 10), TestWindow(43205, 10)])
         == Err(OverlappingActivations)
    ensures NewActivations([TestWindow(43200, 10), TestWindow(64800, 10)]).Ok?
  {
    var overlapping := [TestWindow(43200, 10), TestWindow(43205, 10)];
    assert overlapping[0].Overlaps(overlapping[1]);
    var apart := [TestWindow(43200, 10), TestWindow(64800, 10)];
    assert !apart[0].Overlaps(apart[1]) && !apart[1].Overlaps(apart[0]);
  }
}
