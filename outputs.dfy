/** The vivarium crate's outputs: daily schedules, named and pinned output definitions,
    and the controller that drives one pin per output from its schedule. The clock is
    the `now` argument of `Controller.UpdateOutputs`. */
module Outputs {
  import opened Errors
  import opened Window
  import opened Domain
  import opened Adapters

  /** `ScheduledActivation::new`: a duration must be positive and at most one day long. */
  function NewActivation(when: TimeOfDay, forSeconds: U32): (r: Result<ScheduledActivation>)
    ensures r.Ok? <==> 0 < forSeconds <= SecondsInDay
    ensures forSeconds == 0 ==> r == Err(ZeroDuration)
    ensures forSeconds > SecondsInDay ==> r == Err(DurationExceedsDay)
    ensures r.Ok? ==> r.value.when == when && r.value.forSeconds == forSeconds
  {
    if forSeconds == 0 then
      Err(ZeroDuration)
    else if forSeconds > SecondsInDay then
      Err(DurationExceedsDay)
    else
      Ok(ScheduledActivation(when, forSeconds))
  }

  /** The windows of one output, in the order they were given. */
  datatype ScheduledActivations = ScheduledActivations(activations: seq<ScheduledActivation>) {

    /** Some window of the schedule holds `time`. */
    ghost predicate Covers(time: TimeOfDay) {
      exists i :: 0 <= i < |activations| && activations[i].HasInside(time)
    }

    /** `ScheduledActivations::new`: refuses an empty list, then checks every ordered pair
        of distinct positions for overlap, copying each window once its row is clear. */
    static method New(activations: seq<ScheduledActivation>) returns (r: Result<ScheduledActivations>)
      ensures |activations| == 0 ==> r == Err(EmptyActivations)
      ensures |activations| > 0 && Overlapping(activations) ==> r == Err(OverlappingActivations)
      ensures |activations| > 0 && !Overlapping(activations) ==> r == Ok(ScheduledActivations(activations))
    {
      if |activations| == 0 {
        return Err(EmptyActivations);
      }
      var v: seq<ScheduledActivation> := [];
      for i := 0 to |activations|
        invariant v == activations[..i]
        invariant forall i', j' :: 0 <= i' < i && 0 <= j' < |activations| && i' != j' ==>
          !activations[i'].Overlaps(activations[j'])
      {
        for j := 0 to |activations|
          invariant forall j' :: 0 <= j' < j && i != j' ==> !activations[i].Overlaps(activations[j'])
        {
          if i != j && activations[i].Overlaps(activations[j]) {
            return Err(OverlappingActivations);
          }
        }
        v := v + [activations[i]];
      }
      assert v == activations;
      return Ok(ScheduledActivations(v));
    }

    /** `has_inside`: scans the windows in order and stops at the first that holds `time`. */
    method HasInside(time: TimeOfDay) returns (inside: bool)
      ensures inside == Covers(time)
    {
      for i := 0 to |activations|
        invariant forall i' :: 0 <= i' < i ==> !activations[i'].HasInside(time)
      {
        if activations[i].HasInside(time) {
          return true;
        }
      }
      return false;
    }
  }

  /** An output name is any non-empty string. */
  datatype OutputName = OutputName(name: string)

  /** `OutputName::new`. */
  function NewOutputName(name: string): (r: Result<OutputName>)
    ensures r.Err? <==> name == []
    ensures r.Err? ==> r.error == EmptyOutputName
    ensures r.Ok? ==> r.value.name == name
  {
    if name == [] then Err(EmptyOutputName) else Ok(OutputName(name))
  }

  datatype OutputDefinition = OutputDefinition(name: OutputName, pin: PinNumber, activations: ScheduledActivations)

  /** Outputs `i` and `j` are distinct entries that share a name or a pin. */
  predicate SharesNameOrPin(outputs: seq<OutputDefinition>, i: int, j: int)
    requires 0 <= i < |outputs| && 0 <= j < |outputs|
  {
    i != j && (outputs[i].name == outputs[j].name || outputs[i].pin == outputs[j].pin)
  }

  ghost predicate HasClash(outputs: seq<OutputDefinition>) {
    exists i, j :: 0 <= i < |outputs| && 0 <= j < |outputs| && SharesNameOrPin(outputs, i, j)
  }

  /** `(i, j)` is the first clashing pair the nested loops of `OutputDefinitions::new`
      meet: row `i` is the first row holding a clash, and `j` the first column in it. */
  ghost predicate FirstClash(outputs: seq<OutputDefinition>, i: int, j: int) {
    && 0 <= i < |outputs| && 0 <= j < |outputs|
    && SharesNameOrPin(outputs, i, j)
    && (forall i', j' :: 0 <= i' < i && 0 <= j' < |outputs| ==> !SharesNameOrPin(outputs, i', j'))
    && (forall j' :: 0 <= j' < j ==> !SharesNameOrPin(outputs, i, j'))
  }

  /** At a clashing pair the name comparison comes first. */
  function ClashError(outputs: seq<OutputDefinition>, i: int, j: int): Error
    requires 0 <= i < |outputs| && 0 <= j < |outputs|
  {
    if outputs[i].name == outputs[j].name then IdenticalOutputNames else DuplicatePinNumbers
  }

  /** All outputs of a device, in the order they were given. */
  datatype OutputDefinitions = OutputDefinitions(outputs: seq<OutputDefinition>) {

    /** `OutputDefinitions::new`: refuses two distinct entries sharing a name or a pin,
        reporting the first such pair in loop order; accepts anything else, the empty list
        included, unchanged. */
    static method New(outputs: seq<OutputDefinition>) returns (r: Result<OutputDefinitions>)
      ensures r.Ok? <==> !HasClash(outputs)
      ensures r.Ok? ==> r.value.outputs == outputs
      ensures r.Err? ==> exists i, j :: FirstClash(outputs, i, j) && r.error == ClashError(outputs, i, j)
    {
      var v: seq<OutputDefinition> := [];
      for i := 0 to |outputs|
        invariant v == outputs[..i]
        invariant forall i', j' :: 0 <= i' < i && 0 <= j' < |outputs| ==> !SharesNameOrPin(outputs, i', j')
      {
        for j := 0 to |outputs|
          invariant forall j' :: 0 <= j' < j ==> !SharesNameOrPin(outputs, i, j')
        {
          if i == j {
            continue;
          }
          if outputs[i].name == outputs[j].name {
            assert FirstClash(outputs, i, j);
            return Err(IdenticalOutputNames);
          }
          if outputs[i].pin == outputs[j].pin {
            assert FirstClash(outputs, i, j);
            return Err(DuplicatePinNumbers);
          }
        }
        v := v + [outputs[i]];
      }
      assert v == outputs;
      return Ok(OutputDefinitions(v));
    }
  }

  /** Sharing is symmetric, so the first clashing pair always has `i < j`. */
  lemma FirstClashIsOrdered(outputs: seq<OutputDefinition>, i: int, j: int)
    requires FirstClash(outputs, i, j)
    ensures i < j
  {
    // sharing is symmetric, so a column before the row would make an earlier row clash
    assert SharesNameOrPin(outputs, j, i);
  }

  /** The first clashing pair is unique, so the error `OutputDefinitions::new` reports is
      determined by its input. */
  lemma FirstClashIsUnique(outputs: seq<OutputDefinition>, i: int, j: int, k: int, l: int)
    requires FirstClash(outputs, i, j) && FirstClash(outputs, k, l)
    ensures i == k && j == l
  {
  }

  /** The state an output reports: `On` is a high pin, `Off` a low one. */
  datatype OutputState = On | Off

  /** `impl From<OutputPinState> for OutputState`. */
  function OutputStateFrom(state: OutputPinState): (r: OutputState)
    ensures r == On <==> state == High
    ensures r == Off <==> state == Low
  {
    match state
    case High => On
    case Low => Off
  }

  datatype OutputStatus = OutputStatus(name: OutputName, state: OutputState)

  /** The pin state the schedule asks of an output at `now`. */
  ghost function TargetState(definition: OutputDefinition, now: TimeOfDay): OutputPinState {
    if definition.activations.Covers(now) then High else Low
  }

  /** An output definition together with the pin the controller acquired for it. */
  datatype OutputWithPin = OutputWithPin(definition: OutputDefinition, pin: MockOutputPin)

  class Controller {
    /** The list itself never changes after construction; only its pins do. */
    const outputs: seq<OutputWithPin>

    ghost function Pins(): set<MockOutputPin> {
      set i | 0 <= i < |outputs| :: outputs[i].pin
    }

    /** Each output owns its own pin. */
    ghost predicate Valid() {
      forall i, j :: 0 <= i < j < |outputs| ==> outputs[i].pin != outputs[j].pin
    }

    /** `Controller::new`: acquires one fresh pin per definition, in order, from the GPIO.
        `MockGPIO.Output` never fails, so the error the source propagates cannot arise. */
    constructor (definitions: OutputDefinitions, gpio: MockGPIO)
      ensures Valid()
      ensures |outputs| == |definitions.outputs|
      ensures forall i :: 0 <= i < |outputs| ==>
        && outputs[i].definition == definitions.outputs[i]
        && fresh(outputs[i].pin)
        && outputs[i].pin.number == definitions.outputs[i].pin
        && outputs[i].pin.State() == Low
    {
      var v: seq<OutputWithPin> := [];
      for k := 0 to |definitions.outputs|
        invariant |v| == k
        invariant forall i :: 0 <= i < k ==>
          && v[i].definition == definitions.outputs[i]
          && fresh(v[i].pin)
          && v[i].pin.number == definitions.outputs[i].pin
          && v[i].pin.State() == Low
        invariant forall i, j :: 0 <= i < j < k ==> v[i].pin != v[j].pin
      {
        var definition := definitions.outputs[k];
        var pin := gpio.Output(definition.pin);
        v := v + [OutputWithPin(definition, pin.value)];
      }
      outputs := v;
    }

    /** `update_outputs`: writes every pin, high when its schedule holds `now` and low
        otherwise, without looking at the pin's present state. */
    method UpdateOutputs(now: TimeOfDay)
      requires Valid()
      modifies Pins()
      ensures forall i :: 0 <= i < |outputs| ==> outputs[i].pin.State() == TargetState(outputs[i].definition, now)
      ensures forall i :: 0 <= i < |outputs| && old(outputs[i].pin.State()) == TargetState(outputs[i].definition, now) ==>
        outputs[i].pin.State() == old(outputs[i].pin.State())
    {
      for k := 0 to |outputs|
        invariant forall i :: 0 <= i < k ==> outputs[i].pin.State() == TargetState(outputs[i].definition, now)
      {
        var output := outputs[k];
        var active := output.definition.activations.HasInside(now);
        if active {
          output.pin.SetHigh();
        } else {
          output.pin.SetLow();
        }
      }
    }

    /** `fail_safe`: drives every pin low, whatever its schedule and its prior state. */
    method FailSafe()
      requires Valid()
      modifies Pins()
      ensures forall i :: 0 <= i < |outputs| ==> outputs[i].pin.State() == Low
    {
      for k := 0 to |outputs|
        invariant forall i :: 0 <= i < k ==> outputs[i].pin.State() == Low
      {
        outputs[k].pin.SetLow();
      }
    }

    /** `status`: one entry per output, in definition order, reading each pin back. */
    method Status() returns (result: seq<OutputStatus>)
      ensures |result| == |outputs|
      ensures forall i :: 0 <= i < |outputs| ==>
        result[i] == OutputStatus(outputs[i].definition.name, OutputStateFrom(outputs[i].pin.State()))
    {
      result := [];
      for k := 0 to |outputs|
        invariant |result| == k
        invariant forall i :: 0 <= i < k ==>
          result[i] == OutputStatus(outputs[i].definition.name, OutputStateFrom(outputs[i].pin.State()))
      {
        var status := OutputStatus(outputs[k].definition.name, OutputStateFrom(outputs[k].pin.State()));
        result := result + [status];
      }
    }
  }

  /** A window the test tables build with `new`; they only use valid ones. Times of day are
      written in seconds since midnight, with the clock reading beside them. */
  function TestWindow(when: TimeOfDay, forSeconds: U32): (w: ScheduledActivation)
    requires 0 < forSeconds <= SecondsInDay
    ensures w == ScheduledActivation(when, forSeconds)
  {
    NewActivation(when, forSeconds).value
  }

  /** The crate's `test_has_inside` table, for the window crossing midnight:
      23:59:55 for 10 s holds 23:59:55, 23:59:59, 00:00:00 and 00:00:05 but not 12:00:00. */
  lemma HasInsideMidnightCases()
    ensures TestWindow(86395, 10).HasInside(86395)
    ensures TestWindow(86395, 10).HasInside(86399)
    ensures TestWindow(86395, 10).HasInside(0)
    ensures TestWindow(86395, 10).HasInside(5)
    ensures !TestWindow(86395, 10).HasInside(43200)
  {
    assert TestWindow(86395, 10).End() == 5;
  }

  /** The crate's `test_has_inside` table, for the window within the day:
      12:00:00 for 10 s holds 12:00:00, 12:00:05 and 12:00:10 but not 18:00:00. */
  lemma HasInsideNoonCases()
    ensures TestWindow(43200, 10).HasInside(43200)
    ensures TestWindow(43200, 10).HasInside(43205)
    ensures TestWindow(43200, 10).HasInside(43210)
    ensures !TestWindow(43200, 10).HasInside(64800)
  {
    assert TestWindow(43200, 10).End() == 43210;
  }

  /** The crate's `test_overlaps` table for windows within the day, each pair asked in
      both directions. */
  lemma OverlapsDaytimeCases()
    // identical: 14:00:00 for 10 s, twice
    ensures TestWindow(50400, 10).Overlaps(TestWindow(50400, 10))
    // inside: 14:00:00 for 20 s and 14:00:05 for 10 s
    ensures TestWindow(50400, 20).Overlaps(TestWindow(50405, 10))
    ensures TestWindow(50405, 10).Overlaps(TestWindow(50400, 20))
    // overlap: 14:00:00 for 10 s and 14:00:05 for 10 s
    ensures TestWindow(50400, 10).Overlaps(TestWindow(50405, 10))
    ensures TestWindow(50405, 10).Overlaps(TestWindow(50400, 10))
    // outside: 14:00:00 for 10 s and 18:00:00 for 10 s
    ensures !TestWindow(50400, 10).Overlaps(TestWindow(64800, 10))
    ensures !TestWindow(64800, 10).Overlaps(TestWindow(50400, 10))
  {
    assert TestWindow(50400, 10).End() == 50410;
    assert TestWindow(50400, 20).End() == 50420;
    assert TestWindow(50405, 10).End() == 50415;
    assert TestWindow(64800, 10).End() == 64810;
  }

  /** The crate's `test_overlaps` table for windows around midnight, each pair asked in
      both directions. */
  lemma OverlapsMidnightCases()
    // midnight_inside: 23:59:50 for 20 s and 23:59:55 for 10 s
    ensures TestWindow(86390, 20).Overlaps(TestWindow(86395, 10))
    ensures TestWindow(86395, 10).Overlaps(TestWindow(86390, 20))
    // midnight_inside_before: 23:59:50 for 20 s and 23:59:55 for 1 s
    ensures TestWindow(86390, 20).Overlaps(TestWindow(86395, 1))
    ensures TestWindow(86395, 1).Overlaps(TestWindow(86390, 20))
    // midnight_inside_after: 23:59:50 for 20 s and 00:00:05 for 1 s
    ensures TestWindow(86390, 20).Overlaps(TestWindow(5, 1))
    ensures TestWindow(5, 1).Overlaps(TestWindow(86390, 20))
    // midnight_outside: 23:59:50 for 20 s and 18:00:00 for 10 s
    ensures !TestWindow(86390, 20).Overlaps(TestWindow(64800, 10))
    ensures !TestWindow(64800, 10).Overlaps(TestWindow(86390, 20))
  {
    assert TestWindow(86390, 20).End() == 10;
    assert TestWindow(86395, 10).End() == 5;
    assert TestWindow(86395, 1).End() == 86396;
    assert TestWindow(5, 1).End() == 6;
    assert TestWindow(64800, 10).End() == 64810;
  }

  /** The crate's `test_construct` table, checked against the contract of
      `ScheduledActivations.New`: empty, 12:00:00 and 12:00:05 for 10 s each
      (overlapping), and 12:00:00 and 18:00:00 for 10 s each (accepted). */
  method ConstructCases() returns (empty: Result<ScheduledActivations>, refused: Result<ScheduledActivations>,
                                    accepted: Result<ScheduledActivations>)
    ensures empty == Err(EmptyActivations)
    ensures refused == Err(OverlappingActivations)
    ensures accepted == Ok(ScheduledActivations([TestWindow(43200, 10), TestWindow(64800, 10)]))
  {
    empty := ScheduledActivations.New([]);

    var overlapping := [TestWindow(43200, 10), TestWindow(43205, 10)];
    assert overlapping[0].Overlaps(overlapping[1]);
    refused := ScheduledActivations.New(overlapping);

    var apart := [TestWindow(43200, 10), TestWindow(64800, 10)];
    assert !apart[0].Overlaps(apart[1]) && !apart[1].Overlaps(apart[0]);
    accepted := ScheduledActivations.New(apart);
  }

  /** One output on pin 17 scheduled at 12:00:00 for 10 s, driven through a few ticks. */
  method ControllerScenario()
  {
    var created := ScheduledActivations.New([TestWindow(43200, 10)]);
    assert created == Ok(ScheduledActivations([TestWindow(43200, 10)]));
    var schedule := created.value;
    var lamp := OutputDefinition(OutputName("lamp"), PinNumber(17), schedule);
    var definitions := OutputDefinitions.New([lamp]);
    assert definitions == Ok(OutputDefinitions([lamp]));
    var gpio := new MockGPIO();
    var controller := new Controller(definitions.value, gpio);

    var status := controller.Status();
    assert status == [OutputStatus(OutputName("lamp"), Off)];

    controller.UpdateOutputs(43205);  // 12:00:05
    assert schedule.activations[0].HasInside(43205);
    status := controller.Status();
    assert status == [OutputStatus(OutputName("lamp"), On)];

    controller.UpdateOutputs(64800);  // 18:00:00
    assert !schedule.Covers(64800);
    status := controller.Status();
    assert status == [OutputStatus(OutputName("lamp"), Off)];

    controller.UpdateOutputs(43210);  // 12:00:10
    assert schedule.activations[0].HasInside(43210);
    controller.FailSafe();
    status := controller.Status();
    assert status == [OutputStatus(OutputName("lamp"), Off)];
  }
}
