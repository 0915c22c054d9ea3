/** The mock hardware of the vivarium crate's adapters: a GPIO that hands out pins which
    remember what was last written to them. It is the concrete pin the controller drives
    in this model. */
module Adapters {
  import opened Errors
  import opened Domain

  /** An output pin: `state` is the last value written, `Low` when fresh. */
  class MockOutputPin {
    const number: PinNumber
    var state: OutputPinState

    constructor (number: PinNumber)
      ensures this.number == number && State() == Low
    {
      this.number := number;
      state := Low;
    }

    method SetLow()
      modifies this`state
      ensures State() == Low
    {
      state := Low;
    }

    method SetHigh()
      modifies this`state
      ensures State() == High
    {
      state := High;
    }

    /** `state(&self)` only reads the pin. */
    function State(): OutputPinState
      reads this`state
    {
      state
    }
  }

  /** An input pin none of whose operations is implemented. */
  class MockInputPin {
    const number: PinNumber

    constructor (number: PinNumber)
      ensures this.number == number
    {
      this.number := number;
    }

    method SetInterrupt() returns (r: Result<()>)
      ensures r == Err(NotImplemented)
    {
      r := Err(NotImplemented);
    }

    method ClearInterrupt() returns (r: Result<()>)
      ensures r == Err(NotImplemented)
    {
      r := Err(NotImplemented);
    }

    /** `timeout` is an optional duration in nanoseconds. */
    method PollInterrupt(timeout: Option<nat>) returns (r: Result<Option<Event>>)
      ensures r == Err(NotImplemented)
    {
      r := Err(NotImplemented);
    }
  }

  class MockGPIO {

    constructor ()
    {
    }

    /** Always succeeds with a fresh pin carrying the requested number, in state `Low`. */
    method Output(number: PinNumber) returns (r: Result<MockOutputPin>)
      ensures r.Ok? && fresh(r.value)
      ensures r.value.number == number && r.value.State() == Low
    {
      var pin := new MockOutputPin(number);
      r := Ok(pin);
    }

    /** Always succeeds with a fresh input pin carrying the requested number. */
    method Input(number: PinNumber) returns (r: Result<MockInputPin>)
      ensures r.Ok? && fresh(r.value)
      ensures r.value.number == number
    {
      var pin := new MockInputPin(number);
      r := Ok(pin);
    }
  }
}
