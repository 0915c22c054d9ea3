/** The pin vocabulary of the vivarium crate's domain: pin numbers, the two-valued state of
    an output pin and the events an input pin reports. The `GPIO`, `OutputPin` and
    `InputPin` interfaces are realised by the mock classes of module `Adapters`. */
module Domain {
  import opened Errors

  /** Rust's `u8`. */
  type U8 = x: int | 0 <= x < 256

  /** Equality is by value, as `#[derive(PartialEq)]` gives it. */
  datatype PinNumber = PinNumber(number: U8) {

    /** `PinNumber::new`: every `u8` is a valid pin number. */
    static function New(number: U8): (r: Result<PinNumber>)
      ensures r.Ok? && r.value.Number() == number
    {
      Ok(PinNumber(number))
    }

    function Number(): (n: U8)
      ensures PinNumber(n) == this
    {
      number
    }
  }

  /** `impl From<&PinNumber> for u8`. */
  function ToU8(pin: PinNumber): (n: U8)
    ensures PinNumber.New(n) == Ok(pin)
  {
    pin.number
  }

  /** Pin numbers are equal iff their numbers are; the duplicate-pin check relies on it. */
  lemma PinNumberEquality(p: PinNumber, q: PinNumber)
    ensures p == q <==> p.Number() == q.Number()
  {
  }

  /** `Low` is written `Off` and `High` is written `On` by the adapters. */
  datatype OutputPinState = Low | High

  lemma OutputPinStateIsBinary(s: OutputPinState)
    ensures s == Low || s == High
    ensures Low != High
  {
  }

  datatype Trigger = RisingEdge | FallingEdge

  /** `timestamp` is the time since boot, in nanoseconds. */
  datatype Event = Event(timestamp: nat, trigger: Trigger)
}
