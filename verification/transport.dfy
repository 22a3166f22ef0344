/** The Modbus transport as the codec sees it: requests, replies, unit
    identifiers and the failures a read or a decode can end in. The TCP
    client itself is not modelled; a `Bus` stands for whatever replies it
    gives. */
module Transport {
  import opened Wrappers
  import opened Words

  /** Unit identifier of the PowerTag Link gateway itself. */
  const GatewayUnit := 255

  /** Highest unit identifier probed when looking for the synthesis table. */
  const SynthesisUnitStart := 247

  /** The unit identifiers the numeric reads and writes accept:
      a wireless tag in [1, 247] or the gateway (255). */
  function ValidUnit(unit: int): (b: bool)
    ensures b ==> 1 <= unit <= 255
    ensures unit <= 0 || 248 <= unit <= 254 || 256 <= unit ==> !b
    ensures unit == GatewayUnit ==> b
    ensures 1 <= unit <= 247 ==> b
  {
    (1 <= unit <= 247) || unit == GatewayUnit
  }

  /** A holding-register read: `count` words starting at `address` of `unit`. */
  datatype Request = Request(address: int, count: nat, unit: int)

  /** What a read can come back with: the registers, a Modbus exception
      response from the device, or no usable response at all. */
  datatype Reply = Registers(words: seq<Word>) | ExceptionReply | NoReply

  /** A register write as it is handed to the client. */
  datatype WriteRequest = WriteRequest(address: int, words: seq<Word>, unit: int)

  /** The ways a read, write or decode can fail. */
  datatype Error =
    | TransportError          // no usable response; propagated unchanged
    | DeviceExceptionError    // Modbus exception response, raised as ConnectionError
    | MalformedResponse       // fewer registers than the decoder consumes
    | UnitAssertion           // the unit-id assertion of a numeric read or write failed
    | ValueOutOfRange         // a value that does not fit the 16-bit register it is packed into
    | UnknownEnumCode         // a closed enumeration has no member for the code
    | InvalidTimestamp        // a packed date-time whose fields are not a calendar date
    | SynthesisTableNotFound  // no unit in [2, 247] answered the discovery probe
    | NoneOperand             // a bit operation applied to an absent register value

  /** The device as seen through the client: one reply per request. */
  type Bus = Request -> Reply

  /** A bus that answers every request with the same registers. */
  function Answering(ws: seq<Word>): Bus
  {
    (q: Request) => Registers(ws)
  }

  /** Issue one read. An exception response becomes DeviceExceptionError,
      anything else that is not a register list becomes TransportError. */
  function Fetch(bus: Bus, address: int, count: nat, unit: int): (r: Result<seq<Word>, Error>)
    ensures r.Success? <==> bus(Request(address, count, unit)).Registers?
    ensures r.Success? ==> r.value == bus(Request(address, count, unit)).words
    ensures r == Failure(DeviceExceptionError) <==> bus(Request(address, count, unit)) == ExceptionReply
    ensures r == Failure(TransportError) <==> bus(Request(address, count, unit)) == NoReply
  {
    match bus(Request(address, count, unit))
    case Registers(ws) => Success(ws)
    case ExceptionReply => Failure(DeviceExceptionError)
    case NoReply => Failure(TransportError)
  }
}
