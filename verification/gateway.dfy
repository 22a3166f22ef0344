/** The gateway client: discovery of the synthesis-table unit, the read of
    any accessor through the register map, and the accessors that give a
    register a meaning beyond its wire type. */
module Gateway {
  import opened Wrappers
  import opened Words
  import opened Transport
  import opened Codec
  import opened Calendar
  import opened Timestamp
  import opened Enums
  import opened Products
  import opened AddressMap

  // ------------------------------------------------------------- discovery

  /** The register discovery reads: the synthesis table's product id. */
  const ProbeAddress := 0x0001

  lemma ProbeAddressIsProductId()
    ensures Layout(SynthesisProductId) == Register(ProbeAddress, 1, UInt16)
  {
  }

  /** The discovery probe: a 16-bit read of the product-id register on
      `unit`. */
  function Probe(bus: Bus, unit: int): (r: Result<Option<nat>, Error>)
    ensures r == Failure(DeviceExceptionError) <==> ValidUnit(unit) && bus(Request(ProbeAddress, 1, unit)) == ExceptionReply
    ensures r.Success? ==> bus(Request(ProbeAddress, 1, unit)).Registers?
  {
    ReadUInt16(bus, ProbeAddress, unit)
  }

  /** `unit` answers the probe with an exception response, the one failure
      discovery skips over. */
  predicate Refuses(bus: Bus, unit: int)
  {
    Probe(bus, unit) == Failure(DeviceExceptionError)
  }

  /** Discovery from `unit` downwards: the first unit, counting down to 2,
      whose probe succeeds. An exception response moves on to the next
      unit; any other failure ends the search with that failure. */
  function DiscoverFrom(bus: Bus, unit: int): (r: Result<int, Error>)
    requires unit <= SynthesisUnitStart
    ensures r.Success? ==> 2 <= r.value <= unit && Probe(bus, r.value).Success?
    ensures r.Success? ==> forall u :: r.value < u <= unit ==> Refuses(bus, u)
    ensures r == Failure(SynthesisTableNotFound) <==> forall u :: 2 <= u <= unit ==> Refuses(bus, u)
    ensures r.Failure? && r.error != SynthesisTableNotFound ==> r.error in {TransportError, MalformedResponse}
    decreases unit
  {
    if unit < 2 then Failure(SynthesisTableNotFound)
    else
      match Probe(bus, unit)
      case Success(_) =>
        assert !Refuses(bus, unit);
        Success(unit)
      case Failure(e) =>
        if e == DeviceExceptionError then DiscoverFrom(bus, unit - 1)
        else
          assert !Refuses(bus, unit);
          Failure(e)
  }

  /** A failed discovery that did not run out of units stopped at a unit
      whose probe failed with that very error, after every unit above it
      had answered with an exception. */
  lemma {:induction false} DiscoveryFailureCause(bus: Bus, unit: int)
    requires unit <= SynthesisUnitStart
    requires DiscoverFrom(bus, unit).Failure? && DiscoverFrom(bus, unit).error != SynthesisTableNotFound
    ensures exists u :: 2 <= u <= unit && Probe(bus, u) == Failure(DiscoverFrom(bus, unit).error)
                        && forall v :: u < v <= unit ==> Refuses(bus, v)
    decreases unit
  {
    if Refuses(bus, unit) {
      DiscoveryFailureCause(bus, unit - 1);
      var u :| 2 <= u <= unit - 1 && Probe(bus, u) == Failure(DiscoverFrom(bus, unit - 1).error)
               && forall v :: u < v <= unit - 1 ==> Refuses(bus, v);
      assert forall v :: u < v <= unit ==> Refuses(bus, v);
    } else {
      assert Probe(bus, unit) == Failure(DiscoverFrom(bus, unit).error);
    }
  }

  /** The unit of the synthesis table: the highest unit from 247 down to 2
      that answers the probe. Unit 1 is never probed. */
  function FindSynthesisTableUnit(bus: Bus): (r: Result<int, Error>)
    ensures r.Success? ==> 2 <= r.value <= SynthesisUnitStart && Probe(bus, r.value).Success?
    ensures r.Success? ==> forall u :: r.value < u <= SynthesisUnitStart ==> Refuses(bus, u)
    ensures r == Failure(SynthesisTableNotFound) <==> forall u :: 2 <= u <= SynthesisUnitStart ==> Refuses(bus, u)
    ensures r.Failure? ==> r.error in {SynthesisTableNotFound, TransportError, MalformedResponse}
  {
    DiscoverFrom(bus, SynthesisUnitStart)
  }

  /** Discovery looks at nothing but the probe replies of the units it has
      yet to try. */
  lemma {:induction false} DiscoveryReadsOnlyProbes(bus: Bus, other: Bus, unit: int)
    requires unit <= SynthesisUnitStart
    requires forall u :: 2 <= u <= unit ==> Probe(bus, u) == Probe(other, u)
    ensures DiscoverFrom(bus, unit) == DiscoverFrom(other, unit)
    decreases unit
  {
    if unit >= 2 {
      DiscoveryReadsOnlyProbes(bus, other, unit - 1);
    }
  }

  /** Two devices that differ only in how unit 1 answers are discovered
      alike. */
  lemma UnitOneNeverProbed(bus: Bus, other: Bus)
    requires forall q: Request :: q.unit != 1 ==> bus(q) == other(q)
    ensures FindSynthesisTableUnit(bus) == FindSynthesisTableUnit(other)
  {
    forall u | 2 <= u <= SynthesisUnitStart
      ensures Probe(bus, u) == Probe(other, u)
    {
      assert bus(Request(ProbeAddress, 1, u)) == other(Request(ProbeAddress, 1, u));
    }
    DiscoveryReadsOnlyProbes(bus, other, SynthesisUnitStart);
  }

  /** Where only unit 42 answers and every other unit answers with an
      exception, discovery settles on 42. */
  lemma DiscoveryExample(bus: Bus)
    requires forall u :: 2 <= u <= SynthesisUnitStart && u != 42 ==> Probe(bus, u) == Failure(DeviceExceptionError)
    requires Probe(bus, 42).Success?
    ensures FindSynthesisTableUnit(bus) == Success(42)
  {
    var r := FindSynthesisTableUnit(bus);
    assert !Refuses(bus, 42);
    if r.Failure? && r.error != SynthesisTableNotFound {
      DiscoveryFailureCause(bus, SynthesisUnitStart);
    }
  }

  /** A failure other than an exception response at unit 247 ends discovery
      at once, whatever the lower units would answer. */
  lemma DiscoveryStopsOnTransportFailure(bus: Bus)
    requires Probe(bus, SynthesisUnitStart) == Failure(TransportError)
    ensures FindSynthesisTableUnit(bus) == Failure(TransportError)
  {
  }

  // ------------------------------------------------------------ connection

  /** A connected client: the transport and the discovered unit of the
      synthesis table. */
  datatype Link = Link(bus: Bus, synthesisUnit: int)

  /** Connecting runs discovery; no unit found means no connection. */
  function Connect(bus: Bus): (r: Result<Link, Error>)
    ensures r.Success? ==> r.value.bus == bus && 2 <= r.value.synthesisUnit <= SynthesisUnitStart
    ensures r.Success? ==> Probe(bus, r.value.synthesisUnit).Success?
    ensures r.Failure? <==> FindSynthesisTableUnit(bus).Failure?
    ensures r.Success? ==> FindSynthesisTableUnit(bus) == Success(r.value.synthesisUnit)
    ensures r.Failure? ==> FindSynthesisTableUnit(bus) == Failure(r.error)
  {
    match FindSynthesisTableUnit(bus)
    case Success(unit) => Success(Link(bus, unit))
    case Failure(e) => Failure(e)
  }

  /** The unit identifier an accessor sends: 255 for the gateway, the
      caller's tag index for a tag, the discovered unit for the synthesis
      table. */
  function UnitOf(link: Link, a: Attribute, tag: int): (u: int)
    ensures TargetOf(a) == OnGateway ==> u == GatewayUnit
    ensures TargetOf(a) == OnTag ==> u == tag
    ensures TargetOf(a) == OnSynthesisTable ==> u == link.synthesisUnit
    ensures ValidUnit(tag) && 2 <= link.synthesisUnit <= SynthesisUnitStart ==> ValidUnit(u)
  {
    match TargetOf(a)
    case OnGateway => GatewayUnit
    case OnTag => tag
    case OnSynthesisTable => link.synthesisUnit
  }

  // ---------------------------------------------------------- generic read

  /** What an accessor returns before any further interpretation. */
  datatype Value =
    | NumberValue(number: Option<nat>)
    | FloatValue(bits: Option<nat>)
    | DateTimeValue(at: Option<DateTime>)
    | TextValue(text: Option<seq<Byte>>)

  /** The wire types whose read checks the unit identifier first. */
  predicate IsGuarded(wire: WireType)
  {
    wire.UInt16? || wire.UInt32? || wire.UInt64? || wire.Float32?
  }

  /** A value that a register of type `wire` can decode to. */
  predicate Fits(v: Value, wire: WireType)
  {
    match wire
    case UInt16 => v.NumberValue? && (v.number.Some? ==> v.number.value < Absent16)
    case UInt32 => v.NumberValue? && (v.number.Some? ==> v.number.value < 0x1_0000_0000 && v.number.value != Absent32)
    case UInt64 => v.NumberValue? && (v.number.Some? ==> v.number.value < 0x1_0000_0000_0000_0000 && v.number.value != Absent64)
    case Float32 => v.FloatValue? && (v.bits.Some? ==> v.bits.value < 0x1_0000_0000 && !IsNaN32(v.bits.value))
    case PackedDateTime => v.DateTimeValue? && (v.at.Some? ==> IsValid(v.at.value))
    case Text(length) =>
      && v.TextValue?
      && (v.text.Some? ==> 0 < |v.text.value| <= length && forall i :: 0 <= i < |v.text.value| ==> v.text.value[i] != 0)
  }

  /** A numeric read's result as a value; a failure passes through. */
  function Numeric(r: Result<Option<nat>, Error>): (s: Result<Value, Error>)
    ensures s.Failure? <==> r.Failure?
    ensures r.Failure? ==> s.error == r.error
    ensures r.Success? ==> s.value.NumberValue? && s.value.number == r.value
  {
    match r
    case Success(v) => Success(NumberValue(v))
    case Failure(e) => Failure(e)
  }

  /** Read one accessor: its registers from the register map, its unit from
      the link, its decode from the wire type. */
  function Read(link: Link, a: Attribute, tag: int): (r: Result<Value, Error>)
    ensures r == Failure(UnitAssertion) <==> IsGuarded(Layout(a).wire) && !ValidUnit(UnitOf(link, a, tag))
    ensures r.Success? ==> link.bus(Request(Layout(a).address, Layout(a).count, UnitOf(link, a, tag))).Registers?
    ensures r.Success? ==> Fits(r.value, Layout(a).wire)
    ensures r == Failure(DeviceExceptionError) <==>
              && (IsGuarded(Layout(a).wire) ==> ValidUnit(UnitOf(link, a, tag)))
              && link.bus(Request(Layout(a).address, Layout(a).count, UnitOf(link, a, tag))) == ExceptionReply
    ensures r == Failure(TransportError) <==>
              && (IsGuarded(Layout(a).wire) ==> ValidUnit(UnitOf(link, a, tag)))
              && link.bus(Request(Layout(a).address, Layout(a).count, UnitOf(link, a, tag))) == NoReply
  {
    var reg := Layout(a);
    var unit := UnitOf(link, a, tag);
    match reg.wire
    case UInt16 => Numeric(ReadUInt16(link.bus, reg.address, unit))
    case UInt32 => Numeric(ReadUInt32(link.bus, reg.address, unit))
    case UInt64 => Numeric(ReadUInt64(link.bus, reg.address, unit))
    case Float32 =>
      (match ReadFloat32Bits(link.bus, reg.address, unit)
       case Success(v) => Success(FloatValue(v))
       case Failure(e) => Failure(e))
    case PackedDateTime =>
      (match ReadStamp(link.bus, reg.address, unit)
       case Success(v) => Success(DateTimeValue(v))
       case Failure(e) => Failure(e))
    case Text(length) =>
      (match ReadText(link.bus, reg.address, reg.count, unit, length)
       case Success(v) => Success(TextValue(v))
       case Failure(e) => Failure(e))
  }

  /** The read of every accessor names the unit its target calls for. */
  lemma ReadAddressesTarget(link: Link, a: Attribute, tag: int)
    requires Read(link, a, tag).Success?
    ensures TargetOf(a) == OnGateway ==> link.bus(Request(Layout(a).address, Layout(a).count, GatewayUnit)).Registers?
    ensures TargetOf(a) == OnTag ==> link.bus(Request(Layout(a).address, Layout(a).count, tag)).Registers?
    ensures TargetOf(a) == OnSynthesisTable ==>
              link.bus(Request(Layout(a).address, Layout(a).count, link.synthesisUnit)).Registers?
  {
  }

  /** A device that answers a numeric accessor's registers with `ws` reads
      as the unsigned decode of `ws` at the accessor's width and sentinel. */
  lemma ReadOfNumberRegisters(link: Link, a: Attribute, tag: int, ws: seq<Word>)
    requires link.bus(Request(Layout(a).address, Layout(a).count, UnitOf(link, a, tag))) == Registers(ws)
    requires ValidUnit(UnitOf(link, a, tag))
    ensures Layout(a).wire == UInt16 ==> Read(link, a, tag) == Numeric(DecodeUnsigned(ws, 1, Absent16))
    ensures Layout(a).wire == UInt32 ==> Read(link, a, tag) == Numeric(DecodeUnsigned(ws, 2, Absent32))
    ensures Layout(a).wire == UInt64 ==> Read(link, a, tag) == Numeric(DecodeUnsigned(ws, 4, Absent64))
  {
  }

  /** A float accessor reads the 32-bit pattern of its first two registers,
      or absence for a NaN pattern. */
  lemma ReadOfFloatRegisters(link: Link, a: Attribute, tag: int, ws: seq<Word>)
    requires link.bus(Request(Layout(a).address, Layout(a).count, UnitOf(link, a, tag))) == Registers(ws)
    requires ValidUnit(UnitOf(link, a, tag))
    ensures Layout(a).wire == Float32 ==>
              if |ws| < 2 then Read(link, a, tag) == Failure(MalformedResponse)
              else
                var bits := ValueOf(ws[..2]);
                Read(link, a, tag) == Success(FloatValue(if IsNaN32(bits) then None else Some(bits)))
  {
  }

  /** A date-time accessor reads as the date-time decode of its registers,
      for any unit. */
  lemma ReadOfStampRegisters(link: Link, a: Attribute, tag: int, ws: seq<Word>)
    requires link.bus(Request(Layout(a).address, Layout(a).count, UnitOf(link, a, tag))) == Registers(ws)
    ensures Layout(a).wire == PackedDateTime && DecodeStamp(ws).Success? ==>
              Read(link, a, tag) == Success(DateTimeValue(DecodeStamp(ws).value))
    ensures Layout(a).wire == PackedDateTime && DecodeStamp(ws).Failure? ==>
              Read(link, a, tag) == Failure(DecodeStamp(ws).error)
  {
  }

  /** A text accessor reads as the text decode of its registers at the
      accessor's length, for any unit. */
  lemma ReadOfTextRegisters(link: Link, a: Attribute, tag: int, ws: seq<Word>)
    requires link.bus(Request(Layout(a).address, Layout(a).count, UnitOf(link, a, tag))) == Registers(ws)
    ensures Layout(a).wire.Text? ==> Read(link, a, tag) == Success(TextValue(DecodeText(ws, Layout(a).wire.length)))
  {
  }

  // ------------------------------------------------------- typed accessors

  /** One 16-bit register of an accessor, as the numeric read returns it. */
  function Word16(link: Link, a: Attribute, tag: int): (r: Result<Option<nat>, Error>)
    requires Layout(a).wire == UInt16
    ensures r == Failure(UnitAssertion) <==> !ValidUnit(UnitOf(link, a, tag))
    ensures r == Failure(DeviceExceptionError) <==>
              ValidUnit(UnitOf(link, a, tag)) && link.bus(Request(Layout(a).address, 1, UnitOf(link, a, tag))) == ExceptionReply
    ensures r == Failure(TransportError) <==>
              ValidUnit(UnitOf(link, a, tag)) && link.bus(Request(Layout(a).address, 1, UnitOf(link, a, tag))) == NoReply
    ensures r == Failure(MalformedResponse) <==>
              && ValidUnit(UnitOf(link, a, tag))
              && link.bus(Request(Layout(a).address, 1, UnitOf(link, a, tag))).Registers?
              && |link.bus(Request(Layout(a).address, 1, UnitOf(link, a, tag))).words| < 1
    ensures r.Success? && r.value.Some? ==> r.value.value < Absent16
  {
    ReadUInt16(link.bus, Layout(a).address, UnitOf(link, a, tag))
  }

  /** A register that holds `w` reads as `w`, or as absence for 0xFFFF. */
  lemma Word16OfRegister(link: Link, a: Attribute, tag: int, w: Word)
    requires Layout(a).wire == UInt16 && ValidUnit(UnitOf(link, a, tag))
    requires link.bus(Request(Layout(a).address, 1, UnitOf(link, a, tag))) == Registers([w])
    ensures Word16(link, a, tag) == Success(if w == Absent16 then None else Some(w))
  {
    ReadUInt16RoundTrip(w, Layout(a).address, UnitOf(link, a, tag));
  }

  /** Bit 0 of the alarm-validity register. A bit test on an absent
      register has no operand and fails. */
  function AlarmValidOf(v: Option<nat>): (r: Result<bool, Error>)
    ensures r.Failure? <==> v.None?
    ensures r.Failure? ==> r.error == NoneOperand
    ensures r.Success? ==> (r.value <==> Bit(v.value, 0))
  {
    match v
    case None => Failure(NoneOperand)
    case Some(x) => Success(x % 2 == 1)
  }

  /** The alarm flags of the alarm register; an absent register has no
      bitmap to mask and fails. */
  function AlarmOf(v: Option<nat>): (r: Result<AlarmStatus, Error>)
    ensures r.Failure? <==> v.None?
    ensures r.Failure? ==> r.error == NoneOperand
    ensures r.Success? ==> r.value == DecodeAlarm(v.value)
    ensures r.Success? ==> r.value.voltageLoss == Bit(v.value, 0) && r.value.currentOverload == Bit(v.value, 1)
  {
    match v
    case None => Failure(NoneOperand)
    case Some(x) => Success(DecodeAlarm(x))
  }

  /** A communication-validity register is valid unless it reads 0; an
      absent register is not 0 and so reads as valid. */
  function CommunicationValidOf(v: Option<nat>): (r: bool)
    ensures !r <==> v == Some(0)
  {
    v != Some(0)
  }

  /** Apply `f` to a successful read; a failed read passes through unchanged. */
  function Then<T, U>(r: Result<T, Error>, f: T -> Result<U, Error>): (s: Result<U, Error>)
    ensures r.Failure? ==> s == Failure(r.error)
    ensures r.Success? ==> s == f(r.value)
  {
    match r
    case Success(v) => f(v)
    case Failure(e) => Failure(e)
  }

  /** The gateway status: the status register decoded as a status. */
  function ReadStatus(link: Link): (r: Result<PanelserverStatus, Error>)
    ensures r.Success? <==> Word16(link, Status, GatewayUnit).Success?
                            && Word16(link, Status, GatewayUnit).value in {Some(0), Some(1), Some(2)}
    ensures r.Success? ==> Word16(link, Status, GatewayUnit) == Success(StatusValue(r.value))
    ensures Word16(link, Status, GatewayUnit).Failure? ==> r == Failure(Word16(link, Status, GatewayUnit).error)
  {
    Then(Word16(link, Status, GatewayUnit), DecodeStatus)
  }

  /** Whether a tag's alarm register is valid: bit 0 of its validity
      register. */
  function ReadAlarmValid(link: Link, tag: int): (r: Result<bool, Error>)
    ensures r == Failure(NoneOperand) <==> Word16(link, TagAlarmValid, tag) == Success(None)
    ensures r.Success? <==> Word16(link, TagAlarmValid, tag).Success? && Word16(link, TagAlarmValid, tag).value.Some?
    ensures r.Success? ==> (r.value <==> Bit(Word16(link, TagAlarmValid, tag).value.value, 0))
    ensures Word16(link, TagAlarmValid, tag).Failure? ==> r == Failure(Word16(link, TagAlarmValid, tag).error)
  {
    Then(Word16(link, TagAlarmValid, tag), AlarmValidOf)
  }

  /** A tag's alarm flags, decoded from its alarm register. */
  function ReadAlarm(link: Link, tag: int): (r: Result<AlarmStatus, Error>)
    ensures r == Failure(NoneOperand) <==> Word16(link, TagAlarm, tag) == Success(None)
    ensures r.Success? ==> Word16(link, TagAlarm, tag).Success? && Word16(link, TagAlarm, tag).value.Some?
    ensures r.Success? ==>
              var bitmap := Word16(link, TagAlarm, tag).value.value;
              r.value.voltageLoss == Bit(bitmap, 0) && r.value.currentOverload == Bit(bitmap, 1)
              && (r.value.hasAlarm <==> bitmap % 0x100 != 0)
    ensures r.Success? ==> r.value == DecodeAlarm(Word16(link, TagAlarm, tag).value.value)
    ensures Word16(link, TagAlarm, tag).Failure? ==> r == Failure(Word16(link, TagAlarm, tag).error)
  {
    Then(Word16(link, TagAlarm, tag), AlarmOf)
  }

  /** A tag's usage: the usage whose code the register holds, the invalid
      usage for an absent register. */
  function ReadUsage(link: Link, tag: int): (r: Result<DeviceUsage, Error>)
    ensures r.Success? ==> Word16(link, TagUsage, tag) == Success(UsageValue(r.value))
    ensures r.Failure? ==> Word16(link, TagUsage, tag).Failure? || r.error == UnknownEnumCode
    ensures Word16(link, TagUsage, tag).Failure? ==> r == Failure(Word16(link, TagUsage, tag).error)
  {
    Then(Word16(link, TagUsage, tag), DecodeUsage)
  }

  /** A tag's phase sequence, decoded like the usage. */
  function ReadPhaseSequence(link: Link, tag: int): (r: Result<PhaseSequence, Error>)
    ensures r.Success? ==> Word16(link, TagPhaseSequence, tag) == Success(SequenceValue(r.value))
    ensures r.Failure? ==> Word16(link, TagPhaseSequence, tag).Failure? || r.error == UnknownEnumCode
    ensures Word16(link, TagPhaseSequence, tag).Failure? ==> r == Failure(Word16(link, TagPhaseSequence, tag).error)
  {
    Then(Word16(link, TagPhaseSequence, tag), DecodeSequence)
  }

  /** The position, circuit-diagnostic and power-supply-type registers all
      decode as a position. */
  function ReadPositionLike(link: Link, a: Attribute, tag: int): (r: Result<Position, Error>)
    requires a in {TagPosition, TagCircuitDiagnostic, TagPowerSupplyType}
    ensures r.Success? ==> Word16(link, a, tag) == Success(PositionValue(r.value))
    ensures r.Failure? ==> Word16(link, a, tag).Failure? || r.error == UnknownEnumCode
    ensures Word16(link, a, tag).Failure? ==> r == Failure(Word16(link, a, tag).error)
  {
    Then(Word16(link, a, tag), DecodePosition)
  }

  /** A tag's product type: the product whose code the register holds, if
      any. An unknown code is no product, not an error. */
  function ReadProductType(link: Link, tag: int): (r: Result<Option<ProductType>, Error>)
    ensures r.Failure? <==> Word16(link, TagProductType, tag).Failure?
    ensures r.Success? && r.value.Some? ==> Word16(link, TagProductType, tag) == Success(Some(ProductCode(r.value.value)))
    ensures Word16(link, TagProductType, tag).Failure? ==> r == Failure(Word16(link, TagProductType, tag).error)
  {
    Then(Word16(link, TagProductType, tag), (v: Option<nat>) => Success(LookupProduct(v)))
  }

  /** Radio or wireless communication validity: anything but 0 is valid. */
  function ReadCommunicationValid(link: Link, a: Attribute, tag: int): (r: Result<bool, Error>)
    requires a in {TagRadioCommunicationValid, TagWirelessCommunicationValid}
    ensures r.Failure? <==> Word16(link, a, tag).Failure?
    ensures r.Success? ==> (!r.value <==> Word16(link, a, tag) == Success(Some(0)))
    ensures Word16(link, a, tag).Failure? ==> r == Failure(Word16(link, a, tag).error)
  {
    Then(Word16(link, a, tag), (v: Option<nat>) => Success(CommunicationValidOf(v)))
  }

  /** Resetting the peak demands writes 1 to the tag's reset register. */
  function ResetPeakDemands(tag: int): (r: Result<WriteRequest, Error>)
    ensures r.Failure? <==> !ValidUnit(tag)
    ensures r.Success? ==> r.value.address == 0x792E && r.value.unit == tag && r.value.words == [1]
  {
    WriteUInt16(ResetPeakDemandsRegister, tag, 1)
  }

  // ------------------------------------------- accessors on known registers

  /** The register value that stands for an enum member: its code, or
      0xFFFF for the member that stands for absence. */
  function RegisterOf(v: Option<nat>): nat
  {
    if v.Some? then v.value else Absent16
  }

  lemma StatusOfRegister(link: Link, s: PanelserverStatus)
    requires link.bus(Request(Layout(Status).address, 1, GatewayUnit)) == Registers([RegisterOf(StatusValue(s))])
    ensures ReadStatus(link) == Success(s)
  {
    Word16OfRegister(link, Status, GatewayUnit, RegisterOf(StatusValue(s)));
    StatusRoundTrip(s);
  }

  /** Every usage reads back from the register that holds its code, and
      0xFFFF reads as the invalid usage. */
  lemma UsageOfRegister(link: Link, tag: int, u: DeviceUsage)
    requires ValidUnit(tag)
    requires link.bus(Request(Layout(TagUsage).address, 1, tag)) == Registers([RegisterOf(UsageValue(u))])
    ensures ReadUsage(link, tag) == Success(u)
  {
    Word16OfRegister(link, TagUsage, tag, RegisterOf(UsageValue(u)));
    UsageRoundTrip(u);
  }

  lemma PhaseSequenceOfRegister(link: Link, tag: int, q: PhaseSequence)
    requires ValidUnit(tag)
    requires link.bus(Request(Layout(TagPhaseSequence).address, 1, tag)) == Registers([RegisterOf(SequenceValue(q))])
    ensures ReadPhaseSequence(link, tag) == Success(q)
  {
    Word16OfRegister(link, TagPhaseSequence, tag, RegisterOf(SequenceValue(q)));
    SequenceRoundTrip(q);
  }

  lemma PositionOfRegister(link: Link, a: Attribute, tag: int, p: Position)
    requires a in {TagPosition, TagCircuitDiagnostic, TagPowerSupplyType}
    requires ValidUnit(tag)
    requires link.bus(Request(Layout(a).address, 1, tag)) == Registers([RegisterOf(PositionValue(p))])
    ensures ReadPositionLike(link, a, tag) == Success(p)
  {
    Word16OfRegister(link, a, tag, RegisterOf(PositionValue(p)));
    PositionRoundTrip(p);
  }

  /** A code outside the usage table is an error, not the invalid usage. */
  lemma UnknownUsageCode(link: Link, tag: int, w: Word)
    requires ValidUnit(tag) && (w == 0 || 21 < w < Absent16)
    requires link.bus(Request(Layout(TagUsage).address, 1, tag)) == Registers([w])
    ensures ReadUsage(link, tag) == Failure(UnknownEnumCode)
  {
    Word16OfRegister(link, TagUsage, tag, w);
  }

  /** The register holding a product's code reads as that product; an
      absent register or an unknown code reads as no product. */
  lemma ProductTypeOfRegister(link: Link, tag: int, w: Word)
    requires ValidUnit(tag)
    requires link.bus(Request(Layout(TagProductType).address, 1, tag)) == Registers([w])
    ensures forall p :: ReadProductType(link, tag) == Success(Some(p)) <==> ProductCode(p) == w && w != Absent16
    ensures ReadProductType(link, tag).Success?
  {
    Word16OfRegister(link, TagProductType, tag, w);
    if w != Absent16 {
      forall p
        ensures LookupProduct(Some(w)) == Some(p) <==> ProductCode(p) == w
      {
        LookupProductExact(w, p);
      }
    }
  }

  /** The alarm-validity flag is bit 0 of the register; the alarm flags are
      the decode of the register; both fail on an absent register. */
  lemma AlarmOfRegister(link: Link, tag: int, valid: Word, alarm: Word)
    requires ValidUnit(tag)
    requires link.bus(Request(Layout(TagAlarmValid).address, 1, tag)) == Registers([valid])
    requires link.bus(Request(Layout(TagAlarm).address, 1, tag)) == Registers([alarm])
    ensures valid == Absent16 ==> ReadAlarmValid(link, tag) == Failure(NoneOperand)
    ensures valid != Absent16 ==> ReadAlarmValid(link, tag) == Success(Bit(valid, 0))
    ensures alarm == Absent16 ==> ReadAlarm(link, tag) == Failure(NoneOperand)
    ensures alarm != Absent16 ==> ReadAlarm(link, tag) == Success(DecodeAlarm(alarm))
  {
    Word16OfRegister(link, TagAlarmValid, tag, valid);
    Word16OfRegister(link, TagAlarm, tag, alarm);
  }

  /** A communication-validity register reads as valid unless it holds 0,
      so an absent register (0xFFFF) reads as valid. */
  lemma CommunicationValidOfRegister(link: Link, a: Attribute, tag: int, w: Word)
    requires a in {TagRadioCommunicationValid, TagWirelessCommunicationValid}
    requires ValidUnit(tag)
    requires link.bus(Request(Layout(a).address, 1, tag)) == Registers([w])
    ensures ReadCommunicationValid(link, a, tag) == Success(w != 0)
  {
    Word16OfRegister(link, a, tag, w);
  }
}
