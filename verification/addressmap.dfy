/** The register map: for every accessor of the gateway, the unit it
    addresses, its first register, its register count and its wire type. */
module AddressMap {
  import opened Enums

  /** How an accessor's registers are decoded. A string carries the number
      of payload bytes it looks at. */
  datatype WireType = UInt16 | UInt32 | UInt64 | Float32 | PackedDateTime | Text(length: nat)

  /** Which unit identifier an accessor addresses: the gateway (255), the
      tag passed by the caller, or the discovered synthesis table. */
  datatype Target = OnGateway | OnTag | OnSynthesisTable

  datatype Register = Register(address: int, count: nat, wire: WireType)

  /** Registers consumed by a fixed-width wire type. */
  function WordCount(wire: WireType): nat
    requires !wire.Text?
  {
    match wire
    case UInt16 => 1
    case UInt32 => 2
    case UInt64 => 4
    case Float32 => 2
    case PackedDateTime => 4
  }

  /** One entry per accessor. */
  datatype Attribute =
    // gateway identification and status
    | HardwareVersion | SerialNumber | FirmwareVersion | Status | Clock
    // tag metering
    | TagCurrent(phase: Phase) | TagVoltage(line: LineVoltage)
    | TagPowerActive(phase: Phase) | TagPowerActiveTotal | TagPowerApparentTotal | TagPowerFactorTotal
    | TagEnergyActiveTotal | TagEnergyActivePartial
    | TagPowerActiveDemandTotal | TagPowerActiveDemandTotalMaximum | TagPowerActiveDemandTotalMaximumTimestamp
    // tag alarms and load operating time
    | TagAlarmValid | TagAlarm | TagCurrentAtVoltageLoss(phase: Phase)
    | TagLoadOperatingTime | TagLoadOperatingTimeThreshold | TagLoadOperatingTimeStart
    // tag configuration
    | TagName | TagCircuit | TagUsage | TagPhaseSequence | TagPosition | TagCircuitDiagnostic
    | TagRatedCurrent | TagRatedVoltage | TagPowerSupplyType
    // tag identification
    | TagProductType | TagSlaveAddress | TagRfId | TagProductIdentifier | TagVendorName | TagProductCode
    | TagFirmwareRevision | TagHardwareRevision | TagSerialNumber | TagProductRange | TagProductModel
    | TagProductFamily
    // tag radio diagnostics
    | TagRadioCommunicationValid | TagWirelessCommunicationValid
    | TagRadioPerTag | TagRadioRssiInsideTag | TagRadioLqiTag
    | TagRadioPerGateway | TagRadioRssiInsideGateway | TagRadioLqiGateway
    | TagRadioPerMaximum | TagRadioRssiMinimum | TagRadioLqiMinimum
    // synthesis table
    | SynthesisProductId | SynthesisManufacturer | SynthesisProductCode | SynthesisProductRange
    | SynthesisProductModel | SynthesisName | SynthesisVendorUrl
    | NodeModbusAddress(slot: int)

  /** First register of the wireless-node table; slot i (from 1) is at
      NodeTableBase + i - 1. */
  const NodeTableBase := 0x012C

  /** Number of slots in the wireless-node table. */
  const NodeSlots := 100

  /** The tag register that resets the peak demands. The source only writes
      it, so it has no read accessor. */
  const ResetPeakDemandsRegister := 0x792E

  function TargetOf(a: Attribute): (r: Target)
    ensures r == OnSynthesisTable ==> a.NodeModbusAddress? || Layout(a).address < 0x0050
  {
    match a
    case HardwareVersion | SerialNumber | FirmwareVersion | Status | Clock => OnGateway
    case SynthesisProductId | SynthesisManufacturer | SynthesisProductCode | SynthesisProductRange | SynthesisProductModel
       | SynthesisName | SynthesisVendorUrl
       | NodeModbusAddress(_) => OnSynthesisTable
    case _ => OnTag
  }

  /** The gateway's own registers, and only they, lie in [0x0050, 0x009E]. */
  lemma GatewayByAddress(a: Attribute)
    requires !a.NodeModbusAddress?
    ensures TargetOf(a) == OnGateway <==> 0x0050 <= Layout(a).address <= 0x009E
  {
  }

  /** The tags' registers, and only they, lie from 0x0BB7 up. With the
      lemma above and the contract of TargetOf, the three targets partition
      the register map. */
  lemma TagByAddress(a: Attribute)
    requires !a.NodeModbusAddress?
    ensures TargetOf(a) == OnTag <==> Layout(a).address >= 0x0BB7
  {
  }

  function Layout(a: Attribute): (r: Register)
    ensures r.wire.Text? ==> 0 < r.wire.length <= 2 * r.count
    ensures !r.wire.Text? ==> r.count == WordCount(r.wire)
    ensures !a.NodeModbusAddress? ==> 0 <= r.address && r.address + r.count <= 0x1_0000
  {
    match a
    case HardwareVersion => Register(0x0050, 6, Text(11))
    case SerialNumber => Register(0x0064, 6, Text(11))
    case FirmwareVersion => Register(0x0078, 6, Text(11))
    case Status => Register(0x009E, 1, UInt16)
    case Clock => Register(0x0073, 4, PackedDateTime)
    case TagCurrent(p) => Register(0xBB7 + PhaseOffset(p), 2, Float32)
    case TagVoltage(lv) => Register(0xBCB + LineVoltageOffset(lv), 2, Float32)
    case TagPowerActive(p) => Register(0xBED + PhaseOffset(p), 2, Float32)
    case TagPowerActiveTotal => Register(0xBF3, 2, Float32)
    case TagPowerApparentTotal => Register(0xC03, 2, Float32)
    case TagPowerFactorTotal => Register(0xC0B, 2, Float32)
    case TagEnergyActiveTotal => Register(0xC83, 4, UInt64)
    case TagEnergyActivePartial => Register(0xC83, 4, UInt64)
    case TagPowerActiveDemandTotal => Register(0x0EB5, 2, Float32)
    case TagPowerActiveDemandTotalMaximum => Register(0x0EB9, 2, Float32)
    case TagPowerActiveDemandTotalMaximumTimestamp => Register(0x0EBB, 4, PackedDateTime)
    case TagAlarmValid => Register(0xCE1, 1, UInt16)
    case TagAlarm => Register(0xCE3, 1, UInt16)
    case TagCurrentAtVoltageLoss(p) => Register(0xCE5 + PhaseOffset(p), 2, Float32)
    case TagLoadOperatingTime => Register(0xCEB, 2, UInt32)
    case TagLoadOperatingTimeThreshold => Register(0xCED, 2, Float32)
    case TagLoadOperatingTimeStart => Register(0xCEF, 4, PackedDateTime)
    case TagName => Register(0x7918, 10, Text(20))
    case TagCircuit => Register(0x7922, 3, Text(5))
    case TagUsage => Register(0x7925, 1, UInt16)
    case TagPhaseSequence => Register(0x7926, 1, UInt16)
    case TagPosition => Register(0x7927, 1, UInt16)
    case TagCircuitDiagnostic => Register(0x7928, 1, UInt16)
    case TagRatedCurrent => Register(0x7929, 1, UInt16)
    case TagRatedVoltage => Register(0x792B, 2, Float32)
    case TagPowerSupplyType => Register(0x792F, 1, UInt16)
    case TagProductType => Register(0x7930, 1, UInt16)
    case TagSlaveAddress => Register(0x7931, 1, UInt16)
    case TagRfId => Register(0x7932, 4, UInt64)
    case TagProductIdentifier => Register(0x7937, 1, UInt16)
    case TagVendorName => Register(0x7944, 16, Text(32))
    case TagProductCode => Register(0x7954, 16, Text(32))
    case TagFirmwareRevision => Register(0x7964, 6, Text(12))
    case TagHardwareRevision => Register(0x796A, 6, Text(12))
    case TagSerialNumber => Register(0x7970, 10, Text(20))
    case TagProductRange => Register(0x797A, 8, Text(16))
    case TagProductModel => Register(0x7982, 8, Text(16))
    case TagProductFamily => Register(0x798A, 8, Text(16))
    case TagRadioCommunicationValid => Register(0x79A8, 1, UInt16)
    case TagWirelessCommunicationValid => Register(0x79A9, 1, UInt16)
    case TagRadioPerTag => Register(0x79B4, 2, Float32)
    case TagRadioRssiInsideTag => Register(0x79B6, 2, Float32)
    case TagRadioLqiTag => Register(0x79B8, 1, UInt16)
    case TagRadioPerGateway => Register(0x79AF, 2, Float32)
    case TagRadioRssiInsideGateway => Register(0x79B1, 2, Float32)
    case TagRadioLqiGateway => Register(0x79B3, 1, UInt16)
    case TagRadioPerMaximum => Register(0x79B4, 2, Float32)
    case TagRadioRssiMinimum => Register(0x79B6, 2, Float32)
    case TagRadioLqiMinimum => Register(0x79B8, 1, UInt16)
    case SynthesisProductId => Register(0x0001, 1, UInt16)
    case SynthesisManufacturer => Register(0x0002, 16, Text(32))
    case SynthesisProductCode => Register(0x0012, 16, Text(32))
    case SynthesisProductRange => Register(0x0022, 8, Text(16))
    case SynthesisProductModel => Register(0x002A, 8, Text(16))
    case SynthesisName => Register(0x0032, 10, Text(20))
    case SynthesisVendorUrl => Register(0x003C, 17, Text(34))
    case NodeModbusAddress(slot) => Register(NodeTableBase + slot - 1, 1, UInt16)
  }

  /** Registers [a, a + count) of two layouts have a register in common. */
  predicate Overlap(r: Register, s: Register)
  {
    r.address < s.address + s.count && s.address < r.address + r.count
  }

  /** Per-phase floats sit at base + 0, 2, 4 and never overlap each other. */
  lemma PhaseAddresses(p: Phase, q: Phase)
    ensures Layout(TagCurrent(p)).address == 0xBB7 + PhaseOffset(p)
    ensures Layout(TagPowerActive(p)).address == 0xBED + PhaseOffset(p)
    ensures Layout(TagCurrentAtVoltageLoss(p)).address == 0xCE5 + PhaseOffset(p)
    ensures p != q ==> !Overlap(Layout(TagCurrent(p)), Layout(TagCurrent(q)))
    ensures p != q ==> !Overlap(Layout(TagPowerActive(p)), Layout(TagPowerActive(q)))
    ensures p != q ==> !Overlap(Layout(TagCurrentAtVoltageLoss(p)), Layout(TagCurrentAtVoltageLoss(q)))
  {
    PhaseOffsetsDisjoint(p, q);
  }

  /** Line voltages sit at 0xBCB + 0, 2, 4, 8, 10, 12 and never overlap. */
  lemma LineVoltageAddresses(a: LineVoltage, b: LineVoltage)
    ensures Layout(TagVoltage(a)).address == 0xBCB + LineVoltageOffset(a)
    ensures a != b ==> !Overlap(Layout(TagVoltage(a)), Layout(TagVoltage(b)))
  {
    LineVoltageOffsetsDisjoint(a, b);
  }

  /** The hundred node slots map one-to-one onto 0x012C..0x018F; slot 1 is
      the table base. */
  lemma NodeSlotAddresses(i: int, j: int)
    requires 1 <= i <= NodeSlots && 1 <= j <= NodeSlots
    ensures NodeTableBase <= Layout(NodeModbusAddress(i)).address <= 0x018F
    ensures Layout(NodeModbusAddress(i)).address == Layout(NodeModbusAddress(j)).address ==> i == j
    ensures Layout(NodeModbusAddress(1)).address == 0x012C
  {
  }

  /** The total and partial energy accessors read the same counter. */
  lemma SharedEnergyRegister()
    ensures Layout(TagEnergyActiveTotal) == Layout(TagEnergyActivePartial)
  {
  }

  /** The maximum packet-error-rate figure reads the per-tag register. */
  lemma SharedPerRegister()
    ensures Layout(TagRadioPerMaximum) == Layout(TagRadioPerTag)
  {
  }

  /** The minimum signal-strength figure reads the per-tag register. */
  lemma SharedRssiRegister()
    ensures Layout(TagRadioRssiMinimum) == Layout(TagRadioRssiInsideTag)
  {
  }

  /** The minimum link-quality figure reads the per-tag register. */
  lemma SharedLqiRegister()
    ensures Layout(TagRadioLqiMinimum) == Layout(TagRadioLqiTag)
  {
  }

  /** The per-phase and line-voltage blocks of a tag do not overlap one
      another or the totals that follow them. */
  lemma MeteringBlocksDisjoint(p: Phase, q: Phase, lv: LineVoltage)
    ensures !Overlap(Layout(TagCurrent(p)), Layout(TagVoltage(lv)))
    ensures !Overlap(Layout(TagVoltage(lv)), Layout(TagPowerActive(q)))
    ensures !Overlap(Layout(TagPowerActive(p)), Layout(TagPowerActiveTotal))
    ensures !Overlap(Layout(TagCurrentAtVoltageLoss(p)), Layout(TagLoadOperatingTime))
  {
  }
}
