/** The enumerations of the register map: phase and line-voltage offsets,
    gateway status, the alarm bitmap, and the closed enumerations whose
    device-defined "invalid" member stands for an absent register. */
module Enums {
  import opened Wrappers
  import opened Words
  import opened Transport

  // -------------------------------------------------------------- lookup

  /** The position of the first member, in declaration order, whose value
      is `v`; |members| when there is none. */
  function FirstWithValue<T>(members: seq<T>, value: T -> Option<nat>, v: Option<nat>): (i: nat)
    ensures i <= |members|
    ensures forall j :: 0 <= j < i ==> value(members[j]) != v
    ensures i < |members| ==> value(members[i]) == v
  {
    if |members| == 0 then 0
    else if value(members[0]) == v then 0
    else 1 + FirstWithValue(members[1..], value, v)
  }

  /** Lookup of an enumeration member by its value, as the enumeration
      constructor does it: the first member whose value equals `v`, or none. */
  function FindMember<T>(members: seq<T>, value: T -> Option<nat>, v: Option<nat>): (r: Option<T>)
    ensures r.Some? ==> value(r.value) == v
    ensures r.None? <==> forall i :: 0 <= i < |members| ==> value(members[i]) != v
  {
    var i := FirstWithValue(members, value, v);
    if i < |members| then Some(members[i]) else None
  }

  /** When member values are pairwise distinct, lookup by a member's value
      finds that member. */
  lemma FindMemberOfValue<T>(members: seq<T>, value: T -> Option<nat>, m: T)
    requires m in members
    requires forall i, j :: 0 <= i < j < |members| ==> value(members[i]) != value(members[j])
    ensures FindMember(members, value, value(m)) == Some(m)
  {
    var k :| 0 <= k < |members| && members[k] == m;
    var i := FirstWithValue(members, value, value(m));
    assert i <= k;
  }

  // ------------------------------------------------------- phase offsets

  /** The three phases; each selects a pair of registers. */
  datatype Phase = A | B | C

  function PhaseOffset(p: Phase): (offset: nat)
  {
    match p
    case A => 0
    case B => 2
    case C => 4
  }

  /** The six line-voltage measurements; each selects a pair of registers. */
  datatype LineVoltage = AB | BC | CA | AN | BN | CN

  function LineVoltageOffset(lv: LineVoltage): (offset: nat)
  {
    match lv
    case AB => 0
    case BC => 2
    case CA => 4
    case AN => 8
    case BN => 10
    case CN => 12
  }

  /** The two-register floats of distinct phases never share a register,
      and together they fill six consecutive registers. */
  lemma PhaseOffsetsDisjoint(p: Phase, q: Phase)
    ensures PhaseOffset(p) in {0, 2, 4}
    ensures p != q ==> PhaseOffset(p) + 2 <= PhaseOffset(q) || PhaseOffset(q) + 2 <= PhaseOffset(p)
  {
  }

  /** The same for the six line voltages, which leave registers 6 and 7
      unused. */
  lemma LineVoltageOffsetsDisjoint(a: LineVoltage, b: LineVoltage)
    ensures LineVoltageOffset(a) in {0, 2, 4, 8, 10, 12}
    ensures a != b ==> LineVoltageOffset(a) + 2 <= LineVoltageOffset(b) || LineVoltageOffset(b) + 2 <= LineVoltageOffset(a)
  {
  }

  // ---------------------------------------------------------------- status

  /** Gateway status codes. There is no member for an absent register. */
  datatype PanelserverStatus = Nominal | Degraded | OutOfOrder

  function StatusValue(s: PanelserverStatus): Option<nat>
  {
    match s
    case Nominal => Some(0)
    case Degraded => Some(1)
    case OutOfOrder => Some(2)
  }

  const Statuses: seq<PanelserverStatus> := [Nominal, Degraded, OutOfOrder]

  function DecodeStatus(v: Option<nat>): (r: Result<PanelserverStatus, Error>)
    ensures r.Success? <==> v in {Some(0), Some(1), Some(2)}
    ensures r.Success? ==> StatusValue(r.value) == v
    ensures r.Failure? ==> r.error == UnknownEnumCode
  {
    match FindMember(Statuses, StatusValue, v)
    case Some(s) => Success(s)
    case None => Failure(UnknownEnumCode)
  }

  lemma StatusValuesDistinct()
    ensures forall i, j :: 0 <= i < j < |Statuses| ==> StatusValue(Statuses[i]) != StatusValue(Statuses[j])
  {
  }

  lemma StatusRoundTrip(s: PanelserverStatus)
    ensures DecodeStatus(StatusValue(s)) == Success(s)
  {
    StatusValuesDistinct();
    FindMemberOfValue(Statuses, StatusValue, s);
  }

  // ----------------------------------------------------------------- alarm

  /** The alarm flags of a tag. */
  datatype AlarmStatus = AlarmStatus(
    hasAlarm: bool,
    voltageLoss: bool,
    currentOverload: bool,
    overload45Percent: bool,
    loadCurrentLoss: bool,
    overvoltage: bool,
    undervoltage: bool,
    heattagAlarm: bool,
    heattagMaintenance: bool,
    heattagReplacement: bool)

  /** The alarm flags of a bitmap. Only the low byte is kept (`bitmask &
      0xFF`, which for every integer is `bitmask % 256`); each flag then
      tests one bit of it, the heattag flags at bits 8, 10 and 11. */
  function DecodeAlarm(bitmask: int): (s: AlarmStatus)
    ensures s.hasAlarm <==> exists k :: 0 <= k < 8 && Bit(bitmask % 0x100, k)
    ensures bitmask >= 0 ==>
              && (s.voltageLoss <==> Bit(bitmask, 0))
              && (s.currentOverload <==> Bit(bitmask, 1))
              && (s.overload45Percent <==> Bit(bitmask, 3))
              && (s.loadCurrentLoss <==> Bit(bitmask, 4))
              && (s.overvoltage <==> Bit(bitmask, 5))
              && (s.undervoltage <==> Bit(bitmask, 6))
    ensures !s.heattagAlarm && !s.heattagMaintenance && !s.heattagReplacement
  {
    var low := bitmask % 0x100;
    LowByteBits(bitmask);
    AlarmStatus(low != 0, Bit(low, 0), Bit(low, 1), Bit(low, 3), Bit(low, 4), Bit(low, 5), Bit(low, 6),
                Bit(low, 8), Bit(low, 10), Bit(low, 11))
  }

  /** The bit facts the alarm decode rests on. */
  lemma LowByteBits(bitmask: int)
    ensures var low := bitmask % 0x100;
            && (low != 0 <==> exists k :: 0 <= k < 8 && Bit(low, k))
            && !Bit(low, 8) && !Bit(low, 10) && !Bit(low, 11)
            && (bitmask >= 0 ==> forall k :: 0 <= k < 8 ==> (Bit(low, k) <==> Bit(bitmask, k)))
  {
    var low := bitmask % 0x100;
    assert Pow2(8) == 0x100;
    NonzeroHasLowBit(low, 8);
    BitAboveWidth(low, 8, 8);
    BitAboveWidth(low, 8, 10);
    BitAboveWidth(low, 8, 11);
    if bitmask >= 0 {
      forall k | 0 <= k < 8
        ensures Bit(low, k) <==> Bit(bitmask, k)
      {
        BitOfMod(bitmask, 8, k);
      }
    }
  }

  /** 3 (bits 0 and 1) raises voltage loss and current overload and nothing else;
      0 raises nothing. */
  lemma AlarmExamples()
    ensures DecodeAlarm(3) == AlarmStatus(true, true, true, false, false, false, false, false, false, false)
    ensures DecodeAlarm(0) == AlarmStatus(false, false, false, false, false, false, false, false, false, false)
  {
  }

  /** A reserved bit (2 or 7) raises the summary flag with no named flag. */
  lemma ReservedBitRaisesAlarm()
    ensures DecodeAlarm(4) == AlarmStatus(true, false, false, false, false, false, false, false, false, false)
    ensures DecodeAlarm(0x80) == AlarmStatus(true, false, false, false, false, false, false, false, false, false)
  {
  }

  /** Bits above the low byte change nothing. */
  lemma AlarmIgnoresHighByte(bitmask: int, high: int)
    ensures DecodeAlarm(bitmask + 0x100 * high) == DecodeAlarm(bitmask)
  {
    assert (bitmask + 0x100 * high) % 0x100 == bitmask % 0x100;
  }

  // ----------------------------------------------------------- device usage

  /** What the metered circuit supplies. `Invalid` is the member whose value
      is absence. */
  datatype DeviceUsage =
    | MainIncomer | SubHeadOfGroup | Heating | Cooling | Hvac | Ventilation | Lighting
    | OfficeEquipment | Cooking | FoodRefrigeration | Elevators | Computers
    | RenewableEnergyProduction | Genset | CompressedAir | Vapor | Machine | Process
    | Water | OtherSockets | Other | Invalid

  function UsageValue(u: DeviceUsage): Option<nat>
  {
    match u
    case MainIncomer => Some(1)
    case SubHeadOfGroup => Some(2)
    case Heating => Some(3)
    case Cooling => Some(4)
    case Hvac => Some(5)
    case Ventilation => Some(6)
    case Lighting => Some(7)
    case OfficeEquipment => Some(8)
    case Cooking => Some(9)
    case FoodRefrigeration => Some(10)
    case Elevators => Some(11)
    case Computers => Some(12)
    case RenewableEnergyProduction => Some(13)
    case Genset => Some(14)
    case CompressedAir => Some(15)
    case Vapor => Some(16)
    case Machine => Some(17)
    case Process => Some(18)
    case Water => Some(19)
    case OtherSockets => Some(20)
    case Other => Some(21)
    case Invalid => None
  }

  const Usages: seq<DeviceUsage> :=
    [MainIncomer, SubHeadOfGroup, Heating, Cooling, Hvac, Ventilation, Lighting,
     OfficeEquipment, Cooking, FoodRefrigeration, Elevators, Computers,
     RenewableEnergyProduction, Genset, CompressedAir, Vapor, Machine, Process,
     Water, OtherSockets, Other, DeviceUsage.Invalid]

  function DecodeUsage(v: Option<nat>): (r: Result<DeviceUsage, Error>)
    ensures r.Success? <==> v.None? || 1 <= v.value <= 21
    ensures r.Success? ==> UsageValue(r.value) == v
    ensures r.Failure? ==> r.error == UnknownEnumCode
  {
    UsagesComplete();
    match FindMember(Usages, UsageValue, v)
    case Some(u) => Success(u)
    case None => Failure(UnknownEnumCode)
  }

  lemma UsagesComplete()
    ensures forall u :: UsageValue(u).None? || 1 <= UsageValue(u).value <= 21
    ensures forall c :: 1 <= c <= 21 ==> UsageValue(Usages[c - 1]) == Some(c)
    ensures UsageValue(Usages[21]) == None
  {
    UsagesListed();
  }

  lemma UsagesListed()
    ensures forall c :: 1 <= c <= 21 ==> UsageValue(Usages[c - 1]) == Some(c)
  {
  }

  lemma UsageValuesDistinct()
    ensures forall i, j :: 0 <= i < j < |Usages| ==> UsageValue(Usages[i]) != UsageValue(Usages[j])
  {
  }

  lemma UsageRoundTrip(u: DeviceUsage)
    ensures DecodeUsage(UsageValue(u)) == Success(u)
  {
    assert u in Usages;
    UsageValuesDistinct();
    FindMemberOfValue(Usages, UsageValue, u);
  }

  // --------------------------------------------------------- phase sequence

  /** The phase order a tag is wired with. */
  datatype PhaseSequence = A | B | C | ABC | ACB | BCA | BAC | CAB | CBA | Invalid

  function SequenceValue(s: PhaseSequence): Option<nat>
  {
    match s
    case A => Some(1)
    case B => Some(2)
    case C => Some(3)
    case ABC => Some(4)
    case ACB => Some(5)
    case BCA => Some(6)
    case BAC => Some(7)
    case CAB => Some(8)
    case CBA => Some(9)
    case Invalid => None
  }

  const Sequences: seq<PhaseSequence> :=
    [PhaseSequence.A, PhaseSequence.B, PhaseSequence.C, ABC, ACB, BCA, BAC, CAB, CBA, PhaseSequence.Invalid]

  function DecodeSequence(v: Option<nat>): (r: Result<PhaseSequence, Error>)
    ensures r.Success? <==> v.None? || 1 <= v.value <= 9
    ensures r.Success? ==> SequenceValue(r.value) == v
    ensures r.Failure? ==> r.error == UnknownEnumCode
  {
    SequencesComplete();
    match FindMember(Sequences, SequenceValue, v)
    case Some(s) => Success(s)
    case None => Failure(UnknownEnumCode)
  }

  lemma SequencesComplete()
    ensures forall s :: SequenceValue(s).None? || 1 <= SequenceValue(s).value <= 9
    ensures forall c :: 1 <= c <= 9 ==> SequenceValue(Sequences[c - 1]) == Some(c)
    ensures SequenceValue(Sequences[9]) == None
  {
  }

  lemma SequenceValuesDistinct()
    ensures forall i, j :: 0 <= i < j < |Sequences| ==> SequenceValue(Sequences[i]) != SequenceValue(Sequences[j])
  {
  }

  lemma SequenceRoundTrip(s: PhaseSequence)
    ensures DecodeSequence(SequenceValue(s)) == Success(s)
  {
    assert s in Sequences;
    SequenceValuesDistinct();
    FindMemberOfValue(Sequences, SequenceValue, s);
  }

  // --------------------------------------------------------------- position

  /** Mounting position of a tag (also used for the circuit-diagnostic and
      power-supply-type registers). */
  datatype Position = NotConfigured | Top | Bottom | NotApplicable | Invalid

  function PositionValue(p: Position): Option<nat>
  {
    match p
    case NotConfigured => Some(0)
    case Top => Some(1)
    case Bottom => Some(2)
    case NotApplicable => Some(3)
    case Invalid => None
  }

  const Positions: seq<Position> := [NotConfigured, Top, Bottom, NotApplicable, Position.Invalid]

  function DecodePosition(v: Option<nat>): (r: Result<Position, Error>)
    ensures r.Success? <==> v.None? || v.value <= 3
    ensures r.Success? ==> PositionValue(r.value) == v
    ensures r.Failure? ==> r.error == UnknownEnumCode
  {
    PositionsComplete();
    match FindMember(Positions, PositionValue, v)
    case Some(p) => Success(p)
    case None => Failure(UnknownEnumCode)
  }

  lemma PositionsComplete()
    ensures forall p :: PositionValue(p).None? || PositionValue(p).value <= 3
    ensures forall c :: 0 <= c <= 3 ==> PositionValue(Positions[c]) == Some(c)
    ensures PositionValue(Positions[4]) == None
  {
  }

  lemma PositionValuesDistinct()
    ensures forall i, j :: 0 <= i < j < |Positions| ==> PositionValue(Positions[i]) != PositionValue(Positions[j])
  {
  }

  lemma PositionRoundTrip(p: Position)
    ensures DecodePosition(PositionValue(p)) == Success(p)
  {
    assert p in Positions;
    PositionValuesDistinct();
    FindMemberOfValue(Positions, PositionValue, p);
  }
}
