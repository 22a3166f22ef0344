# PowerTag Link gateway register codec, in Dafny

A model of the Modbus register codec and register map that the PowerTag
gateway integration uses to talk to a Schneider PowerTag Link gateway
(`custom_components/powertag_gateway/schneider_modbus.py`), with proofs of
what the codec promises.

The model is split along the structure of the source:

- `wrappers.dfy` (`Wrappers`): `Option` for absent values, `Result` for failures.
- `words.dfy` (`Words`): 16-bit registers as bounded naturals, big-endian
  composition of several registers into one number and back, the two bytes
  of a register, and single-bit tests.
- `transport.dfy` (`Transport`): the device as a function from read
  requests to replies (register list, exception response, or nothing), the
  unit-id rule (1 to 247, or 255 for the gateway itself) and the error kinds.
- `codec.dfy` (`Codec`): the numeric reads with their sentinels
  (0xFFFF, 0x8000_0000, 0x8000_0000_0000_0000), the 16-bit write, the raw
  32-bit float read with its NaN test, and the string read and write.
- `calendar.dfy` (`Calendar`) and `timestamp.dfy` (`Timestamp`): the
  packed four-register date-time and the calendar check the date-time
  constructor applies to it.
- `enums.dfy` (`Enums`) and `products.dfy` (`Products`): phase and
  line-voltage offsets, gateway status, alarm bitmap, device usage, phase
  sequence, position and the product-type table, each decoded by value the
  way an enumeration lookup does it.
- `addressmap.dfy` (`AddressMap`): for each accessor, its unit, first
  register, register count and wire type.
- `gateway.dfy` (`Gateway`): discovery of the synthesis-table unit,
  connection, the read of any accessor through the register map, and the
  accessors that interpret a register further (status, alarms, enums,
  product type, communication validity, peak-demand reset).

The device is a parameter `bus: Request -> Reply`. A read that gets an
exception response fails with `DeviceExceptionError`, the error that the
source raises as `ConnectionError`. Any other missing reply fails with
`TransportError`. A write is modelled by the frame it sends.

Where the code and its documentation disagree, the model follows the code:

- Discovery skips only units that answer with an exception response. Any
  other failure (no reply, a short reply) ends discovery with that failure.
- A string read with fewer registers than requested is not an error: the
  payload is simply shorter.
- The unit-id `assert` of the numeric helpers is modelled as the error
  `UnitAssertion`. The string and date-time helpers have no such check,
  and neither does the model.

The two exceptions are the defects listed under Findings: the all-NUL
string test and the sub-second field of a date-time. For each, the model
holds a member that decodes as the code is written, with a lemma that
exhibits the difference, and a corrected decode. The read paths
(`Codec.ReadText`, `Timestamp.ReadStamp` and `Gateway.Read`) use the
corrected decodes.

## Model

| member | source | states |
|---|---|---|
| Words.ValueOf | custom_components/powertag_gateway/schneider_modbus.py:506-514 | the big-endian value of n registers is below 65536^n and its low 16 bits are the last register |
| Words.ValueOfHighWord | custom_components/powertag_gateway/schneider_modbus.py:506-514 | the first register is the most significant: the value divided by the weight of the rest is the first register |
| Words.WordsOf | custom_components/powertag_gateway/schneider_modbus.py:500-514 | the n-register big-endian encoding of a value below 65536^n composes back to that value |
| Words.ValueOfAppend | custom_components/powertag_gateway/schneider_modbus.py:506-514 | composing a concatenation is the high part shifted by 16 bits per low register plus the low part (most significant register first) |
| Words.WordsOfValueOf | custom_components/powertag_gateway/schneider_modbus.py:506-514 | a register list is the encoding of its own value, so a value determines its registers |
| Words.ByteSplit | custom_components/powertag_gateway/schneider_modbus.py:475-477 | a register splits into two bytes, high byte first, that recombine to the register |
| Words.BytesOf | custom_components/powertag_gateway/schneider_modbus.py:475-477 | a register list is twice as many bytes, the first register's high byte then its low byte leading |
| Words.BytesOfAt | custom_components/powertag_gateway/schneider_modbus.py:475-477 | byte i of the payload is the high byte of register i/2 for even i and its low byte for odd i |
| Words.WordsOfBytes | custom_components/powertag_gateway/schneider_modbus.py:485-488 | an even number of bytes packs into half as many registers whose bytes are exactly the input |
| Words.NonzeroHasLowBit | custom_components/powertag_gateway/schneider_modbus.py:40-41 | a number below 2^n is non-zero exactly when one of its n low bits is set |
| Words.BitAboveWidth | custom_components/powertag_gateway/schneider_modbus.py:50-52 | a number below 2^n has no bit set at position n or above |
| Words.BitOfMod | custom_components/powertag_gateway/schneider_modbus.py:40-49 | keeping the low n bits leaves every bit below n unchanged |
| Transport.Fetch | custom_components/powertag_gateway/schneider_modbus.py:463-467 | a register reply is passed on; an exception response becomes DeviceExceptionError and a missing reply TransportError, each exactly in that case |
| Transport.ValidUnit | custom_components/powertag_gateway/schneider_modbus.py:491 | every unit 1..247 and the gateway's 255 are accepted; 0, 248..254 and everything outside 0..255 are rejected |
| Codec.DecodeUnsigned | custom_components/powertag_gateway/schneider_modbus.py:495-514 | absent exactly when the big-endian value of the first count registers is the sentinel, that value otherwise; fewer registers cannot be unpacked |
| Codec.ReadUnsigned | custom_components/powertag_gateway/schneider_modbus.py:495-514 | fails with UnitAssertion exactly for a unit outside 1..247 and 255; with a valid unit, a device exception fails with DeviceExceptionError and a missing reply with TransportError, each exactly in that case, and MalformedResponse exactly when fewer registers than needed came back; success means the device returned registers |
| Codec.ReadUInt16 | custom_components/powertag_gateway/schneider_modbus.py:495-498 | unit guard as above; with a valid unit, a device exception fails with DeviceExceptionError and a missing reply with TransportError, each exactly in that case, and MalformedResponse exactly for an empty register reply; a present value is below 0xFFFF |
| Codec.ReadUInt32 | custom_components/powertag_gateway/schneider_modbus.py:506-509 | unit guard as above; with a valid unit, a device exception fails with DeviceExceptionError and a missing reply with TransportError, each exactly in that case, and MalformedResponse exactly for fewer than two registers; a present value fits 32 bits and is not 0x8000_0000 |
| Codec.ReadUInt64 | custom_components/powertag_gateway/schneider_modbus.py:511-514 | unit guard as above; with a valid unit, a device exception fails with DeviceExceptionError and a missing reply with TransportError, each exactly in that case, and MalformedResponse exactly for fewer than four registers; a present value fits 64 bits and is not 0x8000_0000_0000_0000 |
| Codec.ReadUnsignedRoundTrip | custom_components/powertag_gateway/schneider_modbus.py:495-514 | registers read back as their big-endian value, or as absence exactly when that value is the sentinel |
| Codec.ReadUnsignedOfEncoding | custom_components/powertag_gateway/schneider_modbus.py:495-514 | a value encoded into registers reads back as itself unless it is the sentinel |
| Codec.ReadUnsignedDeterminesRegisters | custom_components/powertag_gateway/schneider_modbus.py:495-514 | a present value read from a device fixes the registers it came from |
| Codec.ReadUInt16RoundTrip | custom_components/powertag_gateway/schneider_modbus.py:495-498 | one register w reads as w, or as absence for 0xFFFF |
| Codec.ReadUInt32RoundTrip | custom_components/powertag_gateway/schneider_modbus.py:506-509 | registers hi, lo read as hi*65536+lo, or as absence for 0x8000_0000 |
| Codec.ReadUInt64RoundTrip | custom_components/powertag_gateway/schneider_modbus.py:511-514 | four registers read as w0*2^48+w1*2^32+w2*2^16+w3, or as absence for 0x8000_0000_0000_0000 |
| Codec.WriteUInt16 | custom_components/powertag_gateway/schneider_modbus.py:500-504 | fails with UnitAssertion exactly for an invalid unit and with ValueOutOfRange exactly for a value outside 16 bits; otherwise one register to the given address and unit |
| Codec.WriteThenReadUInt16 | custom_components/powertag_gateway/schneider_modbus.py:495-504 | what the 16-bit write stores reads back through the 16-bit read |
| Codec.ReadFloat32Bits | custom_components/powertag_gateway/schneider_modbus.py:490-493 | unit guard as above; with a valid unit, a device exception fails with DeviceExceptionError and a missing reply with TransportError, each exactly in that case; on a register reply, fails exactly when fewer than two registers came back; otherwise the big-endian 32-bit pattern of the first two registers, absent exactly when that pattern is a NaN |
| Codec.IsNaN32 | custom_components/powertag_gateway/schneider_modbus.py:493 | a 32-bit pattern is a NaN exactly when, sign bit aside, it lies above the pattern of infinity |
| Codec.NaNAboveInfinity | custom_components/powertag_gateway/schneider_modbus.py:493 | the exponent-and-fraction test equals the comparison of the low 31 bits with 0x7F80_0000 |
| Codec.ReadFloat32RoundTrip | custom_components/powertag_gateway/schneider_modbus.py:490-493 | registers hi, lo read as the pattern hi*65536+lo, or as absence exactly when it is a NaN |
| Codec.Float32Specials | custom_components/powertag_gateway/schneider_modbus.py:490-493 | the infinities are values and the quiet NaN 0x7FC00000 is absence |
| Codec.DropNul | custom_components/powertag_gateway/schneider_modbus.py:482 | the result holds no NUL byte, is no longer than the input, and is empty exactly when the input is all NUL |
| Codec.DropNulMultiset | custom_components/powertag_gateway/schneider_modbus.py:482 | removing NUL bytes keeps every other byte as often as it occurs |
| Codec.DropNulAppend | custom_components/powertag_gateway/schneider_modbus.py:482 | removing NUL bytes works byte by byte, so it distributes over concatenation |
| Codec.DropNulKeeps | custom_components/powertag_gateway/schneider_modbus.py:482 | bytes without NUL pass through unchanged |
| Codec.Payload | custom_components/powertag_gateway/schneider_modbus.py:475-477 | the bytes looked at are the string length, or fewer when fewer registers came back; byte i is the high byte of register i/2 for even i and its low byte for odd i |
| Codec.DecodeText | custom_components/powertag_gateway/schneider_modbus.py:475-483 | absent exactly when every payload byte is NUL; otherwise the payload with its NUL bytes removed, which is non-empty, NUL-free and no longer than the string length |
| Codec.DecodeTextAsWritten | custom_components/powertag_gateway/schneider_modbus.py:479-483 | as written, only an empty payload is absent |
| Codec.NulPayloadAsWritten | custom_components/powertag_gateway/schneider_modbus.py:479-480 | as written, registers of zero bytes decode to the empty string where the intended rule gives absence |
| Codec.TextDecodesAgree | custom_components/powertag_gateway/schneider_modbus.py:479-483 | for every input, the decode as written and the intended one differ exactly on a non-empty all-NUL payload, which is the empty string as written and absent as intended |
| Codec.ReadText | custom_components/powertag_gateway/schneider_modbus.py:475-477 | no unit-id check; a device exception fails with DeviceExceptionError and a missing reply with TransportError, each exactly in that case; otherwise the text decode of the registers returned |
| Codec.ReadTextOfRegisters | custom_components/powertag_gateway/schneider_modbus.py:475-483 | a device holding registers ws reads, at any unit, as the text decode of ws |
| Codec.EncodeText | custom_components/powertag_gateway/schneider_modbus.py:485-488 | the registers hold the string followed only by NUL bytes, at least 20 bytes, never truncated |
| Codec.WriteText | custom_components/powertag_gateway/schneider_modbus.py:485-488 | a string write goes to the given address and unit and carries the string's NUL-padded encoding, at least ten registers |
| Codec.TextRoundTrip | custom_components/powertag_gateway/schneider_modbus.py:475-488 | a non-empty NUL-free string written and read back with a covering length is unchanged |
| Codec.EmbeddedNulExample | custom_components/powertag_gateway/schneider_modbus.py:482-483 | "AB\0\0CD" decodes to "ABCD": NUL bytes inside the payload are removed too |
| Calendar.DaysInMonth | custom_components/powertag_gateway/schneider_modbus.py:537 | 28 to 31 days; 29 exactly for February of a leap year and 28 for February otherwise; 30 exactly for April, June, September and November; 31 exactly for the other months |
| Calendar.YearLength | custom_components/powertag_gateway/schneider_modbus.py:537 | the month lengths add up to 366 days in a leap year and 365 otherwise |
| Calendar.MakeDateTime | custom_components/powertag_gateway/schneider_modbus.py:537 | a date-time exactly when every field is in its calendar range, InvalidTimestamp otherwise |
| Timestamp.Unpack | custom_components/powertag_gateway/schneider_modbus.py:519-531 | year 2000..2127 from the low 7 bits of the first register; day the low 5 bits and month bits 8..11 of the second; minute the low 6 bits and hour bits 8..12 of the third; seconds*1000+milliseconds equals the last register |
| Timestamp.DecodeStamp | custom_components/powertag_gateway/schneider_modbus.py:516-537 | absent exactly for four 0xFFFF registers; fails exactly when the unpacked fields are no calendar date; otherwise the fields with milliseconds scaled to microseconds |
| Timestamp.DecodeStampAsWritten | custom_components/powertag_gateway/schneider_modbus.py:537 | as written, the sub-second field of every decoded date-time is below 1000 microseconds |
| Timestamp.ReadStamp | custom_components/powertag_gateway/schneider_modbus.py:516-537 | no unit-id check; a device exception fails with DeviceExceptionError and a missing reply with TransportError, each exactly in that case; on a register reply, the date-time decode of the registers |
| Timestamp.ReadStampRoundTrip | custom_components/powertag_gateway/schneider_modbus.py:516-537 | a device holding the packed form of a representable date-time reads it back, at any unit |
| Timestamp.EncodeStamp | custom_components/powertag_gateway/schneider_modbus.py:519-531 | a representable date-time packs into four registers that are not the absent pattern |
| Timestamp.StampRoundTrip | custom_components/powertag_gateway/schneider_modbus.py:516-537 | every representable date-time packs and decodes back to itself |
| Timestamp.PartialSentinelIsInvalid | custom_components/powertag_gateway/schneider_modbus.py:531-537 | a day-and-month register of 0xFFFF outside the all-absent pattern is an invalid date |
| Timestamp.StampExample | custom_components/powertag_gateway/schneider_modbus.py:516-537 | 24, 0x0105, 0x0A1E, 0x0E74 is 2024-01-05 10:30:03.700 |
| Timestamp.StampExampleAsWritten | custom_components/powertag_gateway/schneider_modbus.py:537 | as written, the same registers give 700 microseconds |
| Timestamp.StampDecodesAgree | custom_components/powertag_gateway/schneider_modbus.py:537 | for every input, the decode as written fails and finds absence exactly as the intended one; a decoded date-time differs only in its sub-second field, a thousandth of the intended |
| Enums.FindMember | custom_components/powertag_gateway/schneider_modbus.py:55-98 | lookup by value finds a member with that value, and finds none exactly when no member has it |
| Enums.FindMemberOfValue | custom_components/powertag_gateway/schneider_modbus.py:55-98 | with distinct values, looking up a member's value finds that member |
| Enums.PhaseOffsetsDisjoint | custom_components/powertag_gateway/schneider_modbus.py:14-17 | distinct phases are at least two registers apart |
| Enums.LineVoltageOffsetsDisjoint | custom_components/powertag_gateway/schneider_modbus.py:20-26 | distinct line voltages are at least two registers apart |
| Enums.DecodeStatus | custom_components/powertag_gateway/schneider_modbus.py:29-32 | a status exactly for 0, 1 and 2 and with that value; absence and other codes fail |
| Enums.StatusRoundTrip | custom_components/powertag_gateway/schneider_modbus.py:29-32 | every status decodes from its own value |
| Enums.DecodeAlarm | custom_components/powertag_gateway/schneider_modbus.py:38-52 | summary flag exactly when a low-byte bit is set; each named flag exactly its bit 0, 1, 3, 4, 5 or 6; heattag flags always clear |
| Enums.AlarmExamples | custom_components/powertag_gateway/schneider_modbus.py:38-52 | 3 raises voltage loss, current overload and the summary flag only; 0 raises nothing |
| Enums.ReservedBitRaisesAlarm | custom_components/powertag_gateway/schneider_modbus.py:38-46 | bit 2 or bit 7 alone raises the summary flag and no named flag |
| Enums.AlarmIgnoresHighByte | custom_components/powertag_gateway/schneider_modbus.py:40 | bits above the low byte change nothing |
| Enums.DecodeUsage | custom_components/powertag_gateway/schneider_modbus.py:55-77 | a usage exactly for absence and codes 1..21, with that value; other codes fail |
| Enums.UsagesComplete | custom_components/powertag_gateway/schneider_modbus.py:55-77 | every usage has code 1..21 or is the absent one, and code c is the c-th usage |
| Enums.UsageValuesDistinct | custom_components/powertag_gateway/schneider_modbus.py:55-77 | no two usages share a value |
| Enums.UsageRoundTrip | custom_components/powertag_gateway/schneider_modbus.py:55-77 | every usage decodes from its own value |
| Enums.DecodeSequence | custom_components/powertag_gateway/schneider_modbus.py:80-90 | a phase sequence exactly for absence and codes 1..9, with that value; other codes fail |
| Enums.SequencesComplete | custom_components/powertag_gateway/schneider_modbus.py:80-90 | every sequence has code 1..9 or is the absent one |
| Enums.SequenceValuesDistinct | custom_components/powertag_gateway/schneider_modbus.py:80-90 | no two sequences share a value |
| Enums.SequenceRoundTrip | custom_components/powertag_gateway/schneider_modbus.py:80-90 | every sequence decodes from its own value |
| Enums.DecodePosition | custom_components/powertag_gateway/schneider_modbus.py:93-98 | a position exactly for absence and codes 0..3, with that value; other codes fail |
| Enums.PositionsComplete | custom_components/powertag_gateway/schneider_modbus.py:93-98 | every position has code 0..3 or is the absent one |
| Enums.PositionValuesDistinct | custom_components/powertag_gateway/schneider_modbus.py:93-98 | no two positions share a value |
| Enums.PositionRoundTrip | custom_components/powertag_gateway/schneider_modbus.py:93-98 | every position decodes from its own value |
| Products.Rank | custom_components/powertag_gateway/schneider_modbus.py:101-131 | every product type has a place in the declaration order |
| Products.ProductsComplete | custom_components/powertag_gateway/schneider_modbus.py:101-131 | the table lists every product type |
| Products.ProductCodesAscending | custom_components/powertag_gateway/schneider_modbus.py:101-131 | the table lists the codes in increasing order |
| Products.AscendingHead | custom_components/powertag_gateway/schneider_modbus.py:101-131 | the first ten codes of the table ascend |
| Products.AscendingMiddle | custom_components/powertag_gateway/schneider_modbus.py:101-131 | codes ten to twenty of the table ascend |
| Products.AscendingTail | custom_components/powertag_gateway/schneider_modbus.py:101-131 | the remaining codes of the table ascend |
| Products.ProductCodesDistinct | custom_components/powertag_gateway/schneider_modbus.py:101-131 | no two product types share a code |
| Products.LookupProduct | custom_components/powertag_gateway/schneider_modbus.py:326-330 | a found product has the code looked up; an absent code finds nothing |
| Products.LookupProductExact | custom_components/powertag_gateway/schneider_modbus.py:326-330 | lookup of a code finds a product exactly when the code is that product's code |
| Products.LookupProductUnknown | custom_components/powertag_gateway/schneider_modbus.py:326-330 | a code that belongs to no product finds nothing rather than failing |
| Products.LookupProductExample | custom_components/powertag_gateway/schneider_modbus.py:326-330 | code 92 is the LV434020 |
| Products.LookupProductNoMatch | custom_components/powertag_gateway/schneider_modbus.py:326-330 | code 0 and an absent register are no product |
| AddressMap.Layout | custom_components/powertag_gateway/schneider_modbus.py:150-455 | every string length fits in its registers, every fixed-width type reads its own register count, and every block lies in the 16-bit address space |
| AddressMap.TargetOf | custom_components/powertag_gateway/schneider_modbus.py:424-455 | a synthesis-table accessor is a node slot or lies below 0x0050 |
| AddressMap.GatewayByAddress | custom_components/powertag_gateway/schneider_modbus.py:150-197 | outside the node table, an accessor targets the gateway exactly when its register lies in 0x0050..0x009E |
| AddressMap.TagByAddress | custom_components/powertag_gateway/schneider_modbus.py:200-420 | outside the node table, an accessor targets a tag exactly when its register lies at 0x0BB7 or above |
| AddressMap.PhaseAddresses | custom_components/powertag_gateway/schneider_modbus.py:200-214 | current, active power and current at voltage loss sit at their base plus the phase offset and do not overlap across phases |
| AddressMap.LineVoltageAddresses | custom_components/powertag_gateway/schneider_modbus.py:206-208 | line voltages sit at 0xBCB plus their offset and do not overlap |
| AddressMap.NodeSlotAddresses | custom_components/powertag_gateway/schneider_modbus.py:454-455 | slots 1..100 map one-to-one onto 0x012C..0x018F, slot 1 onto 0x012C |
| AddressMap.SharedEnergyRegister | custom_components/powertag_gateway/schneider_modbus.py:232-238 | total and partial energy read the same register |
| AddressMap.SharedPerRegister | custom_components/powertag_gateway/schneider_modbus.py:386-412 | the maximum packet error rate reads the per-tag register |
| AddressMap.SharedRssiRegister | custom_components/powertag_gateway/schneider_modbus.py:390-416 | the minimum signal strength reads the per-tag register |
| AddressMap.SharedLqiRegister | custom_components/powertag_gateway/schneider_modbus.py:394-420 | the minimum link quality reads the per-tag register |
| AddressMap.MeteringBlocksDisjoint | custom_components/powertag_gateway/schneider_modbus.py:200-280 | the per-phase, line-voltage, total and load-time blocks do not overlap |
| Gateway.ProbeAddressIsProductId | custom_components/powertag_gateway/schneider_modbus.py:142-143 | the discovery probe reads the synthesis table's product-id register |
| Gateway.Probe | custom_components/powertag_gateway/schneider_modbus.py:142-143 | the probe fails with DeviceExceptionError exactly when a valid unit answers the product-id read with an exception; success means registers came back |
| Gateway.DiscoverFrom | custom_components/powertag_gateway/schneider_modbus.py:140-147 | a found unit lies between 2 and the start, answers the probe, and every unit above it answered with an exception; not-found exactly when every unit answered with an exception; any other failure is a transport or short-reply failure |
| Gateway.DiscoveryFailureCause | custom_components/powertag_gateway/schneider_modbus.py:140-147 | a failed discovery stopped at a unit whose probe failed that way, after every unit above it answered with an exception |
| Gateway.FindSynthesisTableUnit | custom_components/powertag_gateway/schneider_modbus.py:140-147 | the highest unit from 247 down to 2 that answers the probe; not-found exactly when all of them answer with an exception |
| Gateway.DiscoveryReadsOnlyProbes | custom_components/powertag_gateway/schneider_modbus.py:140-147 | discovery depends on nothing but the probe replies of the units it tries |
| Gateway.UnitOneNeverProbed | custom_components/powertag_gateway/schneider_modbus.py:141 | devices that differ only at unit 1 are discovered alike |
| Gateway.DiscoveryExample | custom_components/powertag_gateway/schneider_modbus.py:140-147 | where only unit 42 answers, discovery finds 42 |
| Gateway.DiscoveryStopsOnTransportFailure | custom_components/powertag_gateway/schneider_modbus.py:142-146 | a probe failure other than an exception response ends discovery |
| Gateway.Connect | custom_components/powertag_gateway/schneider_modbus.py:135-147 | connecting succeeds exactly when discovery does; a connection keeps the bus and the discovered unit, and a failed connection carries discovery's error |
| Gateway.UnitOf | custom_components/powertag_gateway/schneider_modbus.py:150-455 | gateway accessors send unit 255, tag accessors the tag index, synthesis-table accessors the discovered unit; a valid tag and a discovered unit make every accessor's unit valid |
| Gateway.Read | custom_components/powertag_gateway/schneider_modbus.py:150-455 | the read sends the accessor's own address, count and unit; the unit check fails exactly for numeric types with an invalid unit; past that check, a device exception fails with DeviceExceptionError and a missing reply with TransportError, each exactly in that case; the value fits the wire type |
| Gateway.Numeric | custom_components/powertag_gateway/schneider_modbus.py:495-514 | a numeric result becomes a number value, and a failure keeps its error |
| Gateway.ReadOfNumberRegisters | custom_components/powertag_gateway/schneider_modbus.py:495-514 | a numeric accessor whose registers hold ws reads as the unsigned decode of ws at its width and sentinel |
| Gateway.ReadOfFloatRegisters | custom_components/powertag_gateway/schneider_modbus.py:490-493 | a float accessor whose registers hold ws reads as the pattern of the first two, absence for a NaN, or a short-reply failure |
| Gateway.ReadOfStampRegisters | custom_components/powertag_gateway/schneider_modbus.py:516-537 | a date-time accessor whose registers hold ws reads as the date-time decode of ws, its failure included |
| Gateway.ReadOfTextRegisters | custom_components/powertag_gateway/schneider_modbus.py:475-483 | a text accessor whose registers hold ws reads as the text decode of ws at the accessor's string length |
| Gateway.ReadAddressesTarget | custom_components/powertag_gateway/schneider_modbus.py:150-455 | gateway accessors address unit 255, tag accessors the tag, synthesis-table accessors the discovered unit |
| Gateway.Word16 | custom_components/powertag_gateway/schneider_modbus.py:495-498 | a 16-bit accessor fails the unit check exactly for an invalid unit; with a valid unit, a device exception fails with DeviceExceptionError and a missing reply with TransportError, each exactly in that case, and MalformedResponse exactly for an empty reply; a present value is below 0xFFFF |
| Gateway.Then | custom_components/powertag_gateway/schneider_modbus.py:187-384 | an accessor's interpretation applies to a successful register read; a failed read passes through with its error |
| Gateway.Word16OfRegister | custom_components/powertag_gateway/schneider_modbus.py:495-498 | a 16-bit accessor's register w reads as w, or as absence for 0xFFFF |
| Gateway.AlarmValidOf | custom_components/powertag_gateway/schneider_modbus.py:256-258 | validity is bit 0; an absent register fails, having no operand for the mask |
| Gateway.AlarmOf | custom_components/powertag_gateway/schneider_modbus.py:260-262 | the decoded bitmap of a present register, its voltage-loss and current-overload flags bits 0 and 1; an absent register fails |
| Gateway.CommunicationValidOf | custom_components/powertag_gateway/schneider_modbus.py:378-384 | invalid exactly for the value 0, so absence reads as valid |
| Gateway.ReadStatus | custom_components/powertag_gateway/schneider_modbus.py:187-190 | a status exactly when the status register reads 0, 1 or 2, and then the status with that value; a failed register read is passed on unchanged |
| Gateway.ReadAlarmValid | custom_components/powertag_gateway/schneider_modbus.py:256-258 | bit 0 of the validity register; fails with NoneOperand exactly when the register is absent; a failed register read is passed on unchanged |
| Gateway.ReadAlarm | custom_components/powertag_gateway/schneider_modbus.py:260-262 | the decoded alarm bitmap of the register, the summary flag exactly when its low byte is non-zero; fails with NoneOperand exactly when the register is absent; a failed register read is passed on unchanged |
| Gateway.ReadUsage | custom_components/powertag_gateway/schneider_modbus.py:292-294 | a decoded usage is the one whose value the register holds; a failed register read is passed on unchanged; any other failure is an unknown code |
| Gateway.ReadPhaseSequence | custom_components/powertag_gateway/schneider_modbus.py:296-298 | a decoded phase sequence is the one whose value the register holds; a failed register read is passed on unchanged; any other failure is an unknown code |
| Gateway.ReadPositionLike | custom_components/powertag_gateway/schneider_modbus.py:300-322 | a decoded position is the one whose value the register holds; a failed register read is passed on unchanged; any other failure is an unknown code |
| Gateway.ReadProductType | custom_components/powertag_gateway/schneider_modbus.py:326-330 | fails exactly when the register read fails, and with its error; a found product is the one whose code the register holds |
| Gateway.ReadCommunicationValid | custom_components/powertag_gateway/schneider_modbus.py:378-384 | fails exactly when the register read fails, and with its error; invalid exactly when the register holds 0 |
| Gateway.ResetPeakDemands | custom_components/powertag_gateway/schneider_modbus.py:316-318 | fails exactly for an invalid unit; otherwise writes the single value 1 to register 0x792E of the tag |
| Gateway.StatusOfRegister | custom_components/powertag_gateway/schneider_modbus.py:187-190 | a status register holding a status's value reads as that status |
| Gateway.UsageOfRegister | custom_components/powertag_gateway/schneider_modbus.py:292-294 | a usage register holding a usage's code reads as that usage, and 0xFFFF as the invalid usage |
| Gateway.UnknownUsageCode | custom_components/powertag_gateway/schneider_modbus.py:292-294 | a usage register holding 0 or a code above 21 is an error |
| Gateway.PhaseSequenceOfRegister | custom_components/powertag_gateway/schneider_modbus.py:296-298 | a phase-sequence register holding a sequence's code reads as that sequence, and 0xFFFF as the invalid one |
| Gateway.PositionOfRegister | custom_components/powertag_gateway/schneider_modbus.py:300-322 | the position, circuit-diagnostic and power-supply registers holding a position's code read as that position |
| Gateway.ProductTypeOfRegister | custom_components/powertag_gateway/schneider_modbus.py:326-330 | the product-type register reads as product p exactly when it holds p's code; it never fails |
| Gateway.AlarmOfRegister | custom_components/powertag_gateway/schneider_modbus.py:256-262 | alarm validity is bit 0 of its register and the alarm flags decode their register; both fail on 0xFFFF |
| Gateway.CommunicationValidOfRegister | custom_components/powertag_gateway/schneider_modbus.py:378-384 | a communication-validity register reads as valid unless it holds 0, so 0xFFFF reads as valid |

## Left out

- The TCP client, its construction and connection (lines 135-137), and the network I/O behind the read and write helpers (lines 459-467). The device is the `bus` parameter instead. The write helper prints the device's reply and does nothing else with it, so a write is modelled by the frame it sends.
- IEEE-754 float decoding (lines 490-493). Float accessors return the raw 32-bit pattern, with NaN, recognised by its exponent and fraction bits, as absence.
- UTF-8 decoding of string payloads and encoding of written strings. Strings stay byte sequences; a payload that is not valid UTF-8 would raise in the source and is not modelled.
- The payload decoder and builder of the Modbus library, beyond big-endian word and byte order and a short reply failing the numeric decoders.
- The date-time type, beyond the range check its constructor applies.
- The one-line accessors that only pair an address with a helper are covered by the register map and the generic read, not as separate functions.
- The legacy accessors and the older status layout, which are commented out in the source.
- The constructor's exception on a failed discovery is modelled as a failed connection result.
- Codec.ReadText: applies the corrected all-NUL test of line 479, not the test as written (see Findings); `Codec.DecodeTextAsWritten` is the decode as written.
- Timestamp.ReadStamp: applies the corrected sub-second scaling of line 537, not the code as written (see Findings); `Timestamp.DecodeStampAsWritten` is the decode as written.
- Gateway.Read: its text and date-time reads go through `Codec.ReadText` and `Timestamp.ReadStamp`, so they inherit the two corrections above.
- Codec.WriteUInt16, Codec.WriteText, Gateway.ResetPeakDemands: the write helper hands the unit to the client as `unit=` (line 460), while the read helper passes it as `slave=` (line 464). The model assumes the write reaches the unit given; whether the client accepts that keyword is library behaviour and is not modelled.

## Findings

| source | as written | input that shows it | evidently intended | confidence | as-written member | corrected member |
|---|---|---|---|---|---|---|
| custom_components/powertag_gateway/schneider_modbus.py:479 | each payload element is compared with the one-character string NUL; the payload decoder yields bytes, whose elements are integers, so the test never holds and only an empty payload is absent | registers 0, 0, ... decode to the empty string | an all-NUL payload is absent | medium, rests on the decoder yielding bytes; not executed | Codec.NulPayloadAsWritten | Codec.DecodeText |
| custom_components/powertag_gateway/schneider_modbus.py:537 | the milliseconds are passed in the microsecond position of the date-time | registers 24, 0x0105, 0x0A1E, 0x0E74 give 700 microseconds | 700 milliseconds, that is 700000 microseconds | high; not executed | Timestamp.StampExampleAsWritten | Timestamp.DecodeStamp |
