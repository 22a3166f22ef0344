/** The packed date-time: four registers holding year, month and day, hour
    and minute, and seconds with milliseconds. Four 0xFFFF registers mean
    "not available". */
module Timestamp {
  import opened Wrappers
  import opened Words
  import opened Transport
  import opened Calendar

  /** The raw fields as the bit masks extract them, before any calendar check. */
  datatype StampFields = StampFields(year: nat, month: nat, day: nat, hour: nat, minute: nat, second: nat, millisecond: int)

  /** Field extraction. With w nonnegative, `w % 2^k` is `w & (2^k - 1)` and
      `(w / 256) % 2^k` is `(w >> 8) & (2^k - 1)`:
      year = (w0 & 0x7F) + 2000, day = w1 & 0x1F, month = (w1 >> 8) & 0xF,
      minute = w2 & 0x3F, hour = (w2 >> 8) & 0x1F, second = floor(w3 / 1000),
      millisecond = w3 - second * 1000. */
  function Unpack(w0: Word, w1: Word, w2: Word, w3: Word): (f: StampFields)
    ensures 2000 <= f.year <= 2127
    ensures f.month < 16 && f.day < 32 && f.hour < 32 && f.minute < 64 && f.second <= 65
    ensures 0 <= f.millisecond < 1000 && f.second * 1000 + f.millisecond == w3
    ensures (w0 - (f.year - 2000)) % 0x80 == 0
    ensures (w1 - f.day) % 0x20 == 0 && (w1 / 0x100 - f.month) % 0x10 == 0
    ensures (w2 - f.minute) % 0x40 == 0 && (w2 / 0x100 - f.hour) % 0x20 == 0
  {
    var second := w3 / 1000;
    StampFields(w0 % 0x80 + 2000, (w1 / 0x100) % 0x10, w1 % 0x20,
                (w2 / 0x100) % 0x20, w2 % 0x40, second, w3 - second * 1000)
  }

  /** All four registers hold 0xFFFF. */
  predicate IsAbsentStamp(w0: Word, w1: Word, w2: Word, w3: Word)
  {
    w0 == 0xFFFF && w1 == 0xFFFF && w2 == 0xFFFF && w3 == 0xFFFF
  }

  /** The intended decode: absent for four 0xFFFF registers, otherwise the
      calendar date-time of the fields, with the milliseconds placed in the
      microsecond field as 1000 microseconds each. */
  function DecodeStamp(ws: seq<Word>): (r: Result<Option<DateTime>, Error>)
    ensures r == Failure(MalformedResponse) <==> |ws| < 4
    ensures |ws| >= 4 ==> (r == Success(None) <==> IsAbsentStamp(ws[0], ws[1], ws[2], ws[3]))
    ensures |ws| >= 4 && !IsAbsentStamp(ws[0], ws[1], ws[2], ws[3]) ==>
              (r.Failure? <==> !IsValid(StampDateTime(Unpack(ws[0], ws[1], ws[2], ws[3]))))
    ensures r.Success? && r.value.Some? ==>
              var dt := r.value.value;
              && IsValid(dt)
              && dt.year - 2000 == ws[0] % 0x80
              && dt.month == (ws[1] / 0x100) % 0x10 && dt.day == ws[1] % 0x20
              && dt.hour == (ws[2] / 0x100) % 0x20 && dt.minute == ws[2] % 0x40
              && dt.microsecond % 1000 == 0
              && dt.second * 1000 + dt.microsecond / 1000 == ws[3]
  {
    if |ws| < 4 then Failure(MalformedResponse)
    else if IsAbsentStamp(ws[0], ws[1], ws[2], ws[3]) then Success(None)
    else
      var f := Unpack(ws[0], ws[1], ws[2], ws[3]);
      match MakeDateTime(f.year, f.month, f.day, f.hour, f.minute, f.second, f.millisecond * 1000)
      case Success(dt) => Success(Some(dt))
      case Failure(e) => Failure(e)
  }

  /** The date-time the intended decode builds from the raw fields. */
  function StampDateTime(f: StampFields): DateTime
  {
    DateTime(f.year, f.month, f.day, f.hour, f.minute, f.second, f.millisecond * 1000)
  }

  /** The decode as the source writes it: the milliseconds go into the
      microsecond field unscaled. */
  function DecodeStampAsWritten(ws: seq<Word>): (r: Result<Option<DateTime>, Error>)
    ensures r == Failure(MalformedResponse) <==> |ws| < 4
    ensures |ws| >= 4 ==> (r == Success(None) <==> IsAbsentStamp(ws[0], ws[1], ws[2], ws[3]))
    ensures r.Success? && r.value.Some? ==> IsValid(r.value.value) && r.value.value.microsecond < 1000
  {
    if |ws| < 4 then Failure(MalformedResponse)
    else if IsAbsentStamp(ws[0], ws[1], ws[2], ws[3]) then Success(None)
    else
      var f := Unpack(ws[0], ws[1], ws[2], ws[3]);
      match MakeDateTime(f.year, f.month, f.day, f.hour, f.minute, f.second, f.millisecond)
      case Success(dt) => Success(Some(dt))
      case Failure(e) => Failure(e)
  }

  /** A date-time read: one read of four registers, then the decode. There
      is no unit-id check on this path. */
  function ReadStamp(bus: Bus, address: int, unit: int): (r: Result<Option<DateTime>, Error>)
    ensures r.Failure? && r.error != InvalidTimestamp && r.error != MalformedResponse
            <==> !bus(Request(address, 4, unit)).Registers?
    ensures r.Success? && r.value.Some? ==> IsValid(r.value.value)
    ensures bus(Request(address, 4, unit)).Registers? ==> r == DecodeStamp(bus(Request(address, 4, unit)).words)
    ensures r == Failure(DeviceExceptionError) <==> bus(Request(address, 4, unit)) == ExceptionReply
    ensures r == Failure(TransportError) <==> bus(Request(address, 4, unit)) == NoReply
  {
    match Fetch(bus, address, 4, unit)
    case Failure(e) => Failure(e)
    case Success(ws) => DecodeStamp(ws)
  }

  /** A device whose four registers hold a representable date-time reads
      back as that date-time, for any unit. */
  lemma ReadStampRoundTrip(dt: DateTime, address: int, unit: int)
    requires Representable(dt)
    ensures ReadStamp(Answering(EncodeStamp(dt)), address, unit) == Success(Some(dt))
  {
    StampRoundTrip(dt);
  }

  /** A date-time the device can represent: year 2000 to 2127 and a whole
      number of milliseconds. */
  predicate Representable(dt: DateTime)
  {
    IsValid(dt) && 2000 <= dt.year <= 2127 && dt.microsecond % 1000 == 0
  }

  /** The four registers that hold a representable date-time. */
  function EncodeStamp(dt: DateTime): (ws: seq<Word>)
    requires Representable(dt)
    ensures |ws| == 4 && !IsAbsentStamp(ws[0], ws[1], ws[2], ws[3])
  {
    [dt.year - 2000, dt.month * 0x100 + dt.day, dt.hour * 0x100 + dt.minute,
     dt.second * 1000 + dt.microsecond / 1000]
  }

  /** Encoding then decoding gives the date-time back. */
  lemma StampRoundTrip(dt: DateTime)
    requires Representable(dt)
    ensures DecodeStamp(EncodeStamp(dt)) == Success(Some(dt))
  {
    var ws := EncodeStamp(dt);
    MonthDayFields(dt.month, dt.day);
    HourMinuteFields(dt.hour, dt.minute);
    var f := Unpack(ws[0], ws[1], ws[2], ws[3]);
    assert f.second == dt.second && f.millisecond == dt.microsecond / 1000;
    assert StampDateTime(f) == dt;
  }

  /** Month and day packed as month * 256 + day unpack with their masks. */
  lemma MonthDayFields(month: nat, day: nat)
    requires month < 0x10 && day < 0x20
    ensures ((month * 0x100 + day) / 0x100) % 0x10 == month
    ensures (month * 0x100 + day) % 0x20 == day
  {
    assert (month * 0x100 + day) / 0x100 == month;
    assert month * 0x100 + day == (month * 8) * 0x20 + day;
  }

  /** Hour and minute packed as hour * 256 + minute unpack with their masks. */
  lemma HourMinuteFields(hour: nat, minute: nat)
    requires hour < 0x20 && minute < 0x40
    ensures ((hour * 0x100 + minute) / 0x100) % 0x20 == hour
    ensures (hour * 0x100 + minute) % 0x40 == minute
  {
    assert (hour * 0x100 + minute) / 0x100 == hour;
    assert hour * 0x100 + minute == (hour * 4) * 0x40 + minute;
  }

  /** Four 0xFFFF registers are absence, but a day-and-month register of
      0xFFFF in any other stamp means month 15, so the decode fails. */
  lemma PartialSentinelIsInvalid(w0: Word, w2: Word, w3: Word)
    requires !(w0 == 0xFFFF && w2 == 0xFFFF && w3 == 0xFFFF)
    ensures DecodeStamp([w0, 0xFFFF, w2, w3]) == Failure(InvalidTimestamp)
  {
  }

  /** The documented stamp 24, 0x0105, 0x0A1E, 0x0E74 is 2024-01-05 10:30:03
      and 700 milliseconds. */
  lemma StampExample()
    ensures DecodeStamp([24, 0x0105, 0x0A1E, 0x0E74]) == Success(Some(DateTime(2024, 1, 5, 10, 30, 3, 700_000)))
  {
  }

  /** The decode as written and the intended decode fail alike and find
      absence alike; a date-time they both find differs only in the
      sub-second field, which as written is a thousandth of the intended. */
  lemma StampDecodesAgree(ws: seq<Word>)
    ensures DecodeStamp(ws).Failure? <==> DecodeStampAsWritten(ws).Failure?
    ensures DecodeStamp(ws).Failure? ==> DecodeStampAsWritten(ws) == DecodeStamp(ws)
    ensures DecodeStamp(ws) == Success(None) <==> DecodeStampAsWritten(ws) == Success(None)
    ensures DecodeStamp(ws).Success? && DecodeStamp(ws).value.Some? ==>
              var dt := DecodeStamp(ws).value.value;
              && DecodeStampAsWritten(ws).Success? && DecodeStampAsWritten(ws).value.Some?
              && DecodeStampAsWritten(ws).value.value.microsecond * 1000 == dt.microsecond
              && DecodeStampAsWritten(ws).value.value == dt.(microsecond := dt.microsecond / 1000)
  {
  }

  /** As written, the same stamp carries 700 microseconds: every decoded
      sub-second part is a thousand times too small. */
  lemma StampExampleAsWritten()
    ensures DecodeStampAsWritten([24, 0x0105, 0x0A1E, 0x0E74]) == Success(Some(DateTime(2024, 1, 5, 10, 30, 3, 700)))
  {
  }
}
