/** The register codec: unsigned integers of one, two and four words, the
    raw pattern of a 32-bit float, NUL-stripped strings, and the 16-bit and
    string writes. All compositions are big-endian in words and in bytes. */
module Codec {
  import opened Wrappers
  import opened Words
  import opened Transport

  /** The pattern each unsigned width reserves for "not available". */
  const Absent16 := 0xFFFF
  const Absent32 := 0x8000_0000
  const Absent64 := 0x8000_0000_0000_0000

  /** Length to which a written string is padded with NUL characters. */
  const WrittenTextLength := 20

  // ---------------------------------------------------------------- unsigned

  /** The first `count` registers read as one unsigned number, or absence
      when that number is `sentinel`. Fewer registers than `count` cannot
      be unpacked. */
  function DecodeUnsigned(ws: seq<Word>, count: nat, sentinel: nat): (r: Result<Option<nat>, Error>)
    ensures r == Failure(MalformedResponse) <==> |ws| < count
    ensures r.Success? ==> (r.value.None? <==> ValueOf(ws[..count]) == sentinel)
    ensures r.Success? && r.value.Some? ==> r.value.value == ValueOf(ws[..count]) < WordPow(count)
  {
    if |ws| < count then Failure(MalformedResponse)
    else
      var v := ValueOf(ws[..count]);
      if v == sentinel then Success(None) else Success(Some(v))
  }

  /** A numeric read: the unit-id check, one read of `count` registers, then
      the decode. */
  function ReadUnsigned(bus: Bus, address: int, unit: int, count: nat, sentinel: nat): (r: Result<Option<nat>, Error>)
    ensures r == Failure(UnitAssertion) <==> !ValidUnit(unit)
    ensures r == Failure(DeviceExceptionError) <==> ValidUnit(unit) && bus(Request(address, count, unit)) == ExceptionReply
    ensures r == Failure(TransportError) <==> ValidUnit(unit) && bus(Request(address, count, unit)) == NoReply
    ensures r == Failure(MalformedResponse) <==> ValidUnit(unit) && bus(Request(address, count, unit)).Registers? && |bus(Request(address, count, unit)).words| < count
    ensures r.Failure? ==> r.error in {UnitAssertion, DeviceExceptionError, TransportError, MalformedResponse}
    ensures r.Success? ==> bus(Request(address, count, unit)).Registers?
    ensures r.Success? && r.value.Some? ==> r.value.value != sentinel && r.value.value < WordPow(count)
  {
    if !ValidUnit(unit) then Failure(UnitAssertion)
    else
      match Fetch(bus, address, count, unit)
      case Failure(e) => Failure(e)
      case Success(ws) => DecodeUnsigned(ws, count, sentinel)
  }

  /** One register as an unsigned 16-bit number; 0xFFFF is absent. */
  function ReadUInt16(bus: Bus, address: int, unit: int): (r: Result<Option<nat>, Error>)
    ensures r == Failure(UnitAssertion) <==> !ValidUnit(unit)
    ensures r == Failure(DeviceExceptionError) <==> ValidUnit(unit) && bus(Request(address, 1, unit)) == ExceptionReply
    ensures r == Failure(TransportError) <==> ValidUnit(unit) && bus(Request(address, 1, unit)) == NoReply
    ensures r == Failure(MalformedResponse) <==> ValidUnit(unit) && bus(Request(address, 1, unit)).Registers? && |bus(Request(address, 1, unit)).words| < 1
    ensures r.Failure? ==> r.error in {UnitAssertion, DeviceExceptionError, TransportError, MalformedResponse}
    ensures r.Success? ==> bus(Request(address, 1, unit)).Registers?
    ensures r.Success? && r.value.Some? ==> r.value.value < Absent16
  {
    ReadUnsigned(bus, address, unit, 1, Absent16)
  }

  /** Two registers as an unsigned 32-bit number; 0x8000_0000 is absent. */
  function ReadUInt32(bus: Bus, address: int, unit: int): (r: Result<Option<nat>, Error>)
    ensures r == Failure(UnitAssertion) <==> !ValidUnit(unit)
    ensures r == Failure(DeviceExceptionError) <==> ValidUnit(unit) && bus(Request(address, 2, unit)) == ExceptionReply
    ensures r == Failure(TransportError) <==> ValidUnit(unit) && bus(Request(address, 2, unit)) == NoReply
    ensures r == Failure(MalformedResponse) <==> ValidUnit(unit) && bus(Request(address, 2, unit)).Registers? && |bus(Request(address, 2, unit)).words| < 2
    ensures r.Success? && r.value.Some? ==> r.value.value < 0x1_0000_0000 && r.value.value != Absent32
  {
    ReadUnsigned(bus, address, unit, 2, Absent32)
  }

  /** Four registers as an unsigned 64-bit number; 0x8000_0000_0000_0000 is absent. */
  function ReadUInt64(bus: Bus, address: int, unit: int): (r: Result<Option<nat>, Error>)
    ensures r == Failure(UnitAssertion) <==> !ValidUnit(unit)
    ensures r == Failure(DeviceExceptionError) <==> ValidUnit(unit) && bus(Request(address, 4, unit)) == ExceptionReply
    ensures r == Failure(TransportError) <==> ValidUnit(unit) && bus(Request(address, 4, unit)) == NoReply
    ensures r == Failure(MalformedResponse) <==> ValidUnit(unit) && bus(Request(address, 4, unit)).Registers? && |bus(Request(address, 4, unit)).words| < 4
    ensures r.Success? && r.value.Some? ==> r.value.value < 0x1_0000_0000_0000_0000 && r.value.value != Absent64
  {
    ReadUnsigned(bus, address, unit, 4, Absent64)
  }

  /** A device whose `count` registers hold `ws` reads back as their
      big-endian value, or as absence exactly when that value is the
      sentinel. */
  lemma ReadUnsignedRoundTrip(ws: seq<Word>, count: nat, sentinel: nat, address: int, unit: int)
    requires |ws| == count && ValidUnit(unit)
    ensures ReadUnsigned(Answering(ws), address, unit, count, sentinel)
            == Success(if ValueOf(ws) == sentinel then None else Some(ValueOf(ws)))
  {
    assert ws[..count] == ws;
  }

  /** Encoding a value into `count` registers and reading it back gives the
      value, or absence exactly when it is the sentinel. */
  lemma ReadUnsignedOfEncoding(v: nat, count: nat, sentinel: nat, address: int, unit: int)
    requires v < WordPow(count) && ValidUnit(unit)
    ensures ReadUnsigned(Answering(WordsOf(v, count)), address, unit, count, sentinel)
            == Success(if v == sentinel then None else Some(v))
  {
    ReadUnsignedRoundTrip(WordsOf(v, count), count, sentinel, address, unit);
  }

  /** A present value read from a device pins down the registers it came
      from: they are the big-endian words of that value. */
  lemma ReadUnsignedDeterminesRegisters(bus: Bus, address: int, unit: int, count: nat, sentinel: nat)
    requires ReadUnsigned(bus, address, unit, count, sentinel).Success?
    ensures bus(Request(address, count, unit)).Registers?
    ensures var ws := bus(Request(address, count, unit)).words;
            var r := ReadUnsigned(bus, address, unit, count, sentinel).value;
            |ws| >= count
            && (r.Some? ==> ws[..count] == WordsOf(r.value, count))
            && (r.None? && sentinel < WordPow(count) ==> ws[..count] == WordsOf(sentinel, count))
  {
    var ws := bus(Request(address, count, unit)).words;
    WordsOfValueOf(ws[..count]);
  }

  /** The three numeric reads, written out for their widths. */
  lemma ReadUInt16RoundTrip(w: Word, address: int, unit: int)
    requires ValidUnit(unit)
    ensures ReadUInt16(Answering([w]), address, unit) == Success(if w == 0xFFFF then None else Some(w))
  {
    assert ValueOf([w]) == w by { assert [w][..0] == []; }
    ReadUnsignedRoundTrip([w], 1, Absent16, address, unit);
  }

  lemma ReadUInt32RoundTrip(hi: Word, lo: Word, address: int, unit: int)
    requires ValidUnit(unit)
    ensures var v := hi * 0x1_0000 + lo;
            ReadUInt32(Answering([hi, lo]), address, unit) == Success(if v == 0x8000_0000 then None else Some(v))
  {
    ValueOfTwo(hi, lo);
    ReadUnsignedRoundTrip([hi, lo], 2, Absent32, address, unit);
  }

  lemma ReadUInt64RoundTrip(w0: Word, w1: Word, w2: Word, w3: Word, address: int, unit: int)
    requires ValidUnit(unit)
    ensures var v := w0 * 0x1_0000_0000_0000 + w1 * 0x1_0000_0000 + w2 * 0x1_0000 + w3;
            ReadUInt64(Answering([w0, w1, w2, w3]), address, unit)
            == Success(if v == 0x8000_0000_0000_0000 then None else Some(v))
  {
    var ws := [w0, w1, w2, w3];
    ValueOfTwo(w0, w1);
    ValueOfTwo(w2, w3);
    assert ws == [w0, w1] + [w2, w3];
    ValueOfAppend([w0, w1], [w2, w3]);
    assert WordPow(2) == 0x1_0000_0000;
    ReadUnsignedRoundTrip(ws, 4, Absent64, address, unit);
  }

  // ------------------------------------------------------------------ writes

  /** A 16-bit write: the unit-id check, then the value packed into one
      register; a value that does not fit 16 bits cannot be packed. */
  function WriteUInt16(address: int, unit: int, value: int): (r: Result<WriteRequest, Error>)
    ensures r == Failure(UnitAssertion) <==> !ValidUnit(unit)
    ensures r == Failure(ValueOutOfRange) <==> ValidUnit(unit) && !(0 <= value < 0x1_0000)
    ensures r.Success? ==> r.value.address == address && r.value.unit == unit && |r.value.words| == 1
  {
    if !ValidUnit(unit) then Failure(UnitAssertion)
    else if !(0 <= value < 0x1_0000) then Failure(ValueOutOfRange)
    else Success(WriteRequest(address, [value], unit))
  }

  /** What a 16-bit write stores reads back with the 16-bit read. */
  lemma WriteThenReadUInt16(address: int, unit: int, value: int)
    requires WriteUInt16(address, unit, value).Success?
    ensures ReadUInt16(Answering(WriteUInt16(address, unit, value).value.words), address, unit)
            == Success(if value == 0xFFFF then None else Some(value))
  {
    assert WriteUInt16(address, unit, value).value.words == [value];
    ReadUInt16RoundTrip(value, address, unit);
  }

  // ------------------------------------------------------------------- float

  /** An IEEE-754 single-precision bit pattern is NaN when its exponent
      field is all ones and its fraction is not zero. */
  function IsNaN32(bits: nat): (r: bool)
    ensures bits < 0x1_0000_0000 ==> (r <==> bits % 0x8000_0000 > 0x7F80_0000)
  {
    NaNAboveInfinity(bits);
    (bits / 0x80_0000) % 0x100 == 0xFF && bits % 0x80_0000 != 0
  }

  /** Below the sign bit, a pattern is NaN exactly when it is above the
      pattern of infinity. */
  lemma NaNAboveInfinity(bits: nat)
    ensures bits < 0x1_0000_0000 ==>
              ((bits / 0x80_0000) % 0x100 == 0xFF && bits % 0x80_0000 != 0 <==> bits % 0x8000_0000 > 0x7F80_0000)
  {
    var low := bits % 0x8000_0000;
    var e := (bits / 0x80_0000) % 0x100;
    var f := bits % 0x80_0000;
    assert low == e * 0x80_0000 + f by {
      DivMod(bits, 0x8000_0000);
      DivMod(bits, 0x80_0000);
      DivMod(bits / 0x80_0000, 0x100);
      assert bits / 0x8000_0000 == (bits / 0x80_0000) / 0x100;
    }
  }

  /** A 32-bit float read, kept as its raw bit pattern (high word first);
      a NaN pattern is absent. */
  function ReadFloat32Bits(bus: Bus, address: int, unit: int): (r: Result<Option<nat>, Error>)
    ensures r == Failure(UnitAssertion) <==> !ValidUnit(unit)
    ensures r == Failure(DeviceExceptionError) <==> ValidUnit(unit) && bus(Request(address, 2, unit)) == ExceptionReply
    ensures r == Failure(TransportError) <==> ValidUnit(unit) && bus(Request(address, 2, unit)) == NoReply
    ensures r.Success? ==> bus(Request(address, 2, unit)).Registers?
    ensures r.Success? && r.value.Some? ==> r.value.value < 0x1_0000_0000 && !IsNaN32(r.value.value)
    ensures r.Success? ==>
              var ws := bus(Request(address, 2, unit)).words;
              && |ws| >= 2
              && (r.value.None? <==> IsNaN32(ValueOf(ws[..2])))
              && (r.value.Some? ==> r.value.value == ValueOf(ws[..2]))
    ensures ValidUnit(unit) && bus(Request(address, 2, unit)).Registers? ==>
              (r == Failure(MalformedResponse) <==> |bus(Request(address, 2, unit)).words| < 2)
  {
    if !ValidUnit(unit) then Failure(UnitAssertion)
    else
      match Fetch(bus, address, 2, unit)
      case Failure(e) => Failure(e)
      case Success(ws) =>
        if |ws| < 2 then Failure(MalformedResponse)
        else
          var bits := ValueOf(ws[..2]);
          if IsNaN32(bits) then Success(None) else Success(Some(bits))
  }

  /** Two registers read as their 32-bit pattern, high register first, or
      as absence exactly when that pattern is a NaN. */
  lemma ReadFloat32RoundTrip(hi: Word, lo: Word, address: int, unit: int)
    requires ValidUnit(unit)
    ensures var bits := hi * 0x1_0000 + lo;
            ReadFloat32Bits(Answering([hi, lo]), address, unit) == Success(if IsNaN32(bits) then None else Some(bits))
  {
    ValueOfTwo(hi, lo);
    assert [hi, lo][..2] == [hi, lo];
  }

  /** Infinities are values, not absence; the canonical quiet NaN is absence. */
  lemma Float32Specials(address: int, unit: int)
    requires ValidUnit(unit)
    ensures ReadFloat32Bits(Answering([0x7F80, 0]), address, unit) == Success(Some(0x7F80_0000))
    ensures ReadFloat32Bits(Answering([0xFF80, 0]), address, unit) == Success(Some(0xFF80_0000))
    ensures ReadFloat32Bits(Answering([0x7FC0, 0]), address, unit) == Success(None)
  {
    ValueOfTwo(0x7F80, 0);
    ValueOfTwo(0xFF80, 0);
    ValueOfTwo(0x7FC0, 0);
    assert [0x7F80, 0][..2] == [0x7F80, 0];
    assert [0xFF80, 0][..2] == [0xFF80, 0];
    assert [0x7FC0, 0][..2] == [0x7FC0, 0];
  }

  // -------------------------------------------------------------------- text

  function Min(a: int, b: int): int
  {
    if a <= b then a else b
  }

  function Max(a: int, b: int): int
  {
    if a <= b then b else a
  }

  /** Every byte is the NUL byte (vacuously so for no bytes). */
  predicate AllNul(bs: seq<Byte>)
  {
    forall i :: 0 <= i < |bs| ==> bs[i] == 0
  }

  /** n NUL bytes. */
  function Nuls(n: nat): (bs: seq<Byte>)
    ensures |bs| == n && AllNul(bs)
  {
    seq(n, i => 0)
  }

  /** `bs` with every NUL byte removed, wherever it stands; the other bytes
      keep their order and multiplicity. */
  function DropNul(bs: seq<Byte>): (r: seq<Byte>)
    ensures forall i :: 0 <= i < |r| ==> r[i] != 0
    ensures |r| <= |bs|
    ensures |r| == 0 <==> AllNul(bs)
  {
    if |bs| == 0 then []
    else
      var rest := DropNul(bs[1..]);
      assert AllNul(bs) <==> bs[0] == 0 && AllNul(bs[1..]);
      (if bs[0] == 0 then [] else [bs[0]]) + rest
  }

  /** Removing NULs keeps every other byte as often as it occurred. */
  lemma {:induction false} DropNulMultiset(bs: seq<Byte>)
    ensures multiset(DropNul(bs)) == multiset(bs)[0 := 0]
    decreases |bs|
  {
    if |bs| > 0 {
      DropNulMultiset(bs[1..]);
      assert bs == [bs[0]] + bs[1..];
      assert multiset(bs) == multiset{bs[0]} + multiset(bs[1..]);
    }
  }

  /** Removing NULs commutes with concatenation: it works byte by byte. */
  lemma {:induction false} DropNulAppend(a: seq<Byte>, b: seq<Byte>)
    ensures DropNul(a + b) == DropNul(a) + DropNul(b)
    decreases |a|
  {
    if |a| > 0 {
      assert (a + b)[1..] == a[1..] + b;
      DropNulAppend(a[1..], b);
    } else {
      assert a + b == b;
    }
  }

  /** Bytes with no NUL among them pass through unchanged. */
  lemma {:induction false} DropNulKeeps(bs: seq<Byte>)
    requires forall i :: 0 <= i < |bs| ==> bs[i] != 0
    ensures DropNul(bs) == bs
    decreases |bs|
  {
    if |bs| > 0 {
      DropNulKeeps(bs[1..]);
      assert bs == [bs[0]] + bs[1..];
    }
  }

  /** The bytes a string read looks at: the register payload cut to the
      string length (shorter when fewer registers came back). */
  function Payload(ws: seq<Word>, length: nat): (p: seq<Byte>)
    ensures |p| == Min(length, 2 * |ws|)
    ensures forall i :: 0 <= i < |p| ==> p[i] == if i % 2 == 0 then ws[i / 2] / 0x100 else ws[i / 2] % 0x100
  {
    BytesOfAt(ws);
    BytesOf(ws)[..Min(length, 2 * |ws|)]
  }

  /** A string decode: absent when every payload byte is NUL, otherwise the
      payload with all NUL bytes removed. */
  function DecodeText(ws: seq<Word>, length: nat): (r: Option<seq<Byte>>)
    ensures r.None? <==> AllNul(Payload(ws, length))
    ensures r.Some? ==> 0 < |r.value| <= length && forall i :: 0 <= i < |r.value| ==> r.value[i] != 0
    ensures r.Some? ==> r.value == DropNul(Payload(ws, length))
  {
    var p := Payload(ws, length);
    if AllNul(p) then None else Some(DropNul(p))
  }

  /** The string decode as the source writes it: the absence test compares
      each payload element, an integer, with a one-character string, which
      is never equal, so only an empty payload is absent. */
  function DecodeTextAsWritten(ws: seq<Word>, length: nat): (r: Option<seq<Byte>>)
    ensures r.None? <==> |Payload(ws, length)| == 0
    ensures r.Some? ==> forall i :: 0 <= i < |r.value| ==> r.value[i] != 0
  {
    var p := Payload(ws, length);
    if |p| == 0 then None else Some(DropNul(p))
  }

  /** The decode as written and the intended decode differ exactly on a
      non-empty payload of NUL bytes, which as written is the empty string
      and as intended is absent. */
  lemma TextDecodesAgree(ws: seq<Word>, length: nat)
    ensures var p := Payload(ws, length);
            DecodeTextAsWritten(ws, length) != DecodeText(ws, length) <==> |p| > 0 && AllNul(p)
    ensures DecodeTextAsWritten(ws, length) != DecodeText(ws, length) ==>
              DecodeTextAsWritten(ws, length) == Some([]) && DecodeText(ws, length) == None
  {
  }

  /** As written, a payload of NUL bytes comes back as the empty string
      instead of absence; the intended decode reports absence. */
  lemma NulPayloadAsWritten(ws: seq<Word>, length: nat)
    requires |ws| > 0 && length > 0 && forall i :: 0 <= i < |ws| ==> ws[i] == 0
    ensures DecodeTextAsWritten(ws, length) == Some([])
    ensures DecodeText(ws, length) == None
  {
    var p := Payload(ws, length);
    assert AllNul(p) by {
      forall i | 0 <= i < |p|
        ensures p[i] == 0
      {
        BytesOfZero(ws, i);
      }
    }
  }

  /** Every byte of the payload of NUL registers is NUL. */
  lemma {:induction false} BytesOfZero(ws: seq<Word>, i: nat)
    requires forall j :: 0 <= j < |ws| ==> ws[j] == 0
    requires i < 2 * |ws|
    ensures BytesOf(ws)[i] == 0
    decreases |ws|
  {
    if i >= 2 {
      BytesOfZero(ws[1..], i - 2);
    }
  }

  /** A string read: one read of `count` registers, then the decode. There
      is no unit-id check on this path, and a short reply is not an error. */
  function ReadText(bus: Bus, address: int, count: nat, unit: int, length: nat): (r: Result<Option<seq<Byte>>, Error>)
    ensures r.Failure? <==> !bus(Request(address, count, unit)).Registers?
    ensures r.Failure? ==> r.error == TransportError || r.error == DeviceExceptionError
    ensures r == Failure(DeviceExceptionError) <==> bus(Request(address, count, unit)) == ExceptionReply
    ensures r == Failure(TransportError) <==> bus(Request(address, count, unit)) == NoReply
    ensures r.Success? ==> r.value == DecodeText(bus(Request(address, count, unit)).words, length)
  {
    match Fetch(bus, address, count, unit)
    case Failure(e) => Failure(e)
    case Success(ws) => Success(DecodeText(ws, length))
  }

  /** A device whose registers hold `ws` reads as the decode of `ws`, for
      any unit. */
  lemma ReadTextOfRegisters(ws: seq<Word>, address: int, unit: int, length: nat)
    ensures ReadText(Answering(ws), address, |ws|, unit, length) == Success(DecodeText(ws, length))
  {
  }

  /** The registers a string write sends: the bytes padded with NUL up to
      20, never truncated, then padded to an even count. */
  function EncodeText(s: seq<Byte>): (ws: seq<Word>)
    ensures |ws| == Max(WrittenTextLength, |s| + |s| % 2) / 2
    ensures BytesOf(ws)[..|s|] == s
    ensures AllNul(BytesOf(ws)[|s|..])
  {
    var padded := s + Nuls(Max(0, WrittenTextLength - |s|));
    var even := padded + Nuls(|padded| % 2);
    assert even[..|s|] == s;
    assert even[|s|..] == Nuls(Max(0, WrittenTextLength - |s|)) + Nuls(|padded| % 2);
    WordsOfBytes(even)
  }

  /** A string write: the padded registers for `address` of `unit`; like the
      string read it has no unit-id check. */
  function WriteText(address: int, unit: int, s: seq<Byte>): (r: WriteRequest)
    ensures r.address == address && r.unit == unit && |r.words| >= 10
    ensures r.words == EncodeText(s)
  {
    WriteRequest(address, EncodeText(s), unit)
  }

  /** What a string write stores reads back unchanged, for a non-empty
      string without NUL bytes and any read length that covers it. */
  lemma TextRoundTrip(s: seq<Byte>, length: nat)
    requires |s| > 0 && forall i :: 0 <= i < |s| ==> s[i] != 0
    requires |s| <= length
    ensures DecodeText(EncodeText(s), length) == Some(s)
  {
    var ws := EncodeText(s);
    var k := Min(length, 2 * |ws|);
    var p := Payload(ws, length);
    assert |s| <= k;
    var tail := SplitAtString(BytesOf(ws), s, k);
    assert p == s + tail;
    assert p[0] != 0;
    assert !AllNul(p);
    DropNulAppend(s, tail);
    DropNulKeeps(s);
    assert DropNul(tail) == [];
    assert DropNul(p) == s;
  }

  /** A payload that starts with `s` and has only NULs after it, cut anywhere
      past `s`, is `s` followed by NULs. */
  lemma SplitAtString(bs: seq<Byte>, s: seq<Byte>, k: nat) returns (tail: seq<Byte>)
    requires |s| <= k <= |bs|
    requires bs[..|s|] == s && AllNul(bs[|s|..])
    ensures bs[..k] == s + tail && AllNul(tail)
  {
    tail := bs[|s|..k];
    assert bs[..k] == bs[..|s|] + bs[|s|..k];
    forall i | 0 <= i < |tail|
      ensures tail[i] == 0
    {
      assert tail[i] == bs[|s|..][i];
    }
  }

  /** Embedded NULs are removed, not only trailing ones: the payload
      "AB", NUL, NUL, "CD" decodes as "ABCD". */
  lemma EmbeddedNulExample()
    ensures DecodeText([0x4142, 0x0000, 0x4344], 6) == Some([0x41, 0x42, 0x43, 0x44])
  {
    var ws: seq<Word> := [0x4142, 0x0000, 0x4344];
    var p: seq<Byte> := [0x41, 0x42, 0, 0, 0x43, 0x44];
    ExampleBytes();
    assert Payload(ws, 6) == p;
    assert p[0] != 0;
    DropNulBetween(0x41, 0x42, 0x43, 0x44);
  }

  lemma ExampleBytes()
    ensures BytesOf([0x4142, 0x0000, 0x4344]) == [0x41, 0x42, 0, 0, 0x43, 0x44]
  {
    assert ByteSplit(0x4142) == [0x41, 0x42];
    assert ByteSplit(0) == [0, 0];
    assert ByteSplit(0x4344) == [0x43, 0x44];
    BytesOfCons(0x4344, []);
    BytesOfCons(0, [0x4344]);
    BytesOfCons(0x4142, [0, 0x4344]);
  }

  lemma DropNulBetween(a: Byte, b: Byte, c: Byte, d: Byte)
    requires a != 0 && b != 0 && c != 0 && d != 0
    ensures DropNul([a, b, 0, 0, c, d]) == [a, b, c, d]
  {
    var z: seq<Byte> := [0, 0];
    assert [a, b, 0, 0, c, d] == [a, b] + z + [c, d];
    DropNulAppend([a, b] + z, [c, d]);
    DropNulAppend([a, b], z);
    DropNulKeeps([a, b]);
    DropNulKeeps([c, d]);
    assert AllNul(z);
  }
}
