/**
 * The Node-RED function node that turns the raw bytes of the Bluetooth
 * Health Thermometer "Temperature Measurement" characteristic (UUID 0x2A1C)
 * into a measurement record.
 *
 * Byte 0 holds the unit flag, bytes 1..3 a little-endian mantissa, byte 4 a
 * base-10 exponent and byte 5 the body location.  The model follows the code,
 * not the IEEE 11073 FLOAT format it is meant to read: the mantissa is taken
 * unsigned, and an exponent byte whose top bit is clear is ignored.  The code
 * does not check the frame's length; reads past the end give JavaScript's
 * `undefined`, and the model says what each field then becomes.
 */
module Temperature {
  import opened Options

  /** An element of the characteristic's data array: a number 0..255. */
  type Byte = x: int | 0 <= x < 256

  /** The capture time, supplied by the caller in place of `new Date()`. */
  type Timestamp = int

  datatype Unit = Celsius | Fahrenheit

  /** The two body locations this decoder recognises. */
  datatype Location = Mouth | Finger

  /** The exact number mantissa × 10^exponent, kept as the pair. */
  datatype Decimal = Decimal(mantissa: int, exponent: int)

  /**
   * The output record.  `location` is None when the field is left unset;
   * `value` is None when the arithmetic yields NaN (serialised as null).
   */
  datatype Measurement = Measurement(
    time: Timestamp,
    units: Unit,
    location: Option<Location>,
    value: Option<Decimal>)

  // ---------------------------------------------------------------------
  // JavaScript semantics of reading the data array
  // ---------------------------------------------------------------------

  /** `arrObj[i]` compared with `===`: undefined past the end. */
  function ByteAt(frame: seq<Byte>, i: nat): Option<Byte>
  {
    if i < |frame| then Some(frame[i]) else None
  }

  /** `arrObj[i]` as the operand of `&` or `^`: undefined converts to 0. */
  function BitOperand(frame: seq<Byte>, i: nat): bv8
  {
    if i < |frame| then frame[i] as bv8 else 0
  }

  /** A number this code can compute: an integer, or NaN from arithmetic on undefined. */
  datatype JsNumber = NaN | Num(n: int)

  /** `arrObj[i]` as an arithmetic operand. */
  function NumberAt(frame: seq<Byte>, i: nat): JsNumber
  {
    if i < |frame| then Num(frame[i]) else NaN
  }

  function Plus(a: JsNumber, b: JsNumber): JsNumber
  {
    if a.Num? && b.Num? then Num(a.n + b.n) else NaN
  }

  function Times(a: JsNumber, k: int): JsNumber
  {
    if a.Num? then Num(a.n * k) else NaN
  }

  // ---------------------------------------------------------------------
  // Specification of each field
  // ---------------------------------------------------------------------

  /** Bit 0 of the flags byte selects Fahrenheit. */
  function UnitOf(frame: seq<Byte>): (u: Unit)
  {
    if |frame| > 0 && frame[0] % 2 == 1 then Fahrenheit else Celsius
  }

  /** Byte 5: 6 is the mouth, 4 a finger; any other code leaves the field unset. */
  function LocationOf(frame: seq<Byte>): (l: Option<Location>)
  {
    if |frame| < 6 then None
    else if frame[5] == 6 then Some(Mouth)
    else if frame[5] == 4 then Some(Finger)
    else None
  }

  /** Bytes 1..3, least significant first, read as an unsigned number. */
  function Mantissa(frame: seq<Byte>): (m: nat)
    requires |frame| >= 4
    ensures m < 0x100_0000
  {
    frame[1] as int + 256 * (frame[2] as int) + 65536 * (frame[3] as int)
  }

  /** A byte read as an 8-bit two's-complement integer. */
  function SignedByte(b: Byte): (r: int)
    ensures -128 <= r < 128
    ensures r % 256 == b
  {
    if b < 0x80 then b else b as int - 256
  }

  /** Byte 4 counts only when it is negative; otherwise the exponent is 0. */
  function Exponent(frame: seq<Byte>): (e: int)
  {
    if |frame| >= 5 && SignedByte(frame[4]) < 0 then SignedByte(frame[4]) else 0
  }

  /** The record the function node builds for `frame` at time `now`. */
  function Decode(frame: seq<Byte>, now: Timestamp): (m: Measurement)
  {
    Measurement(
      now,
      UnitOf(frame),
      LocationOf(frame),
      if |frame| >= 4 then Some(Decimal(Mantissa(frame), Exponent(frame))) else None)
  }

  /** 10^e as an exact rational, for negative e too. */
  function Pow10(e: int): (p: real)
    ensures p > 0.0
    decreases if e < 0 then -e else e
  {
    if e == 0 then 1.0
    else if e > 0 then 10.0 * Pow10(e - 1)
    else Pow10(e + 1) / 10.0
  }

  /** The exact value of a decoded pair; the code computes it in floating point. */
  function ValueOf(d: Decimal): real
  {
    d.mantissa as real * Pow10(d.exponent)
  }

  /** Raising the exponent by one multiplies by ten, for negative exponents too. */
  lemma {:induction false} Pow10Step(e: int)
    ensures Pow10(e + 1) == 10.0 * Pow10(e)
  {
    if e < 0 {
      assert Pow10(e) == Pow10(e + 1) / 10.0;
    }
  }

  /** 10^e and 10^-e are reciprocal. */
  lemma {:induction false} Pow10Reciprocal(e: int)
    ensures Pow10(e) * Pow10(-e) == 1.0
    decreases if e < 0 then -e else e
  {
    if e > 0 {
      Pow10Reciprocal(e - 1);
      Pow10Step(e - 1);
      Pow10Step(-e);
    } else if e < 0 {
      Pow10Reciprocal(e + 1);
      Pow10Step(e);
      Pow10Step(-e - 1);
    }
  }

  // ---------------------------------------------------------------------
  // The function node
  // ---------------------------------------------------------------------

  /**
   * The body of the function node: the record is filled field by field,
   * the mantissa and the exponent are rebuilt step by step as in the code.
   */
  method FromBinaryToText(frame: seq<Byte>, now: Timestamp) returns (rec: Measurement)
    ensures rec == Decode(frame, now)
  {
    var units := if BitOperand(frame, 0) & 1 == 1 then Fahrenheit else Celsius;
    assert units == UnitOf(frame) by {
      if |frame| > 0 {
        LowBit(frame[0]);
      }
    }

    var location: Option<Location> := None;
    if ByteAt(frame, 5) == Some(6) {
      location := Some(Mouth);
    } else if ByteAt(frame, 5) == Some(4) {
      location := Some(Finger);
    }

    var numericValue := NumberAt(frame, 1);
    numericValue := Plus(Times(NumberAt(frame, 2), 256), numericValue);
    numericValue := Plus(Times(Times(NumberAt(frame, 3), 256), 256), numericValue);

    var exponent := 0;
    if BitOperand(frame, 4) & 0x80 != 0 {
      exponent := (BitOperand(frame, 4) ^ 0xFF) as int;
      exponent := exponent + 1;
      exponent := exponent * -1;
    }
    assert exponent == Exponent(frame) by {
      if |frame| >= 5 {
        FlipAndAddOne(frame[4]);
      }
    }

    var value := if numericValue.Num? then Some(Decimal(numericValue.n, exponent)) else None;
    rec := Measurement(now, units, location, value);
  }

  /** The characteristic's UUID, the key the data array is looked up under. */
  const TemperatureCharacteristic := "2a1c"

  /**
   * A payload either still holds the characteristics read from the sensor,
   * keyed by UUID, or has been replaced by the decoded record.
   */
  datatype Payload =
    | Characteristics(data: map<string, seq<Byte>>)
    | Record(measurement: Measurement)

  /** The message passed between Node-RED nodes. */
  class Message {
    var payload: Payload

    constructor (p: Payload)
      ensures payload == p
    {
      payload := p;
    }
  }

  /**
   * Runs the node on `msg`: the payload is replaced by the decoded record.
   * When the payload has no temperature characteristic the code throws and
   * the message is left as it was.
   */
  method RunFunctionNode(msg: Message, now: Timestamp) returns (ok: bool)
    modifies msg
    ensures ok <==> old(msg.payload).Characteristics? && TemperatureCharacteristic in old(msg.payload).data
    ensures ok ==> msg.payload == Record(Decode(old(msg.payload).data[TemperatureCharacteristic], now))
    ensures !ok ==> msg.payload == old(msg.payload)
  {
    if !(msg.payload.Characteristics? && TemperatureCharacteristic in msg.payload.data) {
      return false;
    }
    var arrObj := msg.payload.data[TemperatureCharacteristic];
    var msgOutObject := FromBinaryToText(arrObj, now);
    msg.payload := Record(msgOutObject);
    ok := true;
  }

  // ---------------------------------------------------------------------
  // The bit operations of the code, in integer terms
  // ---------------------------------------------------------------------

  /** `b & 1` tests whether the byte is odd. */
  lemma LowBit(b: Byte)
    ensures (b as bv8) & 1 == 1 <==> b % 2 == 1
  {
  }

  /**
   * `b & 0x80` tests the sign bit, and flipping the bits of a negative byte,
   * adding one and negating gives its two's-complement value b - 256.
   */
  lemma FlipAndAddOne(b: Byte)
    ensures (b as bv8) & 0x80 != 0 <==> SignedByte(b) < 0
    ensures (b as bv8) & 0x80 != 0 ==> -((((b as bv8) ^ 0xFF) as int) + 1) == b as int - 256 == SignedByte(b)
  {
  }

  // ---------------------------------------------------------------------
  // Properties of the fields
  // ---------------------------------------------------------------------

  /**
   * Fahrenheit exactly when bit 0 of byte 0 is set; the other bits of the
   * flags byte have no effect, and a missing byte 0 reads as Celsius.
   */
  lemma UnitFromLowBit(frame: seq<Byte>, other: seq<Byte>)
    ensures UnitOf(frame) == Fahrenheit <==> |frame| > 0 && (frame[0] as bv8) & 1 == 1
    ensures |frame| > 0 && |other| > 0 && (frame[0] as bv8) & 1 == (other[0] as bv8) & 1
            ==> UnitOf(frame) == UnitOf(other)
  {
    if |frame| > 0 {
      LowBit(frame[0]);
    }
    if |frame| > 0 && |other| > 0 {
      LowBit(other[0]);
    }
  }

  /** The location is set exactly for the codes 6 and 4, and is otherwise absent. */
  lemma LocationCodes(frame: seq<Byte>)
    ensures LocationOf(frame) == Some(Mouth) <==> |frame| >= 6 && frame[5] == 6
    ensures LocationOf(frame) == Some(Finger) <==> |frame| >= 6 && frame[5] == 4
    ensures LocationOf(frame).None? <==> |frame| < 6 || (frame[5] != 6 && frame[5] != 4)
  {
  }

  /** A little-endian unsigned number of any width, least significant byte first. */
  function LittleEndian(bytes: seq<Byte>): nat
  {
    if bytes == [] then 0 else bytes[0] + 256 * LittleEndian(bytes[1..])
  }

  /** The step-by-step assembly reads bytes 1..3 as one little-endian number. */
  lemma MantissaIsLittleEndian(frame: seq<Byte>)
    requires |frame| >= 4
    ensures Mantissa(frame) == LittleEndian(frame[1..4])
  {
    var bytes := frame[1..4];
    assert bytes[1..][1..][1..] == [];
    assert LittleEndian(bytes[1..][1..]) == frame[3];
    assert LittleEndian(bytes[1..]) == frame[2] as int + 256 * (frame[3] as int);
  }

  /**
   * Byte 4 with its top bit set gives its two's-complement value, which lies
   * in -128..-1; with the top bit clear, or no byte 4, the exponent is 0.
   */
  lemma ExponentDecoding(frame: seq<Byte>)
    ensures -128 <= Exponent(frame) <= 0
    ensures |frame| >= 5 && (frame[4] as bv8) & 0x80 != 0 ==> Exponent(frame) == frame[4] as int - 256
    ensures |frame| < 5 || (frame[4] as bv8) & 0x80 == 0 ==> Exponent(frame) == 0
  {
    if |frame| >= 5 {
      FlipAndAddOne(frame[4]);
    }
  }

  /** Only the first six bytes are read. */
  lemma OnlyFirstSixBytesRead(frame: seq<Byte>, other: seq<Byte>, now: Timestamp)
    requires |frame| >= 6 && |other| >= 6 && frame[..6] == other[..6]
    ensures Decode(frame, now) == Decode(other, now)
  {
    assert forall i | 0 <= i < 6 :: frame[i] == frame[..6][i] == other[..6][i] == other[i];
  }

  // ---------------------------------------------------------------------
  // Encoding: the frames this decoder reads back exactly
  // ---------------------------------------------------------------------

  /**
   * A six-byte frame for the given fields.  The mantissa must fit the 24
   * unsigned bits and the exponent must be one the decoder keeps (-128..0).
   */
  function EncodeFrame(units: Unit, location: Option<Location>, mantissa: nat, exponent: int): (frame: seq<Byte>)
    requires mantissa < 0x100_0000 && -128 <= exponent <= 0
    ensures |frame| == 6
  {
    [ if units == Fahrenheit then 1 else 0,
      mantissa % 256,
      (mantissa / 256) % 256,
      mantissa / 65536,
      if exponent < 0 then exponent + 256 else 0,
      match location
      case None => 0
      case Some(Mouth) => 6
      case Some(Finger) => 4 ]
  }

  /** Decoding an encoded frame gives back every field. */
  lemma DecodeEncode(units: Unit, location: Option<Location>, mantissa: nat, exponent: int, now: Timestamp)
    requires mantissa < 0x100_0000 && -128 <= exponent <= 0
    ensures Decode(EncodeFrame(units, location, mantissa, exponent), now)
         == Measurement(now, units, location, Some(Decimal(mantissa, exponent)))
  {
    var frame := EncodeFrame(units, location, mantissa, exponent);
    SplitBytes(mantissa);
    assert Mantissa(frame) == mantissa;
  }

  /** Splitting a 24-bit number into three bytes loses nothing. */
  lemma SplitBytes(m: nat)
    requires m < 0x100_0000
    ensures m % 256 + 256 * ((m / 256) % 256) + 65536 * (m / 65536) == m
  {
    assert m / 65536 == (m / 256) / 256;
  }

  /** Three bytes joined little-endian split back into the same bytes. */
  lemma JoinBytes(a: Byte, b: Byte, c: Byte)
    ensures var n := a + 256 * b + 65536 * c;
            n % 256 == a && (n / 256) % 256 == b && n / 65536 == c
  {
    var n := a + 256 * b + 65536 * c;
    DivMod256(n, b + 256 * c, a);
    DivMod256(b + 256 * c, c, b);
  }

  lemma DivMod256(n: int, q: int, r: int)
    requires n == 256 * q + r && 0 <= r < 256
    ensures n / 256 == q && n % 256 == r
  {
  }

  /** The frames EncodeFrame produces: exactly the six-byte frames that survive a decode-encode round trip. */
  predicate Canonical(frame: seq<Byte>)
  {
    && |frame| == 6
    && frame[0] <= 1
    && (frame[4] == 0 || frame[4] >= 0x80)
    && (frame[5] == 0 || frame[5] == 4 || frame[5] == 6)
  }

  /** Encoding what a canonical frame decodes to rebuilds the frame. */
  lemma EncodeDecode(frame: seq<Byte>, now: Timestamp)
    requires Canonical(frame)
    ensures var m := Decode(frame, now);
            EncodeFrame(m.units, m.location, m.value.value.mantissa, m.value.value.exponent) == frame
  {
    var m := Decode(frame, now);
    JoinBytes(frame[1], frame[2], frame[3]);
    var e := EncodeFrame(m.units, m.location, m.value.value.mantissa, m.value.value.exponent);
    assert e[1..4] == frame[1..4];
  }

  /** Conversely, a six-byte frame that its round trip rebuilds is canonical. */
  lemma RoundTripOnlyCanonical(frame: seq<Byte>, now: Timestamp)
    requires |frame| == 6
    requires var m := Decode(frame, now);
             EncodeFrame(m.units, m.location, m.value.value.mantissa, m.value.value.exponent) == frame
    ensures Canonical(frame)
  {
    var m := Decode(frame, now);
    ExponentDecoding(frame);
    var e := EncodeFrame(m.units, m.location, m.value.value.mantissa, m.value.value.exponent);
    assert e[0] == frame[0];
    assert e[4] == frame[4];
    assert e[5] == frame[5];
  }

  // ---------------------------------------------------------------------
  // Comparison with the IEEE 11073 32-bit FLOAT format
  // ---------------------------------------------------------------------

  /** The format's mantissa: bytes 1..3 as a 24-bit two's-complement integer. */
  function StandardMantissa(frame: seq<Byte>): (m: int)
    requires |frame| >= 4
    ensures -0x80_0000 <= m < 0x80_0000
    ensures m % 0x100_0000 == Mantissa(frame)
  {
    var u := Mantissa(frame);
    if u >= 0x80_0000 then u - 0x100_0000 else u
  }

  /**
   * The code reads the same pair as the format exactly when the mantissa's
   * sign bit is clear and the exponent byte is zero or negative.
   */
  lemma AgreesWithStandardIff(frame: seq<Byte>)
    requires |frame| >= 5
    ensures (Mantissa(frame) == StandardMantissa(frame) && Exponent(frame) == SignedByte(frame[4]))
        <==> (frame[3] < 0x80 && (frame[4] == 0 || frame[4] >= 0x80))
  {
    assert Mantissa(frame) >= 0x80_0000 <==> frame[3] >= 0x80;
  }

  // ---------------------------------------------------------------------
  // Worked frames
  // ---------------------------------------------------------------------

  /** 220 × 10^-1 = 22.0 Celsius, in the mouth. */
  lemma ExampleCelsiusMouth(now: Timestamp)
    ensures Decode([0x00, 0xDC, 0x00, 0x00, 0xFF, 0x06], now)
         == Measurement(now, Celsius, Some(Mouth), Some(Decimal(220, -1)))
    ensures ValueOf(Decimal(220, -1)) == 22.0
  {
  }

  /** 100 × 10^0 = 100.0 Fahrenheit, at a finger. */
  lemma ExampleFahrenheitFinger(now: Timestamp)
    ensures Decode([0x01, 0x64, 0x00, 0x00, 0x00, 0x04], now)
         == Measurement(now, Fahrenheit, Some(Finger), Some(Decimal(100, 0)))
    ensures ValueOf(Decimal(100, 0)) == 100.0
  {
  }

  /** 10 × 10^-2 = 0.1; location code 9 leaves the location unset. */
  lemma ExampleUnknownLocation(now: Timestamp)
    ensures Decode([0x00, 0x0A, 0x00, 0x00, 0xFE, 0x09], now)
         == Measurement(now, Celsius, None, Some(Decimal(10, -2)))
    ensures ValueOf(Decimal(10, -2)) == 0.1
  {
  }

  /** A positive exponent byte is dropped: 0x01 decodes as exponent 0, not 1. */
  lemma ExamplePositiveExponentDropped(now: Timestamp)
    ensures Decode([0x00, 0x16, 0x00, 0x00, 0x01, 0x06], now).value == Some(Decimal(22, 0))
  {
  }

  /**
   * A four-byte frame is not rejected: the location is unset, the exponent is
   * 0 and the value is the mantissa.  Three bytes or none give NaN.
   */
  lemma ExampleShortFrames(now: Timestamp)
    ensures Decode([0x01, 0x64, 0x00, 0x00], now) == Measurement(now, Fahrenheit, None, Some(Decimal(100, 0)))
    ensures Decode([0x01, 0x64, 0x00], now) == Measurement(now, Fahrenheit, None, None)
    ensures Decode([], now) == Measurement(now, Celsius, None, None)
  {
  }

  /**
   * The value is NaN exactly for the frames shorter than four bytes, and the
   * location is unset for every frame shorter than six.
   */
  lemma ShortFramesAreNaN(frame: seq<Byte>, now: Timestamp)
    ensures Decode(frame, now).value.None? <==> |frame| < 4
    ensures |frame| < 6 ==> Decode(frame, now).location.None?
  {
  }
}
