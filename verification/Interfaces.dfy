/** Validation shared by the peripheral handlers of src/interfaces, and the UART, SPI and I2C handlers. */
module Interfaces {
  import opened Bytes
  import opened Protocol
  import Base64

  /** The answer to a command, or a panic of the firmware. */
  datatype Outcome = Answer(response: Response) | Panic

  predicate Accepted(o: Outcome) {
    o.Answer? && o.response.ok
  }

  // ---- shared checks -------------------------------------------------------------------------

  function ValidateIndex(cmd: Command, field: Option<byte>, max: byte): Result<byte, Response> {
    match field
    case None => Err(ErrorResponse(cmd.id, MissingField))
    case Some(i) => if i > max then Err(ErrorResponse(cmd.id, ValueOutOfRange)) else Ok(i)
  }

  /** `decode_bytes`: decoding into the 512-byte payload buffer. */
  datatype Payload = Payload(bytes: seq<byte>) | Refused(response: Response) | Crashed

  function DecodeBytesOf(cmd: Command, field: Option<seq<byte>>): Payload {
    if field.None? || |field.value| == 0 then Refused(ErrorResponse(cmd.id, MissingField))
    else
      match Base64.DecodedInto(field.value, MAX_PAYLOAD_LEN)
      case Decoded(bytes) => Payload(bytes)
      case Malformed => Refused(ErrorResponse(cmd.id, InvalidEncoding))
      case Panic => Crashed
  }

  method DecodeBytes(cmd: Command, field: Option<seq<byte>>) returns (r: Payload)
    ensures r == DecodeBytesOf(cmd, field)
    ensures r.Payload? ==> |r.bytes| <= MAX_PAYLOAD_LEN
  {
    hide Base64.DecodedInto;
    if field.None? || |field.value| == 0 {
      return Refused(ErrorResponse(cmd.id, MissingField));
    }
    var buf := new byte[MAX_PAYLOAD_LEN](_ => 0);
    var n := Base64.Decode(field.value, buf);
    if n.Malformed? {
      return Refused(ErrorResponse(cmd.id, InvalidEncoding));
    } else if n.Panic? {
      return Crashed;
    }
    r := Payload(buf[..|n.bytes|]);
  }

  /** A payload text is usable exactly when it is non-empty alphabet text (padding aside) of at most 683
      characters, not 1 modulo 4 of them. */
  ghost predicate UsablePayload(field: Option<seq<byte>>) {
    && field.Some? && |field.value| > 0
    && var data := Base64.Stripped(field.value);
       Base64.Valid(data) && |data| % 4 != 1 && |data| <= 683
  }

  /** The missing length check: the buffer overruns exactly when at least 684 data characters are there and
      the first 684 are all in the alphabet. */
  ghost predicate OverlongPayload(field: Option<seq<byte>>) {
    && field.Some?
    && var data := Base64.Stripped(field.value);
       |data| >= 684 && Base64.Valid(data[..684])
  }

  lemma PayloadVerdict(cmd: Command, field: Option<seq<byte>>)
    ensures DecodeBytesOf(cmd, field).Payload? <==> UsablePayload(field)
    ensures DecodeBytesOf(cmd, field).Crashed? <==> OverlongPayload(field)
  {
    hide Base64.DecodedData, Base64.Valid;
    if field.Some? {
      var data := Base64.Stripped(field.value);
      Base64.DecodedIntoData(field.value, MAX_PAYLOAD_LEN);
      Base64.DecodeSucceedsIff(data, MAX_PAYLOAD_LEN);
      Base64.DecodePanicsIff(data, MAX_PAYLOAD_LEN);
      assert |data| <= |field.value|;
    }
  }

  /** A concrete payload that overruns the buffer: 684 characters that are all 'A'. */
  lemma OverlongExample(cmd: Command)
    ensures DecodeBytesOf(cmd, Some(seq(684, _ => 65))) == Crashed
  {
    var text := seq(684, _ => 65 as byte);
    hide Base64.DecodedInto;
    assert Base64.Stripped(text) == text && text[..684] == text;
    PayloadVerdict(cmd, Some(text));
  }

  /** Every payload buffer encodes within `MAX_B64_LEN`, and what it encodes to is accepted again. */
  lemma PayloadReencodes(cmd: Command, bytes: seq<byte>)
    requires 0 < |bytes| <= MAX_PAYLOAD_LEN
    ensures |Base64.Encoded(bytes)| <= MAX_B64_LEN
    ensures DecodeBytesOf(cmd, Some(Base64.Encoded(bytes))) == Payload(bytes)
  {
    hide Base64.Encoded, Base64.DecodedInto;
    Base64.EncodedSize(bytes);
    Base64.RoundTrip(bytes, MAX_PAYLOAD_LEN);
  }

  /** The common end of every write handler: configured, optional address, payload. */
  function WriteOutcome(cmd: Command, configured: bool, addressMissing: bool): Outcome {
    if !configured then Answer(ErrorResponse(cmd.id, NotConfigured))
    else if addressMissing then Answer(ErrorResponse(cmd.id, MissingField))
    else
      match DecodeBytesOf(cmd, cmd.bytes)
      case Payload(_) => Answer(OkResponse(cmd.id, None))
      case Refused(r) => Answer(r)
      case Crashed => Panic
  }

  // ---- UART ----------------------------------------------------------------------------------

  datatype Parity = NoParity | Odd | Even

  datatype UartConfig = UartConfig(baud: u32, dataBits: byte, parity: Parity, stopBits: byte, configured: bool)

  const UART_DEFAULT := UartConfig(115200, 8, NoParity, 1, false)

  predicate UartInRange(c: UartConfig) {
    c.baud > 0 && (c.dataBits == 7 || c.dataBits == 8) && (c.stopBits == 1 || c.stopBits == 2)
  }

  function UartConfigure(cmd: Command): Result<UartConfig, Response> {
    var idx := ValidateIndex(cmd, cmd.uart, 1);
    if idx.Err? then Err(idx.error)
    else if cmd.baud.None? then Err(ErrorResponse(cmd.id, MissingField))
    else if cmd.baud.value == 0 then Err(ErrorResponse(cmd.id, ValueOutOfRange))
    else if cmd.dataBits.Some? && cmd.dataBits.value != 7 && cmd.dataBits.value != 8 then
      Err(ErrorResponse(cmd.id, ValueOutOfRange))
    else
      var parity := if cmd.parity.None? || cmd.parity.value == "none" then Some(NoParity)
                    else if cmd.parity.value == "odd" then Some(Odd)
                    else if cmd.parity.value == "even" then Some(Even)
                    else None;
      if parity.None? then Err(ErrorResponse(cmd.id, ValueOutOfRange))
      else if cmd.stopBits.Some? && cmd.stopBits.value != 1 && cmd.stopBits.value != 2 then
        Err(ErrorResponse(cmd.id, ValueOutOfRange))
      else
        Ok(UartConfig(cmd.baud.value, if cmd.dataBits.Some? then cmd.dataBits.value else 8, parity.value,
                      if cmd.stopBits.Some? then cmd.stopBits.value else 1, true))
  }

  function UartWrite(cmd: Command, configured: bool): Outcome {
    WriteOutcome(cmd, configured, false)
  }

  // ---- SPI -----------------------------------------------------------------------------------

  datatype SpiConfig = SpiConfig(freqHz: u32, cpol: byte, cpha: byte, configured: bool)

  const SPI_DEFAULT := SpiConfig(1000000, 0, 0, false)

  predicate SpiInRange(c: SpiConfig) {
    c.freqHz > 0 && c.cpol <= 1 && c.cpha <= 1
  }

  function SpiConfigure(cmd: Command): Result<SpiConfig, Response> {
    var idx := ValidateIndex(cmd, cmd.spi, 1);
    if idx.Err? then Err(idx.error)
    else if cmd.freqHz.None? then Err(ErrorResponse(cmd.id, MissingField))
    else if cmd.freqHz.value == 0 then Err(ErrorResponse(cmd.id, ValueOutOfRange))
    else if cmd.cpol.Some? && cmd.cpol.value > 1 then Err(ErrorResponse(cmd.id, ValueOutOfRange))
    else if cmd.cpha.Some? && cmd.cpha.value > 1 then Err(ErrorResponse(cmd.id, ValueOutOfRange))
    else
      Ok(SpiConfig(cmd.freqHz.value, if cmd.cpol.Some? then cmd.cpol.value else 0,
                   if cmd.cpha.Some? then cmd.cpha.value else 0, true))
  }

  function SpiWrite(cmd: Command, configured: bool): Outcome {
    WriteOutcome(cmd, configured, false)
  }

  // ---- I2C -----------------------------------------------------------------------------------

  datatype I2cConfig = I2cConfig(freqHz: u32, configured: bool)

  const I2C_DEFAULT := I2cConfig(100000, false)

  predicate I2cInRange(c: I2cConfig) {
    c.freqHz == 100000 || c.freqHz == 400000
  }

  function I2cConfigure(cmd: Command): Result<I2cConfig, Response> {
    var idx := ValidateIndex(cmd, cmd.i2c, 1);
    if idx.Err? then Err(idx.error)
    else if cmd.freqHz.None? then Err(ErrorResponse(cmd.id, MissingField))
    else if cmd.freqHz.value != 100000 && cmd.freqHz.value != 400000 then
      Err(ErrorResponse(cmd.id, ValueOutOfRange))
    else Ok(I2cConfig(cmd.freqHz.value, true))
  }

  function I2cWrite(cmd: Command, configured: bool): Outcome {
    WriteOutcome(cmd, configured, cmd.addr.None?)
  }

  // ---- GPIO, PWM, ADC and USB: validation only, no state --------------------------------------

  const RESERVED_PINS: seq<byte> := [23, 24, 25, 26, 27, 28, 29]

  predicate PinAvailable(pin: byte) {
    pin <= 29 && pin !in RESERVED_PINS
  }

  function GpioSetMode(cmd: Command): Response {
    if cmd.pin.None? then ErrorResponse(cmd.id, MissingField)
    else if !PinAvailable(cmd.pin.value) then ErrorResponse(cmd.id, InvalidPin)
    else if cmd.mode.None? then ErrorResponse(cmd.id, MissingField)
    else if cmd.mode.value != "input" && cmd.mode.value != "output" then ErrorResponse(cmd.id, ValueOutOfRange)
    else if cmd.pull.Some? && cmd.pull.value != "up" && cmd.pull.value != "down" && cmd.pull.value != "none" then
      ErrorResponse(cmd.id, ValueOutOfRange)
    else OkResponse(cmd.id, None)
  }

  datatype PwmAction = SetDuty | SetFreq | Enable | Disable

  function PwmHandle(cmd: Command, action: PwmAction): Response {
    var ch := ValidateIndex(cmd, cmd.channel, 15);
    if ch.Err? then ch.error
    else if action == SetDuty && cmd.dutyU16.None? then ErrorResponse(cmd.id, MissingField)
    else if action == SetFreq && cmd.freqHz.None? then ErrorResponse(cmd.id, MissingField)
    else if action == SetFreq && cmd.freqHz.value == 0 then ErrorResponse(cmd.id, ValueOutOfRange)
    else OkResponse(cmd.id, None)
  }

  function AdcRead(cmd: Command): Response {
    if cmd.adcChannel.None? then ErrorResponse(cmd.id, MissingField) else ErrorResponse(cmd.id, NotConfigured)
  }

  function UsbWrite(cmd: Command, configured: bool): Outcome {
    WriteOutcome(cmd, configured, false)
  }
}
