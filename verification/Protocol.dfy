/** Protocol-level values shared by the transports, the router and the session loop. Text is modelled as
    its UTF-8 bytes, one `char` per byte. */
module Protocol {
  import opened Bytes

  const MAX_MSG_LEN := 1024
  const MAX_PAYLOAD_LEN := 512
  const MAX_B64_LEN := (MAX_PAYLOAD_LEN / 3 + 1) * 4
  const MAX_BATCH_SIZE := 16
  const MAX_SUBSCRIPTIONS := 8

  datatype ErrorCode =
    | MissingVersion | UnsupportedVersion | MsgTooLarge | MalformedJson | MissingField
    | UnknownInterface | UnknownAction | InvalidPin | ValueOutOfRange | NotConfigured
    | InvalidEncoding | BatchTooLarge | BatchEmpty | SubscriptionLimit | AlreadySubscribed | NotSubscribed

  /** The error of every transport. */
  datatype TransportError = Disconnected | Timeout | ProtocolError(code: ErrorCode)

  type u16 = x: int | 0 <= x < 0x1_0000
  type u32 = x: int | 0 <= x < 0x1_0000_0000

  datatype AdcChannel = Ch0 | Ch1 | Ch2 | Temp

  // ---- commands ------------------------------------------------------------------------------

  /** The flat command object. Base64 text is kept as bytes. */
  datatype Command = Command(
    version: Option<byte>, id: string, interface: Option<string>, action: Option<string>,
    pin: Option<byte>, value: Option<byte>, mode: Option<string>, pull: Option<string>,
    uart: Option<byte>, bytes: Option<seq<byte>>, len: Option<nat>, baud: Option<u32>,
    dataBits: Option<byte>, parity: Option<string>, stopBits: Option<byte>,
    spi: Option<byte>, freqHz: Option<u32>, cpol: Option<byte>, cpha: Option<byte>,
    i2c: Option<byte>, addr: Option<byte>, writeBytes: Option<seq<byte>>, readLen: Option<nat>,
    channel: Option<byte>, dutyU16: Option<u16>, adcChannel: Option<AdcChannel>,
    intervalMs: Option<u32>, trigger: Option<string>,
    commands: Option<seq<CommandInner>>)

  /** A command inside a batch: the same fields without `commands`. */
  datatype CommandInner = CommandInner(
    version: Option<byte>, id: string, interface: Option<string>, action: Option<string>,
    pin: Option<byte>, value: Option<byte>, mode: Option<string>, pull: Option<string>,
    uart: Option<byte>, bytes: Option<seq<byte>>, len: Option<nat>, baud: Option<u32>,
    dataBits: Option<byte>, parity: Option<string>, stopBits: Option<byte>,
    spi: Option<byte>, freqHz: Option<u32>, cpol: Option<byte>, cpha: Option<byte>,
    i2c: Option<byte>, addr: Option<byte>, writeBytes: Option<seq<byte>>, readLen: Option<nat>,
    channel: Option<byte>, dutyU16: Option<u16>, adcChannel: Option<AdcChannel>,
    intervalMs: Option<u32>, trigger: Option<string>)
  {
    function ToCommand(): Command {
      Command(version, id, interface, action, pin, value, mode, pull, uart, bytes, len, baud, dataBits, parity,
              stopBits, spi, freqHz, cpol, cpha, i2c, addr, writeBytes, readLen, channel, dutyU16, adcChannel,
              intervalMs, trigger, None)
    }
  }

  /** `check_version`. */
  function CheckVersion(cmd: Command): Option<ErrorCode> {
    match cmd.version
    case None => Some(MissingVersion)
    case Some(v) => if v == 1 then None else Some(UnsupportedVersion)
  }

  /** Exactly version 1 is accepted. */
  lemma VersionOne(cmd: Command)
    ensures CheckVersion(cmd) == None <==> cmd.version == Some(1)
    ensures CheckVersion(cmd) == Some(MissingVersion) <==> cmd.version == None
  {
  }

  /** A batch's command is its inner command, field by field. */
  lemma InnerFields(inner: CommandInner)
    ensures var c := inner.ToCommand();
            && c.version == inner.version && c.id == inner.id
            && c.interface == inner.interface && c.action == inner.action
            && c.pin == inner.pin && c.value == inner.value && c.mode == inner.mode && c.pull == inner.pull
            && c.uart == inner.uart && c.bytes == inner.bytes && c.len == inner.len
            && c.baud == inner.baud && c.dataBits == inner.dataBits && c.parity == inner.parity
            && c.stopBits == inner.stopBits
            && c.spi == inner.spi && c.freqHz == inner.freqHz && c.cpol == inner.cpol && c.cpha == inner.cpha
            && c.i2c == inner.i2c && c.addr == inner.addr
            && c.writeBytes == inner.writeBytes && c.readLen == inner.readLen
            && c.channel == inner.channel && c.dutyU16 == inner.dutyU16 && c.adcChannel == inner.adcChannel
            && c.intervalMs == inner.intervalMs && c.trigger == inner.trigger && c.commands == None
  {
  }

  // ---- responses -----------------------------------------------------------------------------

  datatype ResponseData =
    | ConfigData(ssid: string, ip: string, connected: bool)
    | VersionData(version: string)

  datatype Response = Response(id: string, ok: bool, data: Option<ResponseData>, error: Option<ErrorCode>)

  function OkResponse(id: string, data: Option<ResponseData>): Response {
    Response(id, true, data, None)
  }

  function ErrorResponse(id: string, code: ErrorCode): Response {
    Response(id, false, None, Some(code))
  }

  // ---- subscriptions -------------------------------------------------------------------------

  datatype EdgeTrigger = Rising | Falling | Both

  function ParseTrigger(s: string): Option<EdgeTrigger> {
    if s == "edge_rising" then Some(Rising)
    else if s == "edge_falling" then Some(Falling)
    else if s == "edge_both" then Some(Both)
    else None
  }

  datatype Target =
    | Adc(channel: AdcChannel, intervalMs: u32)
    | GpioLevel(pin: byte, intervalMs: u32)
    | GpioEdge(pin: byte, trigger: EdgeTrigger)

  datatype Subscription = Subscription(id: string, target: Target)

  /** `Subscription::same_target`. */
  predicate SameTarget(a: Target, b: Target) {
    match (a, b)
    case (Adc(x, _), Adc(y, _)) => x == y
    case (GpioLevel(x, _), GpioLevel(y, _)) => x == y
    case (GpioEdge(x, _), GpioEdge(y, _)) => x == y
    case _ => false
  }
}
