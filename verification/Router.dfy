/** The router of src/router.rs: route validation, dispatch against the session's device state, batches and
    subscriptions. `DispatchOf` gives the meaning of one command on a state value; the methods do the same
    in place on a `DeviceState`. */
module Router {
  import opened Bytes
  import opened Protocol
  import opened Interfaces

  // ---- routes --------------------------------------------------------------------------------

  /** `VALID_ROUTES`: the actions of an interface. */
  function ActionsOf(interface: string): Option<seq<string>> {
    if interface == "gpio" then Some(["read", "write", "set_mode", "subscribe", "unsubscribe"])
    else if interface == "uart" then Some(["read", "write", "configure"])
    else if interface == "spi" then Some(["transfer", "write", "configure"])
    else if interface == "i2c" then Some(["read", "write", "write_read", "configure"])
    else if interface == "pwm" then Some(["set_duty", "set_freq", "enable", "disable"])
    else if interface == "adc" then Some(["read", "subscribe", "unsubscribe"])
    else if interface == "usb" then Some(["read", "write"])
    else if interface == "config" then Some(["get"])
    else if interface == "system" then Some(["get_version", "reboot_to_bootloader"])
    else if interface == "batch" then Some(["run"])
    else None
  }

  type Route = (string, string)

  function ValidateRoute(cmd: Command): Result<Route, Response> {
    if cmd.interface.None? then Err(ErrorResponse(cmd.id, UnknownInterface))
    else if cmd.action.None? then Err(ErrorResponse(cmd.id, UnknownAction))
    else
      var actions := ActionsOf(cmd.interface.value);
      if actions.None? then Err(ErrorResponse(cmd.id, UnknownInterface))
      else if cmd.action.value !in actions.value then Err(ErrorResponse(cmd.id, UnknownAction))
      else Ok((cmd.interface.value, cmd.action.value))
  }

  /** The arms of the `match` in `dispatch`. */
  datatype Arm =
    | GpioSetModeArm | GpioStub | GpioSubscribe | GpioUnsubscribe
    | AdcReadArm | AdcSubscribe | AdcUnsubscribe
    | Configure(kind: Kind) | Write(kind: Kind) | BusStub
    | Pwm(action: PwmAction) | UsbWriteArm | UsbStub
    | ConfigGet | GetVersion | Reboot | BatchRun | Unreachable

  datatype Kind = Uart | Spi | I2c

  function ArmOf(route: Route): Arm {
    var (interface, action) := route;
    if interface == "gpio" then
      if action == "set_mode" then GpioSetModeArm
      else if action == "read" || action == "write" then GpioStub
      else if action == "subscribe" then GpioSubscribe
      else if action == "unsubscribe" then GpioUnsubscribe
      else Unreachable
    else if interface == "adc" then
      if action == "read" then AdcReadArm
      else if action == "subscribe" then AdcSubscribe
      else if action == "unsubscribe" then AdcUnsubscribe
      else Unreachable
    else if interface == "uart" then
      if action == "configure" then Configure(Uart)
      else if action == "write" then Write(Uart)
      else if action == "read" then BusStub
      else Unreachable
    else if interface == "spi" then
      if action == "configure" then Configure(Spi)
      else if action == "write" then Write(Spi)
      else if action == "transfer" then BusStub
      else Unreachable
    else if interface == "i2c" then
      if action == "configure" then Configure(I2c)
      else if action == "write" then Write(I2c)
      else if action == "read" || action == "write_read" then BusStub
      else Unreachable
    else if interface == "pwm" then
      if action == "set_duty" then Pwm(SetDuty)
      else if action == "set_freq" then Pwm(SetFreq)
      else if action == "enable" then Pwm(Enable)
      else if action == "disable" then Pwm(Disable)
      else Unreachable
    else if interface == "usb" then
      if action == "write" then UsbWriteArm
      else if action == "read" then UsbStub
      else Unreachable
    else if interface == "config" then
      if action == "get" then ConfigGet else Unreachable
    else if interface == "system" then
      if action == "get_version" then GetVersion
      else if action == "reboot_to_bootloader" then Reboot
      else Unreachable
    else if interface == "batch" then
      if action == "run" then BatchRun else Unreachable
    else Unreachable
  }

  /** The routing table and the dispatch arms cover the same routes: an accepted route never reaches the
      unreachable arm, and every other arm is reachable. */
  lemma RoutesMatchArms(interface: string, action: string)
    ensures (ActionsOf(interface).Some? && action in ActionsOf(interface).value)
       <==> ArmOf((interface, action)) != Unreachable
  {
  }

  // ---- device state --------------------------------------------------------------------------

  /** The value of a `DeviceState` (built without the MQTT transport). */
  datatype State = State(
    uart: seq<UartConfig>, spi: seq<SpiConfig>, i2c: seq<I2cConfig>, usbConfigured: bool,
    ssid: string, ip: string, connected: bool, pendingReboot: bool, subscriptions: seq<Subscription>)

  /** The state `handle_client` starts a session with. */
  function Fresh(ssid: string, ip: string): State {
    State([UART_DEFAULT, UART_DEFAULT], [SPI_DEFAULT, SPI_DEFAULT], [I2C_DEFAULT, I2C_DEFAULT],
          false, ssid, ip, true, false, [])
  }

  /** What every state of a session satisfies. */
  predicate Inv(s: State) {
    && |s.uart| == 2 && |s.spi| == 2 && |s.i2c| == 2
    && (forall i | 0 <= i < 2 :: UartInRange(s.uart[i]))
    && (forall i | 0 <= i < 2 :: SpiInRange(s.spi[i]))
    && (forall i | 0 <= i < 2 :: I2cInRange(s.i2c[i]))
    && !s.usbConfigured
    && |s.subscriptions| <= MAX_SUBSCRIPTIONS
    && (forall i, j | 0 <= i < j < |s.subscriptions| ::
          !SameTarget(s.subscriptions[i].target, s.subscriptions[j].target))
  }

  type DeviceValue = s: State | |s.uart| == 2 && |s.spi| == 2 && |s.i2c| == 2
    witness Fresh("", "")

  datatype Effect = Effect(state: DeviceValue, outcome: Outcome)

  // ---- subscriptions -------------------------------------------------------------------------

  /** `heapless::String<32>::push_str` keeps an id that fits and drops a longer one. */
  function SubscriptionId(id: string): string {
    if |id| <= 32 then id else ""
  }

  function IntervalOf(cmd: Command): u32 {
    if cmd.intervalMs.Some? then cmd.intervalMs.value else 100
  }

  predicate AlreadyPresent(subs: seq<Subscription>, target: Target) {
    exists i | 0 <= i < |subs| :: SameTarget(subs[i].target, target)
  }

  function Subscribed(id: string, target: Target, s: DeviceValue): Effect {
    if AlreadyPresent(s.subscriptions, target) then Effect(s, Answer(ErrorResponse(id, AlreadySubscribed)))
    else if |s.subscriptions| >= MAX_SUBSCRIPTIONS then Effect(s, Answer(ErrorResponse(id, SubscriptionLimit)))
    else
      Effect(s.(subscriptions := s.subscriptions + [Subscription(SubscriptionId(id), target)]),
             Answer(OkResponse(id, None)))
  }

  /** What an unsubscribe removes. */
  datatype Drop = DropAdc(channel: AdcChannel) | DropPin(pin: byte)

  predicate Drops(d: Drop, t: Target) {
    match d
    case DropAdc(channel) => t.Adc? && t.channel == channel
    case DropPin(pin) => (t.GpioLevel? || t.GpioEdge?) && t.pin == pin
  }

  function Retained(subs: seq<Subscription>, d: Drop): (r: seq<Subscription>)
    ensures |r| <= |subs|
    ensures forall x | x in r :: x in subs && !Drops(d, x.target)
  {
    if |subs| == 0 then []
    else
      var rest := Retained(subs[..|subs| - 1], d);
      var last := subs[|subs| - 1];
      if Drops(d, last.target) then rest else rest + [last]
  }

  function Unsubscribed(id: string, d: Drop, s: DeviceValue): Effect {
    var kept := Retained(s.subscriptions, d);
    Effect(s.(subscriptions := kept),
           Answer(if |kept| == |s.subscriptions| then ErrorResponse(id, NotSubscribed) else OkResponse(id, None)))
  }

  // ---- dispatch ------------------------------------------------------------------------------

  function ConfigureOf(cmd: Command, kind: Kind, s: DeviceValue): Effect {
    match kind
    case Uart =>
      (match UartConfigure(cmd)
       case Err(r) => Effect(s, Answer(r))
       case Ok(cfg) => Effect(s.(uart := s.uart[IndexOf(cmd, Uart) := cfg]), Answer(OkResponse(cmd.id, None))))
    case Spi =>
      (match SpiConfigure(cmd)
       case Err(r) => Effect(s, Answer(r))
       case Ok(cfg) => Effect(s.(spi := s.spi[IndexOf(cmd, Spi) := cfg]), Answer(OkResponse(cmd.id, None))))
    case I2c =>
      (match I2cConfigure(cmd)
       case Err(r) => Effect(s, Answer(r))
       case Ok(cfg) => Effect(s.(i2c := s.i2c[IndexOf(cmd, I2c) := cfg]), Answer(OkResponse(cmd.id, None))))
  }

  function IndexField(cmd: Command, kind: Kind): Option<byte> {
    match kind
    case Uart => cmd.uart
    case Spi => cmd.spi
    case I2c => cmd.i2c
  }

  /** The index a valid configure or write uses. */
  function IndexOf(cmd: Command, kind: Kind): (i: nat)
    ensures i < 2
  {
    var f := IndexField(cmd, kind);
    if f.Some? && f.value <= 1 then f.value else 0
  }

  predicate Configured(s: DeviceValue, kind: Kind, i: nat)
    requires i < 2
  {
    match kind
    case Uart => s.uart[i].configured
    case Spi => s.spi[i].configured
    case I2c => s.i2c[i].configured
  }

  function WriteOf(cmd: Command, kind: Kind, s: DeviceValue): Outcome {
    var idx := ValidateIndex(cmd, IndexField(cmd, kind), 1);
    if idx.Err? then Answer(idx.error)
    else
      var configured := Configured(s, kind, idx.value);
      match kind
      case Uart => UartWrite(cmd, configured)
      case Spi => SpiWrite(cmd, configured)
      case I2c => I2cWrite(cmd, configured)
  }

  const FIRMWARE_VERSION := "0.1.0"

  /** One command on a state. The unreachable arm is a panic. */
  function DispatchOf(cmd: Command, arm: Arm, s: DeviceValue): Effect {
    match arm
    case GpioSetModeArm => Effect(s, Answer(GpioSetMode(cmd)))
    case GpioStub => Effect(s, Answer(ErrorResponse(cmd.id, NotConfigured)))
    case GpioSubscribe =>
      if cmd.pin.None? then Effect(s, Answer(ErrorResponse(cmd.id, MissingField)))
      else if cmd.trigger.Some? then
        var trigger := ParseTrigger(cmd.trigger.value);
        if trigger.None? then Effect(s, Answer(ErrorResponse(cmd.id, MissingField)))
        else Subscribed(cmd.id, GpioEdge(cmd.pin.value, trigger.value), s)
      else Subscribed(cmd.id, GpioLevel(cmd.pin.value, IntervalOf(cmd)), s)
    case GpioUnsubscribe =>
      if cmd.pin.None? then Effect(s, Answer(ErrorResponse(cmd.id, MissingField)))
      else Unsubscribed(cmd.id, DropPin(cmd.pin.value), s)
    case AdcReadArm => Effect(s, Answer(AdcRead(cmd)))
    case AdcSubscribe =>
      if cmd.adcChannel.None? then Effect(s, Answer(ErrorResponse(cmd.id, MissingField)))
      else Subscribed(cmd.id, Adc(cmd.adcChannel.value, IntervalOf(cmd)), s)
    case AdcUnsubscribe =>
      if cmd.adcChannel.None? then Effect(s, Answer(ErrorResponse(cmd.id, MissingField)))
      else Unsubscribed(cmd.id, DropAdc(cmd.adcChannel.value), s)
    case Configure(kind) => ConfigureOf(cmd, kind, s)
    case Write(kind) => Effect(s, WriteOf(cmd, kind, s))
    case BusStub => Effect(s, Answer(ErrorResponse(cmd.id, NotConfigured)))
    case Pwm(action) => Effect(s, Answer(PwmHandle(cmd, action)))
    case UsbWriteArm => Effect(s, UsbWrite(cmd, s.usbConfigured))
    case UsbStub => Effect(s, Answer(ErrorResponse(cmd.id, NotConfigured)))
    case ConfigGet => Effect(s, Answer(OkResponse(cmd.id, Some(ConfigData(s.ssid, s.ip, s.connected)))))
    case GetVersion => Effect(s, Answer(OkResponse(cmd.id, Some(VersionData(FIRMWARE_VERSION)))))
    case Reboot => Effect(s.(pendingReboot := true), Answer(OkResponse(cmd.id, None)))
    case BatchRun => Effect(s, Answer(ErrorResponse(cmd.id, UnknownInterface)))
    case Unreachable => Effect(s, Panic)
  }

  /** A command as `handle_client` and `dispatch_batch` treat it: validated, then dispatched. */
  function StepOf(cmd: Command, s: DeviceValue): Effect {
    match ValidateRoute(cmd)
    case Err(r) => Effect(s, Answer(r))
    case Ok(route) => DispatchOf(cmd, ArmOf(route), s)
  }

  // ---- the same, in place ----------------------------------------------------------------------

  class DeviceState {
    var uart: seq<UartConfig>
    var spi: seq<SpiConfig>
    var i2c: seq<I2cConfig>
    var usbConfigured: bool
    var ssid: string
    var ip: string
    var connected: bool
    var pendingReboot: bool
    var subscriptions: seq<Subscription>

    predicate Valid()
      reads this
    {
      |uart| == 2 && |spi| == 2 && |i2c| == 2
    }

    function Value(): DeviceValue
      requires Valid()
      reads this
    {
      State(uart, spi, i2c, usbConfigured, ssid, ip, connected, pendingReboot, subscriptions)
    }

    /** The state of a new session. */
    constructor (ssid: string, ip: string)
      ensures Valid() && Value() == Fresh(ssid, ip)
    {
      uart := [UART_DEFAULT, UART_DEFAULT];
      spi := [SPI_DEFAULT, SPI_DEFAULT];
      i2c := [I2C_DEFAULT, I2C_DEFAULT];
      this.ssid, this.ip, connected := ssid, ip, true;
      usbConfigured, pendingReboot, subscriptions := false, false, [];
    }

    /** `handle_subscribe`. */
    method Subscribe(id: string, target: Target) returns (r: Response)
      requires Valid()
      modifies this`subscriptions
      ensures Effect(Value(), Answer(r)) == Subscribed(id, target, old(Value()))
    {
      var i := 0;
      while i < |subscriptions|
        invariant 0 <= i <= |subscriptions|
        invariant forall k | 0 <= k < i :: !SameTarget(subscriptions[k].target, target)
      {
        if SameTarget(subscriptions[i].target, target) {
          return ErrorResponse(id, AlreadySubscribed);
        }
        i := i + 1;
      }
      if |subscriptions| >= MAX_SUBSCRIPTIONS {
        return ErrorResponse(id, SubscriptionLimit);
      }
      subscriptions := subscriptions + [Subscription(SubscriptionId(id), target)];
      r := OkResponse(id, None);
    }

    /** `handle_unsubscribe_adc` and `handle_unsubscribe_gpio`: `retain`, then compare the lengths. */
    method Unsubscribe(id: string, d: Drop) returns (r: Response)
      requires Valid()
      modifies this`subscriptions
      ensures Effect(Value(), Answer(r)) == Unsubscribed(id, d, old(Value()))
    {
      var before := subscriptions;
      var kept := [];
      for i := 0 to |before|
        invariant kept == Retained(before[..i], d)
      {
        assert before[..i + 1][..i] == before[..i];
        if !Drops(d, before[i].target) {
          kept := kept + [before[i]];
        }
      }
      assert before[..|before|] == before;
      subscriptions := kept;
      r := if |kept| == |before| then ErrorResponse(id, NotSubscribed) else OkResponse(id, None);
    }

    /** The `configure!` macro. */
    method ConfigureBus(cmd: Command, kind: Kind) returns (r: Response)
      requires Valid()
      modifies this`uart, this`spi, this`i2c
      ensures Valid() && Effect(Value(), Answer(r)) == ConfigureOf(cmd, kind, old(Value()))
    {
      hide UartConfigure, SpiConfigure, I2cConfigure;
      match kind
      case Uart =>
        var c := UartConfigure(cmd);
        if c.Err? {
          return c.error;
        }
        uart := uart[IndexOf(cmd, Uart) := c.value];
        r := OkResponse(cmd.id, None);
      case Spi =>
        var c := SpiConfigure(cmd);
        if c.Err? {
          return c.error;
        }
        spi := spi[IndexOf(cmd, Spi) := c.value];
        r := OkResponse(cmd.id, None);
      case I2c =>
        var c := I2cConfigure(cmd);
        if c.Err? {
          return c.error;
        }
        i2c := i2c[IndexOf(cmd, I2c) := c.value];
        r := OkResponse(cmd.id, None);
    }

    /** `dispatch`. */
    method Dispatch(cmd: Command, route: Route) returns (o: Outcome)
      requires Valid()
      modifies this
      ensures Valid() && Effect(Value(), o) == DispatchOf(cmd, ArmOf(route), old(Value()))
    {
      hide ArmOf, GpioSetMode, WriteOf, PwmHandle, ParseTrigger, Subscribed, Unsubscribed, ConfigureOf;
      match ArmOf(route)
      case GpioSetModeArm => o := Answer(GpioSetMode(cmd));
      case GpioStub => o := Answer(ErrorResponse(cmd.id, NotConfigured));
      case GpioSubscribe => o := DispatchGpioSubscribe(cmd);
      case GpioUnsubscribe =>
        if cmd.pin.None? {
          return Answer(ErrorResponse(cmd.id, MissingField));
        }
        var r := Unsubscribe(cmd.id, DropPin(cmd.pin.value));
        o := Answer(r);
      case AdcReadArm => o := Answer(AdcRead(cmd));
      case AdcSubscribe =>
        if cmd.adcChannel.None? {
          return Answer(ErrorResponse(cmd.id, MissingField));
        }
        var r := Subscribe(cmd.id, Adc(cmd.adcChannel.value, IntervalOf(cmd)));
        o := Answer(r);
      case AdcUnsubscribe =>
        if cmd.adcChannel.None? {
          return Answer(ErrorResponse(cmd.id, MissingField));
        }
        var r := Unsubscribe(cmd.id, DropAdc(cmd.adcChannel.value));
        o := Answer(r);
      case Configure(kind) =>
        var r := ConfigureBus(cmd, kind);
        o := Answer(r);
      case Write(kind) => o := WriteOf(cmd, kind, Value());
      case BusStub => o := Answer(ErrorResponse(cmd.id, NotConfigured));
      case Pwm(action) => o := Answer(PwmHandle(cmd, action));
      case UsbWriteArm => o := UsbWrite(cmd, usbConfigured);
      case UsbStub => o := Answer(ErrorResponse(cmd.id, NotConfigured));
      case ConfigGet => o := Answer(OkResponse(cmd.id, Some(ConfigData(ssid, ip, connected))));
      case GetVersion => o := Answer(OkResponse(cmd.id, Some(VersionData(FIRMWARE_VERSION))));
      case Reboot =>
        pendingReboot := true;
        o := Answer(OkResponse(cmd.id, None));
      case BatchRun => o := Answer(ErrorResponse(cmd.id, UnknownInterface));
      case Unreachable => o := Panic;
    }

    method DispatchGpioSubscribe(cmd: Command) returns (o: Outcome)
      requires Valid()
      modifies this`subscriptions
      ensures Effect(Value(), o) == DispatchOf(cmd, GpioSubscribe, old(Value()))
    {
      hide ParseTrigger, Subscribed;
      if cmd.pin.None? {
        return Answer(ErrorResponse(cmd.id, MissingField));
      }
      var target := GpioLevel(cmd.pin.value, IntervalOf(cmd));
      if cmd.trigger.Some? {
        var trigger := ParseTrigger(cmd.trigger.value);
        if trigger.None? {
          return Answer(ErrorResponse(cmd.id, MissingField));
        }
        target := GpioEdge(cmd.pin.value, trigger.value);
      }
      var r := Subscribe(cmd.id, target);
      o := Answer(r);
    }

    /** Validation and dispatch of one command. */
    method Step(cmd: Command) returns (o: Outcome)
      requires Valid()
      modifies this
      ensures Valid() && Effect(Value(), o) == StepOf(cmd, old(Value()))
    {
      hide ValidateRoute, DispatchOf, ArmOf;
      var route := ValidateRoute(cmd);
      if route.Err? {
        return Answer(route.error);
      }
      o := Dispatch(cmd, route.value);
    }

    /** `dispatch_batch`. A panic of an inner command ends everything. */
    method DispatchBatch(cmd: Command) returns (b: BatchOutcome)
      requires Valid()
      modifies this
      ensures Valid()
      ensures var inner := if cmd.commands.Some? then cmd.commands.value else [];
              if |inner| == 0 then Value() == old(Value()) && b == BatchAnswer(cmd.id, false, [], Some(BatchEmpty))
              else if |inner| > 16 then
                Value() == old(Value()) && b == BatchAnswer(cmd.id, false, [], Some(BatchTooLarge))
              else
                var run := RunOf(inner, old(Value()));
                Value() == run.state && b == (if run.panicked then BatchPanic
                                              else BatchAnswer(cmd.id, true, run.responses, None))
    {
      hide StepOf;
      var inner := if cmd.commands.Some? then cmd.commands.value else [];
      if |inner| == 0 {
        return BatchAnswer(cmd.id, false, [], Some(BatchEmpty));
      }
      if |inner| > MAX_BATCH_SIZE {
        return BatchAnswer(cmd.id, false, [], Some(BatchTooLarge));
      }
      ghost var start := Value();
      var responses := [];
      assert inner[..0] == [];
      for i := 0 to |inner|
        invariant Valid()
        invariant RunOf(inner[..i], start) == Run(Value(), responses, false)
      {
        assert inner[..i + 1][..i] == inner[..i];
        var o := Step(inner[i].ToCommand());
        if o.Panic? {
          RunPanics(inner, i + 1, start);
          return BatchPanic;
        }
        responses := responses + [o.response];
      }
      assert inner[..|inner|] == inner;
      b := BatchAnswer(cmd.id, true, responses, None);
    }
  }

  datatype BatchOutcome =
    | BatchAnswer(id: string, ok: bool, responses: seq<Response>, error: Option<ErrorCode>)
    | BatchPanic

  /** Stepping commands one by one: the state, the responses so far, and whether one panicked. */
  datatype Run = Run(state: DeviceValue, responses: seq<Response>, panicked: bool)

  function RunOf(inner: seq<CommandInner>, s: DeviceValue): Run {
    if |inner| == 0 then Run(s, [], false)
    else
      var before := RunOf(inner[..|inner| - 1], s);
      if before.panicked then before
      else
        var e := StepOf(inner[|inner| - 1].ToCommand(), before.state);
        if e.outcome.Panic? then Run(e.state, before.responses, true)
        else Run(e.state, before.responses + [e.outcome.response], false)
  }

  lemma {:induction false} RunPanics(inner: seq<CommandInner>, k: nat, s: DeviceValue)
    requires k <= |inner| && RunOf(inner[..k], s).panicked
    ensures RunOf(inner, s) == RunOf(inner[..k], s)
  {
    hide StepOf;
    if k == |inner| {
      assert inner[..k] == inner;
    } else {
      var shorter := inner[..|inner| - 1];
      assert shorter[..k] == inner[..k];
      RunPanics(shorter, k, s);
    }
  }

  /** A batch gives exactly one response per inner command, in order: the k-th is the answer of the k-th
      command on the state the commands before it left. */
  lemma {:induction false} BatchIsStepwise(inner: seq<CommandInner>, s: DeviceValue, k: nat)
    requires !RunOf(inner, s).panicked && k < |inner|
    ensures |RunOf(inner, s).responses| == |inner|
    ensures !RunOf(inner[..k], s).panicked
    ensures StepOf(inner[k].ToCommand(), RunOf(inner[..k], s).state)
         == Effect(RunOf(inner[..k + 1], s).state, Answer(RunOf(inner, s).responses[k]))
    decreases |inner|
  {
    hide StepOf;
    var n := |inner| - 1;
    var shorter := inner[..n];
    assert inner[..n + 1] == inner;
    if n > 0 {
      BatchIsStepwise(shorter, s, Min(k, n - 1));
    }
    if k < n {
      assert shorter[..k] == inner[..k] && shorter[..k + 1] == inner[..k + 1];
    }
  }
}
