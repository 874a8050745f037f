/** Properties of whole command sequences through the router: invariants, what refusals leave alone, the
    subscription registry against its history, and configuration history. */
module RouterHistory {
  import opened Bytes
  import opened Protocol
  import opened Interfaces
  import opened Router
  import Base64

  /** The route a command is accepted on. */
  function ArmFor(cmd: Command): Option<Arm> {
    var route := ValidateRoute(cmd);
    if route.Ok? then Some(ArmOf(route.value)) else None
  }

  lemma StepByArm(cmd: Command, s: DeviceValue)
    ensures ArmFor(cmd).None? ==> StepOf(cmd, s).state == s && StepOf(cmd, s).outcome.Answer?
                                  && !StepOf(cmd, s).outcome.response.ok
    ensures ArmFor(cmd).Some? ==> StepOf(cmd, s) == DispatchOf(cmd, ArmFor(cmd).value, s)
    ensures ArmFor(cmd) != Some(Unreachable)
  {
    hide DispatchOf, ArmOf, ActionsOf;
    if ArmFor(cmd).Some? {
      RoutesMatchArms(cmd.interface.value, cmd.action.value);
    }
  }

  // ---- routes by name ----------------------------------------------------------------------------

  predicate Routed(cmd: Command, interface: string, action: string) {
    cmd.interface == Some(interface) && cmd.action == Some(action)
  }

  function BusName(kind: Kind): string {
    match kind
    case Uart => "uart"
    case Spi => "spi"
    case I2c => "i2c"
  }

  function BusIndex(cmd: Command, kind: Kind): Option<byte> {
    match kind
    case Uart => cmd.uart
    case Spi => cmd.spi
    case I2c => cmd.i2c
  }

  /** Which arm a route takes: exactly the one of its names. */
  lemma BusArms(cmd: Command, kind: Kind)
    ensures ArmFor(cmd) == Some(Configure(kind)) <==> Routed(cmd, BusName(kind), "configure")
    ensures ArmFor(cmd) == Some(Write(kind)) <==> Routed(cmd, BusName(kind), "write")
  {
    hide ActionsOf;
    if cmd.interface.Some? && cmd.action.Some? {
      RoutesMatchArms(cmd.interface.value, cmd.action.value);
    }
  }

  lemma SubscriptionArms(cmd: Command)
    ensures ArmFor(cmd) == Some(GpioSubscribe) <==> Routed(cmd, "gpio", "subscribe")
    ensures ArmFor(cmd) == Some(GpioUnsubscribe) <==> Routed(cmd, "gpio", "unsubscribe")
    ensures ArmFor(cmd) == Some(AdcSubscribe) <==> Routed(cmd, "adc", "subscribe")
    ensures ArmFor(cmd) == Some(AdcUnsubscribe) <==> Routed(cmd, "adc", "unsubscribe")
  {
    hide ActionsOf;
    if cmd.interface.Some? && cmd.action.Some? {
      RoutesMatchArms(cmd.interface.value, cmd.action.value);
    }
  }

  lemma SystemArms(cmd: Command)
    ensures ArmFor(cmd) == Some(ConfigGet) <==> Routed(cmd, "config", "get")
    ensures ArmFor(cmd) == Some(GetVersion) <==> Routed(cmd, "system", "get_version")
    ensures ArmFor(cmd) == Some(Reboot) <==> Routed(cmd, "system", "reboot_to_bootloader")
    ensures ArmFor(cmd) == Some(BatchRun) <==> Routed(cmd, "batch", "run")
  {
    hide ActionsOf;
    if cmd.interface.Some? && cmd.action.Some? {
      RoutesMatchArms(cmd.interface.value, cmd.action.value);
    }
  }

  lemma PinArms(cmd: Command)
    ensures ArmFor(cmd) == Some(GpioSetModeArm) <==> Routed(cmd, "gpio", "set_mode")
    ensures ArmFor(cmd) == Some(GpioStub) <==> Routed(cmd, "gpio", "read") || Routed(cmd, "gpio", "write")
    ensures ArmFor(cmd) == Some(AdcReadArm) <==> Routed(cmd, "adc", "read")
    ensures ArmFor(cmd) == Some(UsbWriteArm) <==> Routed(cmd, "usb", "write")
    ensures ArmFor(cmd) == Some(UsbStub) <==> Routed(cmd, "usb", "read")
    ensures ArmFor(cmd) == Some(BusStub) <==>
              || Routed(cmd, "uart", "read") || Routed(cmd, "spi", "transfer")
              || Routed(cmd, "i2c", "read") || Routed(cmd, "i2c", "write_read")
  {
    hide ActionsOf;
    if cmd.interface.Some? && cmd.action.Some? {
      RoutesMatchArms(cmd.interface.value, cmd.action.value);
    }
  }

  lemma PwmArms(cmd: Command)
    ensures ArmFor(cmd) == Some(Pwm(SetDuty)) <==> Routed(cmd, "pwm", "set_duty")
    ensures ArmFor(cmd) == Some(Pwm(SetFreq)) <==> Routed(cmd, "pwm", "set_freq")
    ensures ArmFor(cmd) == Some(Pwm(Enable)) <==> Routed(cmd, "pwm", "enable")
    ensures ArmFor(cmd) == Some(Pwm(Disable)) <==> Routed(cmd, "pwm", "disable")
  {
    hide ActionsOf;
    if cmd.interface.Some? && cmd.action.Some? {
      RoutesMatchArms(cmd.interface.value, cmd.action.value);
    }
  }

  // ---- one step --------------------------------------------------------------------------------

  lemma {:induction false} RetainedAll(subs: seq<Subscription>, d: Drop)
    requires |Retained(subs, d)| == |subs|
    ensures Retained(subs, d) == subs
  {
    if |subs| > 0 {
      var shorter := subs[..|subs| - 1];
      assert |Retained(shorter, d)| <= |shorter|;
      RetainedAll(shorter, d);
    }
  }

  /** Any answer that is not ok, and any panic, leaves the whole device state exactly as it was. */
  lemma RefusedLeavesState(cmd: Command, s: DeviceValue)
    requires !Accepted(StepOf(cmd, s).outcome)
    ensures StepOf(cmd, s).state == s
  {
    hide StepOf, ArmFor, GpioSetMode, WriteOf, PwmHandle, ParseTrigger, UartConfigure, SpiConfigure, I2cConfigure,
      UsbWrite, AdcRead, Retained;
    StepByArm(cmd, s);
    match ArmFor(cmd) {
      case None =>
      case Some(arm) =>
        if arm == GpioUnsubscribe && cmd.pin.Some? {
          UnsubscribeKeeps(s, DropPin(cmd.pin.value));
        } else if arm == AdcUnsubscribe && cmd.adcChannel.Some? {
          UnsubscribeKeeps(s, DropAdc(cmd.adcChannel.value));
        }
    }
  }

  lemma UnsubscribeKeeps(s: DeviceValue, d: Drop)
    ensures |Retained(s.subscriptions, d)| == |s.subscriptions| ==> Retained(s.subscriptions, d) == s.subscriptions
  {
    if |Retained(s.subscriptions, d)| == |s.subscriptions| {
      RetainedAll(s.subscriptions, d);
    }
  }

  lemma FreshInv(ssid: string, ip: string)
    ensures Inv(Fresh(ssid, ip))
  {
  }

  /** Every step keeps the state invariant: configurations in range, at most eight subscriptions, no two on
      the same target. */
  lemma StepKeepsInv(cmd: Command, s: DeviceValue)
    requires Inv(s)
    ensures Inv(StepOf(cmd, s).state)
  {
    hide StepOf, ArmFor, GpioSetMode, WriteOf, PwmHandle, ParseTrigger, UsbWrite, AdcRead, Retained, ConfigureOf,
      Subscribed, Inv;
    StepByArm(cmd, s);
    match ArmFor(cmd) {
      case None =>
      case Some(arm) =>
        match arm {
          case GpioUnsubscribe =>
            if cmd.pin.Some? {
              UnsubscribeInv(s, DropPin(cmd.pin.value));
            }
          case AdcUnsubscribe =>
            if cmd.adcChannel.Some? {
              UnsubscribeInv(s, DropAdc(cmd.adcChannel.value));
            }
          case GpioSubscribe =>
            if cmd.pin.Some? {
              SubscribeInv(s, cmd.id, GpioLevel(cmd.pin.value, IntervalOf(cmd)));
              if cmd.trigger.Some? && ParseTrigger(cmd.trigger.value).Some? {
                SubscribeInv(s, cmd.id, GpioEdge(cmd.pin.value, ParseTrigger(cmd.trigger.value).value));
              }
            }
          case AdcSubscribe =>
            if cmd.adcChannel.Some? {
              SubscribeInv(s, cmd.id, Adc(cmd.adcChannel.value, IntervalOf(cmd)));
            }
          case Configure(kind) => ConfigureInv(s, cmd, kind);
          case Reboot => RebootInv(s);
          case _ =>
        }
    }
  }

  lemma RebootInv(s: DeviceValue)
    requires Inv(s)
    ensures Inv(s.(pendingReboot := true))
  {
  }

  lemma SubscribeInv(s: DeviceValue, id: string, target: Target)
    requires Inv(s)
    ensures Inv(Subscribed(id, target, s).state)
  {
    SameTargetSymmetric();
  }

  lemma SameTargetSymmetric()
    ensures forall a, b :: SameTarget(a, b) <==> SameTarget(b, a)
  {
  }

  lemma ConfigureInv(s: DeviceValue, cmd: Command, kind: Kind)
    requires Inv(s)
    ensures Inv(ConfigureOf(cmd, kind, s).state)
  {
  }

  predicate Distinct(subs: seq<Subscription>) {
    forall i, j | 0 <= i < j < |subs| :: !SameTarget(subs[i].target, subs[j].target)
  }

  lemma {:induction false} RetainedDistinct(subs: seq<Subscription>, d: Drop)
    requires Distinct(subs)
    ensures Distinct(Retained(subs, d))
  {
    if |subs| > 0 {
      var shorter, last := subs[..|subs| - 1], subs[|subs| - 1];
      RetainedDistinct(shorter, d);
      var rest := Retained(shorter, d);
      forall i | 0 <= i < |rest|
        ensures !SameTarget(rest[i].target, last.target)
      {
        assert rest[i] in rest;
      }
    }
  }

  lemma UnsubscribeInv(s: DeviceValue, d: Drop)
    requires Inv(s)
    ensures Inv(s.(subscriptions := Retained(s.subscriptions, d)))
  {
    hide Retained, UartInRange, SpiInRange, I2cInRange;
    assert Distinct(s.subscriptions);
    RetainedDistinct(s.subscriptions, d);
  }

  /** A write to a configured bus (with an address, for I2C) whose payload text overruns the buffer. */
  ghost predicate Overruns(cmd: Command, kind: Kind, s: DeviceValue) {
    && Routed(cmd, BusName(kind), "write")
    && BusIndex(cmd, kind).Some? && BusIndex(cmd, kind).value <= 1
    && Configured(s, kind, BusIndex(cmd, kind).value)
    && (kind == I2c ==> cmd.addr.Some?)
    && OverlongPayload(cmd.bytes)
  }

  /** One step from any state a session can reach panics exactly there. */
  lemma PanicsIff(cmd: Command, s: DeviceValue)
    requires Inv(s)
    ensures StepOf(cmd, s).outcome.Panic? <==> exists kind :: Overruns(cmd, kind, s)
  {
    hide StepOf, ArmFor, GpioSetMode, PwmHandle, ParseTrigger, AdcRead, Retained, UartConfigure, SpiConfigure,
      I2cConfigure, DecodeBytesOf, OverlongPayload, AlreadyPresent, Routed;
    StepByArm(cmd, s);
    PayloadVerdict(cmd, cmd.bytes);
    forall kind: Kind
      ensures ArmFor(cmd) == Some(Write(kind)) <==> Routed(cmd, BusName(kind), "write")
    {
      BusArms(cmd, kind);
    }
    if ArmFor(cmd).Some? && ArmFor(cmd).value.Write? {
      assert Overruns(cmd, ArmFor(cmd).value.kind, s) <==> StepOf(cmd, s).outcome.Panic?;
    }
  }

  // ---- whole command sequences -------------------------------------------------------------------

  /** The state after a sequence of commands. */
  function StateAfter(s: DeviceValue, cmds: seq<Command>): DeviceValue {
    if |cmds| == 0 then s
    else StepOf(cmds[|cmds| - 1], StateAfter(s, cmds[..|cmds| - 1])).state
  }

  /** The outcome of the k-th command. */
  function OutcomeAt(s: DeviceValue, cmds: seq<Command>, k: nat): Outcome
    requires k < |cmds|
  {
    StepOf(cmds[k], StateAfter(s, cmds[..k])).outcome
  }

  lemma {:induction false} InvAlways(s: DeviceValue, cmds: seq<Command>)
    requires Inv(s)
    ensures Inv(StateAfter(s, cmds))
  {
    hide Inv, StepOf;
    if |cmds| > 0 {
      InvAlways(s, cmds[..|cmds| - 1]);
      StepKeepsInv(cmds[|cmds| - 1], StateAfter(s, cmds[..|cmds| - 1]));
    }
  }

  /** The commands of a batch. */
  function Unpacked(inner: seq<CommandInner>): (cmds: seq<Command>)
    ensures |cmds| == |inner|
  {
    seq(|inner|, k requires 0 <= k < |inner| => inner[k].ToCommand())
  }

  /** A batch is a piece of history: it leaves the state of its first commands in sequence, one response per command,
      and stops early exactly at one that panics. So everything said here of command sequences holds for batches. */
  lemma {:induction false} BatchIsHistory(inner: seq<CommandInner>, s: DeviceValue)
    ensures var run, cmds := RunOf(inner, s), Unpacked(inner);
            var n := |run.responses|;
            && n <= |inner| && run.state == StateAfter(s, cmds[..n])
            && (forall k | 0 <= k < n :: OutcomeAt(s, cmds, k) == Answer(run.responses[k]))
            && (run.panicked <==> n < |inner|)
            && (run.panicked ==> OutcomeAt(s, cmds, n).Panic?)
            && (Inv(s) ==> Inv(run.state))
  {
    hide StepOf, Inv, StateAfter, OutcomeAt;
    var cmds := Unpacked(inner);
    if |inner| == 0 {
      AfterOne(s, cmds, 0);
    } else {
      var last := |inner| - 1;
      var before := RunOf(inner[..last], s);
      var n := |before.responses|;
      BatchIsHistory(inner[..last], s);
      assert Unpacked(inner[..last]) == cmds[..last] && cmds[..last][..n] == cmds[..n];
      forall k | 0 <= k < last
        ensures OutcomeAt(s, cmds[..last], k) == OutcomeAt(s, cmds, k)
      {
        EarlierOutcome(s, cmds, last, k);
      }
      if !before.panicked {
        AfterOne(s, cmds, last + 1);
        if OutcomeAt(s, cmds, last).Panic? {
          RefusedLeavesState(cmds[last], before.state);
        }
      }
    }
    InvAfterAny(s, cmds[..|RunOf(inner, s).responses|]);
  }

  /** The state and outcome of the last of `n` commands. */
  lemma AfterOne(s: DeviceValue, cmds: seq<Command>, n: nat)
    requires n <= |cmds|
    ensures n == 0 ==> StateAfter(s, cmds[..n]) == s
    ensures n > 0 ==> StepOf(cmds[n - 1], StateAfter(s, cmds[..n - 1]))
                      == Effect(StateAfter(s, cmds[..n]), OutcomeAt(s, cmds, n - 1))
  {
    hide StepOf;
    if n > 0 {
      assert cmds[..n][..n - 1] == cmds[..n - 1];
    }
  }

  lemma EarlierOutcome(s: DeviceValue, cmds: seq<Command>, n: nat, k: nat)
    requires k < n <= |cmds|
    ensures OutcomeAt(s, cmds[..n], k) == OutcomeAt(s, cmds, k)
  {
    hide StepOf, StateAfter;
    assert cmds[..n][..k] == cmds[..k];
  }

  lemma InvAfterAny(s: DeviceValue, cmds: seq<Command>)
    ensures Inv(s) ==> Inv(StateAfter(s, cmds))
  {
    if Inv(s) {
      InvAlways(s, cmds);
    }
  }

  // ---- the subscription registry against its history ---------------------------------------------

  /** What identifies a subscription: level and edge subscriptions of one pin are different keys. */
  datatype Key = AdcKey(channel: AdcChannel) | LevelKey(pin: byte) | EdgeKey(pin: byte)

  function KeyOf(t: Target): Key {
    match t
    case Adc(channel, _) => AdcKey(channel)
    case GpioLevel(pin, _) => LevelKey(pin)
    case GpioEdge(pin, _) => EdgeKey(pin)
  }

  lemma SameTargetIsSameKey(a: Target, b: Target)
    ensures SameTarget(a, b) <==> KeyOf(a) == KeyOf(b)
  {
  }

  /** A successful command that touches the registry. */
  datatype Event = Added(sub: Subscription) | Removed(drop: Drop)

  predicate Touches(e: Event, key: Key) {
    match e
    case Added(sub) => KeyOf(sub.target) == key
    case Removed(DropAdc(channel)) => key == AdcKey(channel)
    case Removed(DropPin(pin)) => key == LevelKey(pin) || key == EdgeKey(pin)
  }

  lemma DropsIsTouches(d: Drop, t: Target)
    ensures Drops(d, t) <==> Touches(Removed(d), KeyOf(t))
  {
  }

  function OrElse<T>(o: Option<T>, default: T): T {
    if o.Some? then o.value else default
  }

  /** What a subscribe command asks for; the interval is 100 ms when none is given. */
  function TargetFor(cmd: Command): Option<Target> {
    if Routed(cmd, "adc", "subscribe") && cmd.adcChannel.Some? then
      Some(Adc(cmd.adcChannel.value, OrElse(cmd.intervalMs, 100)))
    else if Routed(cmd, "gpio", "subscribe") && cmd.pin.Some? then
      if cmd.trigger.None? then Some(GpioLevel(cmd.pin.value, OrElse(cmd.intervalMs, 100)))
      else if cmd.trigger.value == "edge_rising" then Some(GpioEdge(cmd.pin.value, Rising))
      else if cmd.trigger.value == "edge_falling" then Some(GpioEdge(cmd.pin.value, Falling))
      else if cmd.trigger.value == "edge_both" then Some(GpioEdge(cmd.pin.value, Both))
      else None
    else None
  }

  /** What an unsubscribe command removes. */
  function DropFor(cmd: Command): Option<Drop> {
    if Routed(cmd, "adc", "unsubscribe") && cmd.adcChannel.Some? then Some(DropAdc(cmd.adcChannel.value))
    else if Routed(cmd, "gpio", "unsubscribe") && cmd.pin.Some? then Some(DropPin(cmd.pin.value))
    else None
  }

  /** The arms of the four routes, and what each takes from the command. */
  lemma TargetByArm(cmd: Command)
    ensures TargetFor(cmd) ==
            match ArmFor(cmd)
            case Some(GpioSubscribe) =>
              if cmd.pin.None? then None
              else if cmd.trigger.None? then Some(GpioLevel(cmd.pin.value, IntervalOf(cmd)))
              else if ParseTrigger(cmd.trigger.value).None? then None
              else Some(GpioEdge(cmd.pin.value, ParseTrigger(cmd.trigger.value).value))
            case Some(AdcSubscribe) =>
              if cmd.adcChannel.None? then None else Some(Adc(cmd.adcChannel.value, IntervalOf(cmd)))
            case _ => None
    ensures DropFor(cmd) ==
            match ArmFor(cmd)
            case Some(GpioUnsubscribe) => if cmd.pin.None? then None else Some(DropPin(cmd.pin.value))
            case Some(AdcUnsubscribe) => if cmd.adcChannel.None? then None else Some(DropAdc(cmd.adcChannel.value))
            case _ => None
  {
    hide ArmFor, Routed;
    SubscriptionArms(cmd);
  }

  /** An id of more than 32 bytes is kept as empty text. */
  function KeptId(cmd: Command): string {
    if |cmd.id| <= 32 then cmd.id else ""
  }

  /** The registry event of a command, if its answer is ok. */
  function EventsOf(cmd: Command, o: Outcome): seq<Event> {
    if !Accepted(o) then []
    else if TargetFor(cmd).Some? then
      [Added(Subscription(KeptId(cmd), TargetFor(cmd).value))]
    else if DropFor(cmd).Some? then [Removed(DropFor(cmd).value)]
    else []
  }

  /** The successful subscribe and unsubscribe commands of a run, in order. */
  function Log(s: DeviceValue, cmds: seq<Command>): seq<Event> {
    if |cmds| == 0 then []
    else
      var before := cmds[..|cmds| - 1];
      Log(s, before) + EventsOf(cmds[|cmds| - 1], StepOf(cmds[|cmds| - 1], StateAfter(s, before)).outcome)
  }

  predicate TouchedIn(log: seq<Event>, key: Key) {
    exists j | 0 <= j < |log| :: Touches(log[j], key)
  }

  /** The reference registry: the subscriptions whose key no later event touches, in order of insertion. */
  function Live(log: seq<Event>): seq<Subscription> {
    if |log| == 0 then []
    else if log[0].Added? && !TouchedIn(log[1..], KeyOf(log[0].sub.target)) then [log[0].sub] + Live(log[1..])
    else Live(log[1..])
  }

  /** Subscriptions of `subs` that event `e` does not touch. */
  function Untouched(subs: seq<Subscription>, e: Event): seq<Subscription> {
    if |subs| == 0 then []
    else if Touches(e, KeyOf(subs[0].target)) then Untouched(subs[1..], e)
    else [subs[0]] + Untouched(subs[1..], e)
  }

  /** One more event drops what it touches and appends what it adds. */
  lemma {:induction false} LiveSnoc(log: seq<Event>, e: Event)
    ensures Live(log + [e]) == Untouched(Live(log), e) + (if e.Added? then [e.sub] else [])
  {
    hide Touches, KeyOf;
    if |log| == 0 {
      assert (log + [e])[1..] == [] && log + [e] == [e];
      assert Live([e][1..]) == [];
    } else {
      var rest := log[1..];
      assert (log + [e])[1..] == rest + [e] && (log + [e])[0] == log[0];
      LiveSnoc(rest, e);
      if log[0].Added? {
        TouchedSnoc(rest, e, KeyOf(log[0].sub.target));
        if !TouchedIn(rest, KeyOf(log[0].sub.target)) {
          assert ([log[0].sub] + Live(rest))[1..] == Live(rest);
        }
      }
    }
  }

  lemma TouchedSnoc(log: seq<Event>, e: Event, key: Key)
    ensures TouchedIn(log + [e], key) <==> TouchedIn(log, key) || Touches(e, key)
  {
    hide Touches;
    var both := log + [e];
    assert both[|log|] == e;
    assert forall j | 0 <= j < |log| :: both[j] == log[j];
  }

  lemma {:induction false} UntouchedIsRetained(subs: seq<Subscription>, d: Drop)
    ensures Untouched(subs, Removed(d)) == Retained(subs, d)
  {
    hide Drops, Touches, KeyOf;
    if |subs| > 0 {
      var n := |subs| - 1;
      UntouchedIsRetained(subs[..n], d);
      UntouchedAppend(subs[..n], subs[n], Removed(d));
      assert subs == subs[..n] + [subs[n]];
      DropsIsTouches(d, subs[n].target);
    }
  }

  lemma UntouchedFirst(subs: seq<Subscription>, e: Event)
    ensures Untouched([], e) == []
    ensures |subs| > 0 ==>
              Untouched(subs, e)
              == (if Touches(e, KeyOf(subs[0].target)) then [] else [subs[0]]) + Untouched(subs[1..], e)
  {
    hide Touches, KeyOf;
  }

  lemma {:induction false} UntouchedAppend(subs: seq<Subscription>, x: Subscription, e: Event)
    ensures Untouched(subs + [x], e) == Untouched(subs, e) + (if Touches(e, KeyOf(x.target)) then [] else [x])
  {
    hide Touches, KeyOf, Untouched;
    UntouchedFirst(subs, e);
    UntouchedFirst(subs + [x], e);
    if |subs| == 0 {
      assert (subs + [x])[1..] == [] && subs == [];
    } else {
      UntouchedAppend(subs[1..], x, e);
      assert (subs + [x])[1..] == subs[1..] + [x];
    }
  }

  lemma {:induction false} UntouchedAll(subs: seq<Subscription>, sub: Subscription)
    requires !AlreadyPresent(subs, sub.target)
    ensures Untouched(subs, Added(sub)) == subs
  {
    if |subs| > 0 {
      SameTargetIsSameKey(subs[0].target, sub.target);
      assert forall i | 0 <= i < |subs[1..]| :: subs[1..][i] == subs[i + 1];
      UntouchedAll(subs[1..], sub);
    }
  }

  /** The registry changes only by accepted subscribe and unsubscribe commands, and then as its event says. */
  lemma StepOnRegistry(cmd: Command, s: DeviceValue)
    ensures (var e := StepOf(cmd, s);
             e.state.subscriptions ==
             if !Accepted(e.outcome) then s.subscriptions
             else if TargetFor(cmd).Some? then
               s.subscriptions + [Subscription(KeptId(cmd), TargetFor(cmd).value)]
             else if DropFor(cmd).Some? then Retained(s.subscriptions, DropFor(cmd).value)
             else s.subscriptions)
    ensures Accepted(StepOf(cmd, s).outcome) && TargetFor(cmd).Some? ==>
              !AlreadyPresent(s.subscriptions, TargetFor(cmd).value)
  {
    hide StepOf, ArmFor, GpioSetMode, WriteOf, PwmHandle, UsbWrite, AdcRead, Retained, AlreadyPresent,
      UartConfigure, SpiConfigure, I2cConfigure, ParseTrigger, TargetFor, DropFor;
    StepByArm(cmd, s);
    TargetByArm(cmd);
    if !Accepted(StepOf(cmd, s).outcome) {
      RefusedLeavesState(cmd, s);
    }
  }

  /** Main theorem: after every command sequence from a fresh session the subscription list is exactly the
      reference registry of its log, in order. */
  lemma {:induction false} RegistryIsLive(ssid: string, ip: string, cmds: seq<Command>)
    ensures StateAfter(Fresh(ssid, ip), cmds).subscriptions == Live(Log(Fresh(ssid, ip), cmds))
  {
    hide StepOf, Live, Untouched, Retained, EventsOf, AlreadyPresent;
    var s := Fresh(ssid, ip);
    if |cmds| == 0 {
      EmptyLog();
    } else {
      var before, cmd := cmds[..|cmds| - 1], cmds[|cmds| - 1];
      RegistryIsLive(ssid, ip, before);
      var here := StateAfter(s, before);
      StepOnRegistry(cmd, here);
      var o := StepOf(cmd, here).outcome;
      EventCases(cmd, o, Log(s, before));
    }
  }

  lemma EmptyLog()
    ensures Live([]) == []
  {
  }

  lemma EventCases(cmd: Command, o: Outcome, log: seq<Event>)
    requires Accepted(o) && TargetFor(cmd).Some? ==> !AlreadyPresent(Live(log), TargetFor(cmd).value)
    ensures Live(log + EventsOf(cmd, o)) ==
            if !Accepted(o) then Live(log)
            else if TargetFor(cmd).Some? then
              Live(log) + [Subscription(KeptId(cmd), TargetFor(cmd).value)]
            else if DropFor(cmd).Some? then Retained(Live(log), DropFor(cmd).value)
            else Live(log)
  {
    hide Live, TargetFor, DropFor, AlreadyPresent, Retained, Untouched, Accepted;
    assert log + [] == log;
    if Accepted(o) {
      if TargetFor(cmd).Some? {
        var sub := Subscription(KeptId(cmd), TargetFor(cmd).value);
        LiveSnoc(log, Added(sub));
        UntouchedAll(Live(log), sub);
      } else if DropFor(cmd).Some? {
        LiveSnoc(log, Removed(DropFor(cmd).value));
        UntouchedIsRetained(Live(log), DropFor(cmd).value);
      }
    }
  }

  predicate HasKey(subs: seq<Subscription>, key: Key) {
    exists i | 0 <= i < |subs| :: KeyOf(subs[i].target) == key
  }

  /** The latest successful command touching a key. */
  function LatestTouch(log: seq<Event>, key: Key): Option<Event> {
    if |log| == 0 then None
    else if Touches(log[|log| - 1], key) then Some(log[|log| - 1])
    else LatestTouch(log[..|log| - 1], key)
  }

  lemma {:induction false} UntouchedHasKey(subs: seq<Subscription>, e: Event, key: Key)
    ensures HasKey(Untouched(subs, e), key) <==> HasKey(subs, key) && !Touches(e, key)
  {
    hide Touches, KeyOf;
    if |subs| > 0 {
      UntouchedHasKey(subs[1..], e, key);
      HasKeyCons(subs[0], subs[1..], key);
      assert subs == [subs[0]] + subs[1..];
      HasKeyCons(subs[0], Untouched(subs[1..], e), key);
    }
  }

  lemma HasKeyCons(x: Subscription, rest: seq<Subscription>, key: Key)
    ensures HasKey([x] + rest, key) <==> KeyOf(x.target) == key || HasKey(rest, key)
  {
    hide KeyOf;
    var all := [x] + rest;
    assert all[0] == x && forall i | 0 <= i < |rest| :: all[i + 1] == rest[i];
    if HasKey(all, key) && KeyOf(x.target) != key {
      var i: nat :| i < |all| && KeyOf(all[i].target) == key;
      assert rest[i - 1] == all[i];
    }
  }

  lemma HasKeySnoc(subs: seq<Subscription>, x: Subscription, key: Key)
    ensures HasKey(subs + [x], key) <==> HasKey(subs, key) || KeyOf(x.target) == key
  {
    hide KeyOf;
    var all := subs + [x];
    assert all[|subs|] == x && forall i | 0 <= i < |subs| :: all[i] == subs[i];
  }

  lemma {:induction false} LiveKeys(log: seq<Event>, key: Key)
    ensures HasKey(Live(log), key) <==> LatestTouch(log, key).Some? && LatestTouch(log, key).value.Added?
  {
    hide KeyOf, Live, Untouched, HasKey;
    if |log| == 0 {
      EmptyLog();
      EmptyHasNoKey(key);
    } else {
      var before, e := log[..|log| - 1], log[|log| - 1];
      assert log == before + [e];
      LiveKeys(before, key);
      LiveSnoc(before, e);
      UntouchedHasKey(Live(before), e, key);
      assert Untouched(Live(before), e) + [] == Untouched(Live(before), e);
      if e.Added? {
        HasKeySnoc(Untouched(Live(before), e), e.sub, key);
      }
    }
  }

  lemma EmptyHasNoKey(key: Key)
    ensures !HasKey([], key)
  {
  }

  /** A key is subscribed exactly when the latest successful command touching it was a subscribe; keys never
      repeat and there are never more than eight. */
  lemma KeyPresentIffSubscribedLast(ssid: string, ip: string, cmds: seq<Command>, key: Key)
    ensures var subs := StateAfter(Fresh(ssid, ip), cmds).subscriptions;
            var latest := LatestTouch(Log(Fresh(ssid, ip), cmds), key);
            && (HasKey(subs, key) <==> latest.Some? && latest.value.Added?)
            && |subs| <= 8
            && (forall i, j | 0 <= i < j < |subs| :: KeyOf(subs[i].target) != KeyOf(subs[j].target))
  {
    hide StepOf, Log, HasKey, KeyOf;
    RegistryIsLive(ssid, ip, cmds);
    LiveKeys(Log(Fresh(ssid, ip), cmds), key);
    FreshInv(ssid, ip);
    InvAlways(Fresh(ssid, ip), cmds);
    var subs := StateAfter(Fresh(ssid, ip), cmds).subscriptions;
    forall i, j | 0 <= i < j < |subs|
      ensures KeyOf(subs[i].target) != KeyOf(subs[j].target)
    {
      SameTargetIsSameKey(subs[i].target, subs[j].target);
    }
  }

  // ---- configuration history -----------------------------------------------------------------------

  predicate ConfiguresAt(cmd: Command, kind: Kind, i: nat) {
    Routed(cmd, BusName(kind), "configure") && BusIndex(cmd, kind).Some? && BusIndex(cmd, kind).value == i
  }

  predicate WritesAt(cmd: Command, kind: Kind, i: nat) {
    Routed(cmd, BusName(kind), "write") && BusIndex(cmd, kind).Some? && BusIndex(cmd, kind).value == i
  }

  /** Whether a configure command has acceptable parameters. */
  predicate ParametersValid(cmd: Command, kind: Kind) {
    match kind
    case Uart =>
      && cmd.baud.Some? && cmd.baud.value > 0
      && (cmd.dataBits.Some? ==> cmd.dataBits.value == 7 || cmd.dataBits.value == 8)
      && (cmd.parity.Some? ==> cmd.parity.value == "none" || cmd.parity.value == "odd" || cmd.parity.value == "even")
      && (cmd.stopBits.Some? ==> cmd.stopBits.value == 1 || cmd.stopBits.value == 2)
    case Spi =>
      && cmd.freqHz.Some? && cmd.freqHz.value > 0
      && (cmd.cpol.Some? ==> cmd.cpol.value <= 1)
      && (cmd.cpha.Some? ==> cmd.cpha.value <= 1)
    case I2c => cmd.freqHz == Some(100000) || cmd.freqHz == Some(400000)
  }

  /** A configure is answered ok exactly when its index and parameters are valid. */
  lemma ConfigureOkIff(cmd: Command, kind: Kind, s: DeviceValue)
    requires Routed(cmd, BusName(kind), "configure")
    ensures Accepted(StepOf(cmd, s).outcome) <==>
              BusIndex(cmd, kind).Some? && BusIndex(cmd, kind).value <= 1 && ParametersValid(cmd, kind)
  {
    hide StepOf, ArmFor, Routed;
    StepByArm(cmd, s);
    BusArms(cmd, kind);
  }

  /** One step changes whether an index is configured only by an accepted configure of that index, and no
      other command touches any configuration. */
  lemma StepOnConfig(cmd: Command, s: DeviceValue, kind: Kind, i: nat)
    requires i < 2
    ensures var e := StepOf(cmd, s);
            && (Configured(e.state, kind, i)
                <==> Configured(s, kind, i) || (Accepted(e.outcome) && ConfiguresAt(cmd, kind, i)))
            && (!(Accepted(e.outcome) && ConfiguresAt(cmd, kind, i)) ==> SameConfig(e.state, s, kind, i))
  {
    hide StepOf, ArmFor, DispatchOf, ConfigureOf, Configured, SameConfig, Routed, BusName, BusIndex;
    StepByArm(cmd, s);
    BusArms(cmd, kind);
    SameConfigKeeps(s, s, kind, i);
    if ArmFor(cmd).Some? {
      var arm := ArmFor(cmd).value;
      if arm.Configure? {
        ConfigureStep(cmd, arm.kind, s, kind, i);
      } else {
        OtherArmsKeepConfig(cmd, arm, s);
        SameConfigKeeps(DispatchOf(cmd, arm, s).state, s, kind, i);
      }
    }
  }

  lemma SameConfigKeeps(a: DeviceValue, b: DeviceValue, kind: Kind, i: nat)
    requires i < 2 && a.uart == b.uart && a.spi == b.spi && a.i2c == b.i2c
    ensures SameConfig(a, b, kind, i) && (Configured(a, kind, i) <==> Configured(b, kind, i))
  {
  }

  lemma OtherArmsKeepConfig(cmd: Command, arm: Arm, s: DeviceValue)
    requires !arm.Configure?
    ensures var t := DispatchOf(cmd, arm, s).state; t.uart == s.uart && t.spi == s.spi && t.i2c == s.i2c
  {
    hide GpioSetMode, WriteOf, PwmHandle, UsbWrite, AdcRead, Retained, AlreadyPresent, SubscriptionId, ParseTrigger;
  }

  lemma ConfigureStep(cmd: Command, arm: Kind, s: DeviceValue, kind: Kind, i: nat)
    requires i < 2
    ensures var e := DispatchOf(cmd, Configure(arm), s);
            var hit := Accepted(e.outcome) && arm == kind
                       && BusIndex(cmd, kind).Some? && BusIndex(cmd, kind).value == i;
            && (Configured(e.state, kind, i) <==> Configured(s, kind, i) || hit)
            && (!hit ==> SameConfig(e.state, s, kind, i))
  {
    hide UartConfigure, SpiConfigure, I2cConfigure;
    match arm
    case Uart => UartConfigured(cmd);
    case Spi => SpiConfigured(cmd);
    case I2c => I2cConfigured(cmd);
  }

  lemma UartConfigured(cmd: Command)
    ensures UartConfigure(cmd).Ok? ==> UartConfigure(cmd).value.configured && cmd.uart.Some? && cmd.uart.value <= 1
    ensures UartConfigure(cmd).Err? ==> !UartConfigure(cmd).error.ok
  {
  }

  lemma SpiConfigured(cmd: Command)
    ensures SpiConfigure(cmd).Ok? ==> SpiConfigure(cmd).value.configured && cmd.spi.Some? && cmd.spi.value <= 1
    ensures SpiConfigure(cmd).Err? ==> !SpiConfigure(cmd).error.ok
  {
  }

  lemma I2cConfigured(cmd: Command)
    ensures I2cConfigure(cmd).Ok? ==> I2cConfigure(cmd).value.configured && cmd.i2c.Some? && cmd.i2c.value <= 1
    ensures I2cConfigure(cmd).Err? ==> !I2cConfigure(cmd).error.ok
  {
  }

  predicate SameConfig(a: DeviceValue, b: DeviceValue, kind: Kind, i: nat)
    requires i < 2
  {
    match kind
    case Uart => a.uart[i] == b.uart[i]
    case Spi => a.spi[i] == b.spi[i]
    case I2c => a.i2c[i] == b.i2c[i]
  }

  /** An earlier configure of that kind and index was answered ok. */
  ghost predicate ConfiguredBefore(s: DeviceValue, cmds: seq<Command>, kind: Kind, i: nat) {
    exists k | 0 <= k < |cmds| :: Accepted(OutcomeAt(s, cmds, k)) && ConfiguresAt(cmds[k], kind, i)
  }

  lemma {:induction false} ConfiguredIffBefore(ssid: string, ip: string, cmds: seq<Command>, kind: Kind, i: nat)
    requires i < 2
    ensures Configured(StateAfter(Fresh(ssid, ip), cmds), kind, i)
       <==> ConfiguredBefore(Fresh(ssid, ip), cmds, kind, i)
  {
    hide StepOf, ConfiguresAt;
    var s := Fresh(ssid, ip);
    if |cmds| > 0 {
      var n := |cmds| - 1;
      ConfiguredIffBefore(ssid, ip, cmds[..n], kind, i);
      StepOnConfig(cmds[n], StateAfter(s, cmds[..n]), kind, i);
      BeforeSnoc(s, cmds, kind, i);
    }
  }

  lemma BeforeSnoc(s: DeviceValue, cmds: seq<Command>, kind: Kind, i: nat)
    requires |cmds| > 0
    ensures var n := |cmds| - 1;
            ConfiguredBefore(s, cmds, kind, i) <==>
              ConfiguredBefore(s, cmds[..n], kind, i)
              || (Accepted(OutcomeAt(s, cmds, n)) && ConfiguresAt(cmds[n], kind, i))
  {
    hide StepOf, ConfiguresAt, StateAfter;
    var n := |cmds| - 1;
    forall k | 0 <= k < n
      ensures OutcomeAt(s, cmds[..n], k) == OutcomeAt(s, cmds, k)
    {
      assert cmds[..n][..k] == cmds[..k];
    }
  }

  /** Main theorem: in every session a write to an index is answered ok exactly when an earlier configure of
      that kind and index was answered ok and the payload (and for I2C the address) is valid. */
  lemma WriteOkIff(ssid: string, ip: string, cmds: seq<Command>, cmd: Command, kind: Kind, i: nat)
    requires i < 2 && WritesAt(cmd, kind, i)
    ensures Accepted(StepOf(cmd, StateAfter(Fresh(ssid, ip), cmds)).outcome) <==>
              && ConfiguredBefore(Fresh(ssid, ip), cmds, kind, i)
              && UsablePayload(cmd.bytes)
              && (kind == I2c ==> cmd.addr.Some?)
  {
    hide StepOf, ArmFor, StateAfter, ConfiguredBefore, UsablePayload, DecodeBytesOf, Routed;
    var s := StateAfter(Fresh(ssid, ip), cmds);
    ConfiguredIffBefore(ssid, ip, cmds, kind, i);
    StepByArm(cmd, s);
    BusArms(cmd, kind);
    PayloadVerdict(cmd, cmd.bytes);
    PayloadRefusals(cmd);
  }

  /** The panic over whole sessions: a command ends the session exactly when it writes to an index for which an
      earlier configure was answered ok (with an address, for I2C), with an overlong payload. */
  lemma SessionPanicsIff(ssid: string, ip: string, cmds: seq<Command>, cmd: Command)
    ensures StepOf(cmd, StateAfter(Fresh(ssid, ip), cmds)).outcome.Panic? <==>
              exists kind, i | 0 <= i < 2 && WritesAt(cmd, kind, i) ::
                && ConfiguredBefore(Fresh(ssid, ip), cmds, kind, i)
                && (kind == I2c ==> cmd.addr.Some?)
                && OverlongPayload(cmd.bytes)
  {
    hide StepOf, StateAfter, ConfiguredBefore, OverlongPayload, Inv, Configured, Routed, BusName, BusIndex;
    var s := StateAfter(Fresh(ssid, ip), cmds);
    FreshInv(ssid, ip);
    InvAlways(Fresh(ssid, ip), cmds);
    PanicsIff(cmd, s);
    forall kind: Kind, i: nat | i < 2
      ensures Configured(s, kind, i) <==> ConfiguredBefore(Fresh(ssid, ip), cmds, kind, i)
    {
      ConfiguredIffBefore(ssid, ip, cmds, kind, i);
    }
    forall kind | Overruns(cmd, kind, s)
      ensures WritesAt(cmd, kind, BusIndex(cmd, kind).value)
    {
    }
    forall kind, i | 0 <= i < 2 && WritesAt(cmd, kind, i) && Configured(s, kind, i)
                     && (kind == I2c ==> cmd.addr.Some?) && OverlongPayload(cmd.bytes)
      ensures Overruns(cmd, kind, s)
    {
    }
  }

  const NO_FIELDS: Command := Command(
    Some(1), "1", None, None, None, None, None, None, None, None, None, None, None, None, None, None, None, None, None,
    None, None, None, None, None, None, None, None, None, None)

  /** The shortest such session: configure UART 0, then write 684 characters 'A' to it. */
  lemma OverlongSession(ssid: string, ip: string)
    ensures var uart := NO_FIELDS.(interface := Some("uart"), uart := Some(0));
            var configure := uart.(action := Some("configure"), baud := Some(9600));
            var write := uart.(action := Some("write"), bytes := Some(seq(684, _ => 65)));
            StepOf(write, StateAfter(Fresh(ssid, ip), [configure])).outcome.Panic?
  {
    var uart := NO_FIELDS.(interface := Some("uart"), uart := Some(0));
    var configure := uart.(action := Some("configure"), baud := Some(9600));
    var write := uart.(action := Some("write"), bytes := Some(seq(684, _ => 65)));
    hide StepOf, StateAfter, OverlongPayload, DecodeBytesOf;
    var s := Fresh(ssid, ip);
    ConfigureOkIff(configure, Uart, StateAfter(s, [configure][..0]));
    assert Accepted(OutcomeAt(s, [configure], 0)) && ConfiguresAt([configure][0], Uart, 0);
    assert WritesAt(write, Uart, 0) && ConfiguredBefore(s, [configure], Uart, 0);
    OverlongExample(write);
    PayloadVerdict(write, write.bytes);
    SessionPanicsIff(ssid, ip, [configure], write);
  }

  lemma PayloadRefusals(cmd: Command)
    ensures DecodeBytesOf(cmd, cmd.bytes).Refused? ==> !DecodeBytesOf(cmd, cmd.bytes).response.ok
  {
  }

  // ---- which parameters are stored -----------------------------------------------------------------

  /** The stored configuration is the one a configure command asks for, defaults filled in. */
  predicate StoredFrom(s: DeviceValue, kind: Kind, i: nat, cmd: Command)
    requires i < 2
  {
    match kind
    case Uart =>
      var c := s.uart[i];
      && c.configured && cmd.baud == Some(c.baud)
      && c.dataBits == OrElse(cmd.dataBits, 8) && c.stopBits == OrElse(cmd.stopBits, 1)
      && (c.parity == NoParity <==> OrElse(cmd.parity, "none") == "none")
      && (c.parity == Odd <==> cmd.parity == Some("odd"))
      && (c.parity == Even <==> cmd.parity == Some("even"))
    case Spi =>
      var c := s.spi[i];
      && c.configured && cmd.freqHz == Some(c.freqHz)
      && c.cpol == OrElse(cmd.cpol, 0) && c.cpha == OrElse(cmd.cpha, 0)
    case I2c => s.i2c[i].configured && cmd.freqHz == Some(s.i2c[i].freqHz)
  }

  predicate DefaultConfig(s: DeviceValue, kind: Kind, i: nat)
    requires i < 2
  {
    match kind
    case Uart => s.uart[i] == UartConfig(115200, 8, NoParity, 1, false)
    case Spi => s.spi[i] == SpiConfig(1000000, 0, 0, false)
    case I2c => s.i2c[i] == I2cConfig(100000, false)
  }

  /** The latest accepted configure of a kind and index. */
  function LatestConfigure(s: DeviceValue, cmds: seq<Command>, kind: Kind, i: nat): Option<Command> {
    if |cmds| == 0 then None
    else
      var n := |cmds| - 1;
      if Accepted(OutcomeAt(s, cmds, n)) && ConfiguresAt(cmds[n], kind, i) then Some(cmds[n])
      else LatestConfigure(s, cmds[..n], kind, i)
  }

  lemma AcceptedConfigureStores(cmd: Command, s: DeviceValue, kind: Kind, i: nat)
    requires i < 2 && ConfiguresAt(cmd, kind, i) && Accepted(StepOf(cmd, s).outcome)
    ensures StoredFrom(StepOf(cmd, s).state, kind, i, cmd)
  {
    hide StepOf, ArmFor, Routed;
    StepByArm(cmd, s);
    BusArms(cmd, kind);
  }

  /** Every stored configuration is that of the latest accepted configure of its kind and index, or the
      default when there was none. */
  lemma {:induction false} ConfigIsLatest(ssid: string, ip: string, cmds: seq<Command>, kind: Kind, i: nat)
    requires i < 2
    ensures var s := Fresh(ssid, ip);
            match LatestConfigure(s, cmds, kind, i)
            case None => DefaultConfig(StateAfter(s, cmds), kind, i)
            case Some(cmd) => StoredFrom(StateAfter(s, cmds), kind, i, cmd)
  {
    hide StepOf, ConfiguresAt, StoredFrom, DefaultConfig, SameConfig, Configured;
    var s := Fresh(ssid, ip);
    if |cmds| == 0 {
      assert DefaultConfig(s, kind, i) by {
        FreshIsDefault(ssid, ip, kind, i);
      }
    } else {
      var n := |cmds| - 1;
      var here := StateAfter(s, cmds[..n]);
      ConfigIsLatest(ssid, ip, cmds[..n], kind, i);
      StepOnConfig(cmds[n], here, kind, i);
      if Accepted(OutcomeAt(s, cmds, n)) && ConfiguresAt(cmds[n], kind, i) {
        AcceptedConfigureStores(cmds[n], here, kind, i);
      } else {
        SameConfigCarries(StepOf(cmds[n], here).state, here, kind, i);
      }
    }
  }

  lemma FreshIsDefault(ssid: string, ip: string, kind: Kind, i: nat)
    requires i < 2
    ensures DefaultConfig(Fresh(ssid, ip), kind, i)
  {
  }

  lemma SameConfigCarries(a: DeviceValue, b: DeviceValue, kind: Kind, i: nat)
    requires i < 2 && SameConfig(a, b, kind, i)
    ensures DefaultConfig(b, kind, i) ==> DefaultConfig(a, kind, i)
    ensures forall cmd :: StoredFrom(b, kind, i, cmd) ==> StoredFrom(a, kind, i, cmd)
  {
  }

  // ---- answers -------------------------------------------------------------------------------------

  /** Every answer echoes the request id and carries an error code exactly when it is not ok. */
  lemma AnswersEchoId(cmd: Command, s: DeviceValue)
    ensures Echoes(StepOf(cmd, s).outcome, cmd.id)
  {
    hide StepOf, ArmFor, GpioSetMode, WriteOf, PwmHandle, UsbWrite, ConfigureOf, ParseTrigger, Retained, AlreadyPresent;
    StepByArm(cmd, s);
    match ArmFor(cmd) {
      case None => RouteEchoes(cmd, s);
      case Some(arm) =>
        match arm {
          case GpioSetModeArm => ValidationEchoes(cmd, SetDuty);
          case Pwm(action) => ValidationEchoes(cmd, action);
          case Configure(kind) => ConfigureEchoes(cmd, kind, s);
          case Write(kind) => WriteEchoes(cmd, kind, s);
          case UsbWriteArm => WriteEchoes(cmd, Uart, s);
          case _ =>
        }
    }
  }

  predicate Echoes(o: Outcome, id: string) {
    o.Answer? ==> o.response.id == id && (o.response.ok <==> o.response.error.None?)
  }

  lemma RouteEchoes(cmd: Command, s: DeviceValue)
    requires ArmFor(cmd).None?
    ensures Echoes(StepOf(cmd, s).outcome, cmd.id)
  {
    hide ActionsOf, ArmOf, DispatchOf;
  }

  lemma ValidationEchoes(cmd: Command, action: PwmAction)
    ensures Echoes(Answer(GpioSetMode(cmd)), cmd.id) && Echoes(Answer(PwmHandle(cmd, action)), cmd.id)
  {
  }

  lemma ConfigureEchoes(cmd: Command, kind: Kind, s: DeviceValue)
    ensures Echoes(ConfigureOf(cmd, kind, s).outcome, cmd.id)
  {
  }

  lemma WriteEchoes(cmd: Command, kind: Kind, s: DeviceValue)
    ensures Echoes(WriteOf(cmd, kind, s), cmd.id) && Echoes(UsbWrite(cmd, s.usbConfigured), cmd.id)
  {
    hide Base64.DecodedInto;
  }

  /** A subscribe is refused exactly when its key is present, or else the registry is full. */
  lemma SubscribeVerdict(cmd: Command, s: DeviceValue, t: Target)
    requires TargetFor(cmd) == Some(t)
    ensures StepOf(cmd, s).outcome ==
            Answer(if HasKey(s.subscriptions, KeyOf(t)) then ErrorResponse(cmd.id, AlreadySubscribed)
                   else if |s.subscriptions| >= 8 then ErrorResponse(cmd.id, SubscriptionLimit)
                   else OkResponse(cmd.id, None))
  {
    hide StepOf, ArmFor, KeyOf, SameTarget, ParseTrigger, TargetFor;
    StepByArm(cmd, s);
    TargetByArm(cmd);
    forall i | 0 <= i < |s.subscriptions|
      ensures SameTarget(s.subscriptions[i].target, t) <==> KeyOf(s.subscriptions[i].target) == KeyOf(t)
    {
      SameTargetIsSameKey(s.subscriptions[i].target, t);
    }
  }

  /** An unsubscribe is refused exactly when it touches no present subscription. */
  lemma UnsubscribeVerdict(cmd: Command, s: DeviceValue, d: Drop)
    requires DropFor(cmd) == Some(d)
    ensures StepOf(cmd, s).outcome ==
            Answer(if exists i | 0 <= i < |s.subscriptions| :: Touches(Removed(d), KeyOf(s.subscriptions[i].target))
                   then OkResponse(cmd.id, None) else ErrorResponse(cmd.id, NotSubscribed))
  {
    hide StepOf, ArmFor, Retained, Drops, Touches, KeyOf, DropFor;
    StepByArm(cmd, s);
    TargetByArm(cmd);
    RetainedSize(s.subscriptions, d);
    forall i | 0 <= i < |s.subscriptions|
      ensures Drops(d, s.subscriptions[i].target) <==> Touches(Removed(d), KeyOf(s.subscriptions[i].target))
    {
      DropsIsTouches(d, s.subscriptions[i].target);
    }
  }

  lemma {:induction false} RetainedSize(subs: seq<Subscription>, d: Drop)
    ensures |Retained(subs, d)| == |subs| <==> !exists i | 0 <= i < |subs| :: Drops(d, subs[i].target)
  {
    hide Drops;
    if |subs| > 0 {
      var n := |subs| - 1;
      RetainedSize(subs[..n], d);
      assert forall i | 0 <= i < n :: subs[..n][i] == subs[i];
    }
  }

  /** The error code of every refused configure: a missing index or rate is reported as missing, anything else
      as out of range; the index is checked first. */
  lemma ConfigureVerdict(cmd: Command, kind: Kind, s: DeviceValue)
    requires Routed(cmd, BusName(kind), "configure") && !Accepted(StepOf(cmd, s).outcome)
    ensures var idx := BusIndex(cmd, kind);
            var missing := idx.None? || (idx.value <= 1 && (if kind == Uart then cmd.baud.None? else cmd.freqHz.None?));
            StepOf(cmd, s).outcome == Answer(ErrorResponse(cmd.id, if missing then MissingField else ValueOutOfRange))
  {
    hide StepOf, ArmFor, Routed;
    StepByArm(cmd, s);
    BusArms(cmd, kind);
  }

  /** The error code of every refused write, in the order the checks are made. */
  lemma WriteVerdict(cmd: Command, kind: Kind, i: nat, s: DeviceValue)
    requires i < 2 && WritesAt(cmd, kind, i) && !Accepted(StepOf(cmd, s).outcome)
    ensures StepOf(cmd, s).outcome ==
            if !Configured(s, kind, i) then Answer(ErrorResponse(cmd.id, NotConfigured))
            else if kind == I2c && cmd.addr.None? then Answer(ErrorResponse(cmd.id, MissingField))
            else if cmd.bytes.None? || |cmd.bytes.value| == 0 then Answer(ErrorResponse(cmd.id, MissingField))
            else if OverlongPayload(cmd.bytes) then Panic
            else Answer(ErrorResponse(cmd.id, InvalidEncoding))
  {
    hide StepOf, ArmFor, Base64.DecodedInto, OverlongPayload, UsablePayload, Routed;
    StepByArm(cmd, s);
    BusArms(cmd, kind);
    PayloadVerdict(cmd, cmd.bytes);
  }

  // ---- the rest of the state -------------------------------------------------------------------------

  /** No command changes the connection data; a reboot is pending exactly after a `system/reboot_to_bootloader`. */
  lemma {:induction false} SessionFields(ssid: string, ip: string, cmds: seq<Command>)
    ensures var s := StateAfter(Fresh(ssid, ip), cmds);
            && s.ssid == ssid && s.ip == ip && s.connected && !s.usbConfigured
            && (s.pendingReboot <==> exists k | 0 <= k < |cmds| :: Routed(cmds[k], "system", "reboot_to_bootloader"))
  {
    hide StepOf, Routed;
    if |cmds| > 0 {
      var n := |cmds| - 1;
      SessionFields(ssid, ip, cmds[..n]);
      FieldsStep(cmds[n], StateAfter(Fresh(ssid, ip), cmds[..n]));
      assert forall k | 0 <= k < n :: cmds[..n][k] == cmds[k];
    }
  }

  lemma FieldsStep(cmd: Command, s: DeviceValue)
    ensures var t := StepOf(cmd, s).state;
            && t.ssid == s.ssid && t.ip == s.ip && t.connected == s.connected && t.usbConfigured == s.usbConfigured
            && (t.pendingReboot <==> s.pendingReboot || Routed(cmd, "system", "reboot_to_bootloader"))
  {
    hide StepOf, ArmFor, GpioSetMode, WriteOf, PwmHandle, UsbWrite, AdcRead, Retained, AlreadyPresent,
      SubscriptionId, ParseTrigger, ConfigureOf, Routed;
    StepByArm(cmd, s);
    SystemArms(cmd);
    if ArmFor(cmd).Some? && ArmFor(cmd).value.Configure? {
      ConfigureFields(cmd, ArmFor(cmd).value.kind, s);
    }
  }

  lemma ConfigureFields(cmd: Command, kind: Kind, s: DeviceValue)
    ensures var t := ConfigureOf(cmd, kind, s).state;
            && t.ssid == s.ssid && t.ip == s.ip && t.connected == s.connected && t.usbConfigured == s.usbConfigured
            && t.pendingReboot == s.pendingReboot
  {
    hide UartConfigure, SpiConfigure, I2cConfigure;
  }
}
