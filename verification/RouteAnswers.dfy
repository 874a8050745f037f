/** What every route answers, by its names: refused routes, the system and configuration routes, the routes without
    hardware, and the pin, PWM, ADC and USB checks. The bus and subscription routes are in `RouterHistory`. */
module RouteAnswers {
  import opened Bytes
  import opened Protocol
  import opened Interfaces
  import opened Router
  import opened RouterHistory

  /** The state is kept and the answer carries just the error code. */
  predicate Refuses(e: Effect, s: DeviceValue, id: string, code: ErrorCode) {
    e == Effect(s, Answer(Response(id, false, None, Some(code))))
  }

  /** The state is kept and the answer is ok with `data`. */
  predicate Reports(e: Effect, s: DeviceValue, id: string, data: Option<ResponseData>) {
    e == Effect(s, Answer(Response(id, true, data, None)))
  }

  // ---- routes that are refused -------------------------------------------------------------------

  predicate KnownInterface(name: string) {
    name in ["gpio", "uart", "spi", "i2c", "pwm", "adc", "usb", "config", "system", "batch"]
  }

  predicate KnownRoute(interface: string, action: string) {
    || (interface == "gpio" && action in ["read", "write", "set_mode", "subscribe", "unsubscribe"])
    || (interface == "uart" && action in ["read", "write", "configure"])
    || (interface == "spi" && action in ["transfer", "write", "configure"])
    || (interface == "i2c" && action in ["read", "write", "write_read", "configure"])
    || (interface == "pwm" && action in ["set_duty", "set_freq", "enable", "disable"])
    || (interface == "adc" && action in ["read", "subscribe", "unsubscribe"])
    || (interface == "usb" && action in ["read", "write"])
    || (interface == "config" && action == "get")
    || (interface == "system" && action in ["get_version", "reboot_to_bootloader"])
    || (interface == "batch" && action == "run")
  }

  /** A route that is not listed is refused before it reaches any handler: for its interface when that is missing or
      unknown, else for its action. */
  lemma UnknownRefused(cmd: Command, s: DeviceValue)
    ensures var e := StepOf(cmd, s);
            if cmd.interface.None? then Refuses(e, s, cmd.id, UnknownInterface)
            else if cmd.action.None? then Refuses(e, s, cmd.id, UnknownAction)
            else if !KnownInterface(cmd.interface.value) then Refuses(e, s, cmd.id, UnknownInterface)
            else if !KnownRoute(cmd.interface.value, cmd.action.value) then Refuses(e, s, cmd.id, UnknownAction)
            else ArmFor(cmd).Some?
  {
    hide DispatchOf, ArmOf;
    if cmd.interface.Some? && cmd.action.Some? {
      RouteListed(cmd.interface.value, cmd.action.value);
    }
  }

  lemma RouteListed(interface: string, action: string)
    ensures ActionsOf(interface).Some? <==> KnownInterface(interface)
    ensures (ActionsOf(interface).Some? && action in ActionsOf(interface).value) <==> KnownRoute(interface, action)
  {
  }

  // ---- routes that keep the state ------------------------------------------------------------------

  /** `system/get_version` reports the firmware version and does nothing else; `system/reboot_to_bootloader` sets the
      reboot flag and nothing else; `batch/run` has no place here. */
  lemma SystemAnswers(cmd: Command, s: DeviceValue)
    ensures Routed(cmd, "system", "get_version") ==>
              Reports(StepOf(cmd, s), s, cmd.id, Some(VersionData("0.1.0")))
    ensures Routed(cmd, "system", "reboot_to_bootloader") ==>
              StepOf(cmd, s) == Effect(s.(pendingReboot := true), Answer(Response(cmd.id, true, None, None)))
    ensures Routed(cmd, "batch", "run") ==> Refuses(StepOf(cmd, s), s, cmd.id, UnknownInterface)
  {
    hide StepOf, ArmFor, Routed;
    StepByArm(cmd, s);
    SystemArms(cmd);
  }

  /** In every session `config/get` reports the network data the session was started with. */
  lemma ConfigGetReports(ssid: string, ip: string, cmds: seq<Command>, cmd: Command)
    requires Routed(cmd, "config", "get")
    ensures var s := StateAfter(Fresh(ssid, ip), cmds);
            Reports(StepOf(cmd, s), s, cmd.id, Some(ConfigData(ssid, ip, true)))
  {
    hide StepOf, ArmFor, StateAfter, Routed;
    SessionFields(ssid, ip, cmds);
    StepByArm(cmd, StateAfter(Fresh(ssid, ip), cmds));
    SystemArms(cmd);
  }

  /** The routes that need hardware are all refused as not configured, whatever their fields are. */
  lemma StubsRefuse(cmd: Command, s: DeviceValue)
    requires || Routed(cmd, "gpio", "read") || Routed(cmd, "gpio", "write") || Routed(cmd, "uart", "read")
             || Routed(cmd, "spi", "transfer") || Routed(cmd, "i2c", "read") || Routed(cmd, "i2c", "write_read")
             || Routed(cmd, "usb", "read")
    ensures Refuses(StepOf(cmd, s), s, cmd.id, NotConfigured)
  {
    hide StepOf, ArmFor, Routed;
    StepByArm(cmd, s);
    PinArms(cmd);
  }

  /** `gpio/set_mode` takes the pins 0 to 22, a mode and an optional pull; the checks come in that order. */
  lemma SetModeAnswers(cmd: Command, s: DeviceValue)
    requires Routed(cmd, "gpio", "set_mode")
    ensures var e := StepOf(cmd, s);
            if cmd.pin.None? then Refuses(e, s, cmd.id, MissingField)
            else if cmd.pin.value > 22 then Refuses(e, s, cmd.id, InvalidPin)
            else if cmd.mode.None? then Refuses(e, s, cmd.id, MissingField)
            else if cmd.mode.value in ["input", "output"] && OrElse(cmd.pull, "none") in ["up", "down", "none"] then
              Reports(e, s, cmd.id, None)
            else Refuses(e, s, cmd.id, ValueOutOfRange)
  {
    hide StepOf, ArmFor, Routed;
    StepByArm(cmd, s);
    PinArms(cmd);
  }

  /** The PWM routes take the channels 0 to 15; `set_duty` needs a duty and `set_freq` a positive frequency. */
  lemma PwmAnswers(cmd: Command, s: DeviceValue)
    requires Routed(cmd, "pwm", "set_duty") || Routed(cmd, "pwm", "set_freq")
             || Routed(cmd, "pwm", "enable") || Routed(cmd, "pwm", "disable")
    ensures var e := StepOf(cmd, s);
            if cmd.channel.None? then Refuses(e, s, cmd.id, MissingField)
            else if cmd.channel.value > 15 then Refuses(e, s, cmd.id, ValueOutOfRange)
            else if Routed(cmd, "pwm", "set_duty") && cmd.dutyU16.None? then Refuses(e, s, cmd.id, MissingField)
            else if Routed(cmd, "pwm", "set_freq") && cmd.freqHz.None? then Refuses(e, s, cmd.id, MissingField)
            else if Routed(cmd, "pwm", "set_freq") && cmd.freqHz == Some(0) then Refuses(e, s, cmd.id, ValueOutOfRange)
            else Reports(e, s, cmd.id, None)
  {
    hide StepOf, ArmFor, Routed;
    StepByArm(cmd, s);
    PwmArms(cmd);
  }

  /** `adc/read` needs a channel and then the hardware. No command configures the USB port, so in every session
      `usb/write` is refused. */
  lemma AdcAndUsbRefuse(ssid: string, ip: string, cmds: seq<Command>, cmd: Command)
    ensures var s := StateAfter(Fresh(ssid, ip), cmds);
            && (Routed(cmd, "adc", "read") ==>
                  Refuses(StepOf(cmd, s), s, cmd.id, if cmd.adcChannel.None? then MissingField else NotConfigured))
            && (Routed(cmd, "usb", "write") ==> Refuses(StepOf(cmd, s), s, cmd.id, NotConfigured))
  {
    hide StepOf, ArmFor, StateAfter, Routed, DecodeBytesOf;
    SessionFields(ssid, ip, cmds);
    StepByArm(cmd, StateAfter(Fresh(ssid, ip), cmds));
    PinArms(cmd);
  }

  // ---- incomplete bus and subscription commands ----------------------------------------------------

  /** A write without a usable index is refused before the configuration is looked at. */
  lemma WriteIndexRefused(cmd: Command, kind: Kind, s: DeviceValue)
    requires Routed(cmd, BusName(kind), "write")
    ensures BusIndex(cmd, kind).None? ==> Refuses(StepOf(cmd, s), s, cmd.id, MissingField)
    ensures BusIndex(cmd, kind).Some? && BusIndex(cmd, kind).value > 1 ==>
              Refuses(StepOf(cmd, s), s, cmd.id, ValueOutOfRange)
  {
    hide StepOf, ArmFor, Routed, DecodeBytesOf;
    StepByArm(cmd, s);
    BusArms(cmd, kind);
  }

  /** A subscribe or unsubscribe without its pin or channel, or with an unknown trigger, is refused as incomplete. */
  lemma IncompleteRefused(cmd: Command, s: DeviceValue)
    ensures (Routed(cmd, "gpio", "subscribe") || Routed(cmd, "adc", "subscribe")) && TargetFor(cmd).None? ==>
              Refuses(StepOf(cmd, s), s, cmd.id, MissingField)
    ensures (Routed(cmd, "gpio", "unsubscribe") || Routed(cmd, "adc", "unsubscribe")) && DropFor(cmd).None? ==>
              Refuses(StepOf(cmd, s), s, cmd.id, MissingField)
  {
    hide StepOf, ArmFor, Routed, TargetFor, DropFor, ParseTrigger;
    StepByArm(cmd, s);
    SubscriptionArms(cmd);
    TargetByArm(cmd);
  }
}
