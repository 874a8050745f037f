/** When and why `handle_client` of src/net.rs stops: nothing is read after a reboot command, and each way a session
    can end says what its last read was. */
module SessionEnds {
  import opened Bytes
  import opened Protocol
  import opened Interfaces
  import opened Router
  import opened RouterHistory
  import opened Session

  /** No reboot is pending whenever a session goes on to another read. */
  lemma {:induction false} NoRebootPending(talk: Conversation, ssid: string, ip: string, k: nat)
    requires talk.start == Fresh(ssid, ip) && talk.Reaches(k)
    ensures !talk.At(k).state.pendingReboot
  {
    hide StepOf, ParseCommand, ReadOn, Cut, AnswerTo, SendingOf, Conversation.Replies;
    if k > 0 {
      ReachedBefore(talk, k);
      NoRebootPending(talk, ssid, ip, k - 1);
      GoingOn(talk, talk.At(k - 1));
    }
  }

  /** Main theorem: in every session, over either transport, the reboot command is the last one that is read. */
  lemma NothingAfterReboot(talk: Conversation, ssid: string, ip: string, k: nat)
    requires talk.start == Fresh(ssid, ip) && talk.Reaches(k)
    ensures var cmds := CommandsIn(talk.parse, talk.Reads(k));
            forall j | 0 <= j < |cmds| :: !Routed(cmds[j], "system", "reboot_to_bootloader")
  {
    hide StepOf, StateAfter, CommandsIn, Routed, Conversation.At, Conversation.Reads, Conversation.Reaches;
    NoRebootPending(talk, ssid, ip, k);
    StateIsFold(talk, k);
    SessionFields(ssid, ip, CommandsIn(talk.parse, talk.Reads(k)));
  }

  /** Why a session ends, from its last read `r`: the read failed; its command rebooted, after its answer was sent;
      its command panicked on the state the commands before it left; or its answer could not be sent. */
  lemma EndMeans(talk: Conversation, ssid: string, ip: string, n: nat, state: DeviceValue, writes: seq<seq<byte>>,
                 end: End)
    requires talk.start == Fresh(ssid, ip) && talk.Ended(n, state, writes, end)
    ensures var r, before := talk.EventAt(talk.At(n - 1)).result, CommandsIn(talk.parse, talk.Reads(n - 1));
            match end
            case Hangup(error) => r == Err(error) && !error.ProtocolError?
            case Rebooted =>
              r.Ok? && |CommandOf(talk.parse, r)| == 1
              && Routed(CommandOf(talk.parse, r)[0], "system", "reboot_to_bootloader")
            case Panicked =>
              r.Ok? && |CommandOf(talk.parse, r)| == 1
              && StepOf(CommandOf(talk.parse, r)[0], StateAfter(talk.start, before)).outcome.Panic?
            case WriteFailed => r.Ok? && talk.AnswerAt(talk.At(n - 1)) != []
  {
    hide StateAfter, CommandsIn, Conversation.At, Conversation.Reaches, Conversation.Reads, StepOf, CommandOf;
    hide EventOn, Routed, AnswerTo;
    var p := talk.At(n - 1);
    var r := talk.EventAt(p).result;
    NoRebootPending(talk, ssid, ip, n - 1);
    StateIsFold(talk, n - 1);
    if r.Ok? {
      LastCommand(talk.parse, r, p.state);
    }
  }

  /** What a frame can set off comes from its command. */
  lemma LastCommand(parse: Parser, r: ReadResult, s: DeviceValue)
    requires r.Ok?
    ensures |CommandOf(parse, r)| <= 1
    ensures CommandOf(parse, r) == [] ==> EventOn(parse, r, s).outcome.Answer? && EventOn(parse, r, s).state == s
    ensures CommandOf(parse, r) != [] ==> EventOn(parse, r, s) == StepOf(CommandOf(parse, r)[0], s)
    ensures !s.pendingReboot && EventOn(parse, r, s).state.pendingReboot ==>
              CommandOf(parse, r) != [] && Routed(CommandOf(parse, r)[0], "system", "reboot_to_bootloader")
  {
    hide ParseCommand, ValidateRoute, DispatchOf, Routed;
    if CommandOf(parse, r) != [] {
      FieldsStep(CommandOf(parse, r)[0], s);
    }
  }
}
