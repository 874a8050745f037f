/** From a request to the next start: what the portal accepts, `handle_provision` of src/net.rs saves, and the
    credentials are loaded again. */
module Provision {
  import opened Bytes
  import opened Sockets
  import Flash
  import Portal
  import Utf8

  function CredentialsOf(f: Portal.ConnectForm): Flash.Credentials {
    Flash.Credentials(f.ssid, f.password, f.mqttHost, f.mqttPort)
  }

  /** Every form the portal accepts, from whatever body, can be stored. */
  lemma AcceptedIsStorable(body: seq<byte>)
    ensures Portal.Submitted(body).Some? ==>
              (var f := Portal.Submitted(body).value;
               && Flash.Storable(CredentialsOf(f))
               && Flash.WithMqtt(f.ssid, f.password, f.mqttHost, f.mqttPort) == Some(CredentialsOf(f)))
  {
    hide Portal.Submitted, Utf8.Valid;
    Portal.SubmittedIsValid(body);
  }

  /** `handle_provision`: only credentials that join the network are saved. The save is cut off after `cut` bytes. */
  method HandleProvision(flash: Flash.CredFlash, f: Portal.ConnectForm, joined: bool, cut: nat) returns (saved: bool)
    requires flash.Valid() && Portal.ValuesValid(f)
    modifies flash.cells
    ensures saved <==> joined && Portal.ValuesFit(f)
    ensures saved ==> Flash.Storable(CredentialsOf(f))
                      && flash.cells[..Flash.CRED_RECORD_SIZE] == Flash.Interrupted(Flash.Record(CredentialsOf(f)), cut)
    ensures !saved ==> flash.cells[..] == old(flash.cells[..])
  {
    hide Utf8.Valid, Flash.Record, Flash.Interrupted;
    if !joined {
      return false;
    }
    var creds := Flash.WithMqtt(f.ssid, f.password, f.mqttHost, f.mqttPort);
    if creds.None? {
      return false;
    }
    flash.Save(creds.value, cut);
    saved := true;
  }

  /** A request, the join, the save, and the load at the next start. Main theorem: whatever request is accepted, if
      the network is joined and the save completes, exactly the accepted form is loaded; cut off anywhere, nothing or
      the same SSID, password and host are; and without a join or an accepted request the flash is as it was. */
  method ProvisionAndRestart(socket: Socket, declared: Option<nat>, flash: Flash.CredFlash, joined: bool, cut: nat)
    returns (loaded: Option<Flash.Credentials>)
    requires flash.Valid() && flash.readable
    modifies socket`script, flash.cells
    ensures var accepted := Portal.Submitted(Portal.BodyOf(old(socket.Pending()), declared));
            if accepted.Some? && joined then
              var f := accepted.value;
              && (cut >= 169 ==> loaded == Some(Flash.Credentials(f.ssid, f.password, f.mqttHost, f.mqttPort)))
              && (loaded.Some? <==> cut >= 103 + |f.mqttHost|)
              && (loaded.Some? ==> loaded.value.ssid == f.ssid && loaded.value.password == f.password
                                   && loaded.value.mqttHost == f.mqttHost)
            else loaded == Flash.Decode(old(flash.cells[..169]))
  {
    hide Portal.Submitted, Portal.BodyOf, Utf8.Valid, Flash.Decode, Flash.Record, Flash.Interrupted;
    ghost var body := Portal.BodyOf(socket.Pending(), declared);
    ghost var before := flash.cells[..];
    var form := Portal.HandleConnect(socket, declared);
    assert flash.cells[..] == before;
    AcceptedIsStorable(body);
    if form.Some? {
      Portal.SubmittedIsValid(body);
      var saved := HandleProvision(flash, form.value, joined, cut);
      if saved {
        Flash.LoadAfterSave(CredentialsOf(form.value), cut);
      }
    }
    assert before[..169] == old(flash.cells[..169]);
    assert flash.cells[..169] == flash.cells[..][..169];
    loaded := flash.Load();
  }
}
