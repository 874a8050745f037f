/** The credential record of src/net.rs on NOR flash: erasing sets every bit of the sector, programming can only
    clear bits. Power may fail after any number of bytes. */
module Flash {
  import opened Bytes
  import Utf8

  const CRED_RECORD_SIZE := 169
  const SECTOR_SIZE := 4096

  // ---- credentials ---------------------------------------------------------------------------

  datatype Credentials = Credentials(ssid: seq<byte>, password: seq<byte>, mqttHost: seq<byte>, mqttPort: nat)

  /** What the `heapless::String` fields and the u16 port guarantee. */
  predicate Storable(c: Credentials) {
    && |c.ssid| <= 32 && Utf8.Valid(c.ssid)
    && |c.password| <= 64 && Utf8.Valid(c.password)
    && |c.mqttHost| <= 64 && Utf8.Valid(c.mqttHost)
    && c.mqttPort < 0x1_0000
  }

  /** `Credentials::with_mqtt`. */
  function WithMqtt(ssid: seq<byte>, password: seq<byte>, mqttHost: seq<byte>, mqttPort: nat): Option<Credentials> {
    if |ssid| > 32 || |password| > 64 || |mqttHost| > 64 then None
    else Some(Credentials(ssid, password, mqttHost, mqttPort))
  }

  // ---- the flash -----------------------------------------------------------------------------

  class CredFlash {
    /** The credential sector. */
    var cells: array<byte>
    /** Whether reads succeed. */
    var readable: bool

    constructor (cells: array<byte>)
      requires cells.Length == SECTOR_SIZE
      ensures this.cells == cells && readable
    {
      this.cells, readable := cells, true;
    }

    predicate Valid()
      reads this
    {
      cells.Length == SECTOR_SIZE
    }

    method Erase()
      requires Valid()
      modifies cells
      ensures forall i | 0 <= i < SECTOR_SIZE :: cells[i] == 0xFF
    {
      for i := 0 to SECTOR_SIZE
        invariant forall j | 0 <= j < i :: cells[j] == 0xFF
      {
        cells[i] := 0xFF;
      }
    }

    /** Programming `data` at the start of the sector; only the first `cut` bytes make it when power fails. */
    method Program(data: seq<byte>, cut: nat)
      requires Valid() && |data| <= SECTOR_SIZE
      modifies cells
      ensures forall i | 0 <= i < SECTOR_SIZE ::
                cells[i] == if i < Min(cut, |data|) then And(old(cells[i]), data[i]) else old(cells[i])
    {
      hide And;
      var n := Min(cut, |data|);
      for i := 0 to n
        invariant forall j | 0 <= j < SECTOR_SIZE ::
            cells[j] == if j < i then And(old(cells[j]), data[j]) else old(cells[j])
      {
        cells[i] := And(cells[i], data[i]);
      }
    }

    /** `load_credentials_flash`. */
    method Load() returns (c: Option<Credentials>)
      requires Valid()
      ensures c == if readable then Decode(cells[..CRED_RECORD_SIZE]) else None
    {
      if !readable {
        return None;
      }
      var buf := cells[..CRED_RECORD_SIZE];
      c := Decode(buf);
    }

    /** `save_credentials_flash`, cut off after `cut` bytes of the record have been programmed. */
    method Save(creds: Credentials, cut: nat)
      requires Valid() && Storable(creds)
      modifies cells
      ensures cells[..CRED_RECORD_SIZE] == Interrupted(Record(creds), cut)
      ensures forall i | CRED_RECORD_SIZE <= i < SECTOR_SIZE :: cells[i] == 0xFF
    {
      hide And;
      Erase();
      var record := BuildRecord(creds);
      forall a: byte
        ensures And(255, a) == a
      {
        AndOnes(a);
      }
      Program(record, cut);
    }
  }

  // ---- the record ----------------------------------------------------------------------------

  const CRED_MAGIC_BYTES: seq<byte> := [0x43, 0xEE, 0xFF, 0xC0]  // 0xC0FF_EE43, little endian

  function Erased(n: nat): (s: seq<byte>)
    ensures |s| == n
  {
    seq(n, _ => 0xFF)
  }

  /** A fixed-width field: the data, then untouched flash. */
  function Field(data: seq<byte>, width: nat): (s: seq<byte>)
    requires |data| <= width
    ensures |s| == width
  {
    data + Erased(width - |data|)
  }

  /** The record layout: magic, two lengths, SSID field, password field, host length, host field, port. */
  function Record(c: Credentials): (r: seq<byte>)
    requires Storable(c)
    ensures |r| == CRED_RECORD_SIZE
  {
    CRED_MAGIC_BYTES + [|c.ssid|, |c.password|] + Field(c.ssid, 32) + Field(c.password, 64)
    + [|c.mqttHost|] + Field(c.mqttHost, 64) + [c.mqttPort % 256, c.mqttPort / 256]
  }

  lemma ErasedParts(n: nat, k: nat)
    requires k <= n
    ensures Erased(n)[..k] == Erased(k) && Erased(n)[k..] == Erased(n - k)
  {
  }

  /** Writing the next field of a buffer that is still erased from `at` on. */
  method PutField(buf: array<byte>, at: nat, data: seq<byte>, width: nat)
    requires at + width <= buf.Length && |data| <= width
    requires buf[at..] == Erased(buf.Length - at)
    modifies buf
    ensures buf[..at + width] == old(buf[..at]) + Field(data, width)
    ensures buf[at + width..] == Erased(buf.Length - (at + width))
  {
    hide Erased;
    var end := at + |data|;
    assert buf[end..] == buf[at..][|data|..];
    ErasedParts(buf.Length - at, |data|);
    ErasedParts(buf.Length - end, width - |data|);
    CopyInto(data, buf, at);
    assert buf[..at + width] == buf[..end] + buf[end..][..width - |data|];
    assert buf[at + width..] == buf[end..][width - |data|..];
  }

  /** The buffer of `save_credentials_flash`, filled field by field. */
  method BuildRecord(c: Credentials) returns (record: seq<byte>)
    requires Storable(c)
    ensures record == Record(c)
  {
    hide Utf8.Valid, Erased, Field;
    var buf := new byte[CRED_RECORD_SIZE](_ => 0xFF);
    AllErased(buf[..]);
    assert buf[0..] == buf[..];
    PutField(buf, 0, CRED_MAGIC_BYTES, 4);
    PutField(buf, 4, [|c.ssid|, |c.password|], 2);
    PutField(buf, 6, c.ssid, 32);
    PutField(buf, 38, c.password, 64);
    PutField(buf, 102, [|c.mqttHost|], 1);
    PutField(buf, 103, c.mqttHost, 64);
    PutField(buf, 167, [c.mqttPort % 256, c.mqttPort / 256], 2);
    FullField(CRED_MAGIC_BYTES);
    FullField([|c.ssid|, |c.password|]);
    FullField([|c.mqttHost|]);
    FullField([c.mqttPort % 256, c.mqttPort / 256]);
    record := buf[..];
    assert record == buf[..169];
  }

  lemma FullField(data: seq<byte>)
    ensures Field(data, |data|) == data
  {
  }

  lemma AllErased(s: seq<byte>)
    requires forall i | 0 <= i < |s| :: s[i] == 0xFF
    ensures s == Erased(|s|)
  {
  }

  /** A record of which only the first `cut` bytes were programmed on erased flash. */
  function Interrupted(record: seq<byte>, cut: nat): (r: seq<byte>)
    ensures |r| == |record|
  {
    seq(|record|, i requires 0 <= i < |record| => if i < cut then record[i] else 0xFF)
  }

  /** What `load_credentials_flash` makes of the bytes. */
  function Decode(buf: seq<byte>): Option<Credentials>
    requires |buf| == CRED_RECORD_SIZE
  {
    if buf[..4] != CRED_MAGIC_BYTES then None
    else
      var ssidLen, pwdLen := buf[4], buf[5];
      if ssidLen > 32 || pwdLen > 64 then None
      else if !Utf8.Valid(buf[6..6 + ssidLen]) || !Utf8.Valid(buf[38..38 + pwdLen]) then None
      else
        var hostLen := buf[102];
        if hostLen > 64 then None
        else if !Utf8.Valid(buf[103..103 + hostLen]) then None
        else
          WithMqtt(buf[6..6 + ssidLen], buf[38..38 + pwdLen], buf[103..103 + hostLen],
                   (buf[167] as int) + (buf[168] as int) * 256)
  }

  /** The record of `c` as its bytes: magic, lengths, texts and the port, low byte first. What lies behind the texts
      does not matter. */
  predicate Holds(buf: seq<byte>, c: Credentials)
    requires |buf| == 169 && Storable(c)
  {
    && buf[..6] == [0x43, 0xEE, 0xFF, 0xC0, |c.ssid|, |c.password|]
    && buf[6..6 + |c.ssid|] == c.ssid && buf[38..38 + |c.password|] == c.password
    && buf[102] == |c.mqttHost| && buf[103..103 + |c.mqttHost|] == c.mqttHost
    && (buf[167] as int) + (buf[168] as int) * 256 == c.mqttPort
  }

  /** What loads is exactly what is there: 169 bytes load as `c` if and only if they are a record of it. */
  lemma LoadsIff(buf: seq<byte>, c: Credentials)
    requires |buf| == 169 && Storable(c)
    ensures Decode(buf) == Some(c) <==> Holds(buf, c)
  {
    hide Utf8.Valid;
    assert buf[..6] == buf[..4] + [buf[4], buf[5]];
    if Holds(buf, c) {
      assert buf[..4] == buf[..6][..4] == CRED_MAGIC_BYTES && buf[4] == buf[..6][4] && buf[5] == buf[..6][5];
    }
  }

  /** Whatever bytes the sector holds: what loads could have been saved, and saving it makes it load again. */
  lemma LoadedSavesBack(buf: seq<byte>)
    requires |buf| == CRED_RECORD_SIZE
    ensures Decode(buf).Some? ==> Storable(Decode(buf).value) && Decode(Record(Decode(buf).value)) == Decode(buf)
  {
    hide Utf8.Valid, Record;
    if Decode(buf).Some? {
      RecordLayout(Decode(buf).value);
    }
  }

  // ---- saving, losing power, loading -----------------------------------------------------------

  /** What is saved is a record of it, and the rest of its fields is erased. */
  lemma SavedHolds(c: Credentials)
    requires Storable(c)
    ensures Holds(Record(c), c)
    ensures forall k | 6 + |c.ssid| <= k < 38 || 38 + |c.password| <= k < 102 || 103 + |c.mqttHost| <= k < 167 ::
              Record(c)[k] == 0xFF
  {
    hide Utf8.Valid, Record;
    RecordLayout(c);
    var r := Record(c);
    assert r[..6] == r[..4] + [r[4], r[5]];
    RecordRest(c);
  }

  lemma RecordRest(c: Credentials)
    requires Storable(c)
    ensures forall k | 6 + |c.ssid| <= k < 38 || 38 + |c.password| <= k < 102 || 103 + |c.mqttHost| <= k < 167 ::
              Record(c)[k] == 0xFF
  {
    hide Utf8.Valid;
    var r := Record(c);
    assert r[6..38] == Field(c.ssid, 32) && r[38..102] == Field(c.password, 64);
    assert r[103..167] == Field(c.mqttHost, 64);
    assert forall k | 0 <= k < 32 :: r[6 + k] == r[6..38][k];
    assert forall k | 0 <= k < 64 :: r[38 + k] == r[38..102][k] && r[103 + k] == r[103..167][k];
  }

  lemma RecordLayout(c: Credentials)
    requires Storable(c)
    ensures var r := Record(c);
            && r[..4] == CRED_MAGIC_BYTES && r[4] == |c.ssid| && r[5] == |c.password|
            && r[6..6 + |c.ssid|] == c.ssid && r[38..38 + |c.password|] == c.password
            && r[102] == |c.mqttHost| && r[103..103 + |c.mqttHost|] == c.mqttHost
            && r[167] == c.mqttPort % 256 && r[168] == c.mqttPort / 256
  {
    hide Erased, Utf8.Valid;
    var r := Record(c);
    assert r[6..38] == Field(c.ssid, 32) && r[38..102] == Field(c.password, 64);
    assert r[103..167] == Field(c.mqttHost, 64);
    assert r[6..6 + |c.ssid|] == r[6..38][..|c.ssid|];
    assert r[38..38 + |c.password|] == r[38..102][..|c.password|];
    assert r[103..103 + |c.mqttHost|] == r[103..167][..|c.mqttHost|];
  }

  /** The port an interrupted write leaves: its unprogrammed bytes read as 0xFF. */
  function PortAfter(port: nat, cut: nat): nat
    requires port < 0x1_0000
  {
    if cut >= 169 then port else if cut == 168 then port % 256 + 0xFF00 else 0xFFFF
  }

  /** A programmed part of a record reads back unchanged. */
  lemma KeptSlice(r: seq<byte>, cut: nat, i: nat, j: nat)
    requires i <= j <= |r| && j <= cut
    ensures Interrupted(r, cut)[i..j] == r[i..j]
  {
  }

  /** Main theorem: cut off after any number of bytes, a record loads exactly when everything up to the end of
      the host text was programmed; SSID, password and host are then the saved ones and only the port can
      differ. A complete write loads the saved credentials. */
  lemma LoadAfterSave(c: Credentials, cut: nat)
    requires Storable(c)
    ensures Decode(Interrupted(Record(c), cut)) ==
            if cut >= 103 + |c.mqttHost| then Some(c.(mqttPort := PortAfter(c.mqttPort, cut))) else None
    ensures cut >= 169 ==> Decode(Interrupted(Record(c), cut)) == Some(c)
  {
    hide Utf8.Valid, Record, Interrupted;
    var r, n := Record(c), |c.mqttHost|;
    var buf := Interrupted(r, cut);
    RecordLayout(c);
    InterruptedBytes(r, cut);
    if cut >= 103 + n {
      KeptSlice(r, cut, 0, 4);
      KeptSlice(r, cut, 6, 6 + |c.ssid|);
      KeptSlice(r, cut, 38, 38 + |c.password|);
      KeptSlice(r, cut, 103, 103 + n);
      assert buf[..4] == buf[0..4] && r[..4] == r[0..4];
      var port := (buf[167] as int) + (buf[168] as int) * 256;
      assert port == PortAfter(c.mqttPort, cut);
    } else if cut >= 103 {
      CutHost(c, cut);
    } else if cut < 4 {
      assert buf[..4][3] == 0xFF;
    }
  }

  lemma InterruptedBytes(r: seq<byte>, cut: nat)
    ensures forall i | 0 <= i < |r| :: Interrupted(r, cut)[i] == if i < cut then r[i] else 0xFF
  {
  }

  lemma CutHost(c: Credentials, cut: nat)
    requires Storable(c) && 103 <= cut < 103 + |c.mqttHost|
    ensures var buf := Interrupted(Record(c), cut);
            buf[102] == |c.mqttHost| && !Utf8.Valid(buf[103..103 + |c.mqttHost|])
  {
    hide Utf8.Valid, Record;
    RecordLayout(c);
    var host := Interrupted(Record(c), cut)[103..103 + |c.mqttHost|];
    assert host[cut - 103] == 0xFF;
    if Utf8.Valid(host) {
      Utf8.NoErasedByte(host);
    }
  }

  /** Saving on any sector, whatever it held, and loading. */
  method SaveThenLoad(flash: CredFlash, creds: Credentials, cut: nat) returns (c: Option<Credentials>)
    requires flash.Valid() && flash.readable && Storable(creds)
    modifies flash.cells
    ensures cut >= 169 ==> c == Some(creds)
    ensures c.Some? ==> c.value.ssid == creds.ssid && c.value.password == creds.password
                        && c.value.mqttHost == creds.mqttHost
    ensures c.Some? <==> cut >= 103 + |creds.mqttHost|
  {
    hide Decode, Interrupted;
    flash.Save(creds, cut);
    c := flash.Load();
    LoadAfterSave(creds, cut);
  }
}
