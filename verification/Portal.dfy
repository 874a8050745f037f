/** The captive portal's connect form: the body read by `handle_http_request` of src/net.rs, percent decoding into
    128 bytes and key/value parsing of src/provisioning/portal.rs. */
module Portal {
  import opened Bytes
  import opened Sockets
  import Utf8

  datatype ParseError = MalformedFormBody | MissingFormField | InvalidPercentEncoding

  const PLUS: byte := 43
  const PERCENT: byte := 37
  const SPACE: byte := 32
  const AMP: byte := 38
  const EQUALS: byte := 61
  const CAPACITY := 128

  // ---- percent decoding ------------------------------------------------------------------------

  function HexNibble(b: byte): (r: Result<byte, ParseError>)
    ensures r.Ok? ==> r.value < 16
  {
    if 48 <= b <= 57 then Ok(b - 48)
    else if 97 <= b <= 102 then Ok(b - 97 + 10)
    else if 65 <= b <= 70 then Ok(b - 65 + 10)
    else Err(InvalidPercentEncoding)
  }

  /** The next decoded byte and how many input bytes it takes. */
  function NextByte(input: seq<byte>): (r: Result<(byte, nat), ParseError>)
    requires |input| > 0
    ensures r.Ok? ==> 1 <= r.value.1 <= |input|
  {
    if input[0] == PLUS then Ok((SPACE, 1))
    else if input[0] == PERCENT then
      if |input| < 3 then Err(InvalidPercentEncoding)
      else if HexNibble(input[1]).Err? || HexNibble(input[2]).Err? then Err(InvalidPercentEncoding)
      else Ok((HexNibble(input[1]).value * 16 + HexNibble(input[2]).value, 3))
    else Ok((input[0], 1))
  }

  /** Decoding into `room` bytes; an invalid escape is reported before a full buffer. */
  function DecodedBytes(input: seq<byte>, room: nat): Result<seq<byte>, ParseError>
    decreases |input|
  {
    if |input| == 0 then Ok([])
    else
      var next := NextByte(input);
      if next.Err? then Err(next.error)
      else if room == 0 then Err(MalformedFormBody)
      else
        var rest := DecodedBytes(input[next.value.1..], room - 1);
        if rest.Err? then rest else Ok([next.value.0] + rest.value)
  }

  function DecodedUrl(input: seq<byte>): Result<seq<byte>, ParseError> {
    var r := DecodedBytes(input, CAPACITY);
    if r.Ok? && !Utf8.Valid(r.value) then Err(MalformedFormBody) else r
  }

  function Prefixed(head: seq<byte>, r: Result<seq<byte>, ParseError>): Result<seq<byte>, ParseError> {
    if r.Ok? then Ok(head + r.value) else r
  }

  lemma DecodeStep(input: seq<byte>, done: seq<byte>, room: nat)
    requires |input| > 0
    ensures (var next := NextByte(input);
             Prefixed(done, DecodedBytes(input, room)) ==
             if next.Err? then Err(next.error)
             else if room == 0 then Err(MalformedFormBody)
             else Prefixed(done + [next.value.0], DecodedBytes(input[next.value.1..], room - 1)))
  {
    hide NextByte;
    var next := NextByte(input);
    if next.Ok? && room > 0 {
      var rest := DecodedBytes(input[next.value.1..], room - 1);
      if rest.Ok? {
        assert done + ([next.value.0] + rest.value) == done + [next.value.0] + rest.value;
      }
    }
  }

  /** `decode_url_encoded`: two cursors, one over the input and one over the 128-byte output. */
  method DecodeUrlEncoded(input: seq<byte>, out: array<byte>) returns (r: Result<seq<byte>, ParseError>)
    requires out.Length == CAPACITY
    modifies out
    ensures r == DecodedUrl(input)
    ensures r.Ok? ==> |r.value| <= CAPACITY && out[..|r.value|] == r.value
  {
    hide DecodedBytes, Utf8.Valid;
    var outPos, inPos := 0, 0;
    assert input[0..] == input;
    PrefixedNothing(DecodedBytes(input, CAPACITY));
    while inPos < |input|
      invariant 0 <= inPos <= |input| && 0 <= outPos <= CAPACITY
      invariant DecodedBytes(input, CAPACITY)
             == Prefixed(out[..outPos], DecodedBytes(input[inPos..], CAPACITY - outPos))
    {
      ghost var rest := input[inPos..];
      DecodeStep(rest, out[..outPos], CAPACITY - outPos);
      var b := input[inPos];
      var taken := 1;
      if b == PLUS {
        b := SPACE;
      } else if b == PERCENT {
        if inPos + 2 >= |input| {
          return Err(InvalidPercentEncoding);
        }
        var hi := HexNibble(input[inPos + 1]);
        if hi.Err? {
          return Err(hi.error);
        }
        var lo := HexNibble(input[inPos + 2]);
        if lo.Err? {
          return Err(lo.error);
        }
        b := hi.value * 16 + lo.value;
        taken := 3;
      }
      assert NextByte(rest) == Ok((b, taken));
      if outPos >= CAPACITY {
        return Err(MalformedFormBody);
      }
      ghost var before := out[..outPos];
      out[outPos] := b;
      assert out[..outPos + 1] == before + [b];
      assert rest[taken..] == input[inPos + taken..];
      outPos := outPos + 1;
      inPos := inPos + taken;
    }
    DecodeEnd(CAPACITY - outPos);
    assert input[inPos..] == [] && out[..outPos] + [] == out[..outPos];
    r := if Utf8.Valid(out[..outPos]) then Ok(out[..outPos]) else Err(MalformedFormBody);
  }

  lemma DecodeEnd(room: nat)
    ensures DecodedBytes([], room) == Ok([])
  {
  }

  lemma PrefixedNothing(r: Result<seq<byte>, ParseError>)
    ensures Prefixed([], r) == r
  {
    if r.Ok? {
      assert [] + r.value == r.value;
    }
  }

  // ---- every way to percent-encode ---------------------------------------------------------------

  /** How an encoder may spell one byte: itself, a plus for a space, or an escape with either digit case. */
  datatype Spelling = Plain | Plus | Escape(upperHi: bool, upperLo: bool)

  predicate Fits(b: byte, s: Spelling) {
    match s
    case Plain => b != PLUS && b != PERCENT
    case Plus => b == SPACE
    case Escape(_, _) => true
  }

  function HexDigit(n: nat, upper: bool): (d: byte)
    requires n < 16
    ensures HexNibble(d) == Ok(n)
  {
    if n < 10 then 48 + n else if upper then 65 + n - 10 else 97 + n - 10
  }

  function Spelled(b: byte, s: Spelling): seq<byte> {
    match s
    case Plain => [b]
    case Plus => [PLUS]
    case Escape(upperHi, upperLo) => [PERCENT, HexDigit(b / 16, upperHi), HexDigit(b % 16, upperLo)]
  }

  function PercentEncoded(text: seq<byte>, spelling: seq<Spelling>): seq<byte>
    requires |spelling| == |text|
  {
    if |text| == 0 then [] else Spelled(text[0], spelling[0]) + PercentEncoded(text[1..], spelling[1..])
  }

  /** How many bytes of the text the first `limit` bytes of its encoding spell, if they do not stop inside an
      escape. */
  function Kept(text: seq<byte>, spelling: seq<Spelling>, limit: nat): (r: Option<nat>)
    requires |spelling| == |text| && limit <= |PercentEncoded(text, spelling)|
    ensures r.Some? ==> r.value <= |text|
  {
    if limit == 0 then Some(0)
    else
      var first := |Spelled(text[0], spelling[0])|;
      if limit < first then None
      else
        var rest := Kept(text[1..], spelling[1..], limit - first);
        if rest.Some? then Some(rest.value + 1) else None
  }

  /** A percent-encoding cut after `limit` bytes decodes to the bytes it still spells, if they fit and the cut is
      not inside an escape; otherwise it is refused. */
  lemma {:induction false} CutDecodes(text: seq<byte>, spelling: seq<Spelling>, limit: nat, room: nat)
    requires |spelling| == |text| && forall k | 0 <= k < |text| :: Fits(text[k], spelling[k])
    requires limit <= |PercentEncoded(text, spelling)|
    ensures var kept := Kept(text, spelling, limit);
            var decoded := DecodedBytes(PercentEncoded(text, spelling)[..limit], room);
            if kept.Some? && kept.value <= room then decoded == Ok(text[..kept.value]) else decoded.Err?
    decreases |text|
  {
    hide HexNibble, HexDigit, DecodedBytes, NextByte, Spelled;
    if limit == 0 {
      DecodeEnd(room);
    } else {
      var head, tail := Spelled(text[0], spelling[0]), PercentEncoded(text[1..], spelling[1..]);
      var all := PercentEncoded(text, spelling)[..limit];
      SpelledByte(text[0], spelling[0], []);
      PrefixedNothing(DecodedBytes(all, room));
      DecodeStep(all, [], room);
      if limit < |head| {
        assert all == head[..limit];
        BrokenEscape(text[0], spelling[0], limit);
      } else {
        assert all == head + tail[..limit - |head|] && all[|head|..] == tail[..limit - |head|];
        SpelledByte(text[0], spelling[0], tail[..limit - |head|]);
        if room > 0 {
          CutDecodes(text[1..], spelling[1..], limit - |head|, room - 1);
          var kept := Kept(text[1..], spelling[1..], limit - |head|);
          if kept.Some? {
            assert [] + [text[0]] + text[1..][..kept.value] == text[..kept.value + 1];
          }
        }
      }
    }
  }

  lemma BrokenEscape(b: byte, s: Spelling, limit: nat)
    requires 0 < limit < |Spelled(b, s)|
    ensures NextByte(Spelled(b, s)[..limit]).Err?
  {
  }

  lemma {:induction false} KeptAll(text: seq<byte>, spelling: seq<Spelling>)
    requires |spelling| == |text|
    ensures Kept(text, spelling, |PercentEncoded(text, spelling)|) == Some(|text|)
  {
    hide Spelled;
    if |text| > 0 {
      KeptAll(text[1..], spelling[1..]);
      assert |Spelled(text[0], spelling[0])| > 0 by {
        SomethingSpelled(text[0], spelling[0]);
      }
    }
  }

  lemma SomethingSpelled(b: byte, s: Spelling)
    ensures 0 < |Spelled(b, s)| <= 3
  {
  }

  /** Decoding inverts every percent-encoding of up to `room` bytes; longer texts are refused. */
  lemma DecodeInvertsEncoding(text: seq<byte>, spelling: seq<Spelling>, room: nat)
    requires |spelling| == |text| && forall k | 0 <= k < |text| :: Fits(text[k], spelling[k])
    ensures var decoded := DecodedBytes(PercentEncoded(text, spelling), room);
            if |text| <= room then decoded == Ok(text) else decoded.Err?
  {
    hide Kept, DecodedBytes, PercentEncoded;
    var n := |PercentEncoded(text, spelling)|;
    KeptAll(text, spelling);
    CutDecodes(text, spelling, n, room);
    assert PercentEncoded(text, spelling)[..n] == PercentEncoded(text, spelling) && text[..|text|] == text;
  }

  lemma SpelledByte(b: byte, s: Spelling, tail: seq<byte>)
    requires Fits(b, s)
    ensures |Spelled(b, s)| > 0 && NextByte(Spelled(b, s) + tail) == Ok((b, |Spelled(b, s)|))
  {
    hide HexNibble, HexDigit;
  }

  /** The way the byte at the head is spelled. */
  lemma SpellingAt(input: seq<byte>) returns (s: Spelling)
    requires |input| > 0 && NextByte(input).Ok?
    ensures var (b, taken) := NextByte(input).value; Fits(b, s) && Spelled(b, s) == input[..taken]
  {
    if input[0] == PLUS {
      s := Plus;
    } else if input[0] == PERCENT {
      s := Escape(input[1] <= 70, input[2] <= 70);
      assert input[..3] == [input[0], input[1], input[2]];
    } else {
      s := Plain;
    }
  }

  /** Nothing else decodes: an accepted input is a percent-encoding of what it decodes to. */
  lemma {:induction false} DecodedIsSpelled(input: seq<byte>, room: nat) returns (spelling: seq<Spelling>)
    requires DecodedBytes(input, room).Ok?
    ensures var text := DecodedBytes(input, room).value;
            && |text| <= room && |spelling| == |text| && (forall k | 0 <= k < |text| :: Fits(text[k], spelling[k]))
            && PercentEncoded(text, spelling) == input
    decreases |input|
  {
    hide NextByte, Spelled;
    spelling := [];
    if |input| > 0 {
      var taken := NextByte(input).value.1;
      var first := SpellingAt(input);
      var rest := DecodedIsSpelled(input[taken..], room - 1);
      spelling := [first] + rest;
      var text := DecodedBytes(input, room).value;
      assert text[1..] == DecodedBytes(input[taken..], room - 1).value && spelling[1..] == rest;
      assert input == input[..taken] + input[taken..];
    }
  }

  lemma MoreSpelled(b: byte, s: Spelling, text: seq<byte>, spelling: seq<Spelling>)
    requires |spelling| == |text|
    ensures PercentEncoded([b] + text, [s] + spelling) == Spelled(b, s) + PercentEncoded(text, spelling)
    ensures PercentEncoded([], []) == []
  {
    assert ([b] + text)[1..] == text && ([s] + spelling)[1..] == spelling;
  }

  /** The text "%4A+%2f" is "J /". */
  lemma KnownDecoding()
    ensures DecodedUrl([37, 52, 65, 43, 37, 50, 102]) == Ok([74, 32, 47])
  {
    hide Utf8.Valid, DecodedBytes, PercentEncoded;
    var j, slash := Escape(false, true), Escape(false, false);
    var text: seq<byte>, spelling := [74, 32, 47], [j, Plus, slash];
    MoreSpelled(47, slash, [], []);
    MoreSpelled(32, Plus, [47], [slash]);
    MoreSpelled(74, j, [32, 47], [Plus, slash]);
    assert [47] + [] == [47 as byte] && [32] + [47] == [32 as byte, 47] && [74] + [32, 47] == text;
    assert [slash] + [] == [slash] && [Plus] + [slash] == [Plus, slash] && [j] + [Plus, slash] == spelling;
    assert PercentEncoded(text, spelling) == [37, 52, 65] + ([43] + ([37, 50, 102] + []));
    assert PercentEncoded(text, spelling) == [37, 52, 65, 43, 37, 50, 102];
    DecodeInvertsEncoding(text, spelling, CAPACITY);
    Utf8.AsciiValid(text);
  }

  /** A digit that is no hexadecimal digit, a cut escape, and text that is not UTF-8 are refused. */
  lemma KnownRefusals()
    ensures DecodedUrl([37, 71, 49]) == Err(InvalidPercentEncoding)
    ensures DecodedUrl([37, 52]) == Err(InvalidPercentEncoding)
    ensures DecodedUrl([255]) == Err(MalformedFormBody)
  {
    hide Utf8.Valid, DecodedBytes;
    var text: seq<byte> := [255];
    DecodeStep([37, 71, 49], [], CAPACITY);
    DecodeStep([37, 52], [], CAPACITY);
    DecodeStep(text, [], CAPACITY);
    PrefixedNothing(DecodedBytes([37, 71, 49], CAPACITY));
    PrefixedNothing(DecodedBytes([37, 52], CAPACITY));
    PrefixedNothing(DecodedBytes(text, CAPACITY));
    DecodeEnd(CAPACITY - 1);
    assert text[1..] == [] && [] + [text[0]] + [] == text;
    if Utf8.Valid(text) {
      Utf8.NoErasedByte(text);
    }
  }

  // ---- the form ----------------------------------------------------------------------------------

  datatype ConnectForm = ConnectForm(ssid: seq<byte>, password: seq<byte>, mqttHost: seq<byte>, mqttPort: nat)

  const SSID: seq<byte> := [115, 115, 105, 100]                          // "ssid"
  const PASSWORD: seq<byte> := [112, 97, 115, 115, 119, 111, 114, 100]   // "password"
  const MQTT_HOST: seq<byte> := [109, 113, 116, 116, 95, 104, 111, 115, 116]  // "mqtt_host"
  const MQTT_PORT: seq<byte> := [109, 113, 116, 116, 95, 112, 111, 114, 116]  // "mqtt_port"
  const DEFAULT_PORT := 1883

  /** `split('&')`: always at least one piece. */
  function Pieces(text: seq<byte>): (p: seq<seq<byte>>)
    ensures |p| > 0
  {
    if |text| == 0 then [[]]
    else
      var rest := Pieces(text[1..]);
      if text[0] == AMP then [[]] + rest else [[text[0]] + rest[0]] + rest[1..]
  }

  datatype Pair = Pair(key: seq<byte>, val: seq<byte>)

  /** `splitn(2, '=')`: the value is what follows the first '=', or empty. */
  function PairOf(piece: seq<byte>): Pair {
    if |piece| == 0 then Pair([], [])
    else if piece[0] == EQUALS then Pair([], piece[1..])
    else
      var rest := PairOf(piece[1..]);
      Pair([piece[0]] + rest.key, rest.val)
  }

  predicate AllDigits(text: seq<byte>) {
    forall k | 0 <= k < |text| :: 48 <= text[k] <= 57
  }

  function NumberOf(digits: seq<byte>): nat
    requires AllDigits(digits)
  {
    if |digits| == 0 then 0 else NumberOf(digits[..|digits| - 1]) * 10 + (digits[|digits| - 1] - 48)
  }

  /** `str::parse::<u16>()`: an optional plus sign, then decimal digits, at most 65535. */
  function ParseU16(text: seq<byte>): (r: Option<nat>)
    ensures r.Some? ==> r.value < 0x1_0000
  {
    var digits := if |text| > 0 && text[0] == PLUS then text[1..] else text;
    if |digits| == 0 || !AllDigits(digits) then None
    else if NumberOf(digits) < 0x1_0000 then Some(NumberOf(digits))
    else None
  }

  /** The value of the last pair with a key. */
  function LastValue(pieces: seq<seq<byte>>, key: seq<byte>): Option<seq<byte>> {
    if |pieces| == 0 then None
    else
      var last := PairOf(pieces[|pieces| - 1]);
      if last.key == key then Some(last.val) else LastValue(pieces[..|pieces| - 1], key)
  }

  /** The last port value that parses, else the default. */
  function LastPort(pieces: seq<seq<byte>>): nat {
    if |pieces| == 0 then DEFAULT_PORT
    else
      var last := PairOf(pieces[|pieces| - 1]);
      if last.key == MQTT_PORT && ParseU16(last.val).Some? then ParseU16(last.val).value
      else LastPort(pieces[..|pieces| - 1])
  }

  function FormOf(text: seq<byte>): Result<ConnectForm, ParseError> {
    FormOfPieces(Pieces(text))
  }

  function FormOfPieces(pieces: seq<seq<byte>>): Result<ConnectForm, ParseError> {
    var ssid, password, host := LastValue(pieces, SSID), LastValue(pieces, PASSWORD), LastValue(pieces, MQTT_HOST);
    if ssid.None? || password.None? then Err(MissingFormField)
    else Ok(ConnectForm(ssid.value, password.value, if host.Some? then host.value else [], LastPort(pieces)))
  }

  lemma KeysDiffer()
    ensures SSID != PASSWORD && SSID != MQTT_HOST && SSID != MQTT_PORT
    ensures PASSWORD != MQTT_HOST && PASSWORD != MQTT_PORT && MQTT_HOST != MQTT_PORT
  {
    assert |SSID| == 4 && |PASSWORD| == 8 && |MQTT_HOST| == 9 && MQTT_HOST[5] != MQTT_PORT[5];
  }

  /** `parse_connect_form`: one pass over the pairs, later ones overwriting earlier ones. */
  method ParseConnectForm(text: seq<byte>) returns (r: Result<ConnectForm, ParseError>)
    ensures r == FormOf(text)
  {
    hide Pieces, PairOf, ParseU16;
    KeysDiffer();
    var pieces := Pieces(text);
    var ssid: Option<seq<byte>>, password: Option<seq<byte>> := None, None;
    var host: Option<seq<byte>> := None;
    var port: nat := DEFAULT_PORT;
    assert pieces[..0] == [];
    for i := 0 to |pieces|
      invariant ssid == LastValue(pieces[..i], SSID)
      invariant password == LastValue(pieces[..i], PASSWORD)
      invariant host == LastValue(pieces[..i], MQTT_HOST)
      invariant port == LastPort(pieces[..i])
    {
      assert pieces[..i + 1][..i] == pieces[..i];
      var pair := PairOf(pieces[i]);
      if pair.key == SSID {
        ssid := Some(pair.val);
      } else if pair.key == PASSWORD {
        password := Some(pair.val);
      } else if pair.key == MQTT_HOST {
        host := Some(pair.val);
      } else if pair.key == MQTT_PORT {
        var p := ParseU16(pair.val);
        if p.Some? {
          port := p.value;
        }
      }
    }
    assert pieces[..|pieces|] == pieces;
    if ssid.None? || password.None? {
      return Err(MissingFormField);
    }
    r := Ok(ConnectForm(ssid.value, password.value, if host.Some? then host.value else [], port));
  }

  // ---- what a browser sends comes back -------------------------------------------------------------

  function Decimal(n: nat): (s: seq<byte>)
    ensures |s| > 0 && forall k | 0 <= k < |s| :: 48 <= s[k] <= 57
  {
    if n < 10 then [48 + n] else Decimal(n / 10) + [48 + n % 10]
  }

  lemma {:induction false} DecimalParses(n: nat)
    requires n < 0x1_0000
    ensures ParseU16(Decimal(n)) == Some(n)
  {
    DecimalValue(n);
    assert Decimal(n)[0] != PLUS;
  }

  lemma {:induction false} DecimalValue(n: nat)
    ensures NumberOf(Decimal(n)) == n
  {
    if n >= 10 {
      DecimalValue(n / 10);
      var d := Decimal(n);
      assert d[..|d| - 1] == Decimal(n / 10);
    } else {
      assert Decimal(n)[..0] == [];
    }
  }

  function FieldText(key: seq<byte>, val: seq<byte>): seq<byte> {
    key + [EQUALS] + val
  }

  function Fields(f: ConnectForm): (p: seq<seq<byte>>)
    ensures |p| == 4
  {
    [FieldText(SSID, f.ssid), FieldText(PASSWORD, f.password), FieldText(MQTT_HOST, f.mqttHost),
     FieldText(MQTT_PORT, Decimal(f.mqttPort))]
  }

  /** Pieces that are followed by more. */
  function Ampersands(pieces: seq<seq<byte>>): seq<byte> {
    if |pieces| == 0 then [] else pieces[0] + [AMP] + Ampersands(pieces[1..])
  }

  /** The form as one string, before percent-encoding. */
  function FormText(f: ConnectForm): seq<byte> {
    Ampersands(Fields(f)[..3]) + Fields(f)[3]
  }

  lemma {:induction false} PiecesFirst(piece: seq<byte>, rest: seq<byte>)
    requires AMP !in piece
    ensures Pieces(piece + [AMP] + rest) == [piece] + Pieces(rest)
  {
    if |piece| == 0 {
      assert piece + [AMP] + rest == [AMP] + rest && ([AMP] + rest)[1..] == rest;
    } else {
      var all := piece + [AMP] + rest;
      PiecesFirst(piece[1..], rest);
      assert all[1..] == piece[1..] + [AMP] + rest && all[0] == piece[0];
      assert [piece[0]] + piece[1..] == piece;
    }
  }

  lemma {:induction false} PiecesLast(piece: seq<byte>)
    requires AMP !in piece
    ensures Pieces(piece) == [piece]
  {
    if |piece| > 0 {
      PiecesLast(piece[1..]);
      assert [piece[0]] + piece[1..] == piece;
    }
  }

  lemma {:induction false} PairOfField(key: seq<byte>, val: seq<byte>)
    requires EQUALS !in key
    ensures PairOf(FieldText(key, val)) == Pair(key, val)
  {
    var text := FieldText(key, val);
    if |key| == 0 {
      assert text == [EQUALS] + val && text[1..] == val;
    } else {
      PairOfField(key[1..], val);
      assert text[1..] == FieldText(key[1..], val) && text[0] == key[0];
      assert [key[0]] + key[1..] == key;
    }
  }

  /** No piece, and so no parsed value, contains '&'. */
  lemma {:induction false} PiecesHaveNoAmp(text: seq<byte>)
    ensures forall k | 0 <= k < |Pieces(text)| :: AMP !in Pieces(text)[k]
  {
    if |text| > 0 {
      PiecesHaveNoAmp(text[1..]);
    }
  }

  lemma {:induction false} PairHasNoAmp(piece: seq<byte>)
    requires AMP !in piece
    ensures AMP !in PairOf(piece).val
  {
    if |piece| > 0 && piece[0] != EQUALS {
      PairHasNoAmp(piece[1..]);
    }
  }

  lemma {:induction false} LastValueHasNoAmp(pieces: seq<seq<byte>>, key: seq<byte>)
    requires forall k | 0 <= k < |pieces| :: AMP !in pieces[k]
    ensures LastValue(pieces, key).Some? ==> AMP !in LastValue(pieces, key).value
  {
    hide PairOf;
    if |pieces| > 0 {
      PairHasNoAmp(pieces[|pieces| - 1]);
      LastValueHasNoAmp(pieces[..|pieces| - 1], key);
    }
  }

  predicate NoAmp(f: ConnectForm) {
    AMP !in f.ssid && AMP !in f.password && AMP !in f.mqttHost
  }

  /** No form that comes out of the parser has a value with an '&'. */
  lemma ParsedHasNoAmp(text: seq<byte>)
    ensures FormOf(text).Ok? ==> NoAmp(FormOf(text).value)
  {
    hide Pieces, LastValue, LastPort;
    var pieces := Pieces(text);
    PiecesHaveNoAmp(text);
    LastValueHasNoAmp(pieces, SSID);
    LastValueHasNoAmp(pieces, PASSWORD);
    LastValueHasNoAmp(pieces, MQTT_HOST);
  }

  lemma {:induction false} PiecesOfJoined(pieces: seq<seq<byte>>, last: seq<byte>)
    requires (forall k | 0 <= k < |pieces| :: AMP !in pieces[k]) && AMP !in last
    ensures Pieces(Ampersands(pieces) + last) == pieces + [last]
  {
    hide Pieces;
    if |pieces| == 0 {
      assert Ampersands(pieces) + last == last;
      PiecesLast(last);
    } else {
      PiecesOfJoined(pieces[1..], last);
      PiecesFirst(pieces[0], Ampersands(pieces[1..]) + last);
      assert Ampersands(pieces) + last == pieces[0] + [AMP] + (Ampersands(pieces[1..]) + last);
      assert [pieces[0]] + (pieces[1..] + [last]) == pieces + [last];
    }
  }

  lemma LastOf(pieces: seq<seq<byte>>, piece: seq<byte>)
    ensures forall key :: LastValue(pieces + [piece], key) ==
                          if PairOf(piece).key == key then Some(PairOf(piece).val) else LastValue(pieces, key)
    ensures LastPort(pieces + [piece]) ==
            if PairOf(piece).key == MQTT_PORT && ParseU16(PairOf(piece).val).Some?
            then ParseU16(PairOf(piece).val).value else LastPort(pieces)
  {
    hide PairOf, ParseU16;
    assert (pieces + [piece])[..|pieces|] == pieces;
  }

  /** The values of the first `n` fields. */
  lemma {:induction false} FieldsSoFar(f: ConnectForm, n: nat)
    requires f.mqttPort < 0x1_0000 && n <= 4
    ensures var pieces := Fields(f)[..n];
            && LastValue(pieces, SSID) == (if n < 1 then None else Some(f.ssid))
            && LastValue(pieces, PASSWORD) == (if n < 2 then None else Some(f.password))
            && LastValue(pieces, MQTT_HOST) == (if n < 3 then None else Some(f.mqttHost))
            && LastPort(pieces) == (if n < 4 then DEFAULT_PORT else f.mqttPort)
  {
    hide PairOf, ParseU16, Decimal, FieldText;
    if n > 0 {
      FieldsSoFar(f, n - 1);
      KeysDiffer();
      PairOfField(SSID, f.ssid);
      PairOfField(PASSWORD, f.password);
      PairOfField(MQTT_HOST, f.mqttHost);
      PairOfField(MQTT_PORT, Decimal(f.mqttPort));
      DecimalParses(f.mqttPort);
      LastOf(Fields(f)[..n - 1], Fields(f)[n - 1]);
      assert Fields(f)[..n] == Fields(f)[..n - 1] + [Fields(f)[n - 1]];
    }
  }

  // ---- the port ----------------------------------------------------------------------------------------

  function Zeros(n: nat): (s: seq<byte>)
    ensures |s| == n
  {
    seq(n, _ => 48)
  }

  /** A port is a decimal number below 65536, with leading zeros and a plus sign if the client likes. */
  lemma PortNumbers(n: nat, zeros: nat)
    ensures var port := if n < 65536 then Some(n) else None;
            ParseU16(Zeros(zeros) + Decimal(n)) == port && ParseU16([43] + (Zeros(zeros) + Decimal(n))) == port
  {
    hide Decimal, NumberOf;
    var digits := Zeros(zeros) + Decimal(n);
    ZerosAdd(zeros, Decimal(n));
    DecimalValue(n);
    assert ([43] + digits)[1..] == digits;
    assert digits[0] != PLUS;
  }

  lemma {:induction false} ZerosAdd(zeros: nat, digits: seq<byte>)
    requires AllDigits(digits)
    ensures NumberOf(Zeros(zeros) + digits) == NumberOf(digits)
    decreases zeros + |digits|
  {
    var all := Zeros(zeros) + digits;
    if |digits| > 0 {
      var n := |digits| - 1;
      assert all[..|all| - 1] == Zeros(zeros) + digits[..n];
      ZerosAdd(zeros, digits[..n]);
    } else if zeros > 0 {
      assert all[..|all| - 1] == Zeros(zeros - 1) + digits;
      ZerosAdd(zeros - 1, digits);
    }
  }

  /** No digits, or anything but a digit after the sign, is no port. */
  lemma PortRefused(text: seq<byte>, k: nat)
    requires k < |text| && !(48 <= text[k] <= 57) && (k > 0 || text[0] != 43)
    ensures ParseU16(text) == None && ParseU16([]) == None && ParseU16([43]) == None
  {
    assert [43 as byte][1..] == [];
    if text[0] == PLUS {
      assert text[1..][k - 1] == text[k];
    }
  }

  // ---- any list of fields ----------------------------------------------------------------------------

  function FieldTexts(fields: seq<Pair>): (texts: seq<seq<byte>>)
    ensures |texts| == |fields|
  {
    seq(|fields|, k requires 0 <= k < |fields| => FieldText(fields[k].key, fields[k].val))
  }

  /** A list of fields as one string, before percent-encoding. */
  function FieldsText(fields: seq<Pair>): seq<byte>
    requires |fields| > 0
  {
    var n := |fields| - 1;
    Ampersands(FieldTexts(fields)[..n]) + FieldTexts(fields)[n]
  }

  /** No key has an '=' or '&', no value an '&'. */
  predicate Clean(fields: seq<Pair>) {
    forall k | 0 <= k < |fields| :: EQUALS !in fields[k].key && AMP !in fields[k].key && AMP !in fields[k].val
  }

  /** The fields as assignments, later ones overwriting earlier ones. */
  function Bindings(fields: seq<Pair>): map<seq<byte>, seq<byte>> {
    if |fields| == 0 then map[]
    else
      var last := fields[|fields| - 1];
      Bindings(fields[..|fields| - 1])[last.key := last.val]
  }

  /** The last port field that is a number, else the default. */
  function PortOf(fields: seq<Pair>): nat {
    if |fields| == 0 then DEFAULT_PORT
    else
      var last := fields[|fields| - 1];
      if last.key == MQTT_PORT && ParseU16(last.val).Some? then ParseU16(last.val).value
      else PortOf(fields[..|fields| - 1])
  }

  /** Main theorem of the parser on whole forms: of any fields in any order, unknown ones included, the form is what
      the last field of each known key says, the SSID and password required. */
  lemma FieldsAreParsed(fields: seq<Pair>)
    requires |fields| > 0 && Clean(fields)
    ensures var b := Bindings(fields);
            FormOf(FieldsText(fields)) ==
            if SSID !in b || PASSWORD !in b then Err(MissingFormField)
            else Ok(ConnectForm(b[SSID], b[PASSWORD], if MQTT_HOST in b then b[MQTT_HOST] else [], PortOf(fields)))
  {
    hide Pieces, LastValue, LastPort, Bindings, PortOf, FieldsText, FieldTexts, Clean;
    FieldPieces(fields);
    FieldsBind(fields, SSID);
    FieldsBind(fields, PASSWORD);
    FieldsBind(fields, MQTT_HOST);
  }

  lemma FieldPieces(fields: seq<Pair>)
    requires |fields| > 0 && Clean(fields)
    ensures Pieces(FieldsText(fields)) == FieldTexts(fields)
  {
    hide Pieces, Ampersands, FieldTexts, Clean;
    var texts, n := FieldTexts(fields), |fields| - 1;
    FieldTextsClean(fields);
    PiecesOfJoined(texts[..n], texts[n]);
    assert texts[..n] + [texts[n]] == texts;
  }

  lemma FieldTextsClean(fields: seq<Pair>)
    requires Clean(fields)
    ensures forall k | 0 <= k < |fields| :: AMP !in FieldTexts(fields)[k]
  {
  }

  lemma {:induction false} FieldsBind(fields: seq<Pair>, key: seq<byte>)
    requires Clean(fields)
    ensures LastValue(FieldTexts(fields), key)
         == if key in Bindings(fields) then Some(Bindings(fields)[key]) else None
    ensures LastPort(FieldTexts(fields)) == PortOf(fields)
  {
    hide PairOf, ParseU16, FieldText, LastValue, LastPort;
    if |fields| == 0 {
      NoPieces();
    } else {
      var n := |fields| - 1;
      FieldsBind(fields[..n], key);
      PairOfField(fields[n].key, fields[n].val);
      LastOf(FieldTexts(fields[..n]), FieldTexts(fields)[n]);
      assert FieldTexts(fields) == FieldTexts(fields[..n]) + [FieldTexts(fields)[n]];
    }
  }

  /** The texts "ssid=x&password=y&mqtt_host=z&mqtt_port=99" and, with neither host nor port, "ssid=x&password=y". */
  lemma KnownForms()
    ensures FormOf([115, 115, 105, 100, 61, 120] + [38] + [112, 97, 115, 115, 119, 111, 114, 100, 61, 121] + [38]
                   + [109, 113, 116, 116, 95, 104, 111, 115, 116, 61, 122] + [38]
                   + [109, 113, 116, 116, 95, 112, 111, 114, 116, 61, 57, 57])
         == Ok(ConnectForm([120], [121], [122], 99))
    ensures FormOf([115, 115, 105, 100, 61, 120] + [38] + [112, 97, 115, 115, 119, 111, 114, 100, 61, 121])
         == Ok(ConnectForm([120], [121], [], 1883))
  {
    hide FormOf, FormText, CutForm, Decimal, Fields;
    var f := ConnectForm([120], [121], [122], 99);
    var p, text := Fields(f), FormText(f);
    KnownFields(f);
    KnownCuts(f);
    KnownText(f);
    CutIsParsed(f, 17);
    CutIsParsed(f, |text|);
    assert text[..|text|] == text && text[..17] == p[0] + [AMP] + p[1];
  }

  lemma KnownText(f: ConnectForm)
    ensures var p := Fields(f); FormText(f) == p[0] + [AMP] + p[1] + [AMP] + p[2] + [AMP] + p[3]
  {
    hide Fields, Ampersands;
    var p := Fields(f);
    JoinedFields(p[0], p[1], p[2]);
    assert p[..3] == [p[0], p[1], p[2]];
    assert p[0] + [AMP] + (p[1] + [AMP] + (p[2] + [AMP])) + p[3]
        == p[0] + [AMP] + p[1] + [AMP] + p[2] + [AMP] + p[3];
  }

  lemma NinetyNine()
    ensures Decimal(99) == [57, 57]
  {
    assert Decimal(9) == [57];
  }

  lemma KnownFields(f: ConnectForm)
    requires f == ConnectForm([120], [121], [122], 99)
    ensures var p := Fields(f);
            && p[0] == [115, 115, 105, 100, 61, 120]
            && p[1] == [112, 97, 115, 115, 119, 111, 114, 100, 61, 121]
            && p[2] == [109, 113, 116, 116, 95, 104, 111, 115, 116, 61, 122]
            && p[3] == [109, 113, 116, 116, 95, 112, 111, 114, 116, 61, 57, 57]
  {
    hide Decimal;
    NinetyNine();
  }

  lemma KnownCuts(f: ConnectForm)
    requires f == ConnectForm([120], [121], [122], 99)
    ensures CutForm(f, 17) == Ok(ConnectForm([120], [121], [], 1883))
    ensures CutForm(f, |FormText(f)|) == Ok(f) && |FormText(f)| >= 17
  {
    hide Decimal, ParseU16, FormText;
    NinetyNine();
    DecimalParses(99);
    FieldBounds(f, 0);
    EmptyPort();
  }

  lemma NoPieces()
    ensures (forall key :: LastValue([], key) == None) && LastPort([]) == DEFAULT_PORT
  {
  }

  predicate IsLastField(fields: seq<Pair>, key: seq<byte>, k: nat)
    requires k < |fields|
  {
    fields[k].key == key && forall j | k < j < |fields| :: fields[j].key != key
  }

  /** The binding of a key is the value of its last field. */
  lemma {:induction false} LastFieldBinds(fields: seq<Pair>, key: seq<byte>, k: nat)
    requires k < |fields| && IsLastField(fields, key, k)
    ensures key in Bindings(fields) && Bindings(fields)[key] == fields[k].val
  {
    var n := |fields| - 1;
    if k < n {
      assert fields[n].key != key;
      assert forall j | 0 <= j < n :: fields[..n][j] == fields[j];
      LastFieldBinds(fields[..n], key, k);
    }
  }

  const SSID_MANUAL: seq<byte> := SSID + [95, 109, 97, 110, 117, 97, 108]  // "ssid_manual"

  /** The fields of the page the portal serves, in its order. */
  function PageFields(f: ConnectForm, manual: seq<byte>): (p: seq<Pair>)
    ensures |p| == 5
  {
    [Pair(SSID, f.ssid), Pair(SSID_MANUAL, manual), Pair(PASSWORD, f.password), Pair(MQTT_HOST, f.mqttHost),
     Pair(MQTT_PORT, Decimal(f.mqttPort))]
  }

  /** The page's manual SSID is ignored, whatever is typed there: the form is that of the selected network. */
  lemma ManualIgnored(f: ConnectForm, manual: seq<byte>)
    requires f.mqttPort < 0x1_0000 && NoAmp(f) && AMP !in manual
    ensures FormOf(FieldsText(PageFields(f, manual))) == Ok(f)
  {
    hide FieldsText, Decimal, ParseU16, Bindings, PortOf, FormOf, IsLastField, Clean;
    var p := PageFields(f, manual);
    KeysDiffer();
    PageClean(f, manual);
    FieldsAreParsed(p);
    PageFieldsLast(f, manual);
    LastFieldBinds(p, SSID, 0);
    LastFieldBinds(p, PASSWORD, 2);
    LastFieldBinds(p, MQTT_HOST, 3);
    DecimalParses(f.mqttPort);
    PortIsLast(p);
  }

  lemma PageClean(f: ConnectForm, manual: seq<byte>)
    requires NoAmp(f) && AMP !in manual
    ensures Clean(PageFields(f, manual))
  {
    hide Decimal;
    assert EQUALS !in SSID && AMP !in SSID && EQUALS !in SSID_MANUAL && AMP !in SSID_MANUAL;
    assert EQUALS !in PASSWORD && AMP !in PASSWORD;
    assert EQUALS !in MQTT_HOST && AMP !in MQTT_HOST && EQUALS !in MQTT_PORT && AMP !in MQTT_PORT;
    var digits := Decimal(f.mqttPort);
    assert AMP !in digits;
  }

  lemma PageFieldsLast(f: ConnectForm, manual: seq<byte>)
    ensures var p := PageFields(f, manual);
            IsLastField(p, SSID, 0) && IsLastField(p, PASSWORD, 2) && IsLastField(p, MQTT_HOST, 3)
    ensures SSID_MANUAL != SSID && SSID_MANUAL != PASSWORD && SSID_MANUAL != MQTT_HOST && EQUALS !in SSID_MANUAL
  {
    hide Decimal;
    KeysDiffer();
    assert |SSID_MANUAL| == 11 && |SSID| == 4 && |PASSWORD| == 8 && |MQTT_HOST| == 9;
  }

  lemma PortIsLast(fields: seq<Pair>)
    requires |fields| > 0 && fields[|fields| - 1].key == MQTT_PORT
    ensures var port := ParseU16(fields[|fields| - 1].val); port.Some? ==> PortOf(fields) == port.value
  {
    hide ParseU16;
  }

  // ---- a form whose text is cut ----------------------------------------------------------------------

  /** The first `n` bytes of a value, none for a negative `n`. */
  function Part(val: seq<byte>, n: int): seq<byte> {
    if n <= 0 then [] else if n < |val| then val[..n] else val
  }

  function PortIn(digits: seq<byte>): nat {
    var port := ParseU16(digits);
    if port.Some? then port.value else DEFAULT_PORT
  }

  /** Where the values start in the text of a form. */
  function PasswordAt(f: ConnectForm): nat {
    |SSID| + 1 + |f.ssid| + 1 + |PASSWORD| + 1
  }

  function HostAt(f: ConnectForm): nat {
    PasswordAt(f) + |f.password| + 1 + |MQTT_HOST| + 1
  }

  function PortAt(f: ConnectForm): nat {
    HostAt(f) + |f.mqttHost| + 1 + |MQTT_PORT| + 1
  }

  /** What the first `m` bytes of a form's text are parsed as: nothing before the password's key is complete, then
      the values as far as they go. */
  function CutForm(f: ConnectForm, m: nat): Result<ConnectForm, ParseError> {
    if m < PasswordAt(f) - 1 then Err(MissingFormField)
    else Ok(ConnectForm(f.ssid, Part(f.password, m - PasswordAt(f)), Part(f.mqttHost, m - HostAt(f)),
                        PortIn(Part(Decimal(f.mqttPort), m - PortAt(f)))))
  }

  lemma {:induction false} PairOfKey(key: seq<byte>)
    requires EQUALS !in key
    ensures PairOf(key) == Pair(key, [])
  {
    if |key| > 0 {
      PairOfKey(key[1..]);
      assert [key[0]] + key[1..] == key;
    }
  }

  lemma PairOfCut(key: seq<byte>, val: seq<byte>, j: nat)
    requires EQUALS !in key && j <= |FieldText(key, val)|
    ensures PairOf(FieldText(key, val)[..j]) == Pair(key[..Min(j, |key|)], Part(val, j - |key| - 1))
  {
    hide PairOf;
    var text := FieldText(key, val);
    if j <= |key| {
      assert text[..j] == key[..j];
      PairOfKey(key[..j]);
    } else {
      assert text[..j] == FieldText(key, val[..j - |key| - 1]);
      PairOfField(key, val[..j - |key| - 1]);
    }
  }

  lemma {:induction false} JoinedAt(pieces: seq<seq<byte>>, n: nat)
    requires n < |pieces|
    ensures Ampersands(pieces) == Ampersands(pieces[..n]) + pieces[n] + [AMP] + Ampersands(pieces[n + 1..])
  {
    if n > 0 {
      JoinedAt(pieces[1..], n - 1);
      assert pieces[1..][..n - 1] == pieces[..n][1..] && pieces[1..][n..] == pieces[n + 1..];
    }
  }

  /** Where field `n` starts. */
  lemma FieldAt(f: ConnectForm, n: nat)
    requires n < 4
    ensures |Ampersands(Fields(f)[..n])|
         == if n == 0 then 0
            else if n == 1 then PasswordAt(f) - |PASSWORD| - 1
            else if n == 2 then HostAt(f) - |MQTT_HOST| - 1
            else PortAt(f) - |MQTT_PORT| - 1
    decreases n
  {
    hide Decimal;
    if n > 0 {
      FieldAt(f, n - 1);
      JoinedAt(Fields(f)[..n], n - 1);
      assert Fields(f)[..n][..n - 1] == Fields(f)[..n - 1] && Fields(f)[..n][n..] == [];
    }
  }

  /** The form text, cut inside field `n`. */
  lemma CutPieces(f: ConnectForm, n: nat, j: nat)
    requires n < 4 && j <= |Fields(f)[n]|
    ensures var head := Ampersands(Fields(f)[..n]);
            && |head| + j <= |FormText(f)|
            && FormText(f)[..|head| + j] == head + Fields(f)[n][..j]
            && (NoAmp(f) ==> Pieces(head + Fields(f)[n][..j]) == Fields(f)[..n] + [Fields(f)[n][..j]])
  {
    hide Pieces, Fields, Ampersands;
    var p, head := Fields(f), Ampersands(Fields(f)[..n]);
    if n < 3 {
      JoinedAt(p[..3], n);
      assert p[..3][..n] == p[..n];
      assert FormText(f) == head + p[n] + ([AMP] + Ampersands(p[..3][n + 1..]) + p[3]);
    }
    if NoAmp(f) {
      FieldsHaveNoAmp(f);
      PiecesOfJoined(p[..n], p[n][..j]);
    }
  }

  lemma FieldsHaveNoAmp(f: ConnectForm)
    requires NoAmp(f)
    ensures forall k | 0 <= k < 4 :: AMP !in Fields(f)[k]
  {
    hide Decimal;
  }

  /** Where a cut form's text ends: in which field and how far in. */
  function FieldOf(f: ConnectForm, m: nat): (n: nat)
    ensures n < 4
  {
    if m < PasswordAt(f) - |PASSWORD| - 1 then 0
    else if m < HostAt(f) - |MQTT_HOST| - 1 then 1
    else if m < PortAt(f) - |MQTT_PORT| - 1 then 2
    else 3
  }

  lemma FieldBounds(f: ConnectForm, m: nat)
    requires m <= |FormText(f)|
    ensures var start := |Ampersands(Fields(f)[..FieldOf(f, m)])|;
            start <= m <= start + |Fields(f)[FieldOf(f, m)]|
    ensures |FormText(f)| == PortAt(f) + |Decimal(f.mqttPort)|
  {
    hide Decimal, Ampersands;
    FieldAt(f, FieldOf(f, m));
    FieldAt(f, 3);
  }

  /** Main lemma of the parser: what it makes of every prefix of a form's text. */
  lemma CutIsParsed(f: ConnectForm, m: nat)
    requires f.mqttPort < 0x1_0000 && NoAmp(f) && m <= |FormText(f)|
    ensures FormOf(FormText(f)[..m]) == CutForm(f, m)
  {
    hide Pieces, FormOfPieces, CutForm, Decimal, FieldText, Ampersands, FormText;
    var n := FieldOf(f, m);
    var j := m - |Ampersands(Fields(f)[..n])|;
    FieldBounds(f, m);
    FieldAt(f, n);
    CutPieces(f, n, j);
    if n < 2 {
      CutEarly(f, m, j);
    } else {
      CutLate(f, m, j);
    }
  }

  lemma CutEarly(f: ConnectForm, m: nat, j: nat)
    requires f.mqttPort < 0x1_0000 && FieldOf(f, m) < 2 && j <= |Fields(f)[FieldOf(f, m)]|
    requires m == j + if FieldOf(f, m) == 0 then 0 else PasswordAt(f) - |PASSWORD| - 1
    ensures (var n := FieldOf(f, m); FormOfPieces(Fields(f)[..n] + [Fields(f)[n][..j]]) == CutForm(f, m))
  {
    hide PairOf, ParseU16, Decimal, FieldText, LastValue, LastPort, PortIn;
    var n := FieldOf(f, m);
    FieldsSoFar(f, n);
    LastOf(Fields(f)[..n], Fields(f)[n][..j]);
    KeysDiffer();
    EmptyPort();
    if n == 0 {
      PairOfCut(SSID, f.ssid, j);
    } else {
      PairOfCut(PASSWORD, f.password, j);
    }
  }

  lemma CutLate(f: ConnectForm, m: nat, j: nat)
    requires f.mqttPort < 0x1_0000 && FieldOf(f, m) >= 2 && j <= |Fields(f)[FieldOf(f, m)]|
    requires m == j + if FieldOf(f, m) == 2 then HostAt(f) - |MQTT_HOST| - 1 else PortAt(f) - |MQTT_PORT| - 1
    ensures (var n := FieldOf(f, m); FormOfPieces(Fields(f)[..n] + [Fields(f)[n][..j]]) == CutForm(f, m))
  {
    hide PairOf, ParseU16, Decimal, FieldText, LastValue, LastPort;
    var n := FieldOf(f, m);
    FieldsSoFar(f, n);
    LastOf(Fields(f)[..n], Fields(f)[n][..j]);
    KeysDiffer();
    EmptyPort();
    if n == 2 {
      PairOfCut(MQTT_HOST, f.mqttHost, j);
      assert MQTT_HOST[0] != SSID[0] && MQTT_HOST[0] != PASSWORD[0];
    } else {
      PairOfCut(MQTT_PORT, Decimal(f.mqttPort), j);
      assert MQTT_PORT[0] != SSID[0] && MQTT_PORT[0] != PASSWORD[0];
    }
  }

  lemma EmptyPort()
    ensures PortIn([]) == DEFAULT_PORT
  {
  }

  /** The part of a form's text its values need when the port is the default one. */
  function Needed(f: ConnectForm): nat {
    if f.mqttHost != [] then HostAt(f) + |f.mqttHost|
    else if f.password != [] then PasswordAt(f) + |f.password|
    else PasswordAt(f) - 1
  }

  predicate Enough(f: ConnectForm, m: nat) {
    m == |FormText(f)| || (f.mqttPort == 1883 && Needed(f) <= m <= PortAt(f))
  }

  lemma {:induction false} DecimalCut(n: nat, j: nat)
    requires n < 0x1_0000 && 0 < j < |Decimal(n)|
    ensures ParseU16(Decimal(n)[..j]).Some? && ParseU16(Decimal(n)[..j]).value < n
  {
    hide ParseU16;
    var shorter := Decimal(n / 10);
    assert Decimal(n) == shorter + [48 + n % 10];
    if j < |shorter| {
      DecimalCut(n / 10, j);
      assert Decimal(n)[..j] == shorter[..j];
    } else {
      DecimalParses(n / 10);
      assert Decimal(n)[..j] == shorter;
    }
  }

  /** A prefix of a form's text parses back to the form exactly when no value contains '&' and the prefix is long
      enough: the whole text, or all values that are not empty if the port is the default. */
  lemma FormParsesBackIff(f: ConnectForm, m: nat)
    requires f.mqttPort < 0x1_0000 && m <= |FormText(f)|
    ensures FormOf(FormText(f)[..m]) == Ok(f) <==> NoAmp(f) && Enough(f, m)
  {
    hide FormOf, FormText, ParseU16, Decimal;
    ParsedHasNoAmp(FormText(f)[..m]);
    if NoAmp(f) {
      CutIsParsed(f, m);
      FieldBounds(f, m);
      EmptyPort();
      var digits, j := Decimal(f.mqttPort), m - PortAt(f);
      DecimalParses(f.mqttPort);
      if 0 < j < |digits| {
        DecimalCut(f.mqttPort, j);
      }
    }
  }

  // ---- a request's body ------------------------------------------------------------------------------

  const BODY_LIMIT := 256

  /** The body that is read: what arrives of the declared length, at most 256 bytes; none without a length. */
  function BodyOf(stream: seq<byte>, declared: Option<nat>): seq<byte> {
    stream[..Min(Min(BODY_LIMIT, if declared.Some? then declared.value else 0), |stream|)]
  }

  method ReadBody(socket: Socket, declared: Option<nat>) returns (body: seq<byte>)
    modifies socket`script
    ensures body == BodyOf(old(socket.Pending()), declared)
    ensures declared.None? ==> body == []
    ensures declared.Some? ==>
              body == old(socket.Pending())[..Min(256, Min(declared.value, |old(socket.Pending())|))]
  {
    hide Socket.Pending, Socket.End;
    var length := Min(BODY_LIMIT, if declared.Some? then declared.value else 0);
    var buf := new byte[BODY_LIMIT](_ => 0);
    var read := 0;
    ghost var all := socket.Pending();
    while read < length
      invariant 0 <= read <= length && read <= |all|
      invariant buf[..read] == all[..read] && socket.Pending() == all[read..]
    {
      var got := socket.Read(buf, read, length);
      if got.Failed? {
        break;
      }
      TakeAppend(all, read, read + got.n);
      assert all[read..][..got.n] == all[read..read + got.n];
      read := read + got.n;
    }
    body := buf[..read];
  }

  /** Copying a value into a string of fixed capacity: one that is too long is dropped. */
  function Capped(val: seq<byte>, capacity: nat): seq<byte> {
    if |val| <= capacity then val else []
  }

  const SSID_CAPACITY := 32
  const VALUE_CAPACITY := 64

  function Stored(f: ConnectForm): ConnectForm {
    ConnectForm(Capped(f.ssid, SSID_CAPACITY), Capped(f.password, VALUE_CAPACITY),
                Capped(f.mqttHost, VALUE_CAPACITY), f.mqttPort)
  }

  /** The credentials a body is accepted with, none for an error page. */
  function Submitted(body: seq<byte>): Option<ConnectForm> {
    var decoded := DecodedUrl(body);
    if decoded.Err? || FormOf(decoded.value).Err? then None else Some(Stored(FormOf(decoded.value).value))
  }

  /** `POST /connect` up to `handle_provision`: read, decode, parse, copy. */
  method HandleConnect(socket: Socket, declared: Option<nat>) returns (form: Option<ConnectForm>)
    modifies socket`script
    ensures form == Submitted(BodyOf(old(socket.Pending()), declared))
  {
    hide BodyOf, DecodedUrl, FormOf;
    var body := ReadBody(socket, declared);
    var buf := new byte[CAPACITY](_ => 0);
    var decoded := DecodeUrlEncoded(body, buf);
    if decoded.Err? {
      return None;
    }
    var f := ParseConnectForm(decoded.value);
    if f.Err? {
      return None;
    }
    form := Some(ConnectForm(Capped(f.value.ssid, SSID_CAPACITY), Capped(f.value.password, VALUE_CAPACITY),
                             Capped(f.value.mqttHost, VALUE_CAPACITY), f.value.mqttPort));
  }

  lemma {:induction false} PieceOrMore(text: seq<byte>) returns (head: seq<byte>, tail: seq<byte>)
    ensures AMP !in head && (text == head || text == head + [AMP] + tail)
  {
    if |text| == 0 || text[0] == AMP {
      head, tail := [], if |text| == 0 then [] else text[1..];
      assert |text| > 0 ==> text == [] + [AMP] + tail;
    } else {
      head, tail := PieceOrMore(text[1..]);
      assert text == [text[0]] + text[1..];
      assert [text[0]] + (head + [AMP] + tail) == [text[0]] + head + [AMP] + tail;
      head := [text[0]] + head;
    }
  }

  /** The pieces of valid text are valid: it is only cut at ASCII bytes. */
  lemma {:induction false} PiecesValid(text: seq<byte>)
    requires Utf8.Valid(text)
    ensures forall k | 0 <= k < |Pieces(text)| :: Utf8.Valid(Pieces(text)[k])
    decreases |text|
  {
    hide Pieces, Utf8.Valid;
    var head, tail := PieceOrMore(text);
    if text == head {
      PiecesLast(head);
    } else {
      Utf8.AsciiSplits(head, AMP, tail);
      PiecesFirst(head, tail);
      PiecesValid(tail);
    }
  }

  lemma {:induction false} PairParts(piece: seq<byte>)
    ensures var p := PairOf(piece); (p.val == [] && p.key == piece) || piece == p.key + [EQUALS] + p.val
  {
    if |piece| > 0 {
      if piece[0] == EQUALS {
        assert piece == [] + [EQUALS] + piece[1..];
      } else {
        PairParts(piece[1..]);
        assert piece == [piece[0]] + piece[1..];
      }
    }
  }

  lemma PairValid(piece: seq<byte>)
    requires Utf8.Valid(piece)
    ensures Utf8.Valid(PairOf(piece).val)
  {
    hide PairOf, Utf8.Valid;
    PairParts(piece);
    var p := PairOf(piece);
    if piece == p.key + [EQUALS] + p.val {
      Utf8.AsciiSplits(p.key, EQUALS, p.val);
    } else {
      Utf8.AsciiValid([]);
    }
  }

  lemma {:induction false} LastValueValid(pieces: seq<seq<byte>>, key: seq<byte>)
    requires forall k | 0 <= k < |pieces| :: Utf8.Valid(pieces[k])
    ensures LastValue(pieces, key).Some? ==> Utf8.Valid(LastValue(pieces, key).value)
  {
    hide PairOf, Utf8.Valid;
    if |pieces| > 0 {
      PairValid(pieces[|pieces| - 1]);
      LastValueValid(pieces[..|pieces| - 1], key);
    }
  }

  lemma {:induction false} LastPortIsU16(pieces: seq<seq<byte>>)
    ensures LastPort(pieces) < 0x1_0000
  {
    hide PairOf, ParseU16;
    if |pieces| > 0 {
      LastPortIsU16(pieces[..|pieces| - 1]);
    }
  }

  /** Whatever body is accepted, the credentials are valid text that fits the fixed strings. */
  lemma SubmittedIsValid(body: seq<byte>)
    ensures Submitted(body).Some? ==> ValuesValid(Submitted(body).value) && ValuesFit(Submitted(body).value)
  {
    hide DecodedBytes, Pieces, LastValue, LastPort, Utf8.Valid;
    Utf8.AsciiValid([]);
    if Submitted(body).Some? {
      var text := DecodedUrl(body).value;
      var pieces := Pieces(text);
      PiecesValid(text);
      LastValueValid(pieces, SSID);
      LastValueValid(pieces, PASSWORD);
      LastValueValid(pieces, MQTT_HOST);
      LastPortIsU16(pieces);
    }
  }

  predicate Encodes(spelling: seq<Spelling>, text: seq<byte>) {
    |spelling| == |text| && forall k | 0 <= k < |text| :: Fits(text[k], spelling[k])
  }

  predicate ValuesValid(f: ConnectForm) {
    f.mqttPort < 0x1_0000 && Utf8.Valid(f.ssid) && Utf8.Valid(f.password) && Utf8.Valid(f.mqttHost)
  }

  /** What the portal reads of an encoded text sent with its length, whatever follows on the connection. */
  function Arriving(text: seq<byte>, spelling: seq<Spelling>, rest: seq<byte>): seq<byte>
    requires Encodes(spelling, text)
  {
    var body := PercentEncoded(text, spelling);
    BodyOf(body + rest, Some(|body|))
  }

  /** How many bytes of the text arrive. */
  function Arrived(text: seq<byte>, spelling: seq<Spelling>): (m: Option<nat>)
    requires Encodes(spelling, text)
    ensures m.Some? ==> m.value <= |text|
  {
    Kept(text, spelling, Min(256, |PercentEncoded(text, spelling)|))
  }

  /** What arrives decodes to a prefix of the text, or is refused. */
  lemma ArrivingDecodes(text: seq<byte>, spelling: seq<Spelling>, rest: seq<byte>)
    requires Encodes(spelling, text)
    ensures var m, decoded := Arrived(text, spelling), DecodedUrl(Arriving(text, spelling, rest));
            if m.Some? && m.value <= CAPACITY && Utf8.Valid(text[..m.value])
            then decoded == Ok(text[..m.value]) else decoded.Err?
    ensures |PercentEncoded(text, spelling)| <= BODY_LIMIT ==> Arrived(text, spelling) == Some(|text|)
  {
    hide Kept, DecodedBytes, PercentEncoded, Utf8.Valid;
    var body := PercentEncoded(text, spelling);
    var limit := Min(BODY_LIMIT, |body|);
    assert (body + rest)[..limit] == body[..limit];
    CutDecodes(text, spelling, limit, CAPACITY);
    if |body| <= BODY_LIMIT {
      KeptAll(text, spelling);
    }
  }

  /** Main theorem: exactly when a form comes back, however a client percent-encodes it and whatever its values.
      No value may contain '&', the values must fit the fixed strings, and what arrives of the 256 bytes that are
      read must stop between characters, decode to at most 128 bytes, and be enough of the form. */
  lemma FormRoundTrip(f: ConnectForm, spelling: seq<Spelling>, rest: seq<byte>)
    requires ValuesValid(f) && Encodes(spelling, FormText(f))
    ensures var m := Arrived(FormText(f), spelling);
            Submitted(Arriving(FormText(f), spelling, rest)) == Some(f) <==>
              NoAmp(f) && ValuesFit(f) && m.Some? && m.value <= 128 && Enough(f, m.value)
    ensures |PercentEncoded(FormText(f), spelling)| <= 256 ==>
              (Submitted(Arriving(FormText(f), spelling, rest)) == Some(f) <==>
                 NoAmp(f) && ValuesFit(f) && |FormText(f)| <= 128)
  {
    hide FormOf, FormText, DecodedUrl, Arriving, Arrived, PercentEncoded, Encodes, Utf8.Valid;
    var m, decoded := Arrived(FormText(f), spelling), DecodedUrl(Arriving(FormText(f), spelling, rest));
    ArrivingDecodes(FormText(f), spelling, rest);
    if m.Some? {
      FormParsesBackIff(f, m.value);
      if NoAmp(f) && Enough(f, m.value) {
        CutValid(f, m.value);
      }
      if decoded.Ok? {
        CappedBackIff(f, m.value);
      }
    }
  }

  /** What a form without '&' that is not refused comes back as: the part of it that arrives. */
  lemma CutSubmitted(f: ConnectForm, spelling: seq<Spelling>, rest: seq<byte>)
    requires ValuesValid(f) && Encodes(spelling, FormText(f)) && NoAmp(f)
    ensures var m := Arrived(FormText(f), spelling);
            Submitted(Arriving(FormText(f), spelling, rest)) ==
            if m.Some? && m.value <= 128 && Utf8.Valid(FormText(f)[..m.value]) && CutForm(f, m.value).Ok?
            then
              var g := CutForm(f, m.value).value;
              Some(ConnectForm(if |g.ssid| <= 32 then g.ssid else [], if |g.password| <= 64 then g.password else [],
                               if |g.mqttHost| <= 64 then g.mqttHost else [], g.mqttPort))
            else None
  {
    hide FormOf, FormText, DecodedUrl, Arriving, Arrived, PercentEncoded, Encodes, CutForm, Utf8.Valid;
    ArrivingDecodes(FormText(f), spelling, rest);
    if Arrived(FormText(f), spelling).Some? {
      CutIsParsed(f, Arrived(FormText(f), spelling).value);
    }
  }

  predicate ValuesFit(f: ConnectForm) {
    |f.ssid| <= 32 && |f.password| <= 64 && |f.mqttHost| <= 64
  }

  /** Dropping long values never makes a cut form whole again. */
  lemma CappedBackIff(f: ConnectForm, m: nat)
    requires f.mqttPort < 0x1_0000 && m <= |FormText(f)|
    ensures var parsed := FormOf(FormText(f)[..m]);
            parsed.Ok? ==> (Stored(parsed.value) == f <==> parsed.value == f && ValuesFit(f))
  {
    hide FormOf, FormText, PortIn, Decimal;
    ParsedHasNoAmp(FormText(f)[..m]);
    if NoAmp(f) {
      CutIsParsed(f, m);
    }
  }

  /** A form submitted from the portal's own page, by a browser that encodes as it likes, comes back whatever is in
      the manual SSID, as long as no value has an '&', all fit, and the text fits; a value with an '&' never does. */
  lemma PageRoundTrip(f: ConnectForm, manual: seq<byte>, spelling: seq<Spelling>, rest: seq<byte>)
    requires ValuesValid(f) && Utf8.Valid(manual) && AMP !in manual
    requires Encodes(spelling, FieldsText(PageFields(f, manual)))
    requires |PercentEncoded(FieldsText(PageFields(f, manual)), spelling)| <= BODY_LIMIT
    ensures var text := FieldsText(PageFields(f, manual));
            Submitted(Arriving(text, spelling, rest)) == Some(f) <==> NoAmp(f) && ValuesFit(f) && |text| <= 128
  {
    hide FormOf, FieldsText, DecodedUrl, Arriving, Arrived, PercentEncoded, Encodes, Utf8.Valid;
    var text := FieldsText(PageFields(f, manual));
    ArrivingDecodes(text, spelling, rest);
    PageValid(f, manual);
    assert text[..|text|] == text;
    ParsedHasNoAmp(text);
    if NoAmp(f) {
      ManualIgnored(f, manual);
    }
  }

  lemma PageValid(f: ConnectForm, manual: seq<byte>)
    requires ValuesValid(f) && Utf8.Valid(manual)
    ensures Utf8.Valid(FieldsText(PageFields(f, manual)))
  {
    hide Utf8.Valid, Decimal, FieldText;
    var p := PageFields(f, manual);
    var texts := FieldTexts(p);
    Utf8.AsciiValid(p[4].val);
    forall k | 0 <= k < 5
      ensures Utf8.Valid(texts[k])
    {
      PieceValid(p[k].key, p[k].val, |texts[k]|);
      assert texts[k][..|texts[k]|] == texts[k];
    }
    JoinedValid(texts[..4], texts[4]);
  }

  // ---- what is lost ----------------------------------------------------------------------------------

  /** An '&' in the password, escaped or not, ends it: what follows is read as one more, unknown field. */
  lemma AmpersandCuts(f: ConnectForm, head: seq<byte>, tail: seq<byte>, spelling: seq<Spelling>, rest: seq<byte>)
    requires ValuesValid(f) && Encodes(spelling, FormText(f)) && |FormText(f)| <= CAPACITY
    requires |PercentEncoded(FormText(f), spelling)| <= BODY_LIMIT
    requires f.password == head + [AMP] + tail && AMP !in tail && NoAmp(f.(password := head))
    requires PairOf(tail).key !in [SSID, PASSWORD, MQTT_HOST, MQTT_PORT]
    ensures Submitted(Arriving(FormText(f), spelling, rest)) == Some(Stored(f.(password := head)))
  {
    hide Pieces, PairOf, ParseU16, Decimal, LastValue, LastPort, FormText, Utf8.Valid;
    hide Arriving, Arrived, PercentEncoded, Encodes, DecodedUrl;
    var m := |FormText(f)|;
    ArrivingDecodes(FormText(f), spelling, rest);
    CutValid(f, m);
    assert FormText(f)[..m] == FormText(f);
    ExtraPiece(f, head, tail);
    ExtraPairs(f.(password := head), tail);
  }

  lemma ExtraPiece(f: ConnectForm, head: seq<byte>, tail: seq<byte>)
    requires f.password == head + [AMP] + tail && AMP !in tail && NoAmp(f.(password := head))
    ensures var p := Fields(f.(password := head));
            Pieces(FormText(f)) == [p[0], p[1], tail, p[2], p[3]]
  {
    hide Pieces, Decimal, Ampersands;
    var p, whole := Fields(f.(password := head)), Fields(f);
    var all: seq<seq<byte>>, front: seq<seq<byte>> := [p[0], p[1], tail, p[2]], [p[0], p[1]];
    FieldsHaveNoAmp(f.(password := head));
    JoinedAt(whole[..3], 1);
    JoinedAt(all, 2);
    JoinedAt(front, 1);
    assert whole[..3][..1] == [p[0]] && front[..1] == [p[0]] && whole[..3][2..] == [p[2]] && all[3..] == [p[2]];
    assert whole[1] == p[1] + [AMP] + tail by {
      assert FieldText(PASSWORD, f.password) == FieldText(PASSWORD, head) + [AMP] + tail;
    }
    JoinedNone();
    assert all[..2] == front && |front[2..]| == 0;
    assert FormText(f) == Ampersands(all) + p[3];
    PiecesOfJoined(all, p[3]);
  }

  lemma JoinedNone()
    ensures Ampersands([]) == []
  {
  }

  lemma ExtraPairs(g: ConnectForm, tail: seq<byte>)
    requires g.mqttPort < 0x1_0000 && PairOf(tail).key !in [SSID, PASSWORD, MQTT_HOST, MQTT_PORT]
    ensures (var p := Fields(g); FormOfPieces([p[0], p[1], tail, p[2], p[3]]) == Ok(g))
  {
    hide PairOf, ParseU16, Decimal, FieldText, LastValue, LastPort;
    var p := Fields(g);
    KeysDiffer();
    FieldsSoFar(g, 2);
    PairOfField(MQTT_HOST, g.mqttHost);
    PairOfField(MQTT_PORT, Decimal(g.mqttPort));
    DecimalParses(g.mqttPort);
    assert SSID in [SSID, PASSWORD, MQTT_HOST, MQTT_PORT] && PASSWORD in [SSID, PASSWORD, MQTT_HOST, MQTT_PORT];
    assert MQTT_HOST in [SSID, PASSWORD, MQTT_HOST, MQTT_PORT] && MQTT_PORT in [SSID, PASSWORD, MQTT_HOST, MQTT_PORT];
    assert p[..2] == [p[0], p[1]];
    LastOf([p[0], p[1]], tail);
    LastOf([p[0], p[1], tail], p[2]);
    LastOf([p[0], p[1], tail, p[2]], p[3]);
    assert [p[0], p[1]] + [tail] == [p[0], p[1], tail] && [p[0], p[1], tail] + [p[2]] == [p[0], p[1], tail, p[2]];
    assert [p[0], p[1], tail, p[2]] + [p[3]] == [p[0], p[1], tail, p[2], p[3]];
  }

  /** A concrete loss: the password "a&b" arrives as "a" under every encoding, "a%26b" included. */
  lemma AmpersandLost(spelling: seq<Spelling>, rest: seq<byte>)
    requires Encodes(spelling, FormText(ConnectForm([120], [97, AMP, 98], [], 1883)))
    ensures var f := ConnectForm([120], [97, AMP, 98], [], 1883);
            Submitted(Arriving(FormText(f), spelling, rest)) == Some(ConnectForm([120], [97], [], 1883))
  {
    hide PercentEncoded, FormText, Submitted, Arriving, Decimal, Ampersands;
    var f := ConnectForm([120], [97, AMP, 98], [], 1883);
    Utf8.AsciiValid(f.ssid);
    Utf8.AsciiValid(f.password);
    Utf8.AsciiValid(f.mqttHost);
    DecimalOfDefault();
    FieldBounds(f, 0);
    EncodedLength(FormText(f), spelling);
    assert f.password == [97] + [AMP] + [98];
    PairOfKey([98]);
    KeysDiffer();
    assert |[98 as byte]| == 1 && |SSID| == 4 && |PASSWORD| == 8 && |MQTT_HOST| == 9 && |MQTT_PORT| == 9;
    AmpersandCuts(f, [97], [98], spelling, rest);
  }

  lemma DecimalOfDefault()
    ensures |Decimal(DEFAULT_PORT)| == 4
  {
    assert |Decimal(18)| == 2 && |Decimal(188)| == 3;
  }

  lemma {:induction false} EncodedLength(text: seq<byte>, spelling: seq<Spelling>)
    requires |spelling| == |text|
    ensures |PercentEncoded(text, spelling)| <= 3 * |text|
    ensures (forall k | 0 <= k < |text| :: spelling[k].Escape?) ==> |PercentEncoded(text, spelling)| == 3 * |text|
  {
    hide HexDigit;
    if |text| > 0 {
      EncodedLength(text[1..], spelling[1..]);
    }
  }

  lemma {:induction false} KeptEscapes(text: seq<byte>, spelling: seq<Spelling>, limit: nat)
    requires |spelling| == |text| && limit <= |PercentEncoded(text, spelling)|
    requires forall k | 0 <= k < |text| :: spelling[k].Escape?
    ensures Kept(text, spelling, limit) == if limit % 3 == 0 then Some(limit / 3) else None
  {
    hide HexDigit;
    if limit >= 3 {
      KeptEscapes(text[1..], spelling[1..], limit - 3);
    }
  }

  /** A form of 86 bytes or more with every byte escaped is refused: the 256 bytes read end inside an escape. */
  lemma EscapedRefused(f: ConnectForm, spelling: seq<Spelling>, rest: seq<byte>)
    requires ValuesValid(f) && Encodes(spelling, FormText(f)) && |FormText(f)| >= 86
    requires forall k | 0 <= k < |spelling| :: spelling[k].Escape?
    ensures Submitted(Arriving(FormText(f), spelling, rest)) == None
  {
    hide FormOf, FormText, DecodedUrl, Arriving, PercentEncoded, Kept, Utf8.Valid;
    ArrivingDecodes(FormText(f), spelling, rest);
    EncodedLength(FormText(f), spelling);
    KeptEscapes(FormText(f), spelling, BODY_LIMIT);
  }

  /** A concrete loss by the cut: a form of 121 bytes, all but the first escaped, is accepted with the first 51 of
      its 60 password bytes. */
  lemma CutShortens(rest: seq<byte>)
    ensures var f := ConnectForm(seq(20, _ => 120), seq(60, _ => 97), [], 1883);
            var spelling := [Plain] + seq(120, _ => Escape(true, true));
            && Encodes(spelling, FormText(f)) && NoAmp(f) && ValuesFit(f) && |FormText(f)| == 121
            && Submitted(Arriving(FormText(f), spelling, rest)) == Some(f.(password := f.password[..51]))
  {
    hide FormText, DecodedUrl, Arriving, PercentEncoded, Submitted, Decimal, Ampersands, Kept, Utf8.Valid;
    var f := ConnectForm(seq(20, _ => 120), seq(60, _ => 97), [], 1883);
    var spelling := [Plain] + seq(120, _ => Escape(true, true));
    DecimalOfDefault();
    FieldBounds(f, 0);
    FirstByte(f);
    Utf8.AsciiValid(f.ssid);
    Utf8.AsciiValid(f.password);
    Utf8.AsciiValid(f.mqttHost);
    PlainThenEscapes(FormText(f), spelling);
    FormAscii(f);
    Utf8.AsciiValid(FormText(f)[..86]);
    CutSubmitted(f, spelling, rest);
    EmptyPort();
  }

  lemma FirstByte(f: ConnectForm)
    ensures |FormText(f)| > 0 && FormText(f)[0] == SSID[0]
  {
    hide Decimal;
    CutPieces(f, 0, 1);
    assert FormText(f)[..1] == FieldText(SSID, f.ssid)[..1] by {
      assert Fields(f)[..0] == [];
    }
    assert FormText(f)[0] == FormText(f)[..1][0];
  }

  lemma PlainThenEscapes(text: seq<byte>, spelling: seq<Spelling>)
    requires |text| == |spelling| == 121 && spelling[0] == Plain
    requires forall k | 0 < k < |spelling| :: spelling[k].Escape?
    ensures |PercentEncoded(text, spelling)| == 361 && Kept(text, spelling, BODY_LIMIT) == Some(86)
  {
    hide HexDigit;
    EncodedLength(text[1..], spelling[1..]);
    KeptEscapes(text[1..], spelling[1..], 255);
  }

  lemma FormAscii(f: ConnectForm)
    requires forall k | 0 <= k < |f.ssid| :: f.ssid[k] <= 0x7F
    requires forall k | 0 <= k < |f.password| :: f.password[k] <= 0x7F
    requires forall k | 0 <= k < |f.mqttHost| :: f.mqttHost[k] <= 0x7F
    ensures forall k | 0 <= k < |FormText(f)| :: FormText(f)[k] <= 0x7F
  {
    hide Decimal;
    var p := Fields(f);
    JoinedFields(p[0], p[1], p[2]);
    assert p[..3] == [p[0], p[1], p[2]];
  }

  lemma JoinedFields(a: seq<byte>, b: seq<byte>, c: seq<byte>)
    ensures Ampersands([a, b, c]) == a + [AMP] + (b + [AMP] + (c + [AMP]))
  {
    assert [a, b, c][1..] == [b, c] && [b, c][1..] == [c] && [c][1..] == [];
    assert Ampersands([c]) == c + [AMP] + Ampersands([]);
    assert Ampersands([b, c]) == b + [AMP] + Ampersands([c]);
  }

  lemma PieceValid(key: seq<byte>, val: seq<byte>, j: nat)
    requires (forall k | 0 <= k < |key| :: key[k] <= 0x7F) && Utf8.Valid(val) && j <= |FieldText(key, val)|
    requires j == |FieldText(key, val)| || forall k | 0 <= k < |val| :: val[k] <= 0x7F
    ensures Utf8.Valid(FieldText(key, val)[..j])
  {
    hide Utf8.Valid;
    if j == |FieldText(key, val)| {
      Utf8.AsciiValid(key + [EQUALS]);
      Utf8.ValidAppend(key + [EQUALS], val);
      assert FieldText(key, val)[..j] == FieldText(key, val);
    } else {
      Utf8.AsciiValid(FieldText(key, val)[..j]);
    }
  }

  lemma {:induction false} JoinedValid(pieces: seq<seq<byte>>, last: seq<byte>)
    requires (forall k | 0 <= k < |pieces| :: Utf8.Valid(pieces[k])) && Utf8.Valid(last)
    ensures Utf8.Valid(Ampersands(pieces) + last)
  {
    hide Utf8.Valid;
    if |pieces| == 0 {
      assert Ampersands(pieces) + last == last;
    } else {
      JoinedValid(pieces[1..], last);
      Utf8.AsciiValid([AMP]);
      Utf8.ValidAppend(pieces[0], [AMP]);
      Utf8.ValidAppend(pieces[0] + [AMP], Ampersands(pieces[1..]) + last);
      assert Ampersands(pieces) + last == pieces[0] + [AMP] + (Ampersands(pieces[1..]) + last);
    }
  }

  /** A prefix that is long enough does not end inside a character. */
  lemma CutValid(f: ConnectForm, m: nat)
    requires ValuesValid(f) && Enough(f, m) && m <= |FormText(f)|
    ensures Utf8.Valid(FormText(f)[..m])
  {
    hide Utf8.Valid, Decimal, Ampersands, FormText;
    var n := FieldOf(f, m);
    var start := |Ampersands(Fields(f)[..n])|;
    FieldBounds(f, m);
    FieldAt(f, n);
    CutPieces(f, n, m - start);
    FieldsValid(f);
    Utf8.AsciiValid(Decimal(f.mqttPort));
    if n == 1 {
      PieceValid(PASSWORD, f.password, m - start);
    } else if n == 2 {
      PieceValid(MQTT_HOST, f.mqttHost, m - start);
    } else if n == 3 {
      PieceValid(MQTT_PORT, Decimal(f.mqttPort), m - start);
    }
    JoinedValid(Fields(f)[..n], Fields(f)[n][..m - start]);
  }

  lemma FieldsValid(f: ConnectForm)
    requires ValuesValid(f)
    ensures forall k | 0 <= k < 4 :: Utf8.Valid(Fields(f)[k])
  {
    hide Utf8.Valid, Decimal;
    var p, port := Fields(f), Decimal(f.mqttPort);
    Utf8.AsciiValid(port);
    PieceValid(SSID, f.ssid, |p[0]|);
    PieceValid(PASSWORD, f.password, |p[1]|);
    PieceValid(MQTT_HOST, f.mqttHost, |p[2]|);
    PieceValid(MQTT_PORT, port, |p[3]|);
    assert forall k | 0 <= k < 4 :: p[k][..|p[k]|] == p[k];
  }
}
