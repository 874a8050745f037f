/** The minimal DHCP server of src/net.rs: option lookup (section 2 of RFC 2132), the fixed reply, and which
    packets are answered. */
module Dhcp {
  import opened Bytes

  const OPTIONS_AT := 240
  const END: byte := 255
  const PAD: byte := 0

  // ---- option lookup ---------------------------------------------------------------------------

  /** Looking an option up in the options area from a position on. */
  function Lookup(area: seq<byte>, option: byte): Option<byte>
    decreases |area|
  {
    if |area| == 0 || area[0] == END then None
    else if area[0] == PAD then Lookup(area[1..], option)
    else if |area| < 2 then None
    else
      var len := area[1];
      if area[0] == option && len >= 1 && |area| > 2 then Some(area[2])
      else if 2 + len as int <= |area| then Lookup(area[2 + len..], option)
      else None
  }

  /** The lookup from a position of the packet, past its end nothing. */
  function LookupFrom(pkt: seq<byte>, i: nat, option: byte): Option<byte> {
    if i <= |pkt| then Lookup(pkt[i..], option) else None
  }

  lemma LookupFromStep(pkt: seq<byte>, i: nat, option: byte)
    ensures LookupFrom(pkt, i, option) ==
            if i >= |pkt| || pkt[i] == END then None
            else if pkt[i] == PAD then LookupFrom(pkt, i + 1, option)
            else if i + 1 >= |pkt| then None
            else if pkt[i] == option && pkt[i + 1] >= 1 && i + 2 < |pkt| then Some(pkt[i + 2])
            else LookupFrom(pkt, i + 2 + pkt[i + 1], option)
  {
    if i < |pkt| {
      var area := pkt[i..];
      assert area[1..] == pkt[i + 1..];
      if i + 1 < |pkt| && i + 2 + pkt[i + 1] <= |pkt| {
        assert area[2 + pkt[i + 1]..] == pkt[i + 2 + pkt[i + 1]..];
      }
    }
  }

  /** `dhcp_option_u8`. */
  method DhcpOptionU8(pkt: seq<byte>, option: byte) returns (r: Option<byte>)
    ensures r == if |pkt| < OPTIONS_AT then None else Lookup(pkt[OPTIONS_AT..], option)
  {
    if |pkt| < OPTIONS_AT {
      return None;
    }
    var i := OPTIONS_AT;
    ghost var goal := LookupFrom(pkt, OPTIONS_AT, option);
    assert goal == Lookup(pkt[OPTIONS_AT..], option);
    hide Lookup, LookupFrom;
    while i < |pkt|
      invariant OPTIONS_AT <= i && goal == LookupFrom(pkt, i, option)
      decreases |pkt| - i
    {
      LookupFromStep(pkt, i, option);
      var opt := pkt[i];
      if opt == END {
        return None;
      }
      if opt == PAD {
        i := i + 1;
        continue;
      }
      if i + 1 >= |pkt| {
        return None;
      }
      var len := pkt[i + 1];
      if opt == option && len >= 1 && i + 2 < |pkt| {
        return Some(pkt[i + 2]);
      }
      i := i + 2 + len;
    }
    LookupFromStep(pkt, i, option);
    r := None;
  }

  // ---- option lists ------------------------------------------------------------------------------

  /** An options area as the standard lays it out: pads, and options with a length and that many bytes. */
  datatype Item = Pad | Opt(code: byte, data: seq<byte>)

  predicate WellFormed(i: Item) {
    i.Opt? ==> i.code != 0 && i.code != 255 && |i.data| <= 255
  }

  function ItemBytes(i: Item): seq<byte>
    requires WellFormed(i)
  {
    match i
    case Pad => [0]
    case Opt(code, data) => [code, |data|] + data
  }

  function AreaOf(items: seq<Item>): seq<byte>
    requires forall k | 0 <= k < |items| :: WellFormed(items[k])
  {
    if |items| == 0 then [] else ItemBytes(items[0]) + AreaOf(items[1..])
  }

  /** The first non-empty option with a code. */
  predicate IsFirst(items: seq<Item>, option: byte, k: nat)
    requires k < |items|
  {
    && Matches(items[k], option)
    && forall j | 0 <= j < k :: !Matches(items[j], option)
  }

  predicate Matches(i: Item, option: byte) {
    i.Opt? && i.code == option && |i.data| > 0
  }

  function FirstMatch(items: seq<Item>, option: byte): Option<byte> {
    if |items| == 0 then None
    else if Matches(items[0], option) then Some(items[0].data[0])
    else FirstMatch(items[1..], option)
  }

  lemma {:induction false} FirstMatchAt(items: seq<Item>, option: byte, k: nat)
    requires k < |items| && IsFirst(items, option, k)
    ensures FirstMatch(items, option) == Some(items[k].data[0])
  {
    if k > 0 {
      assert forall j | 0 <= j < k - 1 :: items[1..][j] == items[j + 1];
      FirstMatchAt(items[1..], option, k - 1);
    }
  }

  lemma {:induction false} NoMatch(items: seq<Item>, option: byte)
    requires forall k | 0 <= k < |items| :: !Matches(items[k], option)
    ensures FirstMatch(items, option) == None
  {
    if |items| > 0 {
      NoMatch(items[1..], option);
    }
  }

  lemma {:induction false} LookupIsFirstMatch(items: seq<Item>, trailing: seq<byte>, option: byte)
    requires forall k | 0 <= k < |items| :: WellFormed(items[k])
    ensures Lookup(AreaOf(items) + [END] + trailing, option) == FirstMatch(items, option)
    decreases |items|
  {
    hide Lookup, Matches;
    if |items| == 0 {
      LookupEnd(trailing, option);
      assert [] + [END] + trailing == [END] + trailing;
    } else {
      var rest := AreaOf(items[1..]) + [END] + trailing;
      LookupIsFirstMatch(items[1..], trailing, option);
      LookupItem(items[0], rest, option);
      assert AreaOf(items) + [END] + trailing == ItemBytes(items[0]) + rest;
    }
  }

  /** Main theorem: on any option list with pads, ended by the end marker and followed by anything, the lookup
      returns the first byte of the first non-empty option with the code, and nothing when there is none. */
  lemma LookupFindsFirst(items: seq<Item>, trailing: seq<byte>, option: byte)
    requires forall k | 0 <= k < |items| :: WellFormed(items[k])
    ensures var r := Lookup(AreaOf(items) + [255] + trailing, option);
            && (forall k | 0 <= k < |items| && IsFirst(items, option, k) :: r == Some(items[k].data[0]))
            && ((forall k | 0 <= k < |items| :: !Matches(items[k], option)) ==> r == None)
  {
    hide Lookup, AreaOf, FirstMatch;
    LookupIsFirstMatch(items, trailing, option);
    forall k | 0 <= k < |items| && IsFirst(items, option, k)
      ensures FirstMatch(items, option) == Some(items[k].data[0])
    {
      FirstMatchAt(items, option, k);
    }
    if forall k | 0 <= k < |items| :: !Matches(items[k], option) {
      NoMatch(items, option);
    }
  }

  /** Nothing of the area is scanned from here: it is over, there is an end marker, or the last option is cut. */
  predicate StopsScan(rest: seq<byte>) {
    |rest| == 0 || rest[0] == 255 || (rest[0] != 0 && (|rest| < 2 || |rest| < 2 + rest[1] as int))
  }

  /** What a cut last option still gives: its first byte, if that is there. */
  function CutOption(rest: seq<byte>, option: byte): Option<byte> {
    if |rest| > 2 && rest[0] != 255 && rest[0] == option && rest[1] >= 1 then Some(rest[2]) else None
  }

  /** Every area whatsoever is a list of pads and whole options, then something that stops the scan; what is found is
      the first byte of the first non-empty option with the code, or else that of a cut last option. */
  lemma {:induction false} EveryArea(area: seq<byte>) returns (items: seq<Item>, rest: seq<byte>)
    ensures forall k | 0 <= k < |items| :: WellFormed(items[k])
    ensures area == AreaOf(items) + rest && StopsScan(rest)
    ensures forall option: byte ::
              Lookup(area, option) ==
              if FirstMatch(items, option).Some? then FirstMatch(items, option) else CutOption(rest, option)
    decreases |area|
  {
    hide AreaOf, FirstMatch, Lookup;
    items, rest := [], area;
    NoItems();
    if StopsScan(area) {
      forall option: byte
        ensures Lookup(area, option) == CutOption(rest, option)
      {
        LookupStops(area, option);
      }
    } else {
      var item := if area[0] == PAD then Pad else Opt(area[0], area[2..2 + area[1]]);
      var later := area[|ItemBytes(item)|..];
      assert area == ItemBytes(item) + later;
      var more;
      more, rest := EveryArea(later);
      items := [item] + more;
      FirstItem(items);
      forall option: byte
        ensures Lookup(area, option) ==
                if FirstMatch(items, option).Some? then FirstMatch(items, option) else CutOption(rest, option)
      {
        LookupItem(item, later, option);
        FirstItemMatch(items, option);
      }
    }
  }

  lemma NoItems()
    ensures AreaOf([]) == [] && forall option: byte :: FirstMatch([], option) == None
  {
  }

  lemma FirstItem(items: seq<Item>)
    requires |items| > 0 && forall k | 0 <= k < |items| :: WellFormed(items[k])
    ensures AreaOf(items) == ItemBytes(items[0]) + AreaOf(items[1..])
  {
  }

  lemma FirstItemMatch(items: seq<Item>, option: byte)
    requires |items| > 0
    ensures FirstMatch(items, option) ==
            if Matches(items[0], option) then Some(items[0].data[0]) else FirstMatch(items[1..], option)
  {
  }

  lemma LookupStops(area: seq<byte>, option: byte)
    requires StopsScan(area)
    ensures Lookup(area, option) == CutOption(area, option)
  {
  }

  lemma LookupEnd(trailing: seq<byte>, option: byte)
    ensures Lookup([END] + trailing, option) == None
  {
  }

  lemma LookupItem(i: Item, rest: seq<byte>, option: byte)
    requires WellFormed(i)
    ensures Lookup(ItemBytes(i) + rest, option) ==
            if Matches(i, option) then Some(i.data[0]) else Lookup(rest, option)
  {
    var area := ItemBytes(i) + rest;
    match i
    case Pad => assert area[1..] == rest;
    case Opt(code, data) => assert area[2 + |data|..] == rest;
  }

  // ---- the reply -------------------------------------------------------------------------------

  const AP_IP: seq<byte> := [192, 168, 4, 1]
  const DHCP_CLIENT_IP: seq<byte> := [192, 168, 4, 2]
  const SUBNET_MASK: seq<byte> := [255, 255, 255, 0]

  /** The options of the reply: offer (2) for a discover, acknowledgement (5) for a request. */
  function ReplyItems(msgType: byte): (items: seq<Item>)
    ensures |items| == 5 && forall k | 0 <= k < 5 :: WellFormed(items[k])
  {
    [Opt(53, [if msgType == 1 then 2 else 5]), Opt(54, AP_IP), Opt(51, [0, 0, 0x0E, 0x10]),
     Opt(1, SUBNET_MASK), Opt(3, AP_IP)]
  }

  /** Operation, hardware type and length, transaction id, client and server address: the first 24 bytes. */
  function FixedHeader(req: seq<byte>): (s: seq<byte>)
    requires |req| >= 236
    ensures |s| == 24
  {
    [2, 1, 6] + ZeroBytes(1) + req[4..8] + ZeroBytes(8) + DHCP_CLIENT_IP + AP_IP
  }

  /** The BOOTP header of the reply and the magic cookie: 240 bytes. The client hardware address is copied
      when its length is at most 16. */
  function ReplyHeader(req: seq<byte>): (s: seq<byte>)
    requires |req| >= 236
    ensures |s| == OPTIONS_AT
  {
    var len: int := req[2];
    (if len <= 16 then FixedHeader(req) + ZeroBytes(4) + req[28..28 + len] + ZeroBytes(208 - len)
     else FixedHeader(req) + ZeroBytes(212))
    + [99, 130, 83, 99]
  }

  function Reply(req: seq<byte>, msgType: byte): (r: seq<byte>)
    requires |req| >= 236
  {
    ReplyHeader(req) + AreaOf(ReplyItems(msgType)) + [END] + ZeroBytes(32)
  }

  /** `copy_from_slice` into a zeroed buffer whose first `at` bytes are done. */
  method Put(r: array<byte>, at: nat, gap: nat, data: seq<byte>)
    requires at + gap + |data| <= r.Length
    requires r[at..] == ZeroBytes(r.Length - at)
    modifies r
    ensures r[..at + gap + |data|] == old(r[..at]) + ZeroBytes(gap) + data
    ensures r[at + gap + |data|..] == ZeroBytes(r.Length - (at + gap + |data|))
  {
    hide ZeroBytes;
    var from, end := at + gap, at + gap + |data|;
    assert r[..from] == r[..at] + r[at..][..gap];
    assert r[end..] == r[at..][gap + |data|..];
    ZeroParts(r.Length - at, gap);
    ZeroParts(r.Length - at, gap + |data|);
    CopyInto(data, r, from);
  }

  lemma ZeroParts(n: nat, k: nat)
    requires k <= n
    ensures ZeroBytes(n)[..k] == ZeroBytes(k) && ZeroBytes(n)[k..] == ZeroBytes(n - k)
  {
  }

  method Append(r: array<byte>, at: nat, data: seq<byte>)
    requires at + |data| <= r.Length
    requires r[at..] == ZeroBytes(r.Length - at)
    modifies r
    ensures r[..at + |data|] == old(r[..at]) + data
    ensures r[at + |data|..] == ZeroBytes(r.Length - (at + |data|))
  {
    Put(r, at, 0, data);
  }

  /** Every byte of a reply to a discover (1) or a request (3): operation 2, Ethernet, the transaction id, the client
      address 192.168.4.2, the server address 192.168.4.1, the hardware address of the request when its length is at
      most 16, the magic cookie, and the options 53, 54, 51 (3600 seconds), 1 and 3. All other bytes are zero. */
  ghost predicate RepliesTo(r: seq<byte>, req: seq<byte>, msgType: byte)
    requires |req| >= 236
  {
    var hardware: nat := if req[2] <= 16 then req[2] else 0;
    && |r| == 300
    && r[..4] == [2, 1, 6, 0]
    && r[4..8] == req[4..8]
    && r[8..28] == [0, 0, 0, 0, 0, 0, 0, 0, 192, 168, 4, 2, 192, 168, 4, 1, 0, 0, 0, 0]
    && r[28..28 + hardware] == req[28..28 + hardware]
    && (forall k | 28 + hardware <= k < 236 :: r[k] == 0)
    && r[236..240] == [99, 130, 83, 99]
    && r[240..243] == [53, 1, if msgType == 1 then 2 else 5]
    && r[243..249] == [54, 4, 192, 168, 4, 1]
    && r[249..255] == [51, 4, 0, 0, 14, 16]
    && r[255..261] == [1, 4, 255, 255, 255, 0]
    && r[261..268] == [3, 4, 192, 168, 4, 1, 255]
    && (forall k | 268 <= k < 300 :: r[k] == 0)
  }

  lemma ZeroAt(n: nat)
    ensures |ZeroBytes(n)| == n && forall k | 0 <= k < n :: ZeroBytes(n)[k] == 0
  {
  }

  lemma FixedBytes(req: seq<byte>)
    requires |req| >= 236
    ensures var h := FixedHeader(req);
            && h[..4] == [2, 1, 6, 0] && h[4..8] == req[4..8]
            && h[8..] == [0, 0, 0, 0, 0, 0, 0, 0, 192, 168, 4, 2, 192, 168, 4, 1]
  {
    assert ZeroBytes(1) == [0] && ZeroBytes(8) == [0, 0, 0, 0, 0, 0, 0, 0];
  }

  lemma HeaderBytes(req: seq<byte>)
    requires |req| >= 236
    ensures var h := ReplyHeader(req);
            var hardware: nat := if req[2] <= 16 then req[2] else 0;
            && h[..24] == FixedHeader(req) && h[24..28] == [0, 0, 0, 0]
            && h[28..28 + hardware] == req[28..28 + hardware]
            && (forall k | 28 + hardware <= k < 236 :: h[k] == 0)
            && h[236..] == [99, 130, 83, 99]
  {
    hide FixedHeader, ZeroBytes;
    ZeroAt(4);
    ZeroAt(212);
    if req[2] <= 16 {
      ZeroAt(208 - req[2]);
    }
  }

  lemma OptionsArea(msgType: byte)
    ensures var area := AreaOf(ReplyItems(msgType)) + [END];
            && |area| == 28
            && area[..3] == [53, 1, if msgType == 1 then 2 else 5]
            && area[3..9] == [54, 4, 192, 168, 4, 1]
            && area[9..15] == [51, 4, 0, 0, 14, 16]
            && area[15..21] == [1, 4, 255, 255, 255, 0]
            && area[21..] == [3, 4, 192, 168, 4, 1, 255]
  {
    hide AreaOf, ReplyItems;
    OptionBytes(msgType, []);
    assert [] + AreaOf(ReplyItems(msgType)) == AreaOf(ReplyItems(msgType));
  }

  lemma ReplyBytes(req: seq<byte>, msgType: byte)
    requires |req| >= 236
    ensures RepliesTo(Reply(req, msgType), req, msgType)
  {
    hide FixedHeader, ReplyHeader, AreaOf, ReplyItems, ZeroBytes;
    FixedBytes(req);
    HeaderBytes(req);
    OptionsArea(msgType);
    ZeroAt(32);
    var r, h, area := Reply(req, msgType), ReplyHeader(req), AreaOf(ReplyItems(msgType)) + [END];
    assert r == h + area + ZeroBytes(32);
    assert r[..4] == h[..24][..4] && r[4..8] == h[..24][4..8] && r[8..28] == h[..24][8..] + h[24..28];
    assert r[236..240] == h[236..];
    assert r[240..243] == area[..3] && r[243..249] == area[3..9] && r[249..255] == area[9..15];
    assert r[255..261] == area[15..21] && r[261..268] == area[21..];
    var hardware: nat := if req[2] <= 16 then req[2] else 0;
    assert r[28..28 + hardware] == h[28..28 + hardware];
    forall k | 28 + hardware <= k < 236
      ensures r[k] == 0
    {
      assert r[k] == h[k];
    }
    forall k | 268 <= k < 300
      ensures r[k] == 0
    {
      assert r[k] == ZeroBytes(32)[k - 268];
    }
  }

  /** `build_dhcp_reply`; the server only calls it for packets of at least 236 bytes. */
  method BuildDhcpReply(req: seq<byte>, msgType: byte) returns (reply: seq<byte>)
    requires |req| >= 236
    ensures reply == Reply(req, msgType)
    ensures RepliesTo(reply, req, msgType)
  {
    hide ZeroBytes, ReplyItems, AreaOf, ReplyHeader, RepliesTo;
    var r := new byte[300](_ => 0);
    AllZero(r[..]);
    PutHeader(req, r);
    PutOptions(r, msgType);
    reply := r[..];
    assert reply == r[..268] + r[268..];
    ReplyBytes(req, msgType);
  }

  method PutOptions(r: array<byte>, msgType: byte)
    requires r.Length == 300 && r[240..] == ZeroBytes(60)
    modifies r
    ensures r[..268] == old(r[..240]) + AreaOf(ReplyItems(msgType)) + [END] && r[268..] == ZeroBytes(32)
  {
    hide ZeroBytes, ReplyItems, AreaOf;
    OptionBytes(msgType, r[..240]);
    var p := 240;
    Append(r, p, [53, 1, if msgType == 1 then 2 else 5]);
    p := p + 3;
    Append(r, p, [54, 4] + AP_IP);
    p := p + 6;
    Append(r, p, [51, 4, 0, 0, 0x0E, 0x10]);
    p := p + 6;
    Append(r, p, [1, 4] + SUBNET_MASK);
    p := p + 6;
    Append(r, p, [3, 4] + AP_IP);
    p := p + 6;
    Append(r, p, [END]);
  }

  method PutFixed(req: seq<byte>, r: array<byte>)
    requires |req| >= 236 && r.Length == 300 && r[..] == ZeroBytes(300)
    modifies r
    ensures r[..24] == FixedHeader(req) && r[24..] == ZeroBytes(276)
  {
    hide ZeroBytes;
    assert r[0..] == r[..] && r[..0] == [];
    Append(r, 0, [2, 1, 6]);
    Put(r, 3, 1, req[4..8]);
    Put(r, 8, 8, DHCP_CLIENT_IP);
    Append(r, 20, AP_IP);
  }

  method PutHeader(req: seq<byte>, r: array<byte>)
    requires |req| >= 236 && r.Length == 300 && r[..] == ZeroBytes(300)
    modifies r
    ensures r[..240] == ReplyHeader(req) && r[240..] == ZeroBytes(60)
  {
    hide ZeroBytes, FixedHeader;
    PutFixed(req, r);
    var len: int := req[2];
    if len <= 16 && 28 + len <= |req| {
      Put(r, 24, 4, req[28..28 + len]);
      Put(r, 28 + len, 208 - len, [99, 130, 83, 99]);
    } else {
      Put(r, 24, 212, [99, 130, 83, 99]);
    }
  }

  lemma AllZero(s: seq<byte>)
    requires forall i | 0 <= i < |s| :: s[i] == 0
    ensures s == ZeroBytes(|s|)
  {
  }

  lemma OptionBytes(msgType: byte, header: seq<byte>)
    ensures header + AreaOf(ReplyItems(msgType)) + [END]
         == header + [53, 1, if msgType == 1 then 2 else 5] + ([54, 4] + AP_IP) + [51, 4, 0, 0, 0x0E, 0x10]
            + ([1, 4] + SUBNET_MASK) + ([3, 4] + AP_IP) + [END]
  {
    hide AreaOf;
    FiveItems(ReplyItems(msgType));
  }

  lemma FiveItems(items: seq<Item>)
    requires |items| == 5 && forall k | 0 <= k < 5 :: WellFormed(items[k])
    ensures AreaOf(items) == ItemBytes(items[0]) + (ItemBytes(items[1]) + (ItemBytes(items[2])
                             + (ItemBytes(items[3]) + ItemBytes(items[4]))))
  {
    hide AreaOf, ItemBytes, WellFormed;
    FirstItem(items);
    FirstItem(items[1..]);
    FirstItem(items[2..]);
    FirstItem(items[3..]);
    FirstItem(items[4..]);
    NoItems();
    assert items[1..][1..] == items[2..] && items[2..][1..] == items[3..] && items[3..][1..] == items[4..];
    assert items[4..][1..] == [] && ItemBytes(items[4]) + [] == ItemBytes(items[4]);
  }

  /** Every reply carries, for the lookup of any client, the message type and the server identifier, lease time,
      subnet mask and router options. */
  lemma ReplyOptions(req: seq<byte>, msgType: byte)
    requires |req| >= 236
    ensures var area := Reply(req, msgType)[240..];
            && Lookup(area, 53) == Some(if msgType == 1 then 2 else 5)
            && Lookup(area, 54) == Some(192)
            && Lookup(area, 51) == Some(0)
            && Lookup(area, 1) == Some(255)
            && Lookup(area, 3) == Some(192)
  {
    hide Lookup, AreaOf, ReplyHeader;
    var items := ReplyItems(msgType);
    var area := AreaOf(items) + [END] + ZeroBytes(32);
    assert Reply(req, msgType) == ReplyHeader(req) + area;
    assert Reply(req, msgType)[240..] == area;
    ReplyItemFound(msgType, 0);
    ReplyItemFound(msgType, 1);
    ReplyItemFound(msgType, 2);
    ReplyItemFound(msgType, 3);
    ReplyItemFound(msgType, 4);
  }

  lemma ReplyItemFound(msgType: byte, k: nat)
    requires k < 5
    ensures var items := ReplyItems(msgType);
            items[k].Opt? && |items[k].data| > 0
            && Lookup(AreaOf(items) + [END] + ZeroBytes(32), items[k].code) == Some(items[k].data[0])
  {
    hide Lookup, AreaOf;
    var items := ReplyItems(msgType);
    LookupFindsFirst(items, ZeroBytes(32), items[k].code);
    assert IsFirst(items, items[k].code, k);
  }

  /** One datagram of `dhcp_server`: only boot requests of at least 236 bytes that carry a discover (1) or a
      request (3) are answered. */
  method HandlePacket(pkt: seq<byte>) returns (reply: Option<seq<byte>>)
    ensures reply.Some? <==> |pkt| >= 240 && pkt[0] == 1
                             && (Lookup(pkt[240..], 53) == Some(1) || Lookup(pkt[240..], 53) == Some(3))
    ensures reply.Some? ==> RepliesTo(reply.value, pkt, Lookup(pkt[240..], 53).value)
  {
    hide Lookup, RepliesTo, Reply;
    if |pkt| < 236 || pkt[0] != 1 {
      return None;
    }
    var found := DhcpOptionU8(pkt, 53);
    var msgType := if found.Some? then found.value else 0;
    if msgType != 1 && msgType != 3 {
      return None;
    }
    var r := BuildDhcpReply(pkt, msgType);
    reply := Some(r);
  }
}
