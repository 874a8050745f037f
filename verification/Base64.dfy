/** The standard base64 alphabet coder (section 4 of RFC 4648), as two in-place loops over byte buffers. */
module Base64 {
  import opened Bytes

  const PAD: byte := 61  // '='
  const INVALID: byte := 255

  // ---- alphabet --------------------------------------------------------------------------

  /** The character for a 6-bit value: A-Z, a-z, 0-9, '+', '/'. */
  function EncodeChar(i: nat): byte
    requires i < 64
  {
    if i < 26 then 65 + i
    else if i < 52 then 97 + (i - 26)
    else if i < 62 then 48 + (i - 52)
    else if i == 62 then 43
    else 47
  }

  ghost predicate IsAlphabet(c: byte) {
    exists i: nat | i < 64 :: EncodeChar(i) == c
  }

  /** The 6-bit value of a character, or INVALID. */
  function DecodeChar(c: byte): byte {
    if 65 <= c <= 90 then c - 65
    else if 97 <= c <= 122 then c - 97 + 26
    else if 48 <= c <= 57 then c - 48 + 52
    else if c == 43 then 62
    else if c == 47 then 63
    else INVALID
  }

  lemma DecodeCharInverts(c: byte)
    ensures IsAlphabet(c) <==> DecodeChar(c) < 64
    ensures !IsAlphabet(c) <==> DecodeChar(c) == INVALID
    ensures DecodeChar(c) < 64 ==> EncodeChar(DecodeChar(c)) == c
    ensures c == PAD ==> !IsAlphabet(c)
  {
    if DecodeChar(c) < 64 {
      assert EncodeChar(DecodeChar(c)) == c;
    }
  }

  lemma EncodeCharInverts(i: nat)
    requires i < 64
    ensures DecodeChar(EncodeChar(i)) == i
    ensures EncodeChar(i) != PAD && EncodeChar(i) != 10
  {
  }

  /** The compile-time table fill: the finished table inverts the alphabet and marks every other byte. */
  method BuildDecodeTable() returns (table: seq<byte>)
    ensures |table| == 256
    ensures forall i: nat | i < 64 :: table[EncodeChar(i)] == i
    ensures forall c: byte :: table[c] == INVALID <==> !IsAlphabet(c)
    ensures forall c: byte :: table[c] == DecodeChar(c)
  {
    var t := new byte[256](_ => INVALID);
    var i := 0;
    while i < 26
      invariant 0 <= i <= 26
      invariant forall c: byte :: t[c] == if 65 <= c < 65 + i then c - 65 else INVALID
    {
      t[65 + i] := i;
      i := i + 1;
    }
    i := 0;
    while i < 26
      invariant 0 <= i <= 26
      invariant forall c: byte ::
          t[c] == if 65 <= c <= 90 then c - 65 else if 97 <= c < 97 + i then c - 97 + 26 else INVALID
    {
      t[97 + i] := i + 26;
      i := i + 1;
    }
    i := 0;
    while i < 10
      invariant 0 <= i <= 10
      invariant forall c: byte ::
          t[c] == if 65 <= c <= 90 then c - 65 else if 97 <= c <= 122 then c - 97 + 26
                  else if 48 <= c < 48 + i then c - 48 + 52 else INVALID
    {
      t[48 + i] := i + 52;
      i := i + 1;
    }
    t[43] := 62;
    t[47] := 63;
    forall c: byte
      ensures t[c] == INVALID <==> !IsAlphabet(c)
    {
      DecodeCharInverts(c);
    }
    table := t[..];
  }

  // ---- encoding --------------------------------------------------------------------------

  /** Four 6-bit values of a 24-bit group. Shifts and masks of disjoint bit fields are written arithmetically. */
  function Sextets(b0: byte, b1: byte, b2: byte): (q: seq<nat>)
    ensures |q| == 4 && forall k | 0 <= k < 4 :: q[k] < 64
  {
    var triple := b0 * 65536 + b1 * 256 + b2;
    [triple / 262144 % 64, triple / 4096 % 64, triple / 64 % 64, triple % 64]
  }

  /** The shorter shift forms used for a remainder of one or two bytes agree with the zero-filled group. */
  lemma RemainderSextets(b0: byte, b1: byte)
    ensures var q := Sextets(b0, b1, 0);
            && q[0] == b0 / 4 % 64
            && q[1] == ((b0 as int) * 16 + b1 / 16) % 64
            && q[2] == (b1 as int) * 4 % 64
            && q[3] == 0
  {
    ShiftTriple(b0, b1);
    ModMultiple(b0, b1);
  }

  lemma ShiftTriple(x: int, y: int)
    requires 0 <= x < 256 && 0 <= y < 256
    ensures (x * 65536 + y * 256) / 262144 == x / 4
    ensures (x * 65536 + y * 256) / 4096 == x * 16 + y / 16
    ensures (x * 65536 + y * 256) / 64 == x * 1024 + y * 4
  {
  }

  lemma ModMultiple(x: int, y: int)
    ensures (x * 1024 + y * 4) % 64 == y * 4 % 64
  {
    assert (x * 1024 + y * 4) / 64 == 16 * x + y * 4 / 64;
  }

  function Chars(q: seq<nat>): (text: seq<byte>)
    requires forall k | 0 <= k < |q| :: q[k] < 64
    ensures |text| == |q|
  {
    seq(|q|, k requires 0 <= k < |q| => EncodeChar(q[k]))
  }

  /** One output group: four characters for three bytes, padded ones for one or two. */
  function Group(chunk: seq<byte>): (text: seq<byte>)
    requires 1 <= |chunk| <= 3
    ensures |text| == 4
  {
    if |chunk| == 1 then Chars(Sextets(chunk[0], 0, 0)[..2]) + [PAD, PAD]
    else if |chunk| == 2 then Chars(Sextets(chunk[0], chunk[1], 0)[..3]) + [PAD]
    else Chars(Sextets(chunk[0], chunk[1], chunk[2]))
  }

  function Encoded(input: seq<byte>): (text: seq<byte>) {
    if |input| == 0 then []
    else if |input| <= 3 then Group(input)
    else Group(input[..3]) + Encoded(input[3..])
  }

  function EncodedLength(n: nat): nat {
    (n + 2) / 3 * 4
  }

  lemma {:induction false} EncodedSize(input: seq<byte>)
    ensures |Encoded(input)| == EncodedLength(|input|)
  {
    hide Group;
    if |input| > 3 {
      EncodedSize(input[3..]);
    }
  }

  lemma {:induction false} EncodedAppend(a: seq<byte>, b: seq<byte>, k: nat)
    requires |a| == 3 * k
    ensures Encoded(a + b) == Encoded(a) + Encoded(b)
  {
    hide Group, Encoded;
    EncodedFirst(a);
    EncodedFirst(a + b);
    if k == 0 {
      assert a + b == b && [] + Encoded(b) == Encoded(b);
    } else if |b| == 0 {
      EncodedFirst(b);
      assert a + b == a && Encoded(a) + [] == Encoded(a);
    } else {
      EncodedAppend(a[3..], b, k - 1);
      assert (a + b)[3..] == a[3..] + b && (a + b)[..3] == a[..3];
    }
  }

  lemma EncodedFirst(s: seq<byte>)
    ensures |s| == 0 ==> Encoded(s) == []
    ensures |s| >= 3 ==> Encoded(s) == Group(s[..3]) + Encoded(s[3..])
  {
    hide Group;
    if |s| == 3 {
      assert s[..3] == s && s[3..] == [] && Group(s) + [] == Group(s);
    }
  }

  lemma EncodedChunk(chunk: seq<byte>)
    requires |chunk| <= 3
    ensures Encoded(chunk) == if |chunk| == 0 then [] else Group(chunk)
  {
    hide Group;
  }

  /** Writing four characters after a finished prefix. */
  method PutGroup(output: array<byte>, o: nat, g: seq<byte>)
    requires |g| == 4 && o + 4 <= output.Length
    modifies output
    ensures output[..o + 4] == old(output[..o]) + g
    ensures output[o + 4..] == old(output[o + 4..])
  {
    output[o] := g[0];
    output[o + 1] := g[1];
    output[o + 2] := g[2];
    output[o + 3] := g[3];
  }

  /** The loop over whole 3-byte chunks. */
  method EncodeChunks(input: seq<byte>, output: array<byte>) returns (o: nat, i: nat, ghost k: nat)
    requires output.Length >= EncodedLength(|input|)
    modifies output
    ensures i == 3 * k && o == 4 * k && i <= |input| < i + 3 && o <= output.Length
    ensures output[..o] == Encoded(input[..i])
    ensures output[o..] == old(output[..])[o..]
  {
    hide Sextets, Chars, Encoded, Group;
    EncodedChunk([]);
    o, i, k := 0, 0, 0;
    while i + 3 <= |input|
      invariant i <= |input|
      invariant i == 3 * k && o == 4 * k
      invariant output[..o] == Encoded(input[..i])
      invariant output[o..] == old(output[..])[o..]
    {
      ghost var chunk := input[i..i + 3];
      ghost var rest := output[o..];
      EncodedChunk(chunk);
      FullGroup(chunk);
      TakeAppend(input, i, i + 3);
      EncodedAppend(input[..i], chunk, k);
      PutGroup(output, o, Chars(Sextets(input[i], input[i + 1], input[i + 2])));
      assert output[o + 4..] == rest[4..];
      assert old(output[..])[o..][4..] == old(output[..])[o + 4..];
      o, i, k := o + 4, i + 3, k + 1;
    }
  }

  lemma FullGroup(chunk: seq<byte>)
    requires |chunk| == 3
    ensures Group(chunk) == Chars(Sextets(chunk[0], chunk[1], chunk[2]))
  {
    hide Sextets, Chars;
  }

  /** The remainder formulas of the code give the padded group. */
  lemma ShortGroup(tail: seq<byte>)
    requires 1 <= |tail| <= 2
    ensures var b0: int, b1: int := tail[0], if |tail| > 1 then tail[1] else 0;
            Group(tail) == if |tail| == 1 then Chars([b0 / 4 % 64, b0 * 16 % 64]) + [PAD, PAD]
                           else Chars([b0 / 4 % 64, (b0 * 16 + b1 / 16) % 64, b1 * 4 % 64]) + [PAD]
  {
    hide Sextets, Chars;
    var b0: int, b1: int := tail[0], if |tail| > 1 then tail[1] else 0;
    RemainderSextets(b0, b1);
    if |tail| == 1 {
      assert Sextets(b0, 0, 0)[..2] == [b0 / 4 % 64, b0 * 16 % 64];
    } else {
      assert Sextets(b0, b1, 0)[..3] == [b0 / 4 % 64, (b0 * 16 + b1 / 16) % 64, b1 * 4 % 64];
    }
  }

  /** The last one or two bytes. */
  method EncodeRemainder(tail: seq<byte>, output: array<byte>, o: nat)
    requires 1 <= |tail| <= 2 && o + 4 <= output.Length
    modifies output
    ensures output[..o + 4] == old(output[..o]) + Group(tail)
    ensures output[o + 4..] == old(output[o + 4..])
  {
    hide Sextets, Chars, Group;
    ShortGroup(tail);
    var b0: int := tail[0];
    if |tail| == 1 {
      PutGroup(output, o, Chars([b0 / 4 % 64, b0 * 16 % 64]) + [PAD, PAD]);
    } else {
      var b1: int := tail[1];
      PutGroup(output, o, Chars([b0 / 4 % 64, (b0 * 16 + b1 / 16) % 64, b1 * 4 % 64]) + [PAD]);
    }
  }

  /** `encode`: whole 3-byte chunks first, then the 1- or 2-byte remainder with padding. */
  method Encode(input: seq<byte>, output: array<byte>) returns (o: nat)
    requires output.Length >= EncodedLength(|input|)
    modifies output
    ensures o == EncodedLength(|input|)
    ensures output[..o] == Encoded(input)
    ensures output[o..] == old(output[..])[o..]
  {
    hide Sextets, Chars, Encoded, Group;
    var i;
    ghost var k;
    o, i, k := EncodeChunks(input, output);
    var tail := input[i..];
    TakeAppend(input, i, |input|);
    assert input[..|input|] == input && input[i..|input|] == tail;
    EncodedAppend(input[..i], tail, k);
    EncodedChunk(tail);
    if tail != [] {
      ghost var rest := output[o..];
      EncodeRemainder(tail, output, o);
      assert output[o + 4..] == rest[4..];
      assert old(output[..])[o..][4..] == old(output[..])[o + 4..];
      o := o + 4;
    }
  }

  // ---- decoding --------------------------------------------------------------------------

  /** What one call of `decode` does: a value, the `Err(())` result, or a panic on the output bounds. */
  datatype Outcome = Decoded(bytes: seq<byte>) | Malformed | Panic

  function Stripped(text: seq<byte>): seq<byte> {
    var len := |text|;
    if len >= 2 && text[len - 1] == PAD && text[len - 2] == PAD then text[..len - 2]
    else if len >= 1 && text[len - 1] == PAD then text[..len - 1]
    else text
  }

  function Prepend(head: seq<byte>, rest: Outcome): Outcome {
    if rest.Decoded? then Decoded(head + rest.bytes) else rest
  }

  predicate Valid(data: seq<byte>) {
    forall k | 0 <= k < |data| :: DecodeChar(data[k]) < 64
  }

  /** Three bytes from four 6-bit values; `b << 4` on a u8 keeps only the low four bits of b, and so on. */
  function Pack(a: nat, b: nat, c: nat, d: nat): (bytes: seq<byte>)
    requires a < 64 && b < 64 && c < 64 && d < 64
    ensures |bytes| == 3
  {
    [a * 4 + b / 16, b % 16 * 16 + c / 4, c % 4 * 64 + d]
  }

  /** The bytes of a group of 2, 3 or 4 characters: one byte fewer than characters. */
  function GroupBytes(g: seq<byte>): (bytes: seq<byte>)
    requires 2 <= |g| <= 4 && Valid(g)
    ensures |bytes| == |g| - 1
  {
    Pack(DecodeChar(g[0]), DecodeChar(g[1]),
         if |g| > 2 then DecodeChar(g[2]) else 0,
         if |g| > 3 then DecodeChar(g[3]) else 0)[..|g| - 1]
  }

  /** Decoding of text already free of padding into an output of `room` bytes. */
  function DecodedData(data: seq<byte>, room: nat): Outcome
    decreases |data|
  {
    if |data| == 0 then Decoded([])
    else if |data| == 1 then Malformed
    else
      var g := data[..Min(4, |data|)];
      if !Valid(g) then Malformed
      else if room < |g| - 1 then Panic
      else if |data| <= 4 then Decoded(GroupBytes(g))
      else Prepend(GroupBytes(g), DecodedData(data[4..], room - 3))
  }

  /** `decode` into an output buffer of `room` bytes. */
  function DecodedInto(text: seq<byte>, room: nat): Outcome {
    DecodedData(Stripped(text), room)
  }

  /** One decoding step: the table lookups, the validity test and the writes for one group. */
  method DecodeGroup(table: seq<byte>, g: seq<byte>, output: array<byte>, o: nat) returns (r: Outcome)
    requires |table| == 256 && forall c: byte :: table[c] == DecodeChar(c)
    requires 2 <= |g| <= 4 && o <= output.Length
    modifies output
    ensures !Valid(g) ==> r == Malformed
    ensures Valid(g) && output.Length - o < |g| - 1 ==> r == Panic
    ensures Valid(g) && output.Length - o >= |g| - 1 ==>
              r == Decoded(GroupBytes(g)) && output[..o + |g| - 1] == old(output[..o]) + GroupBytes(g)
              && output[o + |g| - 1..] == old(output[o + |g| - 1..])
  {
    var a, b := table[g[0]], table[g[1]];
    var c := if |g| > 2 then table[g[2]] else 0;
    var d := if |g| > 3 then table[g[3]] else 0;
    if a >= 128 || b >= 128 || c >= 128 || d >= 128 {
      return Malformed;
    }
    if o + |g| - 2 >= output.Length {
      return Panic;
    }
    var p := Pack(a, b, c, d);
    output[o] := p[0];
    if |g| > 2 {
      output[o + 1] := p[1];
    }
    if |g| > 3 {
      output[o + 2] := p[2];
    }
    r := Decoded(p[..|g| - 1]);
  }

  /** The loop over whole 4-character groups. It stops at the first group that fails, with that group's outcome. */
  method DecodeChunks(table: seq<byte>, data: seq<byte>, output: array<byte>) returns (r: Outcome, o: nat, i: nat)
    requires |table| == 256 && forall c: byte :: table[c] == DecodeChar(c)
    modifies output
    ensures !r.Decoded? ==> r == DecodedData(data, output.Length)
    ensures r.Decoded? ==>
              && i <= |data| < i + 4 && o <= output.Length
              && DecodedData(data, output.Length) == Prepend(output[..o], DecodedData(data[i..], output.Length - o))
              && output[o..] == old(output[..])[o..]
  {
    hide DecodeChar, GroupBytes, Valid, DecodedData, Prepend;
    ghost var goal := DecodedData(data, output.Length);
    r, o, i := Decoded([]), 0, 0;
    PrependNothing(goal);
    assert data[0..] == data;
    while i + 4 <= |data|
      invariant r.Decoded? && i <= |data| && o <= output.Length
      invariant output[o..] == old(output[..])[o..]
      invariant goal == Prepend(output[..o], DecodedData(data[i..], output.Length - o))
    {
      ghost var before, after := output[..o], output[o..];
      ChunkStep(data, i, output.Length - o);
      PrependFails(before, DecodedData(data[i..], output.Length - o));
      var step := DecodeGroup(table, data[i..i + 4], output, o);
      if !step.Decoded? {
        return step, o, i;
      }
      PrependTwice(before, step.bytes, DecodedData(data[i + 4..], output.Length - o - 3));
      assert output[o + 3..] == after[3..];
      assert old(output[..])[o..][3..] == old(output[..])[o + 3..];
      o, i := o + 3, i + 4;
    }
  }

  /** `decode`: strips padding, then 4-character chunks, then the remainder. A write past the
      end of `output` is the Rust index panic, returned as `Panic`. */
  method Decode(text: seq<byte>, output: array<byte>) returns (r: Outcome)
    modifies output
    ensures r == DecodedInto(text, output.Length)
    ensures r.Decoded? ==> |r.bytes| <= output.Length && output[..|r.bytes|] == r.bytes
                           && output[|r.bytes|..] == old(output[..])[|r.bytes|..]
  {
    hide DecodeChar, GroupBytes, Valid, DecodedData, Prepend;
    var table := BuildDecodeTable();
    var len := |text|;
    var stripped := len;
    if len >= 2 && text[len - 1] == PAD && text[len - 2] == PAD {
      stripped := len - 2;
    } else if len >= 1 && text[len - 1] == PAD {
      stripped := len - 1;
    }
    var data := text[..stripped];
    assert data == Stripped(text);
    var o, i;
    r, o, i := DecodeChunks(table, data, output);
    if !r.Decoded? {
      return;
    }
    ghost var before, after := output[..o], output[o..];
    RemainderStep(data[i..], output.Length - o);
    PrependFails(before, DecodedData(data[i..], output.Length - o));
    var left := |data| - i;
    if left == 0 {
      PrependBytes(before, []);
      assert before + [] == before;
      return Decoded(output[..o]);
    }
    if left == 1 {
      return Malformed;
    }
    r := DecodeGroup(table, data[i..], output, o);
    if r.Decoded? {
      PrependBytes(before, r.bytes);
      var end := o + left - 1;
      assert output[end..] == after[left - 1..];
      assert old(output[..])[o..][left - 1..] == old(output[..])[end..];
      r := Decoded(output[..end]);
    }
  }

  /** One whole group at the head of the data. */
  lemma GroupStep(data: seq<byte>, room: nat)
    requires |data| >= 4
    ensures DecodedData(data, room) ==
            if !Valid(data[..4]) then Malformed
            else if room < 3 then Panic
            else Prepend(GroupBytes(data[..4]), DecodedData(data[4..], room - 3))
  {
    hide GroupBytes, Valid;
    if |data| == 4 && Valid(data[..4]) {
      assert GroupBytes(data[..4]) + [] == GroupBytes(data[..4]);
    }
  }

  lemma ChunkStep(data: seq<byte>, i: nat, room: nat)
    requires i + 4 <= |data|
    ensures var g := data[i..i + 4];
            DecodedData(data[i..], room) ==
            if !Valid(g) then Malformed
            else if room < 3 then Panic
            else Prepend(GroupBytes(g), DecodedData(data[i + 4..], room - 3))
  {
    hide GroupBytes, Valid, DecodedData, Prepend;
    GroupStep(data[i..], room);
    assert data[i..][..4] == data[i..i + 4] && data[i..][4..] == data[i + 4..];
  }

  lemma RemainderStep(g: seq<byte>, room: nat)
    requires |g| < 4
    ensures DecodedData(g, room) ==
            if |g| == 0 then Decoded([])
            else if |g| == 1 then Malformed
            else if !Valid(g) then Malformed
            else if room < |g| - 1 then Panic
            else Decoded(GroupBytes(g))
  {
    hide GroupBytes, Valid;
    assert g[..|g|] == g;
  }

  lemma PrependNothing(r: Outcome)
    ensures Prepend([], r) == r
  {
    if r.Decoded? {
      assert [] + r.bytes == r.bytes;
    }
  }

  lemma PrependFails(a: seq<byte>, r: Outcome)
    ensures !r.Decoded? ==> Prepend(a, r) == r
  {
  }

  lemma PrependTwice(a: seq<byte>, b: seq<byte>, r: Outcome)
    ensures Prepend(a, Prepend(b, r)) == Prepend(a + b, r)
  {
    if r.Decoded? {
      assert a + (b + r.bytes) == a + b + r.bytes;
    }
  }

  // ---- groups are inverse to each other ----------------------------------------------------

  lemma PackSextets(b0: byte, b1: byte, b2: byte)
    ensures var q := Sextets(b0, b1, b2); Pack(q[0], q[1], q[2], q[3]) == [b0, b1, b2]
  {
    hide Pack;
    var q := Sextets(b0, b1, b2);
    SextetsValue(b0, b1, b2);
    PackValue(q[0], q[1], q[2], q[3]);
    Radix256(b0, b1, b2, Pack(q[0], q[1], q[2], q[3]));
  }

  lemma SextetsPack(a: nat, b: nat, c: nat, d: nat)
    requires a < 64 && b < 64 && c < 64 && d < 64
    ensures var p := Pack(a, b, c, d); Sextets(p[0], p[1], p[2]) == [a, b, c, d]
  {
    hide Pack, Sextets;
    var p := Pack(a, b, c, d);
    PackValue(a, b, c, d);
    SextetsValue(p[0], p[1], p[2]);
    Radix64(Sextets(p[0], p[1], p[2]), a, b, c, d);
  }

  /** The four values are the base-64 digits of the 24-bit number. */
  lemma SextetsValue(b0: byte, b1: byte, b2: byte)
    ensures var q := Sextets(b0, b1, b2);
            q[0] * 262144 + q[1] * 4096 + q[2] * 64 + q[3] == (b0 as int) * 65536 + (b1 as int) * 256 + b2
  {
    DigitsValue(b0 * 65536 + b1 * 256 + b2);
  }

  lemma DigitsValue(t: nat)
    requires t < 16777216
    ensures t / 262144 % 64 * 262144 + t / 4096 % 64 * 4096 + t / 64 % 64 * 64 + t % 64 == t
  {
    var x, y, z := t / 64, t / 4096, t / 262144;
    assert t == x * 64 + t % 64;
    assert y == x / 64 && x == y * 64 + x % 64;
    assert z == y / 64 && y == z * 64 + y % 64;
  }

  lemma Radix64(q: seq<nat>, a: nat, b: nat, c: nat, d: nat)
    requires |q| == 4 && forall k | 0 <= k < 4 :: q[k] < 64
    requires a < 64 && b < 64 && c < 64 && d < 64
    requires q[0] * 262144 + q[1] * 4096 + q[2] * 64 + q[3] == a * 262144 + b * 4096 + c * 64 + d
    ensures q == [a, b, c, d]
  {
    var u, v := q[0] * 4096 + q[1] * 64 + q[2], a * 4096 + b * 64 + c;
    assert u * 64 + q[3] == v * 64 + d;
    assert u == v && q[3] == d;
    var x, y := q[0] * 64 + q[1], a * 64 + b;
    assert x * 64 + q[2] == y * 64 + c;
    assert x == y && q[2] == c;
  }

  /** A packed group is the 24-bit number whose base-64 digits are the four values. */
  lemma PackValue(a: nat, b: nat, c: nat, d: nat)
    requires a < 64 && b < 64 && c < 64 && d < 64
    ensures var p := Pack(a, b, c, d);
            (p[0] as int) * 65536 + (p[1] as int) * 256 + p[2] == a * 262144 + b * 4096 + c * 64 + d
  {
  }

  lemma Radix256(b0: byte, b1: byte, b2: byte, p: seq<byte>)
    requires |p| == 3
    requires (b0 as int) * 65536 + (b1 as int) * 256 + b2 == (p[0] as int) * 65536 + (p[1] as int) * 256 + p[2]
    ensures p == [b0, b1, b2]
  {
  }

  // ---- what the coder means: the same bit stream in groups of eight and of six ---------------

  /** The bits of a sequence of `w`-bit numbers, in order. */
  function BitStream(s: seq<nat>, w: nat): seq<bool> {
    if |s| == 0 then [] else Bits(s[0], w) + BitStream(s[1..], w)
  }

  function Values(data: seq<byte>): (v: seq<nat>)
    ensures |v| == |data|
  {
    seq(|data|, k requires 0 <= k < |data| => DecodeChar(data[k]) as nat)
  }

  lemma {:induction false} BitStreamAppend(a: seq<nat>, b: seq<nat>, w: nat)
    ensures BitStream(a + b, w) == BitStream(a, w) + BitStream(b, w)
  {
    hide Bits;
    if |a| == 0 {
      assert a + b == b;
    } else {
      BitStreamAppend(a[1..], b, w);
      assert (a + b)[1..] == a[1..] + b && (a + b)[0] == a[0];
      var x, y, z := Bits(a[0], w), BitStream(a[1..], w), BitStream(b, w);
      assert x + (y + z) == (x + y) + z;
    }
  }

  /** A 24-bit number has the same bits whether read as three bytes or as four 6-bit values. */
  lemma GroupBits(b0: nat, b1: nat, b2: nat, a: nat, b: nat, c: nat, d: nat)
    requires b0 < 256 && b1 < 256 && b2 < 256 && a < 64 && b < 64 && c < 64 && d < 64
    requires b0 * 65536 + b1 * 256 + b2 == a * 262144 + b * 4096 + c * 64 + d
    ensures BitStream([b0, b1, b2], 8) == BitStream([a, b, c, d], 6)
  {
    hide Bits, BitStream, Pow2;
    Pow2Facts();
    BitsSplit(b0 * 256 + b1, b2, 16, 8);
    BitsSplit(b0, b1, 8, 8);
    BitsSplit(a * 4096 + b * 64 + c, d, 18, 6);
    BitsSplit(a * 64 + b, c, 12, 6);
    BitsSplit(a, b, 6, 6);
    BitStream3(b0, b1, b2, 8);
    BitStream4(a, b, c, d, 6);
  }

  lemma BitStream3(a: nat, b: nat, c: nat, w: nat)
    ensures BitStream([a, b, c], w) == Bits(a, w) + Bits(b, w) + Bits(c, w)
  {
    assert [a, b, c][1..] == [b, c] && [b, c][1..] == [c] && [c][1..] == [];
    assert BitStream([c], w) == Bits(c, w);
  }

  lemma BitStream4(a: nat, b: nat, c: nat, d: nat, w: nat)
    ensures BitStream([a, b, c, d], w) == Bits(a, w) + Bits(b, w) + Bits(c, w) + Bits(d, w)
  {
    assert [a, b, c, d][1..] == [b, c, d];
    BitStream3(b, c, d, w);
  }

  lemma {:induction false} BitStreamLength(s: seq<nat>, w: nat)
    ensures |BitStream(s, w)| == |s| * w
  {
    hide Bits;
    if |s| > 0 {
      BitStreamLength(s[1..], w);
      assert |s| * w == (|s| - 1) * w + w;
    }
  }

  function Zeros(n: nat): seq<bool> {
    seq(n, _ => false)
  }

  lemma {:induction false} BitsOfZero(w: nat)
    ensures Bits(0, w) == Zeros(w)
  {
    if w > 0 {
      BitsOfZero(w - 1);
    }
  }

  lemma ValuesAppend(a: seq<byte>, b: seq<byte>)
    ensures Values(a + b) == Values(a) + Values(b)
    ensures Valid(a + b) <==> Valid(a) && Valid(b)
  {
    hide DecodeChar;
    assert forall k | 0 <= k < |a| :: (a + b)[k] == a[k];
    assert forall k | 0 <= k < |b| :: (a + b)[|a| + k] == b[k];
  }

  lemma CharsInvert(q: seq<nat>)
    requires forall k | 0 <= k < |q| :: q[k] < 64
    ensures Valid(Chars(q)) && Values(Chars(q)) == q
    ensures |q| > 0 ==> Chars(q)[|q| - 1] != PAD
  {
    hide EncodeChar, DecodeChar;
    forall k | 0 <= k < |q|
      ensures DecodeChar(Chars(q)[k]) == q[k] && Chars(q)[k] != PAD
    {
      EncodeCharInverts(q[k]);
    }
  }

  /** A chunk of one, two or three bytes filled up with zero bytes. */
  function Filled(chunk: seq<byte>): (f: seq<byte>)
    requires 1 <= |chunk| <= 3
    ensures |f| == 3 && f == chunk + f[|chunk|..]
    ensures forall k | |chunk| <= k < 3 :: f[k] == 0
  {
    chunk + seq(3 - |chunk|, _ => 0)
  }

  /** The data characters of the group for one, two or three bytes. */
  function GroupData(chunk: seq<byte>): (data: seq<byte>)
    requires 1 <= |chunk| <= 3
    ensures |data| == |chunk| + 1
  {
    var f := Filled(chunk);
    Chars(Sextets(f[0], f[1], f[2])[..|chunk| + 1])
  }

  lemma GroupStripped(chunk: seq<byte>)
    requires 1 <= |chunk| <= 3
    ensures Stripped(Group(chunk)) == GroupData(chunk)
    ensures |chunk| == 3 ==> Group(chunk) == GroupData(chunk)
    ensures Valid(GroupData(chunk))
    ensures GroupBytes(GroupData(chunk)) == chunk
  {
    hide Sextets, Pack, EncodeChar, DecodeChar, Chars;
    var f := Filled(chunk);
    var q := Sextets(f[0], f[1], f[2]);
    assert q[..4] == q;
    CharsInvert(q[..|chunk| + 1]);
    PackSextets(f[0], f[1], f[2]);
    RemainderZero(f[0], f[1], |chunk|, q);
    var v := Values(GroupData(chunk));
    assert v == q[..|chunk| + 1];
    assert forall k | 0 <= k <= |chunk| :: DecodeChar(GroupData(chunk)[k]) == v[k];
  }

  lemma RemainderZero(b0: byte, b1: byte, n: nat, q: seq<nat>)
    requires 1 <= n <= 3 && (n == 1 ==> b1 == 0)
    requires n <= 2 ==> q == Sextets(b0, b1, 0)
    ensures n == 1 ==> q[2] == 0
    ensures n <= 2 ==> q[3] == 0
  {
    hide Sextets;
    if n <= 2 {
      RemainderSextets(b0, b1);
    }
  }

  /** Padding only ends the text: stripping works on the last group. */
  lemma StrippedAppend(a: seq<byte>, b: seq<byte>)
    requires |b| >= 2
    ensures Stripped(a + b) == a + Stripped(b)
  {
  }

  /** Main theorem of `encode`: the data characters carry exactly the input bits, padded with zero bits
      to a whole 6-bit value, and the text is a whole number of 4-character groups. */
  lemma {:induction false} EncodeMeansBits(input: seq<byte>)
    ensures var data := Stripped(Encoded(input));
            && Valid(data)
            && |data| == (4 * |input| + 2) / 3
            && BitStream(Values(data), 6) == BitStream(input, 8) + Zeros(6 * |data| - 8 * |input|)
    ensures |Encoded(input)| == EncodedLength(|input|)
  {
    hide Group, GroupData, Values, Valid, DecodeChar, BitStream;
    EncodedSize(input);
    if |input| == 0 {
      EncodeEmpty();
    } else if |input| <= 3 {
      GroupStripped(input);
      ChunkBits(input);
    } else {
      var head, rest := input[..3], input[3..];
      EncodeMeansBits(rest);
      EncodedSize(rest);
      GroupStripped(head);
      ChunkBits(head);
      StrippedAppend(Group(head), Encoded(rest));
      var data := Stripped(Encoded(rest));
      ValuesAppend(Group(head), data);
      BitStreamAppend(Values(Group(head)), Values(data), 6);
      assert input == head + rest;
      BitStreamAppend(head, rest, 8);
      assert Zeros(0) == [];
    }
  }

  lemma EncodeEmpty()
    ensures Stripped(Encoded([])) == [] && Valid([]) && Values([]) == []
    ensures BitStream([], 6) == [] && BitStream([], 8) == [] && Zeros(0) == []
  {
  }

  lemma ChunkBits(chunk: seq<byte>)
    requires 1 <= |chunk| <= 3
    ensures BitStream(Values(GroupData(chunk)), 6)
         == BitStream(chunk, 8) + Zeros(6 * (|chunk| + 1) - 8 * |chunk|)
  {
    hide *;
    var f := Filled(chunk);
    var q := Sextets(f[0], f[1], f[2]);
    SextetStream(f);
    ChunkCut(chunk, f, q);
    GroupValues(chunk);
  }

  lemma GroupValues(chunk: seq<byte>)
    requires 1 <= |chunk| <= 3
    ensures var f := Filled(chunk);
            Values(GroupData(chunk)) == Sextets(f[0], f[1], f[2])[..|chunk| + 1]
  {
    hide Sextets, Chars, Values, Valid, Filled;
    var f := Filled(chunk);
    CharsInvert(Sextets(f[0], f[1], f[2])[..|chunk| + 1]);
  }

  lemma ChunkCut(chunk: seq<nat>, f: seq<nat>, q: seq<nat>)
    requires 1 <= |chunk| <= 3 && |f| == 3 && |q| == 4
    requires f == chunk + f[|chunk|..] && forall k | |chunk| <= k < 3 :: f[k] == 0
    requires BitStream(q, 6) == BitStream(f, 8)
    ensures BitStream(q[..|chunk| + 1], 6) == BitStream(chunk, 8) + Zeros(6 * (|chunk| + 1) - 8 * |chunk|)
  {
    hide *;
    var zeros := f[|chunk|..];
    assert |zeros| == 3 - |chunk| && f == chunk + zeros;
    ZeroStream(zeros);
    assert |zeros| * 8 == 8 * |zeros|;
    CutStream(q, |chunk| + 1, chunk, zeros);
  }

  lemma SextetStream(f: seq<byte>)
    requires |f| == 3
    ensures BitStream(Sextets(f[0], f[1], f[2]), 6) == BitStream(f, 8)
  {
    hide Sextets, BitStream;
    var q := Sextets(f[0], f[1], f[2]);
    SextetsValue(f[0], f[1], f[2]);
    GroupBits(f[0], f[1], f[2], q[0], q[1], q[2], q[3]);
    assert q == [q[0], q[1], q[2], q[3]];
    assert f == [f[0], f[1], f[2]];
  }

  lemma CutStream(q: seq<nat>, i: nat, u: seq<nat>, v: seq<nat>)
    requires i <= |q| && 6 * i >= 8 * |u|
    requires BitStream(q, 6) == BitStream(u + v, 8)
    requires BitStream(v, 8) == Zeros(8 * |v|)
    ensures BitStream(q[..i], 6) == BitStream(u, 8) + Zeros(6 * i - 8 * |u|)
  {
    hide BitStream, Zeros;
    assert q == q[..i] + q[i..];
    BitStreamAppend(q[..i], q[i..], 6);
    BitStreamAppend(u, v, 8);
    BitStreamLength(q[..i], 6);
    BitStreamLength(u, 8);
    CutZeros(BitStream(q[..i], 6), BitStream(q[i..], 6), BitStream(u, 8), 8 * |v|);
  }

  lemma CutZeros(x: seq<bool>, y: seq<bool>, u: seq<bool>, m: nat)
    requires x + y == u + Zeros(m) && |x| >= |u|
    ensures x == u + Zeros(|x| - |u|)
  {
    assert x == (x + y)[..|x|];
    assert forall k | |u| <= k < |u| + m :: (u + Zeros(m))[k] == false;
  }

  lemma {:induction false} ZeroStream(s: seq<nat>)
    requires forall k | 0 <= k < |s| :: s[k] == 0
    ensures BitStream(s, 8) == Zeros(|s| * 8)
  {
    hide Bits;
    BitStreamLength(s, 8);
    if |s| > 0 {
      BitsOfZero(8);
      ZeroStream(s[1..]);
    }
  }

  // ---- when decoding succeeds, and what it then means ----------------------------------------

  /** `decode` succeeds exactly on alphabet text whose stripped length is not 1 modulo 4 and whose
      bytes fit the output; it then writes floor(3L/4) bytes. */
  lemma {:induction false} DecodeSucceedsIff(data: seq<byte>, room: nat)
    ensures DecodedData(data, room).Decoded? <==> Valid(data) && |data| % 4 != 1 && |data| * 3 / 4 <= room
    ensures DecodedData(data, room).Decoded? ==> |DecodedData(data, room).bytes| == |data| * 3 / 4
    decreases |data|
  {
    hide DecodeChar, Pack, Valid, GroupBytes, DecodedData;
    if |data| < 4 {
      RemainderStep(data, room);
      ValidShort(data);
    } else {
      var g, rest := data[..4], data[4..];
      GroupStep(data, room);
      if room >= 3 {
        DecodeSucceedsIff(rest, room - 3);
      }
      FourFewer(|data|);
      assert data == g + rest;
      ValuesAppend(g, rest);
    }
  }

  lemma FourFewer(n: nat)
    requires n >= 4
    ensures n * 3 / 4 == (n - 4) * 3 / 4 + 3 && n % 4 == (n - 4) % 4
  {
  }

  lemma ValidShort(data: seq<byte>)
    ensures |data| == 0 ==> Valid(data)
  {
  }

  /** The panic of `decode` on an output of any size: after the whole groups that fit come enough characters for
      one more group that does not, all of them in the alphabet. */
  lemma {:induction false} DecodePanicsIff(data: seq<byte>, room: nat)
    ensures DecodedData(data, room) == Panic
       <==> |data| >= 4 * (room / 3) + room % 3 + 2 && Valid(data[..Min(|data|, 4 * (room / 3) + 4)])
    decreases |data|
  {
    hide DecodeChar, Pack, Valid, GroupBytes, DecodedData;
    var n := Min(|data|, 4 * (room / 3) + 4);
    if |data| < 4 {
      RemainderStep(data, room);
      assert data[..n] == data;
    } else {
      var g, rest := data[..4], data[4..];
      GroupStep(data, room);
      if room >= 3 {
        ThreeFewer(room);
        DecodePanicsIff(rest, room - 3);
        assert data[..n] == g + rest[..n - 4];
        ValuesAppend(g, rest[..n - 4]);
      }
    }
  }

  lemma ThreeFewer(n: nat)
    requires n >= 3
    ensures n / 3 == (n - 3) / 3 + 1 && n % 3 == (n - 3) % 3
  {
  }

  /** Main theorem of `decode`: the bytes are the leading bits of the text's bit stream, eight at a time. */
  lemma {:induction false} DecodeMeansBits(data: seq<byte>, room: nat)
    requires DecodedData(data, room).Decoded?
    ensures BitStream(DecodedData(data, room).bytes, 8) <= BitStream(Values(data), 6)
    decreases |data|
  {
    hide *;
    if |data| < 4 {
      RemainderStep(data, room);
      ShortBits(data);
    } else {
      GroupStep(data, room);
      var g, rest := data[..4], DecodedData(data[4..], room - 3);
      PrependDecoded(GroupBytes(g), rest);
      DecodeMeansBits(data[4..], room - 3);
      PackBits(g);
      assert data == g + data[4..];
      ValuesAppend(g, data[4..]);
      BitStreamAppend(Values(g), Values(data[4..]), 6);
      BitStreamAppend(GroupBytes(g), rest.bytes, 8);
    }
  }

  lemma PrependDecoded(a: seq<byte>, r: Outcome)
    ensures Prepend(a, r).Decoded? ==> r.Decoded? && Prepend(a, r).bytes == a + r.bytes
  {
  }

  lemma PackBits(g: seq<byte>)
    requires 2 <= |g| <= 4 && Valid(g)
    ensures BitStream(GroupBytes(g), 8) <= BitStream(Values(g), 6)
    ensures |g| == 4 ==> BitStream(GroupBytes(g), 8) == BitStream(Values(g), 6)
  {
    hide DecodeChar, Pack, BitStream;
    var v := Values(g) + [0, 0];
    var q := v[..4];
    var p := Pack(q[0], q[1], q[2], q[3]);
    assert GroupBytes(g) == p[..|g| - 1];
    PackValue(q[0], q[1], q[2], q[3]);
    GroupBits(p[0], p[1], p[2], q[0], q[1], q[2], q[3]);
    assert p == [p[0], p[1], p[2]] && q == [q[0], q[1], q[2], q[3]];
    assert q == Values(g) + q[|g|..];
    PrefixStream(p, |g| - 1, q, |g|);
    assert |g| == 4 ==> p[..3] == p && q[..4] == q;
  }

  /** Cutting two equal streams keeps the shorter one a prefix of the longer one. */
  lemma PrefixStream(p: seq<nat>, i: nat, q: seq<nat>, j: nat)
    requires i <= |p| && j <= |q| && 8 * i <= 6 * j
    requires BitStream(p, 8) == BitStream(q, 6)
    ensures BitStream(p[..i], 8) <= BitStream(q[..j], 6)
  {
    hide *;
    assert p == p[..i] + p[i..] && q == q[..j] + q[j..];
    BitStreamAppend(p[..i], p[i..], 8);
    BitStreamAppend(q[..j], q[j..], 6);
    BitStreamLength(p[..i], 8);
    BitStreamLength(q[..j], 6);
    ShorterPrefix(BitStream(p[..i], 8), BitStream(p[i..], 8), BitStream(q[..j], 6), BitStream(q[j..], 6));
  }

  lemma ShorterPrefix(a: seq<bool>, b: seq<bool>, c: seq<bool>, d: seq<bool>)
    requires a + b == c + d && |a| <= |c|
    ensures a <= c
  {
    assert a == (a + b)[..|a|] == (c + d)[..|a|] == c[..|a|];
  }

  lemma ShortBits(g: seq<byte>)
    requires |g| < 4 && (|g| >= 2 ==> Valid(g))
    ensures |g| == 0 ==> BitStream([], 8) <= BitStream(Values(g), 6)
    ensures |g| >= 2 ==> BitStream(GroupBytes(g), 8) <= BitStream(Values(g), 6)
  {
    hide GroupBytes, Values, Valid, DecodeChar;
    if |g| >= 2 {
      PackBits(g);
    }
  }

  // ---- round trips --------------------------------------------------------------------------

  /** Decoding an encoding gives the bytes back, padding kept or stripped, whenever they fit. */
  lemma RoundTrip(input: seq<byte>, room: nat)
    requires |input| <= room
    ensures DecodedInto(Encoded(input), room) == Decoded(input)
    ensures DecodedInto(Stripped(Encoded(input)), room) == Decoded(input)
  {
    hide *;
    DecodeEncodedData(input, room);
    EncodeMeansBits(input);
    StrippedValid(Stripped(Encoded(input)));
    DecodedIntoData(Encoded(input), room);
    DecodedIntoData(Stripped(Encoded(input)), room);
  }

  /** Up to two '=' after the data are taken as padding, whatever the data's length; with more nothing decodes. */
  lemma PaddingTaken(data: seq<byte>, pads: nat, room: nat)
    requires Valid(data)
    ensures var text := data + seq(pads, _ => 61 as byte);
            if pads <= 2 then DecodedInto(text, room) == DecodedInto(data, room)
            else !DecodedInto(text, room).Decoded?
  {
    hide Valid, DecodedInto, DecodedData;
    var text := data + seq(pads, _ => 61 as byte);
    DecodedIntoData(text, room);
    DecodedIntoData(data, room);
    StrippedValid(data);
    if pads <= 2 {
      ValidEnd(data);
      assert Stripped(text) == data;
    } else {
      var rest := Stripped(text);
      assert rest == text[..|text| - 2] && rest[|data|] == PAD;
      NotValidAt(rest, |data|);
      DecodeSucceedsIff(rest, room);
    }
  }

  lemma ValidEnd(data: seq<byte>)
    requires Valid(data)
    ensures |data| > 0 ==> data[|data| - 1] != PAD
  {
  }

  lemma NotValidAt(data: seq<byte>, k: nat)
    requires k < |data| && data[k] == PAD
    ensures !Valid(data)
  {
  }

  lemma DecodedIntoData(text: seq<byte>, room: nat)
    ensures DecodedInto(text, room) == DecodedData(Stripped(text), room)
  {
    hide DecodedData, Stripped;
  }

  lemma StrippedValid(data: seq<byte>)
    requires Valid(data)
    ensures Stripped(data) == data
  {
    if |data| > 0 {
      assert DecodeChar(data[|data| - 1]) < 64;
    }
  }

  lemma {:induction false} DecodeEncodedData(input: seq<byte>, room: nat)
    requires |input| <= room
    ensures DecodedData(Stripped(Encoded(input)), room) == Decoded(input)
  {
    hide Group, GroupData, GroupBytes, Valid, DecodedData, Encoded, Stripped, DecodeChar;
    if |input| == 0 {
      EncodeEmpty();
      RemainderStep([], room);
    } else if |input| <= 3 {
      EncodedChunk(input);
      GroupStripped(input);
      var g := GroupData(input);
      if |g| < 4 {
        RemainderStep(g, room);
      } else {
        assert g[..4] == g && g[4..] == [];
        GroupStep(g, room);
        RemainderStep([], room - 3);
        PrependEnd(GroupBytes(g));
      }
    } else {
      var head, rest := input[..3], input[3..];
      EncodedSplit(input);
      EncodedSize(rest);
      GroupStripped(head);
      StrippedAppend(Group(head), Encoded(rest));
      var data := Group(head) + Stripped(Encoded(rest));
      assert data[..4] == Group(head) && data[4..] == Stripped(Encoded(rest));
      GroupStep(data, room);
      DecodeEncodedData(rest, room - 3);
      PrependBytes(head, rest);
      assert input == head + rest;
    }
  }

  lemma EncodedSplit(input: seq<byte>)
    requires |input| > 3
    ensures Encoded(input) == Group(input[..3]) + Encoded(input[3..])
    ensures |Encoded(input[3..])| == EncodedLength(|input[3..]|) >= 4
  {
    hide Group;
    EncodedSize(input[3..]);
  }

  lemma PrependBytes(a: seq<byte>, b: seq<byte>)
    ensures Prepend(a, Decoded(b)) == Decoded(a + b)
  {
  }

  lemma PrependEnd(a: seq<byte>)
    ensures Prepend(a, Decoded([])) == Decoded(a)
  {
    assert a + [] == a;
  }

  /** The canonical text: same characters, unused trailing bits cleared, padding restored. */
  function Canonical(text: seq<byte>): seq<byte> {
    CanonicalData(Stripped(text))
  }

  function CanonicalData(data: seq<byte>): seq<byte> {
    var n := |data|;
    if n % 4 == 2 && DecodeChar(data[n - 1]) < 64 then
      data[..n - 1] + [EncodeChar(DecodeChar(data[n - 1]) / 16 * 16), PAD, PAD]
    else if n % 4 == 3 && DecodeChar(data[n - 1]) < 64 then
      data[..n - 1] + [EncodeChar(DecodeChar(data[n - 1]) / 4 * 4), PAD]
    else data
  }

  /** Encoding what a text decoded to gives its canonical form. */
  lemma EncodeAfterDecode(text: seq<byte>, room: nat)
    requires DecodedInto(text, room).Decoded?
    ensures Encoded(DecodedInto(text, room).bytes) == Canonical(text)
  {
    EncodeDecodedData(Stripped(text), room);
  }

  lemma {:induction false} EncodeDecodedData(data: seq<byte>, room: nat)
    requires DecodedData(data, room).Decoded?
    ensures Encoded(DecodedData(data, room).bytes) == CanonicalData(data)
    decreases |data|
  {
    hide Group, GroupBytes, Valid, DecodedData, Encoded, DecodeChar, EncodeChar, CanonicalData;
    if |data| < 4 {
      RemainderStep(data, room);
      if |data| == 0 {
        CanonicalEmpty();
      } else {
        EncodedChunk(GroupBytes(data));
        GroupCanonical(data);
      }
    } else {
      GroupStep(data, room);
      var g, rest := data[..4], DecodedData(data[4..], room - 3);
      PrependDecoded(GroupBytes(g), rest);
      EncodeDecodedData(data[4..], room - 3);
      EncodedChunk(GroupBytes(g));
      EncodedAppend(GroupBytes(g), rest.bytes, 1);
      GroupCanonical(g);
      CanonicalSplit(data);
    }
  }

  lemma CanonicalEmpty()
    ensures CanonicalData([]) == [] && Encoded([]) == []
  {
  }

  lemma CanonicalSplit(data: seq<byte>)
    requires |data| >= 4
    ensures CanonicalData(data) == data[..4] + CanonicalData(data[4..])
    ensures CanonicalData(data[..4]) == data[..4]
  {
    hide DecodeChar, EncodeChar;
    assert data == data[..4] + data[4..];
  }

  lemma GroupCanonical(g: seq<byte>)
    requires 2 <= |g| <= 4 && Valid(g)
    ensures Group(GroupBytes(g)) == CanonicalData(g)
  {
    hide Sextets, Pack, DecodeChar, EncodeChar;
    forall k | 0 <= k < |g|
      ensures EncodeChar(DecodeChar(g[k])) == g[k]
    {
      DecodeCharInverts(g[k]);
    }
    var a, b := DecodeChar(g[0]), DecodeChar(g[1]);
    if |g| == 2 {
      PackClears2(a, b);
      SextetsPack(a, b / 16 * 16, 0, 0);
    } else if |g| == 3 {
      PackClears1(a, b, DecodeChar(g[2]));
      SextetsPack(a, b, DecodeChar(g[2]) / 4 * 4, 0);
    } else {
      SextetsPack(a, b, DecodeChar(g[2]), DecodeChar(g[3]));
    }
  }

  lemma PackClears2(a: nat, b: nat)
    requires a < 64 && b < 64
    ensures Pack(a, b / 16 * 16, 0, 0) == [Pack(a, b, 0, 0)[0], 0, 0]
  {
  }

  lemma PackClears1(a: nat, b: nat, c: nat)
    requires a < 64 && b < 64 && c < 64
    ensures Pack(a, b, c / 4 * 4, 0) == [Pack(a, b, c, 0)[0], Pack(a, b, c, 0)[1], 0]
  {
  }

  // ---- known answers ---------------------------------------------------------------------------

  /** The group of three bytes whose 24 bits are the four values. */
  lemma GroupIs(b0: byte, b1: byte, b2: byte, a: nat, b: nat, c: nat, d: nat)
    requires a < 64 && b < 64 && c < 64 && d < 64
    requires (b0 as int) * 65536 + (b1 as int) * 256 + b2 == a * 262144 + b * 4096 + c * 64 + d
    ensures Group([b0, b1, b2]) == [EncodeChar(a), EncodeChar(b), EncodeChar(c), EncodeChar(d)]
  {
    hide Sextets, EncodeChar;
    SextetsValue(b0, b1, b2);
    Radix64(Sextets(b0, b1, b2), a, b, c, d);
    FullGroup([b0, b1, b2]);
  }

  lemma LastGroupIs(b0: byte, b1: byte, a: nat, b: nat, c: nat)
    requires a < 64 && b < 64 && c < 64
    requires (b0 as int) * 65536 + (b1 as int) * 256 == a * 262144 + b * 4096 + c * 64
    ensures Group([b0, b1]) == [EncodeChar(a), EncodeChar(b), EncodeChar(c), PAD]
  {
    hide Sextets, EncodeChar;
    SextetsValue(b0, b1, 0);
    Radix64(Sextets(b0, b1, 0), a, b, c, 0);
    assert Sextets(b0, b1, 0)[..3] == [a, b, c];
  }

  lemma FirstGroup(data: seq<byte>, b0: byte, b1: byte, b2: byte)
    requires |data| > 3 && data[..3] == [b0, b1, b2]
    ensures Encoded(data) == Group([b0, b1, b2]) + Encoded(data[3..])
  {
    hide Group;
  }

  /** "foobar" is "Zm9vYmFy", "fooba" is "Zm9vYmE=", "foob" is "Zm9vYg==", and FB FF FE is "+//+". */
  lemma KnownTexts()
    ensures Encoded([102, 111, 111, 98, 97, 114]) == [90, 109, 57, 118, 89, 109, 70, 121]
    ensures Encoded([102, 111, 111, 98, 97]) == [90, 109, 57, 118, 89, 109, 69, 61]
    ensures Encoded([102, 111, 111, 98]) == [90, 109, 57, 118, 89, 103, 61, 61]
    ensures Encoded([0xFB, 0xFF, 0xFE]) == [43, 47, 47, 43]
  {
    hide Group, Encoded;
    GroupIs(102, 111, 111, 25, 38, 61, 47);
    GroupIs(98, 97, 114, 24, 38, 5, 50);
    LastGroupIs(98, 97, 24, 38, 4);
    GroupIs(0xFB, 0xFF, 0xFE, 62, 63, 63, 62);
    OneByteGroup();
    FirstGroup([102, 111, 111, 98, 97, 114], 102, 111, 111);
    FirstGroup([102, 111, 111, 98, 97], 102, 111, 111);
    FirstGroup([102, 111, 111, 98], 102, 111, 111);
    EncodedChunk([98, 97, 114]);
    EncodedChunk([98, 97]);
    EncodedChunk([98]);
    EncodedChunk([0xFB, 0xFF, 0xFE]);
  }

  lemma OneByteGroup()
    ensures Group([98]) == [89, 103, 61, 61]
  {
    hide Sextets;
    SextetsValue(98, 0, 0);
    Radix64(Sextets(98, 0, 0), 24, 32, 0, 0);
    assert Sextets(98, 0, 0)[..2] == [24, 32];
  }
}
