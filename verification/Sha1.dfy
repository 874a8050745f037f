/** SHA-1 as in sections 4, 5 and 6.1 of RFC 3174, the in-place implementation of src/ws.rs, and the
    WebSocket accept key built on it (section 4.2.2 of RFC 6455). */
module Sha1 {
  import opened Bytes
  import Base64

  type word = bv32

  // ---- the standard ----------------------------------------------------------------------

  /** Circular left shift, section 3 of RFC 3174. */
  function S(n: nat, x: word): word
    requires 0 < n < 32
  {
    (x << n) | (x >> (32 - n))
  }

  function Choose(b: word, c: word, d: word): word {
    (b & c) | (!b & d)
  }

  function Parity(b: word, c: word, d: word): word {
    b ^ c ^ d
  }

  function Majority(b: word, c: word, d: word): word {
    (b & c) | (b & d) | (c & d)
  }

  /** The logical functions of section 5. */
  function F(t: nat, b: word, c: word, d: word): word
    requires t < 80
  {
    if t < 20 then Choose(b, c, d)
    else if t < 40 then Parity(b, c, d)
    else if t < 60 then Majority(b, c, d)
    else Parity(b, c, d)
  }

  /** The constants of section 5. */
  function K(t: nat): word
    requires t < 80
  {
    if t < 20 then 0x5A827999
    else if t < 40 then 0x6ED9EBA1
    else if t < 60 then 0x8F1BBCDC
    else 0xCA62C1D6
  }

  function BigEndian(b0: byte, b1: byte, b2: byte, b3: byte): word {
    (b0 as word << 24) | (b1 as word << 16) | (b2 as word << 8) | b3 as word
  }

  function Xor4(a: word, b: word, c: word, d: word): word {
    a ^ b ^ c ^ d
  }

  /** Addition modulo 2^32. */
  function Sum5(a: word, b: word, c: word, d: word, e: word): word {
    a + b + c + d + e
  }

  /** The message schedule, section 6.1 steps a and b. */
  function W(block: seq<byte>, t: nat): word
    requires |block| == 64 && t < 80
  {
    if t < 16 then BigEndian(block[4 * t], block[4 * t + 1], block[4 * t + 2], block[4 * t + 3])
    else S(1, Xor4(W(block, t - 3), W(block, t - 8), W(block, t - 14), W(block, t - 16)))
  }

  /** The five chaining words, also used for the working variables A to E. */
  datatype Words = Words(a: word, b: word, c: word, d: word, e: word)

  /** The working variables after the first `t` steps, section 6.1 step d. */
  function Rounds(block: seq<byte>, h: Words, t: nat): Words
    requires |block| == 64 && t <= 80
  {
    if t == 0 then h
    else
      var s := Rounds(block, h, t - 1);
      Words(Sum5(S(5, s.a), F(t - 1, s.b, s.c, s.d), s.e, W(block, t - 1), K(t - 1)), s.a, S(30, s.b), s.c, s.d)
  }

  /** Addition modulo 2^32, `wrapping_add`. */
  function Sum2(x: word, y: word): word {
    x + y
  }

  /** Section 6.1 step e. */
  function AddWords(x: Words, y: Words): Words {
    Words(Sum2(x.a, y.a), Sum2(x.b, y.b), Sum2(x.c, y.c), Sum2(x.d, y.d), Sum2(x.e, y.e))
  }

  function Update(h: Words, block: seq<byte>): Words
    requires |block| == 64
  {
    AddWords(h, Rounds(block, h, 80))
  }

  /** Processing the 64-byte blocks of a message in order. */
  function Compress(h: Words, message: seq<byte>): Words
    decreases |message|
  {
    if |message| < 64 then h else Compress(Update(h, message[..64]), message[64..])
  }

  const H0 := Words(0x67452301, 0xEFCDAB89, 0x98BADCFE, 0x10325476, 0xC3D2E1F0)

  /** The 64-bit message length in bits, most significant byte first. */
  function LengthBytes(n: nat): (s: seq<byte>)
    ensures |s| == 8
  {
    var bits := 8 * n;
    [bits / 0x100_0000_0000_0000 % 256, bits / 0x1_0000_0000_0000 % 256, bits / 0x100_0000_0000 % 256,
     bits / 0x1_0000_0000 % 256, bits / 0x100_0000 % 256, bits / 0x1_0000 % 256, bits / 0x100 % 256, bits % 256]
  }

  /** They are the message length in bits as a 64-bit number, most significant byte first. */
  lemma LengthMeans(n: nat)
    ensures var s: seq<int> := LengthBytes(n);
            s[0] * 0x100_0000_0000_0000 + s[1] * 0x1_0000_0000_0000 + s[2] * 0x100_0000_0000 + s[3] * 0x1_0000_0000
            + s[4] * 0x100_0000 + s[5] * 0x1_0000 + s[6] * 0x100 + s[7] == 8 * n % 0x1_0000_0000_0000_0000
  {
    var x := 8 * n;
    var high, low := x / 0x1_0000_0000, x % 0x1_0000_0000;
    LowerBytes(x);
    LowerBytes(high);
    UpperBytes(x);
  }

  lemma LowerBytes(x: nat)
    ensures x / 0x100_0000 % 256 * 0x100_0000 + x / 0x1_0000 % 256 * 0x1_0000 + x / 0x100 % 256 * 0x100 + x % 256
         == x % 0x1_0000_0000
  {
    Shifted(x);
    SplitByte(x);
    SplitByte(x / 256);
    SplitByte(x / 0x1_0000);
    SplitByte(x / 0x100_0000);
    var low := x / 0x100_0000 % 256 * 0x100_0000 + x / 0x1_0000 % 256 * 0x1_0000 + x / 0x100 % 256 * 0x100 + x % 256;
    SplitWord(x, x / 0x100_0000 / 256, low);
  }

  lemma SplitByte(x: nat)
    ensures x == x / 256 * 256 + x % 256 && 0 <= x % 256 < 256
  {
  }

  lemma SplitWord(x: nat, high: nat, low: nat)
    requires x == high * 0x1_0000_0000 + low && low < 0x1_0000_0000
    ensures x % 0x1_0000_0000 == low
  {
  }

  lemma Shifted(x: nat)
    ensures x / 0x1_0000 == x / 256 / 256 && x / 0x100_0000 == x / 0x1_0000 / 256
  {
  }

  lemma UpperBytes(x: nat)
    ensures var high := x / 0x1_0000_0000;
            && x / 0x100_0000_0000_0000 == high / 0x100_0000 && x / 0x1_0000_0000_0000 == high / 0x1_0000
            && x / 0x100_0000_0000 == high / 0x100
            && x % 0x1_0000_0000_0000_0000 == high % 0x1_0000_0000 * 0x1_0000_0000 + x % 0x1_0000_0000
  {
    UpperByte7(x);
    UpperByte6(x);
    UpperByte5(x);
    UpperWord(x);
  }

  lemma UpperByte5(x: nat)
    ensures x / 0x100_0000_0000 == x / 0x1_0000_0000 / 0x100
  {
  }

  lemma UpperByte6(x: nat)
    ensures x / 0x1_0000_0000_0000 == x / 0x1_0000_0000 / 0x1_0000
  {
  }

  lemma UpperByte7(x: nat)
    ensures x / 0x100_0000_0000_0000 == x / 0x1_0000_0000 / 0x100_0000
  {
  }

  lemma UpperWord(x: nat)
    ensures x % 0x1_0000_0000_0000_0000 == x / 0x1_0000_0000 % 0x1_0000_0000 * 0x1_0000_0000 + x % 0x1_0000_0000
  {
  }

  /** The number of zero bytes section 4 inserts: the fewest that complete a block. */
  function Fill(n: nat): nat {
    (55 - n) % 64
  }

  /** Section 4: a one bit, zeros, and the length. */
  function Padded(message: seq<byte>): seq<byte> {
    message + [0x80] + ZeroBytes(Fill(|message|)) + LengthBytes(|message|)
  }

  function WordBytes(w: word): (s: seq<byte>)
    ensures |s| == 4
  {
    [((w >> 24) & 0xFF) as bv8 as int, ((w >> 16) & 0xFF) as bv8 as int,
     ((w >> 8) & 0xFF) as bv8 as int, (w & 0xFF) as bv8 as int]
  }

  function Output(h: Words): (s: seq<byte>)
    ensures |s| == 20
  {
    WordBytes(h.a) + WordBytes(h.b) + WordBytes(h.c) + WordBytes(h.d) + WordBytes(h.e)
  }

  function Digest(message: seq<byte>): (s: seq<byte>)
    ensures |s| == 20
  {
    Output(Compress(H0, Padded(message)))
  }

  /** Padding completes the last block with fewer than 64 zero bytes and keeps the message in front. */
  lemma PaddedShape(message: seq<byte>)
    ensures |Padded(message)| % 64 == 0
    ensures message < Padded(message)
    ensures |Padded(message)| - |message| <= 72
    ensures Padded(message)[|message|] == 0x80
    ensures forall k | |message| < k < |Padded(message)| - 8 :: Padded(message)[k] == 0
    ensures Padded(message)[|Padded(message)| - 8..] == LengthBytes(|message|)
  {
    hide LengthBytes;
    var n := |message|;
    assert (n + 1 + Fill(n) + 8) % 64 == 0 by {
      assert Fill(n) == 55 - n - 64 * ((55 - n) / 64);
    }
  }

  // ---- the implementation ----------------------------------------------------------------

  /** `u32::rotate_left`. */
  method RotateLeft(x: word, n: nat) returns (r: word)
    requires n == 1 || n == 5 || n == 30
    ensures r == S(n, x)
  {
    if n == 1 {
      r := x.RotateLeft(1);
    } else if n == 5 {
      r := x.RotateLeft(5);
    } else {
      r := x.RotateLeft(30);
    }
  }

  lemma RoundsStep(block: seq<byte>, h: Words, t: nat)
    requires |block| == 64 && t < 80
    ensures Rounds(block, h, 0) == h
    ensures (var s := Rounds(block, h, t);
             Rounds(block, h, t + 1)
             == Words(Sum5(S(5, s.a), F(t, s.b, s.c, s.d), s.e, W(block, t), K(t)), s.a, S(30, s.b), s.c, s.d))
  {
    hide S, F, K, W, Sum5;
  }

  lemma FirstWords(block: seq<byte>, t: nat)
    requires |block| == 64 && t < 16
    ensures W(block, t) == BigEndian(block[4 * t], block[4 * t + 1], block[4 * t + 2], block[4 * t + 3])
  {
    hide BigEndian;
  }

  lemma ScheduleStep(block: seq<byte>, t: nat)
    requires |block| == 64 && 16 <= t < 80
    ensures W(block, t) == S(1, Xor4(W(block, t - 3), W(block, t - 8), W(block, t - 14), W(block, t - 16)))
  {
    hide S, BigEndian, Xor4;
  }

  /** The first two loops of `sha1_block`. */
  method Schedule(block: seq<byte>) returns (w: seq<word>)
    requires |block| == 64
    ensures |w| == 80 && forall j | 0 <= j < 80 :: w[j] == W(block, j)
  {
    hide S, BigEndian, W, Xor4;
    var a := new word[80](_ => 0);
    for i := 0 to 16
      invariant forall j | 0 <= j < i :: a[j] == W(block, j)
    {
      FirstWords(block, i);
      a[i] := BigEndian(block[i * 4], block[i * 4 + 1], block[i * 4 + 2], block[i * 4 + 3]);
    }
    for i := 16 to 80
      invariant forall j | 0 <= j < i :: a[j] == W(block, j)
    {
      ScheduleStep(block, i);
      var next := RotateLeft(Xor4(a[i - 3], a[i - 8], a[i - 14], a[i - 16]), 1);
      a[i] := next;
    }
    w := a[..];
  }

  /** The logical function and constant of one step. */
  method StepFunction(i: nat, b: word, c: word, d: word) returns (f: word, k: word)
    requires i < 80
    ensures f == F(i, b, c, d) && k == K(i)
  {
    hide Choose, Parity, Majority;
    if i <= 19 {
      f, k := Choose(b, c, d), 0x5A827999;
    } else if i <= 39 {
      f, k := Parity(b, c, d), 0x6ED9EBA1;
    } else if i <= 59 {
      f, k := Majority(b, c, d), 0x8F1BBCDC;
    } else {
      f, k := Parity(b, c, d), 0xCA62C1D6;
    }
  }

  /** The wrapping sum of one step; the code adds the constant before the schedule word. */
  method StepSum(r: word, f: word, e: word, k: word, w: word) returns (temp: word)
    ensures temp == Sum5(r, f, e, w, k)
  {
    temp := r + f + e + k + w;
  }

  /** `sha1_block`: one block folded into the chaining words in place. */
  method Sha1Block(block: seq<byte>, h: array<word>)
    requires |block| == 64 && h.Length == 5
    modifies h
    ensures Chaining(h) == Update(old(Chaining(h)), block)
  {
    hide S, W, F, K, Rounds, Sum5, Sum2;
    ghost var start := Chaining(h);
    var w := Schedule(block);
    var a, b, c, d, e := h[0], h[1], h[2], h[3], h[4];
    RoundsStep(block, start, 0);
    for i := 0 to 80
      invariant Chaining(h) == start
      invariant Words(a, b, c, d, e) == Rounds(block, start, i)
    {
      RoundsStep(block, start, i);
      var f, k := StepFunction(i, b, c, d);
      var r := RotateLeft(a, 5);
      var temp := StepSum(r, f, e, k, w[i]);
      e := d;
      d := c;
      c := RotateLeft(b, 30);
      b := a;
      a := temp;
    }
    h[0] := Sum2(h[0], a);
    h[1] := Sum2(h[1], b);
    h[2] := Sum2(h[2], c);
    h[3] := Sum2(h[3], d);
    h[4] := Sum2(h[4], e);
  }

  function Chaining(h: array<word>): Words
    requires h.Length == 5
    reads h
  {
    Words(h[0], h[1], h[2], h[3], h[4])
  }

  /** The 128-byte tail buffer of `sha1`: leftover bytes, the 0x80 byte, zeros and the length. */
  method TailBuffer(tail: seq<byte>, length: nat) returns (pad: seq<byte>)
    requires |tail| < 64
    ensures |pad| == if |tail| < 56 then 64 else 128
    ensures pad == tail + [0x80] + ZeroBytes(|pad| - 9 - |tail|) + LengthBytes(length)
  {
    hide LengthBytes;
    var remaining := |tail|;
    var a := new byte[128](_ => 0);
    for j := 0 to remaining
      invariant a[..] == tail[..j] + ZeroBytes(128 - j)
    {
      a[j] := tail[j];
    }
    a[remaining] := 0x80;
    var padLen := if remaining < 56 then 64 else 128;
    var bitLen := LengthBytes(length);
    for i := 0 to 8
      invariant a[..padLen - 8] == tail + [0x80] + ZeroBytes(padLen - 9 - remaining)
      invariant a[padLen - 8..padLen - 8 + i] == bitLen[..i]
    {
      a[padLen - 8 + i] := bitLen[i];
    }
    pad := a[..padLen];
    assert pad == a[..padLen - 8] + a[padLen - 8..padLen];
  }

  /** `sha1`: whole blocks straight from the data, then one or two blocks from the tail buffer. */
  method Sha1(data: seq<byte>) returns (out: seq<byte>)
    ensures out == Digest(data)
  {
    hide Update, LengthBytes, Output, Fill, Padded, Compress;
    var h := new word[5];
    h[0], h[1], h[2], h[3], h[4] := 0x67452301, 0xEFCDAB89, 0x98BADCFE, 0x10325476, 0xC3D2E1F0;
    var offset := 0;
    ghost var blocks := 0;
    assert Padded(data)[0..] == Padded(data);
    PaddedShape(data);
    while offset + 64 <= |data|
      invariant offset == 64 * blocks <= |data|
      invariant Compress(H0, Padded(data)) == Compress(Chaining(h), Padded(data)[offset..])
    {
      CompressStep(Chaining(h), data, offset);
      Sha1Block(data[offset..offset + 64], h);
      offset, blocks := offset + 64, blocks + 1;
    }
    var pad := TailBuffer(data[offset..], |data|);
    TailIsPadding(data, offset, blocks);
    CompressTail(Chaining(h), pad);
    Sha1Block(pad[..64], h);
    if |pad| == 128 {
      Sha1Block(pad[64..128], h);
    }
    out := Output(Chaining(h));
  }

  lemma CompressStep(h: Words, data: seq<byte>, offset: nat)
    requires offset + 64 <= |data|
    ensures Compress(h, Padded(data)[offset..])
         == Compress(Update(h, data[offset..offset + 64]), Padded(data)[offset + 64..])
  {
    hide Update, LengthBytes, Fill;
    var p := Padded(data);
    assert p[offset..][..64] == data[offset..offset + 64];
    assert p[offset..][64..] == p[offset + 64..];
  }

  lemma TailIsPadding(data: seq<byte>, offset: nat, blocks: nat)
    requires offset == 64 * blocks <= |data| < offset + 64
    ensures offset <= |Padded(data)|
    ensures (var r := |data| - offset;
             Padded(data)[offset..]
             == data[offset..] + [0x80] + ZeroBytes((if r < 56 then 64 else 128) - 9 - r) + LengthBytes(|data|))
  {
    hide LengthBytes;
    var r := |data| - offset;
    assert Fill(|data|) == (if r < 56 then 64 else 128) - 9 - r;
  }

  lemma CompressTail(h: Words, pad: seq<byte>)
    requires |pad| == 64 || |pad| == 128
    ensures Compress(h, pad) == if |pad| == 64 then Update(h, pad[..64])
                                else Update(Update(h, pad[..64]), pad[64..128])
  {
    hide Update;
    if |pad| == 128 {
      var rest := pad[64..];
      assert rest[..64] == pad[64..128] && |rest[64..]| == 0;
      assert Compress(Update(Update(h, pad[..64]), rest[..64]), rest[64..]) == Update(Update(h, pad[..64]), rest[..64]);
    }
  }

  // ---- the accept key ----------------------------------------------------------------------

  /** 258EAFA5-E914-47DA-95CA-C5AB0DC85B11 */
  function WsGuid(): (guid: seq<byte>)
    ensures |guid| == 36
  {
    [50, 53, 56, 69, 65, 70, 65, 53, 45, 69, 57, 49, 52, 45, 52, 55, 68, 65,
     45, 57, 53, 67, 65, 45, 67, 53, 65, 66, 48, 68, 67, 56, 53, 66, 49, 49]
  }

  /** The 100-byte input buffer: at most 64 bytes of the key, then the GUID. */
  method AcceptInput(clientKey: seq<byte>) returns (text: seq<byte>)
    ensures text == clientKey[..Min(64, |clientKey|)] + WsGuid()
  {
    hide WsGuid;
    var input := new byte[100](_ => 0);
    var keyLen := Min(64, |clientKey|);
    var guid := WsGuid();
    for i := 0 to keyLen
      invariant input[..i] == clientKey[..i]
    {
      input[i] := clientKey[i];
    }
    for i := 0 to |guid|
      invariant input[..keyLen] == clientKey[..keyLen]
      invariant input[keyLen..keyLen + i] == guid[..i]
    {
      input[keyLen + i] := guid[i];
    }
    text := input[..keyLen + 36];
    assert text == input[..keyLen] + input[keyLen..keyLen + 36];
  }

  /** `compute_accept_key`: keys are cut at 64 bytes; the header value is the base64 form of the digest
      of key and GUID, so decoding it gives the digest back. */
  method ComputeAcceptKey(clientKey: seq<byte>, out: array<byte>) returns (n: nat)
    requires out.Length >= 28
    modifies out
    ensures n == 28
    ensures out[..28] == Base64.Encoded(Digest(clientKey[..Min(64, |clientKey|)] + WsGuid()))
    ensures |clientKey| <= 64 ==>
              Base64.DecodedInto(out[..28], 20) == Base64.Decoded(Digest(clientKey + WsGuid()))
    ensures out[28..] == old(out[..])[28..]
  {
    hide Digest, WsGuid, Base64.Encoded, Base64.DecodedInto;
    var text := AcceptInput(clientKey);
    var hash := Sha1(text);
    n := Base64.Encode(hash, out);
    AcceptLength(hash);
    Base64.RoundTrip(hash, 20);
    KeyUncut(clientKey);
  }

  lemma AcceptLength(hash: seq<byte>)
    requires |hash| == 20
    ensures Base64.EncodedLength(|hash|) == 28
  {
  }

  lemma KeyUncut(key: seq<byte>)
    ensures |key| <= 64 ==> key[..Min(64, |key|)] == key
    ensures Min(64, |key|) <= |key|
  {
  }
}
