/** Well-formed UTF-8 as `core::str::from_utf8` checks it (section 4 of RFC 3629). */
module Utf8 {
  import opened Bytes

  predicate Continuation(b: byte) {
    0x80 <= b <= 0xBF
  }

  /** The length of the well-formed sequence at the head of `s`, or 0. */
  function HeadLength(s: seq<byte>): (n: nat)
    ensures n <= |s| && n <= 4
  {
    if |s| >= 1 && s[0] <= 0x7F then 1
    else if |s| >= 2 && 0xC2 <= s[0] <= 0xDF && Continuation(s[1]) then 2
    else if |s| >= 3 && 0xE0 <= s[0] <= 0xEF && Continuation(s[1]) && Continuation(s[2])
            && (s[0] == 0xE0 ==> s[1] >= 0xA0) && (s[0] == 0xED ==> s[1] <= 0x9F) then 3
    else if |s| >= 4 && 0xF0 <= s[0] <= 0xF4 && Continuation(s[1]) && Continuation(s[2]) && Continuation(s[3])
            && (s[0] == 0xF0 ==> s[1] >= 0x90) && (s[0] == 0xF4 ==> s[1] <= 0x8F) then 4
    else 0
  }

  predicate Valid(s: seq<byte>) {
    |s| == 0 || (HeadLength(s) > 0 && Valid(s[HeadLength(s)..]))
  }

  // ---- what valid text is ------------------------------------------------------------------------

  /** The Unicode scalar values. */
  predicate Scalar(c: nat) {
    c < 0xD800 || 0xE000 <= c < 0x110000
  }

  /** The encoding of a scalar value: one to four bytes, six bits in each byte but the first. */
  function EncodingOf(c: nat): (s: seq<byte>)
    requires Scalar(c)
  {
    if c < 0x80 then [c]
    else if c < 0x800 then [192 + c / 64, 128 + c % 64]
    else if c < 0x10000 then [224 + c / 4096, 128 + c / 64 % 64, 128 + c % 64]
    else [240 + c / 262144, 128 + c / 4096 % 64, 128 + c / 64 % 64, 128 + c % 64]
  }

  function TextOf(scalars: seq<nat>): seq<byte>
    requires forall k | 0 <= k < |scalars| :: Scalar(scalars[k])
  {
    if |scalars| == 0 then [] else EncodingOf(scalars[0]) + TextOf(scalars[1..])
  }

  lemma SixBits(hi: nat, lo: nat)
    requires lo < 64
    ensures (hi * 64 + lo) / 64 == hi && (hi * 64 + lo) % 64 == lo
  {
  }

  lemma Shifts(c: nat)
    ensures c / 4096 == c / 64 / 64 && c / 262144 == c / 64 / 64 / 64
  {
  }

  /** Every encoded scalar value is a head, whatever follows it. */
  lemma HeadOfEncoding(c: nat, rest: seq<byte>)
    requires Scalar(c)
    ensures HeadLength(EncodingOf(c) + rest) == |EncodingOf(c)| > 0
  {
    Shifts(c);
  }

  /** Every head is the encoding of a scalar value. */
  lemma HeadIsEncoding(s: seq<byte>) returns (c: nat)
    requires HeadLength(s) > 0
    ensures Scalar(c) && s[..HeadLength(s)] == EncodingOf(c)
  {
    var n, a: int := HeadLength(s), s[0];
    if n == 1 {
      c := a;
    } else if n == 2 {
      c := (a - 192) * 64 + (s[1] as int - 128);
    } else if n == 3 {
      c := ThreeBytes(a - 224, s[1] as int - 128, s[2] as int - 128);
    } else {
      c := FourBytes(a - 240, s[1] as int - 128, s[2] as int - 128, s[3] as int - 128);
    }
  }

  lemma ThreeBytes(a: nat, b: nat, d: nat) returns (c: nat)
    requires a < 16 && b < 64 && d < 64 && (a == 0 ==> b >= 32) && (a == 13 ==> b < 32)
    ensures Scalar(c) && EncodingOf(c) == [224 + a, 128 + b, 128 + d]
  {
    c := (a * 64 + b) * 64 + d;
    SixBits(a * 64 + b, d);
    SixBits(a, b);
    Shifts(c);
  }

  lemma FourBytes(a: nat, b: nat, d: nat, e: nat) returns (c: nat)
    requires a <= 4 && b < 64 && d < 64 && e < 64 && (a == 0 ==> b >= 16) && (a == 4 ==> b < 16)
    ensures Scalar(c) && EncodingOf(c) == [240 + a, 128 + b, 128 + d, 128 + e]
  {
    c := ((a * 64 + b) * 64 + d) * 64 + e;
    SixBits((a * 64 + b) * 64 + d, e);
    SixBits(a * 64 + b, d);
    SixBits(a, b);
    Shifts(c);
  }

  /** The text of any scalar values is valid. */
  lemma {:induction false} TextIsValid(scalars: seq<nat>)
    requires forall k | 0 <= k < |scalars| :: Scalar(scalars[k])
    ensures Valid(TextOf(scalars))
  {
    hide HeadLength, EncodingOf;
    if |scalars| > 0 {
      var head, rest := EncodingOf(scalars[0]), TextOf(scalars[1..]);
      HeadOfEncoding(scalars[0], rest);
      TextIsValid(scalars[1..]);
      assert (head + rest)[|head|..] == rest;
    }
  }

  /** All valid text is the text of some scalar values. */
  lemma {:induction false} ValidIsText(s: seq<byte>) returns (scalars: seq<nat>)
    requires Valid(s)
    ensures (forall k | 0 <= k < |scalars| :: Scalar(scalars[k])) && TextOf(scalars) == s
    decreases |s|
  {
    hide HeadLength, EncodingOf;
    if |s| == 0 {
      scalars := [];
    } else {
      var n := HeadLength(s);
      var c := HeadIsEncoding(s);
      var rest := ValidIsText(s[n..]);
      scalars := [c] + rest;
      assert scalars[1..] == rest && s == s[..n] + s[n..];
    }
  }

  /** The byte of erased flash never occurs in valid text. */
  lemma {:induction false} NoErasedByte(s: seq<byte>)
    requires Valid(s)
    ensures 0xFF !in s
  {
    if |s| > 0 {
      var n := HeadLength(s);
      NoErasedByte(s[n..]);
      assert s == s[..n] + s[n..];
    }
  }

  lemma {:induction false} ValidAppend(a: seq<byte>, b: seq<byte>)
    requires Valid(a) && Valid(b)
    ensures Valid(a + b)
  {
    if |a| == 0 {
      assert a + b == b;
    } else {
      var n := HeadLength(a);
      assert (a + b)[n..] == a[n..] + b;
      assert HeadLength(a + b) == n;
      ValidAppend(a[n..], b);
    }
  }

  lemma {:induction false} AsciiValid(s: seq<byte>)
    requires forall k | 0 <= k < |s| :: s[k] <= 0x7F
    ensures Valid(s)
  {
    if |s| > 0 {
      AsciiValid(s[1..]);
    }
  }

  /** The bytes of a head after its first are not ASCII, an ASCII byte is a head of its own, and the head of a text
      depends on its own bytes only. */
  lemma Heads(s: seq<byte>)
    ensures forall i | 0 < i < HeadLength(s) :: s[i] >= 0x80
    ensures |s| > 0 && s[0] <= 0x7F ==> HeadLength(s) == 1
    ensures forall n | 0 < HeadLength(s) <= n <= |s| :: HeadLength(s[..n]) == HeadLength(s)
  {
  }

  lemma ValidStep(s: seq<byte>)
    ensures Valid([])
    ensures |s| > 0 ==> (Valid(s) <==> HeadLength(s) > 0 && Valid(s[HeadLength(s)..]))
  {
    hide HeadLength;
  }

  /** Valid text cut at an ASCII byte leaves two valid texts. */
  lemma {:induction false} AsciiSplits(a: seq<byte>, c: byte, b: seq<byte>)
    requires c <= 0x7F && Valid(a + [c] + b)
    ensures Valid(a) && Valid(b)
    decreases |a|
  {
    hide HeadLength, Valid;
    var s := a + [c] + b;
    var n := HeadLength(s);
    Heads(s);
    ValidStep(s);
    ValidStep(a);
    if |a| == 0 {
      assert s[1..] == b;
    } else {
      assert s[|a|] == c && s[..|a|] == a;
      assert s[n..] == a[n..] + [c] + b;
      AsciiSplits(a[n..], c, b);
    }
  }
}
