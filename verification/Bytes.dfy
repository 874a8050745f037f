/** Bytes, the two result wrappers and the bitwise operations the firmware uses on single bytes. */
module Bytes {

  type byte = x: int | 0 <= x < 256

  datatype Option<+T> = None | Some(value: T)

  datatype Result<+T, +E> = Ok(value: T) | Err(error: E)

  function Min(a: nat, b: nat): nat {
    if a <= b then a else b
  }

  function Max(a: nat, b: nat): nat {
    if a >= b then a else b
  }

  function ZeroBytes(n: nat): (s: seq<byte>)
    ensures |s| == n
  {
    seq(n, _ => 0)
  }

  lemma TakeAppend<T>(s: seq<T>, i: nat, j: nat)
    requires i <= j <= |s|
    ensures s[..j] == s[..i] + s[i..j]
  {
  }

  /** `copy_from_slice` into `out[at..at + data.len()]`. */
  method CopyInto(data: seq<byte>, out: array<byte>, at: nat)
    requires at + |data| <= out.Length
    modifies out
    ensures out[..at + |data|] == old(out[..at]) + data
    ensures out[at + |data|..] == old(out[at + |data|..])
  {
    for i := 0 to |data|
      invariant out[..at + i] == old(out[..at]) + data[..i]
      invariant out[at + i..] == old(out[at + i..])
    {
      out[at + i] := data[i];
    }
  }

  function Pow2(n: nat): (p: nat)
    ensures p > 0
  {
    if n == 0 then 1 else 2 * Pow2(n - 1)
  }

  lemma Pow2Facts()
    ensures Pow2(6) == 64 && Pow2(8) == 256
  {
    assert Pow2(4) == 16;
  }

  /** The `width` low bits of `x`, most significant first. */
  function Bits(x: nat, width: nat): (s: seq<bool>)
    ensures |s| == width
  {
    if width == 0 then [] else Bits(x / 2, width - 1) + [x % 2 == 1]
  }

  /** Bitwise exclusive or of the `width` low bits. */
  function XorBits(a: nat, b: nat, width: nat): (r: nat)
    ensures r < Pow2(width)
  {
    if width == 0 then 0 else (if a % 2 == b % 2 then 0 else 1) + 2 * XorBits(a / 2, b / 2, width - 1)
  }

  /** Bitwise and of the `width` low bits. */
  function AndBits(a: nat, b: nat, width: nat): (r: nat)
    ensures r < Pow2(width)
  {
    if width == 0 then 0 else (if b % 2 == 1 then a % 2 else 0) + 2 * AndBits(a / 2, b / 2, width - 1)
  }

  function Xor(a: byte, b: byte): byte {
    XorBits(a, b, 8)
  }

  function And(a: byte, b: byte): byte {
    AndBits(a, b, 8)
  }

  lemma {:induction false} XorBitsTwice(a: nat, b: nat, width: nat)
    requires a < Pow2(width)
    ensures XorBits(XorBits(a, b, width), b, width) == a
  {
    if width > 0 {
      hide XorBits;
      var x := XorBits(a, b, width);
      XorBitsStep(a, b, width);
      XorBitsStep(x, b, width);
      XorBitsTwice(a / 2, b / 2, width - 1);
    }
  }

  lemma XorBitsStep(a: nat, b: nat, width: nat)
    requires width > 0
    ensures var x, rest := XorBits(a, b, width), XorBits(a / 2, b / 2, width - 1);
            var bit := if a % 2 == b % 2 then 0 else 1;
            x == bit + 2 * rest && x % 2 == bit && x / 2 == rest
  {
  }

  /** Exclusive or, bit by bit. */
  lemma {:induction false} XorBitsMeans(a: nat, b: nat, width: nat, j: nat)
    requires j < width
    ensures Bits(XorBits(a, b, width), width)[j] == (Bits(a, width)[j] != Bits(b, width)[j])
  {
    hide Bits;
    var x := XorBits(a, b, width);
    assert x % 2 == (if a % 2 == b % 2 then 0 else 1) && x / 2 == XorBits(a / 2, b / 2, width - 1);
    BitsStep(x, width);
    BitsStep(a, width);
    BitsStep(b, width);
    if j < width - 1 {
      XorBitsMeans(a / 2, b / 2, width - 1, j);
    }
  }

  /** Conjunction, bit by bit. */
  lemma {:induction false} AndBitsMeans(a: nat, b: nat, width: nat, j: nat)
    requires j < width
    ensures Bits(AndBits(a, b, width), width)[j] == (Bits(a, width)[j] && Bits(b, width)[j])
  {
    hide Bits;
    var x := AndBits(a, b, width);
    assert x % 2 == (if b % 2 == 1 then a % 2 else 0) && x / 2 == AndBits(a / 2, b / 2, width - 1);
    BitsStep(x, width);
    BitsStep(a, width);
    BitsStep(b, width);
    if j < width - 1 {
      AndBitsMeans(a / 2, b / 2, width - 1, j);
    }
  }

  /** Masking with the same key byte twice restores the byte. */
  lemma XorTwice(a: byte, b: byte)
    ensures Xor(Xor(a, b), b) == a
  {
    XorBitsTwice(a, b, 8);
  }

  lemma AndBitsStep(a: nat, b: nat, width: nat)
    requires width > 0
    ensures AndBits(a, b, width) == (if b % 2 == 1 then a % 2 else 0) + 2 * AndBits(a / 2, b / 2, width - 1)
  {
  }

  lemma {:induction false} AndBitsOnes(a: nat, width: nat)
    requires a < Pow2(width)
    ensures AndBits(Pow2(width) - 1, a, width) == a
  {
    if width > 0 {
      hide AndBits;
      var p := Pow2(width - 1);
      var ones := Pow2(width) - 1;
      assert ones == 2 * (p - 1) + 1;
      assert ones / 2 == p - 1 && ones % 2 == 1;
      AndBitsStep(ones, a, width);
      AndBitsOnes(a / 2, width - 1);
    }
  }

  /** Programming an erased (all ones) flash byte stores exactly the byte. */
  lemma AndOnes(a: byte)
    ensures And(255, a) == a
  {
    AndBitsOnes(a, 8);
  }

  lemma BitsStep(x: nat, width: nat)
    requires width > 0
    ensures Bits(x, width) == Bits(x / 2, width - 1) + [x % 2 == 1]
  {
  }

  lemma Halves(hi: nat, lo: nat, p: nat)
    ensures (hi * (2 * p) + lo) / 2 == hi * p + lo / 2 && (hi * (2 * p) + lo) % 2 == lo % 2
  {
    var m := hi * p;
    assert hi * (2 * p) == 2 * m;
  }

  /** Bits of a two-part number are the bits of the parts, high part first. */
  lemma {:induction false} BitsSplit(hi: nat, lo: nat, n: nat, k: nat)
    requires lo < Pow2(k)
    ensures Bits(hi * Pow2(k) + lo, n + k) == Bits(hi, n) + Bits(lo, k)
  {
    if k > 0 {
      hide Bits;
      var p := Pow2(k - 1);
      Halves(hi, lo, p);
      BitsStep(hi * (2 * p) + lo, n + k);
      BitsStep(lo, k);
      BitsSplit(hi, lo / 2, n, k - 1);
      assert Bits(hi, n) + Bits(lo / 2, k - 1) + [lo % 2 == 1] == Bits(hi, n) + (Bits(lo / 2, k - 1) + [lo % 2 == 1]);
    } else {
      assert Bits(hi, n) + [] == Bits(hi, n);
    }
  }
}
