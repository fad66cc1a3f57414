/**
 Bytes, the big- and little-endian integers that the wire formats use, and
 exclusive or. Bytes are integers, so that length fields need no conversion.
 */
module Bytes {
  type byte = x: int | 0 <= x < 0x100

  type u16 = x: int | 0 <= x < 0x1_0000

  type u32 = x: int | 0 <= x < 0x1_0000_0000

  datatype Option<+T> = None | Some(value: T)

  datatype Result<+T, +E> = Ok(value: T) | Err(error: E)

  /** In a second, as Go counts time. */
  const NANOSECONDS := 1_000_000_000

  /** What SHA-256 and HMAC-SHA-256 return. */
  const DIGEST_LEN := 32

  function Zeros(n: nat): (s: seq<byte>)
    ensures |s| == n && forall i :: 0 <= i < n ==> s[i] == 0
  {
    seq(n, i => 0)
  }

  type Digest = s: seq<byte> | |s| == DIGEST_LEN witness Zeros(DIGEST_LEN)

  /** HMAC-SHA-256 as a function of the key and the message; nothing else is assumed of it. */
  type Mac = (seq<byte>, seq<byte>) -> Digest

  function Min(a: int, b: int): int {
    if a <= b then a else b
  }

  function Max(a: int, b: int): int {
    if a >= b then a else b
  }

  // ----- unsigned integers on the wire

  function PutU16(v: u16): (s: seq<byte>)
    ensures |s| == 2
  {
    [v / 0x100, v % 0x100]
  }

  function GetU16(hi: byte, lo: byte): (v: u16) {
    hi * 0x100 + lo
  }

  /** The most significant byte first. */
  lemma U16Bytes(v: u16)
    ensures PutU16(v) == [v / 0x100, v % 0x100]
  {
  }

  lemma U16RoundTrip(v: u16)
    ensures GetU16(PutU16(v)[0], PutU16(v)[1]) == v
  {
  }

  /** A length field at the front reads back, whatever follows it. */
  lemma U16Front(v: u16, tail: seq<byte>)
    ensures var d := PutU16(v) + tail; |d| == 2 + |tail| && GetU16(d[0], d[1]) == v && d[2..] == tail
  {
    U16RoundTrip(v);
  }

  lemma Regroup(a: seq<byte>, b: seq<byte>, c: seq<byte>)
    ensures (a + b) + c == a + (b + c)
  {
  }

  function PutU24(v: int): (s: seq<byte>)
    requires 0 <= v < 0x100_0000
    ensures |s| == 3
  {
    [v / 0x1_0000, v / 0x100 % 0x100, v % 0x100]
  }

  function GetU24(a: byte, b: byte, c: byte): (v: int)
    ensures 0 <= v < 0x100_0000
  {
    a * 0x1_0000 + b * 0x100 + c
  }

  lemma U24Bytes(v: u16)
    ensures PutU24(v) == [0, v / 0x100, v % 0x100]
  {
  }

  lemma U24RoundTrip(v: int)
    requires 0 <= v < 0x100_0000
    ensures var s := PutU24(v); GetU24(s[0], s[1], s[2]) == v
  {
  }

  lemma U24Unique(a: byte, b: byte, c: byte)
    ensures PutU24(GetU24(a, b, c)) == [a, b, c]
  {
    var hi: int := a * 0x100 + b;
    var v := hi * 0x100 + c;
    assert v / 0x100 == hi && v % 0x100 == c;
    assert v / 0x1_0000 == hi / 0x100 == a;
  }

  /** Little endian, as `binary.LittleEndian.PutUint32` writes it. */
  function PutU32LE(v: u32): (s: seq<byte>)
    ensures |s| == 4
  {
    [v % 0x100, v / 0x100 % 0x100, v / 0x1_0000 % 0x100, v / 0x100_0000]
  }

  function GetU32LE(s: seq<byte>): (v: u32)
    requires |s| == 4
  {
    var a: int, b: int, c: int, d: int := s[0], s[1], s[2], s[3];
    a + b * 0x100 + c * 0x1_0000 + d * 0x100_0000
  }

  lemma U32RoundTrip(v: u32)
    ensures GetU32LE(PutU32LE(v)) == v
  {
    var q1 := v / 0x100;
    assert v / 0x1_0000 == q1 / 0x100;
    var q2 := q1 / 0x100;
    assert v / 0x100_0000 == q2 / 0x100;
  }

  lemma U32Unique(s: seq<byte>)
    requires |s| == 4
    ensures PutU32LE(GetU32LE(s)) == s
  {
    var a: int, b: int, c: int, d: int := s[0], s[1], s[2], s[3];
    var hi2 := c + d * 0x100;
    var hi1 := b + hi2 * 0x100;
    var v := a + hi1 * 0x100;
    assert v / 0x100 == hi1 && v % 0x100 == a;
    assert v / 0x1_0000 == hi1 / 0x100 == hi2 && hi1 % 0x100 == b;
    assert v / 0x100_0000 == hi2 / 0x100 == d && hi2 % 0x100 == c;
  }

  // ----- exclusive or

  function Power2(k: nat): (p: nat)
    ensures p > 0
  {
    if k == 0 then 1 else 2 * Power2(k - 1)
  }

  function XorBits(a: nat, b: nat, k: nat): (r: nat)
    ensures r < Power2(k)
  {
    if k == 0 then 0
    else (if a % 2 == b % 2 then 0 else 1) + 2 * XorBits(a / 2, b / 2, k - 1)
  }

  lemma {:induction false} XorBitsInvolutive(a: nat, b: nat, k: nat)
    requires a < Power2(k)
    ensures XorBits(XorBits(a, b, k), b, k) == a
  {
    if k > 0 {
      var r := XorBits(a, b, k);
      assert r / 2 == XorBits(a / 2, b / 2, k - 1);
      XorBitsInvolutive(a / 2, b / 2, k - 1);
    }
  }

  lemma {:induction false} XorBitsCommutes(a: nat, b: nat, k: nat)
    ensures XorBits(a, b, k) == XorBits(b, a, k)
  {
    if k > 0 {
      XorBitsCommutes(a / 2, b / 2, k - 1);
    }
  }

  function Xor(a: byte, b: byte): (r: byte) {
    assert Power2(8) == 256 by { Power2Of8(); }
    XorBits(a, b, 8)
  }

  lemma Power2Of8()
    ensures Power2(8) == 256
  {
    assert Power2(4) == 16;
    assert Power2(5) == 32;
    assert Power2(6) == 64;
    assert Power2(7) == 128;
  }

  lemma XorInvolutive(a: byte, b: byte)
    ensures Xor(Xor(a, b), b) == a
    ensures Xor(a, b) == Xor(b, a)
  {
    Power2Of8();
    XorBitsInvolutive(a, b, 8);
    XorBitsCommutes(a, b, 8);
  }

  /** `a ^ b` is zero exactly when the bytes agree. */
  lemma XorZero(a: byte, b: byte)
    ensures Xor(a, b) == 0 <==> a == b
  {
    XorInvolutive(a, b);
    XorInvolutive(b, b);
    XorBitsSelf(b, 8);
  }

  /** The bit of weight 2 to the power `i`. */
  function Bit(a: nat, i: nat): (b: nat) {
    if i == 0 then a % 2 else Bit(a / 2, i - 1)
  }

  /** Bit by bit: set exactly where the two bytes differ. */
  lemma XorBitwise(a: byte, b: byte, i: nat)
    requires i < 8
    ensures Bit(Xor(a, b), i) == if Bit(a, i) != Bit(b, i) then 1 else 0
  {
    XorBitsBitwise(a, b, 8, i);
  }

  lemma {:induction false} XorBitsBitwise(a: nat, b: nat, k: nat, i: nat)
    requires i < k
    ensures Bit(XorBits(a, b, k), i) == if Bit(a, i) != Bit(b, i) then 1 else 0
  {
    if i > 0 {
      assert XorBits(a, b, k) / 2 == XorBits(a / 2, b / 2, k - 1);
      XorBitsBitwise(a / 2, b / 2, k - 1, i - 1);
    }
  }

  lemma {:induction false} XorBitsSelf(a: nat, k: nat)
    ensures XorBits(a, a, k) == 0
  {
    if k > 0 {
      XorBitsSelf(a / 2, k - 1);
    }
  }

  // ----- concatenation of a list of byte strings

  function Concat(parts: seq<seq<byte>>): (s: seq<byte>) {
    if parts == [] then [] else parts[0] + Concat(parts[1..])
  }

  lemma {:induction false} ConcatAppend(xs: seq<seq<byte>>, ys: seq<seq<byte>>)
    ensures Concat(xs + ys) == Concat(xs) + Concat(ys)
  {
    if xs == [] {
      assert xs + ys == ys;
    } else {
      assert (xs + ys)[1..] == xs[1..] + ys;
      ConcatAppend(xs[1..], ys);
    }
  }

  lemma ConcatOne(x: seq<byte>)
    ensures Concat([x]) == x
  {
    assert [x][1..] == [];
  }

  lemma ConcatSnoc(xs: seq<seq<byte>>, x: seq<byte>)
    ensures Concat(xs + [x]) == Concat(xs) + x
  {
    ConcatAppend(xs, [x]);
    ConcatOne(x);
  }
}
