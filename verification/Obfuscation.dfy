/**
 The obfuscated2 transport (mtglib/obfuscation): the 64-byte handshake with its
 reversed keys, and the two keystreams that both sides advance in step.
 */
module Obfuscation {
  import opened Bytes

  const HF_LEN := 64
  const OFFSET_KEY := 8
  const OFFSET_IV := 40
  const OFFSET_CONNECTION_TYPE := 56
  const OFFSET_DC := 60
  const DEFAULT_DC := 2

  const CONNECTION_TYPE: seq<byte> := [0xdd, 0xdd, 0xdd, 0xdd]

  type Frame = f: seq<byte> | |f| == HF_LEN witness Zeros(HF_LEN)

  /** AES-CTR as a keystream: the byte at a position, for a key and an initial vector. */
  type Keystream = (seq<byte>, seq<byte>, nat) -> byte

  type Hash = seq<byte> -> Digest

  /** What a cipher is made from. */
  datatype Params = Params(key: seq<byte>, iv: seq<byte>)

  // ----- specification

  /** `s` enciphered from position `pos`; the same function deciphers. */
  function Cipher(ks: Keystream, p: Params, pos: nat, s: seq<byte>): (r: seq<byte>)
    ensures |r| == |s|
  {
    seq(|s|, i requires 0 <= i < |s| => Xor(s[i], ks(p.key, p.iv, pos + i)))
  }

  lemma CipherTwice(ks: Keystream, p: Params, pos: nat, s: seq<byte>)
    ensures Cipher(ks, p, pos, Cipher(ks, p, pos, s)) == s
  {
    forall i | 0 <= i < |s| ensures Xor(Xor(s[i], ks(p.key, p.iv, pos + i)), ks(p.key, p.iv, pos + i)) == s[i] {
      XorInvolutive(s[i], ks(p.key, p.iv, pos + i));
    }
  }

  /** Enciphering in pieces is enciphering at once. */
  lemma CipherPieces(ks: Keystream, p: Params, pos: nat, a: seq<byte>, b: seq<byte>)
    ensures Cipher(ks, p, pos, a + b) == Cipher(ks, p, pos, a) + Cipher(ks, p, pos + |a|, b)
  {
  }

  lemma CipherSlice(ks: Keystream, p: Params, pos: nat, s: seq<byte>, lo: nat, hi: nat)
    requires lo <= hi <= |s|
    ensures Cipher(ks, p, pos, s)[lo..hi] == Cipher(ks, p, pos + lo, s[lo..hi])
  {
  }

  function Reversed(s: seq<byte>): (r: seq<byte>)
    ensures |r| == |s|
  {
    seq(|s|, i requires 0 <= i < |s| => s[|s| - 1 - i])
  }

  function Reverted(f: Frame): (g: Frame) {
    f[..OFFSET_KEY] + Reversed(f[OFFSET_KEY..OFFSET_CONNECTION_TYPE]) + f[OFFSET_CONNECTION_TYPE..]
  }

  /** The cipher of a frame: its key, mixed with the secret if there is one, and its vector. */
  function ParamsOf(sha: Hash, secret: Option<seq<byte>>, f: Frame): (p: Params) {
    var key := f[OFFSET_KEY..OFFSET_IV];
    Params(if secret.Some? then sha(key + secret.value) else key, f[OFFSET_IV..OFFSET_CONNECTION_TYPE])
  }

  function GetU16LE(lo: byte, hi: byte): u16 {
    hi * 0x100 + lo
  }

  /** A signed 16-bit number without its sign, the default for zero. */
  function SignedDc(v: u16): (dc: int) {
    if v == 0 then DEFAULT_DC else if v < 0x8000 then v else 0x1_0000 - v
  }

  /** The data centre in the frame. */
  function DcOf(f: Frame): (dc: int) {
    SignedDc(GetU16LE(f[OFFSET_DC], f[OFFSET_DC + 1]))
  }

  lemma TypeByPosition(ks: Keystream, p: Params, wire: Frame)
    ensures var plain := Cipher(ks, p, 0, Reverted(wire));
            var t := Cipher(ks, p, 56, wire[56..62]);
            && plain[OFFSET_CONNECTION_TYPE..OFFSET_DC] == t[..4]
            && DcOf(plain) == SignedDc(GetU16LE(t[4], t[5]))
  {
    hide Cipher;
    var r := Reverted(wire);
    assert r[56..62] == wire[56..62];
    CipherSlice(ks, p, 0, r, 56, 62);
    var plain, t := Cipher(ks, p, 0, r), Cipher(ks, p, 56, wire[56..62]);
    assert plain[56..60] == plain[56..62][..4];
    assert plain[60] == plain[56..62][4] && plain[61] == plain[56..62][5];
  }

  /** What the other side makes of a requested data centre. */
  function RecoveredDc(dc: int): (r: int) {
    SignedDc(dc % 0x1_0000)
  }

  /** The data centre survives exactly for 1 to 32768; zero becomes 2, and a negative one loses its sign. */
  lemma DcSurvives(dc: int)
    ensures RecoveredDc(dc) == dc <==> 1 <= dc <= 0x8000
    ensures dc == 0 ==> RecoveredDc(dc) == 2
    ensures -0x8000 <= dc < 0 ==> RecoveredDc(dc) == -dc
  {
  }

  function Patched(draw: Frame, dc: int): (f: Frame) {
    var v := dc % 0x1_0000;
    draw[..OFFSET_CONNECTION_TYPE] + CONNECTION_TYPE + [v % 0x100, v / 0x100] + draw[OFFSET_DC + 2..]
  }

  /** Openings that other transports use, and are drawn again. */
  predicate ForbiddenOpening(o: seq<byte>)
    requires |o| == OFFSET_KEY
  {
    || o[0] == 0xef
    || GetU32LE(o[..4]) in {0x44414548, 0x54534f50, 0x20544547, 0x4954504f, 0x02010316, 0xdddddddd, 0xeeeeeeee}
    || (o[4] == 0 && o[5] == 0 && o[6] == 0 && o[7] == 0)
  }

  predicate Forbidden(f: Frame) {
    ForbiddenOpening(f[..OFFSET_KEY])
  }

  /** The bytes SendHandshake writes for a frame: enciphered, except for key and vector. */
  function OnWire(ks: Keystream, p: Params, f: Frame): (w: Frame) {
    var c := Cipher(ks, p, 0, Reverted(f));
    c[..OFFSET_KEY] + f[OFFSET_KEY..OFFSET_CONNECTION_TYPE] + c[OFFSET_CONNECTION_TYPE..]
  }

  /** By bytes: 0xef, HEAD, POST, GET, OPTI, a TLS record, the two other tags, or four zeros behind the first four. */
  lemma ForbiddenByBytes(o: seq<byte>)
    requires |o| == OFFSET_KEY
    ensures ForbiddenOpening(o) <==>
            || o[0] == 0xef
            || o[..4] in {[0x48, 0x45, 0x41, 0x44], [0x50, 0x4f, 0x53, 0x54], [0x47, 0x45, 0x54, 0x20],
                          [0x4f, 0x50, 0x54, 0x49], [0x16, 3, 1, 2], [0xdd, 0xdd, 0xdd, 0xdd], [0xee, 0xee, 0xee, 0xee]}
            || o[4..] == [0, 0, 0, 0]
  {
    U32Unique(o[..4]);
    assert o[4..] == [o[4], o[5], o[6], o[7]];
  }

  /** The connection type and the data centre are written over six bytes; the rest is the draw. */
  lemma PatchedBytes(draw: Frame, dc: int, i: nat)
    requires i < HF_LEN
    ensures var v := dc % 0x1_0000;
            Patched(draw, dc)[i] ==
            if 56 <= i < 60 then 0xdd else if i == 60 then v % 0x100 else if i == 61 then v / 0x100 else draw[i]
  {
  }

  /** Both ciphers of a frame by positions: the second takes the 48 bytes from the end. */
  lemma ParamsByPosition(sha: Hash, secret: Option<seq<byte>>, f: Frame)
    ensures ParamsOf(sha, secret, f)
         == Params(if secret.Some? then sha(f[8..40] + secret.value) else f[8..40], f[40..56])
    ensures var k := seq(32, i requires 0 <= i < 32 => f[55 - i]);
            var v := seq(16, i requires 0 <= i < 16 => f[23 - i]);
            ParamsOf(sha, secret, Reverted(f)) == Params(if secret.Some? then sha(k + secret.value) else k, v)
  {
    var k, v := seq(32, i requires 0 <= i < 32 => f[55 - i]), seq(16, i requires 0 <= i < 16 => f[23 - i]);
    var middle := Reversed(f[8..56]);
    assert Reverted(f)[8..40] == middle[..32] == k;
    assert Reverted(f)[40..56] == middle[32..] == v;
  }

  /** What is enciphered on the wire, and from which position. */
  lemma WireByPosition(ks: Keystream, p: Params, f: Frame)
    ensures var w := OnWire(ks, p, f);
            w[..8] == Cipher(ks, p, 0, f[..8]) && w[8..56] == f[8..56] && w[56..] == Cipher(ks, p, 56, f[56..])
  {
    hide Cipher;
    var r := Reverted(f);
    var c := Cipher(ks, p, 0, r);
    assert r[0..8] == f[..8] && r[56..64] == f[56..];
    CipherSlice(ks, p, 0, r, 0, 8);
    CipherSlice(ks, p, 0, r, 56, 64);
    var w := OnWire(ks, p, f);
    assert w[..8] == c[0..8] && w[56..] == c[56..64];
  }

  // ----- the imperative pieces

  class CipherStream {
    const ks: Keystream
    const params: Params
    var pos: nat

    constructor (ks: Keystream, params: Params)
      ensures this.ks == ks && this.params == params && pos == 0
    {
      this.ks := ks;
      this.params := params;
      pos := 0;
    }

    /** The first `n` bytes of the buffer, enciphered in place. */
    method XORKeyStream(buf: array<byte>, n: nat)
      requires n <= buf.Length
      modifies this, buf
      ensures pos == old(pos) + n
      ensures buf[..n] == Cipher(ks, params, old(pos), old(buf[..n]))
      ensures buf[n..] == old(buf[n..])
    {
      for i := 0 to n
        invariant pos == old(pos)
        invariant forall k :: 0 <= k < i ==> buf[k] == Xor(old(buf[k]), ks(params.key, params.iv, pos + k))
        invariant forall k :: i <= k < buf.Length ==> buf[k] == old(buf[k])
      {
        buf[i] := Xor(buf[i], ks(params.key, params.iv, pos + i));
      }
      pos := pos + n;
    }
  }

  /** `slices.Reverse` on the key and vector of the frame. */
  method Revert(frame: array<byte>)
    requires frame.Length == HF_LEN
    modifies frame
    ensures frame[..] == Reverted(old(frame[..]))
  {
    var i, j := OFFSET_KEY, OFFSET_CONNECTION_TYPE - 1;
    while i < j
      invariant OFFSET_KEY <= i && i + j == OFFSET_KEY + OFFSET_CONNECTION_TYPE - 1
      invariant i <= j + 1
      invariant forall k :: 0 <= k < HF_LEN ==>
        frame[k] == if OFFSET_KEY <= k < i || j < k < OFFSET_CONNECTION_TYPE
                    then old(frame[OFFSET_KEY + OFFSET_CONNECTION_TYPE - 1 - k]) else old(frame[k])
    {
      frame[i], frame[j] := frame[j], frame[i];
      i, j := i + 1, j - 1;
    }
    ghost var was := old(frame[..]);
    forall k | 0 <= k < HF_LEN ensures frame[k] == Reverted(was)[k] {
      if OFFSET_KEY <= k < OFFSET_CONNECTION_TYPE {
        assert Reverted(was)[k] == Reversed(was[OFFSET_KEY..OFFSET_CONNECTION_TYPE])[k - OFFSET_KEY];
      }
    }
  }

  /** `draws` are the frames the random source is going to return; the first usable one is taken. */
  method GenerateHandshake(dc: int, draws: seq<Frame>) returns (frame: Option<Frame>)
    ensures frame == None <==> forall i :: 0 <= i < |draws| ==> Forbidden(draws[i])
    ensures frame.Some? ==> exists i :: 0 <= i < |draws| && frame.value == Patched(draws[i], dc) && !Forbidden(draws[i])
                                        && forall j :: 0 <= j < i ==> Forbidden(draws[j])
  {
    for i := 0 to |draws|
      invariant forall j :: 0 <= j < i ==> Forbidden(draws[j])
    {
      var data := draws[i];
      if data[0] == 0xef {
        continue;
      }
      var first := GetU32LE(data[..4]);
      assert data[..4] == data[..OFFSET_KEY][..4];
      if first == 0x44414548 || first == 0x54534f50 || first == 0x20544547 || first == 0x4954504f
         || first == 0x02010316 || first == 0xdddddddd || first == 0xeeeeeeee {
        continue;
      }
      if data[4] == 0 && data[5] == 0 && data[6] == 0 && data[7] == 0 {
        continue;
      }
      return Some(Patched(data, dc));
    }
    frame := None;
  }

  /** Writing connection type and data centre into an acceptable draw keeps its opening. */
  lemma PatchedOpening(draw: Frame, dc: int)
    ensures Forbidden(Patched(draw, dc)) == Forbidden(draw)
  {
    assert Patched(draw, dc)[..OFFSET_KEY] == draw[..OFFSET_KEY];
  }

  method SendHandshake(ks: Keystream, sha: Hash, secret: Option<seq<byte>>, generated: Frame)
    returns (wire: seq<byte>, send: CipherStream, recv: CipherStream)
    ensures fresh(send) && fresh(recv) && send != recv
    ensures send.ks == ks && send.params == ParamsOf(sha, secret, generated) && send.pos == HF_LEN
    ensures recv.ks == ks && recv.params == ParamsOf(sha, secret, Reverted(generated)) && recv.pos == 0
    ensures wire == OnWire(ks, send.params, generated)
    ensures wire[8..56] == generated[8..56]
    ensures wire[..8] == Cipher(ks, send.params, 0, generated[..8])
    ensures wire[56..] == Cipher(ks, send.params, 56, generated[56..])
    ensures send.params == Params(if secret.Some? then sha(wire[8..40] + secret.value) else wire[8..40], wire[40..56])
    ensures var k := seq(32, i requires 0 <= i < 32 => wire[55 - i]);
            var v := seq(16, i requires 0 <= i < 16 => wire[23 - i]);
            recv.params == Params(if secret.Some? then sha(k + secret.value) else k, v)
  {
    hide Reverted, ParamsOf, Cipher;
    var frame := new byte[HF_LEN](i requires 0 <= i < HF_LEN => generated[i]);
    assert frame[..] == generated;
    send := new CipherStream(ks, ParamsOf(sha, secret, frame[..]));
    Revert(frame);
    recv := new CipherStream(ks, ParamsOf(sha, secret, frame[..]));
    assert frame[..HF_LEN] == frame[..];
    send.XORKeyStream(frame, HF_LEN);
    assert frame[..] == frame[..HF_LEN] == Cipher(ks, send.params, 0, Reverted(generated));
    PutKeyBack(frame, generated);
    wire := frame[..];
    WireByPosition(ks, send.params, generated);
    hide OnWire;
    SameMiddle(wire, generated, sha, secret);
    ParamsByPosition(sha, secret, wire);
  }

  /** Key and vector of the frame in the clear. */
  method PutKeyBack(frame: array<byte>, generated: Frame)
    requires frame.Length == HF_LEN
    modifies frame
    ensures frame[..] == old(frame[..OFFSET_KEY]) + generated[OFFSET_KEY..OFFSET_CONNECTION_TYPE]
                         + old(frame[OFFSET_CONNECTION_TYPE..])
  {
    for i := OFFSET_KEY to OFFSET_CONNECTION_TYPE
      invariant forall k :: 0 <= k < HF_LEN ==> frame[k] == if OFFSET_KEY <= k < i then generated[k] else old(frame[k])
    {
      frame[i] := generated[i];
    }
  }

  method ReadHandshake(ks: Keystream, sha: Hash, secret: Option<seq<byte>>, wire: Frame)
    returns (dc: Option<int>, send: CipherStream, recv: CipherStream)
    ensures fresh(send) && fresh(recv) && send != recv
    ensures recv.ks == ks && recv.params == ParamsOf(sha, secret, wire) && recv.pos == HF_LEN
    ensures send.ks == ks && send.params == ParamsOf(sha, secret, Reverted(wire)) && send.pos == 0
    ensures var plain := Cipher(ks, recv.params, 0, Reverted(wire));
            dc == if plain[OFFSET_CONNECTION_TYPE..OFFSET_DC] == CONNECTION_TYPE then Some(DcOf(plain)) else None
    ensures recv.params == Params(if secret.Some? then sha(wire[8..40] + secret.value) else wire[8..40], wire[40..56])
    ensures var k := seq(32, i requires 0 <= i < 32 => wire[55 - i]);
            var v := seq(16, i requires 0 <= i < 16 => wire[23 - i]);
            send.params == Params(if secret.Some? then sha(k + secret.value) else k, v)
    ensures var t := Cipher(ks, recv.params, 56, wire[56..62]);
            dc == if t[..4] == [0xdd, 0xdd, 0xdd, 0xdd] then Some(SignedDc(GetU16LE(t[4], t[5]))) else None
  {
    hide Reverted, ParamsOf, Cipher, DcOf;
    var frame := new byte[HF_LEN](i requires 0 <= i < HF_LEN => wire[i]);
    assert frame[..] == wire;
    recv := new CipherStream(ks, ParamsOf(sha, secret, frame[..]));
    Revert(frame);
    send := new CipherStream(ks, ParamsOf(sha, secret, frame[..]));
    assert frame[..HF_LEN] == frame[..];
    recv.XORKeyStream(frame, HF_LEN);
    assert frame[..] == frame[..HF_LEN];
    var plain: Frame := frame[..];
    ParamsByPosition(sha, secret, wire);
    TypeByPosition(ks, recv.params, wire);
    dc := if plain[OFFSET_CONNECTION_TYPE..OFFSET_DC] == CONNECTION_TYPE then Some(DcOf(plain)) else None;
  }

  // ----- the two sides agree

  lemma SameMiddle(f: Frame, g: Frame, sha: Hash, secret: Option<seq<byte>>)
    requires f[OFFSET_KEY..OFFSET_CONNECTION_TYPE] == g[OFFSET_KEY..OFFSET_CONNECTION_TYPE]
    ensures ParamsOf(sha, secret, f) == ParamsOf(sha, secret, g)
    ensures ParamsOf(sha, secret, Reverted(f)) == ParamsOf(sha, secret, Reverted(g))
  {
    var a, b := f[OFFSET_KEY..OFFSET_CONNECTION_TYPE], g[OFFSET_KEY..OFFSET_CONNECTION_TYPE];
    assert f[OFFSET_KEY..OFFSET_IV] == a[..32] && f[OFFSET_IV..OFFSET_CONNECTION_TYPE] == a[32..];
    assert g[OFFSET_KEY..OFFSET_IV] == b[..32] && g[OFFSET_IV..OFFSET_CONNECTION_TYPE] == b[32..];
    var c, d := Reverted(f), Reverted(g);
    assert c[OFFSET_KEY..OFFSET_IV] == Reversed(a)[..32] && c[OFFSET_IV..OFFSET_CONNECTION_TYPE] == Reversed(a)[32..];
    assert d[OFFSET_KEY..OFFSET_IV] == Reversed(b)[..32] && d[OFFSET_IV..OFFSET_CONNECTION_TYPE] == Reversed(b)[32..];
  }

  /** What follows key and vector is enciphered once and deciphers again. */
  lemma TailAgrees(ks: Keystream, p: Params, f: Frame)
    ensures Cipher(ks, p, 0, Reverted(OnWire(ks, p, f)))[OFFSET_CONNECTION_TYPE..] == f[OFFSET_CONNECTION_TYPE..]
  {
    var tail, c, w := f[OFFSET_CONNECTION_TYPE..], Cipher(ks, p, 0, Reverted(f)), OnWire(ks, p, f);
    assert Reverted(f)[OFFSET_CONNECTION_TYPE..HF_LEN] == tail;
    assert Reverted(w)[OFFSET_CONNECTION_TYPE..HF_LEN] == c[OFFSET_CONNECTION_TYPE..HF_LEN];
    hide Reverted, OnWire, Cipher;
    CipherSlice(ks, p, 0, Reverted(f), OFFSET_CONNECTION_TYPE, HF_LEN);
    CipherSlice(ks, p, 0, Reverted(w), OFFSET_CONNECTION_TYPE, HF_LEN);
    CipherTwice(ks, p, OFFSET_CONNECTION_TYPE, tail);
    var d := Cipher(ks, p, 0, Reverted(w));
    assert d[OFFSET_CONNECTION_TYPE..] == d[OFFSET_CONNECTION_TYPE..HF_LEN];
  }

  /**
   With equal secrets, the reader of a handshake derives the ciphers of its sender
   with the directions exchanged, and recovers the requested data centre.
   */
  lemma HandshakeAgrees(ks: Keystream, sha: Hash, secret: Option<seq<byte>>, draw: Frame, dc: int)
    ensures var f := Patched(draw, dc);
            var p := ParamsOf(sha, secret, f);
            var w := OnWire(ks, p, f);
            var plain := Cipher(ks, p, 0, Reverted(w));
            && ParamsOf(sha, secret, w) == p
            && ParamsOf(sha, secret, Reverted(w)) == ParamsOf(sha, secret, Reverted(f))
            && plain[OFFSET_CONNECTION_TYPE..OFFSET_DC] == CONNECTION_TYPE && DcOf(plain) == RecoveredDc(dc)
  {
    var f := Patched(draw, dc);
    var p := ParamsOf(sha, secret, f);
    var w := OnWire(ks, p, f);
    assert w[OFFSET_KEY..OFFSET_CONNECTION_TYPE] == f[OFFSET_KEY..OFFSET_CONNECTION_TYPE] by {
      hide ParamsOf, Patched, Reverted, Cipher;
    }
    hide ParamsOf, Cipher, OnWire, Reverted;
    SameMiddle(w, f, sha, secret);
    TailAgrees(ks, p, f);
    var v, tail, plain: Frame := dc % 0x1_0000, f[OFFSET_CONNECTION_TYPE..], Cipher(ks, p, 0, Reverted(w));
    assert tail[..4] == CONNECTION_TYPE && tail[4] == v % 0x100 && tail[5] == v / 0x100;
    assert plain[OFFSET_CONNECTION_TYPE..][..4] == plain[OFFSET_CONNECTION_TYPE..OFFSET_DC];
    assert plain[OFFSET_DC] == plain[OFFSET_CONNECTION_TYPE..][4];
    assert plain[OFFSET_DC + 1] == plain[OFFSET_CONNECTION_TYPE..][5];
  }

  /** The cipher does not depend on the opening, so the opening goes out enciphered and nothing else. */
  lemma OpeningOnWire(ks: Keystream, sha: Hash, secret: Option<seq<byte>>, f: Frame, target: seq<byte>)
    requires |target| == OFFSET_KEY
    ensures var p := ParamsOf(sha, secret, f);
            && OnWire(ks, p, f)[..OFFSET_KEY] == Cipher(ks, p, 0, f[..OFFSET_KEY])
            && (OnWire(ks, p, f)[..OFFSET_KEY] == target <==> f[..OFFSET_KEY] == Cipher(ks, p, 0, target))
  {
    hide ParamsOf, Cipher;
    var p := ParamsOf(sha, secret, f);
    CipherSlice(ks, p, 0, Reverted(f), 0, OFFSET_KEY);
    assert Reverted(f)[0..OFFSET_KEY] == f[..OFFSET_KEY];
    var c := Cipher(ks, p, 0, Reverted(f));
    assert OnWire(ks, p, f)[..OFFSET_KEY] == c[0..OFFSET_KEY];
    CipherTwice(ks, p, 0, target);
    CipherTwice(ks, p, 0, f[..OFFSET_KEY]);
  }

  /**
   The checks on the opening hold of the plain frame only. Whatever the cipher, an
   allowed frame with the key block of `f` puts `target` first on the wire, a forbidden
   one like any other, if and only if `target` enciphered is an allowed opening.
   */
  lemma WireOpeningsExactly(ks: Keystream, sha: Hash, secret: Option<seq<byte>>, f: Frame, target: seq<byte>)
    requires |target| == OFFSET_KEY
    ensures (exists g: Frame :: g[OFFSET_KEY..] == f[OFFSET_KEY..] && !Forbidden(g)
                                && OnWire(ks, ParamsOf(sha, secret, g), g)[..OFFSET_KEY] == target)
            <==> !ForbiddenOpening(Cipher(ks, ParamsOf(sha, secret, f), 0, target))
  {
    hide ParamsOf, Cipher, OnWire, ForbiddenOpening;
    var p := ParamsOf(sha, secret, f);
    var opening := Cipher(ks, p, 0, target);
    forall g: Frame | g[OFFSET_KEY..] == f[OFFSET_KEY..]
      ensures OnWire(ks, ParamsOf(sha, secret, g), g)[..OFFSET_KEY] == target <==> g[..OFFSET_KEY] == opening
    {
      SameBlock(f, g);
      SameMiddle(g, f, sha, secret);
      OpeningOnWire(ks, sha, secret, g, target);
    }
    var g: Frame := opening + f[OFFSET_KEY..];
    assert g[OFFSET_KEY..] == f[OFFSET_KEY..] && g[..OFFSET_KEY] == opening;
  }

  lemma SameBlock(f: Frame, g: Frame)
    requires g[OFFSET_KEY..] == f[OFFSET_KEY..]
    ensures g[OFFSET_KEY..OFFSET_CONNECTION_TYPE] == f[OFFSET_KEY..OFFSET_CONNECTION_TYPE]
  {
    assert forall h: Frame ::
             h[OFFSET_KEY..OFFSET_CONNECTION_TYPE] == h[OFFSET_KEY..][..OFFSET_CONNECTION_TYPE - OFFSET_KEY];
  }

  // ----- the established connection

  /**
   One direction of an established connection: the sender's cipher, the bytes it has
   put on the wire, and the receiver's cipher that has taken some of them.
   */
  class Direction {
    const sender: CipherStream
    const receiver: CipherStream
    var wire: seq<byte>
    var taken: nat
    ghost const base: nat
    ghost var plain: seq<byte>
    ghost var passed: nat

    /**
     The wire is the enciphered plain text, and both positions count bytes since the
     handshake, the receiver's without the `passed` bytes that came with an error.
     */
    ghost predicate Valid()
      reads this, sender, receiver
    {
      && sender != receiver && sender.ks == receiver.ks && sender.params == receiver.params
      && passed <= taken <= |wire| && sender.pos == base + |wire| && receiver.pos == base + taken - passed
      && wire == Cipher(sender.ks, sender.params, base, plain)
    }

    constructor (sender: CipherStream, receiver: CipherStream)
      requires sender != receiver && sender.ks == receiver.ks && sender.params == receiver.params
      requires sender.pos == receiver.pos
      ensures this.sender == sender && this.receiver == receiver && Valid() && plain == [] && taken == passed == 0
    {
      this.sender := sender;
      this.receiver := receiver;
      wire, taken, plain, passed := [], 0, [], 0;
      base := sender.pos;
    }

    /** The caller's buffer is enciphered in place and sent. */
    method Write(p: array<byte>)
      requires Valid()
      modifies this`wire, this`plain, sender, p
      ensures Valid() && taken == old(taken) && passed == old(passed) && plain == old(plain) + old(p[..])
    {
      ghost var data := p[..];
      assert p[..p.Length] == p[..];
      sender.XORKeyStream(p, p.Length);
      assert p[..p.Length] == p[..];
      CipherPieces(sender.ks, sender.params, base, plain, data);
      wire, plain := wire + p[..], plain + data;
    }

    /**
     Whatever number of bytes the network has ready, deciphered in place. Bytes that
     come together with an error, which `failing` stands for, are handed on as they are,
     and the cipher is not moved over them.
     */
    method Read(p: array<byte>, failing: bool) returns (n: nat)
      requires Valid()
      modifies this`taken, this`passed, receiver, p
      ensures Valid() && plain == old(plain) && |plain| == |wire| && n <= p.Length
      ensures taken == old(taken) + n && passed == old(passed) + if failing then n else 0
      ensures n == 0 ==> failing || p.Length == 0 || old(taken) == |plain|
      ensures var sent := Cipher(sender.ks, sender.params, base + old(taken), plain[old(taken)..taken]);
              p[..n] == if failing then sent
                        else Cipher(sender.ks, sender.params, base + old(taken) - passed, sent)
      ensures !failing && passed == 0 ==> p[..n] == plain[old(taken)..taken]
    {
      hide Cipher;
      var ready := Min(p.Length, |wire| - taken);
      n :| 0 <= n <= ready && (n == 0 ==> ready == 0 || failing);
      for i := 0 to n
        invariant Valid() && taken == old(taken) && passed == old(passed) && plain == old(plain)
        invariant receiver.pos == old(receiver.pos)
        invariant forall k :: 0 <= k < i ==> p[k] == wire[taken + k]
      {
        p[i] := wire[taken + i];
      }
      assert p[..n] == wire[taken..taken + n];
      CipherSlice(sender.ks, sender.params, base, plain, taken, taken + n);
      CipherTwice(sender.ks, sender.params, base + taken, plain[taken..taken + n]);
      if failing {
        taken, passed := taken + n, passed + n;
        return;
      }
      receiver.XORKeyStream(p, n);
      taken := taken + n;
    }
  }

  /** So the bytes of a failed read are what the peer wrote if and only if the keystream is zero there. */
  lemma FailedReadIsCiphertext(ks: Keystream, p: Params, pos: nat, data: seq<byte>)
    ensures Cipher(ks, p, pos, data) == data <==> forall k :: pos <= k < pos + |data| ==> ks(p.key, p.iv, k) == 0
  {
    hide Xor;
    var c := Cipher(ks, p, pos, data);
    if c == data {
      forall k | pos <= k < pos + |data| ensures ks(p.key, p.iv, k) == 0 {
        assert c[k - pos] == data[k - pos];
        XorSame(data[k - pos], ks(p.key, p.iv, k));
      }
    } else {
      var i :| 0 <= i < |data| && c[i] != data[i];
      XorSame(data[i], ks(p.key, p.iv, pos + i));
    }
  }

  /**
   And what later reads yield, deciphered from a position that lags behind by the bytes
   passed over, is what the peer wrote if and only if the keystream repeats itself at
   that distance.
   */
  lemma LaggingReadExactly(ks: Keystream, p: Params, pos: nat, lag: nat, data: seq<byte>)
    requires lag <= pos
    ensures Cipher(ks, p, pos - lag, Cipher(ks, p, pos, data)) == data <==>
            forall k :: pos <= k < pos + |data| ==> ks(p.key, p.iv, k) == ks(p.key, p.iv, k - lag)
  {
    hide Xor;
    var c := Cipher(ks, p, pos - lag, Cipher(ks, p, pos, data));
    if c == data {
      forall k | pos <= k < pos + |data| ensures ks(p.key, p.iv, k) == ks(p.key, p.iv, k - lag) {
        assert c[k - pos] == data[k - pos];
        XorBoth(data[k - pos], ks(p.key, p.iv, k), ks(p.key, p.iv, k - lag));
      }
    } else {
      var i :| 0 <= i < |data| && c[i] != data[i];
      XorBoth(data[i], ks(p.key, p.iv, pos + i), ks(p.key, p.iv, pos + i - lag));
    }
  }

  lemma XorBoth(a: byte, b: byte, c: byte)
    ensures Xor(Xor(a, b), c) == a <==> b == c
  {
    hide Xor;
    XorInvolutive(a, b);
    XorInvolutive(Xor(a, b), c);
    XorInvolutive(b, a);
    XorInvolutive(c, a);
    XorInvolutive(a, c);
  }

  lemma XorSame(a: byte, b: byte)
    ensures Xor(a, b) == a <==> b == 0
  {
    XorInvolutive(b, a);
    XorZero(a, a);
    XorInvolutive(a, a);
    XorInvolutive(0, a);
  }

  /** What the two sides do, in any order and in pieces of any size. */
  datatype Op =
    | ClientWrites(data: seq<byte>) | ServerReads(size: nat)
    | ServerWrites(data: seq<byte>) | ClientReads(size: nat)

  function Written(ops: seq<Op>, client: bool): (s: seq<byte>) {
    if ops == [] then []
    else
      var op := ops[|ops| - 1];
      Written(ops[..|ops| - 1], client)
      + if client && op.ClientWrites? then op.data else if !client && op.ServerWrites? then op.data else []
  }

  /** How many bytes a side has for certain: a read of at least one byte gets one if one waits. */
  function Due(ops: seq<Op>, client: bool): (n: nat)
    ensures n <= |Written(ops, client)|
  {
    if ops == [] then 0
    else
      var fewer, op := ops[..|ops| - 1], ops[|ops| - 1];
      if (if client then op.ServerReads? && op.size > 0 else op.ClientReads? && op.size > 0)
      then Min(Due(fewer, client) + 1, |Written(fewer, client)|) else Due(fewer, client)
  }

  lemma NothingYet(ops: seq<Op>)
    ensures forall client :: Written(ops[..0], client) == [] && Due(ops[..0], client) == 0
  {
  }

  lemma OneMore(ops: seq<Op>, i: nat, client: bool)
    requires i < |ops|
    ensures var op := ops[i];
            && Written(ops[..i + 1], client) == Written(ops[..i], client)
               + (if client && op.ClientWrites? then op.data else if !client && op.ServerWrites? then op.data else [])
            && Due(ops[..i + 1], client) ==
               if (if client then op.ServerReads? && op.size > 0 else op.ClientReads? && op.size > 0)
               then Min(Due(ops[..i], client) + 1, |Written(ops[..i], client)|) else Due(ops[..i], client)
  {
    assert ops[..i + 1][..i] == ops[..i];
  }

  method WriteCopy(d: Direction, data: seq<byte>)
    requires d.Valid()
    modifies d`wire, d`plain, d.sender
    ensures d.Valid() && d.plain == old(d.plain) + data && d.taken == old(d.taken) && d.passed == old(d.passed)
  {
    var p := new byte[|data|](i requires 0 <= i < |data| => data[i]);
    assert p[..] == data;
    d.Write(p);
  }

  method ReadCopy(d: Direction, size: nat) returns (data: seq<byte>)
    requires d.Valid() && d.passed == 0
    modifies d`taken, d`passed, d.receiver
    ensures d.Valid() && d.passed == 0 && d.plain == old(d.plain) && d.taken == old(d.taken) + |data| <= |d.plain|
    ensures data == d.plain[old(d.taken)..d.taken]
    ensures size > 0 && old(d.taken) < |d.plain| ==> data != []
  {
    var p := new byte[size];
    var n := d.Read(p, false);
    data := p[..n];
  }

  /**
   A whole session: the handshake, then any run of reads and writes on both sides.
   The server learns the data centre, and each side has received exactly the first
   bytes of what the other wrote, all of them once it has read often enough.
   */
  method Session(ks: Keystream, sha: Hash, secret: Option<seq<byte>>, draw: Frame, dc: int, ops: seq<Op>)
    returns (seen: Option<int>, atServer: seq<byte>, atClient: seq<byte>)
    ensures seen == Some(RecoveredDc(dc))
    ensures atServer <= Written(ops, true) && atClient <= Written(ops, false)
    ensures |atServer| >= Due(ops, true) && |atClient| >= Due(ops, false)
  {
    hide ParamsOf, OnWire, Cipher, DcOf, RecoveredDc, Patched, Reverted;
    var wire, clientSend, clientRecv := SendHandshake(ks, sha, secret, Patched(draw, dc));
    var serverSend, serverRecv;
    seen, serverSend, serverRecv := ReadHandshake(ks, sha, secret, wire);
    HandshakeAgrees(ks, sha, secret, draw, dc);
    var up := new Direction(clientSend, serverRecv);
    var down := new Direction(serverSend, clientRecv);
    atServer, atClient := Exchange(up, down, ops);
  }

  method Exchange(up: Direction, down: Direction, ops: seq<Op>) returns (atServer: seq<byte>, atClient: seq<byte>)
    requires up.Valid() && down.Valid() && up != down
    requires {up.sender, up.receiver} !! {down.sender, down.receiver}
    requires up.plain == [] && up.taken == up.passed == 0 && down.plain == [] && down.taken == down.passed == 0
    modifies up, down, up.sender, up.receiver, down.sender, down.receiver
    ensures atServer <= Written(ops, true) && atClient <= Written(ops, false)
    ensures |atServer| >= Due(ops, true) && |atClient| >= Due(ops, false)
  {
    hide Cipher, Direction.Valid, Written, Due;
    NothingYet(ops);
    atServer, atClient := [], [];
    for i := 0 to |ops|
      invariant up.Valid() && down.Valid() && up.passed == down.passed == 0
      invariant up.plain == Written(ops[..i], true) && down.plain == Written(ops[..i], false)
      invariant up.taken <= |up.plain| && atServer == up.plain[..up.taken]
      invariant down.taken <= |down.plain| && atClient == down.plain[..down.taken]
      invariant up.taken >= Due(ops[..i], true) && down.taken >= Due(ops[..i], false)
    {
      OneMore(ops, i, true);
      OneMore(ops, i, false);
      match ops[i] {
        case ClientWrites(data) => WriteCopy(up, data);
        case ServerWrites(data) => WriteCopy(down, data);
        case ServerReads(size) =>
          var data := ReadCopy(up, size);
          atServer := atServer + data;
        case ClientReads(size) =>
          var data := ReadCopy(down, size);
          atClient := atClient + data;
      }
    }
    assert ops[..|ops|] == ops;
  }
}
