/**
 The ServerHello flight (mtglib/internal/tls/fake/server_side.go; section 4.1.3 of
 RFC 8446): three records whose digest covers all of them.
 */
module ServerHello {
  import opened Bytes
  import opened HelloGrammar
  import opened Matching
  import opened Records
  import opened Secrets

  const TYPE_HANDSHAKE_SERVER: byte := 0x02
  const CHANGE_CIPHER_VALUE: byte := 0x01
  const CURVE_LEN := 32

  const SUFFIX: seq<byte> := [
    0x00,
    0x00, 0x2e,
    0x00, 0x2b,
    0x00, 0x02,
    0x03, 0x04,
    0x00, 0x33,
    0x00, 0x24,
    0x00, 0x1d,
    0x00, 0x20
  ]

  datatype NoiseParams = NoiseParams(mean: int, jitter: int)

  // ----- specification: what a client reads

  datatype Fields = Fields(random: seq<byte>, sessionID: seq<byte>, cipherSuite: u16, keyShare: seq<byte>)

  /** `s` is a length field of two bytes and exactly that many bytes. */
  predicate Framed16(s: seq<byte>) {
    |s| >= 2 && GetU16(s[0], s[1]) == |s| - 2
  }

  /**
   A ServerHello handshake message: every length field, outer to inner, counts
   exactly the bytes it encloses; the extensions are supported_versions with TLS 1.3
   and key_share with an x25519 key.
   */
  function ParseServerHello(m: seq<byte>): (f: Option<Fields>) {
    if |m| < 39 || m[0] != TYPE_HANDSHAKE_SERVER || GetU24(m[1], m[2], m[3]) != |m| - 4 || m[4] != 3 || m[5] != 3
    then None
    else
      var sid: int := m[38];
      if |m| < 42 + sid then None
      else
        var suite := GetU16(m[39 + sid], m[40 + sid]);
        if m[41 + sid] != 0 then None
        else match KeyShare(m[42 + sid..])
          case None => None
          case Some(key) => Some(Fields(m[6..38], m[39..39 + sid], suite, key))
  }

  /** The extension block of the message. */
  function KeyShare(exts: seq<byte>): (key: Option<seq<byte>>) {
    if !Framed16(exts) || |exts| < 12 || exts[2..8] != [0x00, 0x2b, 0x00, 0x02, 0x03, 0x04] then None
    else if exts[8..10] != [0x00, 0x33] || !Framed16(exts[10..]) || |exts| < 16 then None
    else if exts[12..14] != [0x00, 0x1d] || !Framed16(exts[14..]) then None
    else Some(exts[16..])
  }

  // ----- the generators

  function HandshakePayload(random: seq<byte>, hello: ClientHello, curve: seq<byte>): (s: seq<byte>)
    requires |random| == RANDOM_LEN && |hello.sessionID| < 0x100 && |curve| == CURVE_LEN
    ensures |s| == 86 + |hello.sessionID|
  {
    [3, 3] + random + [|hello.sessionID|] + hello.sessionID + PutU16(hello.cipherSuite) + SUFFIX + curve
  }

  function ServerMessage(random: seq<byte>, hello: ClientHello, curve: seq<byte>): (s: seq<byte>)
    requires |random| == RANDOM_LEN && |hello.sessionID| < 0x100 && |curve| == CURVE_LEN
    ensures |s| == 90 + |hello.sessionID|
  {
    [TYPE_HANDSHAKE_SERVER] + PutU24(86 + |hello.sessionID|) + HandshakePayload(random, hello, curve)
  }

  /** The flight: the noise record is missing when the noise does not fit into one. */
  function Flight(random: seq<byte>, hello: ClientHello, curve: seq<byte>, noise: seq<byte>): (rs: seq<Record>)
    requires |random| == RANDOM_LEN && |hello.sessionID| < 0x100 && |curve| == CURVE_LEN
    ensures forall i :: 0 <= i < |rs| ==> Fits(rs[i])
    ensures |rs| == 3 <==> |noise| <= MAX_RECORD_PAYLOAD_SIZE
  {
    var two := [Record(Records.TYPE_HANDSHAKE, ServerMessage(random, hello, curve)),
                Record(TYPE_CHANGE_CIPHER_SPEC, [CHANGE_CIPHER_VALUE])];
    if |noise| <= MAX_RECORD_PAYLOAD_SIZE then two + [Record(TYPE_APPLICATION_DATA, noise)] else two
  }

  method GenerateServerHello(hello: ClientHello, curve: seq<byte>) returns (buf: seq<byte>)
    requires |hello.sessionID| < 0x100 && |curve| == CURVE_LEN
    ensures buf == EncodeRecord(Record(Records.TYPE_HANDSHAKE, ServerMessage(Zeros(RANDOM_LEN), hello, curve)))
  {
    hide PutU16, PutU24, Zeros;
    var payload := [3, 3];
    payload := payload + Zeros(RANDOM_LEN);
    payload := payload + [|hello.sessionID|];
    payload := payload + hello.sessionID;
    payload := payload + PutU16(hello.cipherSuite);
    payload := payload + SUFFIX;
    payload := payload + curve;

    var message := [TYPE_HANDSHAKE_SERVER];
    message := message + PutU24(|payload|);
    message := message + payload;

    buf := [Records.TYPE_HANDSHAKE];
    buf := buf + [3, 3];
    buf := buf + PutU16(|message|);
    buf := buf + message;
    assert message == ServerMessage(Zeros(RANDOM_LEN), hello, curve);
    assert buf == [Records.TYPE_HANDSHAKE, 3, 3] + (PutU16(|message|) + message);
  }

  /** The size of the fake certificate chain; `draw` is the random number, below the bound the code asks for. */
  function NoiseSize(noise: NoiseParams, draw: nat): (size: nat)
    requires draw < NoiseDraws(noise)
  {
    if noise.mean > 0 && noise.jitter > 0 then Max(1000, noise.mean - noise.jitter + draw) else 2500 + draw
  }

  function NoiseDraws(noise: NoiseParams): (n: nat)
    ensures n > 0
  {
    if noise.mean > 0 && noise.jitter > 0 then 2 * noise.jitter else 2200
  }

  /** `curve` and `noise` stand for the random bytes drawn for them. */
  method SendServerHello(mac: Mac, key: Key, hello: ClientHello, curve: seq<byte>, noise: seq<byte>)
    returns (packet: array<byte>)
    requires |hello.random| == RANDOM_LEN && |hello.sessionID| < 0x100 && |curve| == CURVE_LEN
    ensures packet.Length >= RANDOM_OFFSET + RANDOM_LEN
    ensures packet[RANDOM_OFFSET..RANDOM_OFFSET + RANDOM_LEN] == mac(key, hello.random + Blank(packet[..]))
    ensures packet[..] == EncodeRecords(Flight(packet[RANDOM_OFFSET..RANDOM_OFFSET + RANDOM_LEN], hello, curve, noise))
  {
    hide EncodeRecords, Flight;
    var buf := GenerateFlight(hello, curve, noise);
    var digest := mac(key, hello.random + buf);
    SplitAtRandom(Zeros(RANDOM_LEN), hello, curve, noise);
    SplitAtRandom(digest, hello, curve, noise);
    packet := CopyDigest(buf, digest);
    var head, tail := buf[..RANDOM_OFFSET], buf[RANDOM_OFFSET + RANDOM_LEN..];
    assert packet[RANDOM_OFFSET..RANDOM_OFFSET + RANDOM_LEN] == digest;
    assert buf == head + Zeros(RANDOM_LEN) + tail;
    assert packet[..][..RANDOM_OFFSET] == head && packet[..][RANDOM_OFFSET + RANDOM_LEN..] == tail;
  }

  /** The digest copied over the random field in place. */
  method CopyDigest(buf: seq<byte>, digest: Digest) returns (packet: array<byte>)
    requires |buf| >= RANDOM_OFFSET + RANDOM_LEN
    ensures packet[..] == buf[..RANDOM_OFFSET] + digest + buf[RANDOM_OFFSET + RANDOM_LEN..]
  {
    packet := new byte[|buf|](i requires 0 <= i < |buf| => buf[i]);
    for i := 0 to RANDOM_LEN
      invariant forall k :: 0 <= k < |buf| ==>
        packet[k] == if RANDOM_OFFSET <= k < RANDOM_OFFSET + i then digest[k - RANDOM_OFFSET] else buf[k]
    {
      packet[RANDOM_OFFSET + i] := digest[i];
    }
  }

  /** The three records with an empty random. */
  method GenerateFlight(hello: ClientHello, curve: seq<byte>, noise: seq<byte>) returns (buf: seq<byte>)
    requires |hello.sessionID| < 0x100 && |curve| == CURVE_LEN
    ensures buf == EncodeRecords(Flight(Zeros(RANDOM_LEN), hello, curve, noise))
  {
    buf := GenerateServerHello(hello, curve);
    FlightBytes(Zeros(RANDOM_LEN), hello, curve, noise);
    ghost var first := buf;
    buf := buf + [TYPE_CHANGE_CIPHER_SPEC];
    buf := buf + [3, 3];
    buf := buf + PutU16(1);
    buf := buf + [CHANGE_CIPHER_VALUE];
    assert buf == first + EncodeRecord(Record(TYPE_CHANGE_CIPHER_SPEC, [CHANGE_CIPHER_VALUE]));
    hide EncodeRecord, EncodeRecords, Flight, ServerMessage;
    var written, _ := WriteRecord(noise);
    buf := buf + written;
  }

  /** The bytes of a flight are those of its records, one after the other. */
  lemma FlightBytes(random: seq<byte>, hello: ClientHello, curve: seq<byte>, noise: seq<byte>)
    requires |random| == RANDOM_LEN && |hello.sessionID| < 0x100 && |curve| == CURVE_LEN
    ensures EncodeRecords(Flight(random, hello, curve, noise))
         == EncodeRecord(Record(Records.TYPE_HANDSHAKE, ServerMessage(random, hello, curve)))
            + EncodeRecord(Record(TYPE_CHANGE_CIPHER_SPEC, [CHANGE_CIPHER_VALUE]))
            + (if |noise| <= MAX_RECORD_PAYLOAD_SIZE then EncodeRecord(Record(TYPE_APPLICATION_DATA, noise)) else [])
  {
    hide ServerMessage, EncodeRecord;
    var rs := Flight(random, hello, curve, noise);
    var x, y := EncodeRecord(rs[0]), EncodeRecord(rs[1]);
    assert EncodeRecords(rs) == x + (y + EncodeRecords(rs[1..][1..]));
    if |noise| <= MAX_RECORD_PAYLOAD_SIZE {
      assert rs[1..][1..] == [rs[2]];
      var z := EncodeRecord(rs[2]);
      assert [rs[2]][1..] == [];
      assert EncodeRecords([rs[2]]) == z + [] == z;
      assert x + (y + z) == x + y + z;
    } else {
      assert rs[1..][1..] == [];
      assert x + (y + []) == x + y + [];
    }
  }

  /** The random sits at the same place whatever it is. */
  lemma SplitAtRandom(random: seq<byte>, hello: ClientHello, curve: seq<byte>, noise: seq<byte>)
    requires |random| == RANDOM_LEN && |hello.sessionID| < 0x100 && |curve| == CURVE_LEN
    ensures var s := EncodeRecords(Flight(random, hello, curve, noise));
            var z := EncodeRecords(Flight(Zeros(RANDOM_LEN), hello, curve, noise));
            && |s| == |z| >= RANDOM_OFFSET + RANDOM_LEN
            && z[RANDOM_OFFSET..RANDOM_OFFSET + RANDOM_LEN] == Zeros(RANDOM_LEN)
            && s == z[..RANDOM_OFFSET] + random + z[RANDOM_OFFSET + RANDOM_LEN..]
  {
    hide EncodeRecords, Flight, Head, Tail;
    FlightSplit(random, hello, curve, noise);
    FlightSplit(Zeros(RANDOM_LEN), hello, curve, noise);
    var z := Head(hello) + Zeros(RANDOM_LEN) + Tail(hello, curve, noise);
    assert z[..RANDOM_OFFSET] == Head(hello) && z[RANDOM_OFFSET + RANDOM_LEN..] == Tail(hello, curve, noise);
  }

  /** Everything after the random. */
  function Tail(hello: ClientHello, curve: seq<byte>, noise: seq<byte>): (s: seq<byte>)
    requires |hello.sessionID| < 0x100 && |curve| == CURVE_LEN
  {
    Rest(hello, curve) + EncodeRecord(Record(TYPE_CHANGE_CIPHER_SPEC, [CHANGE_CIPHER_VALUE]))
    + (if |noise| <= MAX_RECORD_PAYLOAD_SIZE then EncodeRecord(Record(TYPE_APPLICATION_DATA, noise)) else [])
  }

  lemma FlightSplit(random: seq<byte>, hello: ClientHello, curve: seq<byte>, noise: seq<byte>)
    requires |random| == RANDOM_LEN && |hello.sessionID| < 0x100 && |curve| == CURVE_LEN
    ensures EncodeRecords(Flight(random, hello, curve, noise)) == Head(hello) + random + Tail(hello, curve, noise)
  {
    hide ServerMessage, EncodeRecord, EncodeRecords, Flight, Head, Rest;
    FlightBytes(random, hello, curve, noise);
    FirstRecord(random, hello, curve);
    var front, rest := Head(hello) + random, Rest(hello, curve);
    var y := EncodeRecord(Record(TYPE_CHANGE_CIPHER_SPEC, [CHANGE_CIPHER_VALUE]));
    var z := if |noise| <= MAX_RECORD_PAYLOAD_SIZE then EncodeRecord(Record(TYPE_APPLICATION_DATA, noise)) else [];
    Regroup(front, rest, y);
    Regroup(front, rest + y, z);
  }

  function Head(hello: ClientHello): (s: seq<byte>)
    requires |hello.sessionID| < 0x100
    ensures |s| == RANDOM_OFFSET
  {
    [Records.TYPE_HANDSHAKE, 3, 3] + PutU16(90 + |hello.sessionID|)
    + [TYPE_HANDSHAKE_SERVER] + PutU24(86 + |hello.sessionID|) + [3, 3]
  }

  function Rest(hello: ClientHello, curve: seq<byte>): (s: seq<byte>)
    requires |hello.sessionID| < 0x100 && |curve| == CURVE_LEN
  {
    [|hello.sessionID|] + hello.sessionID + PutU16(hello.cipherSuite) + SUFFIX + curve
  }

  lemma FirstRecord(random: seq<byte>, hello: ClientHello, curve: seq<byte>)
    requires |random| == RANDOM_LEN && |hello.sessionID| < 0x100 && |curve| == CURVE_LEN
    ensures EncodeRecord(Record(Records.TYPE_HANDSHAKE, ServerMessage(random, hello, curve)))
         == Head(hello) + random + Rest(hello, curve)
  {
    hide PutU16, PutU24;
    var rest := Rest(hello, curve);
    assert HandshakePayload(random, hello, curve) == [3, 3] + random + rest;
  }

  // ----- what the flight means to a client

  /** The message reads back with all its lengths, and yields the session id and suite of the client. */
  lemma ServerMessageParses(random: seq<byte>, hello: ClientHello, curve: seq<byte>)
    requires |random| == RANDOM_LEN && |hello.sessionID| < 0x100 && |curve| == CURVE_LEN
    ensures ParseServerHello(ServerMessage(random, hello, curve))
         == Some(Fields(random, hello.sessionID, hello.cipherSuite, curve))
  {
    var n := |hello.sessionID|;
    var m := ServerMessage(random, hello, curve);
    U24RoundTrip(86 + n);
    U16RoundTrip(hello.cipherSuite);
    KeyShareParses(curve);
    hide PutU16, PutU24, GetU24, GetU16, KeyShare;
    var len, suite := PutU24(86 + n), PutU16(hello.cipherSuite);
    assert m == [TYPE_HANDSHAKE_SERVER] + len + ([3, 3] + random + [n] + hello.sessionID + suite + SUFFIX + curve);
    assert m[1] == len[0] && m[2] == len[1] && m[3] == len[2];
    assert m[4] == 3 && m[5] == 3 && m[38] == n;
    assert m[6..38] == random && m[39..39 + n] == hello.sessionID;
    assert m[39 + n] == suite[0] && m[40 + n] == suite[1];
    assert m[41 + n..] == SUFFIX + curve;
    assert m[41 + n] == m[41 + n..][0] == 0;
    assert m[42 + n..] == m[41 + n..][1..] == (SUFFIX + curve)[1..];
  }

  lemma KeyShareParses(curve: seq<byte>)
    requires |curve| == CURVE_LEN
    ensures KeyShare((SUFFIX + curve)[1..]) == Some(curve)
  {
    var exts := (SUFFIX + curve)[1..];
    assert exts == [0x00, 0x2e, 0x00, 0x2b, 0x00, 0x02, 0x03, 0x04,
                    0x00, 0x33, 0x00, 0x24, 0x00, 0x1d, 0x00, 0x20] + curve;
    assert exts[2..8] == [0x00, 0x2b, 0x00, 0x02, 0x03, 0x04];
    assert exts[8..10] == [0x00, 0x33];
    assert exts[12..14] == [0x00, 0x1d];
    assert exts[16..] == curve;
  }

  /**
   A client reads exactly a handshake, a change-cipher and an application-data
   record, and no byte is left, if and only if the noise fits into a record.
   */
  lemma FlightReads(random: seq<byte>, hello: ClientHello, curve: seq<byte>, noise: seq<byte>)
    requires |random| == RANDOM_LEN && |hello.sessionID| < 0x100 && |curve| == CURVE_LEN
    ensures var first := NextRecord(EncodeRecords(Flight(random, hello, curve, noise)));
            && first.Got? && first.record == Record(Records.TYPE_HANDSHAKE, ServerMessage(random, hello, curve))
            && var second := NextRecord(first.rest);
               && second.Got? && second.record == Record(TYPE_CHANGE_CIPHER_SPEC, [CHANGE_CIPHER_VALUE])
               && (NextRecord(second.rest) == Got(Record(TYPE_APPLICATION_DATA, noise), [])
                   <==> |noise| <= MAX_RECORD_PAYLOAD_SIZE)
               && (|noise| > MAX_RECORD_PAYLOAD_SIZE ==> second.rest == [])
  {
    hide Flight, ServerMessage, NextRecord, EncodeRecord, EncodeRecords;
    FlightBytes(random, hello, curve, noise);
    var x := Record(Records.TYPE_HANDSHAKE, ServerMessage(random, hello, curve));
    var y := Record(TYPE_CHANGE_CIPHER_SPEC, [CHANGE_CIPHER_VALUE]);
    var z := if |noise| <= MAX_RECORD_PAYLOAD_SIZE then EncodeRecord(Record(TYPE_APPLICATION_DATA, noise)) else [];
    assert EncodeRecord(x) + EncodeRecord(y) + z == EncodeRecord(x) + (EncodeRecord(y) + z);
    NextOfEncoded(x, EncodeRecord(y) + z);
    NextOfEncoded(y, z);
    if |noise| <= MAX_RECORD_PAYLOAD_SIZE {
      assert z + [] == z;
      NextOfEncoded(Record(TYPE_APPLICATION_DATA, noise), []);
    } else {
      NothingToRead();
    }
  }

  lemma NothingToRead()
    ensures NextRecord([]).NoRecord?
  {
  }

  /** The noise fits for every random draw exactly when it is not calibrated beyond the record size. */
  lemma NoiseFits(noise: NoiseParams)
    ensures (forall draw: nat :: draw < NoiseDraws(noise) ==> NoiseSize(noise, draw) <= MAX_RECORD_PAYLOAD_SIZE)
        <==> (noise.mean <= 0 || noise.jitter <= 0 || noise.mean + noise.jitter <= 16380)
  {
    if noise.mean > 0 && noise.jitter > 0 && noise.mean + noise.jitter > 16380 {
      var top: nat := NoiseDraws(noise) - 1;
      assert NoiseSize(noise, top) > MAX_RECORD_PAYLOAD_SIZE;
    }
  }

  /** The sizes that are drawn: around the calibrated mean but never below 1000, or 2500 to 4699. */
  lemma NoiseRange(noise: NoiseParams, v: int)
    ensures (exists draw: nat :: draw < NoiseDraws(noise) && NoiseSize(noise, draw) == v) <==>
            if noise.mean <= 0 || noise.jitter <= 0 then 2500 <= v < 4700
            else || (1000 <= v && noise.mean - noise.jitter <= v < noise.mean + noise.jitter)
                 || (v == 1000 && noise.mean - noise.jitter < 1000)
  {
    if noise.mean <= 0 || noise.jitter <= 0 {
      if 2500 <= v < 4700 {
        assert NoiseSize(noise, v - 2500) == v;
      }
    } else if 1000 <= v && noise.mean - noise.jitter <= v < noise.mean + noise.jitter {
      assert NoiseSize(noise, v - (noise.mean - noise.jitter)) == v;
    } else if v == 1000 && noise.mean - noise.jitter < 1000 {
      assert NoiseSize(noise, 0) == v;
    }
  }

  /** Every byte of the flight. */
  lemma FlightOnWire(random: seq<byte>, hello: ClientHello, curve: seq<byte>, noise: seq<byte>)
    requires |random| == RANDOM_LEN && |hello.sessionID| < 0x100 && |curve| == CURVE_LEN && |noise| <= 16379
    ensures EncodeRecords(Flight(random, hello, curve, noise)) ==
            (var n := |hello.sessionID|;
             [0x16, 3, 3, (90 + n) / 0x100, (90 + n) % 0x100, 2, 0, (86 + n) / 0x100, (86 + n) % 0x100, 3, 3])
            + random
            + ([|hello.sessionID|] + hello.sessionID
               + [hello.cipherSuite / 0x100, hello.cipherSuite % 0x100]
               + [0x00, 0x00, 0x2e, 0x00, 0x2b, 0x00, 0x02, 0x03, 0x04, 0x00, 0x33, 0x00, 0x24, 0x00, 0x1d, 0x00, 0x20]
               + curve
               + [0x14, 3, 3, 0, 1, 1]
               + ([0x17, 3, 3, |noise| / 0x100, |noise| % 0x100] + noise))
  {
    hide EncodeRecords, Flight, Head, Tail;
    FlightSplit(random, hello, curve, noise);
    HeadBytes(hello);
    TailBytes(hello, curve, noise);
  }

  lemma HeadBytes(hello: ClientHello)
    requires |hello.sessionID| < 0x100
    ensures Head(hello) ==
            (var n := |hello.sessionID|;
             [0x16, 3, 3, (90 + n) / 0x100, (90 + n) % 0x100, 2, 0, (86 + n) / 0x100, (86 + n) % 0x100, 3, 3])
  {
  }

  lemma TailBytes(hello: ClientHello, curve: seq<byte>, noise: seq<byte>)
    requires |hello.sessionID| < 0x100 && |curve| == CURVE_LEN && |noise| <= 16379
    ensures Tail(hello, curve, noise) ==
            [|hello.sessionID|] + hello.sessionID
            + [hello.cipherSuite / 0x100, hello.cipherSuite % 0x100]
            + [0x00, 0x00, 0x2e, 0x00, 0x2b, 0x00, 0x02, 0x03, 0x04, 0x00, 0x33, 0x00, 0x24, 0x00, 0x1d, 0x00, 0x20]
            + curve
            + [0x14, 3, 3, 0, 1, 1]
            + ([0x17, 3, 3, |noise| / 0x100, |noise| % 0x100] + noise)
  {
    hide EncodeRecord, PutU16;
    RecordBytes(Record(TYPE_CHANGE_CIPHER_SPEC, [CHANGE_CIPHER_VALUE]));
    RecordBytes(Record(TYPE_APPLICATION_DATA, noise));
    U16Bytes(hello.cipherSuite);
  }
}
