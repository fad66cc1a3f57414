/**
 The ClientHello printer (tools/proxysoak/main.go) and its round trip through the
 parser, over any split into records.
 */
module Printer {
  import opened Bytes
  import opened Streams
  import opened Fragments
  import opened FragmentSplits
  import opened HelloGrammar
  import opened Matching
  import opened Secrets

  const CIPHER_SUITE: u16 := 0x1301
  const SESSION_ID_LEN := 32

  // ----- specification

  function ServerNameData(host: FieldBytes): (s: seq<byte>)
    requires |host| <= 65447
    ensures |s| == 5 + |host|
  {
    PutU16(3 + |host|) + [0] + PutU16(|host|) + host
  }

  function HelloExtension(host: FieldBytes): (s: seq<byte>)
    requires |host| <= 65447
    ensures |s| == 9 + |host|
  {
    EncodeExtension(Extension(EXT_TYPE_SNI, ServerNameData(host)))
  }

  /** Suites, compression methods and extensions. */
  function HelloRest(host: FieldBytes): (s: seq<byte>)
    requires |host| <= 65447
    ensures |s| == 17 + |host|
  {
    PutU16(2) + PutU16(CIPHER_SUITE) + [1, 0] + (PutU16(9 + |host|) + HelloExtension(host))
  }

  function HelloBody(random: seq<byte>, sessionID: seq<byte>, host: FieldBytes): (s: seq<byte>)
    requires |random| == RANDOM_LEN && |sessionID| == SESSION_ID_LEN && |host| <= 65447
    ensures |s| == 84 + |host|
  {
    [3, 3] + random + [|sessionID|] + sessionID + HelloRest(host)
  }

  /** The random: the digest of the record with a blank random, stamped with the time. */
  function HelloRandom(mac: Mac, secret: Secret, sessionID: seq<byte>, seconds: int): (s: seq<byte>)
    requires |sessionID| == SESSION_ID_LEN && |secret.host| <= 65447
    ensures |s| == RANDOM_LEN
  {
    Stamp(mac(secret.key, Reconstruct(HelloBody(Zeros(RANDOM_LEN), sessionID, secret.host))), seconds % 0x1_0000_0000)
  }

  function PrintedBody(mac: Mac, secret: Secret, sessionID: seq<byte>, seconds: int): (s: seq<byte>)
    requires |sessionID| == SESSION_ID_LEN && |secret.host| <= 65447
    ensures |s| == 84 + |secret.host|
  {
    HelloBody(HelloRandom(mac, secret, sessionID, seconds), sessionID, secret.host)
  }

  // ----- the printer

  function AppendUint16(b: seq<byte>, v: u16): seq<byte> {
    b + [v / 0x100, v % 0x100]
  }

  function AppendUint24(b: seq<byte>, v: int): seq<byte>
    requires 0 <= v < 0x100_0000
  {
    b + [v / 0x1_0000, v / 0x100 % 0x100, v % 0x100]
  }

  method BuildSNI(host: FieldBytes) returns (b: seq<byte>)
    requires |host| <= 65447
    ensures b == HelloExtension(host)
  {
    b := AppendUint16([], 0);
    var listLen := 1 + 2 + |host|;
    b := AppendUint16(b, listLen + 2);
    b := AppendUint16(b, listLen);
    b := b + [0];
    b := AppendUint16(b, |host|);
    b := b + host;
    assert b == PutU16(0) + PutU16(listLen + 2) + (PutU16(listLen) + [0] + PutU16(|host|) + host);
  }

  /** `seconds` is the Unix time; the session id stands for the random bytes drawn for it. */
  method BuildClientHello(mac: Mac, secret: Secret, sessionID: seq<byte>, seconds: int) returns (full: array<byte>)
    requires |sessionID| == SESSION_ID_LEN && |secret.host| <= 65447
    ensures full[..] == Reconstruct(PrintedBody(mac, secret, sessionID, seconds))
  {
    hide Reconstruct, HelloBody, HelloRest;
    var b := BuildBlank(sessionID, secret.host);
    BlankPrinted(Zeros(RANDOM_LEN), sessionID, secret.host);
    var written := b[..RANDOM_OFFSET] + Zeros(RANDOM_LEN) + b[RANDOM_OFFSET + RANDOM_LEN..];
    assert written == Blank(b);
    var sum := mac(secret.key, written);
    var ts := PutU32LE(seconds % 0x1_0000_0000);
    full := PatchRandom(b, sum, ts);
    PatchedIsPrinted(HelloRandom(mac, secret, sessionID, seconds), sessionID, secret.host);
  }

  /** A hello with an empty random. */
  method BuildBlank(sessionID: seq<byte>, host: FieldBytes) returns (b: seq<byte>)
    requires |sessionID| == SESSION_ID_LEN && |host| <= 65447
    ensures b == Reconstruct(HelloBody(Zeros(RANDOM_LEN), sessionID, host))
  {
    hide HelloExtension, HelloBody, Reconstruct;
    var ext := BuildSNI(host);
    var bodyLen := 2 + RANDOM_LEN + 1 + |sessionID| + 2 + 2 + 1 + 1 + 2 + |ext|;
    var recordLen := 1 + 3 + bodyLen;

    b := [0x16, 3, 1];
    b := AppendUint16(b, recordLen);
    b := b + [TYPE_HANDSHAKE_CLIENT];
    b := AppendUint24(b, bodyLen);
    b := AppendUint16(b, 0x0303);
    ghost var head := b;
    b := b + Zeros(RANDOM_LEN);
    b := b + [|sessionID|];
    b := b + sessionID;
    ghost var mid := b;
    b := AppendUint16(b, 2);
    b := AppendUint16(b, CIPHER_SUITE);
    b := b + [1, 0];
    b := AppendUint16(b, |ext|);
    b := b + ext;
    assert b == mid + HelloRest(host);
    HelloHead(Zeros(RANDOM_LEN), sessionID, host);
    hide HelloRest;
    assert head == [TYPE_HANDSHAKE, 3, 1] + PutU16(recordLen) + [TYPE_HANDSHAKE_CLIENT] + PutU24(bodyLen) + [3, 3];
    assert b == head + Zeros(RANDOM_LEN) + ([|sessionID|] + sessionID + HelloRest(host));
  }

  lemma PatchedIsPrinted(random: seq<byte>, sessionID: seq<byte>, host: FieldBytes)
    requires |random| == RANDOM_LEN && |sessionID| == SESSION_ID_LEN && |host| <= 65447
    ensures var b := Reconstruct(HelloBody(Zeros(RANDOM_LEN), sessionID, host));
            && |b| >= RANDOM_OFFSET + RANDOM_LEN
            && b[..RANDOM_OFFSET] + random + b[RANDOM_OFFSET + RANDOM_LEN..]
               == Reconstruct(HelloBody(random, sessionID, host))
  {
    hide HelloRest, HelloBody, Reconstruct, PutU16, PutU24;
    HelloHead(random, sessionID, host);
    HelloHead(Zeros(RANDOM_LEN), sessionID, host);
    var head := [TYPE_HANDSHAKE, 3, 1] + PutU16(88 + |host|) + [TYPE_HANDSHAKE_CLIENT] + PutU24(84 + |host|) + [3, 3];
    var tail := [|sessionID|] + sessionID + HelloRest(host);
    var b := head + Zeros(RANDOM_LEN) + tail;
    assert b[..RANDOM_OFFSET] == head && b[RANDOM_OFFSET + RANDOM_LEN..] == tail;
  }

  /** The two loops that write the random field in place. */
  method PatchRandom(packet: seq<byte>, sum: Digest, ts: seq<byte>) returns (full: array<byte>)
    requires |packet| >= RANDOM_OFFSET + RANDOM_LEN && |ts| == 4
    ensures full[..] == packet[..RANDOM_OFFSET] + (sum[..28] + XorAll(sum[28..], ts))
                        + packet[RANDOM_OFFSET + RANDOM_LEN..]
  {
    full := new byte[|packet|](i requires 0 <= i < |packet| => packet[i]);
    for i := 0 to RANDOM_LEN - 4
      invariant forall k :: 0 <= k < |packet| ==>
        full[k] == if RANDOM_OFFSET <= k < RANDOM_OFFSET + i then sum[k - RANDOM_OFFSET] else packet[k]
    {
      full[RANDOM_OFFSET + i] := sum[i];
    }
    for i := 0 to 4
      invariant forall k :: 0 <= k < |packet| ==>
        full[k] == if RANDOM_OFFSET <= k < RANDOM_OFFSET + 28 then sum[k - RANDOM_OFFSET]
                   else if RANDOM_OFFSET + 28 <= k < RANDOM_OFFSET + 28 + i
                   then Xor(sum[k - RANDOM_OFFSET], ts[k - RANDOM_OFFSET - 28]) else packet[k]
    {
      full[RANDOM_OFFSET + RANDOM_LEN - 4 + i] := Xor(sum[RANDOM_LEN - 4 + i], ts[i]);
    }
    ghost var random := sum[..28] + XorAll(sum[28..], ts);
    forall k | 0 <= k < |packet|
      ensures full[k] == (packet[..RANDOM_OFFSET] + random + packet[RANDOM_OFFSET + RANDOM_LEN..])[k]
    {
    }
  }

  /** Where the random sits in the record. */
  lemma HelloHead(random: seq<byte>, sessionID: seq<byte>, host: FieldBytes)
    requires |random| == RANDOM_LEN && |sessionID| == SESSION_ID_LEN && |host| <= 65447
    ensures var copy := Reconstruct(HelloBody(random, sessionID, host));
            copy == ([TYPE_HANDSHAKE, 3, 1] + PutU16(88 + |host|) + [TYPE_HANDSHAKE_CLIENT] + PutU24(84 + |host|)
                     + [3, 3])
                    + random + ([|sessionID|] + sessionID + HelloRest(host))
  {
    hide HelloRest;
  }

  // ----- the round trip

  lemma RestParses(host: FieldBytes)
    requires |host| <= 65447
    ensures Ciphers(HelloRest(host)) == Ok(Chosen(CIPHER_SUITE, PutU16(9 + |host|) + HelloExtension(host)))
  {
    hide HelloExtension;
    var tail := PutU16(9 + |host|) + HelloExtension(host);
    var c := HelloRest(host);
    assert c == [0, 2, 0x13, 0x01, 1, 0] + tail;
    assert c[2..4] == [0x13, 0x01];
    assert Suites(c[2..4]) == [CIPHER_SUITE];
    assert FirstUsable([CIPHER_SUITE]) == CIPHER_SUITE;
    var d := c[4..];
    assert d == [1, 0] + tail;
    assert Skipped(d) == d[2..] == tail;
  }

  lemma ExtensionsParse(host: FieldBytes)
    requires |host| <= 65447
    ensures Extensions(PutU16(9 + |host|) + HelloExtension(host)) == Ok([host])
  {
    hide Extensions, ServerNames, NameList, PutU16, EncodeExtension, ServerNameData;
    NameDataParses(host);
    var ext := HelloExtension(host);
    BlockParts(ext, []);
    assert ext + [] == ext;
    StepExtension(Extension(EXT_TYPE_SNI, ServerNameData(host)), []);
  }

  lemma NameDataParses(host: FieldBytes)
    requires |host| <= 65447
    ensures NameList(ServerNameData(host)) == Ok([host])
  {
    var names: seq<FieldBytes> := [host];
    var head := [0] + PutU16(|host|) + host;
    assert names[1..] == [] && EncodeEntries([]) == [];
    assert EncodeEntries(names) == head + [] == head;
    SingleNameLists(names);
    hide NameList, EncodeEntries;
    assert ServerNameData(host) == PutU16(3 + |host|) + head;
  }

  lemma BodyParses(random: seq<byte>, sessionID: seq<byte>, host: FieldBytes)
    requires |random| == RANDOM_LEN && |sessionID| == SESSION_ID_LEN && |host| <= 65447
    ensures Handshake(HelloBody(random, sessionID, host))
         == Ok(Parsed(ClientHello(random, sessionID, CIPHER_SUITE), PutU16(9 + |host|) + HelloExtension(host)))
  {
    hide Ciphers, HelloRest, HelloExtension;
    var b := HelloBody(random, sessionID, host);
    assert b[34] == 32;
    assert b[2..34] == random && b[35..67] == sessionID;
    assert b[67..] == HelloRest(host);
    RestParses(host);
  }

  /** Blanking the random of a printed record gives back the record the digest was computed over. */
  lemma BlankPrinted(random: seq<byte>, sessionID: seq<byte>, host: FieldBytes)
    requires |random| == RANDOM_LEN && |sessionID| == SESSION_ID_LEN && |host| <= 65447
    ensures |Reconstruct(HelloBody(random, sessionID, host))| >= RANDOM_OFFSET + RANDOM_LEN
    ensures Blank(Reconstruct(HelloBody(random, sessionID, host)))
         == Reconstruct(HelloBody(Zeros(RANDOM_LEN), sessionID, host))
  {
    hide HelloRest, HelloBody, Reconstruct, PutU16, PutU24;
    HelloHead(random, sessionID, host);
    HelloHead(Zeros(RANDOM_LEN), sessionID, host);
    var head := [TYPE_HANDSHAKE, 3, 1] + PutU16(88 + |host|) + [TYPE_HANDSHAKE_CLIENT] + PutU24(84 + |host|) + [3, 3];
    var tail := [|sessionID|] + sessionID + HelloRest(host);
    var copy := Reconstruct(HelloBody(random, sessionID, host));
    assert copy == head + random + tail;
    assert copy[..RANDOM_OFFSET] == head && copy[RANDOM_OFFSET + RANDOM_LEN..] == tail;
  }

  /** What any secret decides on a printed hello, however it was split. */
  lemma PrintedAttempt(mac: Mac, secret: Secret, sessionID: seq<byte>, seconds: int,
                       rs: seq<Payload>, tail: seq<byte>, other: Secret, now: int, tolerance: int)
    requires |sessionID| == SESSION_ID_LEN && |secret.host| <= 65447
    requires Concat(rs) == Message(PrintedBody(mac, secret, sessionID, seconds)) && |rs| <= 11
    ensures var random := HelloRandom(mac, secret, sessionID, seconds);
            var blank := Reconstruct(HelloBody(Zeros(RANDOM_LEN), sessionID, secret.host));
            Attempt(mac, Encode(rs) + tail, other, now, tolerance) ==
            if other.host != secret.host then Err(HostNotFound)
            else match Authenticate(mac(other.key, blank), random, now, tolerance)
                 case Some(e) => Err(e)
                 case None => Ok(ClientHello(random, sessionID, CIPHER_SUITE))
  {
    hide Reassemble, Handshake, Extensions, Authenticate, Blank, Stamp, Reconstruct, Message, Encode, Needed,
         HelloBody, Concat, HelloExtension, HelloRandom;
    var random := HelloRandom(mac, secret, sessionID, seconds);
    SplitsAgree(HelloBody(random, sessionID, secret.host), rs, tail);
    BodyParses(random, sessionID, secret.host);
    ExtensionsParse(secret.host);
    BlankPrinted(random, sessionID, secret.host);
  }

  /**
   A printed hello, however it is split into at most eleven records and whatever
   follows it, yields its random, session id and suite exactly when its timestamp is
   at most the tolerance away from the present, on either side.
   */
  lemma PrintedIsAccepted(mac: Mac, secret: Secret, sessionID: seq<byte>, seconds: int,
                          rs: seq<Payload>, tail: seq<byte>, now: int, tolerance: int)
    requires |sessionID| == SESSION_ID_LEN && |secret.host| <= 65447
    requires Concat(rs) == Message(PrintedBody(mac, secret, sessionID, seconds)) && |rs| <= 11
    ensures Attempt(mac, Encode(rs) + tail, secret, now, tolerance) ==
            var nanos := seconds % 0x1_0000_0000 * NANOSECONDS;
            if now - tolerance <= nanos <= now + tolerance || tolerance >= MAX_DURATION
            then Ok(ClientHello(HelloRandom(mac, secret, sessionID, seconds), sessionID, CIPHER_SUITE))
            else Err(BadTime)
  {
    hide Attempt, Authenticate, Stamp, Skew, Reconstruct, HelloBody, Message, Encode, Concat;
    PrintedAttempt(mac, secret, sessionID, seconds, rs, tail, secret, now, tolerance);
    var digest := mac(secret.key, Reconstruct(HelloBody(Zeros(RANDOM_LEN), sessionID, secret.host)));
    StampedInTime(digest, seconds % 0x1_0000_0000, now, tolerance);
  }

  /** What the printer digests for a secret. */
  function PrintedBlank(secret: Secret, sessionID: seq<byte>): seq<byte>
    requires |sessionID| == SESSION_ID_LEN && |secret.host| <= 65447
  {
    Reconstruct(HelloBody(Zeros(RANDOM_LEN), sessionID, secret.host))
  }

  /** Another host, or a key that digests the hello differently in the 28 bytes that are compared. */
  predicate TellsApart(mac: Mac, secret: Secret, other: Secret, sessionID: seq<byte>)
    requires |sessionID| == SESSION_ID_LEN && |secret.host| <= 65447
  {
    || other.host != secret.host
    || mac(other.key, PrintedBlank(secret, sessionID))[..28] != mac(secret.key, PrintedBlank(secret, sessionID))[..28]
  }

  /** A key is refused for its digest if and only if those 28 bytes differ. */
  lemma DigestTellsApart(digest: Digest, other: Digest, t: u32, now: int, tolerance: int)
    ensures Authenticate(other, Stamp(digest, t), now, tolerance) == Some(BadDigest) <==> other[..28] != digest[..28]
  {
    hide Xor, Skew;
    var random := Stamp(digest, t);
    assert random[..28] == digest[..28];
    assert XorAll(other, random)[..28] == XorAll(other[..28], digest[..28]);
    XorAllCancels(other[..28], digest[..28]);
  }

  lemma OtherKeyIsRefused(mac: Mac, secret: Secret, other: Secret, sessionID: seq<byte>, seconds: int,
                          now: int, tolerance: int)
    requires |sessionID| == SESSION_ID_LEN && |secret.host| <= 65447
    requires TellsApart(mac, secret, other, sessionID) && other.host == secret.host
    ensures var random := HelloRandom(mac, secret, sessionID, seconds);
            Authenticate(mac(other.key, PrintedBlank(secret, sessionID)), random, now, tolerance) == Some(BadDigest)
  {
    hide Authenticate, Stamp, Reconstruct, HelloBody;
    var blank := PrintedBlank(secret, sessionID);
    DigestTellsApart(mac(secret.key, blank), mac(other.key, blank), seconds % 0x1_0000_0000, now, tolerance);
  }

  /**
   End to end: a printed hello, however it is split and whatever follows, reaches the
   secret it was printed for past all secrets of other hosts and all secrets of the
   same host whose key gives another digest, and the network is left at the bytes
   after it.
   */
  method PrintedIsServed(conn: Conn, mac: Mac, secrets: seq<Secret>, clock: nat -> int, tolerance: int,
                         seen: seq<byte> -> bool, ghost i: nat, ghost sessionID: seq<byte>, ghost seconds: int,
                         ghost rs: seq<Payload>, ghost tail: seq<byte>)
    returns (outcome: Outcome, rewind: ConnRewind)
    requires conn.Valid() && conn.pos == 0 && conn.input == Encode(rs) + tail
    requires i < |secrets| && |sessionID| == SESSION_ID_LEN && |secrets[i].host| <= 65447
    requires Concat(rs) == Message(PrintedBody(mac, secrets[i], sessionID, seconds)) && |rs| <= 11
    requires forall j :: 0 <= j < i ==> TellsApart(mac, secrets[i], secrets[j], sessionID)
    requires var nanos := seconds % 0x1_0000_0000 * NANOSECONDS;
             clock(i) - tolerance <= nanos <= clock(i) + tolerance || tolerance >= MAX_DURATION
    requires !seen(sessionID)
    modifies conn
    ensures var random := HelloRandom(mac, secrets[i], sessionID, seconds);
            outcome == Proceed(secrets[i], ClientHello(random, sessionID, CIPHER_SUITE))
    ensures var k := Needed(rs, 88 + |secrets[i].host|); conn.Valid() && conn.Remaining() == Encode(rs[k..]) + tail
  {
    hide Attempt, Reassemble, Skew, Reconstruct, HelloBody, HelloRandom, Encode, Needed, Concat, Authenticate;
    ghost var secret := secrets[i];
    PrintedIsAccepted(mac, secret, sessionID, seconds, rs, tail, clock(i), tolerance);
    forall j | 0 <= j < i ensures Attempt(mac, conn.input, secrets[j], clock(j), tolerance).Err? {
      PrintedAttempt(mac, secret, sessionID, seconds, rs, tail, secrets[j], clock(j), tolerance);
      if secrets[j].host == secret.host {
        OtherKeyIsRefused(mac, secret, secrets[j], sessionID, seconds, clock(j), tolerance);
      }
    }
    SplitsAgree(PrintedBody(mac, secret, sessionID, seconds), rs, tail);
    ghost var index;
    outcome, rewind, index := DoFakeTLSHandshake(conn, mac, secrets, clock, tolerance, seen, false);
    assert index == i;
  }
}
