/**
 Authentication of a ClientHello (mtglib/internal/tls/fake/client_side.go) and the
 search for the secret that accepts it (mtglib/proxy.go).
 */
module Matching {
  import opened Bytes
  import opened Streams
  import opened Fragments
  import opened HelloGrammar
  import opened HelloParser
  import opened Secrets

  const RANDOM_OFFSET := 11
  const MAX_DURATION := 0x7fff_ffff_ffff_ffff

  // ----- specification

  /** The record with its random blanked, which is what gets authenticated. */
  function Blank(copy: seq<byte>): (s: seq<byte>)
    requires |copy| >= RANDOM_OFFSET + RANDOM_LEN
  {
    copy[..RANDOM_OFFSET] + Zeros(RANDOM_LEN) + copy[RANDOM_OFFSET + RANDOM_LEN..]
  }

  function XorAll(a: seq<byte>, b: seq<byte>): (s: seq<byte>)
    requires |a| == |b|
    ensures |s| == |a|
  {
    seq(|a|, i requires 0 <= i < |a| => Xor(a[i], b[i]))
  }

  /** `time.Since(createdAt).Abs()`: saturates at the longest duration. */
  function Skew(now: int, timestamp: u32): (d: int) {
    var diff := now - timestamp * NANOSECONDS;
    Min(if diff < 0 then -diff else diff, MAX_DURATION)
  }

  /** What is decided once the random is known, and the digest over the blanked record. */
  function Authenticate(digest: Digest, random: seq<byte>, now: int, tolerance: int): (e: Option<HelloError>)
    requires |random| == RANDOM_LEN
  {
    var computed := XorAll(digest, random);
    if computed[..28] != Zeros(28) then Some(BadDigest)
    else if Skew(now, GetU32LE(computed[28..])) > tolerance then Some(BadTime)
    else None
  }

  /** The decision on a reassembled hello. */
  function Check(mac: Mac, h: Hello, secret: Secret, now: int, tolerance: int): (r: Result<ClientHello, HelloError>)
    requires |h.body| < 0x100_0000 && h.copy == Reconstruct(h.body)
  {
    match Handshake(h.body)
    case Err(e) => Err(e)
    case Ok(p) =>
      match Extensions(p.rest)
      case Err(e) => Err(e)
      case Ok(names) =>
        if secret.host !in names then Err(HostNotFound)
        else match Authenticate(mac(secret.key, Blank(h.copy)), p.hello.random, now, tolerance)
          case Some(e) => Err(e)
          case None => Ok(p.hello)
  }

  /** One attempt: the decision of one secret on a whole byte stream. */
  function Attempt(mac: Mac, raw: seq<byte>, secret: Secret, now: int, tolerance: int)
    : (r: Result<ClientHello, HelloError>)
  {
    match Reassemble(raw)
    case Failed(e, rest) => Err(e)
    case Got(h, rest) => Check(mac, h, secret, now, tolerance)
  }

  // ----- what an accepted random is

  /** A digest with a timestamp folded into its last four bytes: the random a genuine client sends. */
  function Stamp(digest: Digest, timestamp: u32): (s: seq<byte>)
    ensures |s| == RANDOM_LEN
  {
    digest[..28] + XorAll(digest[28..], PutU32LE(timestamp))
  }

  lemma XorAllCancels(a: seq<byte>, b: seq<byte>)
    requires |a| == |b|
    ensures XorAll(a, XorAll(a, b)) == b
    ensures XorAll(a, b) == Zeros(|a|) <==> a == b
  {
    forall i | 0 <= i < |a| ensures Xor(a[i], Xor(a[i], b[i])) == b[i] && (Xor(a[i], b[i]) == 0 <==> a[i] == b[i]) {
      XorInvolutive(b[i], a[i]);
      XorInvolutive(a[i], Xor(a[i], b[i]));
      XorZero(a[i], b[i]);
    }
    if XorAll(a, b) == Zeros(|a|) {
      forall i | 0 <= i < |a| ensures a[i] == b[i] {
        assert XorAll(a, b)[i] == 0;
      }
    }
  }

  /** The skew is tolerated exactly if the time lies in the window, or if the tolerance is the longest duration. */
  lemma SkewWindow(now: int, t: u32, tolerance: int)
    ensures Skew(now, t) <= tolerance <==>
            (now - tolerance <= t * 1_000_000_000 <= now + tolerance || tolerance >= 0x7fff_ffff_ffff_ffff)
  {
  }

  /**
   By bytes: 28 of them equal those of the digest, and the other four, XORed with
   theirs and read with the lowest first, are a time in seconds inside the window.
   */
  lemma AcceptedExactly(digest: Digest, random: seq<byte>, now: int, tolerance: int)
    requires |random| == RANDOM_LEN
    ensures var t := Xor(digest[28], random[28]) + 0x100 * Xor(digest[29], random[29])
                     + 0x1_0000 * Xor(digest[30], random[30]) + 0x100_0000 * Xor(digest[31], random[31]);
            Authenticate(digest, random, now, tolerance) ==
            if exists i :: 0 <= i < 28 && digest[i] != random[i] then Some(BadDigest)
            else if now - tolerance <= t * NANOSECONDS <= now + tolerance || tolerance >= MAX_DURATION then None
            else Some(BadTime)
  {
    hide Xor, Skew;
    var computed := XorAll(digest, random);
    assert computed[..28] == XorAll(digest[..28], random[..28]);
    XorAllCancels(digest[..28], random[..28]);
    if digest[..28] == random[..28] {
      forall i | 0 <= i < 28 ensures digest[i] == random[i] {
        assert digest[i] == digest[..28][i] && random[i] == random[..28][i];
      }
    }
    SkewWindow(now, GetU32LE(computed[28..]), tolerance);
  }

  /** A stamped digest is accepted exactly if its time is in the window. */
  lemma StampedInTime(digest: Digest, t: u32, now: int, tolerance: int)
    ensures Authenticate(digest, Stamp(digest, t), now, tolerance) ==
            if now - tolerance <= t * NANOSECONDS <= now + tolerance || tolerance >= MAX_DURATION then None
            else Some(BadTime)
  {
    hide Skew, Xor;
    var random := Stamp(digest, t);
    var computed := XorAll(digest, random);
    XorAllCancels(digest[..28], digest[..28]);
    XorAllCancels(digest[28..], PutU32LE(t));
    assert random[..28] == digest[..28] && random[28..] == XorAll(digest[28..], PutU32LE(t));
    assert computed[..28] == XorAll(digest[..28], random[..28]) == Zeros(28);
    assert computed[28..] == XorAll(digest[28..], random[28..]) == PutU32LE(t);
    U32RoundTrip(t);
    SkewWindow(now, t, tolerance);
  }

  /** The random is accepted if and only if it is the digest stamped with a time in the window. */
  lemma AuthenticWhenStamped(digest: Digest, random: seq<byte>, now: int, tolerance: int)
    requires |random| == RANDOM_LEN
    ensures Authenticate(digest, random, now, tolerance) == None <==>
            exists t: u32 :: random == Stamp(digest, t)
                             && (now - tolerance <= t * NANOSECONDS <= now + tolerance || tolerance >= MAX_DURATION)
  {
    hide Xor, Skew, Stamp;
    var computed := XorAll(digest, random);
    var t := GetU32LE(computed[28..]);
    if computed[..28] == Zeros(28) {
      UnstampedIs(digest, random);
      StampedInTime(digest, t, now, tolerance);
    }
    forall t: u32 | random == Stamp(digest, t)
      ensures Authenticate(digest, random, now, tolerance) == None <==>
              (now - tolerance <= t * NANOSECONDS <= now + tolerance || tolerance >= MAX_DURATION)
    {
      StampedInTime(digest, t, now, tolerance);
    }
  }

  lemma UnstampedIs(digest: Digest, random: seq<byte>)
    requires |random| == RANDOM_LEN && XorAll(digest, random)[..28] == Zeros(28)
    ensures random == Stamp(digest, GetU32LE(XorAll(digest, random)[28..]))
  {
    hide Xor;
    var computed := XorAll(digest, random);
    assert computed[..28] == XorAll(digest[..28], random[..28]);
    assert computed[28..] == XorAll(digest[28..], random[28..]);
    XorAllCancels(digest[..28], random[..28]);
    XorAllCancels(digest[28..], random[28..]);
    U32Unique(computed[28..]);
    assert random == random[..28] + random[28..];
  }

  // ----- the imperative search

  /** The digest, computed and XORed in place with the client random. */
  method VerifyRandom(mac: Mac, copy: seq<byte>, key: Key, random: seq<byte>, now: int, tolerance: int)
    returns (error: Option<HelloError>)
    requires |copy| >= RANDOM_OFFSET + RANDOM_LEN && |random| == RANDOM_LEN
    ensures error == Authenticate(mac(key, Blank(copy)), random, now, tolerance)
  {
    hide Skew;
    var written := copy[..RANDOM_OFFSET];
    written := written + Zeros(RANDOM_LEN);
    written := written + copy[RANDOM_OFFSET + RANDOM_LEN..];
    var digest := mac(key, written);
    var computed := new byte[RANDOM_LEN](i requires 0 <= i < RANDOM_LEN => digest[i]);
    for i := 0 to RANDOM_LEN
      invariant forall k :: 0 <= k < i ==> computed[k] == Xor(digest[k], random[k])
      invariant forall k :: i <= k < RANDOM_LEN ==> computed[k] == digest[k]
    {
      computed[i] := Xor(computed[i], random[i]);
    }
    assert computed[..] == XorAll(digest, random);
    assert computed[..28] == XorAll(digest, random)[..28] && computed[28..] == XorAll(digest, random)[28..];
    if computed[..28] != Zeros(28) {
      return Some(BadDigest);
    }
    if Skew(now, GetU32LE(computed[28..])) > tolerance {
      return Some(BadTime);
    }
    error := None;
  }

  method ReadClientHello(conn: ConnRewind, mac: Mac, secret: Secret, now: int, tolerance: int)
    returns (result: Result<ClientHello, HelloError>, ghost taken: seq<byte>)
    requires conn.Valid()
    modifies conn, conn.conn
    ensures conn.Valid() && Advanced(old(conn.See()), taken, conn.See())
    ensures conn.See().remaining == Reassemble(old(conn.See()).remaining).rest
    ensures result == Attempt(mac, old(conn.See()).remaining, secret, now, tolerance)
  {
    hide Advanced, ConnRewind.Valid, ConnRewind.See, Reassemble, Handshake, Extensions, Authenticate, Reconstruct;
    ghost var all := conn.See().remaining;
    var copy, body, error;
    copy, body, error, taken := ParseClientHello(conn);
    if error != None {
      return Err(error.value), taken;
    }
    ReassembledHello(all);
    var reader := new Buffer(body);
    var hello := ParseHandshake(reader);
    if hello.Err? {
      return Err(hello.error), taken;
    }
    LongEnough(body);
    var names := ParseSNI(reader);
    if names.Err? {
      return Err(names.error), taken;
    }
    if secret.host !in names.value {
      return Err(HostNotFound), taken;
    }
    error := VerifyRandom(mac, copy, secret.key, hello.value.random, now, tolerance);
    if error != None {
      return Err(error.value), taken;
    }
    result := Ok(hello.value);
  }

  lemma ReassembledHello(raw: seq<byte>)
    ensures Reassemble(raw).Got? ==>
            var h := Reassemble(raw).value;
            |h.body| < 0x100_0000 && h.copy == Reconstruct(h.body)
  {
    hide Refill, Reconstruct;
  }

  lemma LongEnough(body: seq<byte>)
    requires |body| < 0x100_0000 && Handshake(body).Ok?
    ensures |Reconstruct(body)| >= RANDOM_OFFSET + RANDOM_LEN
    ensures |Handshake(body).value.hello.random| == RANDOM_LEN
    ensures |Handshake(body).value.hello.sessionID| < 0x100
  {
  }

  datatype Match = Match(secret: Secret, hello: ClientHello)

  /** About to read a stream from its start; earlier attempts, if any, left `rest` on the network. */
  ghost predicate Ready(v: View, stream: seq<byte>, rest: seq<byte>) {
    && v.remaining == stream && AllTeed(v, stream)
    && if v.tee then v.buf == [] else v.left == |rest|
  }

  /** An attempt ended: `rest` is on the network, and all that came before it is tee'd. */
  ghost predicate Settled(v: View, stream: seq<byte>, rest: seq<byte>) {
    v.remaining == rest && v.left == |rest| && AllTeed(v, stream)
  }

  /**
   Every secret is tried on the stream from its first byte, and the first one that
   accepts wins; `clock` gives the time of each attempt. In the end the network
   stands where the reassembly ended and every byte it gave is tee'd.
   */
  method MatchClientHello(rewind: ConnRewind, mac: Mac, secrets: seq<Secret>, clock: nat -> int, tolerance: int)
    returns (result: Result<Match, HelloError>, ghost index: nat)
    requires rewind.Valid() && rewind.See() == View(true, [], rewind.conn.input, |rewind.conn.input|)
    modifies rewind, rewind.conn
    ensures rewind.Valid() && AllTeed(rewind.See(), rewind.conn.input)
    ensures secrets != [] ==> Settled(rewind.See(), rewind.conn.input, Reassemble(rewind.conn.input).rest)
    ensures secrets == [] ==> rewind.See() == old(rewind.See())
    ensures index <= |secrets| && (result.Ok? <==> index < |secrets|)
    ensures forall j :: 0 <= j < index ==>
              Attempt(mac, rewind.conn.input, secrets[j], clock(j), tolerance).Err?
    ensures match result
            case Ok(m) =>
              && m.secret == secrets[index]
              && Attempt(mac, rewind.conn.input, m.secret, clock(index), tolerance) == Ok(m.hello)
            case Err(e) =>
              if secrets == [] then e == SecretInvalid
              else var last := |secrets| - 1;
                   Attempt(mac, rewind.conn.input, secrets[last], clock(last), tolerance) == Err(e)
  {
    hide Attempt, Reassemble, ConnRewind.Valid, ConnRewind.See, AllTeed, Rewound, Advanced, Settled, Ready;
    ghost var stream := rewind.conn.input;
    ghost var rest := Reassemble(stream).rest;
    RestIsSuffix(stream);
    FreshIsReady(stream, rest);
    var lastErr: Option<HelloError> := None;
    for i := 0 to |secrets|
      invariant rewind.Valid() && AllTeed(rewind.See(), stream)
      invariant if i == 0 then rewind.See() == old(rewind.See()) else Settled(rewind.See(), stream, rest)
      invariant Ready(Rewound(rewind.See(), stream), stream, rest)
      invariant forall j :: 0 <= j < i ==> Attempt(mac, stream, secrets[j], clock(j), tolerance).Err?
      invariant if i == 0 then lastErr == None
                else && lastErr.Some?
                     && Attempt(mac, stream, secrets[i - 1], clock(i - 1), tolerance) == Err(lastErr.value)
    {
      rewind.Rewind();
      ghost var before := rewind.See();
      ReadyMeans(before, stream, rest);
      var hello, taken := ReadClientHello(rewind, mac, secrets[i], clock(i), tolerance);
      AttemptSettles(before, stream, rest, taken, rewind.See());
      if hello.Ok? {
        return Ok(Match(secrets[i], hello.value)), i;
      }
      lastErr := Some(hello.error);
    }
    index := |secrets|;
    result := Err(if lastErr == None then SecretInvalid else lastErr.value);
  }

  lemma FreshIsReady(stream: seq<byte>, rest: seq<byte>)
    ensures var v := View(true, [], stream, |stream|);
            AllTeed(v, stream) && Ready(Rewound(v, stream), stream, rest)
  {
  }

  lemma ReadyMeans(v: View, stream: seq<byte>, rest: seq<byte>)
    requires Ready(v, stream, rest)
    ensures v.remaining == stream
  {
  }

  lemma AttemptSettles(before: View, stream: seq<byte>, rest: seq<byte>, taken: seq<byte>, after: View)
    requires Ready(before, stream, rest) && Advanced(before, taken, after) && after.remaining == rest
    requires |rest| <= |stream| && rest == stream[|stream| - |rest|..]
    ensures Settled(after, stream, rest) && AllTeed(after, stream)
    ensures Ready(Rewound(after, stream), stream, rest)
  {
    assert |taken| == |stream| - |rest| && taken == stream[..|taken|];
    if before.tee {
      assert after.buf == [] + taken == taken;
    }
    if after.buf == [] {
      assert stream[0..] == stream;
    } else {
      assert stream == stream[..|taken|] + stream[|taken|..];
    }
  }

  lemma RestIsSuffix(raw: seq<byte>)
    ensures var rest := Reassemble(raw).rest; |rest| <= |raw| && rest == raw[|raw| - |rest|..]
  {
    hide Refill, NextFragment;
    PullRestIsSuffix(Reader(raw, [], 0), 4);
    var p := Pull(Reader(raw, [], 0), 4);
    if p.Pulled? {
      PullRestIsSuffix(p.next, GetU24(p.data[1], p.data[2], p.data[3]));
    }
  }

  ghost function RawOf(p: Pulled): seq<byte> {
    if p.Pulled? then p.next.raw else p.rest
  }

  lemma {:induction false} PullRestIsSuffix(f: Reader, n: nat)
    requires f.used <= MAX_FRAGMENTS_COUNT + 1
    ensures var rest := RawOf(Pull(f, n)); |rest| <= |f.raw| && rest == f.raw[|f.raw| - |rest|..]
    decreases MAX_FRAGMENTS_COUNT + 1 - f.used
  {
    hide NextFragment;
    if n > |f.buf| && Refill(f).Ok? {
      PullRestIsSuffix(Refill(f).value, n - |f.buf|);
    }
  }

  // ----- the handshake as a whole

  datatype Outcome =
    | Proceed(secret: Secret, hello: ClientHello)
    | Dropped(secret: Secret, hello: ClientHello)
    | Fronted(reason: Option<HelloError>)

  /**
   The connection is handed on only to the first secret that accepts it, with the
   network at the first byte after the hello; otherwise the fronting site is going
   to read the stream from its first byte. `seen` is the anti-replay cache, and
   `sendFails` says whether sending the answer fails, which drops the connection.
   */
  method DoFakeTLSHandshake(conn: Conn, mac: Mac, secrets: seq<Secret>, clock: nat -> int, tolerance: int,
                            seen: seq<byte> -> bool, sendFails: bool)
    returns (outcome: Outcome, rewind: ConnRewind, ghost index: nat)
    requires conn.Valid() && conn.pos == 0
    modifies conn
    ensures fresh(rewind) && rewind.Valid() && rewind.conn == conn && index <= |secrets|
    ensures forall j :: 0 <= j < index ==> Attempt(mac, conn.input, secrets[j], clock(j), tolerance).Err?
    ensures !outcome.Fronted? ==>
            && index < |secrets| && outcome.secret == secrets[index] && !seen(outcome.hello.sessionID)
            && Attempt(mac, conn.input, outcome.secret, clock(index), tolerance) == Ok(outcome.hello)
            && conn.Remaining() == Reassemble(conn.input).rest
            && (outcome.Dropped? <==> sendFails)
    ensures outcome.Fronted? ==>
            && rewind.See().remaining == conn.input
            && if outcome.reason == None then
                 && index < |secrets|
                 && var r := Attempt(mac, conn.input, secrets[index], clock(index), tolerance);
                    r.Ok? && seen(r.value.sessionID)
               else if secrets == [] then outcome.reason == Some(SecretInvalid)
               else
                 && index == |secrets|
                 && Attempt(mac, conn.input, secrets[index - 1], clock(index - 1), tolerance)
                    == Err(outcome.reason.value)
  {
    hide Attempt, Reassemble;
    rewind := new ConnRewind(conn);
    var result;
    result, index := MatchClientHello(rewind, mac, secrets, clock, tolerance);
    RewindExact(rewind.See(), conn.input);
    if result.Err? {
      rewind.Rewind();
      return Fronted(Some(result.error)), rewind, index;
    }
    if seen(result.value.hello.sessionID) {
      rewind.Rewind();
      return Fronted(None), rewind, index;
    }
    RestIsSuffix(conn.input);
    if sendFails {
      return Dropped(result.value.secret, result.value.hello), rewind, index;
    }
    outcome := Proceed(result.value.secret, result.value.hello);
  }
}
