/**
 Reassembly of a ClientHello from TLS records (mtglib/internal/tls/fake/utils.go;
 section 6.2.1 of RFC 5246).
 */
module Fragments {
  import opened Bytes
  import opened Streams

  const TYPE_HANDSHAKE: byte := 0x16
  const TYPE_HANDSHAKE_CLIENT: byte := 0x01
  const MAX_FRAGMENTS_COUNT := 10

  /** Errors of the handshake parsers. The end of the stream is one error wherever it comes. */
  datatype HelloError =
    | ReadFailed
    | BadRecordType(got: byte)
    | BadVersion(major: byte, minor: byte)
    | TooManyFragments
    | BadHandshakeType(handshake: byte)
    | CannotFindCipher
    | BadExtension
    | BadServerName
    | BadListType(list: byte)
    | HostNotFound
    | BadDigest
    | BadTime
    | SecretInvalid

  // ----- specification: one record, then the stream of payloads

  /** What taking something from a byte string leaves behind. */
  datatype Taken<+T> = Got(value: T, rest: seq<byte>) | Failed(error: HelloError, rest: seq<byte>)

  /** One handshake record of version 3,1, and what is left of the raw bytes. */
  function NextFragment(raw: seq<byte>): (t: Taken<seq<byte>>)
    ensures |t.rest| <= |raw| && t.rest == raw[|raw| - |t.rest|..]
  {
    if |raw| < 5 then Failed(ReadFailed, [])
    else if raw[0] != TYPE_HANDSHAKE then Failed(BadRecordType(raw[0]), raw[5..])
    else if raw[1] != 3 || raw[2] != 1 then Failed(BadVersion(raw[1], raw[2]), raw[5..])
    else
      var length := GetU16(raw[3], raw[4]);
      if |raw| < 5 + length then Failed(ReadFailed, [])
      else Got(raw[5..5 + length], raw[5 + length..])
  }

  /** A fragmented reader: the raw bytes ahead, the unread payload, the records taken so far. */
  datatype Reader = Reader(raw: seq<byte>, buf: seq<byte>, used: nat)

  /** The next record put behind the unread payload, unless the cap is reached. */
  function Refill(f: Reader): (t: Result<Reader, Taken<seq<byte>>>)
    ensures t.Err? ==> t.error.Failed?
    ensures t.Ok? ==> t.value.used == f.used + 1 <= MAX_FRAGMENTS_COUNT + 1
  {
    if f.used > MAX_FRAGMENTS_COUNT then Err(Failed(TooManyFragments, f.raw))
    else match NextFragment(f.raw)
      case Failed(e, rest) => Err(Failed(e, rest))
      case Got(payload, rest) => Ok(Reader(rest, payload, f.used + 1))
  }

  /** Refilled until there is an unread payload: empty records are skipped, and counted. */
  function NextPayload(f: Reader): (t: Result<Reader, Taken<seq<byte>>>)
    requires f.used <= MAX_FRAGMENTS_COUNT + 1
    ensures t.Ok? ==> t.value.used <= MAX_FRAGMENTS_COUNT + 1 && t.value.buf != []
    ensures t.Err? ==> t.error.Failed?
    decreases MAX_FRAGMENTS_COUNT + 1 - f.used
  {
    match Refill(f)
    case Err(failed) => Err(failed)
    case Ok(g) => if g.buf == [] then NextPayload(g) else Ok(g)
  }

  datatype Pulled = Pulled(data: seq<byte>, next: Reader) | NoMore(error: HelloError, rest: seq<byte>)

  /** Exactly `n` payload bytes, taking only as many records as they need. */
  function Pull(f: Reader, n: nat): (p: Pulled)
    requires f.used <= MAX_FRAGMENTS_COUNT + 1
    ensures p.Pulled? ==> |p.data| == n && p.next.used <= MAX_FRAGMENTS_COUNT + 1
    decreases MAX_FRAGMENTS_COUNT + 1 - f.used
  {
    if n <= |f.buf| then Pulled(f.buf[..n], f.(buf := f.buf[n..]))
    else match Refill(f)
      case Err(failed) => NoMore(failed.error, failed.rest)
      case Ok(g) =>
        match Pull(g, n - |f.buf|)
        case NoMore(e, rest) => NoMore(e, rest)
        case Pulled(data, next) => Pulled(f.buf + data, next)
  }

  /** The two buffers parseClientHello hands on, and the raw bytes it left. */
  datatype Hello = Hello(copy: seq<byte>, body: seq<byte>)

  /** The unfragmented record the digest is computed over; its length field is 16 bits wide. */
  function Reconstruct(body: seq<byte>): (copy: seq<byte>)
    requires |body| < 0x100_0000
  {
    [TYPE_HANDSHAKE, 3, 1] + PutU16((1 + 3 + |body|) % 0x1_0000) + Message(body)
  }

  /** A ClientHello handshake message: type, 24-bit length, body. */
  function Message(body: seq<byte>): (m: seq<byte>)
    requires |body| < 0x100_0000
  {
    [TYPE_HANDSHAKE_CLIENT] + PutU24(|body|) + body
  }

  function Reassemble(raw: seq<byte>): (t: Taken<Hello>) {
    match Pull(Reader(raw, [], 0), 4)
    case NoMore(e, rest) => Failed(e, rest)
    case Pulled(h, next) =>
      if h[0] != TYPE_HANDSHAKE_CLIENT then Failed(BadHandshakeType(h[0]), next.raw)
      else match Pull(next, GetU24(h[1], h[2], h[3]))
        case NoMore(e, rest) => Failed(e, rest)
        case Pulled(body, last) => Got(Hello(Reconstruct(body), body), last.raw)
  }

  // ----- the imperative reader

  class FragmentedHandshakeReader {
    const r: ConnRewind
    var buf: seq<byte>
    var readFragments: nat

    ghost predicate Valid()
      reads this, r, r.conn
    {
      r.Valid() && readFragments <= MAX_FRAGMENTS_COUNT + 1
    }

    ghost function Value(): Reader
      reads this, r, r.conn
      requires Valid()
    {
      Reader(r.See().remaining, buf, readFragments)
    }

    constructor (r: ConnRewind)
      requires r.Valid()
      ensures this.r == r && Valid() && Value() == Reader(r.See().remaining, [], 0)
    {
      this.r := r;
      buf := [];
      readFragments := 0;
    }

    method ParseNextFragment() returns (error: Option<HelloError>, ghost raw: seq<byte>)
      requires Valid() && buf == []
      modifies this`buf, r, r.conn
      ensures Valid() && Advanced(old(r.See()), raw, r.See())
      ensures match NextFragment(old(r.See()).remaining)
              case Failed(e, rest) => error == Some(e) && r.See().remaining == rest
              case Got(payload, rest) => error == None && buf == payload && r.See().remaining == rest
    {
      hide ConnRewind.Valid, ConnRewind.See;
      ghost var start := r.See();
      var header, ok := ReadExactly(r, 5);
      raw := header;
      if !ok {
        return Some(ReadFailed), raw;
      }
      ghost var all := start.remaining;
      assert all[..5] == header && r.See().remaining == all[5..];
      if header[0] != TYPE_HANDSHAKE {
        return Some(BadRecordType(header[0])), raw;
      }
      if header[1] != 3 || header[2] != 1 {
        return Some(BadVersion(header[1], header[2])), raw;
      }
      ghost var mid := r.See();
      var length := GetU16(header[3], header[4]);
      buf, ok := ReadExactly(r, length);
      AdvancedTwice(start, header, mid, buf, r.See());
      raw := header + buf;
      return if ok then None else Some(ReadFailed), raw;
    }

    /** Records are taken until one has a payload. */
    method Fill() returns (error: Option<HelloError>, ghost raw: seq<byte>)
      requires Valid() && buf == []
      modifies this, r, r.conn
      ensures Valid() && Advanced(old(r.See()), raw, r.See())
      ensures NextPayload(old(Value())) ==
              if error == None then Ok(Value()) else Err(Failed(error.value, Value().raw))
    {
      hide Advanced, ConnRewind.Valid, ConnRewind.See, NextFragment;
      ghost var start, was := r.See(), Value();
      raw := [];
      NotAdvanced(start);
      while buf == []
        invariant Valid() && Advanced(start, raw, r.See())
        invariant NextPayload(was) == if buf == [] then NextPayload(Value()) else Ok(Value())
        decreases MAX_FRAGMENTS_COUNT + 1 - readFragments, buf == []
      {
        if readFragments > MAX_FRAGMENTS_COUNT {
          return Some(TooManyFragments), raw;
        }
        ghost var mid := r.See();
        var failure, taken := ParseNextFragment();
        AdvancedTwice(start, raw, mid, taken, r.See());
        raw := raw + taken;
        if failure != None {
          return failure, raw;
        }
        readFragments := readFragments + 1;
      }
      error := None;
    }

    /** One read: what is unread of the last record, or of the next record that has a payload. */
    method Read(limit: nat) returns (chunk: seq<byte>, error: Option<HelloError>, ghost raw: seq<byte>)
      requires Valid() && limit > 0
      modifies this, r, r.conn
      ensures Valid() && Advanced(old(r.See()), raw, r.See())
      ensures error == None ==> 0 < |chunk| <= limit
      ensures Pull(old(Value()), limit) ==
              if error == None then Prepend(chunk, Pull(Value(), limit - |chunk|))
              else NoMore(error.value, Value().raw)
    {
      hide Advanced, ConnRewind.Valid, ConnRewind.See, NextFragment;
      error, raw := None, [];
      ghost var was := Value();
      NotAdvanced(r.See());
      if buf == [] {
        error, raw := Fill();
        PullSkip(was, limit);
        if error != None {
          return [], error, raw;
        }
      }
      var n := Min(limit, |buf|);
      PullPart(Value(), n, limit);
      chunk := buf[..n];
      buf := buf[n..];
    }

    /** `io.ReadFull` and `io.CopyN` on the reassembled payload. */
    method ReadExactlyPayload(n: nat) returns (data: seq<byte>, error: Option<HelloError>, ghost raw: seq<byte>)
      requires Valid()
      modifies this, r, r.conn
      ensures Valid() && Advanced(old(r.See()), raw, r.See())
      ensures Pull(old(Value()), n) ==
              if error == None then Pulled(data, Value()) else NoMore(error.value, Value().raw)
    {
      hide Advanced, ConnRewind.Valid, ConnRewind.See, Pull;
      ghost var start, was := r.See(), Value();
      data, raw := [], [];
      NotAdvanced(start);
      while |data| < n
        invariant Valid() && Advanced(start, raw, r.See())
        invariant |data| <= n
        invariant Pull(was, n) == Prepend(data, Pull(Value(), n - |data|))
      {
        ghost var mid, now := r.See(), Value();
        var chunk, failure, taken := Read(n - |data|);
        AdvancedTwice(start, raw, mid, taken, r.See());
        raw := raw + taken;
        if failure != None {
          return data, failure, raw;
        }
        PrependTwice(data, chunk, Pull(Value(), n - |data| - |chunk|));
        data := data + chunk;
      }
      error := None;
      PullNothing(Value());
    }
  }

  ghost function Prepend(data: seq<byte>, p: Pulled): Pulled {
    if p.Pulled? then Pulled(data + p.data, p.next) else p
  }

  lemma PrependTwice(x: seq<byte>, y: seq<byte>, p: Pulled)
    ensures Prepend(x, Prepend(y, p)) == Prepend(x + y, p)
  {
    if p.Pulled? {
      assert x + (y + p.data) == (x + y) + p.data;
    }
  }

  lemma PullNothing(f: Reader)
    requires f.used <= MAX_FRAGMENTS_COUNT + 1
    ensures Pull(f, 0) == Pulled([], f)
  {
    assert f.buf[0..] == f.buf;
  }

  /** Reading part of the unread payload first changes nothing. */
  lemma PullPart(f: Reader, k: nat, n: nat)
    requires f.used <= MAX_FRAGMENTS_COUNT + 1 && k <= |f.buf| && k <= n
    ensures Pull(f, n) == Prepend(f.buf[..k], Pull(f.(buf := f.buf[k..]), n - k))
  {
    hide NextFragment;
    var g := f.(buf := f.buf[k..]);
    if n <= |f.buf| {
      assert f.buf[..n] == f.buf[..k] + g.buf[..n - k];
      assert f.buf[n..] == g.buf[n - k..];
    } else {
      assert Refill(f) == Refill(g);
      assert n - |f.buf| == (n - k) - |g.buf|;
      if Refill(f).Ok? {
        var p := Pull(Refill(f).value, n - |f.buf|);
        if p.Pulled? {
          assert f.buf + p.data == f.buf[..k] + (g.buf + p.data);
        }
      }
    }
  }

  /** Skipping to the next payload first changes nothing. */
  lemma {:induction false} PullSkip(f: Reader, n: nat)
    requires f.used <= MAX_FRAGMENTS_COUNT + 1 && f.buf == [] && n > 0
    ensures Pull(f, n) ==
            match NextPayload(f)
            case Err(failed) => NoMore(failed.error, failed.rest)
            case Ok(g) => Pull(g, n)
    decreases MAX_FRAGMENTS_COUNT + 1 - f.used
  {
    hide NextFragment;
    if Refill(f).Ok? {
      var g := Refill(f).value;
      var p := Pull(g, n);
      if p.Pulled? {
        assert [] + p.data == p.data;
      }
      if g.buf == [] {
        PullSkip(g, n);
      }
    }
  }

  method ParseClientHello(conn: ConnRewind)
    returns (copy: seq<byte>, body: seq<byte>, error: Option<HelloError>, ghost raw: seq<byte>)
    requires conn.Valid()
    modifies conn, conn.conn
    ensures conn.Valid() && Advanced(old(conn.See()), raw, conn.See())
    ensures Reassemble(old(conn.See()).remaining) ==
            if error == None then Got(Hello(copy, body), conn.See().remaining)
            else Failed(error.value, conn.See().remaining)
  {
    hide Advanced, ConnRewind.Valid, ConnRewind.See, Pull;
    ghost var start := conn.See();
    copy, body := [], [];
    var f := new FragmentedHandshakeReader(conn);
    var header;
    header, error, raw := f.ReadExactlyPayload(4);
    if error != None {
      return;
    }
    if header[0] != TYPE_HANDSHAKE_CLIENT {
      error := Some(BadHandshakeType(header[0]));
      return;
    }
    var length := GetU24(header[1], header[2], header[3]);
    copy := [TYPE_HANDSHAKE, 3, 1] + PutU16((1 + 3 + length) % 0x1_0000);
    copy := copy + [TYPE_HANDSHAKE_CLIENT] + header[1..];
    U24Unique(header[1], header[2], header[3]);
    assert header[1..] == [header[1], header[2], header[3]];
    ghost var mid, taken := conn.See(), [];
    body, error, taken := f.ReadExactlyPayload(length);
    AdvancedTwice(start, raw, mid, taken, conn.See());
    raw := raw + taken;
    copy := copy + body;
    if error == None {
      assert copy == Reconstruct(body);
    }
  }
}
