/**
 TLS records after the handshake: reading and writing them (mtglib/internal/tls/utils.go)
 and the connection that strips them (mtglib/internal/tls/conn.go; section 5.1 of RFC 8446).
 */
module Records {
  import opened Bytes
  import opened Streams

  const SIZE_HEADER := 5
  const MAX_RECORD_SIZE := 16384
  const MAX_RECORD_PAYLOAD_SIZE := MAX_RECORD_SIZE - SIZE_HEADER

  const TYPE_CHANGE_CIPHER_SPEC: byte := 0x14
  const TYPE_HANDSHAKE: byte := 0x16
  const TYPE_APPLICATION_DATA: byte := 0x17

  // ----- specification

  datatype Record = Record(kind: byte, payload: seq<byte>)

  predicate Fits(r: Record) {
    |r.payload| < 0x1_0000
  }

  function EncodeRecord(r: Record): (s: seq<byte>)
    requires Fits(r)
    ensures |s| == SIZE_HEADER + |r.payload|
  {
    [r.kind, 3, 3] + (PutU16(|r.payload|) + r.payload)
  }

  function EncodeRecords(rs: seq<Record>): (s: seq<byte>)
    requires forall i :: 0 <= i < |rs| ==> Fits(rs[i])
  {
    if rs == [] then [] else EncodeRecord(rs[0]) + EncodeRecords(rs[1..])
  }

  datatype RecordError = Truncated | BadVersion

  /** One record and what follows it, or why there is none and the part of a payload that came. */
  datatype Read =
    | Got(record: Record, rest: seq<byte>)
    | NoRecord(error: RecordError, partial: seq<byte>, left: seq<byte>)

  function NextRecord(raw: seq<byte>): (r: Read)
    ensures r.Got? ==> Fits(r.record) && |r.rest| == |raw| - SIZE_HEADER - |r.record.payload|
  {
    if |raw| < SIZE_HEADER then NoRecord(Truncated, [], [])
    else if raw[1] != 3 || raw[2] != 3 then NoRecord(BadVersion, [], raw[SIZE_HEADER..])
    else
      var length: int := GetU16(raw[3], raw[4]);
      if |raw| < SIZE_HEADER + length then NoRecord(Truncated, raw[SIZE_HEADER..], [])
      else Got(Record(raw[0], raw[SIZE_HEADER..SIZE_HEADER + length]), raw[SIZE_HEADER + length..])
  }

  /** The bytes of a record. */
  lemma RecordBytes(r: Record)
    requires Fits(r)
    ensures EncodeRecord(r) == [r.kind, 3, 3, |r.payload| / 0x100, |r.payload| % 0x100] + r.payload
  {
  }

  lemma NextOfEncoded(r: Record, tail: seq<byte>)
    requires Fits(r)
    ensures NextRecord(EncodeRecord(r) + tail) == Got(r, tail)
  {
    U16Front(|r.payload|, r.payload + tail);
    hide PutU16, GetU16;
    var raw := EncodeRecord(r) + tail;
    assert raw[3..] == PutU16(|r.payload|) + (r.payload + tail);
    assert raw[3] == raw[3..][0] && raw[4] == raw[3..][1];
    assert raw[SIZE_HEADER..] == raw[3..][2..] == r.payload + tail;
    assert raw[SIZE_HEADER..SIZE_HEADER + |r.payload|] == r.payload;
    assert raw[SIZE_HEADER + |r.payload|..] == tail;
  }

  /** Nothing but an encoded record is taken. */
  lemma NextIsEncoded(raw: seq<byte>)
    requires NextRecord(raw).Got?
    ensures raw == EncodeRecord(NextRecord(raw).record) + NextRecord(raw).rest
  {
    var r := NextRecord(raw);
    assert PutU16(|r.record.payload|) == [raw[3], raw[4]];
    hide PutU16, GetU16;
    assert raw == [raw[0], raw[1], raw[2]] + [raw[3], raw[4]] + r.record.payload + r.rest;
  }

  /** The application data in a byte stream, up to where it stops being records. */
  function AppData(raw: seq<byte>): (s: seq<byte>)
    decreases |raw|
  {
    match NextRecord(raw)
    case NoRecord(_, _, _) => []
    case Got(r, rest) => (if r.kind == TYPE_APPLICATION_DATA then r.payload else []) + AppData(rest)
  }

  function AppPayloads(rs: seq<Record>): (s: seq<byte>) {
    if rs == [] then []
    else (if rs[0].kind == TYPE_APPLICATION_DATA then rs[0].payload else []) + AppPayloads(rs[1..])
  }

  /** Records of other types, wherever they stand, do not show. */
  lemma {:induction false} AppDataOfEncoded(rs: seq<Record>, tail: seq<byte>)
    requires forall i :: 0 <= i < |rs| ==> Fits(rs[i])
    ensures AppData(EncodeRecords(rs) + tail) == AppPayloads(rs) + AppData(tail)
  {
    hide NextRecord, EncodeRecord;
    if rs == [] {
      assert [] + tail == tail && [] + AppData(tail) == AppData(tail);
    } else {
      var first, more := EncodeRecord(rs[0]), EncodeRecords(rs[1..]);
      assert (first + more) + tail == first + (more + tail);
      NextOfEncoded(rs[0], more + tail);
      AppDataOfEncoded(rs[1..], tail);
      var x := if rs[0].kind == TYPE_APPLICATION_DATA then rs[0].payload else [];
      assert (x + AppPayloads(rs[1..])) + AppData(tail) == x + (AppPayloads(rs[1..]) + AppData(tail));
    }
  }

  // ----- reading and writing

  /** `io.ReadFull` and `io.CopyN` on a plain connection. */
  method ReadFully(c: Conn, n: nat) returns (data: seq<byte>, ok: bool)
    requires c.Valid()
    modifies c
    ensures c.Valid() && old(c.Remaining()) == data + c.Remaining()
    ensures ok <==> n <= |old(c.Remaining())|
    ensures if ok then |data| == n else c.Remaining() == []
  {
    ghost var all := c.Remaining();
    data := [];
    var ended := false;
    while |data| < n && !ended
      invariant c.Valid() && all == data + c.Remaining() && |data| <= n
      invariant ended ==> c.Remaining() == []
      decreases n - |data|, !ended
    {
      var chunk;
      chunk, ended := c.Read(n - |data|);
      assert data + (chunk + c.Remaining()) == (data + chunk) + c.Remaining();
      data := data + chunk;
    }
    ok := |data| == n;
  }

  /** On failure the part of the payload that arrived has been handed on all the same. */
  method ReadRecord(c: Conn) returns (kind: byte, data: seq<byte>, error: Option<RecordError>)
    requires c.Valid()
    modifies c
    ensures c.Valid()
    ensures match NextRecord(old(c.Remaining()))
            case Got(r, rest) => error == None && Record(kind, data) == r && c.Remaining() == rest
            case NoRecord(e, partial, left) => error == Some(e) && data == partial && c.Remaining() == left
  {
    hide GetU16, Conn.Valid, Conn.Remaining;
    ghost var raw := c.Remaining();
    var header, ok := ReadFully(c, SIZE_HEADER);
    if !ok {
      return 0, [], Some(Truncated);
    }
    assert header == raw[..SIZE_HEADER] && c.Remaining() == raw[SIZE_HEADER..];
    if header[1] != 3 || header[2] != 3 {
      return 0, [], Some(BadVersion);
    }
    assert header[3] == raw[3] && header[4] == raw[4];
    var length := GetU16(header[3], header[4]);
    data, ok := ReadFully(c, length);
    kind := header[0];
    error := if ok then None else Some(Truncated);
    if ok {
      assert c.Remaining() == raw[SIZE_HEADER + length..] && data == raw[SIZE_HEADER..SIZE_HEADER + length];
    } else {
      assert data + [] == data;
    }
  }

  /** The header is written in front of a payload that is already in its place. */
  method WriteRecordInPlace(buf: array<byte>, payloadLen: nat) returns (written: seq<byte>, ok: bool)
    requires buf.Length == MAX_RECORD_SIZE
    modifies buf
    ensures ok <==> payloadLen <= MAX_RECORD_PAYLOAD_SIZE
    ensures !ok ==> written == [] && buf[..] == old(buf[..])
    ensures ok ==> buf[SIZE_HEADER..] == old(buf[SIZE_HEADER..])
    ensures ok ==>
            written == EncodeRecord(Record(TYPE_APPLICATION_DATA, old(buf[SIZE_HEADER..SIZE_HEADER + payloadLen])))
  {
    hide PutU16;
    if payloadLen > MAX_RECORD_PAYLOAD_SIZE {
      return [], false;
    }
    RecordBytes(Record(TYPE_APPLICATION_DATA, buf[SIZE_HEADER..SIZE_HEADER + payloadLen]));
    buf[0] := TYPE_APPLICATION_DATA;
    buf[1], buf[2] := 3, 3;
    buf[3], buf[4] := payloadLen / 0x100, payloadLen % 0x100;
    written, ok := buf[..SIZE_HEADER + payloadLen], true;
    assert written == buf[..SIZE_HEADER] + buf[SIZE_HEADER..SIZE_HEADER + payloadLen];
    assert buf[..SIZE_HEADER] == [TYPE_APPLICATION_DATA, 3, 3, payloadLen / 0x100, payloadLen % 0x100];
  }

  /** A payload too long for the scratch buffer is cut by `copy`, and then refused for its length. */
  method WriteRecord(payload: seq<byte>) returns (written: seq<byte>, ok: bool)
    ensures ok <==> |payload| <= MAX_RECORD_PAYLOAD_SIZE
    ensures written == if ok then EncodeRecord(Record(TYPE_APPLICATION_DATA, payload)) else []
  {
    var buf := new byte[MAX_RECORD_SIZE](i requires 0 <= i < MAX_RECORD_SIZE =>
      if SIZE_HEADER <= i < SIZE_HEADER + |payload| then payload[i - SIZE_HEADER] else 0);
    if |payload| <= MAX_RECORD_PAYLOAD_SIZE {
      assert buf[SIZE_HEADER..SIZE_HEADER + |payload|] == payload;
    }
    written, ok := WriteRecordInPlace(buf, |payload|);
  }

  // ----- the connection

  class TlsConn {
    const conn: Conn
    var readBuf: seq<byte>

    constructor (conn: Conn)
      ensures this.conn == conn && readBuf == []
    {
      this.conn := conn;
      readBuf := [];
    }

    /** What reads are still going to deliver. */
    ghost function Pending(): seq<byte>
      reads this, conn
      requires conn.Valid()
    {
      readBuf + AppData(conn.Remaining())
    }

    /** Delivers the next application data, and fails only once there is none. */
    method Read(limit: nat) returns (chunk: seq<byte>, error: Option<RecordError>)
      requires conn.Valid()
      modifies this, conn
      ensures conn.Valid() && |chunk| <= limit
      ensures error == None ==> old(Pending()) == chunk + Pending() && (limit > 0 ==> chunk != [])
      ensures error != None ==> chunk == [] && old(Pending()) == [] && limit > 0
    {
      hide NextRecord, Conn.Valid, Conn.Remaining;
      ghost var all := Pending();
      error := None;
      while true
        invariant conn.Valid() && all == Pending()
        decreases |conn.Remaining()|
      {
        if readBuf != [] || limit == 0 {
          var n := Min(limit, |readBuf|);
          chunk := readBuf[..n];
          readBuf := readBuf[n..];
          ghost var more := AppData(conn.Remaining());
          assert chunk + (readBuf + more) == (chunk + readBuf) + more;
          return;
        }
        ghost var raw := conn.Remaining();
        var kind, data, failure := ReadRecord(conn);
        readBuf := readBuf + data;
        if failure != None {
          return [], failure;
        }
        if kind != TYPE_APPLICATION_DATA {
          readBuf := [];
        }
      }
    }
  }

  /** Any sequence of reads that all succeed delivers a prefix of the application data, in order. */
  method ReadRun(c: TlsConn, sizes: seq<nat>) returns (out: seq<byte>, error: Option<RecordError>)
    requires c.conn.Valid()
    modifies c, c.conn
    ensures c.conn.Valid()
    ensures error == None ==> old(c.Pending()) == out + c.Pending()
    ensures error != None ==> out == old(c.Pending())
    ensures |out| <= Total(sizes)
    ensures error == None && (forall i :: 0 <= i < |sizes| ==> sizes[i] > 0) ==> |out| >= |sizes|
  {
    hide AppData, Conn.Valid, Conn.Remaining;
    ghost var all := c.Pending();
    out, error := [], None;
    for i := 0 to |sizes|
      invariant c.conn.Valid() && error == None && all == out + c.Pending()
      invariant |out| <= Total(sizes[..i]) <= Total(sizes)
      invariant (forall k :: 0 <= k < |sizes| ==> sizes[k] > 0) ==> |out| >= i
    {
      TotalSnoc(sizes, i);
      ghost var before := c.Pending();
      var chunk;
      chunk, error := c.Read(sizes[i]);
      if error != None {
        assert out + before == out;
        return;
      }
      assert out + (chunk + c.Pending()) == (out + chunk) + c.Pending();
      out := out + chunk;
    }
    assert sizes[..|sizes|] == sizes;
  }

  function Total(sizes: seq<nat>): (n: nat) {
    if sizes == [] then 0 else Total(sizes[..|sizes| - 1]) + sizes[|sizes| - 1]
  }

  lemma {:induction false} TotalSnoc(sizes: seq<nat>, i: nat)
    requires i < |sizes|
    ensures Total(sizes[..i + 1]) == Total(sizes[..i]) + sizes[i] && Total(sizes[..i + 1]) <= Total(sizes)
    decreases |sizes| - i
  {
    assert sizes[..i + 1][..i] == sizes[..i];
    if i + 1 < |sizes| {
      TotalSnoc(sizes, i + 1);
    } else {
      assert sizes[..i + 1] == sizes;
    }
  }
}
