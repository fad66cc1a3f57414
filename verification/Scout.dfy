/**
 The scouting connection (mtglib/internal/doppel/scout_conn.go and
 scout_conn_collected.go): it passes bytes on unchanged while it notes the records
 they form and where the client first wrote after the handshake.
 */
module Scout {
  import opened Bytes
  import opened Streams
  import opened Records

  /** Type and payload length of a record. */
  datatype Noted = Noted(kind: byte, payloadLen: nat)

  datatype ScoutResult = ScoutResult(timestamp: int, noted: Noted)

  /** The results without their time stamps. */
  function Notes(data: seq<ScoutResult>): (ns: seq<Noted>)
    ensures |ns| == |data|
    ensures forall i :: 0 <= i < |data| ==> ns[i] == data[i].noted
  {
    seq(|data|, i requires 0 <= i < |data| => data[i].noted)
  }

  function NotesOf(rs: seq<Record>): (ns: seq<Noted>)
    ensures |ns| == |rs|
    ensures forall i :: 0 <= i < |rs| ==> ns[i] == Noted(rs[i].kind, |rs[i].payload|)
  {
    seq(|rs|, i requires 0 <= i < |rs| => Noted(rs[i].kind, |rs[i].payload|))
  }

  ghost predicate AllFit(rs: seq<Record>) {
    forall i :: 0 <= i < |rs| ==> Fits(rs[i])
  }

  /** How many bytes records take with their headers. */
  function Length(rs: seq<Record>): (n: nat) {
    if rs == [] then 0 else Length(rs[..|rs| - 1]) + SIZE_HEADER + |rs[|rs| - 1].payload|
  }

  lemma {:induction false} LengthOf(rs: seq<Record>)
    requires AllFit(rs)
    ensures |EncodeRecords(rs)| == Length(rs)
  {
    if rs != [] {
      var fewer, r := rs[..|rs| - 1], rs[|rs| - 1];
      LengthOf(fewer);
      assert rs == fewer + [r];
      EncodeSnoc(fewer, r);
      EncodedLength(r);
    }
  }

  lemma EncodedLength(r: Record)
    requires Fits(r)
    ensures |EncodeRecord(r)| == SIZE_HEADER + |r.payload|
  {
  }

  /** The first `k` records, and no fewer, hold the first `n` bytes. */
  ghost predicate Covers(rs: seq<Record>, k: nat, n: nat) {
    k <= |rs| && n <= Length(rs[..k]) && (k > 0 ==> Length(rs[..k - 1]) < n)
  }

  ghost predicate HasCCS(rs: seq<Record>) {
    exists i :: 0 <= i < |rs| && rs[i].kind == TYPE_CHANGE_CIPHER_SPEC
  }

  lemma HasCCSSnoc(rs: seq<Record>, r: Record)
    ensures HasCCS(rs + [r]) <==> HasCCS(rs) || r.kind == TYPE_CHANGE_CIPHER_SPEC
  {
    assert (rs + [r])[|rs|] == r;
    assert forall i :: 0 <= i < |rs| ==> (rs + [r])[i] == rs[i];
  }

  lemma {:induction false} EncodeSnoc(rs: seq<Record>, r: Record)
    requires AllFit(rs) && Fits(r)
    ensures EncodeRecords(rs + [r]) == EncodeRecords(rs) + EncodeRecord(r)
  {
    hide EncodeRecord;
    if rs == [] {
      assert [] + [r] == [r] && [r][1..] == [];
      assert EncodeRecord(r) + [] == EncodeRecord(r) == [] + EncodeRecord(r);
    } else {
      assert (rs + [r])[1..] == rs[1..] + [r];
      EncodeSnoc(rs[1..], r);
      var x, y, z := EncodeRecord(rs[0]), EncodeRecords(rs[1..]), EncodeRecord(r);
      assert x + (y + z) == (x + y) + z;
    }
  }

  class Collected {
    var data: seq<ScoutResult>
    var writeIndex: int

    constructor ()
      ensures data == [] && writeIndex == -1
    {
      data, writeIndex := [], -1;
    }

    method Add(kind: byte, payloadLen: nat, now: int)
      modifies this`data
      ensures data == old(data) + [ScoutResult(now, Noted(kind, payloadLen))]
    {
      data := data + [ScoutResult(now, Noted(kind, payloadLen))];
    }

    /** Set once, to the number of records noted so far, and kept from then on. */
    method MarkWrite()
      modifies this`writeIndex
      ensures writeIndex == if old(writeIndex) < 0 then |data| else old(writeIndex)
    {
      if writeIndex < 0 {
        writeIndex := |data|;
      }
    }
  }

  class ScoutConn {
    const conn: Conn
    const results: Collected
    var rawBuf: seq<byte>
    var seenCCS: bool
    // history
    ghost var delivered: seq<byte>
    ghost var records: seq<Record>

    /**
     What was delivered and what is buffered are the records taken, those together
     with what is left are the input, and exactly those records are noted.
     */
    ghost predicate Valid()
      reads this, conn, results
    {
      && conn.Valid() && AllFit(records)
      && delivered + rawBuf == EncodeRecords(records)
      && conn.input == EncodeRecords(records) + conn.Remaining()
      && Notes(results.data) == NotesOf(records)
      && (seenCCS <==> HasCCS(records))
      && -1 <= results.writeIndex <= |results.data|
    }

    /** Between two calls a byte of every record taken has been delivered. */
    ghost predicate Begun()
      reads this
    {
      Covers(records, |records|, |delivered|)
    }

    constructor (conn: Conn, results: Collected)
      requires conn.Valid() && conn.pos == 0 && results.data == [] && results.writeIndex == -1
      ensures this.conn == conn && this.results == results
      ensures Valid() && Begun() && delivered == [] && records == []
    {
      this.conn, this.results := conn, results;
      rawBuf, seenCCS := [], false;
      delivered, records := [], [];
    }

    /** Bytes come out as they went in; a failure means that no whole record is left. */
    method Read(limit: nat, now: int) returns (chunk: seq<byte>, error: Option<RecordError>)
      requires Valid() && Begun()
      modifies this, conn, results`data
      ensures |chunk| <= limit && results.writeIndex == old(results.writeIndex) && Begun()
      ensures error == None ==> Valid() && delivered == old(delivered) + chunk && (limit > 0 ==> chunk != [])
      ensures |records| >= |old(records)| && records[..|old(records)|] == old(records)
      ensures AllFit(records) && Notes(results.data) == NotesOf(records)
      ensures StampedNow(old(results.data), results.data, now)
      ensures error != None ==> chunk == [] && records == old(records)
      ensures error != None ==> delivered == old(delivered) == EncodeRecords(records) <= conn.input
      ensures error != None ==> NextRecord(conn.input[|delivered|..]).NoRecord?
    {
      hide NextRecord, EncodeRecords, EncodeRecord, HasCCS, AllFit, NotesOf, Notes, Length;
      error := None;
      while rawBuf == [] && limit > 0
        invariant error == None && Valid() && delivered == old(delivered)
        invariant results.writeIndex == old(results.writeIndex)
        invariant if records == old(records) then results.data == old(results.data)
                  else limit > 0 && rawBuf != [] && |delivered| == Length(old(records))
                       && |records| == |old(records)| + 1 && records[..|old(records)|] == old(records)
                       && StampedNow(old(results.data), results.data, now)
        decreases |conn.Remaining()|, rawBuf == []
      {
        assert delivered + [] == delivered;
        LengthOf(records);
        error := TakeRecord(now);
        if error != None {
          return [], error;
        }
      }
      LengthOf(records);
      assert records[..|records|] == records;
      assert records != old(records) ==> records[..|records| - 1] == old(records);
      var n := Min(limit, |rawBuf|);
      chunk := rawBuf[..n];
      ghost var was := delivered;
      delivered := delivered + chunk;
      assert rawBuf == rawBuf[..n] + rawBuf[n..];
      Regroup(was, rawBuf[..n], rawBuf[n..]);
      rawBuf := rawBuf[n..];
    }

    /** The next record, noted and buffered with its header. */
    method TakeRecord(now: int) returns (error: Option<RecordError>)
      requires Valid() && rawBuf == []
      modifies this, conn, results`data
      ensures delivered == old(delivered) && results.writeIndex == old(results.writeIndex)
      ensures error == None ==>
              && Valid() && rawBuf != [] && |conn.Remaining()| < |old(conn.Remaining())|
              && |records| == |old(records)| + 1 && records[..|old(records)|] == old(records)
              && StampedNow(old(results.data), results.data, now)
      ensures error != None ==>
              && records == old(records) && AllFit(records) && results.data == old(results.data)
              && delivered == EncodeRecords(records) <= conn.input && NextRecord(conn.input[|delivered|..]).NoRecord?
    {
      hide NextRecord, EncodeRecords, EncodeRecord, HasCCS;
      ghost var left, before := conn.Remaining(), EncodeRecords(records);
      assert delivered + [] == delivered == before && conn.input[|delivered|..] == left;
      var kind, data, failure := ReadRecord(conn);
      if failure != None {
        return failure;
      }
      Take(left);
      ghost var r := Record(kind, data);
      if kind == TYPE_CHANGE_CIPHER_SPEC {
        seenCCS := true;
      }
      results.Add(kind, |data|, now);
      rawBuf := [kind] + [3, 3] + PutU16(|data|) + data;
      RawIsEncoded(r);
      EncodeSnoc(records, r);
      HasCCSSnoc(records, r);
      Regroup(before, EncodeRecord(r), conn.Remaining());
      assert Notes(results.data) == Notes(old(results.data)) + [Noted(kind, |data|)];
      assert NotesOf(records + [r]) == NotesOf(records) + [Noted(kind, |data|)];
      records := records + [r];
      error := None;
    }

    /** The bytes go straight to the network; the first write after the handshake is marked. */
    method Write(p: seq<byte>) returns (sent: seq<byte>)
      requires Valid()
      modifies results`writeIndex
      ensures Valid() && sent == p
      ensures results.writeIndex ==
              if HasCCS(records) && old(results.writeIndex) < 0 then |records| else old(results.writeIndex)
    {
      if seenCCS {
        results.MarkWrite();
      }
      sent := p;
    }
  }

  /** New results come after the old ones and carry the present time. */
  ghost predicate StampedNow(before: seq<ScoutResult>, after: seq<ScoutResult>, now: int) {
    && |before| <= |after| && after[..|before|] == before
    && forall i :: |before| <= i < |after| ==> after[i].timestamp == now
  }

  lemma Take(left: seq<byte>)
    requires NextRecord(left).Got?
    ensures var r := NextRecord(left).record; Fits(r) && left == EncodeRecord(r) + NextRecord(left).rest
  {
    NextIsEncoded(left);
  }

  lemma RawIsEncoded(r: Record)
    requires Fits(r)
    ensures [r.kind] + [3, 3] + PutU16(|r.payload|) + r.payload == EncodeRecord(r)
    ensures EncodeRecord(r) != []
  {
  }

  // ----- whole runs

  datatype Op = Reads(size: nat, now: int) | Writes(p: seq<byte>)

  /** A read delivers at most what it was asked for, and a byte if it was asked for one. */
  predicate Delivers(op: Op, before: nat, after: nat) {
    match op
    case Reads(size, _) => before <= after <= before + size && (size > 0 ==> before < after)
    case Writes(_) => after == before
  }

  /** A write after a change-cipher record; `counts` says how many records were taken before each operation. */
  ghost predicate Marking(ops: seq<Op>, rs: seq<Record>, counts: seq<nat>, j: nat) {
    j < |ops| && j < |counts| && counts[j] <= |rs| && ops[j].Writes? && HasCCS(rs[..counts[j]])
  }

  /** Unset without such a write among the first `n` operations, otherwise the count at the first of them. */
  ghost predicate MarkedBy(ops: seq<Op>, rs: seq<Record>, counts: seq<nat>, n: nat, mark: int)
    requires n <= |counts|
  {
    && (mark == -1 <==> forall j :: 0 <= j < n ==> !Marking(ops, rs, counts, j))
    && (mark != -1 ==> exists j :: 0 <= j < n && Marking(ops, rs, counts, j) && mark == counts[j]
                                   && forall k :: 0 <= k < j ==> !Marking(ops, rs, counts, k))
  }

  /** More records do not change what was marked. */
  lemma MarkedStays(ops: seq<Op>, rs: seq<Record>, more: seq<Record>, counts: seq<nat>, n: nat, mark: int)
    requires n <= |counts| && (forall j :: 0 <= j < n ==> counts[j] <= |rs|) && |rs| <= |more| && more[..|rs|] == rs
    requires MarkedBy(ops, rs, counts, n, mark)
    ensures MarkedBy(ops, more, counts, n, mark)
  {
    hide HasCCS;
    forall j | 0 <= j < n ensures Marking(ops, more, counts, j) == Marking(ops, rs, counts, j) {
      assert more[..counts[j]] == more[..|rs|][..counts[j]] == rs[..counts[j]];
    }
    if mark != -1 {
      var j :| 0 <= j < n && Marking(ops, rs, counts, j) && mark == counts[j]
               && forall k :: 0 <= k < j ==> !Marking(ops, rs, counts, k);
      assert Marking(ops, more, counts, j);
    }
  }

  /** One more operation changes the mark only if it is the first of its kind. */
  lemma MarkedNext(ops: seq<Op>, rs: seq<Record>, counts: seq<nat>, n: nat, mark: int)
    requires n < |ops| && n < |counts| && counts[n] == |rs| && MarkedBy(ops, rs, counts, n, mark)
    ensures MarkedBy(ops, rs, counts, n + 1, if ops[n].Writes? && HasCCS(rs) && mark == -1 then |rs| else mark)
  {
    hide HasCCS;
    assert rs[..|rs|] == rs;
    if mark != -1 {
      var j :| 0 <= j < n && Marking(ops, rs, counts, j) && mark == counts[j]
               && forall k :: 0 <= k < j ==> !Marking(ops, rs, counts, k);
      assert j < n + 1;
    } else if ops[n].Writes? && HasCCS(rs) {
      assert Marking(ops, rs, counts, n);
    }
  }

  /** What is known of a run after each of its operations. */
  ghost predicate Traced(ops: seq<Op>, rs: seq<Record>, sizes: seq<nat>, counts: seq<nat>, marks: seq<int>) {
    && 0 < |sizes| == |counts| == |marks| <= |ops| + 1
    && sizes[0] == 0 && counts[0] == 0 && marks[0] == -1
    && (forall i :: 0 <= i < |sizes| - 1 ==> Delivers(ops[i], sizes[i], sizes[i + 1]))
    && (forall i :: 0 <= i < |sizes| ==> Covers(rs, counts[i], sizes[i]))
    && (forall i :: 0 <= i < |sizes| ==> MarkedBy(ops, rs, counts, i, marks[i]))
  }

  lemma TracedNext(ops: seq<Op>, rs: seq<Record>, more: seq<Record>,
                   sizes: seq<nat>, counts: seq<nat>, marks: seq<int>, size: nat)
    requires Traced(ops, rs, sizes, counts, marks) && |sizes| <= |ops|
    requires counts[|counts| - 1] == |rs| <= |more| && more[..|rs|] == rs && Covers(more, |more|, size)
    requires var n := |sizes| - 1; Delivers(ops[n], sizes[n], size) && (ops[n].Writes? ==> more == rs)
    ensures var n := |sizes| - 1;
            var mark := if ops[n].Writes? && HasCCS(rs) && marks[n] == -1 then |rs| else marks[n];
            Traced(ops, more, sizes + [size], counts + [|more|], marks + [mark])
  {
    hide HasCCS, MarkedBy, Length, Delivers;
    var n := |sizes| - 1;
    var counts' := counts + [|more|];
    forall i | 0 <= i < |sizes| ensures Covers(more, counts[i], sizes[i]) && MarkedBy(ops, more, counts', i, marks[i]) {
      assert more[..counts[i]] == more[..|rs|][..counts[i]] == rs[..counts[i]];
      if counts[i] > 0 {
        assert more[..counts[i] - 1] == more[..|rs|][..counts[i] - 1] == rs[..counts[i] - 1];
      }
      MarkedStays(ops, rs, more, counts, i, marks[i]);
      MarkedLonger(ops, more, counts, |more|, i, marks[i]);
    }
    MarkedNext(ops, rs, counts, n, marks[n]);
    var mark := if ops[n].Writes? && HasCCS(rs) && marks[n] == -1 then |rs| else marks[n];
    MarkedStays(ops, rs, more, counts, n + 1, mark);
    MarkedLonger(ops, more, counts, |more|, n + 1, mark);
  }

  lemma MarkedLonger(ops: seq<Op>, rs: seq<Record>, counts: seq<nat>, count: nat, n: nat, mark: int)
    requires n <= |counts| && MarkedBy(ops, rs, counts, n, mark)
    ensures MarkedBy(ops, rs, counts + [count], n, mark)
  {
    hide HasCCS;
    forall j | 0 <= j < n ensures Marking(ops, rs, counts + [count], j) == Marking(ops, rs, counts, j) {
    }
    if mark != -1 {
      var j :| 0 <= j < n && Marking(ops, rs, counts, j) && mark == counts[j]
               && forall k :: 0 <= k < j ==> !Marking(ops, rs, counts, k);
      assert Marking(ops, rs, counts + [count], j) && mark == (counts + [count])[j];
    }
  }

  /**
   Over any run of reads and writes: the bytes read are a prefix of the input, and the
   notes are those of the records taken, which are as few as hold those bytes. After
   every operation the write index is the number of records noted before the first
   write that came after a change-cipher record, and unset without one, so nothing
   after that write changes it. A run fails only when every whole record was passed on.
   */
  method ScoutRun(c: ScoutConn, ops: seq<Op>)
    returns (out: seq<byte>, failed: bool, ghost sizes: seq<nat>, ghost counts: seq<nat>, ghost marks: seq<int>)
    requires c.Valid() && c.delivered == [] && c.records == [] && c.results.writeIndex == -1
    modifies c, c.conn, c.results
    ensures Notes(c.results.data) == NotesOf(c.records) && AllFit(c.records)
    ensures out <= EncodeRecords(c.records) <= c.conn.input
    ensures Traced(ops, c.records, sizes, counts, marks)
    ensures var last := |sizes| - 1;
            sizes[last] == |out| && counts[last] == |c.records| && marks[last] == c.results.writeIndex
    ensures !failed ==> |sizes| == |ops| + 1
    ensures failed ==> |sizes| <= |ops| && ops[|sizes| - 1].Reads?
                       && out == EncodeRecords(c.records) && NextRecord(c.conn.input[|out|..]).NoRecord?
    ensures forall i, j :: 0 <= i <= j < |marks| && marks[i] != -1 ==> marks[j] == marks[i]
  {
    hide EncodeRecords, NextRecord, Traced, HasCCS, Covers, AllFit, Notes, NotesOf;
    out, failed := [], false;
    sizes, counts, marks := [0], [0], [-1];
    NothingTraced(ops);
    for i := 0 to |ops|
      invariant c.Valid() && c.Begun() && c.delivered == out && !failed
      invariant |sizes| == |counts| == |marks| == i + 1 && Traced(ops, c.records, sizes, counts, marks)
      invariant sizes[i] == |out| && counts[i] == |c.records| && marks[i] == c.results.writeIndex
      invariant forall k, j :: 0 <= k <= j <= i && marks[k] != -1 ==> marks[j] == marks[k]
    {
      ghost var before := c.records;
      match ops[i] {
        case Reads(size, now) =>
          var chunk, error := c.Read(size, now);
          if error != None {
            failed := true;
            return;
          }
          out := out + chunk;
        case Writes(p) =>
          var sent := c.Write(p);
      }
      TracedNext(ops, before, c.records, sizes, counts, marks, |out|);
      sizes, counts, marks := sizes + [|out|], counts + [|c.records|], marks + [c.results.writeIndex];
    }
  }

  lemma NothingTraced(ops: seq<Op>)
    ensures Traced(ops, [], [0], [0], [-1]) && Covers([], 0, 0)
  {
  }
}
