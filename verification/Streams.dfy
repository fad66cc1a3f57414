/**
 The client connection and its rewindable wrapper (mtglib/conns.go).

 A connection is the byte string the peer sends before an end that stays: every
 read returns some bytes of it, in order, of any size up to the buffer it was
 given, and after the last byte every read reports the end.
 */
module Streams {
  import opened Bytes

  class Conn {
    const input: seq<byte>
    var pos: nat

    constructor (input: seq<byte>)
      ensures this.input == input && pos == 0
    {
      this.input := input;
      pos := 0;
    }

    ghost predicate Valid()
      reads this
    {
      pos <= |input|
    }

    ghost function Remaining(): seq<byte>
      reads this
      requires Valid()
    {
      input[pos..]
    }

    /** Delivers at least one byte while there is one; the end may come with the last bytes. */
    method Read(limit: nat) returns (chunk: seq<byte>, ended: bool)
      requires Valid() && limit > 0
      modifies this
      ensures Valid()
      ensures |chunk| <= limit && old(Remaining()) == chunk + Remaining()
      ensures chunk == [] ==> ended
      ensures ended ==> Remaining() == []
    {
      var left := |input| - pos;
      if left == 0 {
        return [], true;
      }
      var n :| 1 <= n <= limit && n <= left;
      chunk := input[pos..pos + n];
      pos := pos + n;
      ended :| ended ==> pos == |input|;
    }
  }

  /** Where a rewindable connection reads from: a tee into its buffer, or the rest of a replay. */
  datatype Active = Tee | Replay(rest: seq<byte>)

  /**
   What a caller can see of a rewindable connection: whether reads are tee'd, the
   tee'd bytes, everything reads are going to return, and how many bytes the
   network still holds.
   */
  datatype View = View(tee: bool, buf: seq<byte>, remaining: seq<byte>, left: nat)

  /**
   `data` was read between two views. The network gives up only those bytes that
   the replay could not supply, so what is left on it is the smaller of what was
   left before and what remains in all; only a tee adds to the buffer.
   */
  ghost predicate Advanced(before: View, data: seq<byte>, after: View) {
    && after.tee == before.tee
    && before.remaining == data + after.remaining
    && after.left == Min(before.left, |after.remaining|)
    && after.buf == if before.tee then before.buf + data else before.buf
  }

  lemma NotAdvanced(v: View)
    requires v.left <= |v.remaining|
    ensures Advanced(v, [], v)
  {
    assert [] + v.remaining == v.remaining;
    assert v.buf + [] == v.buf;
  }

  lemma AdvancedTwice(a: View, x: seq<byte>, b: View, y: seq<byte>, c: View)
    requires Advanced(a, x, b) && Advanced(b, y, c)
    ensures Advanced(a, x + y, c)
  {
    assert x + (y + c.remaining) == (x + y) + c.remaining;
    assert a.buf + x + y == a.buf + (x + y);
  }

  /** A rewind replays the tee'd bytes before whatever the network still holds of `input`. */
  ghost function Rewound(v: View, input: seq<byte>): View
    requires v.left <= |input|
  {
    if v.buf == [] then v
    else View(false, v.buf, v.buf + input[|input| - v.left..], v.left)
  }

  /** Every byte that the network gave up was tee'd. */
  ghost predicate AllTeed(v: View, input: seq<byte>) {
    v.left <= |input| && v.buf == input[..|input| - v.left]
  }

  /** A rewind starts the stream over exactly when nothing was read past the tee'd buffer. */
  lemma RewindExact(v: View, input: seq<byte>)
    requires v.left <= |input| && v.buf <= input
    requires v.buf == [] ==> v.remaining == input[|input| - v.left..]
    ensures Rewound(v, input).remaining == input <==> AllTeed(v, input)
  {
    var r := Rewound(v, input).remaining;
    if |v.buf| + v.left == |input| {
      assert v.buf == input[..|input| - v.left];
      assert input == input[..|input| - v.left] + input[|input| - v.left..];
    } else {
      assert |r| == |v.buf| + v.left;
    }
  }

  class ConnRewind {
    const conn: Conn
    var buf: seq<byte>
    var active: Active

    ghost predicate Valid()
      reads this, conn
    {
      && conn.Valid()
      && |buf| <= conn.pos
      && buf == conn.input[..|buf|]
      && match active
         case Tee => |buf| == conn.pos
         case Replay(rest) => |rest| <= |buf| && rest == buf[|buf| - |rest|..]
    }

    ghost function See(): (v: View)
      reads this, conn
      requires Valid()
      ensures v.left <= |v.remaining| && v.left <= |conn.input|
      ensures v.buf <= conn.input && (v.tee ==> AllTeed(v, conn.input))
    {
      var onWire := conn.Remaining();
      View(active.Tee?, buf, if active.Tee? then onWire else active.rest + onWire, |onWire|)
    }

    constructor (conn: Conn)
      requires conn.Valid() && conn.pos == 0
      ensures this.conn == conn && Valid()
      ensures See() == View(true, [], conn.input, |conn.input|)
    {
      this.conn := conn;
      buf := [];
      active := Tee;
    }

    method Read(limit: nat) returns (chunk: seq<byte>, ended: bool)
      requires Valid() && limit > 0
      modifies this, conn
      ensures Valid() && Advanced(old(See()), chunk, See())
      ensures |chunk| <= limit
      ensures chunk == [] ==> ended
      ensures ended ==> See().remaining == []
    {
      match active {
        case Tee =>
          chunk, ended := conn.Read(limit);
          buf := buf + chunk;
          assert conn.pos == |buf| && buf == conn.input[..|buf|];
        case Replay(rest) =>
          if rest != [] {
            var n := Min(limit, |rest|);
            chunk, ended := rest[..n], false;
            active := Replay(rest[n..]);
            assert rest[n..] == buf[|buf| - |rest[n..]|..];
            assert rest + conn.Remaining() == chunk + (rest[n..] + conn.Remaining());
          } else {
            chunk, ended := conn.Read(limit);
            assert [] + conn.Remaining() == conn.Remaining();
          }
      }
    }

    method Rewind()
      requires Valid()
      modifies this
      ensures Valid() && See() == Rewound(old(See()), conn.input)
    {
      if |buf| == 0 {
        return;
      }
      active := Replay(buf);
    }
  }

  /** `io.ReadFull` and `io.CopyN`: exactly `n` bytes, or everything there was and a failure. */
  method ReadExactly(r: ConnRewind, n: nat) returns (data: seq<byte>, ok: bool)
    requires r.Valid()
    modifies r, r.conn
    ensures r.Valid() && Advanced(old(r.See()), data, r.See())
    ensures ok <==> n <= |old(r.See()).remaining|
    ensures if ok then |data| == n else r.See().remaining == []
  {
    ghost var start := r.See();
    data := [];
    var ended := false;
    while |data| < n && !ended
      invariant r.Valid() && Advanced(start, data, r.See())
      invariant |data| <= n
      invariant ended ==> r.See().remaining == []
      decreases n - |data|, !ended
    {
      ghost var before := r.See();
      var chunk;
      chunk, ended := r.Read(n - |data|);
      AdvancedTwice(start, data, before, chunk, r.See());
      data := data + chunk;
    }
    ok := |data| == n;
  }
}
