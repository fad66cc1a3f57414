/**
 Reassembly does not depend on how a message was split into records, and accepts
 nothing but split messages.
 */
module FragmentSplits {
  import opened Bytes
  import opened Fragments

  /** The payload of a record, whose length field has 16 bits. */
  type Payload = p: seq<byte> | |p| < 0x1_0000

  function EncodeRecord(p: Payload): (s: seq<byte>) {
    [TYPE_HANDSHAKE, 3, 1] + PutU16(|p|) + p
  }

  function Encode(rs: seq<Payload>): (s: seq<byte>) {
    if rs == [] then [] else EncodeRecord(rs[0]) + Encode(rs[1..])
  }

  /** How many of the records, empty ones counted, hold the first `n` payload bytes. */
  function Needed(rs: seq<Payload>, n: int): (k: nat)
    ensures k <= |rs|
  {
    if n <= 0 || rs == [] then 0 else 1 + Needed(rs[1..], n - |rs[0]|)
  }

  lemma NextOfEncoded(p: Payload, tail: seq<byte>)
    ensures NextFragment(EncodeRecord(p) + tail) == Got(p, tail)
  {
    hide PutU16, GetU16;
    var raw := EncodeRecord(p) + tail;
    U16Front(|p|, p + tail);
    assert raw[3..] == PutU16(|p|) + (p + tail);
    assert raw[3] == raw[3..][0] && raw[4] == raw[3..][1];
    assert raw[5..5 + |p|] == p;
    assert raw[5 + |p|..] == tail;
  }

  /** Two pulls in a row are one pull. */
  lemma {:induction false} PullTwice(f: Reader, m: nat, n: nat)
    requires f.used <= MAX_FRAGMENTS_COUNT + 1
    ensures Pull(f, m + n) ==
            match Pull(f, m)
            case NoMore(e, rest) => NoMore(e, rest)
            case Pulled(data, next) => Prepend(data, Pull(next, n))
    decreases MAX_FRAGMENTS_COUNT + 1 - f.used
  {
    hide Refill;
    if m <= |f.buf| {
      PullPart(f, m, m + n);
    } else if Refill(f).Ok? {
      var g := Refill(f).value;
      PullTwice(g, m - |f.buf|, n);
      assert m + n - |f.buf| == (m - |f.buf|) + n;
      var p := Pull(g, m - |f.buf|);
      if p.Pulled? {
        PrependTwice(f.buf, p.data, Pull(p.next, n));
      }
    }
  }

  lemma EncodeNone()
    ensures Encode([]) == [] && Concat([]) == []
  {
  }

  lemma EncodeCons(p: Payload, more: seq<Payload>)
    ensures Encode([p] + more) == EncodeRecord(p) + Encode(more) && Concat([p] + more) == p + Concat(more)
  {
    assert ([p] + more)[1..] == more;
  }

  lemma RefillEncoded(p: Payload, more: seq<Payload>, tail: seq<byte>, buf: seq<byte>, used: nat)
    requires used <= MAX_FRAGMENTS_COUNT
    ensures Refill(Reader(Encode([p] + more) + tail, buf, used)) == Ok(Reader(Encode(more) + tail, p, used + 1))
  {
    hide NextFragment, EncodeRecord, Encode;
    EncodeCons(p, more);
    Regroup(EncodeRecord(p), Encode(more), tail);
    NextOfEncoded(p, Encode(more) + tail);
  }

  lemma CapReached(raw: seq<byte>, buf: seq<byte>, used: nat)
    requires used <= MAX_FRAGMENTS_COUNT + 1
    ensures used > MAX_FRAGMENTS_COUNT ==> Refill(Reader(raw, buf, used)) == Err(Failed(TooManyFragments, raw))
  {
  }

  /** What a pull from encoded records returns, and when the cap stops it. */
  lemma {:induction false} PullEncoded(rs: seq<Payload>, tail: seq<byte>, buf: seq<byte>, used: nat, n: nat)
    requires used <= MAX_FRAGMENTS_COUNT + 1 && n <= |buf| + |Concat(rs)|
    ensures var k := Needed(rs, n - |buf|);
            var p := Pull(Reader(Encode(rs) + tail, buf, used), n);
            if used + k <= MAX_FRAGMENTS_COUNT + 1
            then p.Pulled? && p.data == (buf + Concat(rs))[..n] && p.next.raw == Encode(rs[k..]) + tail
            else p.NoMore? && p.error == TooManyFragments
    decreases |rs|
  {
    hide Refill, EncodeRecord, Encode, Concat;
    EncodeNone();
    CapReached(Encode(rs) + tail, buf, used);
    if n <= |buf| {
      assert (buf + Concat(rs))[..n] == buf[..n];
      assert rs[0..] == rs;
    } else if used <= MAX_FRAGMENTS_COUNT {
      var p, more := rs[0], rs[1..];
      assert rs == [p] + more;
      EncodeCons(p, more);
      RefillEncoded(p, more, tail, buf, used);
      PullEncoded(more, tail, p, used + 1, n - |buf|);
      var k := Needed(more, n - |buf| - |p|);
      assert more[k..] == rs[1 + k..];
      var all := p + Concat(more);
      assert (buf + all)[..n] == buf + all[..n - |buf|];
    }
  }

  /** Reassembly is one pull of a whole message, if the first four bytes are those of the message. */
  lemma ReassembleByPull(raw: seq<byte>, body: seq<byte>)
    requires |body| < 0x100_0000
    requires var head := Pull(Reader(raw, [], 0), 4); head.Pulled? ==> head.data == Message(body)[..4]
    ensures match Pull(Reader(raw, [], 0), |Message(body)|)
            case NoMore(e, rest) => Reassemble(raw) == Failed(e, rest)
            case Pulled(m, next) =>
              m == Message(body) ==> Reassemble(raw) == Got(Hello(Reconstruct(body), body), next.raw)
  {
    hide Pull, PutU24, GetU24, Reconstruct;
    U24RoundTrip(|body|);
    var f := Reader(raw, [], 0);
    PullTwice(f, 4, |body|);
    var head := Pull(f, 4);
    if head.Pulled? {
      var m := Message(body);
      assert head.data[1..] == PutU24(|body|);
      assert forall i :: 0 <= i < 3 ==> head.data[i + 1] == head.data[1..][i];
      var last := Pull(head.next, |body|);
      if last.Pulled? && head.data + last.data == m {
        assert last.data == m[4..] == body;
      }
    }
  }

  /**
   Every split of a message into records is reassembled to the same two buffers,
   whatever follows, if and only if the message ends within eleven records.
   */
  lemma FragmentationInvariance(body: seq<byte>, rs: seq<Payload>, tail: seq<byte>)
    requires |body| < 0x100_0000 && Message(body) <= Concat(rs)
    ensures var k := Needed(rs, |Message(body)|);
            var t := Reassemble(Encode(rs) + tail);
            if k <= 11
            then t == Got(Hello(Reconstruct(body), body), Encode(rs[k..]) + tail)
            else t.Failed? && t.error == TooManyFragments
  {
    var m := Message(body);
    assert |m| >= 4;
    hide Pull, Reassemble, Message, Encode, Concat, Needed, Reconstruct;
    assert [] + Concat(rs) == Concat(rs);
    PullEncoded(rs, tail, [], 0, |m|);
    PullEncoded(rs, tail, [], 0, 4);
    assert Concat(rs)[..|m|] == m;
    assert Concat(rs)[..4] == m[..4];
    ReassembleByPull(Encode(rs) + tail, body);
  }

  /**
   Up to eleven records always suffice, and the result is that of the same message
   sent in one record, whose bytes are the reconstructed copy.
   */
  lemma SplitsAgree(body: seq<byte>, rs: seq<Payload>, tail: seq<byte>)
    requires |body| <= 65531 && Concat(rs) == Message(body) && |rs| <= 11
    ensures Reassemble(Encode(rs) + tail)
         == Got(Hello(Reconstruct(body), body), Encode(rs[Needed(rs, |Message(body)|)..]) + tail)
    ensures Reassemble(Reconstruct(body) + tail) == Got(Hello(Reconstruct(body), body), tail)
  {
    hide Reassemble, Reconstruct, Message, Encode, EncodeRecord, Needed, Concat;
    ReconstructIsRecord(body);
    var m: Payload := Message(body);
    OneRecord(m);
    FragmentationInvariance(body, rs, tail);
    FragmentationInvariance(body, [m], tail);
    assert [] + tail == tail;
  }

  lemma OneRecord(m: Payload)
    requires m != []
    ensures Encode([m]) == EncodeRecord(m) && Concat([m]) == m
    ensures Needed([m], |m|) == 1 && Encode([m][1..]) == []
  {
    assert [m][1..] == [];
    assert EncodeRecord(m) + [] == EncodeRecord(m);
    ConcatOne(m);
  }

  /** The bytes of a record, and of the copy that is digested. */
  lemma WireBytes(p: Payload, body: seq<byte>)
    requires |body| <= 65531
    ensures EncodeRecord(p) == [0x16, 3, 1, |p| / 0x100, |p| % 0x100] + p
    ensures Reconstruct(body) == [0x16, 3, 1, (|body| + 4) / 0x100, (|body| + 4) % 0x100,
                                  1, 0, |body| / 0x100, |body| % 0x100] + body
  {
    hide PutU16, PutU24;
    U16Bytes(|p|);
    U16Bytes(|body| + 4);
    U24Bytes(|body|);
  }

  lemma ReconstructIsRecord(body: seq<byte>)
    requires |body| <= 65531
    ensures |Message(body)| == 4 + |body| < 0x1_0000
    ensures Reconstruct(body) == EncodeRecord(Message(body))
  {
  }

  /** Above 65531 body bytes the reconstructed length field no longer holds the message length. */
  lemma ReconstructedLength(body: seq<byte>)
    requires |body| < 0x100_0000
    ensures var copy := Reconstruct(body);
            GetU16(copy[3], copy[4]) == |Message(body)| <==> |body| <= 65531
  {
    var v: u16 := (4 + |body|) % 0x1_0000;
    U16RoundTrip(v);
    var copy := Reconstruct(body);
    assert copy[3] == PutU16(v)[0] && copy[4] == PutU16(v)[1];
  }

  lemma U16Unique(hi: byte, lo: byte)
    ensures PutU16(GetU16(hi, lo)) == [hi, lo]
  {
  }

  lemma FragmentSound(raw: seq<byte>)
    requires NextFragment(raw).Got?
    ensures |NextFragment(raw).value| < 0x1_0000
    ensures raw == EncodeRecord(NextFragment(raw).value) + NextFragment(raw).rest
  {
    hide PutU16, GetU16;
    var p, rest := NextFragment(raw).value, NextFragment(raw).rest;
    U16Unique(raw[3], raw[4]);
    assert raw[..5] == [TYPE_HANDSHAKE, 3, 1] + PutU16(|p|);
    assert raw == raw[..5] + p + rest;
  }

  lemma {:induction false} PullSound(f: Reader, n: nat) returns (rs: seq<Payload>)
    requires f.used <= MAX_FRAGMENTS_COUNT + 1 && Pull(f, n).Pulled?
    ensures var p := Pull(f, n);
            && f.raw == Encode(rs) + p.next.raw
            && f.buf + Concat(rs) == p.data + p.next.buf
            && |rs| == p.next.used - f.used
    decreases MAX_FRAGMENTS_COUNT + 1 - f.used
  {
    hide NextFragment, EncodeRecord, Encode, Concat;
    EncodeNone();
    if n <= |f.buf| {
      rs := [];
      assert f.buf[..n] + f.buf[n..] == f.buf;
    } else {
      var g := Refill(f).value;
      FragmentSound(f.raw);
      var more := PullSound(g, n - |f.buf|);
      rs := [g.buf] + more;
      var p := Pull(g, n - |f.buf|);
      EncodeCons(g.buf, more);
      Regroup(EncodeRecord(g.buf), Encode(more), p.next.raw);
      Regroup(f.buf, p.data, p.next.buf);
    }
  }

  /** Nothing else is accepted: the bytes taken are at most eleven records that begin with the message. */
  lemma ReassembleSound(raw: seq<byte>) returns (rs: seq<Payload>)
    requires Reassemble(raw).Got?
    ensures var t := Reassemble(raw);
            && |t.value.body| < 0x100_0000
            && raw == Encode(rs) + t.rest
            && Message(t.value.body) <= Concat(rs)
            && |rs| <= 11
            && t.value.copy == Reconstruct(t.value.body)
  {
    var body := Reassemble(raw).value.body;
    var f := Reader(raw, [], 0);
    MessagePulled(raw);
    rs := PullSound(f, |Message(body)|);
    assert [] + Concat(rs) == Concat(rs);
  }

  lemma MessagePulled(raw: seq<byte>)
    requires Reassemble(raw).Got?
    ensures var t := Reassemble(raw);
            && |t.value.body| < 0x100_0000
            && var p := Pull(Reader(raw, [], 0), |Message(t.value.body)|);
               p.Pulled? && p.data == Message(t.value.body) && p.next.raw == t.rest
  {
    hide Refill;
    var f := Reader(raw, [], 0);
    var head := Pull(f, 4);
    var h := head.data;
    var body := Pull(head.next, GetU24(h[1], h[2], h[3])).data;
    U24Unique(h[1], h[2], h[3]);
    assert h == [h[0]] + [h[1], h[2], h[3]];
    assert h + body == Message(body);
    PullTwice(f, 4, |body|);
  }
}
