/**
 The parsers of mtglib/internal/tls/fake/client_side.go on byte buffers, proved to
 compute the grammar.
 */
module HelloParser {
  import opened Bytes
  import opened Fragments
  import opened HelloGrammar

  /** A `bytes.Buffer`: the unread bytes are a window of its array. */
  class Buffer {
    var data: array<byte>
    var off: nat
    var end: nat
    ghost var unread: seq<byte>

    ghost predicate Valid()
      reads this, data
    {
      off <= end <= data.Length && unread == data[off..end]
    }

    constructor (s: seq<byte>)
      ensures Valid() && fresh(data) && unread == s
    {
      data := new byte[|s|](i requires 0 <= i < |s| => s[i]);
      off, end := 0, |s|;
      unread := s;
    }

    function Len(): (n: nat)
      reads this, data
      requires Valid()
      ensures n == |unread|
    {
      end - off
    }

    /** The next bytes as a slice of the array, `data[lo..hi]`; fewer if there are fewer. */
    method Next(n: nat) returns (lo: nat, hi: nat)
      requires Valid()
      modifies this`off, this`unread
      ensures Valid() && lo <= hi <= data.Length && hi - lo == Min(n, |old(unread)|)
      ensures data[lo..hi] == old(unread)[..hi - lo] && unread == old(unread)[hi - lo..]
    {
      lo := off;
      hi := off + Min(n, Len());
      off, unread := hi, unread[hi - lo..];
    }

    /** `io.ReadFull` on the buffer. */
    method ReadFull(n: nat) returns (s: seq<byte>, ok: bool)
      requires Valid()
      modifies this`off, this`unread
      ensures Valid() && (ok <==> n <= |old(unread)|)
      ensures ok ==> s == old(unread)[..n] && unread == old(unread)[n..]
    {
      var lo, hi := Next(n);
      s, ok := data[lo..hi], hi - lo == n;
    }

    /** `Reset`, then `Write` of a slice of the buffer's own array: copied upwards, in place. */
    method Rewrite(lo: nat, hi: nat)
      requires Valid() && lo <= hi <= data.Length
      modifies this`off, this`end, this`unread, data
      ensures Valid() && unread == old(data[lo..hi])
    {
      for i := 0 to hi - lo
        invariant forall k :: 0 <= k < i ==> data[k] == old(data[lo + k])
        invariant forall k :: lo + i <= k < data.Length ==> data[k] == old(data[k])
      {
        data[i] := data[lo + i];
      }
      off, end, unread := 0, hi - lo, data[..hi - lo];
    }
  }

  lemma {:induction false} FirstUsableSnoc(ss: seq<u16>, x: u16)
    ensures FirstUsable(ss + [x]) ==
            if FirstUsable(ss) != 0 then FirstUsable(ss) else if Usable(x) then x else 0
  {
    if ss == [] {
      assert [] + [x] == [x];
    } else {
      assert (ss + [x])[1..] == ss[1..] + [x];
      FirstUsableSnoc(ss[1..], x);
    }
  }

  lemma SuitesSnoc(b: seq<byte>, i: nat)
    requires 2 * i + 2 <= |b|
    ensures Suites(b[..2 * (i + 1)]) == Suites(b[..2 * i]) + [GetU16(b[2 * i], b[2 * i + 1])]
  {
    hide GetU16;
  }

  /** The suite list is read to its end whatever is found in it. */
  method ParseSuites(r: Buffer, count: nat) returns (suite: u16, ok: bool)
    requires r.Valid()
    modifies r`off, r`unread
    ensures r.Valid() && (ok <==> 2 * count <= |old(r.unread)|)
    ensures ok ==> suite == FirstUsable(Suites(old(r.unread)[..2 * count]))
    ensures ok ==> r.unread == old(r.unread)[2 * count..]
  {
    ghost var b := r.unread;
    suite := 0;
    assert Suites(b[..0]) == [] && FirstUsable([]) == 0;
    hide Buffer.Valid, FirstUsable, Suites, GetU16;
    for i := 0 to count
      invariant r.Valid() && 2 * i <= |b| && r.unread == b[2 * i..]
      invariant suite == FirstUsable(Suites(b[..2 * i]))
    {
      var entry;
      entry, ok := r.ReadFull(2);
      if !ok {
        return;
      }
      assert entry == b[2 * i..2 * i + 2];
      SuitesSnoc(b, i);
      FirstUsableSnoc(Suites(b[..2 * i]), GetU16(entry[0], entry[1]));
      if suite != 0 {
        continue;
      }
      var cs := GetU16(entry[0], entry[1]);
      if GreaseBits(cs) != 0x0a0a {
        suite := cs;
      }
    }
    ok := true;
  }

  method ParseHandshake(r: Buffer) returns (result: Result<ClientHello, HelloError>)
    requires r.Valid()
    modifies r`off, r`unread
    ensures r.Valid()
    ensures match Handshake(old(r.unread))
            case Err(e) => result == Err(e)
            case Ok(p) => result == Ok(p.hello) && r.unread == p.rest
  {
    hide Buffer.Valid, Ciphers;
    ghost var b := r.unread;
    var header, ok := r.ReadFull(2);
    if !ok {
      return Err(ReadFailed);
    }
    var random;
    random, ok := r.ReadFull(RANDOM_LEN);
    if !ok {
      return Err(ReadFailed);
    }
    assert random == b[2..34] && r.unread == b[34..];
    header, ok := r.ReadFull(1);
    if !ok {
      return Err(ReadFailed);
    }
    var sid: nat := header[0];
    assert sid == b[34] && r.unread == b[35..];
    var sessionID;
    sessionID, ok := r.ReadFull(sid);
    if !ok {
      return Err(ReadFailed);
    }
    assert sessionID == b[35..35 + sid] && r.unread == b[35 + sid..];
    var suite := ParseCiphers(r);
    match suite {
      case Err(e) => result := Err(e);
      case Ok(cs) => result := Ok(ClientHello(random, sessionID, cs));
    }
  }

  method ParseCiphers(r: Buffer) returns (result: Result<u16, HelloError>)
    requires r.Valid()
    modifies r`off, r`unread
    ensures r.Valid()
    ensures match Ciphers(old(r.unread))
            case Err(e) => result == Err(e)
            case Ok(c) => result == Ok(c.suite) && r.unread == c.rest
  {
    hide Buffer.Valid, FirstUsable, Suites;
    ghost var c := r.unread;
    var header, ok := r.ReadFull(2);
    if !ok {
      return Err(ReadFailed);
    }
    assert header[0] == c[0] && header[1] == c[1];
    var suite, count: nat := 0, GetU16(header[0], header[1]) / 2;
    hide GetU16;
    suite, ok := ParseSuites(r, count);
    if !ok {
      return Err(ReadFailed);
    }
    ghost var d := r.unread;
    assert c[2..][..2 * count] == c[2..2 + 2 * count] && d == c[2 + 2 * count..];
    if suite == 0 {
      return Err(CannotFindCipher);
    }
    header, ok := r.ReadFull(1);
    if !ok {
      return Err(ReadFailed);
    }
    var compression: nat := header[0];
    header, ok := r.ReadFull(compression);
    if !ok {
      return Err(ReadFailed);
    }
    assert r.unread == d[1..][compression..] == Skipped(d);
    result := Ok(suite);
  }

  /** The names after the list type. */
  method ParseNames(buf: Buffer) returns (result: Result<seq<Name>, HelloError>)
    requires buf.Valid()
    modifies buf`off, buf`unread
    ensures result == Names(old(buf.unread))
  {
    hide Buffer.Valid, GetU16;
    ghost var start := buf.unread;
    var names := [];
    assert forall more: seq<Name> :: [] + more == more;
    while buf.Len() > 0
      invariant buf.Valid()
      invariant Names(start) == match Names(buf.unread)
                                case Err(e) => Err(e)
                                case Ok(more) => Ok(names + more)
      decreases buf.Len()
    {
      ghost var d := buf.unread;
      var field, ok := buf.ReadFull(2);
      if !ok {
        return Err(BadServerName);
      }
      var length := GetU16(field[0], field[1]);
      assert length == GetU16(d[0], d[1]);
      var name;
      name, ok := buf.ReadFull(length);
      if !ok {
        return Err(BadServerName);
      }
      assert name == d[2..2 + length] && buf.unread == d[2 + length..];
      if Names(buf.unread).Ok? {
        assert (names + [name]) + Names(buf.unread).value == names + ([name] + Names(buf.unread).value);
      }
      names := names + [name];
    }
    assert names + [] == names;
    result := Ok(names);
  }

  /** The data of the server name extension, already at the front of the buffer. */
  method ParseNameList(buf: Buffer) returns (result: Result<seq<Name>, HelloError>)
    requires buf.Valid()
    modifies buf`off, buf`unread
    ensures result == NameList(old(buf.unread))
  {
    hide Buffer.Valid, Names;
    ghost var d := buf.unread;
    var lo, hi := buf.Next(2);
    if hi - lo != 2 {
      return Err(BadServerName);
    }
    assert buf.data[lo] == d[0] && buf.data[lo + 1] == d[1];
    if GetU16(buf.data[lo], buf.data[lo + 1]) == 0 {
      return Ok([]);
    }
    lo, hi := buf.Next(1);
    if lo == hi {
      return Err(BadServerName);
    }
    assert buf.data[lo] == d[2] && buf.unread == d[3..];
    if buf.data[lo] != 0 {
      return Err(BadListType(buf.data[lo]));
    }
    result := ParseNames(buf);
  }

  method ParseSNI(r: Buffer) returns (result: Result<seq<Name>, HelloError>)
    requires r.Valid()
    modifies r`off, r`unread
    ensures result == Extensions(old(r.unread))
  {
    hide Buffer.Valid, ServerNames;
    ghost var b := r.unread;
    var header, ok := r.ReadFull(2);
    if !ok {
      return Err(ReadFailed);
    }
    assert r.unread == b[2..] && header == b[..2];
    var exts;
    exts, ok := r.ReadFull(GetU16(header[0], header[1]));
    if !ok {
      return Err(ReadFailed);
    }
    assert exts == b[2..2 + |exts|];
    var buf := new Buffer(exts);
    result := ScanExtensions(buf);
  }

  /** One extension: its type, and its data as a slice of the buffer's array. */
  method NextExtension(buf: Buffer) returns (ok: bool, kind: u16, lo: nat, hi: nat)
    requires buf.Valid()
    modifies buf`off, buf`unread
    ensures buf.Valid()
    ensures var d := old(buf.unread);
            ok <==> |d| >= 4 && |d| >= 4 + GetU16(d[2], d[3])
    ensures var d := old(buf.unread);
            ok ==> && lo <= hi <= buf.data.Length
                   && kind == GetU16(d[0], d[1]) && hi - lo == GetU16(d[2], d[3])
                   && buf.data[lo..hi] == d[4..4 + (hi - lo)] && buf.unread == d[4 + (hi - lo)..]
  {
    hide Buffer.Valid, GetU16;
    ghost var d := buf.unread;
    kind, lo, hi := 0, 0, 0;
    var field;
    field, ok := buf.ReadFull(2);
    if !ok {
      return;
    }
    kind := GetU16(field[0], field[1]);
    assert kind == GetU16(d[0], d[1]);
    field, ok := buf.ReadFull(2);
    if !ok {
      return;
    }
    var length := GetU16(field[0], field[1]);
    assert length == GetU16(d[2], d[3]);
    assert buf.unread == d[4..];
    lo, hi := buf.Next(length);
    ok := hi - lo == length;
  }

  /** The loop over the extension block. */
  method ScanExtensions(buf: Buffer) returns (result: Result<seq<Name>, HelloError>)
    requires buf.Valid()
    modifies buf, buf.data
    ensures result == ServerNames(old(buf.unread))
  {
    hide Buffer.Valid, NameList;
    ghost var start := buf.unread;
    while buf.Len() > 0
      invariant buf.Valid() && buf.data == old(buf.data)
      invariant ServerNames(start) == ServerNames(buf.unread)
      decreases |buf.unread|
    {
      var ok, kind, lo, hi := NextExtension(buf);
      if !ok {
        return Err(BadExtension);
      }
      if kind != EXT_TYPE_SNI {
        continue;
      }
      buf.Rewrite(lo, hi);
      result := ParseNameList(buf);
      return;
    }
    result := Ok([]);
  }
}
