/**
 The grammar of a ClientHello body (sections 4.1.2 of RFC 8446, 3 of RFC 6066 and
 2 of RFC 8701) as positional functions, and what it says of well-formed input.
 */
module HelloGrammar {
  import opened Bytes
  import opened Fragments

  const RANDOM_LEN := 32
  const EXT_TYPE_SNI := 0

  datatype ClientHello = ClientHello(random: seq<byte>, sessionID: seq<byte>, cipherSuite: u16)

  datatype Parsed = Parsed(hello: ClientHello, rest: seq<byte>)

  type Name = seq<byte>

  // ----- cipher suites

  /** `cs & 0x0f0f`. */
  function GreaseBits(cs: u16): u16 {
    cs / 0x100 % 0x10 * 0x100 + cs % 0x10
  }

  predicate Usable(cs: u16) {
    cs != 0 && GreaseBits(cs) != 0x0a0a
  }

  function Suites(list: seq<byte>): (ss: seq<u16>)
    ensures |ss| == |list| / 2
  {
    seq(|list| / 2, i requires 0 <= i < |list| / 2 => GetU16(list[2 * i], list[2 * i + 1]))
  }

  /** The first usable suite; zero if there is none. */
  function FirstUsable(ss: seq<u16>): (cs: u16) {
    if ss == [] then 0
    else if Usable(ss[0]) then ss[0]
    else FirstUsable(ss[1..])
  }

  /** Zero exactly if no suite is usable, otherwise the usable one that no usable one precedes. */
  lemma {:induction false} FirstUsableIsFirst(ss: seq<u16>)
    ensures FirstUsable(ss) == 0 <==> forall i :: 0 <= i < |ss| ==> !Usable(ss[i])
    ensures FirstUsable(ss) != 0 ==> exists i :: 0 <= i < |ss| && ss[i] == FirstUsable(ss) && Usable(ss[i])
                                                 && forall j :: 0 <= j < i ==> !Usable(ss[j])
  {
    if ss != [] && !Usable(ss[0]) {
      var more := ss[1..];
      FirstUsableIsFirst(more);
      assert forall j :: 1 <= j < |ss| ==> ss[j] == more[j - 1];
      if FirstUsable(ss) != 0 {
        var i :| 0 <= i < |more| && more[i] == FirstUsable(ss) && Usable(more[i])
                 && forall j :: 0 <= j < i ==> !Usable(more[j]);
        assert ss[i + 1] == FirstUsable(ss);
      }
    }
  }

  /** The values that section 2 of RFC 8701 reserves: 0x0a0a, 0x1a1a and so on to 0xfafa. */
  function Grease(k: nat): (cs: u16)
    requires k < 0x10
  {
    GetU16(k * 0x10 + 0x0a, k * 0x10 + 0x0a)
  }

  predicate Reserved(cs: u16) {
    exists k :: 0 <= k < 0x10 && Grease(k) == cs
  }

  lemma GreaseMasked(k: nat)
    requires k < 0x10
    ensures !Usable(Grease(k)) && Grease(k) / 0x100 == Grease(k) % 0x100
  {
    var v := k * 0x10 + 0x0a;
    assert Grease(k) / 0x100 == v && Grease(k) % 0x100 == v;
  }

  /** Every reserved value is masked out, and a masked value is reserved exactly if its two bytes are the same. */
  lemma MaskedExactly(cs: u16)
    ensures Reserved(cs) ==> !Usable(cs)
    ensures cs != 0 && !Usable(cs) ==> (Reserved(cs) <==> cs / 0x100 == cs % 0x100)
  {
    if k :| 0 <= k < 0x10 && Grease(k) == cs {
      GreaseMasked(k);
    } else if cs != 0 && !Usable(cs) && cs / 0x100 == cs % 0x100 {
      MaskedTwin(cs);
    }
  }

  lemma MaskedTwin(cs: u16)
    requires cs != 0 && !Usable(cs) && cs / 0x100 == cs % 0x100
    ensures Grease(cs / 0x1000) == cs
  {
    var v := cs % 0x100;
    assert v % 0x10 == 0x0a;
    assert v == v / 0x10 * 0x10 + 0x0a && cs / 0x1000 == v / 0x10;
  }

  /** The suite a server that follows RFC 8701 would settle on: the first that is neither zero nor reserved. */
  function FirstUnreserved(ss: seq<u16>): (cs: u16) {
    if ss == [] then 0
    else if ss[0] != 0 && !Reserved(ss[0]) then ss[0]
    else FirstUnreserved(ss[1..])
  }

  /** The parser settles on that suite if and only if there is none or it is not masked. */
  lemma {:induction false} MaskIsWider(ss: seq<u16>)
    ensures FirstUsable(ss) == FirstUnreserved(ss) <==> FirstUnreserved(ss) == 0 || Usable(FirstUnreserved(ss))
  {
    if ss != [] {
      MaskedExactly(ss[0]);
      MaskIsWider(ss[1..]);
      FirstUsableIsFirst(ss);
    }
  }

  /** A suite that the parser drops although it is not reserved. */
  lemma DropsUnreserved()
    ensures FirstUnreserved([0x1a2a, 0x1301]) == 0x1a2a && FirstUsable([0x1a2a, 0x1301]) == 0x1301
  {
    assert [0x1a2a, 0x1301][1..] == [0x1301];
  }

  // ----- the fixed part

  datatype Chosen = Chosen(suite: u16, rest: seq<byte>)

  /** The suite list and the compression methods: the suite, and the bytes after them. */
  function Ciphers(c: seq<byte>): (r: Result<Chosen, HelloError>) {
    if |c| < 2 then Err(ReadFailed)
    else
      var n: int := GetU16(c[0], c[1]) / 2 * 2;
      if |c| < 2 + n then Err(ReadFailed)
      else
        var suite := FirstUsable(Suites(c[2..2 + n]));
        if suite == 0 then Err(CannotFindCipher)
        else if !Skippable(c[2 + n..]) then Err(ReadFailed)
        else Ok(Chosen(suite, Skipped(c[2 + n..])))
  }

  /** A field behind a one-byte length. */
  predicate Skippable(d: seq<byte>) {
    |d| > 0 && |d| > d[0]
  }

  function Skipped(d: seq<byte>): (rest: seq<byte>)
    requires Skippable(d)
  {
    var n: int := d[0];
    d[1 + n..]
  }

  /** Version, random and session id, then the suites: the hello, and the bytes from the extensions on. */
  function Handshake(b: seq<byte>): (r: Result<Parsed, HelloError>) {
    if |b| < 35 then Err(ReadFailed)
    else
      var sid: int := b[34];
      if |b| < 35 + sid then Err(ReadFailed)
      else match Ciphers(b[35 + sid..])
        case Err(e) => Err(e)
        case Ok(c) => Ok(Parsed(ClientHello(b[2..34], b[35..35 + sid], c.suite), c.rest))
  }

  // ----- extensions

  function Names(d: seq<byte>): (r: Result<seq<Name>, HelloError>) {
    if d == [] then Ok([])
    else if |d| < 2 then Err(BadServerName)
    else
      var n: int := GetU16(d[0], d[1]);
      if |d| < 2 + n then Err(BadServerName)
      else match Names(d[2 + n..])
        case Err(e) => Err(e)
        case Ok(more) => Ok([d[2..2 + n]] + more)
  }

  /** The data of a server name extension. */
  function NameList(d: seq<byte>): (r: Result<seq<Name>, HelloError>) {
    if |d| < 2 then Err(BadServerName)
    else if GetU16(d[0], d[1]) == 0 then Ok([])
    else if |d| < 3 then Err(BadServerName)
    else if d[2] != 0 then Err(BadListType(d[2]))
    else Names(d[3..])
  }

  /** The extension block: the first extension of type 0 decides. */
  function ServerNames(exts: seq<byte>): (r: Result<seq<Name>, HelloError>) {
    if exts == [] then Ok([])
    else if |exts| < 4 then Err(BadExtension)
    else
      var n: int := GetU16(exts[2], exts[3]);
      if |exts| < 4 + n then Err(BadExtension)
      else if GetU16(exts[0], exts[1]) == EXT_TYPE_SNI then NameList(exts[4..4 + n])
      else ServerNames(exts[4 + n..])
  }

  function Extensions(b: seq<byte>): (r: Result<seq<Name>, HelloError>) {
    if |b| < 2 then Err(ReadFailed)
    else
      var n: int := GetU16(b[0], b[1]);
      if |b| < 2 + n then Err(ReadFailed) else ServerNames(b[2..2 + n])
  }

  // ----- what the grammar says of encoded extensions

  datatype Extension = Extension(kind: u16, data: FieldBytes)

  /** Bytes that fit a 16-bit length field. */
  type FieldBytes = s: seq<byte> | |s| < 0x1_0000

  function EncodeExtension(e: Extension): (s: seq<byte>) {
    PutU16(e.kind) + PutU16(|e.data|) + e.data
  }

  function EncodeExtensions(es: seq<Extension>): (s: seq<byte>) {
    if es == [] then [] else EncodeExtension(es[0]) + EncodeExtensions(es[1..])
  }

  lemma ExtensionParts(e: Extension, tail: seq<byte>)
    ensures var all := EncodeExtension(e) + tail;
            var n := |e.data|;
            && |all| == 4 + n + |tail|
            && GetU16(all[0], all[1]) == e.kind && GetU16(all[2], all[3]) == n
            && all[4..4 + n] == e.data && all[4 + n..] == tail
  {
    hide PutU16, GetU16;
    var n := |e.data|;
    U16Front(e.kind, PutU16(n) + (e.data + tail));
    U16Front(n, e.data + tail);
    var all := EncodeExtension(e) + tail;
    assert all == PutU16(e.kind) + (PutU16(n) + (e.data + tail));
    assert all[2..] == PutU16(n) + (e.data + tail);
    assert all[2] == all[2..][0] && all[3] == all[2..][1];
    assert all[4..] == all[2..][2..] == e.data + tail;
    assert all[4..4 + n] == all[4..][..n] && all[4 + n..] == all[4..][n..];
  }

  /** One step over an encoded extension, whatever follows it. */
  lemma StepExtension(e: Extension, tail: seq<byte>)
    ensures ServerNames(EncodeExtension(e) + tail)
         == if e.kind == EXT_TYPE_SNI then NameList(e.data) else ServerNames(tail)
  {
    hide NameList, EncodeExtension, PutU16, GetU16;
    ExtensionParts(e, tail);
  }

  /** Nothing after the first server name extension matters, not even whether it is well formed. */
  lemma {:induction false} FirstServerNameDecides(es: seq<Extension>, data: FieldBytes, tail: seq<byte>)
    requires forall i :: 0 <= i < |es| ==> es[i].kind != EXT_TYPE_SNI
    ensures ServerNames(EncodeExtensions(es) + (EncodeExtension(Extension(EXT_TYPE_SNI, data)) + tail))
         == NameList(data)
  {
    hide ServerNames, NameList, EncodeExtension;
    var rest := EncodeExtension(Extension(EXT_TYPE_SNI, data)) + tail;
    if es == [] {
      assert [] + rest == rest;
      StepExtension(Extension(EXT_TYPE_SNI, data), tail);
    } else {
      var first, more := EncodeExtension(es[0]), EncodeExtensions(es[1..]);
      assert (first + more) + rest == first + (more + rest);
      StepExtension(es[0], more + rest);
      FirstServerNameDecides(es[1..], data, tail);
    }
  }

  /** Without a server name extension there are no names. */
  lemma {:induction false} NoServerName(es: seq<Extension>)
    requires forall i :: 0 <= i < |es| ==> es[i].kind != EXT_TYPE_SNI
    ensures ServerNames(EncodeExtensions(es)) == Ok([])
  {
    if es != [] {
      StepExtension(es[0], EncodeExtensions(es[1..]));
      NoServerName(es[1..]);
    }
  }

  // ----- server name lists of RFC 6066

  /** Section 3 of RFC 6066: every entry of the list carries its own name type. */
  function EncodeEntries(names: seq<FieldBytes>): (s: seq<byte>) {
    if names == [] then [] else [0] + PutU16(|names[0]|) + names[0] + EncodeEntries(names[1..])
  }

  function EntriesLength(names: seq<Name>, overhead: nat): (n: nat) {
    if names == [] then 0 else overhead + |names[0]| + EntriesLength(names[1..], overhead)
  }

  lemma {:induction false} EntriesLengthOf(names: seq<FieldBytes>)
    ensures |EncodeEntries(names)| == EntriesLength(names, 3) == EntriesLength(names, 2) + |names|
  {
    if names != [] {
      EntriesLengthOf(names[1..]);
    }
  }

  lemma {:induction false} NamesLength(d: seq<byte>)
    requires Names(d).Ok?
    ensures EntriesLength(Names(d).value, 2) == |d|
  {
    if d != [] {
      var n: int := GetU16(d[0], d[1]);
      NamesLength(d[2 + n..]);
      assert Names(d).value[1..] == Names(d[2 + n..]).value;
    }
  }

  /** One step over a name with its length, whatever follows it. */
  lemma StepName(name: FieldBytes, tail: seq<byte>)
    ensures Names(PutU16(|name|) + (name + tail)) ==
            match Names(tail) case Err(e) => Err(e) case Ok(more) => Ok([name] + more)
  {
    hide PutU16, GetU16;
    var d := PutU16(|name|) + (name + tail);
    U16Front(|name|, name + tail);
    assert d[2..2 + |name|] == d[2..][..|name|] == name;
    assert d[2 + |name|..] == d[2..][|name|..] == tail;
  }

  /** A list with the name type of its first entry. Of its length only matters whether it is zero. */
  lemma ListParts(length: u16, entries: seq<byte>)
    ensures NameList(PutU16(length) + entries) ==
            if length == 0 then Ok([])
            else if entries == [] then Err(BadServerName)
            else if entries[0] != 0 then Err(BadListType(entries[0]))
            else Names(entries[1..])
  {
    hide PutU16, GetU16, Names;
    var d := PutU16(length) + entries;
    U16Front(length, entries);
    if entries != [] {
      assert d[2] == d[2..][0] && d[3..] == d[2..][1..];
    }
  }

  /** The parser reads the name type once, so it understands exactly the lists of at most one name. */
  lemma SingleNameLists(names: seq<FieldBytes>)
    requires |EncodeEntries(names)| < 0x1_0000
    ensures NameList(PutU16(|EncodeEntries(names)|) + EncodeEntries(names)) == Ok(names) <==> |names| <= 1
  {
    hide PutU16, GetU16, Names, NameList;
    var entries := EncodeEntries(names);
    ListParts(|entries|, entries);
    if names != [] {
      EntriesLengthOf(names);
      var more := EncodeEntries(names[1..]);
      assert entries == [0] + (PutU16(|names[0]|) + (names[0] + more));
      hide EncodeEntries;
      if |names| == 1 {
        OneName(names);
      } else if Names(entries[1..]) == Ok(names) {
        NamesLength(entries[1..]);
      }
    }
  }

  lemma OneName(names: seq<FieldBytes>)
    requires |names| == 1
    ensures Names(PutU16(|names[0]|) + (names[0] + EncodeEntries(names[1..]))) == Ok(names)
  {
    hide PutU16, GetU16;
    assert names[1..] == [];
    StepName(names[0], []);
    assert Names([]) == Ok([]);
    assert [names[0]] + [] == names;
  }

  /** The whole extension block behind its length; what follows the block does not matter. */
  lemma BlockParts(exts: seq<byte>, tail: seq<byte>)
    requires |exts| < 0x1_0000
    ensures Extensions(PutU16(|exts|) + (exts + tail)) == ServerNames(exts)
  {
    hide PutU16, GetU16, ServerNames;
    var b := PutU16(|exts|) + (exts + tail);
    U16Front(|exts|, exts + tail);
    assert b[2..2 + |exts|] == b[2..][..|exts|] == exts;
  }

  /** A block that ends before its length says is refused, whatever it holds. */
  lemma ShortBlock(length: u16, exts: seq<byte>)
    requires |exts| < length
    ensures Extensions(PutU16(length) + exts) == Err(ReadFailed)
  {
    hide PutU16, GetU16, ServerNames;
    U16Front(length, exts);
  }

}
