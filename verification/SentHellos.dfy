/**
 Any ClientHello: what the parser and the authentication say of a hello that is given
 by its fields, with any suites, any compression methods and any other extensions.
 */
module SentHellos {
  import opened Bytes
  import opened Fragments
  import opened FragmentSplits
  import opened HelloGrammar
  import opened Matching
  import opened Secrets

  // ----- the fixed part

  function EncodeSuites(ss: seq<u16>): (s: seq<byte>)
    ensures |s| == 2 * |ss|
  {
    if ss == [] then [] else [ss[0] / 0x100, ss[0] % 0x100] + EncodeSuites(ss[1..])
  }

  /** A suite that is passed over: zero, or 0x?a?a. */
  predicate Masked(cs: u16) {
    cs == 0 || (cs / 0x100 % 0x10 == 0x0a && cs % 0x10 == 0x0a)
  }

  /** The first of the suites that is not passed over. */
  predicate Settles(ss: seq<u16>, i: int) {
    0 <= i < |ss| && !Masked(ss[i]) && forall j :: 0 <= j < i ==> Masked(ss[j])
  }

  predicate AllMasked(ss: seq<u16>) {
    forall i :: 0 <= i < |ss| ==> Masked(ss[i])
  }

  /** The fields before the extensions. */
  datatype Fields = Fields(version: seq<byte>, random: seq<byte>, sessionID: seq<byte>, suites: seq<u16>,
                           compression: seq<byte>)

  predicate Proper(f: Fields) {
    |f.version| == 2 && |f.random| == 32 && |f.sessionID| <= 255 && |f.suites| <= 32767 && |f.compression| <= 255
  }

  function EncodeFields(f: Fields, tail: seq<byte>): (s: seq<byte>)
    requires Proper(f)
  {
    f.version + f.random + [|f.sessionID|] + f.sessionID + EncodeCiphers(f.suites, f.compression, tail)
  }

  function EncodeCiphers(ss: seq<u16>, compression: seq<byte>, tail: seq<byte>): (s: seq<byte>)
    requires |ss| <= 32767 && |compression| <= 255
  {
    var n := 2 * |ss|;
    [n / 0x100, n % 0x100] + EncodeSuites(ss) + ([|compression|] + compression + tail)
  }

  lemma {:induction false} EncodedSuiteAt(ss: seq<u16>, i: nat)
    requires i < |ss|
    ensures EncodeSuites(ss)[2 * i] == ss[i] / 0x100 && EncodeSuites(ss)[2 * i + 1] == ss[i] % 0x100
  {
    if i > 0 {
      EncodedSuiteAt(ss[1..], i - 1);
    }
  }

  lemma SuitesOfEncoded(ss: seq<u16>)
    ensures Suites(EncodeSuites(ss)) == ss
  {
    forall i | 0 <= i < |ss| ensures Suites(EncodeSuites(ss))[i] == ss[i] {
      EncodedSuiteAt(ss, i);
    }
  }

  lemma UsableAre(ss: seq<u16>)
    ensures forall i :: 0 <= i < |ss| ==> (Usable(ss[i]) <==> !Masked(ss[i]))
  {
  }

  /** Where the walk over the suites ends. */
  lemma SettlesFirst(ss: seq<u16>)
    ensures AllMasked(ss) ==> FirstUsable(ss) == 0
    ensures forall i :: Settles(ss, i) ==> FirstUsable(ss) == ss[i] != 0
  {
    hide Usable, Masked, FirstUsable;
    FirstUsableIsFirst(ss);
    UsableAre(ss);
    forall i | Settles(ss, i) ensures FirstUsable(ss) == ss[i] != 0 {
      assert Usable(ss[i]);
      var k :| 0 <= k < |ss| && ss[k] == FirstUsable(ss) && Usable(ss[k])
               && forall j :: 0 <= j < k ==> !Usable(ss[j]);
      assert k == i;
    }
  }

  lemma WholeSuites(k: nat)
    requires k <= 32767
    ensures GetU16(2 * k / 0x100, 2 * k % 0x100) / 2 * 2 == 2 * k
  {
  }

  lemma CiphersOfEncoded(f: Fields, tail: seq<byte>)
    requires Proper(f)
    ensures var suite := FirstUsable(f.suites);
            Ciphers(EncodeCiphers(f.suites, f.compression, tail))
            == if suite == 0 then Err(CannotFindCipher) else Ok(Chosen(suite, tail))
  {
    hide Suites, FirstUsable, EncodeSuites, GetU16;
    var n := 2 * |f.suites|;
    WholeSuites(|f.suites|);
    var c := EncodeCiphers(f.suites, f.compression, tail);
    var d := [|f.compression|] + f.compression + tail;
    assert GetU16(c[0], c[1]) / 2 * 2 == n;
    assert c[2..2 + n] == EncodeSuites(f.suites);
    assert c[2 + n..] == d;
    SuitesOfEncoded(f.suites);
    assert d[1 + |f.compression|..] == tail;
  }

  /**
   The fields of any hello read back: the random, the session id, the first suite that
   is not passed over, and exactly the bytes after the compression methods; and
   without such a suite there is no hello.
   */
  lemma HandshakeOfEncoded(f: Fields, tail: seq<byte>)
    requires Proper(f)
    ensures AllMasked(f.suites) ==> Handshake(EncodeFields(f, tail)) == Err(CannotFindCipher)
    ensures forall i :: Settles(f.suites, i) ==>
              Handshake(EncodeFields(f, tail)) == Ok(Parsed(ClientHello(f.random, f.sessionID, f.suites[i]), tail))
  {
    hide Ciphers, EncodeCiphers, FirstUsable, Masked;
    var b := EncodeFields(f, tail);
    assert b[34] == |f.sessionID|;
    assert b[2..34] == f.random && b[35..35 + |f.sessionID|] == f.sessionID;
    assert b[35 + |f.sessionID|..] == EncodeCiphers(f.suites, f.compression, tail);
    CiphersOfEncoded(f, tail);
    SettlesFirst(f.suites);
  }

  lemma CiphersCut(f: Fields, k: nat)
    requires Proper(f) && k < |EncodeCiphers(f.suites, f.compression, [])|
    ensures Ciphers(EncodeCiphers(f.suites, f.compression, [])[..k]) ==
            Err(if k >= 2 + 2 * |f.suites| && FirstUsable(f.suites) == 0 then CannotFindCipher else ReadFailed)
  {
    hide Suites, FirstUsable, EncodeSuites, GetU16;
    var n := 2 * |f.suites|;
    WholeSuites(|f.suites|);
    var whole := EncodeCiphers(f.suites, f.compression, []);
    var c := whole[..k];
    if k >= 2 {
      assert GetU16(c[0], c[1]) / 2 * 2 == n;
      if k >= 2 + n {
        assert c[2..2 + n] == whole[2..2 + n] == EncodeSuites(f.suites);
        SuitesOfEncoded(f.suites);
        assert c[2 + n..] == whole[2 + n..][..k - (2 + n)];
        assert whole[2 + n..] == [|f.compression|] + f.compression + [];
      }
    }
  }

  /** A hello that ends anywhere inside these fields is refused. */
  lemma CutIsRefused(f: Fields, k: nat)
    requires Proper(f) && k < |EncodeFields(f, [])|
    ensures Handshake(EncodeFields(f, [])[..k]) ==
            Err(if k >= 37 + |f.sessionID| + 2 * |f.suites| && AllMasked(f.suites) then CannotFindCipher
                else ReadFailed)
  {
    hide Ciphers, EncodeCiphers, FirstUsable, Masked;
    var whole := EncodeFields(f, []);
    var b := whole[..k];
    var at := 35 + |f.sessionID|;
    assert |whole| == at + |EncodeCiphers(f.suites, f.compression, [])|;
    if k >= 35 {
      assert b[34] == whole[34] == |f.sessionID|;
      if k >= at {
        assert whole[at..] == EncodeCiphers(f.suites, f.compression, []);
        assert b[at..] == whole[at..][..k - at];
        CiphersCut(f, k - at);
        NoneUsable(f.suites);
      }
    }
  }

  lemma NoneUsable(ss: seq<u16>)
    ensures FirstUsable(ss) == 0 <==> AllMasked(ss)
  {
    hide Usable, Masked, FirstUsable;
    FirstUsableIsFirst(ss);
    UsableAre(ss);
  }

  /** Half a suite at the end of the list is left for the compression methods. */
  lemma OddLength(length: u16, tail: seq<byte>)
    requires length % 2 == 1
    ensures Ciphers(PutU16(length) + tail) == Ciphers(PutU16(length - 1) + tail)
  {
    hide Suites, FirstUsable, Skippable, Skipped, GetU16, PutU16;
    var n: int := length - 1;
    U16Front(length, tail);
    U16Front(n, tail);
    HalfSuite(length);
    var c, d := PutU16(length) + tail, PutU16(n) + tail;
    if n <= |tail| {
      assert c[2..2 + n] == c[2..][..n] && d[2..2 + n] == d[2..][..n];
      assert c[2 + n..] == c[2..][n..] && d[2 + n..] == d[2..][n..];
    }
  }

  lemma HalfSuite(length: u16)
    requires length % 2 == 1
    ensures length / 2 * 2 == length - 1 == (length - 1) / 2 * 2
  {
  }

  // ----- the extensions

  /** The data of a server name extension with one name and any length but zero. */
  function OneName(length: u16, host: FieldBytes): (s: seq<byte>)
    ensures |s| == 5 + |host|
  {
    [length / 0x100, length % 0x100, 0, |host| / 0x100, |host| % 0x100] + host
  }

  lemma OneNameParses(length: u16, host: FieldBytes)
    requires length != 0
    ensures NameList(OneName(length, host)) == Ok([host])
  {
    var entries := [0] + PutU16(|host|) + host;
    assert OneName(length, host) == PutU16(length) + entries;
    ListParts(length, entries);
    StepName(host, []);
    assert entries[1..] == PutU16(|host|) + (host + []);
    assert [host] + [] == [host];
  }

  /** A hello with one server name: extensions before it, anything after it, anything after the extensions. */
  datatype Sent = Sent(fields: Fields, before: seq<Extension>, length: u16, host: FieldBytes, after: seq<byte>,
                       trailing: seq<byte>)

  function Block(h: Sent): (s: seq<byte>)
    requires |h.host| <= 65530
  {
    EncodeExtensions(h.before) + (EncodeExtension(Extension(0, OneName(h.length, h.host))) + h.after)
  }

  predicate Sendable(h: Sent) {
    && Proper(h.fields)
    && (forall i :: 0 <= i < |h.before| ==> h.before[i].kind != 0)
    && h.length != 0 && |h.host| <= 65530 && |Block(h)| < 0x1_0000
  }

  function Body(h: Sent): (s: seq<byte>)
    requires Sendable(h)
  {
    EncodeFields(h.fields, PutU16(|Block(h)|) + (Block(h) + h.trailing))
  }

  lemma BlockParses(h: Sent)
    requires Sendable(h)
    ensures Extensions(PutU16(|Block(h)|) + (Block(h) + h.trailing)) == Ok([h.host])
  {
    hide Extensions, ServerNames, NameList, EncodeExtensions, EncodeExtension, OneName, PutU16;
    BlockParts(Block(h), h.trailing);
    FirstServerNameDecides(h.before, OneName(h.length, h.host), h.after);
    OneNameParses(h.length, h.host);
  }

  /** The headers in front of a reconstructed body. */
  function CopyHead(body: seq<byte>): (s: seq<byte>)
    requires |body| < 0x100_0000
    ensures |s| == 9
  {
    [TYPE_HANDSHAKE, 3, 1] + PutU16((1 + 3 + |body|) % 0x1_0000) + [TYPE_HANDSHAKE_CLIENT] + PutU24(|body|)
  }

  lemma CopySplits(body: seq<byte>)
    requires |body| < 0x100_0000
    ensures Reconstruct(body) == CopyHead(body) + body
  {
    hide PutU16, PutU24;
  }

  /** Blanking sets the random to zeros and leaves every other byte. */
  lemma BlankOfEncoded(f: Fields, tail: seq<byte>)
    requires Proper(f) && |EncodeFields(f, tail)| < 0x100_0000
    ensures var blank := EncodeFields(f.(random := Zeros(32)), tail);
            && |blank| == |EncodeFields(f, tail)|
            && |Reconstruct(EncodeFields(f, tail))| >= RANDOM_OFFSET + RANDOM_LEN
            && Blank(Reconstruct(EncodeFields(f, tail))) == Reconstruct(blank)
  {
    hide EncodeCiphers, PutU16, PutU24, Reconstruct;
    var rest := [|f.sessionID|] + f.sessionID + EncodeCiphers(f.suites, f.compression, tail);
    var b, blank := EncodeFields(f, tail), EncodeFields(f.(random := Zeros(32)), tail);
    assert b == f.version + f.random + rest && blank == f.version + Zeros(32) + rest;
    var head := CopyHead(b);
    assert CopyHead(blank) == head;
    CopySplits(b);
    CopySplits(blank);
    assert (head + b)[..11] == head + f.version && (head + b)[43..] == rest;
  }

  /**
   What a secret decides on any hello with a server name, however it is split into at
   most eleven records and whatever follows it. It is accepted exactly if the name is
   the host of the secret and the random is the digest, under its key, of the record
   with a blank random, stamped with a time in the window.
   */
  lemma SentIsDecided(mac: Mac, h: Sent, i: nat, rs: seq<Payload>, tail: seq<byte>,
                      secret: Secret, now: int, tolerance: int)
    requires Sendable(h) && |Body(h)| <= 65531
    requires Settles(h.fields.suites, i)
    requires Concat(rs) == Message(Body(h)) && |rs| <= 11
    ensures var blank := h.(fields := h.fields.(random := Zeros(32)));
            && |Body(blank)| == |Body(h)|
            && var digest := mac(secret.key, Reconstruct(Body(blank)));
               var r := Attempt(mac, Encode(rs) + tail, secret, now, tolerance);
               && (r.Ok? ==> r.value == ClientHello(h.fields.random, h.fields.sessionID, h.fields.suites[i]))
               && (r == Err(HostNotFound) <==> secret.host != h.host)
               && (r.Ok? <==> && secret.host == h.host
                              && exists t: u32 ::
                                   && h.fields.random == Stamp(digest, t)
                                   && (now - tolerance <= t * NANOSECONDS <= now + tolerance
                                       || tolerance >= MAX_DURATION))
  {
    hide Reassemble, Handshake, Extensions, Authenticate, Blank, Stamp, Reconstruct, Message, Encode, Needed, Concat,
         EncodeFields, Block, PutU16, Settles;
    SplitsAgree(Body(h), rs, tail);
    HandshakeOfEncoded(h.fields, PutU16(|Block(h)|) + (Block(h) + h.trailing));
    BlockParses(h);
    BlankOfEncoded(h.fields, PutU16(|Block(h)|) + (Block(h) + h.trailing));
    var blank := h.(fields := h.fields.(random := Zeros(32)));
    SameBlock(h, blank);
    AuthenticWhenStamped(mac(secret.key, Reconstruct(Body(blank))), h.fields.random, now, tolerance);
    NotHostError(mac(secret.key, Reconstruct(Body(blank))), h.fields.random, now, tolerance);
  }

  lemma SameBlock(h: Sent, blank: Sent)
    requires Sendable(h) && blank == h.(fields := h.fields.(random := Zeros(32)))
    ensures Sendable(blank) && Block(blank) == Block(h)
  {
  }

  lemma NotHostError(digest: Digest, random: seq<byte>, now: int, tolerance: int)
    requires |random| == RANDOM_LEN
    ensures Authenticate(digest, random, now, tolerance) != Some(HostNotFound)
  {
  }

  /** No secret accepts a hello of which all suites are passed over. */
  lemma MaskedIsRefused(mac: Mac, f: Fields, rest: seq<byte>, rs: seq<Payload>, tail: seq<byte>,
                        secret: Secret, now: int, tolerance: int)
    requires Proper(f) && AllMasked(f.suites) && |EncodeFields(f, rest)| <= 65531
    requires Concat(rs) == Message(EncodeFields(f, rest)) && |rs| <= 11
    ensures Attempt(mac, Encode(rs) + tail, secret, now, tolerance) == Err(CannotFindCipher)
  {
    hide Reassemble, Handshake, Extensions, Authenticate, Reconstruct, Message, Encode, Needed, Concat, EncodeFields;
    SplitsAgree(EncodeFields(f, rest), rs, tail);
    HandshakeOfEncoded(f, rest);
  }

  /** No secret accepts a hello without a server name extension. */
  lemma NamelessIsRefused(mac: Mac, f: Fields, i: nat, es: seq<Extension>, trailing: seq<byte>,
                          rs: seq<Payload>, tail: seq<byte>, secret: Secret, now: int, tolerance: int)
    requires Proper(f) && Settles(f.suites, i)
    requires |EncodeExtensions(es)| < 0x1_0000 && forall i :: 0 <= i < |es| ==> es[i].kind != 0
    requires var body := EncodeFields(f, PutU16(|EncodeExtensions(es)|) + (EncodeExtensions(es) + trailing));
             |body| <= 65531 && Concat(rs) == Message(body) && |rs| <= 11
    ensures Attempt(mac, Encode(rs) + tail, secret, now, tolerance) == Err(HostNotFound)
  {
    hide Reassemble, Handshake, Extensions, Authenticate, Reconstruct, Message, Encode, Needed, Concat, EncodeFields,
         PutU16, ServerNames, EncodeExtensions, Settles;
    var rest := PutU16(|EncodeExtensions(es)|) + (EncodeExtensions(es) + trailing);
    SplitsAgree(EncodeFields(f, rest), rs, tail);
    HandshakeOfEncoded(f, rest);
    BlockParts(EncodeExtensions(es), trailing);
    NoServerName(es);
  }
}
