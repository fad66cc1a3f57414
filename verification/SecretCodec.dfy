/**
 The text forms of a secret (mtglib/secret.go): hexadecimal and unpadded URL-safe
 base64 (sections 8 and 5 of RFC 4648), and the parser that tries them in this order.
 */
module SecretCodec {
  import opened Bytes
  import opened Secrets

  const FAKE_TLS_FIRST_BYTE: byte := 0xee

  // ----- hexadecimal

  function HexDigit(n: nat): (c: char)
    requires n < 16
  {
    if n < 10 then (n + '0' as int) as char else (n - 10 + 'a' as int) as char
  }

  function HexValue(c: char): (n: Option<nat>)
    ensures n.Some? ==> n.value < 16
  {
    if '0' <= c <= '9' then Some((c - '0') as int)
    else if 'a' <= c <= 'f' then Some((c - 'a') as int + 10)
    else if 'A' <= c <= 'F' then Some((c - 'A') as int + 10)
    else None
  }

  function HexEncode(b: seq<byte>): (t: string) {
    if b == [] then "" else [HexDigit(b[0] / 16), HexDigit(b[0] % 16)] + HexEncode(b[1..])
  }

  function HexDecode(t: string): (b: Option<seq<byte>>) {
    if t == "" then Some([])
    else if |t| == 1 then None
    else
      var hi, lo := HexValue(t[0]), HexValue(t[1]);
      if hi == None || lo == None then None
      else match HexDecode(t[2..])
        case None => None
        case Some(more) => Some([hi.value * 16 + lo.value] + more)
  }

  lemma HexDigitValue(n: nat)
    requires n < 16
    ensures HexValue(HexDigit(n)) == Some(n)
  {
  }

  lemma {:induction false} HexRoundTrip(b: seq<byte>)
    ensures HexDecode(HexEncode(b)) == Some(b)
  {
    hide HexDigit, HexValue;
    if b != [] {
      HexDigitValue(b[0] / 16);
      HexDigitValue(b[0] % 16);
      HexRoundTrip(b[1..]);
      assert HexEncode(b)[2..] == HexEncode(b[1..]);
      assert b == [b[0]] + b[1..];
    }
  }

  // ----- base64

  function Digit64(n: nat): (c: char)
    requires n < 64
  {
    if n < 26 then (n + 'A' as int) as char
    else if n < 52 then (n - 26 + 'a' as int) as char
    else if n < 62 then (n - 52 + '0' as int) as char
    else if n == 62 then '-' else '_'
  }

  function Value64(c: char): (n: Option<nat>)
    ensures n.Some? ==> n.value < 64
  {
    if 'A' <= c <= 'Z' then Some((c - 'A') as int)
    else if 'a' <= c <= 'z' then Some((c - 'a') as int + 26)
    else if '0' <= c <= '9' then Some((c - '0') as int + 52)
    else if c == '-' then Some(62)
    else if c == '_' then Some(63)
    else None
  }

  lemma Digit64Value(n: nat)
    requires n < 64
    ensures Value64(Digit64(n)) == Some(n) && !LineBreak(Digit64(n))
  {
  }

  function Encode64(b: seq<byte>): (t: string) {
    if b == [] then ""
    else if |b| == 1 then [Digit64(b[0] / 4), Digit64(b[0] % 4 * 16)]
    else if |b| == 2 then [Digit64(b[0] / 4), Digit64(b[0] % 4 * 16 + b[1] / 16), Digit64(b[1] % 16 * 4)]
    else
      [Digit64(b[0] / 4), Digit64(b[0] % 4 * 16 + b[1] / 16), Digit64(b[1] % 16 * 4 + b[2] / 64), Digit64(b[2] % 64)]
      + Encode64(b[3..])
  }

  predicate LineBreak(c: char) {
    c == '\r' || c == '\n'
  }

  /** The decoder skips line breaks wherever they stand. */
  function WithoutBreaks(t: string): (r: string) {
    if t == "" then "" else (if LineBreak(t[0]) then "" else [t[0]]) + WithoutBreaks(t[1..])
  }

  /** Groups of four, and a last group of two or three whose spare bits are ignored. */
  function DecodeGroups(t: string): (b: Option<seq<byte>>) {
    if t == "" then Some([])
    else if |t| == 1 || Value64(t[0]) == None || Value64(t[1]) == None then None
    else
      var v0, v1 := Value64(t[0]).value, Value64(t[1]).value;
      var b0 := v0 * 4 + v1 / 16;
      if |t| == 2 then Some([b0])
      else if Value64(t[2]) == None then None
      else
        var v2 := Value64(t[2]).value;
        var b1 := v1 % 16 * 16 + v2 / 4;
        if |t| == 3 then Some([b0, b1])
        else if Value64(t[3]) == None then None
        else
          var v3 := Value64(t[3]).value;
          match DecodeGroups(t[4..])
          case None => None
          case Some(more) => Some([b0, b1, v2 % 4 * 64 + v3] + more)
  }

  function Decode64(t: string): (b: Option<seq<byte>>) {
    DecodeGroups(WithoutBreaks(t))
  }

  lemma {:induction false} NothingToSkip(t: string)
    requires forall i :: 0 <= i < |t| ==> !LineBreak(t[i])
    ensures WithoutBreaks(t) == t
  {
    if t != "" {
      NothingToSkip(t[1..]);
    }
  }

  lemma {:induction false} EncodedHasNoBreaks(b: seq<byte>)
    ensures forall i :: 0 <= i < |Encode64(b)| ==> !LineBreak(Encode64(b)[i])
  {
    hide Digit64, Value64, LineBreak;
    if |b| == 1 {
      Digit64Value(b[0] / 4);
      Digit64Value(b[0] % 4 * 16);
    } else if |b| == 2 {
      Digit64Value(b[0] / 4);
      Digit64Value(b[0] % 4 * 16 + b[1] / 16);
      Digit64Value(b[1] % 16 * 4);
    } else if |b| >= 3 {
      Digit64Value(b[0] / 4);
      Digit64Value(b[0] % 4 * 16 + b[1] / 16);
      Digit64Value(b[1] % 16 * 4 + b[2] / 64);
      Digit64Value(b[2] % 64);
      EncodedHasNoBreaks(b[3..]);
    }
  }

  lemma {:induction false} GroupsRoundTrip(b: seq<byte>)
    ensures DecodeGroups(Encode64(b)) == Some(b)
  {
    hide Digit64, Value64, LineBreak;
    if |b| == 1 {
      Digit64Value(b[0] / 4);
      Digit64Value(b[0] % 4 * 16);
      assert b == [b[0]];
    } else if |b| == 2 {
      Digit64Value(b[0] / 4);
      Digit64Value(b[0] % 4 * 16 + b[1] / 16);
      Digit64Value(b[1] % 16 * 4);
      assert b == [b[0], b[1]];
    } else if |b| >= 3 {
      Digit64Value(b[0] / 4);
      Digit64Value(b[0] % 4 * 16 + b[1] / 16);
      Digit64Value(b[1] % 16 * 4 + b[2] / 64);
      Digit64Value(b[2] % 64);
      GroupsRoundTrip(b[3..]);
      assert Encode64(b)[4..] == Encode64(b[3..]);
      assert b == [b[0], b[1], b[2]] + b[3..];
    }
  }

  lemma Base64RoundTrip(b: seq<byte>)
    ensures Decode64(Encode64(b)) == Some(b)
  {
    EncodedHasNoBreaks(b);
    NothingToSkip(Encode64(b));
    GroupsRoundTrip(b);
  }

  /** A group of three bytes and its four digits are the same number, read in base 256 and in base 64. */
  lemma GroupIsNumber(b: seq<byte>)
    requires |b| >= 3
    ensures var t := Encode64(b);
            && |t| >= 4 && (forall i :: 0 <= i < 4 ==> Value64(t[i]).Some?)
            && Value64(t[0]).value * 0x4_0000 + Value64(t[1]).value * 0x1000 + Value64(t[2]).value * 0x40
               + Value64(t[3]).value == b[0] as int * 0x1_0000 + b[1] as int * 0x100 + b[2]
  {
    hide Digit64, Value64;
    Digit64Value(b[0] / 4);
    Digit64Value(b[0] % 4 * 16 + b[1] / 16);
    Digit64Value(b[1] % 16 * 4 + b[2] / 64);
    Digit64Value(b[2] % 64);
  }

  /** The alphabets of sections 8 and 5 of RFC 4648. */
  lemma Alphabets(n: nat)
    ensures n < 16 ==> HexDigit(n) == "0123456789abcdef"[n]
    ensures n < 64 ==>
            Digit64(n) == ("ABCDEFGHIJKLMNOPQRSTUVWXYZ" + "abcdefghijklmnopqrstuvwxyz" + "0123456789" + "-_")[n]
  {
    if n < 26 {
      assert Digit64(n) == "ABCDEFGHIJKLMNOPQRSTUVWXYZ"[n];
    } else if n < 52 {
      assert Digit64(n) == "abcdefghijklmnopqrstuvwxyz"[n - 26];
    } else if n < 62 {
      assert Digit64(n) == "0123456789"[n - 52];
    }
  }

  lemma {:induction false} SkipAppend(s: string, t: string)
    ensures WithoutBreaks(s + t) == WithoutBreaks(s) + WithoutBreaks(t)
  {
    if s == "" {
      assert s + t == t;
    } else {
      assert (s + t)[1..] == s[1..] + t;
      SkipAppend(s[1..], t);
    }
  }

  /** A line break may stand anywhere in base64 text. */
  lemma BreaksAreSkipped(s: string, c: char, t: string)
    requires c == '\r' || c == '\n'
    ensures Decode64(s + [c] + t) == Decode64(s + t)
  {
    SkipAppend(s + [c], t);
    SkipAppend(s, [c]);
    SkipAppend(s, t);
    assert WithoutBreaks([c]) == "";
    assert WithoutBreaks(s) + "" == WithoutBreaks(s);
  }

  /** Hexadecimal digits may be capitals. */
  lemma {:induction false} HexInEitherCase(s: string, t: string)
    requires |s| == |t|
    requires forall i :: 0 <= i < |s| ==> s[i] == t[i] || ('a' <= s[i] <= 'f' && t[i] as int == s[i] as int - 32)
    ensures HexDecode(s) == HexDecode(t)
  {
    if |s| >= 2 {
      assert HexValue(s[0]) == HexValue(t[0]) && HexValue(s[1]) == HexValue(t[1]);
      HexInEitherCase(s[2..], t[2..]);
    }
  }

  // ----- secrets

  datatype SecretError = SecretEmpty | BadFormat | SecretTruncated | BadFirstByte | BadKeyLength | HostEmpty

  function MakeBytes(s: Secret): (b: seq<byte>) {
    [FAKE_TLS_FIRST_BYTE] + s.key + s.host
  }

  function Hex(s: Secret): string {
    HexEncode(MakeBytes(s))
  }

  function Base64(s: Secret): string {
    Encode64(MakeBytes(s))
  }

  /** Hexadecimal first, base64 only if that fails. */
  function DecodeText(text: string): Option<seq<byte>> {
    if HexDecode(text).Some? then HexDecode(text) else Decode64(text)
  }

  function ParseSecret(text: string): (r: Result<Secret, SecretError>) {
    if text == "" then Err(SecretEmpty)
    else match DecodeText(text)
      case None => Err(BadFormat)
      case Some(b) =>
        if |b| < 2 then Err(SecretTruncated)
        else if b[0] != FAKE_TLS_FIRST_BYTE then Err(BadFirstByte)
        else if |b| < 1 + KEY_LENGTH then Err(BadKeyLength)
        else if |b| == 1 + KEY_LENGTH then Err(HostEmpty)
        else Ok(Secret(b[1..1 + KEY_LENGTH], b[1 + KEY_LENGTH..]))
  }

  /** A secret that `Set` assigns in place. */
  class SecretCell {
    var key: Key
    var host: seq<byte>

    /** On a missing host the key and the empty host have been assigned already. */
    method Set(text: string) returns (error: Option<SecretError>)
      modifies this
      ensures match ParseSecret(text)
              case Ok(s) => error == None && Secret(key, host) == s
              case Err(e) =>
                && error == Some(e)
                && (e != HostEmpty ==> key == old(key) && host == old(host))
                && (e == HostEmpty ==> host == [] && DecodeText(text) == Some(MakeBytes(Secret(key, []))))
    {
      hide HexDecode, Decode64;
      if text == "" {
        return Some(SecretEmpty);
      }
      var decoded := HexDecode(text);
      if decoded == None {
        decoded := Decode64(text);
      }
      if decoded == None {
        return Some(BadFormat);
      }
      var b := decoded.value;
      if |b| < 2 {
        return Some(SecretTruncated);
      }
      if b[0] != FAKE_TLS_FIRST_BYTE {
        return Some(BadFirstByte);
      }
      ghost var whole := b;
      b := b[1..];
      if |b| < KEY_LENGTH {
        return Some(BadKeyLength);
      }
      assert b[..KEY_LENGTH] == whole[1..1 + KEY_LENGTH] && b[KEY_LENGTH..] == whole[1 + KEY_LENGTH..];
      key := b[..KEY_LENGTH];
      host := b[KEY_LENGTH..];
      if host == [] {
        assert whole == [whole[0]] + key == MakeBytes(Secret(key, []));
        return Some(HostEmpty);
      }
      error := None;
    }
  }

  /** The prefix byte puts the second base64 character between g and v, which is no hexadecimal digit. */
  lemma Base64IsNotHex(s: Secret)
    ensures |Base64(s)| >= 2 && 'g' <= Base64(s)[1] <= 'v' && HexDecode(Base64(s)) == None
  {
    hide HexDecode;
    var b := MakeBytes(s);
    assert b[0] == 0xee && |b| >= 3;
    var n := b[0] % 4 * 16 + b[1] / 16;
    assert 32 <= n <= 47;
    assert Base64(s)[1] == Digit64(n);
    NotHex(Base64(s));
  }

  lemma NotHex(t: string)
    requires |t| >= 2 && 'g' <= t[1] <= 'v'
    ensures HexDecode(t) == None
  {
  }

  /** Both text forms parse back to the secret if and only if it has a host. */
  lemma SecretRoundTrip(s: Secret)
    ensures ParseSecret(Hex(s)) == Ok(s) <==> s.host != []
    ensures ParseSecret(Base64(s)) == Ok(s) <==> s.host != []
    ensures s.host == [] ==> ParseSecret(Hex(s)) == ParseSecret(Base64(s)) == Err(HostEmpty)
  {
    var b := MakeBytes(s);
    HexRoundTrip(b);
    Base64RoundTrip(b);
    Base64IsNotHex(s);
    assert Hex(s) != "";
    hide HexDecode, Decode64, HexEncode, Encode64;
    assert b[1..1 + KEY_LENGTH] == s.key && b[1 + KEY_LENGTH..] == s.host;
  }

  /** Text is accepted exactly if its bytes, read as hexadecimal if possible, are 0xee, 16 bytes of key and a host. */
  lemma AcceptedText(text: string, s: Secret)
    ensures ParseSecret(text) == Ok(s) <==>
            && text != "" && s.host != []
            && (if HexDecode(text).Some? then HexDecode(text) else Decode64(text)) == Some([0xee] + s.key + s.host)
  {
    hide HexDecode, Decode64;
    var bytes := [0xee] + s.key + s.host;
    assert bytes[1..17] == s.key && bytes[17..] == s.host;
    if ParseSecret(text) == Ok(s) {
      var b := DecodeText(text).value;
      assert b == [b[0]] + b[1..17] + b[17..];
    }
  }

  /** Whatever text was accepted, its secret prints to text that is accepted with the same result. */
  lemma AcceptedTextNormalizes(text: string)
    requires ParseSecret(text).Ok?
    ensures var s := ParseSecret(text).value;
            ParseSecret(Base64(s)) == ParseSecret(Hex(s)) == Ok(s)
  {
    hide Hex, Base64, DecodeText;
    SecretRoundTrip(ParseSecret(text).value);
  }
}
