/**
 The user file (internal/users/store.go and config.go): its canonical order, and what
 a reload restores after a persist. The TOML codec, the time layout and the hash are
 parameters; a failing disk is an input.
 */
module UserStore {
  import opened Bytes
  import opened Secrets
  import opened SecretCodec
  import Connections
  import Limiter

  /** An expiration is an instant in nanoseconds. */
  datatype User = User(username: string, secret: Secret, expiresAt: Option<int>, maxUniqueIPs: Option<nat>)

  datatype FileUser = FileUser(username: string, secret: string, expiration: string, maxUniqueIPs: int)

  datatype General = General(publicHost: string, publicPort: nat, defaultHost: seq<byte>)

  datatype FileConfig = FileConfig(general: General, users: seq<FileUser>)

  const EMPTY_FILE := FileConfig(General("", 0, []), [])

  // ----- the order of names

  /** Go compares strings byte by byte. */
  predicate Less(a: string, b: string) {
    b != "" && (a == "" || a[0] < b[0] || (a[0] == b[0] && Less(a[1..], b[1..])))
  }

  lemma {:induction false} LessIsStrict(a: string, b: string)
    ensures !(Less(a, b) && Less(b, a)) && (a == b ==> !Less(a, b))
    ensures a != b ==> Less(a, b) || Less(b, a)
  {
    if a != "" && b != "" {
      LessIsStrict(a[1..], b[1..]);
      if a[0] == b[0] && a != b {
        assert a == [a[0]] + a[1..] && b == [b[0]] + b[1..];
      }
    }
  }

  lemma {:induction false} LessIsTransitive(a: string, b: string, c: string)
    requires Less(a, b) && Less(b, c)
    ensures Less(a, c)
  {
    if a != "" && a[0] == b[0] && b[0] == c[0] {
      LessIsTransitive(a[1..], b[1..], c[1..]);
    }
  }

  /** Shorter but otherwise equal, or smaller at the first character that differs. */
  lemma {:induction false} LessExactly(a: string, b: string)
    ensures Less(a, b) <==> exists i :: 0 <= i <= |a| && i < |b| && a[..i] == b[..i] && (i == |a| || a[i] < b[i])
  {
    if a == "" {
      assert b != "" ==> a[..0] == b[..0];
    } else if b != "" {
      LessExactly(a[1..], b[1..]);
      if a[0] != b[0] {
        assert a[..0] == b[..0];
        assert forall i :: 0 < i <= |a| && i < |b| ==> a[..i][0] != b[..i][0];
      } else {
        forall i | 0 <= i <= |a[1..]| && i < |b[1..]| ensures a[1..][..i] == b[1..][..i] <==> a[..i + 1] == b[..i + 1] {
          assert a[..i + 1] == [a[0]] + a[1..][..i] && b[..i + 1] == [b[0]] + b[1..][..i];
          assert a[1..][..i] == a[..i + 1][1..] && b[1..][..i] == b[..i + 1][1..];
        }
        LessShift(a, b);
      }
    }
  }

  lemma LessShift(a: string, b: string)
    requires a != "" && b != "" && a[0] == b[0]
    requires forall i :: 0 <= i <= |a[1..]| && i < |b[1..]| ==>
               (a[1..][..i] == b[1..][..i] <==> a[..i + 1] == b[..i + 1])
    ensures (exists i :: 0 <= i <= |a| && i < |b| && a[..i] == b[..i] && (i == |a| || a[i] < b[i])) <==>
            (exists i :: 0 <= i <= |a[1..]| && i < |b[1..]| && a[1..][..i] == b[1..][..i]
                         && (i == |a[1..]| || a[1..][i] < b[1..][i]))
  {
    if i :| 0 <= i <= |a| && i < |b| && a[..i] == b[..i] && (i == |a| || a[i] < b[i]) {
      var j := i - 1;
      assert a[1..][..j] == b[1..][..j];
    }
    if i :| 0 <= i <= |a[1..]| && i < |b[1..]| && a[1..][..i] == b[1..][..i]
            && (i == |a[1..]| || a[1..][i] < b[1..][i]) {
      assert a[..i + 1] == b[..i + 1];
    }
  }

  ghost predicate Increasing(us: seq<User>) {
    forall i, j :: 0 <= i < j < |us| ==> Less(us[i].username, us[j].username)
  }

  /** Two increasing lists of the same users are the same list. */
  lemma {:induction false} OrderIsCanonical(a: seq<User>, b: seq<User>)
    requires Increasing(a) && Increasing(b)
    requires forall u :: u in a <==> u in b
    ensures a == b
  {
    assert b != [] ==> b[0] in b;
    assert a != [] ==> a[0] in a;
    if a != [] {
      var k :| 0 <= k < |b| && b[k] == a[0];
      var l :| 0 <= l < |a| && a[l] == b[0];
      LessIsStrict(a[0].username, b[0].username);
      assert a[0] == b[0];
      forall u ensures u in a[1..] <==> u in b[1..] {
        LessIsStrict(a[0].username, a[0].username);
        Rest(a, u);
        Rest(b, u);
      }
      OrderIsCanonical(a[1..], b[1..]);
    }
  }

  lemma Rest(a: seq<User>, u: User)
    requires Increasing(a) && a != []
    ensures u in a[1..] <==> u in a && u != a[0]
  {
    LessIsStrict(a[0].username, a[0].username);
    if u in a[1..] {
      var i :| 0 <= i < |a[1..]| && a[1..][i] == u;
      assert a[i + 1] == u;
    }
    if u in a && u != a[0] {
      var i :| 0 <= i < |a| && a[i] == u;
      assert a[1..][i - 1] == u;
    }
  }

  method Swap(a: array<User>, i: nat, j: nat)
    requires i < a.Length && j < a.Length && i != j
    modifies a
    ensures a[i] == old(a[j]) && a[j] == old(a[i])
    ensures forall k :: 0 <= k < a.Length && k != i && k != j ==> a[k] == old(a[k])
  {
    a[i], a[j] := a[j], a[i];
  }

  /** The same users in some order, no name twice. */
  ghost predicate SameUsers(us: seq<User>, init: seq<User>) {
    && |us| == |init| && (forall u :: u in us <==> u in init)
    && forall i, j :: 0 <= i < j < |us| ==> us[i].username != us[j].username
  }

  lemma SwapKeeps(us: seq<User>, vs: seq<User>, init: seq<User>, i: nat, j: nat)
    requires SameUsers(us, init) && |vs| == |us| && i < j < |us|
    requires vs[i] == us[j] && vs[j] == us[i] && forall k :: 0 <= k < |us| && k != i && k != j ==> vs[k] == us[k]
    ensures SameUsers(vs, init)
  {
    forall u ensures u in us <==> u in vs {
      if u in us {
        var k :| 0 <= k < |us| && us[k] == u;
        assert vs[if k == i then j else if k == j then i else k] == u;
      }
      if u in vs {
        var k :| 0 <= k < |vs| && vs[k] == u;
        assert us[if k == i then j else if k == j then i else k] == u;
      }
    }
  }

  predicate Before(a: User, b: User) {
    Less(a.username, b.username)
  }

  /** The exchange sort, in place. */
  method Sort(a: array<User>)
    requires forall i, j :: 0 <= i < j < a.Length ==> a[i].username != a[j].username
    modifies a
    ensures Increasing(a[..]) && SameUsers(a[..], old(a[..]))
  {
    ghost var init := a[..];
    for i := 0 to a.Length
      invariant SameUsers(a[..], init)
      invariant forall p, q :: 0 <= p < i && p < q < a.Length ==> Before(a[p], a[q])
    {
      for j := i + 1 to a.Length
        invariant SameUsers(a[..], init)
        invariant forall p, q :: 0 <= p < i && p < q < a.Length ==> Before(a[p], a[q])
        invariant forall q :: i < q < j ==> Before(a[i], a[q])
      {
        ghost var us := a[..];
        assert us[i].username != us[j].username;
        LessIsStrict(a[i].username, a[j].username);
        if Less(a[j].username, a[i].username) {
          Swap(a, i, j);
          SwapKeeps(us, a[..], init, i, j);
          forall q | i < q < j + 1 ensures Before(a[i], a[q]) {
            if q < j {
              LessIsTransitive(us[j].username, us[i].username, us[q].username);
            }
          }
        }
      }
    }
    assert forall i, j :: 0 <= i < j < a.Length ==> Before(a[i], a[j]);
  }

  /** The users of a map, whatever the order it is walked in. */
  ghost predicate Lists(us: seq<User>, users: map<string, User>) {
    Increasing(us) && forall u :: u in us <==> u in users.Values
  }

  ghost predicate Keyed(users: map<string, User>) {
    forall k :: k in users ==> users[k].username == k
  }

  method SortedUsers(users: map<string, User>) returns (us: seq<User>)
    requires Keyed(users)
    ensures Lists(us, users)
  {
    var out: seq<User> := [];
    var keys := users.Keys;
    while keys != {}
      invariant keys <= users.Keys
      invariant forall u :: u in out <==> u in users.Values && u.username !in keys
      invariant forall i, j :: 0 <= i < j < |out| ==> out[i].username != out[j].username
      decreases keys
    {
      var k :| k in keys;
      forall i | 0 <= i < |out| ensures out[i].username != k {
        assert out[i] in out;
      }
      ghost var was := out;
      out := out + [users[k]];
      forall u ensures u in out <==> u in users.Values && u.username !in keys - {k} {
        assert u in out <==> u in was || u == users[k];
        if u in users.Values && u.username == k {
          var l :| l in users && users[l] == u;
        }
      }
      keys := keys - {k};
    }
    var a := new User[|out|](i requires 0 <= i < |out| => out[i]);
    assert a[..] == out;
    Sort(a);
    us := a[..];
  }

  /** Two walks of the same map give the same list, so the file depends on the users alone. */
  lemma ListsAreCanonical(a: seq<User>, b: seq<User>, users: map<string, User>)
    requires Lists(a, users) && Lists(b, users)
    ensures a == b
  {
    OrderIsCanonical(a, b);
  }

  // ----- rows of the file

  /** What the rows of the file need from the Go library. */
  datatype Codec = Codec(
    format: int -> string,                       // whole seconds, in UTC
    parse: string -> Option<int>,                // nanoseconds
    marshal: FileConfig -> Option<seq<byte>>,
    unmarshal: seq<byte> -> Option<FileConfig>,
    hash: seq<byte> -> string)

  const FIRST_SECOND := -62_167_219_200 // 0000-01-01T00:00:00Z
  const LAST_SECOND := 253_402_300_799  // 9999-12-31T23:59:59Z

  /** Days from the beginning of the year 0 to the beginning of another, with its leap years. */
  function DaysBefore(year: nat): (days: int) {
    365 * year + (year + 3) / 4 - (year + 99) / 100 + (year + 399) / 400
  }

  lemma FourDigitYears()
    ensures FIRST_SECOND == (DaysBefore(0) - DaysBefore(1970)) * 86400
    ensures LAST_SECOND + 1 == (DaysBefore(10000) - DaysBefore(1970)) * 86400
  {
  }

  /** Times whose year in UTC has four digits. */
  predicate Writable(seconds: int) {
    FIRST_SECOND <= seconds <= LAST_SECOND
  }

  /** The layout is read back exactly if the year has four digits, and TOML is invertible where it can be written. */
  ghost predicate Faithful(c: Codec) {
    && (forall t :: c.format(t) != "" && c.parse(c.format(t)) == if Writable(t) then Some(t * NANOSECONDS) else None)
    && (forall fc :: c.marshal(fc).Some? ==> c.unmarshal(c.marshal(fc).value) == Some(fc))
  }

  predicate NameChar(ch: char) {
    'A' <= ch <= 'Z' || 'a' <= ch <= 'z' || '0' <= ch <= '9' || ch == '_' || ch == '.' || ch == '-'
  }

  predicate ValidUsername(s: string) {
    1 <= |s| <= 64 && forall i :: 0 <= i < |s| ==> NameChar(s[i])
  }

  datatype RowError = BadUsername | BadExpiration | NoSecret | BadSecret(error: SecretError)

  /** `generated` is the secret that an empty one is replaced by when there is a default host. */
  function ParseRow(c: Codec, row: FileUser, defaultHost: seq<byte>, generated: Key): (r: Result<User, RowError>) {
    if !ValidUsername(row.username) then Err(BadUsername)
    else if row.expiration != "" && c.parse(row.expiration) == None then Err(BadExpiration)
    else if row.secret == "" && defaultHost == [] then Err(NoSecret)
    else
      var text := if row.secret == "" then Base64(Secret(generated, defaultHost)) else row.secret;
      match ParseSecret(text)
      case Err(e) => Err(BadSecret(e))
      case Ok(secret) =>
        Ok(User(row.username, secret, if row.expiration == "" then None else c.parse(row.expiration),
                if row.maxUniqueIPs > 0 then Some(row.maxUniqueIPs) else None))
  }

  function RowOf(c: Codec, u: User): (row: FileUser) {
    FileUser(u.username, Base64(u.secret),
             if u.expiresAt.Some? then c.format(u.expiresAt.value / NANOSECONDS) else "",
             if u.maxUniqueIPs.Some? then u.maxUniqueIPs.value else 0)
  }

  /** What is left of a user in the file: whole seconds, and no zero limit. */
  function Stored(u: User): (v: User) {
    u.(expiresAt := if u.expiresAt.Some? then Some(u.expiresAt.value / NANOSECONDS * NANOSECONDS) else None,
       maxUniqueIPs := if u.maxUniqueIPs == Some(0) then None else u.maxUniqueIPs)
  }

  /** The time kept is the whole second that the expiration falls into, and everything else but a zero limit stays. */
  lemma StoredKeeps(u: User)
    ensures var v := Stored(u);
            && v.username == u.username && v.secret == u.secret && (v.expiresAt.Some? <==> u.expiresAt.Some?)
            && (u.expiresAt.Some? ==> v.expiresAt.value % NANOSECONDS == 0
                                      && v.expiresAt.value <= u.expiresAt.value < v.expiresAt.value + NANOSECONDS)
            && (v.maxUniqueIPs != u.maxUniqueIPs <==> u.maxUniqueIPs == Some(0))
  {
  }

  predicate WellFormed(u: User) {
    ValidUsername(u.username) && u.secret.host != []
  }

  /** The expiration, if there is one, can be read back from the file. */
  predicate Readable(u: User) {
    u.expiresAt.Some? ==> Writable(u.expiresAt.value / NANOSECONDS)
  }

  /** The row of a user parses to what the file keeps of the user, or not at all. */
  lemma RowRoundTrip(c: Codec, u: User, defaultHost: seq<byte>, generated: Key)
    requires Faithful(c) && WellFormed(u)
    ensures ParseRow(c, RowOf(c, u), defaultHost, generated)
         == if Readable(u) then Ok(Stored(u)) else Err(BadExpiration)
  {
    hide ParseSecret, Base64, Writable;
    SecretRoundTrip(u.secret);
    Base64IsNotHex(u.secret);
    if u.expiresAt.Some? {
      var t := u.expiresAt.value / NANOSECONDS;
      assert c.format(t) != "" && c.parse(c.format(t)) == if Writable(t) then Some(t * NANOSECONDS) else None;
    }
  }

  /** The secret of a row is the one its text denotes, or a new one for the default host if there is no text. */
  lemma RowSecret(c: Codec, row: FileUser, defaultHost: seq<byte>, generated: Key, s: Secret)
    requires ParseRow(c, row, defaultHost, generated).Ok?
    ensures row.secret == "" ==>
            ParseRow(c, row, defaultHost, generated).value.secret == Secret(generated, defaultHost)
    ensures (row.secret == Hex(s) || row.secret == Base64(s)) ==>
            ParseRow(c, row, defaultHost, generated).value.secret == s
  {
    hide ParseSecret, ValidUsername, HexEncode, Encode64;
    SecretRoundTrip(Secret(generated, defaultHost));
    SecretRoundTrip(s);
    TextIsNotEmpty(s);
  }

  lemma TextIsNotEmpty(s: Secret)
    ensures Hex(s) != "" && Base64(s) != ""
  {
    Base64IsNotHex(s);
  }

  /** No zero limit, and an expiration in whole seconds. */
  predicate Lasting(u: User) {
    u.maxUniqueIPs != Some(0) && (u.expiresAt.Some? ==> u.expiresAt.value % NANOSECONDS == 0)
  }

  /** Users as they come back from the file. */
  ghost predicate Restored(users: map<string, User>, loaded: map<string, User>) {
    loaded.Keys == users.Keys && forall k :: k in users ==> loaded[k] == Stored(users[k])
  }

  /** They come back unchanged if and only if every one of them is lasting. */
  lemma RestoredWhenLasting(users: map<string, User>, loaded: map<string, User>)
    requires Restored(users, loaded)
    ensures loaded == users <==> forall k :: k in users ==> Lasting(users[k])
  {
    forall k | k in users ensures loaded[k] == users[k] <==> Lasting(users[k]) {
      assert loaded[k] == Stored(users[k]);
    }
  }

  /** A user created through the interface always survives, because creation goes through a row. */
  lemma CreatedSurvives(c: Codec, row: FileUser, defaultHost: seq<byte>, generated: Key, t: int)
    requires Faithful(c) && (row.expiration == "" || row.expiration == c.format(t))
    requires ParseRow(c, row, defaultHost, generated).Ok?
    ensures var u := ParseRow(c, row, defaultHost, generated).value; Stored(u) == u && Readable(u)
  {
    hide ParseSecret, Base64, Writable;
    assert c.parse(c.format(t)) == if Writable(t) then Some(t * NANOSECONDS) else None;
  }

  // ----- the store

  /** The rows of a list of users, by the loop of fromUsers. */
  method FromUsers(c: Codec, us: seq<User>) returns (rows: seq<FileUser>)
    ensures |rows| == |us| && forall i :: 0 <= i < |us| ==> rows[i] == RowOf(c, us[i])
  {
    rows := [];
    for i := 0 to |us|
      invariant |rows| == i && forall k :: 0 <= k < i ==> rows[k] == RowOf(c, us[k])
    {
      rows := rows + [RowOf(c, us[i])];
    }
  }

  /** The index of the parsed rows; a name that comes twice is refused. */
  method ToIndex(c: Codec, fc: FileConfig, generated: nat -> Key) returns (index: Option<map<string, User>>)
    ensures index.Some? <==> Loads(c, fc, generated)
    ensures index.Some? ==> IsIndex(c, fc, generated, index.value)
  {
    hide ParseRow;
    var m: map<string, User> := map[];
    for i := 0 to |fc.users|
      invariant Indexed(c, fc, generated, m, i)
    {
      var u := ParseRow(c, fc.users[i], fc.general.defaultHost, generated(i));
      if u.Err? {
        return None;
      }
      ParsedName(c, fc.users[i], fc.general.defaultHost, generated(i));
      if u.value.username in m {
        return None;
      }
      m := m[u.value.username := u.value];
    }
    index := Some(m);
  }

  lemma ParsedName(c: Codec, row: FileUser, defaultHost: seq<byte>, generated: Key)
    ensures var r := ParseRow(c, row, defaultHost, generated); r.Ok? ==> r.value.username == row.username
  {
    hide ParseSecret, Base64;
  }

  /**
   How a write of the file ends: it works, the file could not be opened, or it fails
   after the file was truncated, with the first `kept` bytes in it, all of them if the
   closing failed.
   */
  datatype DiskWrite = Works | NotOpened | Torn(kept: nat)

  /** What a write leaves on disk. */
  function Left(before: Option<seq<byte>>, data: seq<byte>, write: DiskWrite): (after: Option<seq<byte>>) {
    match write
    case Works => Some(data)
    case NotOpened => before
    case Torn(kept) => Some(data[..Min(kept, |data|)])
  }

  /** The contents of two files are told apart by their hashes. */
  predicate Apart(c: Codec, a: Option<seq<byte>>, b: Option<seq<byte>>) {
    a.Some? && b.Some? && c.hash(a.value) == c.hash(b.value) ==> a == b
  }

  class Store {
    const codec: Codec
    const limiter: Limiter.ConnectionLimiter
    var file: FileConfig
    var users: map<string, User>
    var revision: string
    var disk: Option<seq<byte>>

    ghost predicate Valid()
      reads this, limiter
    {
      && Faithful(codec) && Keyed(users) && (forall k :: k in users ==> WellFormed(users[k]))
      && limiter.Valid()
    }

    /** A store that has not read its file yet. */
    constructor (codec: Codec, disk: Option<seq<byte>>)
      requires Faithful(codec)
      ensures this.codec == codec && this.disk == disk && fresh(limiter)
      ensures Valid() && users == map[] && limiter.held == map[]
    {
      this.codec, this.disk := codec, disk;
      limiter := new Limiter.ConnectionLimiter();
      file, users, revision := EMPTY_FILE, map[], "";
    }

    /**
     The file becomes the rows of the users in their order. If writing it fails, the
     rows in memory have changed all the same, and a torn write has changed the disk.
     */
    method Persist(write: DiskWrite) returns (ok: bool)
      requires Valid()
      modifies this`file, this`revision, this`disk
      ensures Valid() && file.general == old(file.general) && Canonical(codec, file.users, users)
      ensures ok <==> codec.marshal(file).Some? && write.Works?
      ensures disk == WrittenOver(old(disk), write)
      ensures revision == if ok then codec.hash(disk.value) else old(revision)
      ensures ok ==> Reflects()
    {
      var us := SortedUsers(users);
      var rows := FromUsers(codec, us);
      file := file.(users := rows);
      assert Canonical(codec, rows, users) by {
        assert Lists(us, users);
      }
      var data := codec.marshal(file);
      if data == None {
        return false;
      }
      disk := Left(disk, data.value, write);
      if !write.Works? {
        return false;
      }
      revision := codec.hash(data.value);
      ok := true;
    }

    /** What writing the file over `before` leaves on disk. */
    function WrittenOver(before: Option<seq<byte>>, write: DiskWrite): Option<seq<byte>>
      reads this
    {
      var data := codec.marshal(file);
      if data == None then before else Left(before, data.value, write)
    }

    /** `generated` are the secrets drawn for rows that have none. A missing file is not a failure to read it. */
    method Reload(generated: nat -> Key, readFails: bool) returns (ok: bool)
      modifies this
      ensures !ok ==> file == old(file) && users == old(users) && revision == old(revision)
      ensures disk == old(disk)
      ensures ok <==> !readFails && (disk.Some? ==> Loadable(codec, disk.value, generated))
      ensures ok && disk == None ==> users == map[] && revision == codec.hash([]) && file == EMPTY_FILE
      ensures old(Valid()) ==> Valid()
      ensures ok && disk.Some? ==>
              && file == codec.unmarshal(disk.value).value && revision == codec.hash(disk.value)
              && IsIndex(codec, file, generated, users)
    {
      if readFails {
        return false;
      }
      if disk == None {
        file, users, revision := EMPTY_FILE, map[], codec.hash([]);
        return true;
      }
      var fc := codec.unmarshal(disk.value);
      if fc == None {
        return false;
      }
      var index := ToIndex(codec, fc.value, generated);
      if index == None {
        return false;
      }
      IndexedAreWellFormed(codec, fc.value, generated, index.value);
      file, users, revision := fc.value, index.value, codec.hash(disk.value);
      ok := true;
    }

    /** The disk holds the settings and the canonical rows of the users in memory, under the revision. */
    ghost predicate Reflects()
      reads this
    {
      && disk.Some? && revision == codec.hash(disk.value)
      && var fc := codec.unmarshal(disk.value);
         fc.Some? && fc.value.general == file.general && Canonical(codec, fc.value.users, users)
    }

    predicate Current(expected: string)
      reads this
    {
      expected == "" || expected == revision
    }

    /** What a request to create has to meet before anything is changed. */
    ghost predicate Creatable(req: Request, expected: string, generated: Key)
      reads this
    {
      && ValidUsername(req.username) && RequestedRow(codec, req).Some? && Current(expected) && req.username !in users
      && ParseRow(codec, RequestedRow(codec, req).value, file.general.defaultHost, generated).Ok?
    }

    /** The user as a request would create it. */
    ghost function Created(req: Request, generated: Key): User
      requires RequestedRow(codec, req).Some?
      requires ParseRow(codec, RequestedRow(codec, req).value, file.general.defaultHost, generated).Ok?
      reads this
    {
      ParseRow(codec, RequestedRow(codec, req).value, file.general.defaultHost, generated).value
    }

    /**
     A user who could not be persisted is taken back, so memory and disk stay together
     exactly if the write left on disk what was there.
     */
    method Create(req: Request, expected: string, generated: Key, write: DiskWrite) returns (created: Option<User>)
      requires Valid()
      modifies this
      ensures Valid() && file.general == old(file.general)
      ensures created == None ==> users == old(users) && revision == old(revision)
      ensures expected != "" && expected != old(revision) ==> created == None && disk == old(disk)
      ensures !old(Creatable(req, expected, generated)) ==> created == None && disk == old(disk)
      ensures old(Creatable(req, expected, generated)) ==>
              && (created.Some? <==> codec.marshal(file).Some? && write.Works?)
              && disk == WrittenOver(old(disk), write)
              && Canonical(codec, file.users, old(users)[req.username := old(Created(req, generated))])
      ensures created.Some? ==>
              && created.value == old(Created(req, generated))
              && users == old(users)[req.username := created.value] && Reflects()
      ensures old(Reflects()) && created == None && Apart(codec, old(disk), disk) ==>
              (Reflects() <==> disk == old(disk))
    {
      hide ParseRow, RequestedRow, Canonical, WellFormed;
      var requested := RequestedRow(codec, req);
      if !ValidUsername(req.username) || requested == None || !Current(expected) || req.username in users {
        return None;
      }
      var row := requested.value;
      var u := ParseRow(codec, row, file.general.defaultHost, generated);
      if u.Err? {
        return None;
      }
      ParsedName(codec, row, file.general.defaultHost, generated);
      ParsedIsWellFormed(codec, row, file.general.defaultHost, generated);
      RequestedName(codec, req);
      ghost var before := users;
      users := users[u.value.username := u.value];
      var persisted := Persist(write);
      if !persisted {
        users := users - {u.value.username};
        assert users == before;
        return None;
      }
      created := Some(u.value);
    }

    /** The user as a patch would leave it, if the patch gets as far as the disk. */
    function Patched(username: string, edit: Edit, expected: string): Option<User>
      reads this
    {
      if Current(expected) && username in users then Edited(codec, users[username], edit) else None
    }

    /**
     An update that could not be persisted is taken back, except that a new secret has
     already made the limiter forget the user.
     */
    method Patch(username: string, edit: Edit, expected: string, write: DiskWrite) returns (patched: Option<User>)
      requires Valid()
      modifies this, limiter
      ensures Valid() && file.general == old(file.general)
      ensures patched == None ==> users == old(users) && revision == old(revision)
      ensures expected != "" && expected != old(revision) ==>
              patched == None && disk == old(disk) && limiter.held == old(limiter.held)
      ensures old(Patched(username, edit, expected)) == None ==> patched == None && disk == old(disk)
      ensures var v := old(Patched(username, edit, expected));
              v.Some? ==>
                && patched == (if codec.marshal(file).Some? && write.Works? then v else None)
                && disk == WrittenOver(old(disk), write)
                && Canonical(codec, file.users, old(users)[username := v.value])
      ensures patched.Some? ==> users == old(users)[username := patched.value] && Reflects()
      ensures var v := old(Patched(username, edit, expected));
              limiter.held == if v.Some? && v.value.secret != old(users)[username].secret
                              then old(limiter.held) - {username} else old(limiter.held)
      ensures old(Reflects()) && patched == None && Apart(codec, old(disk), disk) ==>
              (Reflects() <==> disk == old(disk))
    {
      hide Canonical, WellFormed, Edited, ValidUsername;
      NamesAreValid(users);
      if !ValidUsername(username) || !Current(expected) || username !in users {
        return None;
      }
      var u := users[username];
      patched := Edited(codec, u, edit);
      if patched == None {
        return;
      }
      EditedIsWellFormed(codec, u, edit);
      if patched.value.secret != u.secret {
        limiter.ClearUser(username);
      }
      ghost var before := users;
      users := users[username := patched.value];
      var persisted := Persist(write);
      if !persisted {
        users := users[username := u];
        assert users == before;
        return None;
      }
    }

    /** The users are walked in any order, and the first one with the key is taken. */
    method UserBySecret(secret: Secret) returns (user: Option<User>)
      requires Valid()
      ensures user.Some? ==> user.value.username in users && users[user.value.username] == user.value
      ensures Connections.Picks(AccountsOf(users), secret.key, if user.Some? then Some(user.value.username) else None)
    {
      var left := users.Keys;
      while left != {}
        invariant left <= users.Keys
        invariant forall k :: k in users && k !in left ==> users[k].secret.key != secret.key
        decreases left
      {
        var k :| k in left;
        if users[k].secret.key == secret.key {
          return Some(users[k]);
        }
        left := left - {k};
      }
      user := None;
    }

    /** A connection is counted under whatever user is found, and let in uncounted if there is none. */
    method Acquire(secret: Secret, ip: Limiter.Ip) returns (admitted: bool, pick: Option<string>)
      requires Valid()
      modifies limiter
      ensures Valid() && Connections.Picks(AccountsOf(users), secret.key, pick)
      ensures pick == None ==> admitted && limiter.held == old(limiter.held)
      ensures pick.Some? ==>
              var limit := users[pick.value].maxUniqueIPs;
              && limiter.held == Limiter.After(old(limiter.held), Limiter.Acquire(pick.value, limit, ip))
              && (admitted <==> Limiter.Admits(limit, Limiter.Of(old(limiter.held), pick.value), ip))
    {
      var user := UserBySecret(secret);
      if user == None {
        return true, None;
      }
      pick := Some(user.value.username);
      admitted := limiter.TryAcquire(Some((user.value.username, user.value.maxUniqueIPs)), ip);
    }

    /** And given back under whatever user is found then. */
    method Release(secret: Secret, ip: Limiter.Ip) returns (pick: Option<string>)
      requires Valid()
      modifies limiter
      ensures Valid() && Connections.Picks(AccountsOf(users), secret.key, pick)
      ensures limiter.held == if pick == None then old(limiter.held)
                              else Limiter.After(old(limiter.held), Limiter.Release(pick.value, ip))
    {
      var user := UserBySecret(secret);
      pick := if user == None then None else Some(user.value.username);
      limiter.DoRelease(pick, ip);
    }

    /** A user who could not be removed from the disk stays removed from memory. */
    method Delete(username: string, expected: string, write: DiskWrite) returns (result: Deleted)
      requires Valid()
      modifies this, limiter
      ensures Valid() && file.general == old(file.general)
      ensures result == Refused <==> !(ValidUsername(username) && old(Current(expected)) && username in old(users))
      ensures result == Refused ==> unchanged(this) && unchanged(limiter)
      ensures expected != "" && expected != old(revision) ==> result == Refused
      ensures result != Refused ==>
              && users == old(users) - {username} && limiter.held == old(limiter.held) - {username}
              && (result == Gone <==> codec.marshal(file).Some? && write.Works?)
              && disk == WrittenOver(old(disk), write) && Canonical(codec, file.users, users)
      ensures result == Gone ==> Reflects()
      ensures result == NotPersisted ==> revision == old(revision)
      ensures old(Reflects()) && Apart(codec, old(disk), disk) ==> (Reflects() <==> result != NotPersisted)
    {
      hide Canonical, WellFormed, Faithful;
      if !ValidUsername(username) || !Current(expected) || username !in users {
        return Refused;
      }
      ghost var before := users;
      users := users - {username};
      limiter.ClearUser(username);
      var persisted := Persist(write);
      result := if persisted then Gone else NotPersisted;
      if !persisted && disk.Some? && codec.unmarshal(disk.value).Some? {
        ghost var rows := codec.unmarshal(disk.value).value.users;
        if Canonical(codec, rows, before) && Canonical(codec, rows, users) {
          RowsNameUsers(codec, rows, before, users, username);
        }
      }
    }
  }

  /** A field of a request: absent, unreadable, or a value. */
  datatype Field<+T> = Keep | Unreadable | Set(value: T)

  datatype Request = Request(username: string, secret: string, expiration: string, maxUniqueIPs: Field<nat>)

  datatype Deleted = Refused | Gone | NotPersisted

  /** None stands for null. */
  datatype Edit = Edit(secret: Field<string>, expiration: Field<Option<string>>, maxUniqueIPs: Field<Option<nat>>)

  function AccountsOf(users: map<string, User>): (accounts: map<string, Connections.Account>) {
    map k | k in users :: Connections.Account(users[k].secret, users[k].maxUniqueIPs)
  }

  /** An expiration in a request; the empty text is none. */
  function ReadTime(c: Codec, text: string): (t: Result<Option<int>, RowError>) {
    if text == "" then Ok(None) else if c.parse(text) == None then Err(BadExpiration) else Ok(c.parse(text))
  }

  function RequestedRow(c: Codec, req: Request): (row: Option<FileUser>) {
    var t := ReadTime(c, req.expiration);
    if t.Err? || req.maxUniqueIPs.Unreadable? then None
    else Some(FileUser(req.username, req.secret,
                       if t.value.Some? then c.format(t.value.value / NANOSECONDS) else "",
                       if req.maxUniqueIPs.Set? then req.maxUniqueIPs.value else 0))
  }

  lemma RequestedName(c: Codec, req: Request)
    ensures RequestedRow(c, req).Some? ==> RequestedRow(c, req).value.username == req.username
  {
  }

  function EditedTime(c: Codec, u: User, e: Edit): (t: Result<Option<int>, RowError>) {
    match e.expiration
    case Keep => Ok(u.expiresAt)
    case Unreadable => Err(BadExpiration)
    case Set(text) => if text == None then Ok(None) else ReadTime(c, text.value)
  }

  function Edited(c: Codec, u: User, e: Edit): (v: Option<User>) {
    var secret := match e.secret
                  case Keep => Ok(u.secret)
                  case Unreadable => Err(BadFormat)
                  case Set(text) => ParseSecret(text);
    var t := EditedTime(c, u, e);
    if secret.Err? || t.Err? || e.maxUniqueIPs.Unreadable? then None
    else if secret.value.host == [] || secret.value.key == Zeros(KEY_LENGTH) then None
    else Some(User(u.username, secret.value, t.value,
                   if e.maxUniqueIPs.Set? then e.maxUniqueIPs.value else u.maxUniqueIPs))
  }

  lemma EditedIsWellFormed(c: Codec, u: User, e: Edit)
    requires WellFormed(u)
    ensures Edited(c, u, e).Some? ==> WellFormed(Edited(c, u, e).value) && Edited(c, u, e).value.username == u.username
  {
    hide ParseSecret, ValidUsername;
  }

  /** A patched secret is the one its text denotes, in either form, and the rest is kept or set field by field. */
  lemma EditedSecret(c: Codec, u: User, e: Edit, s: Secret)
    requires e.secret == Set(Hex(s)) || e.secret == Set(Base64(s))
    ensures Edited(c, u, e).Some? <==>
            && s.host != [] && s.key != Zeros(KEY_LENGTH) && EditedTime(c, u, e).Ok? && !e.maxUniqueIPs.Unreadable?
    ensures Edited(c, u, e).Some? ==> Edited(c, u, e).value.secret == s
  {
    hide ParseSecret, Hex, Base64;
    SecretRoundTrip(s);
  }

  lemma EditedFields(c: Codec, u: User, e: Edit)
    requires Edited(c, u, e).Some?
    ensures var v := Edited(c, u, e).value;
            && v.username == u.username
            && (e.secret == Keep ==> v.secret == u.secret)
            && (e.expiration == Keep ==> v.expiresAt == u.expiresAt)
            && (e.expiration == Set(None) || e.expiration == Set(Some("")) ==> v.expiresAt == None)
            && (e.maxUniqueIPs == Keep ==> v.maxUniqueIPs == u.maxUniqueIPs)
            && (e.maxUniqueIPs.Set? ==> v.maxUniqueIPs == e.maxUniqueIPs.value)
  {
    hide ParseSecret;
  }

  /** An edited user survives the file unless the edit brings a zero limit or part of a second. */
  lemma EditedLastsWhen(c: Codec, u: User, e: Edit)
    requires Lasting(u) && Edited(c, u, e).Some?
    ensures Lasting(Edited(c, u, e).value) <==>
            && e.maxUniqueIPs != Set(Some(0))
            && var t := EditedTime(c, u, e).value; t.Some? ==> t.value % NANOSECONDS == 0
  {
    hide ParseSecret, EditedTime;
  }

  /** The text of a time that is in the year 9999 where it was written, and in the year 10000 in UTC. */
  const LATE := "9999-12-31T23:59:59-01:00"
  const LATE_SECOND := 253_402_304_399

  /**
   A time that can be read but not written back: a request to create a user with it is
   refused, because creation goes through a row, while a patch lets it in, and the row
   it is stored as does not parse.
   */
  lemma LateTimeGoesIn(c: Codec, u: User, req: Request, defaultHost: seq<byte>, generated: Key, t: int)
    requires Faithful(c) && WellFormed(u) && u.secret.key != Zeros(KEY_LENGTH) && ValidUsername(req.username)
    requires req.expiration != "" && c.parse(req.expiration) == Some(t) && !Writable(t / NANOSECONDS)
    ensures RequestedRow(c, req).Some? ==>
            ParseRow(c, RequestedRow(c, req).value, defaultHost, generated) == Err(BadExpiration)
    ensures var v := Edited(c, u, Edit(Keep, Set(Some(req.expiration)), Keep));
            && v == Some(u.(expiresAt := Some(t)))
            && ParseRow(c, RowOf(c, v.value), defaultHost, generated) == Err(BadExpiration)
  {
    hide ParseSecret, Base64, Writable, ValidUsername;
    assert c.format(t / NANOSECONDS) != "" && c.parse(c.format(t / NANOSECONDS)) == None;
    RowRoundTrip(c, u.(expiresAt := Some(t)), defaultHost, generated);
  }

  lemma LateIsNotWritable()
    ensures LATE != "" && !Writable(LATE_SECOND * NANOSECONDS / NANOSECONDS)
  {
  }

  lemma ParsedIsWellFormed(c: Codec, row: FileUser, defaultHost: seq<byte>, generated: Key)
    ensures var r := ParseRow(c, row, defaultHost, generated); r.Ok? ==> WellFormed(r.value)
  {
    hide Base64, DecodeText;
  }

  lemma IndexedAreWellFormed(c: Codec, fc: FileConfig, generated: nat -> Key, users: map<string, User>)
    requires IsIndex(c, fc, generated, users)
    ensures forall k :: k in users ==> WellFormed(users[k])
  {
    hide ParseRow, WellFormed;
    forall k | k in users ensures WellFormed(users[k]) {
      var i :| 0 <= i < |fc.users| && fc.users[i].username == k;
      ParsedIsWellFormed(c, fc.users[i], fc.general.defaultHost, generated(i));
    }
  }

  /** Canonical rows of two sets of users are different unless the names are the same. */
  lemma RowsNameUsers(c: Codec, rows: seq<FileUser>, a: map<string, User>, b: map<string, User>, name: string)
    requires Keyed(a) && Keyed(b) && Canonical(c, rows, a) && Canonical(c, rows, b) && name in a
    ensures name in b
  {
    hide Increasing, Base64;
    var us: seq<User> :| Lists(us, a) && |rows| == |us| && forall i :: 0 <= i < |us| ==> rows[i] == RowOf(c, us[i]);
    var vs: seq<User> :| Lists(vs, b) && |rows| == |vs| && forall i :: 0 <= i < |vs| ==> rows[i] == RowOf(c, vs[i]);
    assert a[name] in a.Values;
    var i :| 0 <= i < |us| && us[i] == a[name];
    assert rows[i].username == name == vs[i].username;
    assert vs[i] in vs;
    var k :| k in b && b[k] == vs[i];
  }

  ghost predicate Canonical(c: Codec, rows: seq<FileUser>, users: map<string, User>) {
    exists us :: Lists(us, users) && |rows| == |us| && forall i :: 0 <= i < |us| ==> rows[i] == RowOf(c, us[i])
  }

  ghost predicate Loads(c: Codec, fc: FileConfig, generated: nat -> Key) {
    && (forall i :: 0 <= i < |fc.users| ==> ParseRow(c, fc.users[i], fc.general.defaultHost, generated(i)).Ok?)
    && (forall i, j :: 0 <= i < j < |fc.users| ==> fc.users[i].username != fc.users[j].username)
  }

  ghost predicate Loadable(c: Codec, data: seq<byte>, generated: nat -> Key) {
    c.unmarshal(data).Some? && Loads(c, c.unmarshal(data).value, generated)
  }

  /** The map holds what the first `n` rows say, under different names. */
  ghost predicate Indexed(c: Codec, fc: FileConfig, generated: nat -> Key, users: map<string, User>, n: nat)
    requires n <= |fc.users|
  {
    && Keyed(users)
    && (forall name :: name in users ==> exists i :: 0 <= i < n && fc.users[i].username == name)
    && (forall i :: 0 <= i < n ==>
          && fc.users[i].username in users
          && Ok(users[fc.users[i].username]) == ParseRow(c, fc.users[i], fc.general.defaultHost, generated(i)))
    && (forall i, j :: 0 <= i < j < n ==> fc.users[i].username != fc.users[j].username)
  }

  ghost predicate IsIndex(c: Codec, fc: FileConfig, generated: nat -> Key, users: map<string, User>) {
    Indexed(c, fc, generated, users, |fc.users|)
  }

  /** Rows in canonical order are a function of the users: no two lists of rows fit the same map. */
  lemma RowsAreCanonical(c: Codec, rows: seq<FileUser>, others: seq<FileUser>, users: map<string, User>)
    requires Canonical(c, rows, users) && Canonical(c, others, users)
    ensures rows == others
  {
    var us: seq<User> :| Lists(us, users) && |rows| == |us| && forall i :: 0 <= i < |us| ==> rows[i] == RowOf(c, us[i]);
    var vs: seq<User> :|
      Lists(vs, users) && |others| == |vs| && forall i :: 0 <= i < |vs| ==> others[i] == RowOf(c, vs[i]);
    ListsAreCanonical(us, vs, users);
  }

  ghost predicate AllReadable(users: map<string, User>) {
    forall k :: k in users ==> Readable(users[k])
  }

  /** The row of every user is parsed to what the file keeps of the user, or refused for its expiration. */
  lemma CanonicalRows(c: Codec, fc: FileConfig, us: seq<User>, users: map<string, User>, generated: nat -> Key)
    requires Faithful(c) && Keyed(users) && (forall k :: k in users ==> WellFormed(users[k]))
    requires Lists(us, users) && |fc.users| == |us| && forall i :: 0 <= i < |us| ==> fc.users[i] == RowOf(c, us[i])
    ensures forall i :: 0 <= i < |us| ==>
              && us[i].username in users && users[us[i].username] == us[i]
              && ParseRow(c, fc.users[i], fc.general.defaultHost, generated(i))
                 == if Readable(us[i]) then Ok(Stored(us[i])) else Err(BadExpiration)
    ensures forall i, j :: 0 <= i < j < |us| ==> fc.users[i].username != fc.users[j].username
  {
    hide ParseSecret, Base64, ParseRow, Stored, WellFormed, Readable;
    forall i | 0 <= i < |us|
      ensures us[i].username in users && users[us[i].username] == us[i]
      ensures ParseRow(c, fc.users[i], fc.general.defaultHost, generated(i))
           == if Readable(us[i]) then Ok(Stored(us[i])) else Err(BadExpiration)
    {
      assert us[i] in us;
      var k :| k in users && users[k] == us[i];
      RowRoundTrip(c, us[i], fc.general.defaultHost, generated(i));
    }
    forall i, j | 0 <= i < j < |us| ensures fc.users[i].username != fc.users[j].username {
      LessIsStrict(us[i].username, us[j].username);
    }
  }

  /** Canonical rows load if and only if every expiration can be read back, to what the file keeps of every user. */
  lemma LoadedUsers(c: Codec, fc: FileConfig, users: map<string, User>, generated: nat -> Key,
                    loaded: map<string, User>)
    requires Faithful(c) && Keyed(users) && (forall k :: k in users ==> WellFormed(users[k]))
    requires Canonical(c, fc.users, users)
    ensures Loads(c, fc, generated) <==> AllReadable(users)
    ensures IsIndex(c, fc, generated, loaded) ==> Restored(users, loaded)
  {
    hide ParseSecret, Base64, ParseRow, Stored, WellFormed, Less, Increasing, Faithful, Readable;
    var us: seq<User> :|
      Lists(us, users) && |fc.users| == |us| && forall i :: 0 <= i < |us| ==> fc.users[i] == RowOf(c, us[i]);
    CanonicalRows(c, fc, us, users, generated);
    forall k | k in users
      ensures exists i :: 0 <= i < |us| && us[i] == users[k] && fc.users[i].username == k
    {
      assert users[k] in users.Values;
      assert users[k] in us;
      var i :| 0 <= i < |us| && us[i] == users[k];
      assert fc.users[i].username == k;
    }
    hide Lists;
    if Loads(c, fc, generated) {
      forall k | k in users ensures Readable(users[k]) {
        var i :| 0 <= i < |us| && us[i] == users[k] && fc.users[i].username == k;
        assert ParseRow(c, fc.users[i], fc.general.defaultHost, generated(i)).Ok?;
      }
    }
    if IsIndex(c, fc, generated, loaded) {
      IndexRestores(c, fc, us, users, generated, loaded);
    }
  }

  lemma IndexRestores(c: Codec, fc: FileConfig, us: seq<User>, users: map<string, User>, generated: nat -> Key,
                      loaded: map<string, User>)
    requires IsIndex(c, fc, generated, loaded) && |fc.users| == |us|
    requires forall i :: 0 <= i < |us| ==>
               && fc.users[i].username == us[i].username && us[i].username in users
               && ParseRow(c, fc.users[i], fc.general.defaultHost, generated(i))
                  == if Readable(us[i]) then Ok(Stored(us[i])) else Err(BadExpiration)
    requires forall k :: k in users ==> exists i :: 0 <= i < |us| && us[i] == users[k] && fc.users[i].username == k
    ensures Restored(users, loaded)
  {
    hide ParseRow, Stored, Readable, Keyed;
    forall i | 0 <= i < |us|
      ensures us[i].username in loaded && loaded[us[i].username] == Stored(us[i])
    {
      assert Ok(loaded[fc.users[i].username]) == ParseRow(c, fc.users[i], fc.general.defaultHost, generated(i));
    }
    forall k | k in users ensures k in loaded && loaded[k] == Stored(users[k]) {
      var i :| 0 <= i < |us| && us[i] == users[k] && fc.users[i].username == k;
    }
    forall k | k in loaded ensures k in users {
      var i :| 0 <= i < |fc.users| && fc.users[i].username == k;
    }
  }

  /**
   A reload after a successful persist succeeds if and only if every expiration can be
   read back. Then it restores the revision and the settings, and the users if and only
   if each of them is lasting; otherwise nothing changes.
   */
  method PersistThenReload(s: Store, generated: nat -> Key) returns (persisted: bool, reloaded: bool)
    requires s.Valid()
    modifies s
    ensures persisted ==>
            && (reloaded <==> AllReadable(old(s.users)))
            && s.disk.Some? && s.revision == s.codec.hash(s.disk.value) && s.file.general == old(s.file.general)
            && if reloaded
               then && Restored(old(s.users), s.users)
                    && (s.users == old(s.users) <==> forall k :: k in old(s.users) ==> Lasting(old(s.users)[k]))
               else s.users == old(s.users)
  {
    ghost var users := s.users;
    reloaded := false;
    persisted := s.Persist(Works);
    if persisted {
      ghost var file := s.file;
      assert s.codec.unmarshal(s.disk.value) == Some(file);
      hide Loads, IsIndex, Canonical, Faithful, Stored, WellFormed, Keyed, Restored, Lasting, AllReadable;
      LoadedUsers(s.codec, file, users, generated, users);
      reloaded := s.Reload(generated, false);
      if reloaded {
        LoadedUsers(s.codec, file, users, generated, s.users);
        RestoredWhenLasting(users, s.users);
      }
    }
  }

  /** Two stores with equal users and settings write equal bytes, in whatever order their maps are walked. */
  method EqualStoresWriteEqualBytes(s: Store, t: Store) returns (first: bool, second: bool)
    requires s.Valid() && t.Valid() && s != t && s.codec == t.codec
    requires s.users == t.users && s.file.general == t.file.general
    modifies s, t
    ensures first == second
    ensures first ==> s.disk == t.disk && s.disk.Some? && s.revision == t.revision
  {
    hide Canonical, Faithful, WellFormed;
    first := s.Persist(Works);
    second := t.Persist(Works);
    RowsAreCanonical(s.codec, s.file.users, t.file.users, s.users);
  }

  /** The expiration of an edit, if it sets one, can be read back. */
  predicate ReadableEdit(c: Codec, e: Edit) {
    match e.expiration
    case Set(Some(text)) => c.parse(text).Some? ==> Writable(c.parse(text).value / NANOSECONDS)
    case _ => true
  }

  lemma EditedIsReadable(c: Codec, u: User, e: Edit)
    requires Readable(u) && ReadableEdit(c, e)
    ensures Edited(c, u, e).Some? ==> Readable(Edited(c, u, e).value)
  {
    hide ParseSecret, Writable;
  }

  lemma RequestedIsReadable(c: Codec, req: Request, defaultHost: seq<byte>, generated: Key)
    requires Faithful(c) && RequestedRow(c, req).Some?
    ensures var r := ParseRow(c, RequestedRow(c, req).value, defaultHost, generated); r.Ok? ==> Readable(r.value)
  {
    hide ParseSecret, Base64, Writable;
    var t := ReadTime(c, req.expiration).value;
    if t.Some? {
      var sec := t.value / NANOSECONDS;
      assert c.parse(c.format(sec)) == if Writable(sec) then Some(sec * NANOSECONDS) else None;
    }
  }

  datatype Change =
    | Creating(req: Request, generated: Key)
    | Patching(name: string, edit: Edit)
    | Deleting(username: string)

  /** What is asked of the store: a change, the revision it expects, and how the disk is going to take it. */
  datatype Call = Call(change: Change, expected: string, write: DiskWrite)

  /** No write is torn, and every deletion gets to the disk. */
  ghost predicate DiskHolds(c: Codec, calls: seq<Call>) {
    && (forall fc :: c.marshal(fc).Some?)
    && (forall i :: 0 <= i < |calls| ==> !calls[i].write.Torn?)
    && (forall i :: 0 <= i < |calls| && calls[i].change.Deleting? ==> calls[i].write.Works?)
  }

  ghost predicate EditsReadable(c: Codec, calls: seq<Call>) {
    forall i :: 0 <= i < |calls| && calls[i].change.Patching? ==> ReadableEdit(c, calls[i].change.edit)
  }

  /**
   Over any run of changes, disk and memory stay together as long as no write was torn
   and no deletion failed to be written, and the file stays readable as long as no
   patch brought in an expiration that cannot be read back.
   */
  method StoreRun(s: Store, calls: seq<Call>) returns (lost: bool)
    requires s.Valid() && s.Reflects()
    modifies s, s.limiter
    ensures s.Valid() && s.file.general == old(s.file.general)
    ensures !lost ==> s.Reflects()
    ensures DiskHolds(s.codec, calls) ==> !lost
    ensures old(AllReadable(s.users)) && EditsReadable(s.codec, calls) ==> AllReadable(s.users)
  {
    hide ParseRow, RequestedRow, Edited, Readable, ReadableEdit, Faithful, Keyed, WellFormed, Canonical;
    lost := false;
    for i := 0 to |calls|
      invariant s.Valid() && s.file.general == old(s.file.general) && (!lost ==> s.Reflects())
      invariant DiskHolds(s.codec, calls) ==> !lost
      invariant old(AllReadable(s.users)) && EditsReadable(s.codec, calls) ==> AllReadable(s.users)
    {
      var parted := Serve(s, calls[i]);
      lost := lost || parted;
    }
  }

  /** One call; `parted` says that it left memory and disk apart. */
  method Serve(s: Store, call: Call) returns (parted: bool)
    requires s.Valid()
    modifies s, s.limiter
    ensures s.Valid() && s.file.general == old(s.file.general)
    ensures old(s.Reflects()) && !parted ==> s.Reflects()
    ensures old(s.Reflects()) && Apart(s.codec, old(s.disk), s.disk) ==> (s.Reflects() <==> !parted)
    ensures match call.change
            case Deleting(name) =>
              parted <==> name in old(s.users) && name !in s.users
                          && !(call.write.Works? && s.codec.marshal(s.file).Some?)
            case _ => parted <==> !call.write.Works? && s.disk != old(s.disk)
    ensures DiskHolds(s.codec, [call]) ==> !parted
    ensures old(AllReadable(s.users)) && EditsReadable(s.codec, [call]) ==> AllReadable(s.users)
  {
    hide ParseRow, RequestedRow, Edited, Readable, ReadableEdit, Faithful, Keyed, WellFormed, Canonical;
    ghost var alone := [call][0];
    var before := s.disk;
    match call.change {
      case Creating(req, generated) =>
        if RequestedRow(s.codec, req).Some? {
          RequestedIsReadable(s.codec, req, s.file.general.defaultHost, generated);
        }
        var created := s.Create(req, call.expected, generated, call.write);
        parted := created == None && s.disk != before;
      case Patching(name, edit) =>
        if name in s.users && Readable(s.users[name]) && ReadableEdit(s.codec, edit) {
          EditedIsReadable(s.codec, s.users[name], edit);
        }
        var patched := s.Patch(name, edit, call.expected, call.write);
        parted := patched == None && s.disk != before;
      case Deleting(username) =>
        var result := s.Delete(username, call.expected, call.write);
        parted := result == NotPersisted;
    }
  }

  lemma NamesAreValid(users: map<string, User>)
    requires Keyed(users) && forall k :: k in users ==> WellFormed(users[k])
    ensures forall k :: k in users ==> ValidUsername(k)
  {
    hide ValidUsername;
  }

  /**
   A user whose deletion could not open the file is gone from memory, and comes back
   with the next reload, unless the file cannot be read any more.
   */
  method FailedDeletionComesBack(s: Store, username: string, generated: nat -> Key)
    returns (result: Deleted, gone: bool, reloaded: bool)
    requires s.Valid() && s.Reflects() && username in s.users
    modifies s, s.limiter
    ensures result == NotPersisted && gone
    ensures reloaded <==> AllReadable(old(s.users))
    ensures if reloaded then Restored(old(s.users), s.users) && username in s.users else username !in s.users
  {
    hide Loads, IsIndex, Canonical, Stored, Keyed, Faithful, WellFormed, ValidUsername, AllReadable;
    ghost var users, fc := s.users, s.codec.unmarshal(s.disk.value).value;
    NamesAreValid(users);
    result := s.Delete(username, "", NotOpened);
    gone := username !in s.users;
    LoadedUsers(s.codec, fc, users, generated, users);
    reloaded := s.Reload(generated, false);
    if reloaded {
      LoadedUsers(s.codec, fc, users, generated, s.users);
    }
  }

  /** A patch to the late time is accepted and written, and then the whole file does not load any more. */
  method LatePatchLocksOut(s: Store, username: string, generated: nat -> Key)
    returns (patched: Option<User>, reloaded: bool)
    requires s.Valid() && username in s.users && s.users[username].secret.key != Zeros(KEY_LENGTH)
    requires (forall fc :: s.codec.marshal(fc).Some?) && s.codec.parse(LATE) == Some(LATE_SECOND * NANOSECONDS)
    modifies s, s.limiter
    ensures patched == Some(old(s.users)[username].(expiresAt := Some(LATE_SECOND * NANOSECONDS)))
    ensures !reloaded && s.users == old(s.users)[username := patched.value]
  {
    hide Loads, IsIndex, Canonical, Stored, Faithful, WellFormed, Edited, RequestedRow, ParseRow;
    ghost var u := s.users[username];
    ghost var edit := Edit(Keep, Set(Some(LATE)), Keep);
    LateIsNotWritable();
    NamesAreValid(s.users);
    LateTimeGoesIn(s.codec, u, Request(u.username, "", LATE, Keep), [], u.secret.key, LATE_SECOND * NANOSECONDS);
    patched := s.Patch(username, Edit(Keep, Set(Some(LATE)), Keep), "", Works);
    ghost var fc := s.codec.unmarshal(s.disk.value).value;
    LoadedUsers(s.codec, fc, s.users, generated, s.users);
    assert !Readable(s.users[username]);
    reloaded := s.Reload(generated, false);
  }

  /**
   A patch that fails on disk leaves users, disk and counts as they were if and only if
   the write left on disk what was there, and the secret stays or the user is idle.
   */
  method FailedPatchKeepsCounts(s: Store, username: string, edit: Edit, write: DiskWrite)
    returns (patched: Option<User>)
    requires s.Valid() && s.Patched(username, edit, "").Some? && !write.Works?
    modifies s, s.limiter
    ensures patched == None && s.users == old(s.users) && s.revision == old(s.revision)
    ensures s.disk == s.WrittenOver(old(s.disk), write)
    ensures s.limiter.held == old(s.limiter.held) <==>
            || old(s.Patched(username, edit, "")).value.secret == old(s.users)[username].secret
            || Limiter.Of(old(s.limiter.held), username) == multiset{}
  {
    hide Edited, WellFormed, Faithful, Keyed, Canonical;
    patched := s.Patch(username, edit, "", write);
  }

  /**
   A patch on a full disk: the file was truncated and nothing written. The patch is
   taken back, memory and disk have parted, and since an empty file is a valid one the
   next reload succeeds and forgets everybody.
   */
  method TornWriteForgetsEverybody(s: Store, username: string, edit: Edit, generated: nat -> Key)
    returns (patched: Option<User>, ghost parted: bool, reloaded: bool)
    requires s.Valid() && s.Patched(username, edit, "").Some?
    requires (forall fc :: s.codec.marshal(fc).Some?) && s.codec.unmarshal([]) == Some(EMPTY_FILE)
    modifies s, s.limiter
    ensures patched == None && parted && reloaded
    ensures s.users == map[] && s.file == EMPTY_FILE && s.disk == Some([])
  {
    hide Edited, WellFormed, Faithful, ParseRow;
    patched := s.Patch(username, edit, "", Torn(0));
    if Canonical(s.codec, [], s.users) {
      NoRowsNoUsers(s.codec, s.users);
    }
    parted := !s.Reflects();
    reloaded := s.Reload(generated, false);
    assert forall k :: k !in s.users;
  }

  lemma NoRowsNoUsers(c: Codec, users: map<string, User>)
    requires Canonical(c, [], users)
    ensures users == map[]
  {
    assert forall k :: k in users ==> users[k] in users.Values;
    var us: seq<User> :| Lists(us, users) && |us| == 0;
    assert users.Values == {};
  }
}
