/**
 The limiter over whole connections (mtglib/proxy.go, internal/users/limits.go,
 internal/users/store.go): a connection is counted and given back under whatever user
 the store finds for its secret at that time, while users are created, re-keyed,
 deleted and reloaded.
 */
module Connections {
  import opened Bytes
  import opened Counting
  import opened Secrets
  import opened Limiter

  /** A connection that was let in, and the user it was counted under, if any. */
  datatype Live = Live(key: Key, ip: Ip, owner: Option<User>)

  /** What the store holds of a user, as far as connections depend on it. */
  datatype Account = Account(secret: Secret, limit: Option<nat>)

  datatype State = State(users: map<User, Account>, held: Held, live: map<nat, Live>)

  datatype Step =
    | Connect(id: nat, key: Key, ip: Ip, pick: Option<User>, limit: Option<nat>)
    | Disconnect(id: nat, pick: Option<User>)
    | Relimit(user: User, limit: Option<nat>)                 // a change of the limit alone
    | Create(user: User, account: Account)
    | Rekey(user: User, account: Account, written: bool)      // a patch of the secret, written to disk or not
    | Delete(user: User)
    | Reload(users: map<User, Account>)

  /** What a search for a key may find: any user with that key, and nobody only if there is none. */
  predicate Picks(users: map<User, Account>, key: Key, pick: Option<User>) {
    match pick
    case Some(u) => u in users && users[u].secret.key == key
    case None => forall u :: u in users ==> users[u].secret.key != key
  }

  /** Limits may change at any time; what matters is who has which secret. */
  predicate IsChange(step: Step) {
    step.Create? || step.Rekey? || step.Delete? || step.Reload?
  }

  predicate Enabled(s: State, step: Step) {
    match step
    case Connect(id, key, _, pick, limit) =>
      id !in s.live && Picks(s.users, key, pick) && limit == if pick == None then None else s.users[pick.value].limit
    case Disconnect(id, pick) => id in s.live && Picks(s.users, s.live[id].key, pick)
    case Relimit(u, _) => u in s.users
    case Create(u, _) => u !in s.users
    case Rekey(u, account, _) => u in s.users && account.secret != s.users[u].secret
    case Delete(u) => u in s.users
    case Reload(_) => true
  }

  /** What a step does to the limiter: a deletion and a new secret, written or not, forget the user's counts. */
  function Effect(s: State, step: Step): (op: Option<Op>)
    requires Enabled(s, step)
  {
    match step
    case Connect(_, _, ip, pick, limit) => if pick == None then None else Some(Acquire(pick.value, limit, ip))
    case Disconnect(id, pick) => if pick == None then None else Some(Release(pick.value, s.live[id].ip))
    case Rekey(u, _, _) => Some(Clear(u))
    case Delete(u) => Some(Clear(u))
    case _ => None
  }

  /** A connection of nobody is let in and not counted, a refused one is gone. */
  ghost function Perform(s: State, step: Step): (s': State)
    requires Enabled(s, step)
  {
    var op := Effect(s, step);
    var t := if op == None then s else s.(held := After(s.held, op.value));
    match step
    case Connect(id, key, ip, pick, limit) =>
      if pick == None || Admits(limit, Of(s.held, pick.value), ip)
      then t.(live := s.live[id := Live(key, ip, pick)]) else t
    case Disconnect(id, _) => t.(live := s.live - {id})
    case Relimit(u, limit) => t.(users := s.users[u := s.users[u].(limit := limit)])
    case Create(u, account) => t.(users := s.users[u := account])
    case Rekey(u, account, written) => if written then t.(users := s.users[u := account]) else t
    case Delete(u) => t.(users := s.users - {u})
    case Reload(users) => t.(users := users)
  }

  ghost function Exec(s: State, steps: seq<Step>): (r: Option<State>) {
    if steps == [] then Some(s)
    else match Exec(s, steps[..|steps| - 1])
      case None => None
      case Some(m) =>
        var step := steps[|steps| - 1];
        if Enabled(m, step) then Some(Perform(m, step)) else None
  }

  function Init(users: map<User, Account>): State {
    State(users, map[], map[])
  }

  // ----- counting live connections

  predicate Counted(l: Live, u: User, ip: Ip) {
    l.owner == Some(u) && l.ip == ip
  }

  function Under(u: User, ip: Ip): (nat, Live) -> bool {
    (id, l) => Counted(l, u, ip)
  }

  ghost function Count(live: map<nat, Live>, u: User, ip: Ip): (n: nat) {
    CountIf(live, Under(u, ip))
  }

  /** The table of every user is the addresses of the live connections let in under that user. */
  ghost predicate Agree(s: State) {
    forall u, ip :: Of(s.held, u)[ip] == Count(s.live, u, ip)
  }

  predicate DistinctKeys(users: map<User, Account>) {
    forall u, v :: u in users && v in users && u != v ==> users[u].secret.key != users[v].secret.key
  }

  /** Keys are distinct, and every live connection would be found under the user it was counted under. */
  predicate Steady(s: State) {
    && DistinctKeys(s.users)
    && forall id :: id in s.live ==> Picks(s.users, s.live[id].key, s.live[id].owner)
  }

  predicate Idle(s: State, u: User) {
    forall id :: id in s.live ==> s.live[id].owner != Some(u)
  }

  /** Nobody has the key, no user and no live connection. */
  predicate Unused(s: State, key: Key) {
    && (forall u :: u in s.users ==> s.users[u].secret.key != key)
    && (forall id :: id in s.live ==> s.live[id].key != key)
  }

  /** What a change has to find for the counts to stay right. */
  predicate Harmless(s: State, change: Step)
    requires IsChange(change) && Enabled(s, change)
  {
    match change
    case Create(_, account) => Unused(s, account.secret.key)
    case Rekey(u, account, written) =>
      && Idle(s, u)
      && (written ==> account.secret.key == s.users[u].secret.key || Unused(s, account.secret.key))
    case Delete(u) => Idle(s, u)
    case Reload(users) =>
      DistinctKeys(users) && forall id :: id in s.live ==> Picks(users, s.live[id].key, s.live[id].owner)
  }

  // ----- connections alone

  lemma ConnectKeeps(s: State, step: Step)
    requires Agree(s) && Steady(s) && Enabled(s, step) && step.Connect?
    ensures Agree(Perform(s, step)) && Steady(Perform(s, step))
  {
    hide CountIf, Admits, After, Of;
    var s', l := Perform(s, step), Live(step.key, step.ip, step.pick);
    forall u, ip ensures Of(s'.held, u)[ip] == Count(s'.live, u, ip) {
      CountSet(s.live, Under(u, ip), step.id, l);
      assert Of(s.held, u)[ip] == Count(s.live, u, ip);
      if step.pick.Some? {
        OneUser(s.held, Acquire(step.pick.value, step.limit, step.ip), u);
      }
    }
  }

  lemma DisconnectKeeps(s: State, step: Step)
    requires Agree(s) && Steady(s) && Enabled(s, step) && step.Disconnect?
    ensures Agree(Perform(s, step)) && Steady(Perform(s, step))
  {
    hide CountIf, After, Of;
    var s', l := Perform(s, step), s.live[step.id];
    assert step.pick == l.owner;
    forall u, ip ensures Of(s'.held, u)[ip] == Count(s'.live, u, ip) {
      CountWithout(s.live, Under(u, ip), step.id);
      assert Of(s.held, u)[ip] == Count(s.live, u, ip);
      if step.pick.Some? {
        OneUser(s.held, Release(step.pick.value, l.ip), u);
      }
    }
  }

  lemma RelimitKeeps(s: State, step: Step)
    requires Agree(s) && Steady(s) && Enabled(s, step) && step.Relimit?
    ensures Agree(Perform(s, step)) && Steady(Perform(s, step))
  {
    hide CountIf;
    var s' := Perform(s, step);
    assert forall u :: u in s'.users <==> u in s.users;
    assert forall u :: u in s.users ==> s'.users[u].secret == s.users[u].secret;
    forall key, pick | Picks(s.users, key, pick) ensures Picks(s'.users, key, pick) {
    }
  }

  lemma UnchangedKeeps(s: State, step: Step)
    requires Agree(s) && Steady(s) && Enabled(s, step) && !IsChange(step)
    ensures Agree(Perform(s, step)) && Steady(Perform(s, step))
  {
    hide Agree, Steady, Perform;
    match step
    case Connect(_, _, _, _, _) => ConnectKeeps(s, step);
    case Disconnect(_, _) => DisconnectKeeps(s, step);
    case Relimit(_, _) => RelimitKeeps(s, step);
  }

  lemma {:induction false} ConnectionsKeep(s: State, steps: seq<Step>)
    requires Agree(s) && Steady(s) && Exec(s, steps).Some?
    requires forall i :: 0 <= i < |steps| ==> !IsChange(steps[i])
    ensures Agree(Exec(s, steps).value) && Steady(Exec(s, steps).value)
  {
    hide Agree, Steady, Perform, Enabled;
    if steps != [] {
      var fewer, step := steps[..|steps| - 1], steps[|steps| - 1];
      ConnectionsKeep(s, fewer);
      UnchangedKeeps(Exec(s, fewer).value, step);
    }
  }

  // ----- when the counts stay right whatever connections do

  /** Connections may come and go and limits may change in any way, and the table stays right. */
  ghost predicate Forever(s: State) {
    forall steps :: (forall i :: 0 <= i < |steps| ==> !IsChange(steps[i])) && Exec(s, steps).Some? ==>
      Agree(Exec(s, steps).value)
  }

  lemma Broken(s: State, steps: seq<Step>, t: State)
    requires Exec(s, steps) == Some(t) && !Agree(t) && forall i :: 0 <= i < |steps| ==> !IsChange(steps[i])
    ensures !Forever(s)
  {
    hide Agree, Exec;
  }

  lemma Then(s0: State, steps: seq<Step>, s: State, step: Step) returns (steps': seq<Step>, s': State)
    requires Exec(s0, steps) == Some(s) && Enabled(s, step)
    ensures steps' == steps + [step] && s' == Perform(s, step) && Exec(s0, steps') == Some(s')
  {
    steps', s' := steps + [step], Perform(s, step);
    assert steps'[..|steps|] == steps;
  }

  lemma ExecNothing(s: State)
    ensures Exec(s, []) == Some(s)
  {
  }

  /** Whatever the limit of a user, a connection from any address can be counted under that user. */
  lemma LetIn(s: State, u: User, id: nat, ip: Ip) returns (steps: seq<Step>, t: State)
    requires u in s.users && id !in s.live
    ensures (forall i :: 0 <= i < |steps| ==> !IsChange(steps[i])) && Exec(s, steps) == Some(t)
    ensures t.live == s.live[id := Live(s.users[u].secret.key, ip, Some(u))]
    ensures forall v :: Of(t.held, v) == if v == u then Of(s.held, u) + multiset{ip} else Of(s.held, v)
    ensures t.users.Keys == s.users.Keys && forall v :: v in s.users ==> t.users[v].secret == s.users[v].secret
  {
    hide Exec, After, Of;
    ExecNothing(s);
    steps, t := Then(s, [], s, Relimit(u, None));
    assert t.users[u] == s.users[u].(limit := None);
    forall v ensures Of(After(s.held, Acquire(u, None, ip)), v)
                  == if v == u then Of(s.held, u) + multiset{ip} else Of(s.held, v) {
      OneUser(s.held, Acquire(u, None, ip), v);
    }
    steps, t := Then(s, steps, t, Connect(id, s.users[u].secret.key, ip, Some(u), None));
  }

  /** Two users of one key: a connection counted under one can be given back under the other. */
  lemma SharedKeyLoses(s: State, u: User, v: User)
    requires Agree(s) && u in s.users && v in s.users && u != v && s.users[u].secret.key == s.users[v].secret.key
    ensures !Forever(s)
  {
    hide CountIf, After, Of, Exec, Forever;
    var id := FreshId(s.live.Keys);
    var steps, m := LetIn(s, u, id, "");
    OneUser(m.held, Release(v, ""), u);
    var t;
    steps, t := Then(s, steps, m, Disconnect(id, Some(v)));
    assert t.live == s.live;
    assert Of(s.held, u)[""] == Count(s.live, u, "");
    assert Of(t.held, u)[""] != Count(t.live, u, "");
    Broken(s, steps, t);
  }

  /** A connection whose user is not found any more is never given back. */
  lemma LostOwnerLoses(s: State, id: nat)
    requires Agree(s) && id in s.live && s.live[id].owner.Some? && !Picks(s.users, s.live[id].key, s.live[id].owner)
    ensures !Forever(s)
  {
    hide CountIf, After, Of, Exec, Forever;
    var u, ip := s.live[id].owner.value, s.live[id].ip;
    var pick := Find(s.users, s.live[id].key);
    if pick.Some? {
      OneUser(s.held, Release(pick.value, ip), u);
    }
    CountWithout(s.live, Under(u, ip), id);
    ExecNothing(s);
    var steps, t := Then(s, [], s, Disconnect(id, pick));
    assert Of(s.held, u)[ip] == Count(s.live, u, ip);
    assert Of(t.held, u)[ip] != Count(t.live, u, ip);
    Broken(s, steps, t);
  }

  /** A connection of nobody whose key has found a user takes one of that user's counts with it. */
  lemma FoundOwnerLoses(s: State, id: nat, u: User)
    requires Agree(s) && id in s.live && s.live[id].owner == None
    requires u in s.users && s.users[u].secret.key == s.live[id].key
    ensures !Forever(s)
  {
    hide CountIf, After, Of, Exec, Forever;
    var l := s.live[id];
    var other := FreshId(s.live.Keys);
    var steps, m := LetIn(s, u, other, l.ip);
    OneUser(m.held, Release(u, l.ip), u);
    CountSet(s.live, Under(u, l.ip), other, Live(l.key, l.ip, Some(u)));
    CountWithout(m.live, Under(u, l.ip), id);
    var t;
    steps, t := Then(s, steps, m, Disconnect(id, Some(u)));
    assert Of(s.held, u)[l.ip] == Count(s.live, u, l.ip);
    assert Of(t.held, u)[l.ip] != Count(t.live, u, l.ip);
    Broken(s, steps, t);
  }

  lemma Find(users: map<User, Account>, key: Key) returns (pick: Option<User>)
    ensures Picks(users, key, pick)
  {
    if u :| u in users && users[u].secret.key == key {
      pick := Some(u);
    } else {
      pick := None;
    }
  }

  lemma UnsteadyBreaks(s: State)
    requires Agree(s) && !Steady(s)
    ensures !Forever(s)
  {
    hide Agree, Forever;
    if !DistinctKeys(s.users) {
      var u, v :| u in s.users && v in s.users && u != v && s.users[u].secret.key == s.users[v].secret.key;
      SharedKeyLoses(s, u, v);
    } else {
      var lost :| lost in s.live && !Picks(s.users, s.live[lost].key, s.live[lost].owner);
      if s.live[lost].owner.Some? {
        LostOwnerLoses(s, lost);
      } else {
        var u :| u in s.users && s.users[u].secret.key == s.live[lost].key;
        FoundOwnerLoses(s, lost, u);
      }
    }
  }

  /**
   The table stays right whatever connections do and whatever limits are set, if and
   only if it is right, keys are distinct, and every live connection is still found
   under its user.
   */
  lemma ForeverWhenSteady(s: State)
    ensures Forever(s) <==> Agree(s) && Steady(s)
  {
    hide Agree, Perform, Enabled, Steady;
    if Agree(s) && Steady(s) {
      forall steps | (forall i :: 0 <= i < |steps| ==> !IsChange(steps[i])) && Exec(s, steps).Some?
        ensures Agree(Exec(s, steps).value)
      {
        ConnectionsKeep(s, steps);
      }
    } else if Agree(s) {
      UnsteadyBreaks(s);
    } else {
      assert Exec(s, []) == Some(s);
    }
  }

  // ----- changes of the users

  lemma IdleIsZero(s: State, u: User)
    requires Agree(s)
    ensures Idle(s, u) <==> Of(s.held, u) == multiset{}
  {
    if Idle(s, u) {
      forall ip ensures Of(s.held, u)[ip] == 0 {
        CountNone(s.live, Under(u, ip));
      }
    } else {
      var id :| id in s.live && s.live[id].owner == Some(u);
      CountWithout(s.live, Under(u, s.live[id].ip), id);
      assert Of(s.held, u)[s.live[id].ip] > 0;
    }
  }

  /** A clearing leaves the table right if and only if it finds the user idle. */
  lemma ClearedWhenIdle(s: State, s': State, u: User)
    requires Agree(s) && s'.live == s.live && s'.held == s.held - {u}
    ensures Agree(s') <==> Idle(s, u)
  {
    hide CountIf;
    IdleIsZero(s, u);
    if Idle(s, u) {
      forall v, ip ensures Of(s'.held, v)[ip] == Count(s'.live, v, ip) {
        assert Of(s'.held, v) == Of(s.held, v);
      }
    } else {
      var ip :| ip in Of(s.held, u);
      assert Of(s'.held, u)[ip] == 0 < Of(s.held, u)[ip] == Count(s'.live, u, ip);
    }
  }

  lemma CreateWhenUnused(s: State, u: User, account: Account)
    requires Steady(s) && u !in s.users
    ensures Steady(s.(users := s.users[u := account])) <==> Unused(s, account.secret.key)
  {
    var users, key := s.users[u := account], account.secret.key;
    if Steady(s.(users := users)) {
      forall v | v in s.users ensures s.users[v].secret.key != key {
        assert users[v] == s.users[v] && users[u] == account;
      }
      forall id | id in s.live ensures s.live[id].key != key {
        assert Picks(users, s.live[id].key, s.live[id].owner) && Picks(s.users, s.live[id].key, s.live[id].owner);
        assert u in users && users[u].secret.key == key;
      }
    }
  }

  lemma DeleteWhenIdle(s: State, u: User)
    requires Steady(s) && u in s.users && Idle(s, u)
    ensures Steady(s.(users := s.users - {u}))
  {
  }

  /** Re-keying an idle user is deleting it and creating it again. */
  lemma RekeyWhenUnused(s: State, u: User, account: Account)
    requires Steady(s) && u in s.users && Idle(s, u)
    ensures Steady(s.(users := s.users[u := account])) <==>
            account.secret.key == s.users[u].secret.key || Unused(s, account.secret.key)
  {
    hide Steady, Unused, Idle;
    var without := s.(users := s.users - {u});
    DeleteWhenIdle(s, u);
    CreateWhenUnused(without, u, account);
    assert without.users[u := account] == s.users[u := account];
    UnusedWithout(s, u, account.secret.key);
  }

  lemma UnusedWithout(s: State, u: User, key: Key)
    requires Steady(s) && u in s.users && Idle(s, u)
    ensures Unused(s.(users := s.users - {u}), key) <==> key == s.users[u].secret.key || Unused(s, key)
  {
    var users := s.users - {u};
    if key == s.users[u].secret.key {
      forall id | id in s.live ensures s.live[id].key != key {
        assert Picks(s.users, s.live[id].key, s.live[id].owner);
      }
    } else if Unused(s.(users := users), key) {
      forall v | v in s.users ensures s.users[v].secret.key != key {
        assert v != u ==> v in users && users[v] == s.users[v];
      }
    }
  }

  lemma SteadyWhenHarmless(s: State, change: Step)
    requires Agree(s) && Steady(s) && IsChange(change) && Enabled(s, change)
    ensures Agree(Perform(s, change)) && Steady(Perform(s, change)) <==> Harmless(s, change)
  {
    hide Unused, Idle, CountIf;
    var s' := Perform(s, change);
    match change
    case Create(u, account) => CreateWhenUnused(s, u, account);
    case Reload(users) =>
    case Delete(u) =>
      ClearedWhenIdle(s, s', u);
      if Idle(s, u) {
        DeleteWhenIdle(s, u);
      }
    case Rekey(u, account, written) =>
      ClearedWhenIdle(s, s', u);
      if Idle(s, u) && written {
        RekeyWhenUnused(s, u, account);
      }
  }

  /** A change keeps the table right, whatever connections and limits do then, if and only if it is harmless. */
  lemma ChangeKeepsWhenHarmless(s: State, change: Step)
    requires Agree(s) && Steady(s) && IsChange(change) && Enabled(s, change)
    ensures Forever(Perform(s, change)) <==> Harmless(s, change)
  {
    hide Agree, Steady, Forever, Harmless, Perform;
    ForeverWhenSteady(Perform(s, change));
    SteadyWhenHarmless(s, change);
  }

  /** Every change along the way is harmless where it happens. */
  ghost predicate Disciplined(s: State, steps: seq<Step>) {
    steps == [] ||
    var fewer, step := steps[..|steps| - 1], steps[|steps| - 1];
    Disciplined(s, fewer) && (IsChange(step) && Exec(s, fewer).Some? && Enabled(Exec(s, fewer).value, step) ==>
                                Harmless(Exec(s, fewer).value, step))
  }

  /**
   Over any run of connections and changes from a table of distinct keys: the table
   is right at every point whatever connections and limits might do next, if and only
   if every change was harmless, that is, keys stayed distinct and no connected user was
   removed, re-keyed or given a key that a live connection had come with.
   */
  lemma {:induction false} RightWhenDisciplined(users: map<User, Account>, steps: seq<Step>)
    requires DistinctKeys(users) && Exec(Init(users), steps).Some?
    ensures Disciplined(Init(users), steps) <==>
            forall i :: 0 <= i <= |steps| ==>
              Exec(Init(users), steps[..i]).Some? && Forever(Exec(Init(users), steps[..i]).value)
  {
    hide Agree, Steady, Forever, Harmless, Perform, Enabled;
    var s := Init(users);
    if steps == [] {
      InitIsRight(users);
    } else {
      var fewer, step := steps[..|steps| - 1], steps[|steps| - 1];
      RightWhenDisciplined(users, fewer);
      assert forall i :: 0 <= i <= |fewer| ==> steps[..i] == fewer[..i];
      assert steps[..|steps|] == steps && fewer[..|fewer|] == fewer;
      var m := Exec(s, fewer).value;
      ForeverWhenSteady(m);
      if Forever(m) {
        if IsChange(step) {
          ChangeKeepsWhenHarmless(m, step);
        } else {
          ConnectionKeeps(m, step);
        }
      }
    }
  }

  lemma ConnectionKeeps(s: State, step: Step)
    requires Agree(s) && Steady(s) && Enabled(s, step) && !IsChange(step)
    ensures Forever(Perform(s, step))
  {
    hide Agree, Steady, Forever, Perform;
    UnchangedKeeps(s, step);
    ForeverWhenSteady(Perform(s, step));
  }

  lemma InitIsRight(users: map<User, Account>)
    requires DistinctKeys(users)
    ensures Forever(Init(users))
  {
    hide Forever;
    forall u, ip ensures Count(Init(users).live, u, ip) == 0 {
      CountNone(Init(users).live, Under(u, ip));
    }
    ForeverWhenSteady(Init(users));
  }

  // ----- limits

  /** The distinct addresses from which connections of a user are live. */
  ghost function Addresses(live: map<nat, Live>, u: User): set<Ip> {
    set id: nat | id in live && live[id].owner == Some(u) :: live[id].ip
  }

  lemma AddressesHeld(s: State, u: User)
    requires Agree(s)
    ensures Addresses(s.live, u) == Limiter.Distinct(Of(s.held, u))
  {
    forall ip ensures ip in Addresses(s.live, u) <==> ip in Of(s.held, u) {
      if id :| id in s.live && s.live[id].owner == Some(u) && s.live[id].ip == ip {
        CountWithout(s.live, Under(u, ip), id);
        assert Of(s.held, u)[ip] > 0;
      } else {
        CountNone(s.live, Under(u, ip));
        assert Of(s.held, u)[ip] == 0;
      }
    }
  }

  /** The live connections of a user. */
  ghost function Conns(live: map<nat, Live>, u: User): set<nat> {
    set id: nat | id in live && live[id].owner == Some(u)
  }

  /** Counts by address add up to the number of connections. */
  lemma {:induction false} CountsAddUp(live: map<nat, Live>, u: User, m: multiset<Ip>)
    requires forall ip :: m[ip] == Count(live, u, ip)
    ensures |m| == |Conns(live, u)|
    decreases |live|
  {
    hide CountIf;
    if id :| id in live && live[id].owner == Some(u) {
      var rest, ip := live - {id}, live[id].ip;
      forall x ensures (m - multiset{ip})[x] == Count(rest, u, x) && (x == ip ==> m[x] > 0) {
        CountWithout(live, Under(u, x), id);
      }
      assert |rest| < |live| by {
        assert live == rest[id := live[id]];
      }
      CountsAddUp(rest, u, m - multiset{ip});
      assert Conns(live, u) == Conns(rest, u) + {id};
      assert |m - multiset{ip}| == |m| - 1;
    } else {
      forall ip ensures m[ip] == 0 {
        CountNone(live, Under(u, ip));
      }
      assert m == multiset{};
      assert Conns(live, u) == {};
    }
  }

  /** Every limit read for the user is at most `n`. */
  predicate LimitedTo(steps: seq<Step>, u: User, n: nat) {
    forall i :: 0 <= i < |steps| && steps[i].Connect? && steps[i].pick == Some(u) ==>
      steps[i].limit.Some? && steps[i].limit.value <= n
  }

  /** Whatever happens to the users, the table never holds more distinct addresses than the largest limit read. */
  lemma {:induction false} NeverMoreThanTheLimit(users: map<User, Account>, steps: seq<Step>, s: State, u: User, n: nat)
    requires Exec(Init(users), steps) == Some(s) && LimitedTo(steps, u, n)
    ensures |Limiter.Distinct(Of(s.held, u))| <= n
  {
    hide Enabled;
    if steps == [] {
      assert Limiter.Distinct(multiset{}) == {};
    } else {
      var fewer, step := steps[..|steps| - 1], steps[|steps| - 1];
      var m := Exec(Init(users), fewer).value;
      NeverMoreThanTheLimit(users, fewer, m, u, n);
      HeldStep(m, step, u);
    }
  }

  lemma HeldStep(s: State, step: Step, u: User)
    requires Enabled(s, step)
    ensures var d, d' := |Limiter.Distinct(Of(s.held, u))|, |Limiter.Distinct(Of(Perform(s, step).held, u))|;
            d' <= d || (step.Connect? && step.pick == Some(u) && (step.limit.Some? ==> d' <= step.limit.value))
  {
    hide Limiter.Distinct, After, Of, Admits;
    var op := Effect(s, step);
    if op.Some? {
      DistinctAfter(s.held, op.value, u);
    }
  }

  /** In a disciplined run no more addresses are live for a user than the largest limit that was read. */
  lemma LiveWithinLimit(users: map<User, Account>, steps: seq<Step>, s: State, u: User, n: nat)
    requires DistinctKeys(users) && Exec(Init(users), steps) == Some(s)
    requires Disciplined(Init(users), steps) && LimitedTo(steps, u, n)
    ensures |Addresses(s.live, u)| <= n
  {
    hide Agree, Forever, Disciplined, Exec, LimitedTo, Steady, Limiter.Distinct, Addresses;
    RightWhenDisciplined(users, steps);
    assert steps[..|steps|] == steps;
    ForeverWhenSteady(s);
    AddressesHeld(s, u);
    NeverMoreThanTheLimit(users, steps, s, u, n);
  }

  // ----- two runs that go wrong

  /**
   Neither creation nor reload looks for a key in use: two users are created with one
   secret, a connection is counted under the first and given back under the second,
   and the first is left with a count and no connection.
   */
  lemma SharedKeyRun(secret: Secret, ip: Ip) returns (steps: seq<Step>, s: State)
    ensures var account := Account(secret, Some(1));
            steps == [Create("a", account), Create("b", account),
                      Connect(0, secret.key, ip, Some("a"), Some(1)), Disconnect(0, Some("b"))]
    ensures Exec(Init(map[]), steps) == Some(s)
    ensures s.live == map[] && Of(s.held, "a") == multiset{ip} && !Agree(s)
  {
    hide Exec, Agree, After;
    var s0, account := Init(map[]), Account(secret, Some(1));
    steps, s := [], s0;
    ExecNothing(s0);
    steps, s := Then(s0, steps, s, Create("a", account));
    steps, s := Then(s0, steps, s, Create("b", account));
    assert Limiter.Distinct(multiset{}) == {};
    OneUser(s.held, Acquire("a", Some(1), ip), "a");
    steps, s := Then(s0, steps, s, Connect(0, secret.key, ip, Some("a"), Some(1)));
    OneUser(s.held, Release("b", ip), "a");
    steps, s := Then(s0, steps, s, Disconnect(0, Some("b")));
    assert s.live == map[];
    NotAgreed(s, "a", ip);
  }

  lemma NotAgreed(s: State, u: User, ip: Ip)
    requires s.live == map[] && ip in Of(s.held, u)
    ensures !Agree(s)
  {
    CountNone(s.live, Under(u, ip));
    assert Of(s.held, u)[ip] != Count(s.live, u, ip);
  }

  /** A user who is deleted while connected and created again has two addresses live under a limit of one. */
  lemma DeletedWhileConnected(secret: Secret) returns (steps: seq<Step>, s: State)
    ensures Exec(Init(map["u" := Account(secret, Some(1))]), steps) == Some(s) && LimitedTo(steps, "u", 1)
    ensures s.live == map[0 := Live(secret.key, "a", Some("u")), 1 := Live(secret.key, "b", Some("u"))]
    ensures Of(s.held, "u") == multiset{"b"}
  {
    hide Exec, After;
    var account := Account(secret, Some(1));
    var s0 := Init(map["u" := account]);
    steps, s := [], s0;
    ExecNothing(s0);
    assert Limiter.Distinct(multiset{}) == {};
    steps, s := Then(s0, steps, s, Connect(0, secret.key, "a", Some("u"), Some(1)));
    OneUser(s.held, Clear("u"), "u");
    steps, s := Then(s0, steps, s, Delete("u"));
    steps, s := Then(s0, steps, s, Create("u", account));
    OneUser(s.held, Acquire("u", Some(1), "b"), "u");
    steps, s := Then(s0, steps, s, Connect(1, secret.key, "b", Some("u"), Some(1)));
  }
}
