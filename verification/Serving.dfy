/**
 The store with its limiter (internal/users/store.go, internal/users/limits.go) while
 connections come and go and users are changed: every run is a run of the steps of
 Connections, and so inherits when the counts are right.
 */
module Serving {
  import opened Bytes
  import opened Secrets
  import opened UserStore
  import opened Connections
  import Limiter

  datatype Act =
    | Arrives(id: nat, secret: Secret, ip: Limiter.Ip)
    | Leaves(id: nat)
    | Asks(call: Call)
    | Rereads(generated: nat -> Key, readFails: bool)

  /** The store as the steps see it. */
  ghost function Seen(s: Store, live: map<nat, Live>): State
    reads s, s.limiter
  {
    State(AccountsOf(s.users), s.limiter.held, live)
  }

  function AccountOf(u: User): Account {
    Account(u.secret, u.maxUniqueIPs)
  }

  lemma AccountsWith(users: map<string, User>, k: string, u: User)
    ensures AccountsOf(users[k := u]) == AccountsOf(users)[k := AccountOf(u)]
    ensures AccountsOf(users - {k}) == AccountsOf(users) - {k}
  {
  }

  lemma SameNames(users: map<string, User>)
    ensures AccountsOf(users).Keys == users.Keys
    ensures forall k :: k in users ==> AccountsOf(users)[k] == AccountOf(users[k])
  {
  }

  method Arrive(s: Store, id: nat, secret: Secret, ip: Limiter.Ip, ghost live: map<nat, Live>)
    returns (admitted: bool, ghost step: Step)
    requires s.Valid() && id !in live
    modifies s.limiter
    ensures s.Valid() && step.Connect? && step.id == id && step.key == secret.key && step.ip == ip
    ensures var m := old(Seen(s, live));
            Enabled(m, step) && Perform(m, step) == Seen(s, Perform(m, step).live)
            && Perform(m, step).live == if admitted then live[id := Live(secret.key, ip, step.pick)] else live
  {
    hide Picks, Limiter.After, Limiter.Admits;
    var pick;
    admitted, pick := s.Acquire(secret, ip);
    step := Connect(id, secret.key, ip, pick, LimitOf(s.users, pick));
  }

  /** The limit read for the user that was found. */
  ghost function LimitOf(users: map<string, User>, pick: Option<string>): Option<nat> {
    if pick.Some? && pick.value in users then users[pick.value].maxUniqueIPs else None
  }

  method Leave(s: Store, id: nat, secret: Secret, ip: Limiter.Ip, ghost live: map<nat, Live>) returns (ghost step: Step)
    requires s.Valid() && id in live && live[id].key == secret.key && live[id].ip == ip
    modifies s.limiter
    ensures s.Valid() && step.Disconnect?
    ensures var m := old(Seen(s, live)); Enabled(m, step) && Perform(m, step) == Seen(s, live - {id})
  {
    hide Picks, Limiter.After;
    var pick := s.Release(secret, ip);
    step := Disconnect(id, pick);
  }

  /** A patch of the secret is a step even if it could not be written, a patch of the rest only if it was. */
  method AskPatch(s: Store, name: string, edit: Edit, expected: string, write: DiskWrite, ghost live: map<nat, Live>)
    returns (ghost step: Option<Step>)
    requires s.Valid()
    modifies s, s.limiter
    ensures s.Valid() && (step.Some? ==> step.value.Rekey? || step.value.Relimit?)
    ensures var m := old(Seen(s, live));
            if step == None then Seen(s, live) == m
            else Enabled(m, step.value) && Perform(m, step.value) == Seen(s, live)
  {
    hide Store.Reflects, Edited, Faithful, Keyed, WellFormed, Canonical, AccountsOf, Store.WrittenOver, Picks;
    SameNames(s.users);
    ghost var users, v := s.users, s.Patched(name, edit, expected);
    step := None;
    var patched := s.Patch(name, edit, expected, write);
    if v.Some? {
      AccountsWith(users, name, v.value);
      if v.value.secret != users[name].secret {
        step := Some(Rekey(name, AccountOf(v.value), patched.Some?));
      } else if patched.Some? {
        step := Some(Relimit(name, v.value.maxUniqueIPs));
      }
    }
  }

  /** A call is one step, or none if it was refused or taken back. */
  method Ask(s: Store, call: Call, ghost live: map<nat, Live>) returns (ghost step: Option<Step>)
    requires s.Valid()
    modifies s, s.limiter
    ensures s.Valid() && (step.Some? ==> !step.value.Connect? && !step.value.Disconnect?)
    ensures var m := old(Seen(s, live));
            if step == None then Seen(s, live) == m
            else Enabled(m, step.value) && Perform(m, step.value) == Seen(s, live)
  {
    hide Store.Reflects, ParseRow, RequestedRow, Edited, Faithful, Keyed, WellFormed, ValidUsername, AccountsOf;
    SameNames(s.users);
    ghost var users := s.users;
    step := None;
    match call.change {
      case Creating(req, generated) =>
        var created := s.Create(req, call.expected, generated, call.write);
        if created.Some? {
          AccountsWith(users, req.username, created.value);
          step := Some(Create(req.username, AccountOf(created.value)));
        }
      case Patching(name, edit) => step := AskPatch(s, name, edit, call.expected, call.write, live);
      case Deleting(username) =>
        var result := s.Delete(username, call.expected, call.write);
        if result != Refused {
          AccountsWith(users, username, users[username]);
          step := Some(Delete(username));
        }
    }
  }

  method Reread(s: Store, generated: nat -> Key, readFails: bool, ghost live: map<nat, Live>)
    returns (ghost step: Option<Step>)
    requires s.Valid()
    modifies s
    ensures s.Valid() && (step.Some? ==> !step.value.Connect? && !step.value.Disconnect?)
    ensures var m := old(Seen(s, live));
            if step == None then Seen(s, live) == m
            else Enabled(m, step.value) && Perform(m, step.value) == Seen(s, live)
  {
    var ok := s.Reload(generated, readFails);
    step := if ok then Some(Reload(AccountsOf(s.users))) else None;
  }

  /** What the live connections came with. */
  ghost predicate Same(conns: map<nat, (Secret, Limiter.Ip)>, live: map<nat, Live>) {
    && conns.Keys == live.Keys
    && forall id :: id in conns ==> live[id].key == conns[id].0.key && live[id].ip == conns[id].1
  }

  /**
   Any run of arrivals, departures, calls and reloads on a store without connections is
   a run of steps. So in the end the limiter's table of every user is the addresses of
   that user's live connections, if every change on the way was harmless.
   */
  method ServeRun(s: Store, acts: seq<Act>)
    returns (conns: map<nat, (Secret, Limiter.Ip)>, ghost live: map<nat, Live>, ghost steps: seq<Step>)
    requires s.Valid() && s.limiter.held == map[] && DistinctKeys(AccountsOf(s.users))
    modifies s, s.limiter
    ensures s.Valid() && Same(conns, live)
    ensures Exec(Init(AccountsOf(old(s.users))), steps) == Some(Seen(s, live))
    ensures Disciplined(Init(AccountsOf(old(s.users))), steps) ==>
            forall u, ip :: Limiter.Of(s.limiter.held, u)[ip] == Count(live, u, ip)
  {
    hide Exec, Perform, Enabled, Store.Valid, Disciplined, Agree, Steady, Forever, Count;
    ghost var s0 := Init(AccountsOf(s.users));
    conns, live, steps := map[], map[], [];
    ExecNothing(s0);
    for i := 0 to |acts|
      invariant s.Valid() && Same(conns, live) && Exec(s0, steps) == Some(Seen(s, live))
    {
      ghost var m := Seen(s, live);
      ghost var step: Option<Step> := None;
      match acts[i] {
        case Arrives(id, secret, ip) =>
          if id !in conns {
            var admitted;
            ghost var one;
            admitted, one := Arrive(s, id, secret, ip, live);
            step := Some(one);
            if admitted {
              conns, live := conns[id := (secret, ip)], live[id := Live(secret.key, ip, one.pick)];
            }
          }
        case Leaves(id) =>
          if id in conns {
            ghost var one := Leave(s, id, conns[id].0, conns[id].1, live);
            step := Some(one);
            conns, live := conns - {id}, live - {id};
          }
        case Asks(call) => step := Ask(s, call, live);
        case Rereads(generated, readFails) => step := Reread(s, generated, readFails, live);
      }
      if step.Some? {
        steps, m := Then(s0, steps, m, step.value);
      }
    }
    if Disciplined(s0, steps) {
      RightNow(s0.users, steps, Seen(s, live));
    }
  }

  lemma RightNow(users: map<string, Account>, steps: seq<Step>, s: State)
    requires DistinctKeys(users) && Exec(Init(users), steps) == Some(s) && Disciplined(Init(users), steps)
    ensures forall u, ip :: Limiter.Of(s.held, u)[ip] == Count(s.live, u, ip)
  {
    hide Exec, Disciplined, Steady, Forever, Count;
    RightWhenDisciplined(users, steps);
    assert steps[..|steps|] == steps;
    ForeverWhenSteady(s);
  }

  /**
   What the limiter reports of a user after such a run is the number of distinct
   addresses and the number of connections that are live under that user.
   */
  method ServeThenReport(s: Store, acts: seq<Act>, u: string)
    returns (activeUniqueIPs: nat, currentConnections: int, ghost live: map<nat, Live>, ghost steps: seq<Step>)
    requires s.Valid() && s.limiter.held == map[] && DistinctKeys(AccountsOf(s.users))
    modifies s, s.limiter
    ensures Exec(Init(AccountsOf(old(s.users))), steps) == Some(Seen(s, live))
    ensures Disciplined(Init(AccountsOf(old(s.users))), steps) ==>
            activeUniqueIPs == |Addresses(live, u)| && currentConnections == |Conns(live, u)|
  {
    hide Exec, Disciplined, Count, Addresses, Conns, Faithful, Keyed, WellFormed;
    ghost var users := s.users;
    var conns;
    conns, live, steps := ServeRun(s, acts);
    activeUniqueIPs, currentConnections := s.limiter.Stats(u);
    if Disciplined(Init(AccountsOf(users)), steps) {
      AddressesHeld(Seen(s, live), u);
      CountsAddUp(live, u, Limiter.Of(s.limiter.held, u));
    }
  }
}
