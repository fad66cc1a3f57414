/**
 The per-user limit on distinct source addresses (internal/users/limits.go). The user
 that owns a secret, and the limit read for that user, come from the store.
 */
module Limiter {
  import opened Bytes
  import opened Counting

  type User = string
  type Ip = string

  /** Who is connected from where: for every user the addresses, once per connection. */
  type Held = map<User, multiset<Ip>>

  function Of(h: Held, u: User): (m: multiset<Ip>) {
    if u in h then h[u] else multiset{}
  }

  ghost function Distinct(m: multiset<Ip>): (s: set<Ip>) {
    set ip | ip in m
  }

  /** Whether a connection is admitted: always without a limit, never with a zero limit. */
  ghost predicate Admits(limit: Option<nat>, m: multiset<Ip>, ip: Ip) {
    limit == None || (limit.value > 0 && (ip in m || |Distinct(m)| < limit.value))
  }

  datatype Op =
    | Acquire(user: User, limit: Option<nat>, ip: Ip)
    | Release(user: User, ip: Ip)
    | Clear(user: User)

  function Plus(h: Held, u: User, ip: Ip): Held {
    h[u := Of(h, u) + multiset{ip}]
  }

  function Minus(h: Held, u: User, ip: Ip): Held {
    var m := Of(h, u) - multiset{ip};
    if m == multiset{} then h - {u} else h[u := m]
  }

  ghost function After(h: Held, op: Op): (h': Held) {
    match op
    case Acquire(u, limit, ip) => if Admits(limit, Of(h, u), ip) then Plus(h, u, ip) else h
    case Release(u, ip) => Minus(h, u, ip)
    case Clear(u) => h - {u}
  }

  class ConnectionLimiter {
    var byUser: map<User, map<Ip, int>>
    ghost var held: Held

    /** Every count is the number of connections and positive; no user has an empty table. */
    ghost predicate Valid()
      reads this
    {
      Tables(byUser, held)
    }

    constructor ()
      ensures Valid() && held == map[]
    {
      byUser, held := map[], map[];
    }

    method IncLocked(u: User, ip: Ip)
      requires Valid()
      modifies this
      ensures Valid() && held == Plus(old(held), u, ip)
    {
      var ips: map<Ip, int> := if u in byUser then byUser[u] else map[];
      CountsPlus(ips, Of(held, u), ip);
      byUser := byUser[u := ips[ip := (if ip in ips then ips[ip] else 0) + 1]];
      held := Plus(held, u, ip);
    }

    /** `user` is the owner of the secret and the limit read for it, if any user owns it. */
    method TryAcquire(user: Option<(User, Option<nat>)>, ip: Ip) returns (admitted: bool)
      requires Valid()
      modifies this
      ensures Valid()
      ensures user == None ==> admitted && held == old(held)
      ensures user.Some? ==>
                var (u, limit) := user.value;
                && held == After(old(held), Acquire(u, limit, ip))
                && (admitted <==> Admits(limit, Of(old(held), u), ip))
    {
      hide Plus;
      if user == None {
        return true;
      }
      var (u, limit) := user.value;
      if limit == None {
        IncLocked(u, ip);
        return true;
      }
      var max := limit.value;
      if max == 0 {
        return false;
      }
      var ips: map<Ip, int> := if u in byUser then byUser[u] else map[];
      assert ips.Keys == Distinct(Of(held, u));
      if ip in ips && ips[ip] > 0 {
        IncLocked(u, ip);
        return true;
      }
      if |ips| >= max {
        assert |ips.Keys| >= max;
        return false;
      }
      assert |ips.Keys| < max;
      IncLocked(u, ip);
      admitted := true;
    }

    method DoRelease(user: Option<User>, ip: Ip)
      requires Valid()
      modifies this
      ensures Valid()
      ensures held == if user == None then old(held) else After(old(held), Release(user.value, ip))
    {
      hide Minus, Tables, Admits, Plus, Lowered;
      if user == None {
        return;
      }
      var u := user.value;
      MinusTables(byUser, held, u, ip);
      held := Minus(held, u, ip);
      if u !in byUser {
        return;
      }
      var ips := Lower(byUser[u], ip);
      if |ips| == 0 {
        byUser := byUser - {u};
      } else {
        byUser := byUser[u := ips];
      }
    }

    method ClearUser(u: User)
      requires Valid()
      modifies this
      ensures Valid() && held == After(old(held), Clear(u))
    {
      byUser, held := byUser - {u}, held - {u};
    }

    /** The number of distinct addresses and of connections; the table is walked in any order. */
    method Stats(u: User) returns (activeUniqueIPs: nat, currentConnections: int)
      requires Valid()
      ensures activeUniqueIPs == |Distinct(Of(held, u))|
      ensures currentConnections == |Of(held, u)|
    {
      var ips: map<Ip, int> := if u in byUser then byUser[u] else map[];
      assert ips.Keys == Distinct(Of(held, u));
      activeUniqueIPs := |ips|;
      assert |ips| == |ips.Keys|;
      currentConnections := 0;
      var keys := ips.Keys;
      ghost var rest := Of(held, u);
      while keys != {}
        invariant keys <= ips.Keys
        invariant forall ip :: rest[ip] == if ip in keys then Of(held, u)[ip] else 0
        invariant currentConnections + |rest| == |Of(held, u)|
        decreases keys
      {
        var ip :| ip in keys;
        currentConnections := currentConnections + ips[ip];
        ghost var less := rest[ip := 0];
        assert |less| == |rest| - rest[ip];
        keys, rest := keys - {ip}, less;
      }
      assert rest == multiset{};
    }
  }

  method Lower(table: map<Ip, int>, ip: Ip) returns (ips: map<Ip, int>)
    ensures ips == Lowered(table, ip)
  {
    ips := table[ip := (if ip in table then table[ip] else 0) - 1];
    if ips[ip] <= 0 {
      ips := ips - {ip};
    }
  }

  ghost predicate Tables(byUser: map<User, map<Ip, int>>, held: Held) {
    && byUser.Keys == held.Keys
    && forall u :: u in byUser ==> Counts(byUser[u], held[u])
  }

  /** A table of counts stands for a non-empty multiset. */
  ghost predicate Counts(ips: map<Ip, int>, m: multiset<Ip>) {
    && m != multiset{} && ips.Keys == Distinct(m)
    && forall ip :: ip in ips ==> ips[ip] == m[ip] > 0
  }

  lemma CountsPlus(ips: map<Ip, int>, m: multiset<Ip>, ip: Ip)
    requires Counts(ips, m) || (ips == map[] && m == multiset{})
    ensures Counts(ips[ip := (if ip in ips then ips[ip] else 0) + 1], m + multiset{ip})
  {
    var ips', m' := ips[ip := (if ip in ips then ips[ip] else 0) + 1], m + multiset{ip};
    assert m'[ip] > 0;
    assert ips'.Keys == Distinct(m');
  }

  /** One count lowered, and dropped when it is not positive any more. */
  function Lowered(ips: map<Ip, int>, ip: Ip): map<Ip, int> {
    var n := (if ip in ips then ips[ip] else 0) - 1;
    if n <= 0 then ips[ip := n] - {ip} else ips[ip := n]
  }

  lemma CountsMinus(ips: map<Ip, int>, m: multiset<Ip>, ip: Ip)
    requires Counts(ips, m)
    ensures if m - multiset{ip} == multiset{} then Lowered(ips, ip) == map[]
            else Lowered(ips, ip) != map[] && Counts(Lowered(ips, ip), m - multiset{ip})
  {
    var ips', m' := Lowered(ips, ip), m - multiset{ip};
    assert forall x :: x in ips' <==> m'[x] > 0;
    assert ips'.Keys == Distinct(m');
    if m' == multiset{} {
      assert ips' == map[];
    } else {
      var x :| x in m';
      assert x in ips';
    }
  }

  lemma MinusTables(byUser: map<User, map<Ip, int>>, held: Held, u: User, ip: Ip)
    requires Tables(byUser, held)
    ensures u !in byUser ==> Minus(held, u, ip) == held
    ensures u in byUser ==>
            var ips := Lowered(byUser[u], ip);
            Tables(if |ips| == 0 then byUser - {u} else byUser[u := ips], Minus(held, u, ip))
  {
    hide Counts, Lowered;
    if u !in byUser {
      assert multiset{} - multiset{ip} == multiset{};
      assert held - {u} == held;
    } else {
      CountsMinus(byUser[u], held[u], ip);
      var ips := Lowered(byUser[u], ip);
      assert |ips| == 0 <==> ips == map[];
    }
  }

  /**
   With a limit above zero a connection is let in exactly if it brings no new address,
   however many there are, or no more addresses than the limit.
   */
  lemma AdmittedWhen(limit: Option<nat>, m: multiset<Ip>, ip: Ip)
    ensures var more := Distinct(m + multiset{ip});
            Admits(limit, m, ip) <==>
            || limit == None
            || (limit.value > 0 && (more == Distinct(m) || |more| <= limit.value))
  {
    var more := Distinct(m + multiset{ip});
    assert more == Distinct(m) + {ip};
    assert ip in m <==> more == Distinct(m) by {
      assert ip in more;
    }
  }

  /** What one operation does to one user. */
  lemma OneUser(h: Held, op: Op, u: User)
    ensures Of(After(h, op), u) ==
            match op
            case Acquire(v, limit, ip) =>
              if v == u && Admits(limit, Of(h, u), ip) then Of(h, u) + multiset{ip} else Of(h, u)
            case Release(v, ip) => if v == u then Of(h, u) - multiset{ip} else Of(h, u)
            case Clear(v) => if v == u then multiset{} else Of(h, u)
  {
  }

  /** Distinct addresses of a user grow only by an admission, and then not beyond the limit read. */
  lemma DistinctAfter(h: Held, op: Op, u: User)
    ensures var d, d' := |Distinct(Of(h, u))|, |Distinct(Of(After(h, op), u))|;
            d' <= d || (op.Acquire? && op.user == u && (op.limit.Some? ==> d' <= op.limit.value))
  {
    hide After, Of;
    var m, m' := Of(h, u), Of(After(h, op), u);
    OneUser(h, op, u);
    if op.Acquire? && op.user == u && m' != m {
      assert Distinct(m') == Distinct(m) + {op.ip};
      assert op.ip in m ==> Distinct(m') == Distinct(m);
    } else {
      assert Distinct(m') <= Distinct(m);
      SubsetSize(Distinct(m'), Distinct(m));
    }
  }
}
