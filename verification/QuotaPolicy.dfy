/** Per-tenant operation quotas as a plain map (core/qihse_quota.c): fixed windows, and why a
    cleanup is invisible to every later verdict. */
module QuotaPolicy {
  import opened Prelude

  const CLASSES := 4
  const SYSTEM_TENANT := 0

  datatype Counter = Counter(count: u32, windowStart: int)

  datatype Policy = Policy(maxOps: u32, window: u32)

  datatype TenantState = TenantState(id: u32, counters: seq<Counter>, policies: seq<Policy>)

  type Tenant = t: TenantState | |t.counters| == CLASSES && |t.policies| == CLASSES
    witness TenantState(0, [IDLE, IDLE, IDLE, IDLE], [UNLIMITED, UNLIMITED, UNLIMITED, UNLIMITED])

  const IDLE := Counter(0, 0)
  const UNLIMITED := Policy(0, 0)

  function NewTenant(id: u32): Tenant {
    TenantState(id, [IDLE, IDLE, IDLE, IDLE], [UNLIMITED, UNLIMITED, UNLIMITED, UNLIMITED])
  }

  type Tenants = map<u32, Tenant>

  predicate WindowOver(k: Counter, p: Policy, now: int) {
    now - k.windowStart >= p.window
  }

  predicate HasPolicy(t: Tenant) {
    exists c :: 0 <= c < CLASSES && t.policies[c].maxOps != 0
  }

  /** The counter a verdict is taken from: restarted when its window is over. */
  function Current(k: Counter, p: Policy, now: int): Counter {
    if k.windowStart == 0 || WindowOver(k, p, now) then Counter(0, now) else k
  }

  function AllowTenant(t: Tenant, c: nat, now: int): (r: (Tenant, bool))
    requires c < CLASSES
    ensures r.0.policies == t.policies && r.0.id == t.id
  {
    var p := t.policies[c];
    if p.maxOps == 0 then (t, true)
    else
      var k := Current(t.counters[c], p, now);
      if k.count >= p.maxOps then (t.(counters := t.counters[c := k]), false)
      else (t.(counters := t.counters[c := k.(count := k.count + 1)]), true)
  }

  /** `qihse_quota_allow`. */
  function Allow(m: Tenants, id: u32, c: nat, now: int): (Tenants, bool) {
    if c >= CLASSES then (m, false)
    else if id == SYSTEM_TENANT || id !in m then (m, true)
    else
      var (t, verdict) := AllowTenant(m[id], c, now);
      (m[id := t], verdict)
  }

  /** The effect of a cleanup visit on one class of one tenant. */
  function ExpireCounter(k: Counter, p: Policy, now: int): Counter {
    if k.windowStart != 0 && WindowOver(k, p, now) then IDLE else k
  }

  function Expire(t: Tenant, now: int): Tenant {
    t.(counters := [ExpireCounter(t.counters[0], t.policies[0], now), ExpireCounter(t.counters[1], t.policies[1], now),
                    ExpireCounter(t.counters[2], t.policies[2], now), ExpireCounter(t.counters[3], t.policies[3], now)])
  }

  /** What a cleanup pass may do to the map. A tenant shifted into a slot the pass has already
      left is skipped until the next one, so neither expiry nor removal is certain. */
  ghost predicate CleanedUp(m: Tenants, m': Tenants, now: int) {
    && m'.Keys <= m.Keys
    && (forall id | id in m' :: m'[id] == m[id] || m'[id] == Expire(m[id], now))
    && (forall id | id in m && id !in m' :: !HasPolicy(m[id]))
  }

  /** What one cleanup pass certainly does: every tenant it does not skip keeps a policy and has its
      finished windows dropped, and it skips at most as many tenants as it removes. */
  ghost predicate Passed(m: Tenants, m': Tenants, now: int, skipped: set<u32>) {
    && CleanedUp(m, m', now) && |skipped| + |m'| <= |m|
    && (forall id | id in m' && id !in skipped :: m'[id] == Expire(m[id], now) && HasPolicy(m[id]))
  }

  lemma SameTenants(m: Tenants, m': Tenants)
    requires m'.Keys <= m.Keys && |m| <= |m'|
    ensures m'.Keys == m.Keys
  {
    assert |m| == |m.Keys| && |m'| == |m'.Keys|;
    assert m.Keys == m'.Keys + (m.Keys - m'.Keys);
  }

  lemma NobodySkipped(m: Tenants, m': Tenants, now: int, skipped: set<u32>)
    requires Passed(m, m', now, skipped) && forall id | id in m :: HasPolicy(m[id])
    ensures m'.Keys == m.Keys && skipped == {}
  {
    assert m'.Keys == m.Keys;
    assert |m| == |m.Keys| && |m'| == |m'.Keys|;
  }

  /** Where every tenant has a policy, a pass keeps everyone and drops exactly the counters whose
      windows are over. */
  lemma PassIsExpiry(m: Tenants, m': Tenants, now: int, skipped: set<u32>, id: u32)
    requires Passed(m, m', now, skipped) && (forall id | id in m :: HasPolicy(m[id])) && id in m
    ensures id in m' && m'[id].id == m[id].id && m'[id].policies == m[id].policies
    ensures forall c :: 0 <= c < 4 ==>
      m'[id].counters[c] ==
        if m[id].counters[c].windowStart != 0 && now - m[id].counters[c].windowStart >= m[id].policies[c].window
        then Counter(0, 0) else m[id].counters[c]
  {
    NobodySkipped(m, m', now, skipped);
  }

  /** As long as a tenant without a policy is left, a pass removes at least one. */
  lemma PassRemoves(m: Tenants, m': Tenants, now: int, skipped: set<u32>, id: u32)
    requires Passed(m, m', now, skipped) && id in m && !HasPolicy(m[id])
    ensures |m'| < |m|
  {
    if |m'| >= |m| { SameTenants(m, m'); }
  }

  lemma CleanupVisit(m: Tenants, m': Tenants, now: int, id: u32)
    requires CleanedUp(m, m', now) && id in m'
    ensures CleanedUp(m, m'[id := Expire(m'[id], now)], now)
    ensures HasPolicy(m'[id]) <==> HasPolicy(m[id])
    ensures !HasPolicy(m'[id]) ==> CleanedUp(m, m' - {id}, now)
  {
    assert m'[id].policies == m[id].policies;
    assert forall k: Counter, p: Policy :: ExpireCounter(ExpireCounter(k, p, now), p, now) == ExpireCounter(k, p, now);
    assert Expire(Expire(m[id], now), now) == Expire(m[id], now);
  }

  /** `qihse_quota_configure`: the new map and the result. */
  function Configure(m: Tenants, maxTenants: nat, id: u32, c: nat, p: Policy, memory: bool): (Tenants, bool) {
    if c >= CLASSES then (m, false)
    else if p.maxOps == 0 then
      (if id in m then m[id := SetPolicy(m[id], c, UNLIMITED).(counters := m[id].counters[c := IDLE])] else m, true)
    else if p.window == 0 then (m, false)
    else if id in m then (m[id := SetPolicy(m[id], c, p)], true)
    else if |m| >= maxTenants || !memory then (m, false)
    else (m[id := SetPolicy(NewTenant(id), c, p)], true)
  }

  /** What a configuration does: the class gets the policy, or none and a fresh counter; nothing else
      changes. It fails for a class out of range, for a limit without a window, and for a tenant
      there is no room or memory for. */
  ghost predicate Configured(m: Tenants, m': Tenants, maxTenants: nat, id: u32, c: nat, maxOps: u32, window: u32,
                             memory: bool, ok: bool) {
    && (ok <==> c < 4 && (maxOps == 0 || (window != 0 && (id in m || (|m| < maxTenants && memory)))))
    && (!ok ==> m' == m) && (forall i | i != id :: (i in m' <==> i in m) && (i in m ==> m'[i] == m[i]))
    && (ok && maxOps == 0 ==> (id in m' <==> id in m))
    && (ok && maxOps != 0 ==> id in m')
    && (ok && id in m' ==>
        && m'[id].policies[c] == (if maxOps == 0 then Policy(0, 0) else Policy(maxOps, window))
        && (maxOps == 0 ==> m'[id].counters[c] == Counter(0, 0))
        && (if id in m then m'[id].id == m[id].id && (maxOps != 0 ==> m'[id].counters == m[id].counters)
            else m'[id].id == id && m'[id].counters[c] == Counter(0, 0))
        && (forall d :: 0 <= d < 4 && d != c ==>
              if id in m then m'[id].policies[d] == m[id].policies[d] && m'[id].counters[d] == m[id].counters[d]
              else m'[id].policies[d] == Policy(0, 0) && m'[id].counters[d] == Counter(0, 0)))
  }

  lemma ConfigureMeans(m: Tenants, maxTenants: nat, id: u32, c: nat, maxOps: u32, window: u32, memory: bool)
    ensures var r := Configure(m, maxTenants, id, c, Policy(maxOps, window), memory);
            Configured(m, r.0, maxTenants, id, c, maxOps, window, memory, r.1)
  {}

  /** What a call does: the system tenant, an unknown one and an unlimited class always pass; a
      limited class passes while its window, which starts over once its seconds are up, has counted
      fewer than its limit, and only a call that passes is counted. */
  ghost predicate Judged(m: Tenants, m': Tenants, id: u32, c: nat, now: int, ok: bool) {
    if c >= 4 then !ok && m' == m
    else if id == 0 || id !in m || m[id].policies[c].maxOps == 0 then ok && m' == m
    else
      var p, k := m[id].policies[c], m[id].counters[c];
      var again := k.windowStart == 0 || now - k.windowStart >= p.window;
      && (ok <==> again || k.count < p.maxOps)
      && m'.Keys == m.Keys && (forall i | i in m && i != id :: m'[i] == m[i])
      && m'[id].id == m[id].id && m'[id].policies == m[id].policies
      && (forall d :: 0 <= d < 4 && d != c ==> m'[id].counters[d] == m[id].counters[d])
      && m'[id].counters[c] ==
           (if again then Counter(1, now) else if ok then Counter(k.count + 1, k.windowStart) else k)
  }

  lemma AllowMeans(m: Tenants, id: u32, c: nat, now: int)
    ensures Judged(m, Allow(m, id, c, now).0, id, c, now, Allow(m, id, c, now).1)
  {
    if c < 4 && id in m && id != 0 && m[id].policies[c].maxOps == 0 { assert m[id := m[id]] == m; }
  }

  /** Finding or creating the tenant first and writing its policy then is one configuration. */
  lemma ConfigureInTwoSteps(m: Tenants, m': Tenants, maxTenants: nat, id: u32, c: nat, p: Policy, memory: bool)
    requires c < CLASSES && p.maxOps != 0 && p.window != 0
    requires id in m || (|m| < maxTenants && memory)
    requires m' == if id in m then m else m[id := NewTenant(id)]
    ensures Configure(m, maxTenants, id, c, p, memory) == (m'[id := SetPolicy(m'[id], c, p)], true)
  {
    assert m'[id := SetPolicy(m'[id], c, p)] == m[id := SetPolicy(m'[id], c, p)];
  }

  // ---------------------------------------------------------------- what every table keeps

  predicate TidyClass(k: Counter, p: Policy) {
    && (p.maxOps == 0 ==> k == IDLE && p == UNLIMITED) && (p.maxOps != 0 ==> p.window > 0)
    && (k.windowStart != 0 ==> k.count >= 1)
  }

  predicate TidyTenant(t: Tenant) {
    forall c :: 0 <= c < CLASSES ==> TidyClass(t.counters[c], t.policies[c])
  }

  /** A class without a limit is idle, a limit has a window, and an open window has been used. */
  ghost predicate Tidy(m: Tenants) {
    forall id | id in m :: m[id].id == id && TidyTenant(m[id])
  }

  lemma AllowTidy(m: Tenants, id: u32, c: nat, now: int)
    requires Tidy(m)
    ensures Tidy(Allow(m, id, c, now).0)
  {
    if c < CLASSES && id in m { assert TidyClass(m[id].counters[c], m[id].policies[c]); }
  }

  lemma ConfigureTidy(m: Tenants, maxTenants: nat, id: u32, c: nat, p: Policy, memory: bool)
    requires Tidy(m)
    ensures Tidy(Configure(m, maxTenants, id, c, p, memory).0)
  {
    if c < CLASSES && id in m { assert TidyClass(m[id].counters[c], m[id].policies[c]); }
  }

  lemma CleanupTidy(m: Tenants, m': Tenants, now: int)
    requires Tidy(m) && CleanedUp(m, m', now)
    ensures Tidy(m')
  {
    forall id | id in m' ensures m'[id].id == id && TidyTenant(m'[id]) {
      assert id in m && TidyTenant(m[id]);
      assert forall c :: 0 <= c < CLASSES ==> TidyClass(m[id].counters[c], m[id].policies[c]);
    }
  }

  // ---------------------------------------------------------------- a cleaned table and one never cleaned

  /** Two counters no verdict from `since` on can tell apart; the second may have been dropped. */
  predicate SameCounter(a: Counter, b: Counter, p: Policy, since: int) {
    a == b || (b == IDLE && a.windowStart != 0 && WindowOver(a, p, since))
  }

  predicate SameTenant(a: Tenant, b: Tenant, since: int) {
    && a.id == b.id && a.policies == b.policies
    && forall c :: 0 <= c < CLASSES ==> SameCounter(a.counters[c], b.counters[c], a.policies[c], since)
  }

  /** No verdict from `since` on tells the cleaned map `m'` from `m`. */
  ghost predicate Indistinguishable(m: Tenants, m': Tenants, since: int) {
    && (forall id | id in m' && id != SYSTEM_TENANT :: id in m && SameTenant(m[id], m'[id], since))
    && (forall id | id in m && id !in m' && id != SYSTEM_TENANT :: !HasPolicy(m[id]))
  }

  /** Cleaning the cleaned map once more. */
  lemma CleanupIsIndistinguishable(m: Tenants, m': Tenants, m'': Tenants, since: int, now: int)
    requires Indistinguishable(m, m', since) && since <= now && CleanedUp(m', m'', now)
    ensures Indistinguishable(m, m'', now)
  {
    forall id | id in m'' && id != SYSTEM_TENANT ensures id in m && SameTenant(m[id], m''[id], now) {
      assert id in m';
      SameTenantLater(m[id], m'[id], since, now);
      forall c | 0 <= c < CLASSES ensures SameCounter(m[id].counters[c], m''[id].counters[c], m[id].policies[c], now) {
        assert SameCounter(m[id].counters[c], m'[id].counters[c], m[id].policies[c], now);
      }
    }
    forall id | id in m && id !in m'' && id != SYSTEM_TENANT ensures !HasPolicy(m[id]) {
      if id in m' { assert m[id].policies == m'[id].policies; }
    }
  }

  lemma AllowTenantSame(a: Tenant, b: Tenant, c: nat, since: int, now: int)
    requires SameTenant(a, b, since) && c < CLASSES && since <= now
    ensures AllowTenant(a, c, now).1 == AllowTenant(b, c, now).1
    ensures SameTenant(AllowTenant(a, c, now).0, AllowTenant(b, c, now).0, now)
  {
    var p := a.policies[c];
    assert SameCounter(a.counters[c], b.counters[c], p, since);
    assert Current(a.counters[c], p, now) == Current(b.counters[c], p, now);
    forall d | 0 <= d < CLASSES ensures SameCounter(a.counters[d], b.counters[d], a.policies[d], now) {
      assert SameCounter(a.counters[d], b.counters[d], a.policies[d], since);
    }
  }

  lemma AllowSame(m: Tenants, m': Tenants, id: u32, c: nat, since: int, now: int)
    requires Indistinguishable(m, m', since) && since <= now
    ensures Allow(m, id, c, now).1 == Allow(m', id, c, now).1
    ensures Indistinguishable(Allow(m, id, c, now).0, Allow(m', id, c, now).0, now)
  {
    forall i | i in m' && i != SYSTEM_TENANT ensures SameTenant(m[i], m'[i], now) {
      SameTenantLater(m[i], m'[i], since, now);
    }
    if c < CLASSES && id in m && id != SYSTEM_TENANT {
      if id in m' {
        AllowTenantSame(m[id], m'[id], c, since, now);
      } else {
        assert m[id].policies[c].maxOps == 0;
      }
    }
  }

  lemma SameTenantLater(a: Tenant, b: Tenant, since: int, now: int)
    requires SameTenant(a, b, since) && since <= now
    ensures SameTenant(a, b, now)
  {
    forall c | 0 <= c < CLASSES ensures SameCounter(a.counters[c], b.counters[c], a.policies[c], now) {
      assert SameCounter(a.counters[c], b.counters[c], a.policies[c], since);
    }
  }

  datatype Call = Call(id: u32, class_: nat, now: int)

  /** The verdicts of a sequence of calls. */
  function Verdicts(m: Tenants, calls: seq<Call>): seq<bool> {
    if calls == [] then []
    else
      var (m', v) := Allow(m, calls[0].id, calls[0].class_, calls[0].now);
      [v] + Verdicts(m', calls[1..])
  }

  predicate ClockFrom(calls: seq<Call>, start: int) {
    calls == [] || (start <= calls[0].now && ClockFrom(calls[1..], calls[0].now))
  }

  lemma {:induction false} IndistinguishableVerdicts(m: Tenants, m': Tenants, calls: seq<Call>, since: int)
    requires Indistinguishable(m, m', since) && ClockFrom(calls, since)
    ensures Verdicts(m, calls) == Verdicts(m', calls)
    decreases |calls|
  {
    if calls != [] {
      var k := calls[0];
      AllowSame(m, m', k.id, k.class_, since, k.now);
      IndistinguishableVerdicts(Allow(m, k.id, k.class_, k.now).0, Allow(m', k.id, k.class_, k.now).0, calls[1..],
                                k.now);
    }
  }

  function SetPolicy(t: Tenant, c: nat, p: Policy): Tenant
    requires c < CLASSES
  {
    t.(policies := t.policies[c := p])
  }

  // ---------------------------------------------------------------- reconfiguration after a cleanup

  /** Giving a class the policy `p` at `now` cannot show that `m'` was cleaned and `m` was not: its
      counter is the same in both or its window is over under the new policy too, and the table
      has room for the tenant in both or in neither. */
  predicate Safe(m: Tenants, m': Tenants, maxTenants: nat, id: u32, c: nat, p: Policy, memory: bool, now: int) {
    || c >= CLASSES || id == SYSTEM_TENANT || p.maxOps == 0 || p.window == 0
    || (if id in m && id in m' then m[id].counters[c] == m'[id].counters[c] || WindowOver(m[id].counters[c], p, now)
        else if id in m then memory && |m'| < maxTenants
        else !memory || (|m| < maxTenants <==> |m'| < maxTenants))
  }

  /** Read off the cleaned table alone: a window that is not widened is always safe. */
  lemma NarrowingIsSafe(m: Tenants, m': Tenants, maxTenants: nat, id: u32, c: nat, p: Policy, memory: bool, since: int,
                        now: int)
    requires Indistinguishable(m, m', since) && since <= now && c < CLASSES
    requires id in m && id in m' && p.window <= m'[id].policies[c].window
    ensures Safe(m, m', maxTenants, id, c, p, memory, now)
  {
    if id != SYSTEM_TENANT {
      assert SameCounter(m[id].counters[c], m'[id].counters[c], m[id].policies[c], since);
    }
  }

  /** No sequence of calls tells the two maps apart. */
  ghost predicate Alike(m: Tenants, m': Tenants, since: int) {
    forall calls | ClockFrom(calls, since) :: Verdicts(m, calls) == Verdicts(m', calls)
  }

  lemma SafeTenant(a: Tenant, b: Tenant, c: nat, p: Policy, since: int, now: int)
    requires SameTenant(a, b, since) && since <= now && c < CLASSES
    requires a.counters[c] == b.counters[c] || WindowOver(a.counters[c], p, now)
    ensures SameTenant(SetPolicy(a, c, p), SetPolicy(b, c, p), now)
  {
    SameTenantLater(a, b, since, now);
    forall d | 0 <= d < CLASSES
      ensures SameCounter(a.counters[d], b.counters[d], SetPolicy(a, c, p).policies[d], now)
    {
      assert SameCounter(a.counters[d], b.counters[d], a.policies[d], now);
    }
  }

  lemma DroppedTenant(a: Tenant, id: u32, c: nat, p: Policy, now: int)
    requires a.id == id && TidyTenant(a) && !HasPolicy(a) && c < CLASSES
    ensures SameTenant(SetPolicy(a, c, p), SetPolicy(NewTenant(id), c, p), now)
  {
    forall d | 0 <= d < CLASSES ensures a.counters[d] == IDLE && a.policies[d] == UNLIMITED {
      assert TidyClass(a.counters[d], a.policies[d]);
    }
  }

  lemma OffTenant(a: Tenant, b: Tenant, c: nat, since: int, now: int)
    requires SameTenant(a, b, since) && since <= now && c < CLASSES
    ensures SameTenant(SetPolicy(a, c, UNLIMITED).(counters := a.counters[c := IDLE]),
                       SetPolicy(b, c, UNLIMITED).(counters := b.counters[c := IDLE]), now)
  {
    SameTenantLater(a, b, since, now);
    forall d | 0 <= d < CLASSES && d != c ensures SameCounter(a.counters[d], b.counters[d], a.policies[d], now) {
      assert SameCounter(a.counters[d], b.counters[d], a.policies[d], now);
    }
  }

  lemma LaterIndistinguishable(m: Tenants, m': Tenants, since: int, now: int)
    requires Indistinguishable(m, m', since) && since <= now
    ensures Indistinguishable(m, m', now)
  {
    forall i | i in m' && i != SYSTEM_TENANT ensures i in m && SameTenant(m[i], m'[i], now) {
      SameTenantLater(m[i], m'[i], since, now);
    }
  }

  /** Writing matching tenants keeps the maps indistinguishable. */
  lemma WriteSame(m: Tenants, m': Tenants, id: u32, a: Tenant, b: Tenant, now: int)
    requires Indistinguishable(m, m', now) && (id == SYSTEM_TENANT || SameTenant(a, b, now))
    ensures Indistinguishable(m[id := a], m'[id := b], now)
  {}

  lemma SafeBoth(m: Tenants, m': Tenants, id: u32, c: nat, p: Policy, since: int, now: int)
    requires Indistinguishable(m, m', since) && since <= now && c < CLASSES && id in m && id in m'
             && id != SYSTEM_TENANT
    requires m[id].counters[c] == m'[id].counters[c] || WindowOver(m[id].counters[c], p, now)
    ensures Indistinguishable(m[id := SetPolicy(m[id], c, p)], m'[id := SetPolicy(m'[id], c, p)], now)
  {
    LaterIndistinguishable(m, m', since, now);
    SafeTenant(m[id], m'[id], c, p, since, now);
    WriteSame(m, m', id, SetPolicy(m[id], c, p), SetPolicy(m'[id], c, p), now);
  }

  /** Lifting a limit is always safe. */
  lemma OffKeeps(m: Tenants, m': Tenants, maxTenants: nat, id: u32, c: nat, p: Policy, memory: bool, since: int,
                 now: int)
    requires Indistinguishable(m, m', since) && since <= now && p.maxOps == 0
    ensures Indistinguishable(Configure(m, maxTenants, id, c, p, memory).0,
                              Configure(m', maxTenants, id, c, p, memory).0, now)
  {
    LaterIndistinguishable(m, m', since, now);
    if c < CLASSES && id != SYSTEM_TENANT && id in m && id in m' {
      var a, b := m[id], m'[id];
      OffTenant(a, b, c, since, now);
      WriteSame(m, m', id, SetPolicy(a, c, UNLIMITED).(counters := a.counters[c := IDLE]),
                SetPolicy(b, c, UNLIMITED).(counters := b.counters[c := IDLE]), now);
    }
  }

  /** A safe reconfiguration keeps the maps indistinguishable. */
  lemma SafeKeeps(m: Tenants, m': Tenants, maxTenants: nat, id: u32, c: nat, p: Policy, memory: bool, since: int,
                  now: int)
    requires Indistinguishable(m, m', since) && since <= now && Tidy(m)
             && Safe(m, m', maxTenants, id, c, p, memory, now)
    ensures Indistinguishable(Configure(m, maxTenants, id, c, p, memory).0,
                              Configure(m', maxTenants, id, c, p, memory).0, now)
  {
    if p.maxOps == 0 {
      OffKeeps(m, m', maxTenants, id, c, p, memory, since, now);
    } else {
      LaterIndistinguishable(m, m', since, now);
      if c < CLASSES && id != SYSTEM_TENANT && p.window != 0 {
        if id in m && id in m' {
          SafeBoth(m, m', id, c, p, since, now);
        } else if id in m {
          DroppedTenant(m[id], id, c, p, now);
          WriteSame(m, m', id, SetPolicy(m[id], c, p), SetPolicy(NewTenant(id), c, p), now);
        } else {
          WriteSame(m, m', id, SetPolicy(NewTenant(id), c, p), SetPolicy(NewTenant(id), c, p), now);
        }
      }
    }
  }

  // ---------------------------------------------------------------- telling them apart

  /** The same call so many times. */
  function Burst(call: Call, n: nat): seq<Call> { if n == 0 then [] else [call] + Burst(call, n - 1) }

  predicate AllGranted(v: seq<bool>) { forall i :: 0 <= i < |v| ==> v[i] }

  lemma {:induction false} BurstClock(call: Call, n: nat, since: int)
    requires since <= call.now
    ensures ClockFrom(Burst(call, n), since)
  {
    if n > 0 { BurstClock(call, n - 1, call.now); }
  }

  lemma {:induction false} UnknownGranted(m: Tenants, call: Call, n: nat)
    requires call.id !in m && call.class_ < CLASSES
    ensures AllGranted(Verdicts(m, Burst(call, n)))
  {
    if n > 0 { UnknownGranted(m, call, n - 1); }
  }

  /** A fresh counter grants as many calls at one moment as the policy allows. */
  lemma {:induction false} FreshGranted(m: Tenants, call: Call, n: nat)
    requires call.id in m && call.id != SYSTEM_TENANT && call.class_ < CLASSES
    requires var k, p := m[call.id].counters[call.class_], m[call.id].policies[call.class_];
             n <= p.maxOps && p.window > 0
             && (k.windowStart == 0 || (k.windowStart == call.now && k.count + n <= p.maxOps))
    ensures AllGranted(Verdicts(m, Burst(call, n)))
  {
    if n > 0 {
      var m1 := Allow(m, call.id, call.class_, call.now).0;
      FreshGranted(m1, call, n - 1);
    }
  }

  /** A counter whose window is open refuses one of too many calls. */
  lemma {:induction false} StaleRefuses(m: Tenants, call: Call, n: nat)
    requires call.id in m && call.id != SYSTEM_TENANT && call.class_ < CLASSES && n > 0
    requires var k, p := m[call.id].counters[call.class_], m[call.id].policies[call.class_];
             p.maxOps != 0 && k.windowStart != 0 && !WindowOver(k, p, call.now) && k.count + n > p.maxOps
    ensures !AllGranted(Verdicts(m, Burst(call, n)))
  {
    var (m1, v) := Allow(m, call.id, call.class_, call.now);
    var verdicts, rest := Verdicts(m, Burst(call, n)), Verdicts(m1, Burst(call, n - 1));
    assert Burst(call, n)[1..] == Burst(call, n - 1);
    assert verdicts == [v] + rest;
    if v {
      StaleRefuses(m1, call, n - 1);
      var i :| 0 <= i < |rest| && !rest[i];
      assert !verdicts[i + 1];
    } else {
      assert !verdicts[0];
    }
  }

  /** A limit that is in force refuses one of too many calls. */
  lemma LimitRefuses(m: Tenants, call: Call)
    requires call.id in m && call.id != SYSTEM_TENANT && call.class_ < CLASSES && call.now != 0
    requires var p := m[call.id].policies[call.class_]; p.maxOps != 0 && p.window > 0
    requires m[call.id].counters[call.class_] == IDLE
    ensures !AllGranted(Verdicts(m, Burst(call, m[call.id].policies[call.class_].maxOps + 1)))
  {
    var n: nat := m[call.id].policies[call.class_].maxOps;
    var (m1, v) := Allow(m, call.id, call.class_, call.now);
    StaleRefuses(m1, call, n);
    assert Burst(call, n + 1)[1..] == Burst(call, n);
    var verdicts, rest := Verdicts(m, Burst(call, n + 1)), Verdicts(m1, Burst(call, n));
    assert verdicts == [v] + rest;
    var i :| 0 <= i < |rest| && !rest[i];
    assert !verdicts[i + 1];
  }

  /** A counter the cleanup dropped shows if its window is open under the new policy. */
  lemma DroppedCounterShows(m: Tenants, m': Tenants, id: u32, c: nat, now: int)
    requires id in m && id in m' && id != SYSTEM_TENANT && c < CLASSES
    requires var p := m[id].policies[c]; p == m'[id].policies[c] && p.maxOps != 0 && p.window > 0
    requires m'[id].counters[c] == IDLE
    requires var k := m[id].counters[c]; k.windowStart != 0 && k.count >= 1 && !WindowOver(k, m[id].policies[c], now)
    ensures !Alike(m, m', now)
  {
    var call := Call(id, c, now);
    var n := m[id].policies[c].maxOps;
    BurstClock(call, n, now);
    StaleRefuses(m, call, n);
    FreshGranted(m', call, n);
  }

  /** A tenant that has its limit in one map only shows. */
  lemma MissingTenantShows(m: Tenants, m': Tenants, id: u32, c: nat, now: int)
    requires id in m && id !in m' && id != SYSTEM_TENANT && c < CLASSES
    requires m[id].policies[c].maxOps != 0 && m[id].policies[c].window > 0 && m[id].counters[c] == IDLE
    ensures !Alike(m, m', now) && !Alike(m', m, now)
  {
    var call := Call(id, c, if now > 0 then now else 1);
    var n: nat := m[id].policies[c].maxOps as int + 1;
    BurstClock(call, n, now);
    LimitRefuses(m, call);
    UnknownGranted(m', call, n);
  }

  lemma UnsafeShows(m: Tenants, m': Tenants, maxTenants: nat, id: u32, c: nat, p: Policy, memory: bool, since: int,
                    now: int)
    requires Indistinguishable(m, m', since) && since <= now && Tidy(m)
             && !Safe(m, m', maxTenants, id, c, p, memory, now)
    ensures !Alike(Configure(m, maxTenants, id, c, p, memory).0, Configure(m', maxTenants, id, c, p, memory).0, now)
  {
    var n, n' := Configure(m, maxTenants, id, c, p, memory).0, Configure(m', maxTenants, id, c, p, memory).0;
    if id in m {
      assert TidyClass(m[id].counters[c], m[id].policies[c]);
      if id in m' {
        assert SameCounter(m[id].counters[c], m'[id].counters[c], m[id].policies[c], since);
        DroppedCounterShows(n, n', id, c, now);
      } else {
        assert m[id].policies[c].maxOps == 0;
        MissingTenantShows(n, n', id, c, now);
      }
    } else if id in n {
      MissingTenantShows(n, n', id, c, now);
    } else {
      MissingTenantShows(n', n, id, c, now);
    }
  }

  /** Whatever was cleaned and asked before, giving a class a new policy leaves all later verdicts
      independent of the cleanups exactly if it is safe. */
  lemma ReconfigurationSafeIff(m: Tenants, m': Tenants, maxTenants: nat, id: u32, c: nat, p: Policy, memory: bool,
                               since: int, now: int)
    requires Indistinguishable(m, m', since) && since <= now && Tidy(m)
    ensures Alike(Configure(m, maxTenants, id, c, p, memory).0, Configure(m', maxTenants, id, c, p, memory).0, now)
            <==> Safe(m, m', maxTenants, id, c, p, memory, now)
  {
    if Safe(m, m', maxTenants, id, c, p, memory, now) {
      SafeKeeps(m, m', maxTenants, id, c, p, memory, since, now);
      var n, n' := Configure(m, maxTenants, id, c, p, memory).0, Configure(m', maxTenants, id, c, p, memory).0;
      forall calls | ClockFrom(calls, now) ensures Verdicts(n, calls) == Verdicts(n', calls) {
        IndistinguishableVerdicts(n, n', calls, now);
      }
    } else {
      UnsafeShows(m, m', maxTenants, id, c, p, memory, since, now);
    }
  }

  /** For one: widening a window after a cleanup dropped its counter. */
  lemma ReconfigurationBetraysCleanup()
    ensures exists m: Tenants, m': Tenants ::
              && CleanedUp(m, m', 200)
              && Allow(Configure(m, 1, 7, 0, Policy(1, 1000), true).0, 7, 0, 200).1
                 != Allow(Configure(m', 1, 7, 0, Policy(1, 1000), true).0, 7, 0, 200).1
  {
    var t := SetPolicy(NewTenant(7), 0, Policy(1, 10));
    var busy: Tenant := t.(counters := t.counters[0 := Counter(1, 100)]);
    var m: Tenants := map[7 := busy];
    var m': Tenants := map[7 := Expire(busy, 200)];
    assert CleanedUp(m, m', 200);
    assert !Allow(Configure(m, 1, 7, 0, Policy(1, 1000), true).0, 7, 0, 200).1;
    assert Allow(Configure(m', 1, 7, 0, Policy(1, 1000), true).0, 7, 0, 200).1;
  }

  // ---------------------------------------------------------------- runs with cleanups

  /** A call, a reconfiguration, or a cleanup that leaves the cleaned table as `to`. */
  datatype Event =
    | Ask(call: Call)
    | Set(id: u32, class_: nat, policy: Policy, memory: bool, at: int)
    | Clean(to: Tenants, at: int)

  function At(e: Event): int { if e.Ask? then e.call.now else e.at }

  /** The table after an event, if cleanups are carried out or if they are skipped. */
  function Step(m: Tenants, maxTenants: nat, e: Event, cleans: bool): Tenants {
    match e
    case Ask(k) => Allow(m, k.id, k.class_, k.now).0
    case Set(id, c, p, memory, _) => Configure(m, maxTenants, id, c, p, memory).0
    case Clean(to, _) => if cleans then to else m
  }

  /** The verdicts of a run. */
  function Replies(m: Tenants, maxTenants: nat, events: seq<Event>, cleans: bool): seq<bool>
    decreases |events|
  {
    if events == [] then []
    else
      var rest := Replies(Step(m, maxTenants, events[0], cleans), maxTenants, events[1..], cleans);
      if events[0].Ask? then [Allow(m, events[0].call.id, events[0].call.class_, events[0].call.now).1] + rest else rest
  }

  /** The clock never goes back, every cleanup is one, and every reconfiguration is safe. */
  ghost predicate Proper(m: Tenants, m': Tenants, maxTenants: nat, events: seq<Event>, since: int)
    decreases |events|
  {
    events == [] ||
    var e := events[0];
    && since <= At(e)
    && (e.Clean? ==> CleanedUp(m', e.to, e.at))
    && (e.Set? ==> Safe(m, m', maxTenants, e.id, e.class_, e.policy, e.memory, e.at))
    && Proper(Step(m, maxTenants, e, false), Step(m', maxTenants, e, true), maxTenants, events[1..], At(e))
  }

  lemma {:induction false} RunsAgree(m: Tenants, m': Tenants, maxTenants: nat, events: seq<Event>, since: int)
    requires Indistinguishable(m, m', since) && Tidy(m) && Proper(m, m', maxTenants, events, since)
    ensures Replies(m, maxTenants, events, false) == Replies(m', maxTenants, events, true)
    decreases |events|
  {
    if events != [] {
      var e := events[0];
      match e {
        case Ask(k) => AllowSame(m, m', k.id, k.class_, since, k.now); AllowTidy(m, k.id, k.class_, k.now);
        case Set(id, c, p, memory, at) =>
          SafeKeeps(m, m', maxTenants, id, c, p, memory, since, at);
          ConfigureTidy(m, maxTenants, id, c, p, memory);
        case Clean(to, at) => CleanupIsIndistinguishable(m, m', to, since, at);
      }
      RunsAgree(Step(m, maxTenants, e, false), Step(m', maxTenants, e, true), maxTenants, events[1..], At(e));
    }
  }

  /** Through any run of calls, safe reconfigurations and cleanups, no verdict depends on whether
      the cleanups were carried out. */
  lemma CleanupKeepsVerdicts(m: Tenants, maxTenants: nat, events: seq<Event>, since: int)
    requires Tidy(m) && Proper(m, m, maxTenants, events, since)
    ensures Replies(m, maxTenants, events, false) == Replies(m, maxTenants, events, true)
  {
    RunsAgree(m, m, maxTenants, events, since);
  }

  // ---------------------------------------------------------------- the budget of a window

  /** Within one window no more than `maxOps` operations get through. */
  function Granted(m: Tenants, calls: seq<Call>, id: u32, c: nat): nat {
    if calls == [] then 0
    else
      var (m', v) := Allow(m, calls[0].id, calls[0].class_, calls[0].now);
      (if v && calls[0].id == id && calls[0].class_ == c then 1 else 0) + Granted(m', calls[1..], id, c)
  }

  lemma {:induction false} WindowBudget(m: Tenants, calls: seq<Call>, id: u32, c: nat)
    requires id in m && id != SYSTEM_TENANT && c < CLASSES && m[id].policies[c].maxOps != 0
    // The window is open and every call falls into it.
    requires m[id].counters[c].windowStart != 0
    requires forall k | k in calls :: !WindowOver(m[id].counters[c], m[id].policies[c], k.now)
    ensures m[id].counters[c].count <= m[id].policies[c].maxOps
            ==> m[id].counters[c].count + Granted(m, calls, id, c) <= m[id].policies[c].maxOps
    decreases |calls|
  {
    if calls != [] {
      var k := calls[0];
      var m' := Allow(m, k.id, k.class_, k.now).0;
      assert k in calls;
      assert forall k' | k' in calls[1..] :: k' in calls;
      WindowBudget(m', calls[1..], id, c);
    }
  }

  /** From the call that opens a window to its end no more than `maxOps` operations get through. */
  lemma OpeningBudget(m: Tenants, calls: seq<Call>, id: u32, c: nat)
    requires id in m && id != SYSTEM_TENANT && c < CLASSES && m[id].policies[c].maxOps != 0
    requires calls != [] && calls[0].id == id && calls[0].class_ == c && calls[0].now != 0
    requires var k := m[id].counters[c]; k.windowStart == 0 || WindowOver(k, m[id].policies[c], calls[0].now)
    requires forall k | k in calls :: k.now - calls[0].now < m[id].policies[c].window
    ensures Granted(m, calls, id, c) <= m[id].policies[c].maxOps
  {
    var m1 := Allow(m, id, c, calls[0].now).0;
    assert m1[id].counters[c] == Counter(1, calls[0].now) && m1[id].policies == m[id].policies;
    assert forall k | k in calls[1..] :: k in calls;
    WindowBudget(m1, calls[1..], id, c);
  }
}
