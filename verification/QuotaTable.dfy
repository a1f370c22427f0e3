/** The open-addressed tenant map behind the quotas (core/qihse_quota.c): linear probing with
    backshift deletion. Positions go round a ring of `cap` slots, `cap` a power of two, so the
    source's masking is the wrap-around written here. */
module QuotaTable {
  import opened Prelude
  import opened QuotaPolicy

  const MAX_TENANTS_LIMIT := 0x4000_0000_0000_0000

  type Slots = seq<Option<Tenant>>

  function Home(id: u32, cap: nat): (h: nat)
    requires cap > 0
    ensures h < cap
  {
    ((id * 2654435761) % 0x1_0000_0000) % cap
  }

  /** `(x + i) & (cap - 1)` */
  function Ahead(x: nat, i: nat, cap: nat): (y: nat)
    requires x < cap && i <= cap
    ensures y < cap
    ensures i < cap ==> Dist(x, y, cap) == i
  {
    if x + i < cap then x + i else x + i - cap
  }

  /** `(b - a + cap) & (cap - 1)`: how far ahead of `a` the slot `b` lies. */
  function Dist(a: nat, b: nat, cap: nat): (d: nat)
    requires a < cap && b < cap
    ensures d < cap
  {
    if a <= b then b - a else b + cap - a
  }

  /** `p` is probed before `j` when looking for a tenant whose home is `h`. */
  predicate Before(h: nat, p: nat, j: nat, cap: nat)
    requires h < cap && p < cap && j < cap
  {
    Dist(h, p, cap) < Dist(h, j, cap)
  }

  /** Every tenant can be reached from its home slot without meeting a hole,
      apart from `hole` itself. */
  predicate NoGapsBut(s: Slots, hole: int) {
    forall j, p ::
      0 <= j < |s| && 0 <= p < |s| && s[j].Some? && p != hole && Before(Home(s[j].value.id, |s|), p, j, |s|)
      ==> s[p].Some?
  }

  predicate NoGaps(s: Slots) { NoGapsBut(s, -1) }

  /** `where` locates each tenant; no tenant sits in two slots. */
  predicate Located(s: Slots, where: map<u32, nat>) {
    && (forall id | id in where :: where[id] < |s| && s[where[id]].Some? && s[where[id]].value.id == id)
    && (forall p :: 0 <= p < |s| && s[p].Some? ==> s[p].value.id in where && where[s[p].value.id] == p)
  }

  function Contents(s: Slots, where: map<u32, nat>): (m: Tenants)
    requires Located(s, where)
  {
    map id | id in where :: s[where[id]].value
  }

  function Occupied(s: Slots): (n: nat)
    ensures n <= |s|
  {
    if s == [] then 0 else Occupied(s[..|s| - 1]) + (if s[|s| - 1].Some? then 1 else 0)
  }

  lemma {:induction false} OccupiedUpdate(s: Slots, i: nat, v: Option<Tenant>)
    requires i < |s|
    ensures Occupied(s[i := v]) + (if s[i].Some? then 1 else 0) == Occupied(s) + (if v.Some? then 1 else 0)
  {
    var n := |s| - 1;
    if i < n {
      OccupiedUpdate(s[..n], i, v);
      assert s[i := v][..n] == s[..n][i := v];
    } else {
      assert s[i := v][..n] == s[..n];
    }
  }

  lemma {:induction false} EmptySlotExists(s: Slots) returns (e: nat)
    requires Occupied(s) < |s|
    ensures e < |s| && s[e].None?
  {
    var n := |s| - 1;
    if s[n].None? {
      e := n;
    } else {
      e := EmptySlotExists(s[..n]);
    }
  }

  /** Going on from `p` past `q` stays on the way. */
  lemma DistAdds(a: nat, b: nat, c: nat, cap: nat)
    requires a < cap && b < cap && c < cap
    requires Dist(a, b, cap) <= Dist(a, c, cap)
    ensures Dist(a, c, cap) == Dist(a, b, cap) + Dist(b, c, cap)
  {}

  lemma StepTowards(a: nat, cur: nat, e: nat, cap: nat)
    requires a < cap && cur < cap && e < cap
    requires Dist(a, cur, cap) < Dist(a, e, cap) && Ahead(cur, 1, cap) != e
    ensures Dist(a, Ahead(cur, 1, cap), cap) == Dist(a, cur, cap) + 1 < Dist(a, e, cap)
  {}

  /** Seen from `pos`, no tenant moves further away. */
  ghost predicate Closer(was: map<u32, nat>, where: map<u32, nat>, pos: nat, cap: nat) {
    pos < cap && forall id | id in where ::
      id in was && where[id] < cap && was[id] < cap && Dist(pos, where[id], cap) <= Dist(pos, was[id], cap)
  }

  /** One tenant slides closer. */
  lemma SlideCloser(was: map<u32, nat>, where: map<u32, nat>, pos: nat, cap: nat, id: u32, hole: nat)
    requires Closer(was, where, pos, cap) && id in where && hole < cap
    requires Dist(pos, hole, cap) <= Dist(pos, where[id], cap)
    ensures Closer(was, where[id := hole], pos, cap)
  {}

  /** Only tenants from before `pos` end up before it. */
  lemma CloserStaysBehind(was: map<u32, nat>, where: map<u32, nat>, pos: nat, cap: nat, id: u32)
    requires Closer(was, where, pos, cap) && id in where && where[id] < pos
    ensures id in was && was[id] < pos
  {}

  /** The tenants in slots before `i` were visited by a cleanup of `m`, but for `skipped`. */
  ghost predicate Visited(view: Tenants, where: map<u32, nat>, m: Tenants, now: int, i: nat, skipped: set<u32>) {
    forall id | id in view && id in where && where[id] < i && id !in skipped ::
      id in m && view[id] == Expire(m[id], now) && HasPolicy(m[id])
  }

  lemma VisitedNext(view: Tenants, where: map<u32, nat>, m: Tenants, now: int, i: nat, skipped: set<u32>)
    requires Visited(view, where, m, now, i, skipped) && forall id | id in where :: where[id] != i
    ensures Visited(view, where, m, now, i + 1, skipped)
  {}

  lemma VisitedKept(view: Tenants, where: map<u32, nat>, m: Tenants, now: int, i: nat, skipped: set<u32>, id: u32,
                    t: Tenant)
    requires Visited(view, where, m, now, i, skipped) && id in m && t == Expire(m[id], now) && HasPolicy(m[id])
    requires forall k | k in where && where[k] == i :: k == id
    ensures Visited(view[id := t], where, m, now, i + 1, skipped)
  {}

  lemma VisitedRemoved(view: Tenants, was: map<u32, nat>, where: map<u32, nat>, cap: nat, m: Tenants, now: int, i: nat,
                       skipped: set<u32>, skipped': set<u32>, id: u32)
    requires Visited(view, was, m, now, i, skipped) && Closer(was, where, i, cap) && skipped <= skipped'
    requires forall k | k in where && where[k] == i :: k in skipped'
    ensures Visited(view - {id}, where, m, now, i + 1, skipped')
  {
    forall k | k in view - {id} && k in where && where[k] < i + 1 && k !in skipped'
      ensures k in m && view[k] == Expire(m[k], now) && HasPolicy(m[k])
    {
      CloserStaysBehind(was, where, i, cap, k);
    }
  }

  /** The loop of the deletion: `hole` is the only hole that can break a probe path, the slots
      behind it up to `cur` are occupied and already checked, and the next hole is still ahead. */
  predicate Shifting(s: Slots, hole: nat, cur: nat, e: nat)
  {
    && hole < |s| && cur < |s| && e < |s|
    && s[hole].None? && s[e].None?
    && Dist(hole, cur, |s|) < Dist(hole, e, |s|)
    && NoGapsBut(s, hole)
    && (forall j :: 0 <= j < |s| && 0 < Dist(hole, j, |s|) <= Dist(hole, cur, |s|)
          ==> s[j].Some? && !Before(Home(s[j].value.id, |s|), hole, j, |s|))
  }

  /** Stopping at a hole is safe. */
  lemma StopAtHole(s: Slots, hole: nat, cur: nat, e: nat)
    requires Shifting(s, hole, cur, e)
    requires var next := Ahead(cur, 1, |s|); s[next].None?
    ensures NoGaps(s)
  {
    var cap := |s|;
    var next := Ahead(cur, 1, cap);
    forall j, p | 0 <= j < cap && 0 <= p < cap && s[j].Some? && Before(Home(s[j].value.id, cap), p, j, cap)
      ensures s[p].Some?
    {
      if p == hole {
        var h := Home(s[j].value.id, cap);
        assert Dist(hole, next, cap) == Dist(hole, cur, cap) + 1;
        assert Dist(hole, j, cap) > Dist(hole, cur, cap);
        DistAdds(h, hole, j, cap);
      }
    }
  }

  /** Leaving the tenant at the next slot where it is. */
  lemma KeepNext(s: Slots, hole: nat, cur: nat, e: nat)
    requires Shifting(s, hole, cur, e)
    requires var next := Ahead(cur, 1, |s|);
             s[next].Some? && !Before(Home(s[next].value.id, |s|), hole, next, |s|)
    ensures Shifting(s, hole, Ahead(cur, 1, |s|), e)
  {
    var next := Ahead(cur, 1, |s|);
    assert Dist(hole, next, |s|) == Dist(hole, cur, |s|) + 1;
    forall j | 0 <= j < |s| && Dist(hole, j, |s|) == Dist(hole, next, |s|) ensures j == next {}
  }

  /** Moving it into the hole, which makes its old slot the hole. */
  lemma MoveNext(s: Slots, hole: nat, cur: nat, e: nat)
    requires Shifting(s, hole, cur, e)
    requires var next := Ahead(cur, 1, |s|);
             s[next].Some? && Before(Home(s[next].value.id, |s|), hole, next, |s|)
    ensures var next := Ahead(cur, 1, |s|);
            Shifting(s[hole := s[next]][next := None], next, next, e)
  {
    var cap := |s|;
    var next := Ahead(cur, 1, cap);
    var s' := s[hole := s[next]][next := None];
    forall j, p | 0 <= j < cap && 0 <= p < cap && s'[j].Some? && p != next
                  && Before(Home(s'[j].value.id, cap), p, j, cap)
      ensures s'[p].Some?
    {
      var h := Home(s'[j].value.id, cap);
      if p != hole {
        var was := if j == hole then next else j;
        assert s[was] == s'[j];
        assert Before(h, p, was, cap);
      }
    }
  }

  lemma MoveLocated(s: Slots, where: map<u32, nat>, hole: nat, next: nat)
    requires Located(s, where) && hole < |s| && next < |s| && s[hole].None? && s[next].Some?
    ensures var s' := s[hole := s[next]][next := None];
            var where' := where[s[next].value.id := hole];
            && Located(s', where') && where'.Keys == where.Keys
            && Contents(s', where') == Contents(s, where) && Occupied(s') == Occupied(s)
  {
    OccupiedUpdate(s, hole, s[next]);
    OccupiedUpdate(s[hole := s[next]], next, None);
  }

  /** Clearing a slot is the start of the loop. */
  lemma ClearSlot(s: Slots, where: map<u32, nat>, pos: nat, e: nat)
    requires NoGaps(s) && Located(s, where) && pos < |s| && s[pos].Some? && e < |s| && s[e].None?
    ensures var s' := s[pos := None];
            var id := s[pos].value.id;
            && Shifting(s', pos, pos, e)
            && Located(s', where - {id})
            && Contents(s', where - {id}) == Contents(s, where) - {id}
            && Occupied(s') == Occupied(s) - 1
  {
    OccupiedUpdate(s, pos, None);
  }

  /** A free slot reached by probing can take the tenant. */
  lemma FillSlot(s: Slots, where: map<u32, nat>, pos: nat, t: Tenant)
    requires NoGaps(s) && Located(s, where) && pos < |s| && s[pos].None? && t.id !in where
    requires forall p :: 0 <= p < |s| && Before(Home(t.id, |s|), p, pos, |s|) ==> s[p].Some?
    ensures var s' := s[pos := Some(t)];
            && NoGaps(s') && Located(s', where[t.id := pos])
            && Contents(s', where[t.id := pos]) == Contents(s, where)[t.id := t]
            && Occupied(s') == Occupied(s) + 1
  {
    OccupiedUpdate(s, pos, Some(t));
  }

  /** Updating a tenant in place. */
  lemma ReplaceTenant(s: Slots, where: map<u32, nat>, pos: nat, t: Tenant)
    requires NoGaps(s) && Located(s, where) && pos < |s| && s[pos].Some? && s[pos].value.id == t.id
    ensures var s' := s[pos := Some(t)];
            && NoGaps(s') && Located(s', where)
            && Contents(s', where) == Contents(s, where)[t.id := t]
            && Occupied(s') == Occupied(s)
  {
    OccupiedUpdate(s, pos, Some(t));
  }

  class Table {
    const maxTenants: nat
    const slots: array<Option<Tenant>>
    var count: nat                 // tenant_count
    ghost var where: map<u32, nat>

    ghost predicate Valid()
      reads this, slots
    {
      NoGaps(slots[..]) && Counted()
    }

    ghost predicate Counted()
      reads this, slots
    {
      && 0 < 2 * maxTenants <= slots.Length
      && Located(slots[..], where)
      && count == Occupied(slots[..]) == |where|
      && count <= maxTenants
    }

    /** The tenants the table holds. */
    ghost function View(): (m: Tenants)
      requires Counted()
      reads this, slots
    {
      Contents(slots[..], where)
    }

    /** `qihse_quota_table_create`: at least twice as many slots as tenants. */
    constructor (maxTenants: nat)
      requires 0 < maxTenants <= MAX_TENANTS_LIMIT
      ensures Valid() && View() == map[] && fresh(slots) && this.maxTenants == maxTenants
    {
      var cap := 8;
      while cap < maxTenants * 2
        invariant cap >= 8
        decreases maxTenants * 2 - cap
      {
        cap := cap * 2;
      }
      this.maxTenants := maxTenants;
      slots := new Option<Tenant>[cap](_ => None);
      count := 0;
      where := map[];
      new;
      AllEmpty(slots[..]);
    }

    /** `quota_find_locked`: the probe finds a tenant exactly when it is there. */
    method Find(id: u32) returns (pos: Option<nat>)
      requires Valid()
      ensures pos.Some? <==> id in View()
      ensures pos.Some? ==> pos.value < slots.Length && slots[pos.value] == Some(View()[id]) && where[id] == pos.value
    {
      var cap := slots.Length;
      var h := Home(id, cap);
      var i := 0;
      while i < cap
        invariant 0 <= i <= cap
        invariant forall p :: 0 <= p < cap && Dist(h, p, cap) < i ==> slots[p].Some? && slots[p].value.id != id
      {
        var at := Ahead(h, i, cap);
        var t := slots[at];
        if t.None? {
          return None;
        }
        if t.value.id == id {
          return Some(at);
        }
        assert forall p :: 0 <= p < cap && Dist(h, p, cap) == i ==> p == at;
        i := i + 1;
      }
      return None;
    }

    /** The second half of `quota_get_or_create_locked`: the first free slot on the path. Half of
        the slots are always free, so the probe cannot come back empty-handed. */
    method Insert(id: u32) returns (pos: nat)
      requires Valid() && id !in View() && count < maxTenants
      modifies this, slots
      ensures Valid() && View() == old(View())[id := NewTenant(id)]
      ensures pos < slots.Length && slots[pos] == Some(NewTenant(id)) && where[id] == pos
    {
      var cap := slots.Length;
      var h := Home(id, cap);
      ghost var e := EmptySlotExists(slots[..]);
      var i := 0;
      while slots[Ahead(h, i, cap)].Some?
        invariant 0 <= i <= Dist(h, e, cap)
        invariant forall p :: 0 <= p < cap && Dist(h, p, cap) < i ==> slots[p].Some?
        decreases cap - i
      {
        assert forall p :: 0 <= p < cap && Dist(h, p, cap) == i ==> p == Ahead(h, i, cap);
        i := i + 1;
      }
      pos := Ahead(h, i, cap);
      ghost var before := slots[..];
      FillSlot(before, where, pos, NewTenant(id));
      slots[pos] := Some(NewTenant(id));
      assert slots[..] == before[pos := Some(NewTenant(id))];
      count := count + 1;
      where := where[id := pos];
    }

    /** `quota_get_or_create_locked`; `memory` is whether `calloc` succeeds. */
    method GetOrCreate(id: u32, memory: bool) returns (pos: Option<nat>)
      requires Valid()
      modifies this, slots
      ensures Valid()
      ensures pos.Some? <==> id in old(View()) || (|old(View())| < maxTenants && memory)
      ensures View() == if pos.Some? && id !in old(View()) then old(View())[id := NewTenant(id)] else old(View())
      ensures pos.Some? ==> pos.value < slots.Length && slots[pos.value] == Some(View()[id])
    {
      pos := Find(id);
      if pos.Some? { return; }
      assert View().Keys == where.Keys;
      if count >= maxTenants || !memory { return None; }
      var at := Insert(id);
      return Some(at);
    }

    /** Slides the tenant at `next` into the hole. */
    method Slide(hole: nat, next: nat)
      requires Counted()
      requires hole < slots.Length && next < slots.Length && slots[hole].None? && slots[next].Some?
      modifies this`where, slots
      ensures Counted() && View() == old(View())
      ensures slots[..] == old(slots[..])[hole := old(slots[next])][next := None]
      ensures where == old(where)[old(slots[next]).value.id := hole]
    {
      ghost var now := slots[..];
      MoveLocated(now, where, hole, next);
      where := where[slots[next].value.id := hole];
      slots[hole] := slots[next];
      slots[next] := None;
      assert slots[..] == now[hole := now[next]][next := None];
    }

    method Clear(pos: nat, ghost e: nat)
      requires Valid() && pos < slots.Length && slots[pos].Some? && e < slots.Length && slots[e].None?
      modifies this, slots
      ensures Counted() && View() == old(View()) - {old(slots[pos]).value.id}
      ensures Shifting(slots[..], pos, pos, e) && where == old(where) - {old(slots[pos]).value.id}
    {
      ghost var before := slots[..];
      ClearSlot(before, where, pos, e);
      where := where - {slots[pos].value.id};
      slots[pos] := None;
      assert slots[..] == before[pos := None];
      count := count - 1;
    }

    /** One turn of the backshift loop: stop at a hole, slide the tenant or leave it. Seen from
        `pos`, where the deletion began, tenants only move closer. */
    method ShiftOnce(hole: nat, cur: nat, ghost e: nat, ghost pos: nat, ghost was: map<u32, nat>)
      returns (done: bool, hole': nat)
      requires Counted() && Shifting(slots[..], hole, cur, e) && Closer(was, where, pos, slots.Length)
      requires Dist(pos, hole, slots.Length) <= Dist(pos, cur, slots.Length) < Dist(pos, e, slots.Length)
      modifies this`where, slots
      ensures Counted() && View() == old(View()) && Closer(was, where, pos, slots.Length)
      ensures done ==> NoGaps(slots[..])
      ensures !done ==> Shifting(slots[..], hole', Ahead(cur, 1, slots.Length), e)
      ensures !done ==> Dist(pos, hole', slots.Length) <= Dist(pos, Ahead(cur, 1, slots.Length), slots.Length)
                        == Dist(pos, cur, slots.Length) + 1 < Dist(pos, e, slots.Length)
    {
      var cap := slots.Length;
      var next := Ahead(cur, 1, cap);
      if slots[next].None? {
        StopAtHole(slots[..], hole, cur, e);
        return true, hole;
      }
      assert slots[..][next].Some? && slots[..][e].None?;
      StepTowards(pos, cur, e, cap);
      var home := Home(slots[next].value.id, cap);
      if Dist(home, hole, cap) < Dist(home, next, cap) {
        MoveNext(slots[..], hole, cur, e);
        SlideCloser(was, where, pos, cap, slots[next].value.id, hole);
        Slide(hole, next);
        return false, next;
      }
      KeepNext(slots[..], hole, cur, e);
      return false, hole;
    }

    /** `quota_slot_delete_locked`: clears the slot and backshifts the cluster behind it. */
    method SlotDelete(pos: nat)
      requires Valid() && pos < slots.Length && slots[pos].Some?
      modifies this, slots
      ensures Valid()
      ensures View() == old(View()) - {old(slots[pos]).value.id}
      ensures Closer(old(where), where, pos, slots.Length)
    {
      var cap := slots.Length;
      ghost var e := EmptySlotExists(slots[..]);
      Clear(pos, e);
      ghost var rest, was := View(), old(where);
      var hole: nat, cur: nat, n: nat, done := pos, pos, 0, false;
      while n < cap && !done
        invariant cur < cap && Closer(was, where, pos, cap)
        invariant done ==> NoGaps(slots[..])
        invariant !done ==> n == Dist(pos, cur, cap) < Dist(pos, e, cap) && Shifting(slots[..], hole, cur, e)
        invariant !done ==> Dist(pos, hole, cap) <= Dist(pos, cur, cap)
        invariant Counted() && View() == rest
      {
        done, hole := ShiftOnce(hole, cur, e, pos, was);
        cur := Ahead(cur, 1, cap);
        n := n + 1;
      }
    }

    /** Writes a tenant back into its slot. */
    method Put(pos: nat, t: Tenant)
      requires Valid() && pos < slots.Length && slots[pos].Some? && slots[pos].value.id == t.id
      modifies slots
      ensures Valid() && View() == old(View())[t.id := t]
      ensures slots[..] == old(slots[..])[pos := Some(t)]
    {
      ReplaceTenant(slots[..], where, pos, t);
      slots[pos] := Some(t);
      assert slots[..] == old(slots[..])[pos := Some(t)];
    }

    /** Disabling a class touches existing tenants only. */
    method Disable(id: u32, c: nat)
      requires Valid() && c < CLASSES
      modifies slots
      ensures Valid() && View() == QuotaPolicy.Configure(old(View()), maxTenants, id, c, UNLIMITED, true).0
    {
      var pos := Find(id);
      if pos.Some? {
        var t := slots[pos.value].value;
        Put(pos.value, SetPolicy(t, c, UNLIMITED).(counters := t.counters[c := IDLE]));
      }
    }

    /** `qihse_quota_configure` */
    method Configure(id: u32, c: nat, maxOps: u32, window: u32, memory: bool) returns (ok: bool)
      requires Valid()
      modifies this, slots
      ensures Valid()
              && View() == QuotaPolicy.Configure(old(View()), maxTenants, id, c, Policy(maxOps, window), memory).0
      ensures ok == QuotaPolicy.Configure(old(View()), maxTenants, id, c, Policy(maxOps, window), memory).1
      ensures Configured(old(View()), View(), maxTenants, id, c, maxOps, window, memory, ok)
    {
      ConfigureMeans(View(), maxTenants, id, c, maxOps, window, memory);
      if c >= CLASSES { return false; }
      if maxOps == 0 {
        Disable(id, c);
        return true;
      }
      if window == 0 { return false; }
      ok := Enable(id, c, Policy(maxOps, window), memory);
    }

    method Enable(id: u32, c: nat, p: Policy, memory: bool) returns (ok: bool)
      requires Valid() && c < CLASSES && p.maxOps != 0 && p.window != 0
      modifies this, slots
      ensures Valid() && View() == QuotaPolicy.Configure(old(View()), maxTenants, id, c, p, memory).0
      ensures ok == QuotaPolicy.Configure(old(View()), maxTenants, id, c, p, memory).1
    {
      var pos := GetOrCreate(id, memory);
      if pos.None? { return false; }
      ConfigureInTwoSteps(old(View()), View(), maxTenants, id, c, p, memory);
      Put(pos.value, SetPolicy(slots[pos.value].value, c, p));
      return true;
    }

    /** The window and the budget of one tenant and class. */
    static method Spend(t: Tenant, c: nat, now: int) returns (t': Tenant, ok: bool)
      requires c < CLASSES
      ensures (t', ok) == AllowTenant(t, c, now)
    {
      var p := t.policies[c];
      if p.maxOps == 0 { return t, true; }
      var k := t.counters[c];
      if k.windowStart == 0 || now - k.windowStart >= p.window {
        k := Counter(0, now);
      }
      ok := k.count < p.maxOps;
      if ok { k := k.(count := k.count + 1); }
      t' := t.(counters := t.counters[c := k]);
    }

    /** `qihse_quota_allow` */
    method Allow(id: u32, c: nat, now: int) returns (ok: bool)
      requires Valid()
      modifies slots
      ensures Valid() && View() == QuotaPolicy.Allow(old(View()), id, c, now).0
      ensures ok == QuotaPolicy.Allow(old(View()), id, c, now).1
      ensures Judged(old(View()), View(), id, c, now, ok)
    {
      AllowMeans(View(), id, c, now);
      if c >= CLASSES { return false; }
      if id == SYSTEM_TENANT { return true; }
      var pos := Find(id);
      if pos.None? { return true; }
      var t;
      t, ok := Spend(slots[pos.value].value, c, now);
      Put(pos.value, t);
    }

    /** The class loop of a cleanup visit. */
    static method Visit(t: Tenant, now: int) returns (t': Tenant, hasPolicy: bool)
      ensures t' == Expire(t, now) && (hasPolicy <==> HasPolicy(t))
      ensures forall c :: 0 <= c < 4 ==>
        t'.counters[c] == if t.counters[c].windowStart != 0 && now - t.counters[c].windowStart >= t.policies[c].window
                          then Counter(0, 0) else t.counters[c]
      ensures hasPolicy <==> exists c :: 0 <= c < 4 && t.policies[c].maxOps != 0
    {
      t', hasPolicy := t, false;
      var c := 0;
      while c < CLASSES
        invariant 0 <= c <= CLASSES
        invariant t'.id == t.id && t'.policies == t.policies
        invariant forall d :: 0 <= d < c ==> t'.counters[d] == ExpireCounter(t.counters[d], t.policies[d], now)
        invariant forall d :: c <= d < CLASSES ==> t'.counters[d] == t.counters[d]
        invariant hasPolicy <==> exists d :: 0 <= d < c && t.policies[d].maxOps != 0
      {
        var p := t.policies[c];
        if p.maxOps != 0 { hasPolicy := true; }
        var k := t'.counters[c];
        if k.windowStart != 0 && now - k.windowStart >= p.window {
          t' := t'.(counters := t'.counters[c := IDLE]);
        }
        c := c + 1;
      }
      assert t'.counters == Expire(t, now).counters;
    }

    /** The second half of a visit: a tenant without a policy goes, and whichever tenant is shifted
        into its slot is skipped. */
    method RemoveSlot(i: nat, now: int, ghost m: Tenants, ghost skipped: set<u32>) returns (ghost skipped': set<u32>)
      requires Valid() && i < slots.Length && slots[i].Some? && !HasPolicy(slots[i].value)
      requires CleanedUp(m, View(), now) && |skipped| + |View()| <= |m| && Visited(View(), where, m, now, i, skipped)
      modifies this, slots
      ensures Valid() && CleanedUp(m, View(), now) && |skipped'| + |View()| <= |m|
      ensures Visited(View(), where, m, now, i + 1, skipped')
    {
      ghost var view, was, id := View(), where, slots[i].value.id;
      assert view[id] == slots[..][i].value;
      CleanupVisit(m, view, now, id);
      SlotDelete(i);
      RemoveOne(view, id);
      skipped' := if slots[i].Some? then skipped + {slots[i].value.id} else skipped;
      SlotOwner(slots[..], where, i);
      VisitedRemoved(view, was, where, slots.Length, m, now, i, skipped, skipped', id);
    }

    /** A visit of an occupied slot: the tenant's finished windows are dropped. */
    method VisitSlot(i: nat, now: int, ghost m: Tenants, ghost skipped: set<u32>) returns (ghost skipped': set<u32>)
      requires Valid() && i < slots.Length && slots[i].Some?
      requires CleanedUp(m, View(), now) && |skipped| + |View()| <= |m| && Visited(View(), where, m, now, i, skipped)
      modifies this, slots
      ensures Valid() && CleanedUp(m, View(), now) && |skipped'| + |View()| <= |m|
      ensures Visited(View(), where, m, now, i + 1, skipped')
    {
      var t := slots[i].value;
      TenantAt(slots[..], where, i);
      ExpiredStep(View(), where, m, now, i, skipped, t.id);
      var t', hasPolicy := Visit(t, now);
      Put(i, t');
      skipped' := skipped;
      if !hasPolicy { skipped' := RemoveSlot(i, now, m, skipped); }
    }

    /** `qihse_quota_cleanup`: every tenant the pass does not skip has its finished windows dropped,
        and goes if it has no policy. */
    method Cleanup(now: int) returns (ghost skipped: set<u32>)
      requires Valid()
      modifies this, slots
      ensures Valid() && Passed(old(View()), View(), now, skipped)
    {
      ghost var m := View();
      skipped := {};
      var i: nat := 0;
      while i < slots.Length
        invariant i <= slots.Length && Valid() && CleanedUp(m, View(), now)
        invariant |skipped| + |View()| <= |m| && Visited(View(), where, m, now, i, skipped)
      {
        if slots[i].Some? {
          skipped := VisitSlot(i, now, m, skipped);
        } else {
          SlotOwner(slots[..], where, i);
          VisitedNext(View(), where, m, now, i, skipped);
        }
        i := i + 1;
      }
      AllVisited(slots[..], where, View(), m, now, skipped);
    }
  }

  /** A slot is the place of the tenant in it, or of none. */
  lemma SlotOwner(s: Slots, where: map<u32, nat>, i: nat)
    requires Located(s, where) && i < |s|
    ensures forall k | k in where && where[k] == i :: s[i].Some? && k == s[i].value.id
  {}

  lemma TenantAt(s: Slots, where: map<u32, nat>, i: nat)
    requires Located(s, where) && i < |s| && s[i].Some?
    ensures var id := s[i].value.id; id in where && where[id] == i && Contents(s, where)[id] == s[i].value
    ensures forall k | k in where && where[k] == i :: k == s[i].value.id
  {}

  /** What dropping the finished windows of the tenant in slot `i` leaves. */
  lemma ExpiredStep(view: Tenants, where: map<u32, nat>, m: Tenants, now: int, i: nat, skipped: set<u32>, id: u32)
    requires CleanedUp(m, view, now) && Visited(view, where, m, now, i, skipped) && id in view && id in where
             && where[id] == i
    requires forall k | k in where && where[k] == i :: k == id
    ensures var after := view[id := Expire(view[id], now)];
            && CleanedUp(m, after, now) && |after| == |view| && Visited(after, where, m, now, i, skipped)
            && (HasPolicy(view[id]) ==> Visited(after, where, m, now, i + 1, skipped))
  {
    CleanupVisit(m, view, now, id);
    ExpireOnce(m, view, now, id);
    ReplaceOne(view, id, Expire(view[id], now));
    VisitedSame(view, where, m, now, i, skipped, id, Expire(view[id], now));
    if HasPolicy(view[id]) { VisitedKept(view, where, m, now, i, skipped, id, Expire(view[id], now)); }
  }

  lemma AllVisited(s: Slots, where: map<u32, nat>, view: Tenants, m: Tenants, now: int, skipped: set<u32>)
    requires Located(s, where) && view == Contents(s, where) && Visited(view, where, m, now, |s|, skipped)
    requires CleanedUp(m, view, now) && |skipped| + |view| <= |m|
    ensures Passed(m, view, now, skipped)
  {
    forall id | id in view && id !in skipped ensures view[id] == Expire(m[id], now) && HasPolicy(m[id]) {
      assert id in where && where[id] < |s|;
    }
  }

  lemma ExpireOnce(m: Tenants, view: Tenants, now: int, id: u32)
    requires CleanedUp(m, view, now) && id in view
    ensures id in m && Expire(view[id], now) == Expire(m[id], now) && HasPolicy(view[id]) == HasPolicy(m[id])
  {
    CleanupVisit(m, view, now, id);
    assert forall k: Counter, p: Policy :: ExpireCounter(ExpireCounter(k, p, now), p, now) == ExpireCounter(k, p, now);
  }

  lemma VisitedSame(view: Tenants, where: map<u32, nat>, m: Tenants, now: int, i: nat, skipped: set<u32>, id: u32,
                    t: Tenant)
    requires Visited(view, where, m, now, i, skipped) && (id in where ==> where[id] >= i)
    ensures Visited(view[id := t], where, m, now, i, skipped)
  {}

  lemma ReplaceOne(m: Tenants, id: u32, t: Tenant)
    requires id in m
    ensures |m[id := t]| == |m|
  {
    assert m[id := t].Keys == m.Keys && |m| == |m.Keys| && |m[id := t]| == |m[id := t].Keys|;
  }

  lemma RemoveOne(m: Tenants, id: u32)
    requires id in m
    ensures |m - {id}| == |m| - 1
  {
    assert (m - {id}).Keys == m.Keys - {id} && |m| == |m.Keys| && |m - {id}| == |(m - {id}).Keys|;
  }

  lemma {:induction false} AllEmpty(s: Slots)
    requires forall i :: 0 <= i < |s| ==> s[i].None?
    ensures Occupied(s) == 0
  {
    if s != [] { AllEmpty(s[..|s| - 1]); }
  }
}
