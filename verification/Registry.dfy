/** The replicated principal registry as a state machine over its committed log
    (core/qihse_principal_store.c). */
module Registry {
  import opened Prelude
  import opened Principal
  import opened RecordBlocks
  import opened PrincipalRecord

  /** `principal_slot_t`; a generation without a user is a tombstone. */
  datatype Slot = Slot(user: Option<User>, generation: u64)

  datatype State = State(slots: seq<Slot>, requests: seq<RequestId>, applied: u64, generation: u64)

  predicate Tombstone(s: Slot) { s.user.None? && s.generation > 0 }

  /** `username_taken` */
  predicate NameTaken(slots: seq<Slot>, except: nat, name: Bytes) {
    exists id ::
      0 <= id < |slots| && id != except && slots[id].user.Some? && CStr(slots[id].user.value.username) == CStr(name)
  }

  /** The record may be applied in this state. */
  predicate Granted(s: State, r: Record)
    requires |s.slots| == MAX_IDS
  {
    && ValidRecord(r)
    && r.request !in s.requests
    && s.slots[r.actor].user.Some?
    && Authorized(r, s.generation, s.slots[r.actor].user.value, s.slots[r.actor].generation,
                  s.slots[r.target].user, s.slots[r.target].generation)
    && (r.body.Put? ==> !NameTaken(s.slots, r.target, r.body.principal.username))
  }

  function Written(r: Record): Slot {
    Slot(if r.body.Put? then Some(r.body.principal) else None, r.principalGen)
  }

  /** One committed entry; `None` stands for bytes that are no valid record. */
  function Apply(s: State, e: Option<Record>): State
    requires |s.slots| == MAX_IDS && s.applied < U64_MAX && s.generation < U64_MAX && (e.Some? ==> ValidRecord(e.value))
  {
    var moved := s.(applied := s.applied + 1);
    if e.None? || e.value.request in s.requests then moved
    else if Granted(s, e.value) then
      State(s.slots[e.value.target := Written(e.value)], [e.value.request] + s.requests, s.applied + 1,
            s.generation + 1)
    else moved.(requests := [e.value.request] + s.requests)
  }

  // ---------------------------------------------------------------- the invariant

  function GenerationSum(slots: seq<Slot>): nat {
    if |slots| == 0 then 0 else GenerationSum(slots[..|slots| - 1]) + slots[|slots| - 1].generation
  }

  predicate DistinctNames(slots: seq<Slot>) {
    forall i, j :: 0 <= i < j < |slots| && slots[i].user.Some? && slots[j].user.Some? ==>
      CStr(slots[i].user.value.username) != CStr(slots[j].user.value.username)
  }

  predicate FieldsKept(slots: seq<Slot>) {
    forall id :: 1 <= id < |slots| && slots[id].user.Some? ==>
      slots[id].user.value.id == id && FieldsValid(slots[id].user.value, false) && slots[id].generation > 0
  }

  ghost predicate Inv(s: State, root: User) {
    && |s.slots| == MAX_IDS
    && s.slots[0] == Slot(Some(root), 1) && root.id == 0
    && FieldsKept(s.slots) && DistinctNames(s.slots)
    && s.generation == GenerationSum(s.slots[1..])
  }

  lemma {:induction false} SumOfZeros(slots: seq<Slot>)
    requires forall i :: 0 <= i < |slots| ==> slots[i].generation == 0
    ensures GenerationSum(slots) == 0
  {
    if slots != [] { SumOfZeros(slots[..|slots| - 1]); }
  }

  /** The registry that holds only its bootstrap operator. */
  function Empty(root: User): (s: State)
    ensures |s.slots| == MAX_IDS
  {
    State([Slot(Some(root), 1)] + seq(MAX_IDS - 1, _ => Slot(None, 0)), [], 0, 0)
  }

  predicate Bootstrap(root: User) {
    root.id == 0 && root.role == ROLE_OPERATOR && root.tenant == TENANT_SYSTEM && FullClearance(root)
    && root.passwordSet
  }

  lemma EmptyInv(root: User)
    requires Bootstrap(root)
    ensures Inv(Empty(root), root)
  {
    SumOfZeros(Empty(root).slots[1..]);
  }

  lemma {:induction false} SumAfterWrite(slots: seq<Slot>, i: nat, w: Slot)
    requires i < |slots|
    ensures GenerationSum(slots[i := w]) == GenerationSum(slots) - slots[i].generation + w.generation
  {
    var n := |slots| - 1;
    if i < n {
      SumAfterWrite(slots[..n], i, w);
      assert slots[i := w][..n] == slots[..n][i := w];
    } else {
      assert slots[i := w][..n] == slots[..n];
    }
  }

  lemma WriteKeepsNames(slots: seq<Slot>, at: nat, w: Slot)
    requires DistinctNames(slots) && at < |slots| && (w.user.Some? ==> !NameTaken(slots, at, w.user.value.username))
    ensures DistinctNames(slots[at := w])
  {}

  lemma WriteKeepsFields(slots: seq<Slot>, at: nat, w: Slot)
    requires FieldsKept(slots) && 0 < at < |slots|
    requires w.user.Some? ==> w.user.value.id == at && FieldsValid(w.user.value, false) && w.generation > 0
    ensures FieldsKept(slots[at := w])
  {}

  /** Every entry, applied or rejected, keeps the registry well formed. */
  lemma ApplyKeepsInv(s: State, e: Option<Record>, root: User)
    requires Inv(s, root) && s.applied < U64_MAX && s.generation < U64_MAX && (e.Some? ==> ValidRecord(e.value))
    ensures Inv(Apply(s, e), root)
  {
    if e.Some? && Granted(s, e.value) {
      var r := e.value;
      var w := Written(r);
      WriteKeepsNames(s.slots, r.target, w);
      WriteKeepsFields(s.slots, r.target, w);
      SumAfterWrite(s.slots[1..], r.target - 1, w);
      assert s.slots[r.target := w][1..] == s.slots[1..][r.target - 1 := w];
    }
  }

  // ---------------------------------------------------------------- what one id can live through

  /** How a slot may change: generations rise, tombstones stay, role and tenant are for life. */
  predicate Ages(a: Slot, b: Slot) {
    && a.generation <= b.generation
    && (Tombstone(a) ==> b == a)
    && (a.user.Some? ==>
        (if b.user.Some? then b.user.value.role == a.user.value.role && b.user.value.tenant == a.user.value.tenant
                          else Tombstone(b)))
  }

  lemma ApplyAges(s: State, e: Option<Record>, root: User, id: nat)
    requires Inv(s, root) && s.applied < U64_MAX && s.generation < U64_MAX && (e.Some? ==> ValidRecord(e.value))
             && id < MAX_IDS
    ensures Ages(s.slots[id], Apply(s, e).slots[id])
  {}

  // ---------------------------------------------------------------- runs

  type Log = seq<Option<Record>>

  predicate ValidLog(log: Log) {
    forall i :: 0 <= i < |log| && log[i].Some? ==> ValidRecord(log[i].value)
  }

  /** Room for that many more entries below the 64-bit counters. */
  predicate Room(s: State, n: nat) { s.applied + n <= U64_MAX && s.generation + n <= U64_MAX }

  /** The state after the first `n` entries. */
  ghost function Replay(s: State, log: Log, n: nat): (t: State)
    requires |s.slots| == MAX_IDS && ValidLog(log) && n <= |log| && Room(s, n)
    ensures |t.slots| == MAX_IDS && t.applied == s.applied + n && s.generation <= t.generation <= s.generation + n
  {
    if n == 0 then s else Apply(Replay(s, log, n - 1), log[n - 1])
  }

  lemma {:induction false} ReplayInv(s: State, log: Log, n: nat, root: User)
    requires Inv(s, root) && ValidLog(log) && n <= |log| && Room(s, n)
    ensures Inv(Replay(s, log, n), root)
  {
    if n > 0 {
      ReplayInv(s, log, n - 1, root);
      ApplyKeepsInv(Replay(s, log, n - 1), log[n - 1], root);
    }
  }

  /** Between any two moments of a run each slot only ages. */
  lemma {:induction false} ReplayAges(s: State, log: Log, m: nat, n: nat, root: User, id: nat)
    requires Inv(s, root) && ValidLog(log) && m <= n <= |log| && Room(s, n) && id < MAX_IDS
    ensures Ages(Replay(s, log, m).slots[id], Replay(s, log, n).slots[id])
    decreases n
  {
    if m < n {
      ReplayAges(s, log, m, n - 1, root, id);
      ReplayInv(s, log, n - 1, root);
      ApplyAges(Replay(s, log, n - 1), log[n - 1], root, id);
    }
  }

  /** Entry `i` of the log changed the registry. */
  ghost predicate Takes(s: State, log: Log, i: nat)
    requires |s.slots| == MAX_IDS && ValidLog(log) && i < |log| && Room(s, i + 1)
  {
    log[i].Some? && Granted(Replay(s, log, i), log[i].value)
  }

  lemma {:induction false} RequestsKept(s: State, log: Log, m: nat, n: nat, id: RequestId)
    requires |s.slots| == MAX_IDS && ValidLog(log) && m <= n <= |log| && Room(s, n) && id in Replay(s, log, m).requests
    ensures id in Replay(s, log, n).requests
    decreases n
  {
    if m < n { RequestsKept(s, log, m, n - 1, id); }
  }

  lemma {:induction false} GenerationRises(s: State, log: Log, m: nat, n: nat)
    requires |s.slots| == MAX_IDS && ValidLog(log) && m <= n <= |log| && Room(s, n)
    ensures Replay(s, log, m).generation <= Replay(s, log, n).generation
    decreases n
  {
    if m < n { GenerationRises(s, log, m, n - 1); }
  }

  /** No request id takes effect twice, and no two records expecting the same generation do. */
  lemma TakesOnce(s: State, log: Log, i: nat, j: nat)
    requires |s.slots| == MAX_IDS && ValidLog(log) && i < j < |log| && Room(s, j + 1)
    requires Takes(s, log, i) && Takes(s, log, j)
    ensures log[i].value.request != log[j].value.request
    ensures log[i].value.expected < log[j].value.expected
  {
    var r := log[i].value;
    assert r.request in Replay(s, log, i + 1).requests;
    RequestsKept(s, log, i + 1, j, r.request);
    GenerationRises(s, log, i + 1, j);
    assert Replay(s, log, i + 1).generation == r.expected + 1;
  }

  /** Entry `i` took effect on this id. */
  ghost predicate Hits(s: State, log: Log, i: nat, id: nat)
    requires |s.slots| == MAX_IDS && ValidLog(log) && i < |log| && Room(s, i + 1)
  {
    Takes(s, log, i) && log[i].value.target == id
  }

  /** While no entry takes effect on an id its slot stays what it is. */
  lemma {:induction false} UntouchedStays(s: State, log: Log, m: nat, n: nat, id: nat)
    requires |s.slots| == MAX_IDS && ValidLog(log) && m <= n <= |log| && Room(s, n) && id < MAX_IDS
    requires forall j :: m <= j < n ==> !Hits(s, log, j, id)
    ensures Replay(s, log, n).slots[id] == Replay(s, log, m).slots[id]
    decreases n
  {
    if m < n {
      UntouchedStays(s, log, m, n - 1, id);
      assert !Hits(s, log, n - 1, id);
    }
  }

  /** After any entries a slot holds exactly what the last one that took effect on it put there: the
      whole principal or none, under the generation that entry names. */
  lemma LastWriterWins(s: State, log: Log, i: nat, n: nat, id: nat)
    requires |s.slots| == MAX_IDS && ValidLog(log) && i < n <= |log| && Room(s, n) && id < MAX_IDS
    requires Hits(s, log, i, id) && forall j :: i < j < n ==> !Hits(s, log, j, id)
    ensures var slot, r := Replay(s, log, n).slots[id], log[i].value;
            slot.generation == r.principalGen && slot.user == match r.body case Put(u) => Some(u) case Delete => None
  {
    UntouchedStays(s, log, i + 1, n, id);
  }

  /** The registry remembers exactly the request ids of the records it has seen, taken or not. */
  lemma {:induction false} RequestsExact(s: State, log: Log, n: nat, id: RequestId)
    requires |s.slots| == MAX_IDS && ValidLog(log) && n <= |log| && Room(s, n)
    ensures id in Replay(s, log, n).requests <==>
      id in s.requests || exists i :: 0 <= i < n && log[i].Some? && log[i].value.request == id
  {
    if n > 0 {
      RequestsExact(s, log, n - 1, id);
      if log[n - 1].Some? && log[n - 1].value.request == id { assert id in Replay(s, log, n).requests; }
    }
  }

  /** The registry generation counts the entries that took effect. */
  lemma {:induction false} GenerationCounts(s: State, log: Log, n: nat)
    requires |s.slots| == MAX_IDS && ValidLog(log) && n <= |log| && Room(s, n) && n > 0
    ensures Replay(s, log, n).generation == Replay(s, log, n - 1).generation + if Takes(s, log, n - 1) then 1 else 0
  {}

  // ---------------------------------------------------------------- who may do what

  /** A record that names the present: fresh, by a live actor, for the next generation of a slot
      that holds a principal or was never used. */
  predicate Timely(s: State, r: Record)
    requires |s.slots| == MAX_IDS
  {
    && ValidRecord(r) && r.request !in s.requests && r.expected == s.generation < U64_MAX
    && s.slots[r.actor].user.Some? && r.actorGen == s.slots[r.actor].generation
    && (s.slots[r.target].user.None? ==> s.slots[r.target].generation == 0)
    && s.slots[r.target].generation < U64_MAX && r.principalGen == s.slots[r.target].generation + 1
  }

  /** What is put stays within what its author has, and its name is free. */
  predicate Within(s: State, u: User, a: User, target: nat) {
    && u.role >= a.role && u.classification <= a.classification && (u.sci as bv16) & (a.sci as bv16) == u.sci as bv16
    && (a.tokenRequired ==> u.tokenRequired)
    && (forall i :: 0 <= i < |s.slots| && i != target && s.slots[i].user.Some? ==>
          CStr(s.slots[i].user.value.username) != CStr(u.username))
  }

  /** Everyone in a slot is who its id says, active in a real tenant and role. */
  ghost predicate Proper(s: State, root: User) {
    Inv(s, root) && root.role <= ROLE_GUEST && root.tenant != TENANT_INVALID
  }

  lemma SlotProper(s: State, root: User, id: nat)
    requires Proper(s, root) && id < MAX_IDS && s.slots[id].user.Some?
    ensures var u := s.slots[id].user.value;
            u.id == id && u.role <= ROLE_GUEST && u.tenant != TENANT_INVALID && s.slots[id].generation != 0
  {
    if id > 0 { assert FieldsValid(s.slots[id].user.value, false); }
  }

  /** An operator's timely record takes effect exactly if it stays in reach: a system operator
      reaches every tenant, any other operator its own unless that is the system's. A deletion needs
      a live target; a change keeps role and tenant; nothing put exceeds its author. */
  lemma OperatorRule(s: State, r: Record, root: User)
    requires Proper(s, root) && Timely(s, r) && s.slots[r.actor].user.value.role == ROLE_OPERATOR
    ensures var a, t := s.slots[r.actor].user.value, s.slots[r.target].user;
            Granted(s, r) <==>
              match r.body
              case Delete => t.Some? && (a.tenant == TENANT_SYSTEM || a.tenant == t.value.tenant)
              case Put(u) =>
                && Within(s, u, a, r.target) && (a.tenant == TENANT_SYSTEM || a.tenant == u.tenant)
                && (t.Some? ==> t.value.role == u.role && t.value.tenant == u.tenant)
  {
    SlotProper(s, root, r.actor);
    if s.slots[r.target].user.Some? { SlotProper(s, root, r.target); }
  }

  /** Anyone else's takes effect exactly if its author may create principals and it creates one
      without clearance, delegation or access list, for the lowest role, in the author's tenant or,
      from the system's, in any. */
  lemma DelegateRule(s: State, r: Record, root: User)
    requires Proper(s, root) && Timely(s, r) && s.slots[r.actor].user.value.role != ROLE_OPERATOR
    ensures var a, t := s.slots[r.actor].user.value, s.slots[r.target].user;
            Granted(s, r) <==>
              && a.canCreate && t.None? && r.body.Put?
              && var u := r.body.principal;
                 && Within(s, u, a, r.target) && (a.tenant == TENANT_SYSTEM || a.tenant == u.tenant)
                 && u.role == ROLE_GUEST && u.classification == 0 && u.sci == 0 && !u.canCreate && u.acls == []
  {
    SlotProper(s, root, r.actor);
    if s.slots[r.target].user.Some? { SlotProper(s, root, r.target); }
  }

  /** Nothing else takes effect. */
  lemma UntimelyRefused(s: State, r: Record, root: User)
    requires Proper(s, root) && !Timely(s, r) && ValidRecord(r)
    ensures !Granted(s, r)
  {}

  // ---------------------------------------------------------------- tenants

  /** Every named actor is, so far, absent or a member of the tenant. */
  ghost predicate ActorsOf(slots: seq<Slot>, log: Log, tenant: u32) {
    forall i :: 0 <= i < |log| && log[i].Some? ==> InTenant(slots, log[i].value.actor, tenant)
  }

  predicate InTenant(slots: seq<Slot>, id: nat, tenant: u32) {
    id < |slots| && slots[id].user.Some? ==> slots[id].user.value.tenant == tenant
  }

  /** Slots that differ only where the tenant's own principals are or were. */
  predicate SameOutside(a: seq<Slot>, b: seq<Slot>, tenant: u32) {
    |a| == |b| && forall id :: 0 <= id < |a| && a[id] != b[id] ==> InTenant(a, id, tenant) && InTenant(b, id, tenant)
  }

  lemma ApplyInTenant(s: State, e: Option<Record>, root: User, tenant: u32)
    requires Inv(s, root) && s.applied < U64_MAX && s.generation < U64_MAX && (e.Some? ==> ValidRecord(e.value))
    requires tenant != TENANT_SYSTEM && (e.Some? ==> InTenant(s.slots, e.value.actor, tenant))
    ensures SameOutside(s.slots, Apply(s, e).slots, tenant)
  {}

  lemma {:induction false} ActorsStay(s: State, log: Log, n: nat, root: User, tenant: u32)
    requires Inv(s, root) && ValidLog(log) && n <= |log| && Room(s, n) && tenant != TENANT_SYSTEM
             && ActorsOf(s.slots, log, tenant)
    ensures ActorsOf(Replay(s, log, n).slots, log, tenant) && SameOutside(s.slots, Replay(s, log, n).slots, tenant)
  {
    if n > 0 {
      ActorsStay(s, log, n - 1, root, tenant);
      ReplayInv(s, log, n - 1, root);
      var before, after := Replay(s, log, n - 1), Replay(s, log, n);
      ApplyInTenant(before, log[n - 1], root, tenant);
      forall i | 0 <= i < |log| && log[i].Some? ensures InTenant(after.slots, log[i].value.actor, tenant) {
        assert InTenant(before.slots, log[i].value.actor, tenant);
      }
    }
  }

  // ---------------------------------------------------------------- non-operators

  predicate NoOperator(slots: seq<Slot>, id: nat) {
    id < |slots| && slots[id].user.Some? ==> slots[id].user.value.role != ROLE_OPERATOR
  }

  ghost predicate ActorsBelow(slots: seq<Slot>, log: Log) {
    forall i :: 0 <= i < |log| && log[i].Some? ==> NoOperator(slots, log[i].value.actor)
  }

  /** Nothing that existed has changed; what is new is a bare guest. */
  predicate OnlyGuestsAdded(a: seq<Slot>, b: seq<Slot>) {
    |a| == |b| && forall id :: 0 <= id < |a| && a[id] != b[id] ==>
      a[id] == Slot(None, 0) && b[id].generation == 1 && b[id].user.Some? && BareGuest(b[id].user.value)
  }

  lemma ApplyBelow(s: State, e: Option<Record>, root: User)
    requires Inv(s, root) && s.applied < U64_MAX && s.generation < U64_MAX && (e.Some? ==> ValidRecord(e.value))
    requires e.Some? ==> NoOperator(s.slots, e.value.actor)
    ensures OnlyGuestsAdded(s.slots, Apply(s, e).slots)
  {}

  /** A log whose actors are all below operator changes nothing that exists and adds only bare
      guests, none of which ever acts. */
  lemma {:induction false} BelowOperator(s: State, log: Log, n: nat, root: User)
    requires Inv(s, root) && ValidLog(log) && n <= |log| && Room(s, n) && ActorsBelow(s.slots, log)
    ensures ActorsBelow(Replay(s, log, n).slots, log) && OnlyGuestsAdded(s.slots, Replay(s, log, n).slots)
  {
    if n > 0 {
      BelowOperator(s, log, n - 1, root);
      ReplayInv(s, log, n - 1, root);
      var before, after := Replay(s, log, n - 1), Replay(s, log, n);
      ApplyBelow(before, log[n - 1], root);
      forall i | 0 <= i < |log| && log[i].Some? ensures NoOperator(after.slots, log[i].value.actor) {
        assert NoOperator(before.slots, log[i].value.actor);
      }
    }
  }

  /** Whoever acts in such a run was already there, unchanged, when it began. */
  lemma NewcomersNeverAct(s: State, log: Log, i: nat, root: User)
    requires Inv(s, root) && ValidLog(log) && i < |log| && Room(s, i + 1) && ActorsBelow(s.slots, log)
             && Takes(s, log, i)
    ensures s.slots[log[i].value.actor] == Replay(s, log, i).slots[log[i].value.actor]
    ensures log[i].value.body.Put? && BareGuest(log[i].value.body.principal)
  {
    BelowOperator(s, log, i, root);
    var now, r := Replay(s, log, i), log[i].value;
    if s.slots[r.actor] != now.slots[r.actor] {
      BareGuestPowerless(r, now.generation, now.slots[r.actor].user.value, now.slots[r.actor].generation,
                         now.slots[r.target].user, now.slots[r.target].generation);
    }
  }
}
