/** The mutable registry store (core/qihse_principal_store.c). */
module PrincipalStore {
  import opened Prelude
  import opened Principal
  import opened RecordBlocks
  import opened PrincipalRecord
  import opened Registry

  datatype Outcome = Applied | Rejected | Error

  /** What the allocator answers for the request node and the stored copy. */
  datatype Memory = Memory(node: bool, copy: bool)

  datatype Export = Export(id: nat, generation: nat, user: Option<User>)

  function Exported(slots: seq<Slot>, n: nat): seq<Export>
    requires 1 <= n <= |slots|
  {
    if n == 1 then []
    else Exported(slots, n - 1)
         + (if slots[n - 1].generation != 0 then [Export(n - 1, slots[n - 1].generation, slots[n - 1].user)] else [])
  }

  /** A snapshot lists exactly the used ids but the root's, in rising order. */
  lemma {:induction false} ExportLists(slots: seq<Slot>, n: nat, e: Export)
    requires 1 <= n <= |slots|
    ensures e in Exported(slots, n) <==>
      1 <= e.id < n && slots[e.id].generation != 0 && e == Export(e.id, slots[e.id].generation, slots[e.id].user)
  {
    if n > 1 { ExportLists(slots, n - 1, e); }
  }

  lemma {:induction false} ExportAscends(slots: seq<Slot>, n: nat)
    requires 1 <= n <= |slots|
    ensures var es := Exported(slots, n);
            (forall i :: 0 <= i < |es| ==> es[i].id < n) && (forall i, j :: 0 <= i < j < |es| ==> es[i].id < es[j].id)
  {
    if n > 1 {
      ExportAscends(slots, n - 1);
      var es := Exported(slots, n);
      assert forall i :: 0 <= i < |Exported(slots, n - 1)| ==> es[i] == Exported(slots, n - 1)[i];
    }
  }

  function ExportSum(es: seq<Export>): nat {
    if es == [] then 0 else ExportSum(es[..|es| - 1]) + es[|es| - 1].generation
  }

  /** A snapshot's generations add up to the registry's. */
  lemma {:induction false} ExportAddsUp(slots: seq<Slot>, n: nat)
    requires 1 <= n <= |slots|
    ensures ExportSum(Exported(slots, n)) == GenerationSum(slots[1..n])
  {
    if n > 1 {
      ExportAddsUp(slots, n - 1);
      assert slots[1..n][..n - 2] == slots[1..n - 1];
      var es := Exported(slots, n - 1);
      assert (es + [Export(n - 1, slots[n - 1].generation, slots[n - 1].user)])[..|es|] == es;
      assert es + [] == es;
    }
  }

  class Store {
    var slots: array<Slot>
    var requests: seq<RequestId>     // newest first
    var applied: u64
    var generation: u64

    function State(): Registry.State reads this, slots {
      Registry.State(slots[..], requests, applied, generation)
    }

    constructor (root: User)
      requires Bootstrap(root)
      ensures fresh(slots) && slots.Length == MAX_IDS && State() == Empty(root)
    {
      slots := new Slot[MAX_IDS](i => if i == 0 then Slot(Some(root), 1) else Slot(None, 0));
      requests, applied, generation := [], 0, 0;
      new;
      assert slots[..] == Empty(root).slots;
    }

    method Duplicate(id: RequestId) returns (found: bool)
      ensures found == (id in requests)
    {
      var node := 0;
      while node < |requests|
        invariant 0 <= node <= |requests| && id !in requests[..node]
      {
        if requests[node] == id { return true; }
        node := node + 1;
      }
      return false;
    }

    /** `username_taken` */
    method UsernameTaken(except: nat, name: Bytes) returns (taken: bool)
      ensures taken == NameTaken(slots[..], except, name)
    {
      var id := 0;
      while id < slots.Length
        invariant 0 <= id <= slots.Length
        invariant forall k :: 0 <= k < id && k != except && slots[k].user.Some? ==>
          CStr(slots[k].user.value.username) != CStr(name)
      {
        if id != except && slots[id].user.Some? && CStr(slots[id].user.value.username) == CStr(name) {
          assert slots[..][id] == slots[id];
          return true;
        }
        id := id + 1;
      }
      assert forall k :: 0 <= k < slots.Length ==> slots[..][k] == slots[k];
      return false;
    }

    /** The authority and uniqueness checks of one decoded record. */
    method Check(r: Record) returns (ok: bool)
      requires slots.Length == MAX_IDS && ValidRecord(r) && r.request !in requests
      ensures ok == Granted(State(), r)
    {
      var actor, target := slots[r.actor], slots[r.target];
      ok := actor.user.Some?
            && Authorized(r, generation, actor.user.value, actor.generation, target.user, target.generation);
      if ok && r.body.Put? {
        var taken := UsernameTaken(r.target, r.body.principal.username);
        ok := !taken;
      }
    }

    /** The same for a decoded record at the next index. */
    method ApplyRecord(index: u64, r: Record, memory: Memory) returns (outcome: Outcome)
      requires slots.Length == MAX_IDS && ValidRecord(r) && applied < U64_MAX && generation < U64_MAX
               && index == applied + 1
      modifies this`requests, this`applied, this`generation, slots
      ensures outcome == Error ==> State() == old(State())
      ensures outcome != Error ==> State() == Apply(old(State()), Some(r))
      ensures outcome == Applied <==> generation == old(generation) + 1
      ensures memory.node && memory.copy ==> outcome != Error
    {
      var duplicate := Duplicate(r.request);
      if duplicate {
        applied := index;
        return Rejected;
      }
      if !memory.node { return Error; }
      var ok := Check(r);
      if ok && r.body.Put? && !memory.copy { return Error; }
      requests := [r.request] + requests;
      applied := index;
      if !ok { return Rejected; }
      slots[r.target] := Slot(if r.body.Put? then Some(r.body.principal) else None, r.principalGen);
      generation := generation + 1;
      assert slots[..] == old(slots[..])[r.target := Written(r)];
      return Applied;
    }

    /** `qihse_principal_store_apply_committed`: either an error that changes nothing, or one
        step of the registry. */
    method ApplyCommitted(index: u64, payload: Bytes, memory: Memory) returns (outcome: Outcome)
      requires slots.Length == MAX_IDS
      modifies this`requests, this`applied, this`generation, slots
      ensures outcome == Error <==> applied == old(applied)
      ensures outcome == Error ==> State() == old(State())
      ensures outcome != Error ==> old(applied) < U64_MAX && old(generation) < U64_MAX && index == old(applied) + 1
      ensures outcome != Error ==> State() == Apply(old(State()), Decoded(payload))
      ensures outcome == Applied <==> generation == old(generation) + 1
      ensures outcome == Error && memory.node && memory.copy ==>
        old(applied) == U64_MAX || index != old(applied) + 1 || old(generation) == U64_MAX
      ensures index == old(applied) + 1 && old(generation) < U64_MAX && memory.node && memory.copy ==> outcome != Error
    {
      var next: nat := applied + 1;
      if applied == U64_MAX || index != next || generation == U64_MAX { return Error; }
      var decoded := DecodeRecord(payload);
      if decoded.None? {
        applied := index;
        return Rejected;
      }
      outcome := ApplyRecord(index, decoded.value, memory);
    }

    /** The row loop of `qihse_principal_store_export_user`. */
    method ExportRows() returns (rows: seq<Export>)
      requires slots.Length == MAX_IDS
      ensures rows == Exported(slots[..], MAX_IDS)
    {
      var id := 1;
      rows := [];
      while id < slots.Length
        invariant 1 <= id <= slots.Length && rows == Exported(slots[..], id)
      {
        if slots[id].generation != 0 {
          rows := rows + [Export(id, slots[id].generation, slots[id].user)];
        }
        id := id + 1;
      }
    }
  }

  /** `qihse_principal_store_new` */
  method NewStore(root: User, memory: bool) returns (store: Store?)
    ensures store != null <==> memory && Bootstrap(root)
    ensures Bootstrap(root) <==> root.id == 0 && root.role == 0 && root.tenant == 0 && root.classification == 65535
                                 && root.sci == 65535 && root.passwordSet
    ensures store != null ==>
      fresh(store) && fresh(store.slots) && store.slots.Length == MAX_IDS && store.State() == Empty(root)
  {
    if root.id != 0 || root.role != ROLE_OPERATOR || root.tenant != TENANT_SYSTEM
       || root.classification != U16_MAX || root.sci != U16_MAX || !root.passwordSet || !memory { return null; }
    store := new Store(root);
  }
}
