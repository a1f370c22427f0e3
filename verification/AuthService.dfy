/** Mutations of a durable authority: every change is committed as a whole image before memory
    changes (core/qihse_auth.c). */
module AuthService {
  import opened Prelude
  import opened Principal
  import opened AuthImage
  import opened AuthTable
  import Import

  /** How one commit goes below the checks: nonce or sealing may fail before the disk is touched,
      and the disk may fail before or after the rename. Only `Stores` is reported as success. */
  datatype Disk = Stores | Unsealed | Fails | Uncertain

  const MAX_ATTEMPTS: nat := 5
  const LOCKOUT_SECONDS: nat := 300

  /** The image a commit writes: stamped with the next generation, the root filled in. */
  function Sealed(m: Image, at: Position, binding: Bytes48, root: User): Image
    requires at.generation < U64_MAX
  {
    m.(position := at.(generation := at.generation + 1), binding := binding, root := Some(Stored(root)))
  }

  /** The row `auth_durable_stage_locked` stages for one principal. */
  function StagedRow(s: Slot, uid: u32, candidate: User, active: bool, failures: u32, until: u64, bump: bool): Row
    requires bump ==> s.authz.generation < U64_MAX
  {
    var g := if bump then s.authz.generation + 1 else s.authz.generation;
    Row(uid, if g == 0 then 1 else g, failures, until, if active then Some(Stored(candidate)) else None)
  }

  /** The image it stages. */
  function StagedImage(m: Image, s: Slot, root: User, uid: u32, candidate: User, active: bool, failures: u32,
                       until: u64, bump: bool): Image
    requires (bump ==> s.authz.generation < U64_MAX) && m.position.generation < U64_MAX
  {
    if uid == 0 then
      Sealed(m.(rootGeneration := if bump then s.authz.generation + 1 else s.authz.generation, rootFailed := failures,
                rootLockout := until),
             m.position, m.binding, candidate)
    else Sealed(m.(rows := PutRow(m.rows, StagedRow(s, uid, candidate, active, failures, until, bump))), m.position,
                m.binding, root)
  }

  /** What staging needs to succeed. */
  predicate Storable(m: Image, s: Slot, root: User, uid: u32, candidate: User, active: bool, failures: u32, until: u64,
                     bump: bool, disk: Disk) {
    && disk == Stores && (bump ==> s.authz.generation < U64_MAX) && m.position.generation < U64_MAX
    && (uid == 0 ==> active)
    && ValidImage(StagedImage(m, s, root, uid, candidate, active, failures, until, bump), true)
  }

  /** What a policy change needs to succeed. */
  predicate Rotates(m: Image, s: Slot, root: User, uid: u32, candidate: User, disk: Disk) {
    Storable(m, s, root, uid, candidate, true, s.rate.failed, s.rate.lockout, true, disk)
  }

  /** The slot a mutation installs is captured as exactly what was staged. */
  predicate Lands(s: Slot, s': Slot, uid: u32, candidate: User, active: bool, failures: u32, until: u64, bump: bool)
    requires bump ==> s.authz.generation < U64_MAX
  {
    && s'.user.Some? && SlotFits(s', uid)
    && (if uid == 0 then active && s'.authz.active && Stored(s'.user.value) == Stored(candidate)
        && s'.rate == Rate(failures, until)
                         && s'.authz.generation == (if bump then s.authz.generation + 1 else s.authz.generation)
        else RowOf(s', uid) == StagedRow(s, uid, candidate, active, failures, until, bump))
  }

  lemma StagedMirrors(slots: seq<Slot>, m: Image, uid: nat, s': Slot, candidate: User, active: bool, failures: u32,
                      until: u64, bump: bool)
    requires Mirrors(slots, m) && uid < MAX_USERS && (bump ==> slots[uid].authz.generation < U64_MAX)
             && m.position.generation < U64_MAX
    requires Lands(slots[uid], s', uid, candidate, active, failures, until, bump)
    ensures Mirrors(slots[uid := s'],
                    StagedImage(m, slots[uid], slots[0].user.value, uid, candidate, active, failures, until, bump))
  {
    MirrorsWrite(slots, m, uid, s');
  }

  /** The slot after a policy change: the candidate under the next generation. */
  function Rotated(s: Slot, candidate: User): Slot
    requires s.authz.generation < U64_MAX
  {
    Slot(Some(candidate), Shadow(s.authz.(generation := s.authz.generation + 1), candidate), s.rate)
  }

  /** The tombstone a destroyed principal leaves. */
  function Buried(s: Slot): Slot
    requires s.authz.generation < U64_MAX
  {
    Slot(Some(User0()), Cleared(s.authz.generation + 1), Rate(0, 0))
  }

  /** The slot of a new principal. */
  function Born(s: Slot, u: User): Slot {
    Slot(Some(u), Shadow(s.authz, u).(configured := true), s.rate)
  }

  lemma RotatedLands(s: Slot, uid: u32, candidate: User)
    requires SlotFits(s, uid) && s.authz.active && s.authz.generation < U64_MAX && candidate.id == uid
             && candidate.passwordSet
    ensures Lands(s, Rotated(s, candidate), uid, candidate, true, s.rate.failed, s.rate.lockout, true)
    ensures var t := Rotated(s, candidate);
            t.user == Some(candidate) && t.rate == s.rate && t.authz.generation == s.authz.generation + 1
            && t.authz.active
            && Agrees(t, uid)
  {}

  lemma BuriedLands(s: Slot, uid: u32, candidate: User)
    requires uid > 0 && s.authz.generation < U64_MAX
    ensures Lands(s, Buried(s), uid, candidate, false, 0, 0, true)
  {}

  lemma BornLands(s: Slot, uid: u32, u: User)
    requires uid > 0 && s == Unused() && u.id == uid && u.passwordSet
    ensures Lands(s, Born(s, u), uid, u, true, 0, 0, true)
  {}

  lemma CountedLands(s: Slot, uid: u32, failures: u32, until: u64)
    requires SlotFits(s, uid) && s.authz.active
    ensures Lands(s, s.(rate := Rate(failures, until)), uid, s.user.value, true, failures, until, false)
  {}

  // ---------------------------------------------------------------- access lists

  predicate Keyed(a: Acl, ns: u32, resource: u64) { a.ns == ns && a.resource == resource }

  /** Position of the entry for an object, or the length. */
  function AclSlot(acls: seq<Acl>, ns: u32, resource: u64): (i: nat)
    ensures i <= |acls| && (i < |acls| ==> Keyed(acls[i], ns, resource))
    ensures forall k :: 0 <= k < i ==> !Keyed(acls[k], ns, resource)
  {
    if acls == [] || Keyed(acls[0], ns, resource) then 0 else 1 + AclSlot(acls[1..], ns, resource)
  }

  method FindAcl(acls: seq<Acl>, ns: u32, resource: u64) returns (i: nat)
    ensures i == AclSlot(acls, ns, resource)
  {
    i := 0;
    while i < |acls| && !Keyed(acls[i], ns, resource)
      invariant i <= |acls| && forall k :: 0 <= k < i ==> !Keyed(acls[k], ns, resource)
    {
      i := i + 1;
    }
  }

  function Granted(acls: seq<Acl>, entry: Acl): seq<Acl> {
    var i := AclSlot(acls, entry.ns, entry.resource);
    if i == |acls| then acls + [entry] else acls[i := entry]
  }

  /** The last entry moves into the gap. */
  function Dropped(acls: seq<Acl>, i: nat): seq<Acl>
    requires i < |acls|
  {
    var last := |acls| - 1;
    if i == last then acls[..last] else acls[..last][i := acls[last]]
  }

  /** What a list grants on an object. */
  function FlagsOn(acls: seq<Acl>, ns: u32, resource: u64): nat {
    var i := AclSlot(acls, ns, resource);
    if i < |acls| then acls[i].flags else 0
  }

  lemma SlotUnique(acls: seq<Acl>, ns: u32, resource: u64, i: nat)
    requires AclsValid(acls) && i < |acls| && Keyed(acls[i], ns, resource)
    ensures AclSlot(acls, ns, resource) == i
  {
    var k := AclSlot(acls, ns, resource);
    assert k <= i;
  }

  /** A grant changes what the list says of its object only, and keeps the list valid. */
  lemma GrantedLaws(acls: seq<Acl>, entry: Acl, ns: u32, resource: u64)
    requires AclsValid(acls) && 1 <= entry.flags <= ACL_FLAGS
    ensures AclsValid(Granted(acls, entry))
    ensures FlagsOn(Granted(acls, entry), ns, resource) == if Keyed(entry, ns, resource) then entry.flags
            else FlagsOn(acls, ns, resource)
  {
    var out, i, k := Granted(acls, entry), AclSlot(acls, entry.ns, entry.resource), AclSlot(acls, ns, resource);
    assert AclsValid(out) by {
      forall x, y | 0 <= y < x < |out| ensures out[y].ns != out[x].ns || out[y].resource != out[x].resource {
        if x == i && i < |acls| { assert acls[y].ns != acls[x].ns || acls[y].resource != acls[x].resource; }
      }
    }
    if Keyed(entry, ns, resource) {
      SlotUnique(out, ns, resource, i);
    } else if k < |acls| {
      assert k != i;
      SlotUnique(out, ns, resource, k);
    } else {
      assert forall x :: 0 <= x < |out| ==> !Keyed(out[x], ns, resource);
    }
  }

  /** A revocation removes its object's entry and nothing else. */
  lemma DroppedLaws(acls: seq<Acl>, i: nat, ns: u32, resource: u64)
    requires AclsValid(acls) && i < |acls|
    ensures AclsValid(Dropped(acls, i))
    ensures FlagsOn(Dropped(acls, i), ns, resource) == if Keyed(acls[i], ns, resource) then 0
            else FlagsOn(acls, ns, resource)
  {
    var out, last, k := Dropped(acls, i), |acls| - 1, AclSlot(acls, ns, resource);
    assert forall x :: 0 <= x < |out| ==> out[x] == acls[if x == i then last else x];
    if k < |acls| && !Keyed(acls[i], ns, resource) {
      SlotUnique(out, ns, resource, if k == last then i else k);
    } else if Keyed(acls[i], ns, resource) {
      SlotUnique(acls, ns, resource, i);
      forall x | 0 <= x < |out| ensures !Keyed(out[x], ns, resource) {
        var y := if x == i then last else x;
        if y < i { assert acls[y].ns != acls[i].ns || acls[y].resource != acls[i].resource; }
        else { assert acls[i].ns != acls[y].ns || acls[i].resource != acls[y].resource; }
      }
    }
  }

  /** The counters after a login attempt, the 32-bit increment included. */
  function Counted(r: Rate, matched: bool, now: u64): Rate
    requires now <= I64_MAX - LOCKOUT_SECONDS
  {
    var next: nat := if r.failed == U32_MAX then 0 else r.failed + 1;
    if matched then Rate(0, 0)
    else if next >= MAX_ATTEMPTS then Rate(0, now + LOCKOUT_SECONDS)
    else Rate(next, r.lockout)
  }

  /** One call into the service, with the disk's answer. */
  datatype Op =
    | DoCreate(uid: nat, user: User, disk: Disk) | DoDestroy(uid: nat, disk: Disk)
    | DoModify(uid: nat, user: User, disk: Disk)
    | DoGrant(uid: nat, entry: Acl, disk: Disk) | DoRevoke(uid: nat, ns: u32, resource: u64, disk: Disk)
    | DoLogin(uid: nat, matched: bool, now: u64, disk: Disk) | DoToken(uid: nat, present: bool)
    | DoImport(request: Import.Request, disk: Disk)

  /** The principals below `n`, the root aside, whose allocation an import retires. */
  function Occupied(slots: seq<Slot>, n: nat): nat
    requires 1 <= n <= |slots|
  {
    if n == 1 then 0 else Occupied(slots, n - 1) + (if slots[n - 1].user.Some? then 1 else 0)
  }

  lemma {:induction false} NoneOccupied(slots: seq<Slot>, n: nat)
    requires 1 <= n <= |slots| && forall i :: 1 <= i < |slots| ==> slots[i].user.None?
    ensures Occupied(slots, n) == 0
  {
    if n > 1 { NoneOccupied(slots, n - 1); }
  }

  /** What became of a planned image: nothing, or it is committed at the position answered. */
  predicate Followed(before: Image, after: Image, planned: Image, position: Option<Position>) {
    if position.None? then after == before
    else position == Some(after.position) && after.position == planned.position && after.rows == planned.rows
         && after.retries == planned.retries && after.root == before.root && after.rootFailed == before.rootFailed
         && after.rootGeneration == before.rootGeneration && after.rootLockout == before.rootLockout
  }

  predicate Publishable(m: Image, at: Image, root: User, disk: Disk) {
    disk == Stores && at.position.generation < U64_MAX && ValidImage(Sealed(m, at.position, at.binding, root), true)
  }

  predicate Relists(m: Image, s: Slot, root: User, uid: u32, acls: seq<Acl>, disk: Disk)
    requires s.user.Some?
  {
    Rotates(m, s, root, uid, s.user.value.(acls := acls), disk)
  }

  function Relisted(s: Slot, acls: seq<Acl>): Slot
    requires s.user.Some? && s.authz.generation < U64_MAX
  {
    Rotated(s, s.user.value.(acls := acls))
  }

  class Authority {
    var slots: array<Slot>
    var committed: Image     // the durable position, retries, binding, root and rows last stored
    var ready: bool
    var retired: nat

    /** The committed image is fit to be recovered, and whenever the service is ready the table
        stands for it. */
    ghost predicate Valid() reads this, slots {
      && slots.Length == MAX_USERS && ValidImage(committed, true) && Ascending(committed.rows)
      && (ready ==> Mirrors(slots[..], committed))
    }

    /** `qihse_auth_durable_prepare`: the table holds the root only, nothing is served yet. */
    constructor (m: Image)
      requires ValidImage(m, true)
      ensures Prepared() && fresh(slots) && committed == m
    {
      slots := new Slot[MAX_USERS](_ => Unused());
      committed, ready, retired := m, false, 0;
      new;
      slots[0] := Born(Unused(), Stored(m.root.value));
      NoneOccupied(slots[..], MAX_USERS);
    }

    /** The state between the recovery of an image and its publication. */
    ghost predicate Prepared() reads this, slots {
      && slots.Length == MAX_USERS && ValidImage(committed, true) && !ready && retired == 0
      && Agrees(slots[0], 0) && slots[0].authz.active && committed.root == Some(Stored(slots[0].user.value))
      && Occupied(slots[..], MAX_USERS) == 0
    }

    /** `qihse_auth_image_publish` at start-up: nothing is committed, the bytes were just read. */
    method Launch() returns (ok: bool)
      requires Prepared()
      modifies this`ready, this`retired, slots
      ensures ok <==> Ascending(committed.rows)
      ensures ok ==> Valid() && ready
    {
      var fit := CheckRows(committed.rows);
      if !fit { return false; }
      var retiring := CountOccupied();
      if retired + retiring > MAX_USERS { return false; }
      retired := retired + retiring;
      Replace(committed);
      ready := true;
      return true;
    }

    /** `auth_image_capture_locked` with the durable metadata. */
    method Capture() returns (m: Image)
      requires slots.Length == MAX_USERS
      ensures m == committed.(rows := CapturedRows(slots[..]), rootGeneration := slots[0].authz.generation,
                              rootFailed := slots[0].rate.failed, rootLockout := slots[0].rate.lockout, root := None)
    {
      var rows: seq<Row>, i := [], 1;
      while i < MAX_USERS
        invariant 1 <= i <= MAX_USERS && rows == Compact(Entries(slots[..]), i)
      {
        assert Entries(slots[..])[i] == EntryOf(slots[i], i);
        if slots[i].user.Some? {
          rows := rows + [RowOf(slots[i], i)];
        } else {
          assert rows + [] == rows;
        }
        i := i + 1;
      }
      m := committed.(rows := rows, rootGeneration := slots[0].authz.generation, rootFailed := slots[0].rate.failed,
                      rootLockout := slots[0].rate.lockout, root := None);
    }

    /** `qihse_auth_image_capture` of a ready service yields what is committed, the root being what
        the table holds. */
    method CaptureReady() returns (m: Image)
      requires Valid() && ready
      ensures slots[0].user.Some? && m.root.None? && m.(root := Some(Stored(slots[0].user.value))) == committed
      ensures Import.Live(m)
    {
      m := Capture();
      EntriesOwn(slots[..]);
    }

    /** `qihse_auth_durable_commit`: stores the sealed image, refuses an invalid one, and fences
        the service on any disk failure. */
    method Commit(m: Image, root: User, disk: Disk) returns (ok: bool)
      requires ValidImage(committed, true)
      modifies this`committed, this`ready
      ensures ok <==> disk == Stores && old(committed).position.generation < U64_MAX
                      && ValidImage(Sealed(m, old(committed).position, old(committed).binding, root), true)
      ensures ok ==>
        committed == Sealed(m, old(committed).position, old(committed).binding, root) && ready == old(ready)
      ensures !ok ==> committed == old(committed) && (ready ==> old(ready)) && ValidImage(committed, true)
      ensures ok ==> ValidImage(committed, true)
      ensures !ok && (disk.Stores? || disk.Unsealed?) ==> ready == old(ready)
      ensures ((disk.Fails? || disk.Uncertain?) && old(committed).position.generation < U64_MAX
               && ValidImage(Sealed(m, old(committed).position, old(committed).binding, root), true)) ==> !ready
    {
      if committed.position.generation == U64_MAX { return false; }
      var sealed := Sealed(m, committed.position, committed.binding, root);
      var status, ordered := Validate(sealed, true, true);
      if status != Ok || disk.Unsealed? { return false; }
      if disk != Stores {
        ready := false;
        return false;
      }
      committed := sealed;
      return true;
    }

    /** The capture with one principal's row, or the root, replaced; `root` is what is sealed in. */
    method Candidate(uid: nat, candidate: User, active: bool, failures: u32, until: u64, bump: bool)
      returns (m: Image, root: User)
      requires Valid() && ready && uid < MAX_USERS && slots[0].user.Some?
               && (bump ==> slots[uid].authz.generation < U64_MAX)
      ensures committed.position.generation < U64_MAX ==>
        Sealed(m, committed.position, committed.binding, root)
        == StagedImage(committed, slots[uid], slots[0].user.value, uid, candidate, active, failures, until, bump)
    {
      m := Capture();
      root := slots[0].user.value;
      if uid == 0 {
        root := candidate;
        m := m.(rootGeneration := if bump then m.rootGeneration + 1 else m.rootGeneration, rootFailed := failures,
                rootLockout := until);
      } else {
        EntriesOwn(slots[..]);
        var rows := PlaceRow(m.rows, StagedRow(slots[uid], uid, candidate, active, failures, until, bump));
        m := m.(rows := rows);
      }
    }

    /** `auth_durable_stage_locked`: nothing in memory changes; on success the staged image is
        the committed one, or it was not needed because nothing would change. */
    method Stage(uid: nat, candidate: User, active: bool, failures: u32, until: u64, bump: bool, disk: Disk)
      returns (ok: bool)
      requires Valid() && uid < MAX_USERS
      modifies this`committed, this`ready
      ensures ValidImage(committed, true) && (ready ==> old(ready)) && (!ok ==> committed == old(committed))
      ensures committed.retries == old(committed).retries
      ensures ok ==> ready && slots[0].user.Some? && (bump ==> slots[uid].authz.generation < U64_MAX)
      ensures ok && !bump && slots[uid].rate == Rate(failures, until) ==> committed == old(committed)
      ensures ok && (bump || slots[uid].rate != Rate(failures, until)) ==>
        old(committed).position.generation < U64_MAX
        && committed ==
             StagedImage(old(committed), slots[uid], slots[0].user.value, uid, candidate, active, failures, until, bump)
      ensures old(ready) && slots[0].user.Some? ==>
        (ok <==> (!bump && slots[uid].rate == Rate(failures, until))
                 || Storable(old(committed), slots[uid], slots[0].user.value, uid, candidate, active, failures, until,
                             bump, disk))
    {
      if bump && slots[uid].authz.generation == U64_MAX { return false; }
      if !ready || slots[0].user.None? { return false; }
      if !bump && slots[uid].rate.failed == failures && slots[uid].rate.lockout == until { return true; }
      if uid == 0 && !active { return false; }
      var m, root := Candidate(uid, candidate, active, failures, until, bump);
      ok := Commit(m, root, disk);
    }

    /** The memory half of a mutation: one slot follows the image just committed. */
    method Install(uid: nat, s': Slot, ghost before: Image, candidate: User, active: bool, failures: u32, until: u64,
                   bump: bool)
      requires slots.Length == MAX_USERS && uid < MAX_USERS && Mirrors(slots[..], before) && ValidImage(committed, true)
      requires (bump ==> slots[uid].authz.generation < U64_MAX) && before.position.generation < U64_MAX
      requires Lands(slots[uid], s', uid, candidate, active, failures, until, bump)
      requires slots[0].user.Some?
               && committed ==
                    StagedImage(before, slots[uid], slots[0].user.value, uid, candidate, active, failures, until, bump)
      modifies slots
      ensures Valid() && slots[..] == old(slots[..])[uid := s']
    {
      StagedMirrors(slots[..], before, uid, s', candidate, active, failures, until, bump);
      slots[uid] := s';
      assert slots[..] == old(slots[..])[uid := s'];
      EntriesOwn(slots[..]);
    }

    /** A mutation whole: staged, and once committed installed. */
    method Change(uid: nat, s': Slot, candidate: User, active: bool, failures: u32, until: u64, bump: bool, disk: Disk)
      returns (ok: bool)
      requires Valid() && ready && uid < MAX_USERS && (bump || slots[uid].rate != Rate(failures, until))
      requires bump ==> slots[uid].authz.generation < U64_MAX
      requires Lands(slots[uid], s', uid, candidate, active, failures, until, bump)
      modifies this`committed, this`ready, slots
      ensures Valid() && (!ok ==> slots[..] == old(slots[..]) && committed == old(committed))
      ensures committed.retries == old(committed).retries
      ensures ok ==> ready && slots[..] == old(slots[..])[uid := s']
      ensures ok ==> committed.position == old(committed).position.(generation := committed.position.generation)
                     && committed.position.generation == old(committed).position.generation + 1
      ensures old(slots[0]).user.Some?
      ensures ok <==> Storable(old(committed), old(slots[uid]), old(slots[0]).user.value, uid, candidate, active,
                               failures, until, bump, disk)
    {
      ghost var before := committed;
      ok := Stage(uid, candidate, active, failures, until, bump, disk);
      if ok { Install(uid, s', before, candidate, active, failures, until, bump); }
    }

    /** `auth_policy_commit_locked` for a live principal: modify, grant, revoke and credential
        changes all end here. */
    method Rotate(uid: nat, candidate: User, disk: Disk) returns (ok: bool)
      requires Valid() && ready && uid < MAX_USERS && slots[uid].authz.active && candidate.id == uid
               && candidate.passwordSet
      modifies this`committed, this`ready, this`retired, slots
      ensures Valid() && (!ok ==> slots[..] == old(slots[..]) && committed == old(committed))
      ensures committed.retries == old(committed).retries
      ensures ok ==>
        ready && old(slots[uid]).authz.generation < U64_MAX
        && slots[..] == old(slots[..])[uid := Rotated(old(slots[uid]), candidate)]
      ensures retired == old(retired) + if ok then 1 else 0
      ensures ok ==> slots[uid].user == Some(candidate) && slots[uid].rate == old(slots[uid]).rate
                     && slots[uid].authz.generation == old(slots[uid]).authz.generation + 1 && slots[uid].authz.active
                     && Agrees(slots[uid], uid)
      ensures ok ==> committed.position == old(committed).position.(generation := committed.position.generation)
                     && committed.position.generation == old(committed).position.generation + 1
      ensures old(slots[0]).user.Some?
      ensures ok <==>
        old(retired) < MAX_USERS
        && Rotates(old(committed), old(slots[uid]), old(slots[0]).user.value, uid, candidate, disk)
    {
      assert SlotFits(slots[..][uid], uid) && SlotFits(slots[..][0], 0);
      var s := slots[uid];
      if retired >= MAX_USERS || s.authz.generation == U64_MAX { return false; }
      RotatedLands(s, uid, candidate);
      ok := Change(uid, Rotated(s, candidate), candidate, true, s.rate.failed, s.rate.lockout, true, disk);
      if ok { retired := retired + 1; }
    }

    /** `qihse_auth_destroy_user`, once permitted. The root cannot be destroyed here. */
    method Destroy(uid: nat, disk: Disk) returns (ok: bool)
      requires Valid() && ready && uid < MAX_USERS
      modifies this`committed, this`ready, this`retired, slots
      ensures Valid() && (!ok ==> slots[..] == old(slots[..]) && committed == old(committed))
      ensures committed.retries == old(committed).retries
      ensures ok ==> uid > 0 && old(slots[uid]).authz.active && old(slots[uid]).authz.generation < U64_MAX
      ensures ok ==> slots[..] == old(slots[..])[uid := slots[uid]]
      ensures ok ==>
        slots[uid].user.Some? && slots[uid].user.value.username == seq(64, _ => 0) && slots[uid].user.value.acls == []
                     && !slots[uid].user.value.passwordSet && slots[uid].user.value.verifier.iterations == 0
      ensures retired == old(retired) + if ok then 1 else 0
      ensures ok ==> !slots[uid].authz.active && slots[uid].authz.generation == old(slots[uid]).authz.generation + 1
                     && slots[uid].rate.failed == 0 && slots[uid].rate.lockout == 0
      ensures old(slots[0]).user.Some? && (old(slots[uid]).authz.active ==> old(slots[uid]).user.Some?)
      ensures uid > 0 && old(slots[uid]).authz.active ==>
        (ok <==> old(retired) < MAX_USERS
                 && Storable(old(committed), old(slots[uid]), old(slots[0]).user.value, uid,
                             old(slots[uid]).user.value, false, 0, 0, true, disk))
    {
      assert SlotFits(slots[..][uid], uid) && SlotFits(slots[..][0], 0);
      if slots[uid].user.None? || !slots[uid].authz.active || uid == 0 || retired >= MAX_USERS { return false; }
      var s := slots[uid];
      if s.authz.generation == U64_MAX { return false; }
      BuriedLands(s, uid, s.user.value);
      ok := Change(uid, Buried(s), s.user.value, false, 0, 0, true, disk);
      if ok { retired := retired + 1; }
    }

    /** `create_user_internal`, once permitted: an occupied slot, tombstone or not, is refused. */
    method Create(uid: nat, u: User, disk: Disk) returns (ok: bool)
      requires Valid() && ready && uid < MAX_USERS && u.id == uid && u.passwordSet
      modifies this`committed, this`ready, slots
      ensures Valid() && (!ok ==> slots[..] == old(slots[..]) && committed == old(committed))
      ensures committed.retries == old(committed).retries
      ensures ok ==> old(slots[uid]).user.None? && slots[..] == old(slots[..])[uid := slots[uid]]
      ensures ok ==> slots[uid].user == Some(u) && slots[uid].authz.active && slots[uid].authz.generation == 1
                     && Agrees(slots[uid], uid) && slots[uid].rate.failed == 0 && slots[uid].rate.lockout == 0
      ensures old(slots[0]).user.Some?
      ensures ok <==> (old(slots[uid]).user.None?
                       && Storable(old(committed), old(slots[uid]), old(slots[0]).user.value, uid, u, true, 0, 0, true,
                                   disk))
    {
      assert SlotFits(slots[..][uid], uid) && SlotFits(slots[..][0], 0);
      if slots[uid].user.Some? { return false; }
      BornLands(slots[uid], uid, u);
      ok := Change(uid, Born(slots[uid], u), u, true, 0, 0, true, disk);
    }

    /** `qihse_auth_set_hardware_token` without a credential: transient, never stored. */
    method SetTokenPresent(uid: nat, present: bool)
      requires Valid() && ready && uid < MAX_USERS && slots[uid].authz.active
      modifies slots
      ensures Valid() && committed == old(committed) && slots[..] == old(slots[..])[uid := slots[uid]]
      ensures old(slots[uid]).user.Some? && Agrees(slots[uid], uid)
      ensures slots[uid] == old(slots[uid]).(user := Some(old(slots[uid]).user.value.(tokenPresent := present)),
                                             authz := old(slots[uid]).authz.(tokenPresent := present))
    {
      var s := slots[uid];
      assert SlotFits(slots[..][uid], uid);
      var s' := s.(user := Some(s.user.value.(tokenPresent := present)), authz := s.authz.(tokenPresent := present));
      MirrorsSame(slots[..], committed, uid, s');
      slots[uid] := s';
      assert slots[..] == old(slots[..])[uid := s'];
    }

    /** The principal under the next generation with another access list. */
    method Relist(uid: nat, acls: seq<Acl>, disk: Disk) returns (ok: bool)
      requires Valid() && ready && uid < MAX_USERS && slots[uid].authz.active
      modifies this`committed, this`ready, this`retired, slots
      ensures retired == old(retired) + if ok then 1 else 0
      ensures Valid() && (!ok ==> slots[..] == old(slots[..]) && committed == old(committed))
      ensures committed.retries == old(committed).retries
      ensures old(slots[uid]).user.Some? && old(slots[0]).user.Some?
      ensures ok <==>
        old(retired) < MAX_USERS && Relists(old(committed), old(slots[uid]), old(slots[0]).user.value, uid, acls, disk)
      ensures ok ==> slots[..] == old(slots[..])[uid := Relisted(old(slots[uid]), acls)]
    {
      assert SlotFits(slots[..][uid], uid);
      RowOfAgreeing(slots[uid], uid);
      var staged := Snapshot(slots[uid], uid).(acls := acls);
      ok := Rotate(uid, staged, disk);
    }

    /** `qihse_auth_grant_object`, once permitted. */
    method GrantObject(uid: nat, entry: Acl, disk: Disk) returns (ok: bool)
      requires Valid() && ready && uid < MAX_USERS && slots[uid].authz.active && 1 <= entry.flags <= ACL_FLAGS
      modifies this`committed, this`ready, this`retired, slots
      ensures retired == old(retired) + if ok then 1 else 0
      ensures Valid() && (!ok ==> slots[..] == old(slots[..]) && committed == old(committed))
      ensures committed.retries == old(committed).retries
      ensures old(slots[uid]).user.Some? && old(slots[0]).user.Some?
      ensures var acls := Granted(old(slots[uid]).user.value.acls, entry);
        && (ok <==> AclSlot(old(slots[uid]).user.value.acls, entry.ns, entry.resource) != ACL_MAX
                    && old(retired) < MAX_USERS
                    && Relists(old(committed), old(slots[uid]), old(slots[0]).user.value, uid, acls, disk))
        && (ok ==> slots[..] == old(slots[..])[uid := Relisted(old(slots[uid]), acls)])
    {
      var acls := AclsOf(uid);
      var slot := FindAcl(acls, entry.ns, entry.resource);
      if slot == ACL_MAX { return false; }
      ok := Relist(uid, if slot == |acls| then acls + [entry] else acls[slot := entry], disk);
    }

    method AclsOf(uid: nat) returns (acls: seq<Acl>)
      requires Valid() && ready && uid < MAX_USERS && slots[uid].authz.active
      ensures slots[uid].user.Some? && slots[0].user.Some? && acls == slots[uid].user.value.acls
    {
      assert SlotFits(slots[..][uid], uid) && SlotFits(slots[..][0], 0);
      acls := slots[uid].user.value.acls;
    }

    /** `qihse_auth_revoke_object`, once permitted: fails if there is nothing to revoke. */
    method RevokeObject(uid: nat, ns: u32, resource: u64, disk: Disk) returns (ok: bool)
      requires Valid() && ready && uid < MAX_USERS && slots[uid].authz.active
      modifies this`committed, this`ready, this`retired, slots
      ensures retired == old(retired) + if ok then 1 else 0
      ensures Valid() && (!ok ==> slots[..] == old(slots[..]) && committed == old(committed))
      ensures committed.retries == old(committed).retries
      ensures old(slots[uid]).user.Some? && old(slots[0]).user.Some?
      ensures var acls := old(slots[uid]).user.value.acls; var i := AclSlot(acls, ns, resource);
        if i == |acls| then !ok
        else
          && (ok <==> old(retired) < MAX_USERS
                      && Relists(old(committed), old(slots[uid]), old(slots[0]).user.value, uid, Dropped(acls, i),
                                 disk))
          && (ok ==> slots[..] == old(slots[..])[uid := Relisted(old(slots[uid]), Dropped(acls, i))])
    {
      var acls := AclsOf(uid);
      var i := FindAcl(acls, ns, resource);
      if i == |acls| { return false; }
      ok := Relist(uid, Dropped(acls, i), disk);
    }

    /** The accounting end of `authenticate_user_internal`: the attempt counts only once it is
        stored. */
    method CountLogin(uid: nat, matched: bool, now: u64, disk: Disk) returns (ok: bool)
      requires Valid() && ready && uid < MAX_USERS && slots[uid].authz.active && now <= I64_MAX - LOCKOUT_SECONDS
      modifies this`committed, this`ready, slots
      ensures Valid() && (!ok ==> slots[..] == old(slots[..]) && committed == old(committed))
      ensures committed.retries == old(committed).retries
      ensures ok ==> forall i :: 0 <= i < MAX_USERS && i != uid ==> slots[i] == old(slots[i])
      ensures ok ==> slots[uid] == old(slots[uid]).(rate := slots[uid].rate)
      ensures ok && matched ==> slots[uid].rate.failed == 0 && slots[uid].rate.lockout == 0
      ensures ok && !matched && old(slots[uid]).rate.failed < 4 ==>
        slots[uid].rate.failed == old(slots[uid]).rate.failed + 1
        && slots[uid].rate.lockout == old(slots[uid]).rate.lockout
      ensures ok && !matched && 4 <= old(slots[uid]).rate.failed < U32_MAX ==>
        slots[uid].rate.failed == 0 && slots[uid].rate.lockout == now + 300
      ensures ok && !matched && old(slots[uid]).rate.failed == U32_MAX ==>
        slots[uid].rate.failed == 0 && slots[uid].rate.lockout == old(slots[uid]).rate.lockout
      ensures var before := old(slots[uid]); var rate := Counted(before.rate, matched, now);
        before.user.Some? && old(slots[0]).user.Some?
        && (ok <==> before.rate == rate
                    || Storable(old(committed), before, old(slots[0]).user.value, uid, before.user.value, true,
                                rate.failed, rate.lockout, false, disk))
    {
      ghost var before := committed;
      assert SlotFits(slots[..][uid], uid);
      var s := slots[uid];
      var rate := Counted(s.rate, matched, now);
      ok := Stage(uid, s.user.value, true, rate.failed, rate.lockout, false, disk);
      if !ok { return; }
      if s.rate == rate {
        assert slots[..] == slots[..][uid := s.(rate := rate)];
        return;
      }
      CountedLands(s, uid, rate.failed, rate.lockout);
      Install(uid, s.(rate := rate), before, s.user.value, true, rate.failed, rate.lockout, false);
    }

    // -------------------------------------------------------------- publication

    /** The row checks of `qihse_auth_image_publish`. */
    method CheckRows(rows: seq<Row>) returns (ok: bool)
      ensures ok <==> RowsValid(rows) && Ascending(rows)
    {
      var previous: nat, i := 0, 0;
      while i < |rows|
        invariant 0 <= i <= |rows| && RowsValid(rows[..i]) && Ascending(rows[..i])
        invariant previous == (if i == 0 then 0 else rows[i - 1].id)
      {
        var valid := ValidateRow(rows[i]);
        if !valid { return false; }
        if rows[i].id <= previous {
          assert i > 0 ==> rows[i - 1].id >= rows[i].id;
          return false;
        }
        assert rows[..i + 1] == rows[..i] + [rows[i]];
        previous, i := rows[i].id, i + 1;
      }
      assert rows[..i] == rows;
      return true;
    }

    /** Clears every slot but the root's, then installs one slot per row. */
    method Rebuild(rows: seq<Row>)
      requires slots.Length == MAX_USERS && RowsValid(rows) && Ascending(rows)
      modifies slots
      ensures Rebuilt(slots[..], rows) && slots[0] == old(slots[0])
    {
      var i := 1;
      while i < MAX_USERS
        invariant 1 <= i <= MAX_USERS && slots[0] == old(slots[0])
        invariant forall k :: 1 <= k < i ==> slots[k] == Unused()
      {
        slots[i] := Unused();
        i := i + 1;
      }
      i := 0;
      while i < |rows|
        invariant 0 <= i <= |rows| && slots[0] == old(slots[0])
        invariant forall k :: 0 <= k < i ==> slots[rows[k].id] == SlotOf(rows[k])
        invariant forall k :: 1 <= k < MAX_USERS && !Taken(rows[..i], k) ==> slots[k] == Unused()
      {
        assert RowValid(rows[i]);
        assert Taken(rows[..i + 1], rows[i].id) by { assert rows[..i + 1][i] == rows[i]; }
        TakenMore(rows, i);
        slots[rows[i].id] := SlotOf(rows[i]);
        i := i + 1;
      }
      assert rows[..i] == rows;
      assert forall k :: 0 <= k < MAX_USERS ==> slots[..][k] == slots[k];
      forall k | 0 <= k < |rows| ensures rows[k].id < MAX_USERS { assert RowValid(rows[k]); }
    }

    method CountOccupied() returns (n: nat)
      requires slots.Length == MAX_USERS
      ensures n == Occupied(slots[..], MAX_USERS)
    {
      n := 0;
      for i := 1 to MAX_USERS
        invariant n == Occupied(slots[..], i)
      {
        if slots[i].user.Some? { n := n + 1; }
      }
    }

    /** The table is rebuilt from the image; the root keeps its principal. */
    method Replace(m: Image)
      requires slots.Length == MAX_USERS && Agrees(slots[0], 0) && slots[0].authz.active
      requires RowsValid(m.rows) && Ascending(m.rows) && m.rootGeneration > 0
               && m.root == Some(Stored(slots[0].user.value))
      modifies slots
      ensures Mirrors(slots[..], m)
    {
      ghost var root := slots[0];
      Rebuild(m.rows);
      RebuiltBut0(slots[..], m.rows, Republished(slots[0], m));
      slots[0] := slots[0].(authz := slots[0].authz.(generation := m.rootGeneration),
                            rate := Rate(m.rootFailed, m.rootLockout));
      assert slots[..] == slots[..][0 := Republished(root, m)];
      PublishMirrors(slots[..], root, m);
    }

    /** `qihse_auth_image_publish` for an import: the image is committed, then the whole table is
        rebuilt from it. */
    method Publish(m: Image, disk: Disk) returns (ok: bool)
      requires Valid() && ready
      modifies this`committed, this`ready, this`retired, slots
      ensures retired == old(retired) + if ok then Occupied(old(slots[..]), MAX_USERS) else 0
      ensures Valid() && (!ok ==> slots[..] == old(slots[..]) && committed == old(committed))
      ensures old(slots[0]).user.Some? && (ok ==> ready && old(committed).position.generation < U64_MAX)
      ensures ok ==> committed == Sealed(m, old(committed).position, old(committed).binding, old(slots[0]).user.value)
      ensures ok <==> Ascending(m.rows) && Publishable(m, old(committed), old(slots[0]).user.value, disk)
                      && old(retired) + Occupied(old(slots[..]), MAX_USERS) <= MAX_USERS
    {
      var fit := CheckRows(m.rows);
      if !fit || m.rootGeneration == 0 || m.rootLockout > I64_MAX || |m.retries| > RETRY_MAX
         || |m.rows| > MAX_PRINCIPALS { return false; }
      var retiring := CountOccupied();
      if retired + retiring > MAX_USERS { return false; }
      assert SlotFits(slots[..][0], 0);
      ok := Commit(m, slots[0].user.value, disk);
      if !ok { return; }
      retired := retired + retiring;
      Replace(committed);
    }

    /** The end of `maintenance_import`: the planned image is published, one position on. */
    method PublishPlanned(i: Image, disk: Disk) returns (position: Option<Position>)
      requires Valid() && ready && Ascending(i.rows) && committed.retries <= i.retries
      requires committed.position.generation < U64_MAX
               && i.position == committed.position.(generation := committed.position.generation + 1)
      requires i.rootGeneration == committed.rootGeneration && i.rootFailed == committed.rootFailed
               && i.rootLockout == committed.rootLockout
      modifies this`committed, this`ready, this`retired, slots
      ensures Valid() && old(committed).retries <= committed.retries
      ensures old(slots[0]).user.Some?
      ensures Followed(old(committed), committed, i, position)
      ensures if position.Some? then ready else slots[..] == old(slots[..])
      ensures position.Some? <==> Publishable(i, old(committed), old(slots[0]).user.value, disk)
                                  && old(retired) + Occupied(old(slots[..]), MAX_USERS) <= MAX_USERS
    {
      var ok := Publish(i, disk);
      position := if ok then Some(committed.position) else None;
    }

    /** `maintenance_import`: capture, plan, publish. Answers the position the request led to. */
    method ImportArchive(q: Import.Request, disk: Disk) returns (position: Option<Position>)
      requires Valid() && ready && Import.ProperRequest(q)
      modifies this`committed, this`ready, this`retired, slots
      ensures Valid() && old(committed).retries <= committed.retries
      ensures var plan := Import.Plan(old(committed).(root := None), q);
        && (!plan.Commit? ==> committed == old(committed) && ready && slots[..] == old(slots[..]))
        && (plan.Answer? ==> position == Some(plan.position)) && (plan.Refuse? ==> position == None)
        && (plan.Commit? ==> Followed(old(committed), committed, plan.image, position))
      ensures old(slots[0]).user.Some? && (if position.Some? then ready else slots[..] == old(slots[..]))
      ensures Import.Plan(old(committed).(root := None), q).Commit? ==>
        (position.Some? <==>
         Publishable(Import.Plan(old(committed).(root := None), q).image, old(committed), old(slots[0]).user.value,
                     disk)
                             && old(retired) + Occupied(old(slots[..]), MAX_USERS) <= MAX_USERS)
    {
      var m := CaptureReady();
      assert m == committed.(root := None);
      var plan := Import.PlanImport(m, q);
      match plan
      case Answer(p) => position := Some(p);
      case Refuse(_) => position := None;
      case Commit(i) =>
        Import.ImportValid(m, q);
        Import.ImportKeepsRoot(m, q);
        position := PublishPlanned(i, disk);
    }

    /** After an import and any operations since, whatever the disk answered, repeating the request
        under the identity on record is planned as the same answer. */
    method ImportThenRun(q: Import.Request, disk: Disk, ops: seq<Op>)
      returns (position: Option<Position>, again: Import.Request)
      requires Valid() && ready && Import.ProperRequest(q)
      modifies this, slots
      ensures Valid()
      ensures position.Some? ==>
        && Import.FindRetry(committed.retries, q.id).Some?
        && again == Import.Again(q, Import.FindRetry(committed.retries, q.id).value.actorGen)
        && Import.ProperRequest(again)
        && Import.Plan(committed.(root := None), again) == Import.Answer(position.value)
    {
      again := q;
      ghost var start := committed.(root := None);
      position := ImportArchive(q, disk);
      if position.None? { RunAll(ops); return; }
      ghost var first := committed.retries;
      Import.AnsweredAgain(start, q, first, position.value);
      RunAll(ops);
      assert first <= committed.retries;
      var known := Import.LookupRetry(committed.retries, q.id);
      Import.RecordLasts(q, first, committed.(root := None), position.value);
      again := Import.Again(q, known.value.actorGen);
    }

    /** Whether an operation names a principal it may act on. */
    predicate Applies(op: Op)
      requires slots.Length == MAX_USERS
      reads this, slots
    {
      match op
      case DoCreate(uid, u, _) => uid < MAX_USERS && u.id == uid && u.passwordSet
      case DoDestroy(uid, _) => uid < MAX_USERS
      case DoModify(uid, u, _) => uid < MAX_USERS && slots[uid].authz.active && u.id == uid && u.passwordSet
      case DoGrant(uid, e, _) => uid < MAX_USERS && slots[uid].authz.active && 1 <= e.flags <= ACL_FLAGS
      case DoRevoke(uid, _, _, _) => uid < MAX_USERS && slots[uid].authz.active
      case DoLogin(uid, _, now, _) => uid < MAX_USERS && slots[uid].authz.active && now <= I64_MAX - LOCKOUT_SECONDS
      case DoToken(uid, _) => uid < MAX_USERS && slots[uid].authz.active
      case DoImport(q, _) => Import.ProperRequest(q)
    }

    method Perform(op: Op) returns (ok: bool)
      requires Valid()
      modifies this, slots
      ensures Valid() && slots == old(slots) && old(committed).retries <= committed.retries
    {
      if !ready || !Applies(op) { return false; }
      match op
      case DoCreate(uid, u, disk) => ok := Create(uid, u, disk);
      case DoDestroy(uid, disk) => ok := Destroy(uid, disk);
      case DoModify(uid, u, disk) => ok := Rotate(uid, u, disk);
      case DoGrant(uid, e, disk) => ok := GrantObject(uid, e, disk);
      case DoRevoke(uid, ns, resource, disk) => ok := RevokeObject(uid, ns, resource, disk);
      case DoLogin(uid, matched, now, disk) => ok := CountLogin(uid, matched, now, disk);
      case DoToken(uid, present) => SetTokenPresent(uid, present); ok := true;
      case DoImport(q, disk) => var position := ImportArchive(q, disk); ok := position.Some?;
    }

    /** After any sequence of operations, whatever the disk answered, a service that is still
        ready holds exactly the committed image, and every retry record is still there. */
    method RunAll(ops: seq<Op>)
      requires Valid()
      modifies this, slots
      ensures Valid() && (ready ==> Mirrors(slots[..], committed)) && old(committed).retries <= committed.retries
    {
      var i := 0;
      while i < |ops|
        invariant 0 <= i <= |ops| && Valid() && slots == old(slots) && old(committed).retries <= committed.retries
      {
        var ok := Perform(ops[i]);
        i := i + 1;
      }
    }
  }

  /** Starting from a recovered or freshly provisioned image: the service is ready and holds it,
      unless its rows are out of order. */
  method Start(m: Image) returns (a: Authority?)
    requires ValidImage(m, true)
    ensures a != null <==> Ascending(m.rows)
    ensures a != null ==>
      fresh(a) && fresh(a.slots) && a.Valid() && a.ready && a.committed == m && Mirrors(a.slots[..], m)
  {
    var prepared := new Authority(m);
    var ok := prepared.Launch();
    a := if ok then prepared else null;
  }

  /** The root keeps its principal; its generation and counters come from the image. */
  function Republished(s: Slot, m: Image): Slot {
    s.(authz := s.authz.(generation := m.rootGeneration), rate := Rate(m.rootFailed, m.rootLockout))
  }

  lemma RebuiltBut0(slots: seq<Slot>, rows: seq<Row>, s: Slot)
    requires Rebuilt(slots, rows) && RowsValid(rows)
    ensures Rebuilt(slots[0 := s], rows)
  {
    forall k | 0 <= k < |rows| ensures rows[k].id > 0 { assert RowValid(rows[k]); }
  }

  /** A published table stands for the image it was built from. */
  lemma PublishMirrors(slots: seq<Slot>, root: Slot, m: Image)
    requires Rebuilt(slots, m.rows) && RowsValid(m.rows) && Ascending(m.rows) && m.rootGeneration > 0
    requires Agrees(root, 0) && root.authz.active && slots[0] == Republished(root, m)
             && m.root == Some(Stored(root.user.value))
    ensures Mirrors(slots, m)
  {
    RebuiltCaptures(slots, m.rows);
    forall i | 0 <= i < MAX_USERS ensures SlotFits(slots[i], i) {
      if i > 0 { RebuiltFits(slots, m.rows, i); }
    }
  }

  lemma TakenMore(rows: seq<Row>, i: nat)
    requires i < |rows|
    ensures forall k :: Taken(rows[..i], k) ==> Taken(rows[..i + 1], k)
    ensures forall k :: Taken(rows[..i + 1], k) ==> Taken(rows[..i], k) || k == rows[i].id
  {
    forall k | Taken(rows[..i], k) ensures Taken(rows[..i + 1], k) {
      var j :| 0 <= j < |rows[..i]| && rows[..i][j].id == k;
      assert rows[..i + 1][j].id == k;
    }
    forall k | Taken(rows[..i + 1], k) ensures Taken(rows[..i], k) || k == rows[i].id {
      var j :| 0 <= j < |rows[..i + 1]| && rows[..i + 1][j].id == k;
      if j < i { assert rows[..i][j].id == k; }
    }
  }
}
