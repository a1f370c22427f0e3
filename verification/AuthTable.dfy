/** The in-memory principal table of a durable authority and the image it stands for
    (core/qihse_auth.c). */
module AuthTable {
  import opened Prelude
  import opened Principal
  import opened AuthImage

  const MAX_USERS: nat := 65536

  /** `authz_state_t`, the authoritative shadow of a principal. */
  datatype Authz = Authz(active: bool, role: u16, classification: u16, sci: u16, tenant: u32, tokenRequired: bool,
                         tokenPresent: bool, canCreate: bool, passwordSet: bool, configured: bool, generation: u64,
                         verifier: Verifier)

  /** `auth_rate_limit_t` */
  datatype Rate = Rate(failed: u32, lockout: u64)

  /** One index of the parallel tables `users`, `authz_states` and `rate_limits`. */
  datatype Slot = Slot(user: Option<User>, authz: Authz, rate: Rate)

  function Verifier0(): Verifier { Verifier(0, 0, 0, seq(16, _ => 0), seq(48, _ => 0)) }

  /** A cleared shadow that remembers its generation. */
  function Cleared(generation: u64): Authz {
    Authz(false, 0, 0, 0, 0, false, false, false, false, false, generation, Verifier0())
  }

  function User0(): User {
    User(0, 0, 0, 0, 0, seq(64, _ => 0), false, false, false, seq(64, _ => 0), Verifier0(), false, [])
  }

  function Unused(): Slot { Slot(None, Cleared(0), Rate(0, 0)) }

  /** `set_authz_state_locked` */
  function Shadow(a: Authz, u: User): Authz {
    Authz(true, u.role, u.classification, u.sci, u.tenant, u.tokenRequired, u.tokenPresent, u.canCreate, u.passwordSet,
          a.configured, if a.generation == 0 then 1 else a.generation, u.verifier)
  }

  /** `auth_policy_snapshot_locked`: the handle with every shadowed field put right. */
  function Snapshot(s: Slot, id: u32): User
    requires s.user.Some?
  {
    s.user.value.(id := id, role := s.authz.role, tenant := s.authz.tenant, classification := s.authz.classification,
                  sci := s.authz.sci, tokenRequired := s.authz.tokenRequired, tokenPresent := s.authz.tokenPresent,
                  canCreate := s.authz.canCreate, passwordSet := s.authz.passwordSet, verifier := s.authz.verifier)
  }

  function Stored(u: User): User { u.(tokenPresent := false) }

  /** One row of `auth_image_capture_locked`. */
  function RowOf(s: Slot, id: u32): Row
    requires s.user.Some?
  {
    Row(id, if s.authz.generation == 0 then 1 else s.authz.generation, s.rate.failed, s.rate.lockout,
        if s.authz.active then Some(Stored(Snapshot(s, id).(passwordSet := s.authz.configured))) else None)
  }

  function EntryOf(s: Slot, id: u32): Option<Row> {
    if s.user.Some? then Some(RowOf(s, id)) else None
  }

  function Entries(slots: seq<Slot>): (es: seq<Option<Row>>)
    requires |slots| <= MAX_USERS
    ensures |es| == |slots| && forall i :: 0 <= i < |slots| ==> es[i] == EntryOf(slots[i], i)
  {
    seq(|slots|, i requires 0 <= i < |slots| => EntryOf(slots[i], i))
  }

  /** The rows present at ids `1` to `n - 1`. */
  function Compact(es: seq<Option<Row>>, n: nat): seq<Row>
    requires n <= |es|
  {
    if n <= 1 then []
    else Compact(es, n - 1) + More(es[n - 1])
  }

  /** The rows `auth_image_capture_locked` collects. */
  function CapturedRows(slots: seq<Slot>): seq<Row>
    requires |slots| <= MAX_USERS
  {
    Compact(Entries(slots), |slots|)
  }

  // ---------------------------------------------------------------- placing a row

  /** The rows with this one in its place, whether or not its id was there. */
  function PutRow(rows: seq<Row>, row: Row): seq<Row> {
    if rows == [] then [row]
    else
      var n := |rows| - 1;
      if rows[n].id < row.id then rows + [row]
      else if rows[n].id == row.id then rows[..n] + [row]
      else PutRow(rows[..n], row) + [rows[n]]
  }

  lemma {:induction false} PutRowAt(rows: seq<Row>, row: Row, i: nat, j: nat)
    requires i <= j <= |rows| && j <= i + 1 && (j > i ==> rows[i].id == row.id)
    requires forall k :: 0 <= k < i ==> rows[k].id < row.id
    requires forall k :: j <= k < |rows| ==> rows[k].id > row.id
    ensures PutRow(rows, row) == rows[..i] + [row] + rows[j..]
    decreases |rows|
  {
    if rows != [] {
      var n := |rows| - 1;
      if rows[n].id > row.id {
        PutRowAt(rows[..n], row, i, j);
        assert rows[..n][..i] == rows[..i] && rows[..n][j..] + [rows[n]] == rows[j..];
      } else {
        assert rows[j..] == [];
        assert rows[n].id < row.id ==> rows[..i] == rows;
        assert rows[n].id == row.id ==> i == n;
      }
    }
  }

  /** A row between those before position `i` and those from it on. */
  function Between(rows: seq<Row>, row: Row, i: nat): seq<Row>
    requires i <= |rows|
  {
    rows[..i] + [row] + rows[i..]
  }

  lemma SwapDown(rows: seq<Row>, row: Row, i: nat)
    requires 0 < i <= |rows|
    ensures Between(rows, row, i)[i] == row && Between(rows, row, i)[i - 1] == rows[i - 1]
    ensures Between(rows, row, i)[i - 1 := row][i := rows[i - 1]] == Between(rows, row, i - 1)
  {}

  /** Bubbles an appended row down to its place. */
  method BubbleDown(rows: seq<Row>, row: Row) returns (out: seq<Row>)
    requires Ascending(rows) && forall k :: 0 <= k < |rows| ==> rows[k].id != row.id
    ensures out == PutRow(rows, row)
  {
    var i := |rows|;
    out := rows + [row];
    assert out == Between(rows, row, i);
    while i > 0 && out[i].id < out[i - 1].id
      invariant 0 <= i <= |rows| && out == Between(rows, row, i)
      invariant forall k :: i <= k < |rows| ==> rows[k].id > row.id
      decreases i
    {
      SwapDown(rows, row, i);
      out := out[i - 1 := out[i]][i := out[i - 1]];
      i := i - 1;
    }
    if i > 0 { SwapDown(rows, row, i); }
    PutRowAt(rows, row, i, i);
  }

  /** The slot search, append and bubbling of `auth_durable_stage_locked`. */
  method PlaceRow(rows: seq<Row>, row: Row) returns (out: seq<Row>)
    requires Ascending(rows)
    ensures out == PutRow(rows, row)
  {
    var slot := 0;
    while slot < |rows| && rows[slot].id != row.id
      invariant 0 <= slot <= |rows| && forall k :: 0 <= k < slot ==> rows[k].id != row.id
    {
      slot := slot + 1;
    }
    if slot < |rows| {
      PutRowAt(rows, row, slot, slot + 1);
      assert rows[slot := row] == rows[..slot] + [row] + rows[slot + 1..];
      return rows[slot := row];
    }
    out := BubbleDown(rows, row);
  }

  // ---------------------------------------------------------------- capture and updates

  /** Each entry carries its own id. */
  predicate OwnIds(es: seq<Option<Row>>) {
    forall i :: 0 <= i < |es| && es[i].Some? ==> es[i].value.id == i
  }

  lemma {:induction false} CompactSame(a: seq<Option<Row>>, b: seq<Option<Row>>, n: nat)
    requires n <= |a| && n <= |b| && forall i :: 1 <= i < n ==> a[i] == b[i]
    ensures Compact(a, n) == Compact(b, n)
  {
    if n > 1 { CompactSame(a, b, n - 1); }
  }

  lemma {:induction false} CompactBounds(es: seq<Option<Row>>, n: nat)
    requires n <= |es| && OwnIds(es)
    ensures Ascending(Compact(es, n)) && forall i :: 0 <= i < |Compact(es, n)| ==> 1 <= Compact(es, n)[i].id < n
  {
    if n > 1 { CompactBounds(es, n - 1); }
  }

  lemma PutRowBefore(rows: seq<Row>, row: Row, more: seq<Row>)
    requires |more| <= 1 && (more != [] ==> row.id < more[0].id)
    ensures PutRow(rows + more, row) == PutRow(rows, row) + more
  {
    if more == [] {
      assert rows + more == rows;
    } else {
      assert (rows + more)[..|rows|] == rows;
    }
  }

  lemma PutRowEnd(rows: seq<Row>, more: seq<Row>, row: Row)
    requires |more| <= 1 && (more != [] ==> more[0].id == row.id) && forall i :: 0 <= i < |rows| ==> rows[i].id < row.id
    ensures PutRow(rows + more, row) == rows + [row]
  {
    if more == [] {
      assert rows + more == rows;
    } else {
      assert (rows + more)[..|rows|] == rows;
    }
  }

  function More(e: Option<Row>): seq<Row> { if e.Some? then [e.value] else [] }

  predicate Replaces(es: seq<Option<Row>>, after: seq<Option<Row>>, row: Row) {
    |after| == |es| && row.id < |es| && after[row.id] == Some(row)
    && forall i :: 0 <= i < |es| && i != row.id ==> after[i] == es[i]
  }

  /** The rows below `n` differ by that one row. */
  predicate Written(es: seq<Option<Row>>, after: seq<Option<Row>>, row: Row, n: nat)
    requires n <= |es| && n <= |after|
  {
    Compact(after, n) == PutRow(Compact(es, n), row)
  }

  lemma CompactWriteEnd(es: seq<Option<Row>>, after: seq<Option<Row>>, row: Row, n: nat)
    requires OwnIds(es) && Replaces(es, after, row) && 1 <= row.id == n - 1 < n <= |es|
    ensures Written(es, after, row, n)
  {
    CompactBounds(es, n - 1);
    CompactSame(es, after, n - 1);
    PutRowEnd(Compact(es, n - 1), More(es[n - 1]), row);
  }

  lemma CompactWriteStep(es: seq<Option<Row>>, after: seq<Option<Row>>, row: Row, n: nat)
    requires OwnIds(es) && Replaces(es, after, row) && 1 <= row.id < n - 1 < n <= |es| && Written(es, after, row, n - 1)
    ensures Written(es, after, row, n)
  {
    PutRowBefore(Compact(es, n - 1), row, More(es[n - 1]));
  }

  /** Changing one entry puts its row in place and leaves the others. */
  lemma {:induction false} CompactWrite(es: seq<Option<Row>>, after: seq<Option<Row>>, row: Row, n: nat)
    requires OwnIds(es) && Replaces(es, after, row) && 1 <= row.id < n <= |es|
    ensures Written(es, after, row, n)
    decreases n
  {
    if row.id == n - 1 {
      CompactWriteEnd(es, after, row, n);
    } else {
      CompactWrite(es, after, row, n - 1);
      CompactWriteStep(es, after, row, n);
    }
  }

  lemma EntriesOwn(slots: seq<Slot>)
    requires |slots| <= MAX_USERS
    ensures OwnIds(Entries(slots)) && Ascending(CapturedRows(slots))
  {
    CompactBounds(Entries(slots), |slots|);
  }

  /** Changing one occupied slot of the table puts its row in place. */
  lemma CaptureAfterWrite(slots: seq<Slot>, uid: nat, s: Slot)
    requires 1 <= uid < |slots| <= MAX_USERS && s.user.Some?
    ensures CapturedRows(slots[uid := s]) == PutRow(CapturedRows(slots), RowOf(s, uid))
  {
    EntriesOwn(slots);
    CompactWrite(Entries(slots), Entries(slots[uid := s]), RowOf(s, uid), |slots|);
  }

  // ---------------------------------------------------------------- the correspondence

  /** Handle and shadow of an active principal agree. */
  predicate Agrees(s: Slot, id: nat) {
    && s.user.Some? && s.user.value.id == id && s.authz.configured && s.authz.generation > 0
    && Shadow(s.authz, s.user.value) == s.authz && s.user.value.passwordSet
  }

  /** An unused slot is clean, an active one agrees with its shadow, a tombstone keeps its generation. */
  predicate SlotFits(s: Slot, id: nat) {
    if s.user.None? then s == Unused()
    else s.authz.generation > 0 && (s.authz.active ==> Agrees(s, id))
  }

  predicate AllFit(slots: seq<Slot>) {
    forall i :: 0 <= i < |slots| ==> SlotFits(slots[i], i)
  }

  /** The table stands for the image. */
  ghost predicate Mirrors(slots: seq<Slot>, m: Image) {
    && |slots| == MAX_USERS && AllFit(slots)
    && slots[0].user.Some? && slots[0].authz.active
    && m.rows == CapturedRows(slots)
    && m.rootGeneration == slots[0].authz.generation && m.rootFailed == slots[0].rate.failed
    && m.rootLockout == slots[0].rate.lockout
    && m.root == Some(Stored(slots[0].user.value))
  }

  /** An agreeing principal is captured as its own handle, token presence aside. */
  lemma RowOfAgreeing(s: Slot, id: u32)
    requires Agrees(s, id) && s.authz.active
    ensures RowOf(s, id) == Row(id, s.authz.generation, s.rate.failed, s.rate.lockout, Some(Stored(s.user.value)))
    ensures Snapshot(s, id) == s.user.value
  {}

  /** Whatever a handle says, what is staged and captured of an active principal is the shadow's
      policy and the slot's id; only name, credential and access list come from the handle. */
  lemma ShadowDecides(s: Slot, id: u32)
    requires s.user.Some? && s.authz.active
    ensures RowOf(s, id).principal.Some?
    ensures forall u | u in {Snapshot(s, id), RowOf(s, id).principal.value} ::
      && u.id == id && u.role == s.authz.role && u.classification == s.authz.classification && u.sci == s.authz.sci
      && u.tenant == s.authz.tenant && u.tokenRequired == s.authz.tokenRequired && u.canCreate == s.authz.canCreate
      && u.verifier == s.authz.verifier && u.username == s.user.value.username
      && u.credential == s.user.value.credential && u.acls == s.user.value.acls
    ensures Snapshot(s, id).tokenPresent == s.authz.tokenPresent && !RowOf(s, id).principal.value.tokenPresent
  {}

  /** The image after one slot has changed. */
  function Updated(m: Image, uid: u32, s: Slot): Image
    requires s.user.Some?
  {
    if uid == 0 then
      m.(rootGeneration := s.authz.generation, rootFailed := s.rate.failed, rootLockout := s.rate.lockout,
         root := Some(Stored(s.user.value)))
    else m.(rows := PutRow(m.rows, RowOf(s, uid)))
  }

  /** Writing one fitting slot moves table and image together. */
  lemma MirrorsWrite(slots: seq<Slot>, m: Image, uid: nat, s: Slot)
    requires Mirrors(slots, m) && uid < MAX_USERS && s.user.Some? && SlotFits(s, uid) && (uid == 0 ==> s.authz.active)
    ensures Mirrors(slots[uid := s], Updated(m, uid, s))
  {
    if uid == 0 {
      CompactSame(Entries(slots), Entries(slots[0 := s]), MAX_USERS);
    } else {
      CaptureAfterWrite(slots, uid, s);
    }
  }

  /** Writing a slot that is captured the same leaves the image right. */
  lemma MirrorsSame(slots: seq<Slot>, m: Image, uid: nat, s: Slot)
    requires Mirrors(slots, m) && uid < MAX_USERS && s.user.Some? && SlotFits(s, uid) && slots[uid].user.Some?
    requires if uid == 0 then s.authz.active && Updated(m, 0, s) == m else RowOf(s, uid) == RowOf(slots[uid], uid)
    ensures Mirrors(slots[uid := s], m)
  {
    if uid == 0 {
      MirrorsWrite(slots, m, 0, s);
    } else {
      assert Entries(slots[uid := s]) == Entries(slots);
    }
  }

  // ---------------------------------------------------------------- rebuilding from rows

  /** The slot `qihse_auth_image_publish` makes of a row. */
  function SlotOf(row: Row): Slot {
    var rate := Rate(row.failed, row.lockout);
    if row.principal.Some? then
      Slot(Some(Stored(row.principal.value)),
           Shadow(Cleared(row.generation), Stored(row.principal.value)).(configured := true), rate)
    else Slot(Some(User0()), Cleared(row.generation), rate)
  }

  lemma SlotOfFits(row: Row)
    requires RowValid(row)
    ensures SlotFits(SlotOf(row), row.id) && RowOf(SlotOf(row), row.id) == row
  {}

  predicate Taken(rows: seq<Row>, id: nat) { exists k :: 0 <= k < |rows| && rows[k].id == id }

  /** Every row has its slot, every other slot is unused. */
  predicate Rebuilt(slots: seq<Slot>, rows: seq<Row>) {
    && |slots| == MAX_USERS
    && (forall k :: 0 <= k < |rows| ==> rows[k].id < MAX_USERS && slots[rows[k].id] == SlotOf(rows[k]))
    && (forall i :: 1 <= i < MAX_USERS && !Taken(rows, i) ==> slots[i] == Unused())
  }

  /** The same, of entries. */
  predicate Placed(es: seq<Option<Row>>, rows: seq<Row>) {
    && (forall k :: 0 <= k < |rows| ==> 1 <= rows[k].id < |es| && es[rows[k].id] == Some(rows[k]))
    && (forall i :: 1 <= i < |es| && es[i].Some? ==> Taken(rows, i))
  }

  /** The first `k` rows are those with ids below `n`. */
  predicate Cut(rows: seq<Row>, n: nat, k: nat) {
    k <= |rows| && (k > 0 ==> rows[k - 1].id < n) && forall i :: k <= i < |rows| ==> rows[i].id >= n
  }

  lemma NoneAt(es: seq<Option<Row>>, rows: seq<Row>, n: nat, k: nat)
    requires Placed(es, rows) && Ascending(rows) && 1 <= n < |es| && Cut(rows, n + 1, k)
             && (k > 0 ==> rows[k - 1].id < n)
    ensures es[n].None?
  {
    forall i | 0 <= i < |rows| ensures rows[i].id != n {
      if i < k - 1 { assert rows[i].id < rows[k - 1].id; }
    }
  }

  /** Compacting placed rows gives them back. */
  lemma {:induction false} CompactPlaced(es: seq<Option<Row>>, rows: seq<Row>, n: nat, k: nat)
    requires Placed(es, rows) && Ascending(rows) && 1 <= n <= |es| && Cut(rows, n, k)
    ensures Compact(es, n) == rows[..k]
    decreases n
  {
    if n > 1 {
      if k > 0 && rows[k - 1].id == n - 1 {
        CompactPlaced(es, rows, n - 1, k - 1);
        assert rows[..k] == rows[..k - 1] + [rows[k - 1]];
      } else {
        NoneAt(es, rows, n - 1, k);
        CompactPlaced(es, rows, n - 1, k);
        assert rows[..k] + [] == rows[..k];
      }
    }
  }

  /** Capturing a rebuilt table gives back the rows it was built from. */
  lemma RebuiltCaptures(slots: seq<Slot>, rows: seq<Row>)
    requires Rebuilt(slots, rows) && RowsValid(rows) && Ascending(rows)
    ensures CapturedRows(slots) == rows
  {
    var es := Entries(slots);
    forall k | 0 <= k < |rows| ensures 1 <= rows[k].id < |es| && es[rows[k].id] == Some(rows[k]) {
      SlotOfFits(rows[k]);
    }
    assert Placed(es, rows);
    CompactPlaced(es, rows, MAX_USERS, |rows|);
    assert rows[..|rows|] == rows;
  }

  lemma RebuiltFits(slots: seq<Slot>, rows: seq<Row>, i: nat)
    requires Rebuilt(slots, rows) && RowsValid(rows) && 1 <= i < MAX_USERS
    ensures SlotFits(slots[i], i)
  {
    if Taken(rows, i) {
      var k :| 0 <= k < |rows| && rows[k].id == i;
      SlotOfFits(rows[k]);
    }
  }
}
