/** The complete image of an authority, and what makes one valid
    (core/qihse_auth_archive.c). */
module AuthImage {
  import opened Prelude
  import opened Principal
  import opened KeyOrder

  const MAX_PRINCIPALS: nat := 65535
  const RETRY_MAX: nat := 128
  const NO_ACTOR: u32 := 0xFFFF_FFFF

  type Id16 = s: Bytes | |s| == 16 witness seq(16, _ => 0)
  type Bytes48 = s: Bytes | |s| == 48 witness seq(48, _ => 0)

  datatype Position = Position(history: Id16, node: Id16, epoch: u64, generation: u64)

  /** `qihse_auth_image_row_t`; a row without a principal is inactive. */
  datatype Row = Row(id: u32, generation: u64, failed: u32, lockout: u64, principal: Option<User>)

  datatype Retry = Retry(request: Id16, digest: Bytes48, actor: u32, actorGen: u64, result: Position)

  datatype Image = Image(position: Position, binding: Bytes48, root: Option<User>, rootGeneration: u64,
                         rootFailed: u32, rootLockout: u64, rows: seq<Row>, retries: seq<Retry>)

  method BytesNonZero(s: Bytes) returns (b: bool)
    ensures b == NonZero(s)
  {
    var i := 0;
    b := false;
    while i < |s|
      invariant 0 <= i <= |s| && b == NonZero(s[..i])
    {
      assert s[..i + 1] == s[..i] + [s[i]];
      b := b || s[i] != 0;
      i := i + 1;
    }
    assert s[..i] == s;
  }

  predicate PositionValid(p: Position) { NonZero(p.history) && NonZero(p.node) && p.epoch != 0 }

  predicate RowValid(r: Row) {
    && 1 <= r.id <= MAX_PRINCIPALS && r.generation != 0 && r.lockout <= I64_MAX
    && (r.principal.Some? ==> r.principal.value.id == r.id && FieldsValid(r.principal.value, false))
  }

  predicate RetryValid(t: Retry, at: Position) {
    && NonZero(t.request) && NonZero(t.digest) && PositionValid(t.result)
    && (if t.actor == NO_ACTOR then t.actorGen == 0 else t.actor <= MAX_PRINCIPALS && t.actorGen != 0)
    && t.result.history == at.history && t.result.node == at.node && t.result.epoch == at.epoch
    && t.result.generation <= at.generation
  }

  function Name(r: Row): Bytes
    requires r.principal.Some?
  {
    CStr(r.principal.value.username)
  }

  predicate DistinctIds(rows: seq<Row>) {
    forall i, j :: 0 <= i < j < |rows| ==> rows[i].id != rows[j].id
  }

  predicate DistinctNames(rows: seq<Row>) {
    forall i, j :: 0 <= i < j < |rows| && rows[i].principal.Some? && rows[j].principal.Some? ==>
      Name(rows[i]) != Name(rows[j])
  }

  predicate NameUnused(rows: seq<Row>, name: Bytes) {
    forall i :: 0 <= i < |rows| && rows[i].principal.Some? ==> Name(rows[i]) != name
  }

  predicate RowsValid(rows: seq<Row>) {
    forall i :: 0 <= i < |rows| ==> RowValid(rows[i])
  }

  predicate DistinctRequests(retries: seq<Retry>) {
    forall i, j :: 0 <= i < j < |retries| ==> retries[i].request != retries[j].request
  }

  predicate RetriesValid(retries: seq<Retry>, at: Position) {
    (forall i :: 0 <= i < |retries| ==> RetryValid(retries[i], at)) && DistinctRequests(retries)
  }

  predicate HeadValid(m: Image, local: bool) {
    && PositionValid(m.position) && m.rootGeneration != 0 && m.rootLockout <= I64_MAX
    && |m.rows| <= MAX_PRINCIPALS && |m.retries| <= RETRY_MAX
    && (if local then m.root.Some? && m.root.value.id == 0 && FieldsValid(m.root.value, true) else m.root.None?)
  }

  /** An image fit to be written: every field valid, ids and live names unique. */
  predicate ValidImage(m: Image, local: bool) {
    && HeadValid(m, local) && RowsValid(m.rows) && DistinctIds(m.rows) && DistinctNames(m.rows)
    && (local ==> NameUnused(m.rows, CStr(m.root.value.username)))
    && RetriesValid(m.retries, m.position)
  }

  predicate Ascending(rows: seq<Row>) {
    forall i, j :: 0 <= i < j < |rows| ==> rows[i].id < rows[j].id
  }

  // ---------------------------------------------------------------- the two sorts

  /** `row_name_compare` as a key: active rows first, by name. */
  function NameKey(r: Row): Key { if r.principal.Some? then [0] + Name(r) else DEAD }

  /** `row_id_compare` as a key. */
  function IdKey(r: Row): Key { [0, r.id] }

  function ById(rows: seq<Row>): seq<Row> { Sort(rows, IdKey) }

  lemma NameKeysTell(rows: seq<Row>)
    ensures Unique(Keys(rows, NameKey)) <==> DistinctNames(rows)
  {
    var ks := Keys(rows, NameKey);
    forall i, j | 0 <= i < j < |rows|
      ensures (ks[i] == ks[j] && ks[i] != DEAD) <==>
        (rows[i].principal.Some? && rows[j].principal.Some? && Name(rows[i]) == Name(rows[j]))
    {
      SameNameKey(rows[i], rows[j]);
    }
    if Unique(ks) {
      forall i, j | 0 <= i < j < |rows| && rows[i].principal.Some? && rows[j].principal.Some?
        ensures Name(rows[i]) != Name(rows[j])
      {
        assert ks[i] == NameKey(rows[i]) && ks[j] == NameKey(rows[j]);
      }
    }
  }

  lemma SameNameKey(a: Row, b: Row)
    ensures (NameKey(a) == NameKey(b) && NameKey(a) != DEAD) <==>
      (a.principal.Some? && b.principal.Some? && Name(a) == Name(b))
  {
    if a.principal.Some? {
      assert NameKey(a)[0] == 0 && NameKey(a)[1..] == Name(a);
    }
    if b.principal.Some? {
      assert NameKey(b)[0] == 0 && NameKey(b)[1..] == Name(b);
    }
  }

  lemma IdKeysTell(rows: seq<Row>)
    ensures Unique(Keys(rows, IdKey)) <==> DistinctIds(rows)
  {
    var ks := Keys(rows, IdKey);
    forall i, j | 0 <= i < j < |rows| ensures ks[i] == ks[j] <==> rows[i].id == rows[j].id {
      assert ks[i] == [0, rows[i].id] && ks[i][1] == rows[i].id && ks[j][1] == rows[j].id;
    }
    if Unique(ks) {
      forall i, j | 0 <= i < j < |rows| ensures rows[i].id != rows[j].id {
        assert ks[i][0] == 0;
      }
    }
  }

  lemma IdLeq(a: Row, b: Row)
    ensures Leq(IdKey(a), IdKey(b)) <==> a.id <= b.id
  {
    var x, y: Key := [a.id], [b.id];
    assert x[1..] == [] && y[1..] == [];
    assert Leq(x, y) <==> a.id <= b.id;
    assert IdKey(a)[1..] == x && IdKey(b)[1..] == y;
  }

  /** Distinct ids in id order rise strictly. */
  lemma SortedIdsAscend(rows: seq<Row>)
    requires DistinctIds(rows)
    ensures Ascending(ById(rows)) && multiset(ById(rows)) == multiset(rows)
  {
    SortLaws(rows, IdKey);
    IdKeysTell(rows);
    var s := Sort(rows, IdKey);
    IdKeysTell(s);
    forall i, j | 0 <= i < j < |s| ensures s[i].id < s[j].id {
      assert Leq(Keys(s, IdKey)[i], Keys(s, IdKey)[j]);
      IdLeq(s[i], s[j]);
    }
  }

  method NeighbourNames(rows: seq<Row>) returns (clash: bool)
    ensures clash == !NeighboursClear(Keys(rows, NameKey))
  {
    ghost var ks := Keys(rows, NameKey);
    var i := 1;
    while i < |rows|
      invariant 1 <= i
      invariant forall k :: 1 <= k < i && k < |rows| && ks[k - 1] == ks[k] ==> ks[k] == DEAD
    {
      SameNameKey(rows[i - 1], rows[i]);
      assert ks[i] == NameKey(rows[i]) && ks[i - 1] == NameKey(rows[i - 1]);
      if rows[i - 1].principal.Some? && rows[i].principal.Some? && Name(rows[i - 1]) == Name(rows[i]) { return true; }
      i := i + 1;
    }
    return false;
  }

  method NeighbourIds(rows: seq<Row>) returns (clash: bool)
    ensures clash == !NeighboursClear(Keys(rows, IdKey))
  {
    ghost var ks := Keys(rows, IdKey);
    var i := 1;
    while i < |rows|
      invariant 1 <= i
      invariant forall k :: 1 <= k < i && k < |rows| ==> ks[k - 1] != ks[k]
    {
      assert ks[i] == [0, rows[i].id] && ks[i - 1] == [0, rows[i - 1].id];
      assert ks[i][0] == 0 && ks[i][1] == rows[i].id && ks[i - 1][1] == rows[i - 1].id;
      if rows[i - 1].id == rows[i].id { return true; }
      i := i + 1;
    }
    return false;
  }

  // ---------------------------------------------------------------- validation

  datatype Status = Ok | Invalid | Denied | NotReady | Conflict | Io | Corrupt | Limit | Uncertain

  method ValidateRow(r: Row) returns (ok: bool)
    ensures ok == RowValid(r)
    ensures ok <==>
      && 1 <= r.id <= 65535 && r.generation != 0 && r.lockout <= 0x7FFF_FFFF_FFFF_FFFF
      && (r.principal.Some? ==> r.principal.value.id == r.id && FieldsValid(r.principal.value, false))
  {
    if r.id == 0 || r.id > MAX_PRINCIPALS || r.generation == 0 || r.lockout > I64_MAX { return false; }
    if r.principal.None? { return true; }
    if r.principal.value.id != r.id { return false; }
    ok := ValidateFields(r.principal.value, false);
  }

  method ValidateRows(rows: seq<Row>) returns (ok: bool)
    ensures ok == RowsValid(rows)
  {
    var i := 0;
    while i < |rows|
      invariant 0 <= i <= |rows| && RowsValid(rows[..i])
    {
      var valid := ValidateRow(rows[i]);
      if !valid { return false; }
      i := i + 1;
    }
    assert rows[..i] == rows;
    return true;
  }

  method ValidatePosition(p: Position) returns (ok: bool)
    ensures ok == PositionValid(p)
    ensures ok <==>
      (exists k :: 0 <= k < 16 && p.history[k] != 0) && (exists k :: 0 <= k < 16 && p.node[k] != 0) && p.epoch != 0
  {
    var history := BytesNonZero(p.history);
    var node := BytesNonZero(p.node);
    return history && node && p.epoch != 0;
  }

  method ValidateRetry(t: Retry, at: Position) returns (ok: bool)
    ensures ok == RetryValid(t, at)
    ensures ok <==>
      && (exists k :: 0 <= k < 16 && t.request[k] != 0) && (exists k :: 0 <= k < 48 && t.digest[k] != 0)
      && t.result.history == at.history && t.result.node == at.node && t.result.epoch == at.epoch
      && t.result.generation <= at.generation && PositionValid(t.result)
      && (t.actor == 0xFFFF_FFFF ==> t.actorGen == 0)
      && (t.actor != 0xFFFF_FFFF ==> t.actor <= 65535 && t.actorGen != 0)
  {
    var request := BytesNonZero(t.request);
    var digest := BytesNonZero(t.digest);
    var position := ValidatePosition(t.result);
    return request && digest
      && (if t.actor == NO_ACTOR then t.actorGen == 0 else t.actor <= MAX_PRINCIPALS && t.actorGen != 0)
      && position && t.result.history == at.history && t.result.node == at.node && t.result.epoch == at.epoch
      && t.result.generation <= at.generation;
  }

  method RequestKnown(retries: seq<Retry>, n: nat, request: Id16) returns (known: bool)
    requires n <= |retries|
    ensures known <==> exists j :: 0 <= j < n && retries[j].request == request
  {
    var j := 0;
    while j < n
      invariant 0 <= j <= n && forall k :: 0 <= k < j ==> retries[k].request != request
    {
      if retries[j].request == request { return true; }
      j := j + 1;
    }
    return false;
  }

  method ValidateRetries(retries: seq<Retry>, at: Position) returns (ok: bool)
    ensures ok == RetriesValid(retries, at)
  {
    var i := 0;
    while i < |retries|
      invariant 0 <= i <= |retries|
      invariant forall k :: 0 <= k < i ==> RetryValid(retries[k], at)
      invariant forall j, k :: 0 <= j < k < i ==> retries[j].request != retries[k].request
    {
      var valid := ValidateRetry(retries[i], at);
      if !valid { return false; }
      var known := RequestKnown(retries, i, retries[i].request);
      if known { return false; }
      i := i + 1;
    }
    return true;
  }

  method RootNameTaken(rows: seq<Row>, name: Bytes) returns (taken: bool)
    ensures taken == !NameUnused(rows, name)
  {
    var i := 0;
    while i < |rows|
      invariant 0 <= i <= |rows| && NameUnused(rows[..i], name)
    {
      if rows[i].principal.Some? && Name(rows[i]) == name { return true; }
      i := i + 1;
    }
    assert rows[..i] == rows;
    return false;
  }

  lemma NameUnusedPermutes(a: seq<Row>, b: seq<Row>, name: Bytes)
    requires multiset(a) == multiset(b) && NameUnused(a, name)
    ensures NameUnused(b, name)
  {
    forall i | 0 <= i < |b| && b[i].principal.Some? ensures Name(b[i]) != name {
      assert b[i] in multiset(b);
      assert b[i] in a;
    }
  }

  // ---------------------------------------------------------------- rearranging rows

  lemma {:induction false} AtMostOnce(rows: seq<Row>, v: Row)
    requires DistinctIds(rows)
    ensures multiset(rows)[v] <= 1
  {
    if rows != [] {
      var n := |rows| - 1;
      assert rows == rows[..n] + [rows[n]];
      AtMostOnce(rows[..n], v);
      assert v in multiset(rows[..n]) ==> v in rows[..n];
    }
  }

  lemma Twice(rows: seq<Row>, i: nat, j: nat)
    requires i < j < |rows| && rows[i] == rows[j]
    ensures multiset(rows)[rows[i]] >= 2
  {
    assert rows == rows[..j] + [rows[j]] + rows[j + 1..];
    assert rows[..j][i] in multiset(rows[..j]);
  }

  lemma DistinctIdsPermute(a: seq<Row>, b: seq<Row>)
    requires multiset(a) == multiset(b) && DistinctIds(a)
    ensures DistinctIds(b)
  {
    forall i, j | 0 <= i < j < |b| ensures b[i].id != b[j].id {
      assert b[i] in multiset(b) && b[j] in multiset(b);
      assert b[i] in a && b[j] in a;
      if b[i] == b[j] {
        Twice(b, i, j);
        AtMostOnce(a, b[i]);
      }
    }
  }

  lemma LastAgrees(a: seq<Row>, b: seq<Row>)
    requires multiset(a) == multiset(b) && Ascending(a) && Ascending(b) && a != [] && b != []
    ensures a[|a| - 1] == b[|b| - 1]
  {
    var x, y := a[|a| - 1], b[|b| - 1];
    assert x in multiset(a) && y in multiset(b);
    assert x in b && y in a;
    var i :| 0 <= i < |b| && b[i] == x;
    var j :| 0 <= j < |a| && a[j] == y;
  }

  lemma WithoutLast(a: seq<Row>)
    requires a != []
    ensures multiset(a[..|a| - 1]) == multiset(a) - multiset{a[|a| - 1]}
  {
    assert a == a[..|a| - 1] + [a[|a| - 1]];
  }

  lemma SameLength(a: seq<Row>, b: seq<Row>)
    requires multiset(a) == multiset(b)
    ensures |a| == |b|
  {
    assert |multiset(a)| == |a| && |multiset(b)| == |b|;
  }

  /** Only one ascending arrangement. */
  lemma {:induction false} AscendingUnique(a: seq<Row>, b: seq<Row>)
    requires multiset(a) == multiset(b) && Ascending(a) && Ascending(b)
    ensures a == b
    decreases |a|
  {
    SameLength(a, b);
    if a != [] {
      LastAgrees(a, b);
      WithoutLast(a);
      WithoutLast(b);
      AscendingUnique(a[..|a| - 1], b[..|b| - 1]);
      assert a == a[..|a| - 1] + [a[|a| - 1]] && b == b[..|b| - 1] + [b[|b| - 1]];
    }
  }

  /** The id sort and neighbour check. */
  method CheckIds(rows: seq<Row>) returns (ok: bool, ordered: seq<Row>)
    ensures ok == DistinctIds(rows)
    ensures ok ==> Ascending(ordered) && multiset(ordered) == multiset(rows)
  {
    ordered := Sort(rows, IdKey);
    NeighbourCheckDecides(rows, IdKey);
    IdKeysTell(rows);
    var clash := NeighbourIds(ordered);
    ok := !clash;
    if ok { SortedIdsAscend(rows); }
  }

  /** The row checks of `image_validate`: sort by name, compare neighbours, sort by id, compare
      neighbours. They decide uniqueness of the rows as given. */
  method CheckRows(rows: seq<Row>, rootName: Option<Bytes>) returns (ok: bool, ordered: seq<Row>)
    ensures ok <==> DistinctNames(rows) && DistinctIds(rows) && (rootName.Some? ==> NameUnused(rows, rootName.value))
    ensures ok ==> Ascending(ordered) && multiset(ordered) == multiset(rows)
  {
    ordered := Sort(rows, NameKey);
    NeighbourCheckDecides(rows, NameKey);
    NameKeysTell(rows);
    var names := NeighbourNames(ordered);
    if names { return false, []; }
    if rootName.Some? {
      var taken := RootNameTaken(ordered, rootName.value);
      if taken {
        if NameUnused(rows, rootName.value) { NameUnusedPermutes(rows, ordered, rootName.value); }
        return false, [];
      }
      NameUnusedPermutes(ordered, rows, rootName.value);
    }
    ghost var byName := ordered;
    ok, ordered := CheckIds(ordered);
    if ok { DistinctIdsPermute(byName, rows); }
    if DistinctIds(rows) { DistinctIdsPermute(rows, byName); }
  }

  /** `image_validate`: valid or not, and the rows in id order. */
  method Validate(m: Image, local: bool, memory: bool) returns (status: Status, ordered: seq<Row>)
    ensures status == Ok <==> ValidImage(m, local) && (memory || m.rows == [])
    ensures status == Invalid ==> !ValidImage(m, local)
    ensures status in {Ok, Invalid, Limit}
    ensures status == Ok ==> Ascending(ordered) && multiset(ordered) == multiset(m.rows)
    ensures ValidImage(m, local) <==>
      && PositionValid(m.position) && m.rootGeneration != 0 && m.rootLockout <= 0x7FFF_FFFF_FFFF_FFFF
      && |m.rows| <= 65535
      && |m.retries| <= 128 && m.root.Some? == local
      && (local ==> m.root.value.id == 0 && FieldsValid(m.root.value, true))
      && (forall i :: 0 <= i < |m.rows| ==> RowValid(m.rows[i]))
      && (forall i :: 0 <= i < |m.retries| ==> RetryValid(m.retries[i], m.position))
      && (forall i, j :: 0 <= i < j < |m.rows| ==> m.rows[i].id != m.rows[j].id)
      && (forall i, j :: 0 <= i < j < |m.retries| ==> m.retries[i].request != m.retries[j].request)
      && (forall i, j :: 0 <= i < j < |m.rows| && m.rows[i].principal.Some? && m.rows[j].principal.Some? ==>
            CStr(m.rows[i].principal.value.username) != CStr(m.rows[j].principal.value.username))
      && (local ==> forall i :: 0 <= i < |m.rows| && m.rows[i].principal.Some? ==>
            CStr(m.rows[i].principal.value.username) != CStr(m.root.value.username))
  {
    ordered := [];
    var position := ValidatePosition(m.position);
    if !position || m.rootGeneration == 0 || |m.rows| > MAX_PRINCIPALS || |m.retries| > RETRY_MAX
       || (!local && m.root.Some?) || m.rootLockout > I64_MAX { return Invalid, []; }
    if local {
      if m.root.None? || m.root.value.id != 0 { return Invalid, []; }
      var root := ValidateFields(m.root.value, true);
      if !root { return Invalid, []; }
    }
    if m.rows != [] && !memory { return Limit, []; }
    var rows := ValidateRows(m.rows);
    if !rows { return Invalid, []; }
    var unique;
    unique, ordered := CheckRows(m.rows, if local then Some(CStr(m.root.value.username)) else None);
    if !unique { return Invalid, []; }
    var retries := ValidateRetries(m.retries, m.position);
    if !retries { return Invalid, []; }
    return Ok, ordered;
  }
}
