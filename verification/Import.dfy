/** The import request around the merge: its guards, its retry record and its replay
    (core/qihse_auth_maintenance.c). */
module Import {
  import opened Prelude
  import opened Principal
  import opened AuthImage
  import opened ImportMerge

  /** Who asks: the recovery path, or a principal with its current generation. */
  datatype Actor = Recovery | Caller(id: u32, generation: u64, delegates: bool, tokenRequired: bool)

  function ActorId(a: Actor): u32 { if a.Recovery? then NO_ACTOR else a.id }

  function ActorGen(a: Actor): u64 { if a.Recovery? then 0 else a.generation }

  /** A request whose archive has been digested; `archive` is what opening it yields. */
  datatype Request = Request(id: Id16, digest: Bytes48, actor: Actor, expected: Position, relocate: bool, pinned: bool,
                             archive: Option<Image>)

  datatype Outcome = Answer(position: Position) | Commit(image: Image) | Refuse(reason: Status)

  /** The first recorded retry of a request. */
  function FindRetry(retries: seq<Retry>, id: Id16): (r: Option<Retry>)
    ensures r.Some? ==> r.value in retries && r.value.request == id
    ensures r.None? ==> forall i :: 0 <= i < |retries| ==> retries[i].request != id
  {
    if retries == [] then None else if retries[0].request == id then Some(retries[0]) else FindRetry(retries[1..], id)
  }

  predicate Foreign(current: Image, m: Image, relocate: bool) {
    m.root.Some? || (!relocate && m.position.node != current.position.node)
    || m.position.history != current.position.history
    || m.position.epoch != current.position.epoch || m.position.generation < current.position.generation
    || current.position.generation == U64_MAX
  }

  /** The archive grants what the caller may not. */
  predicate Oversteps(a: Actor, row: Row) {
    a.Caller? && row.principal.Some?
    && ((row.principal.value.canCreate && !a.delegates) || (a.tokenRequired && !row.principal.value.tokenRequired))
  }

  predicate AnyOversteps(a: Actor, rows: seq<Row>) { exists i :: 0 <= i < |rows| && Oversteps(a, rows[i]) }

  predicate SystemOperator(u: User) { u.role == ROLE_OPERATOR && u.tenant == TENANT_SYSTEM && FullClearance(u) }

  /** The generation the retry record must carry: that of the caller's committed row. */
  function Recorded(a: Actor, rows: seq<Row>): Option<u64> {
    if ActorId(a) == 0 || ActorId(a) == NO_ACTOR then Some(ActorGen(a)) else ActiveRow(a.id, rows)
  }

  function ActiveRow(id: u32, rows: seq<Row>): (g: Option<u64>)
    ensures g.Some? ==> exists i ::
      0 <= i < |rows| && rows[i].id == id && rows[i].principal.Some? && rows[i].generation == g.value
  {
    if rows == [] then None
    else if rows[0].id == id && rows[0].principal.Some? then
      (if SystemOperator(rows[0].principal.value) then Some(rows[0].generation) else None)
    else ActiveRow(id, rows[1..])
  }

  function Advanced(p: Position): Position
    requires p.generation < U64_MAX
  {
    p.(generation := p.generation + 1)
  }

  function Imported(current: Image, m: Image, rows: seq<Row>, q: Request, gen: u64): Image
    requires current.position.generation < U64_MAX
  {
    var at := Advanced(current.position);
    m.(rows := rows, position := at, rootGeneration := current.rootGeneration, rootFailed := current.rootFailed,
       rootLockout := current.rootLockout,
       retries := current.retries + [Retry(q.id, q.digest, ActorId(q.actor), gen, at)])
  }

  /** What `maintenance_import` decides once the current image is captured. */
  function Plan(current: Image, q: Request): Outcome {
    var known := FindRetry(current.retries, q.id);
    if known.Some? then
      if known.value.actor == ActorId(q.actor) && known.value.actorGen == ActorGen(q.actor)
         && known.value.digest == q.digest
      then Answer(known.value.result) else Refuse(Conflict)
    else if q.expected != current.position then Refuse(Conflict)
    else if |current.retries| == RETRY_MAX then Refuse(Limit)
    else if !q.pinned then Refuse(Denied)
    else if q.archive.None? then Refuse(Corrupt)
    else if Foreign(current, q.archive.value, q.relocate) then Refuse(Conflict)
    else if AnyOversteps(q.actor, q.archive.value.rows) then Refuse(Denied)
    else match Merge(current.rows, q.archive.value.rows)
      case Clash => Refuse(Conflict)
      case Exhausted => Refuse(Limit)
      case Rows(rows) =>
        var gen := Recorded(q.actor, rows);
        if gen.None? then Refuse(Denied) else Commit(Imported(current, q.archive.value, rows, q, gen.value))
  }

  // ---------------------------------------------------------------- what a commit guarantees

  /** A live authority image as captured: rows by id, everything valid but the root left out. */
  predicate Live(m: Image) {
    && PositionValid(m.position) && m.rootGeneration != 0 && m.rootLockout <= I64_MAX
    && RowsValid(m.rows) && Ascending(m.rows) && |m.retries| <= RETRY_MAX && RetriesValid(m.retries, m.position)
  }

  predicate ProperRequest(q: Request) {
    && NonZero(q.id) && NonZero(q.digest)
    && (q.actor.Caller? ==> q.actor.id <= MAX_PRINCIPALS && q.actor.generation != 0)
    && (q.archive.Some? ==> ValidImage(q.archive.value, false) && Ascending(q.archive.value.rows))
  }

  lemma MergedRowValid(a: seq<Row>, b: seq<Row>, row: Row)
    requires RowsValid(a) && RowsValid(b) && Ascending(a) && Ascending(b) && Explained(a, b, row)
             && (HasId(a, row.id) || HasId(b, row.id))
    requires row.lockout <= I64_MAX
    ensures RowValid(row)
  {
    if HasId(a, row.id) { var i :| 0 <= i < |a| && a[i].id == row.id; }
    if HasId(b, row.id) { var j :| 0 <= j < |b| && b[j].id == row.id; }
  }

  lemma {:induction false} MergeLockouts(a: seq<Row>, b: seq<Row>, rows: seq<Row>)
    requires RowsValid(a) && RowsValid(b) && Merge(a, b) == Rows(rows)
    ensures forall i :: 0 <= i < |rows| ==> rows[i].lockout <= I64_MAX
    decreases |a| + |b|
  {
    if rows != [] {
      MergeStep(a, b);
      TurnMerges(a, b);
      MergeLockouts(NextA(a, b), NextB(a, b), rows[1..]);
    }
  }

  lemma MergedRowsValid(a: seq<Row>, b: seq<Row>, rows: seq<Row>)
    requires RowsValid(a) && RowsValid(b) && Ascending(a) && Ascending(b) && Merge(a, b) == Rows(rows)
    ensures RowsValid(rows) && Ascending(rows) && |rows| <= MAX_PRINCIPALS
  {
    MergeAscends(a, b, -1);
    MergeLockouts(a, b, rows);
    forall k: nat | k < |rows| ensures RowValid(rows[k]) {
      MergeExplained(a, b, rows, k);
      MergeIds(a, b, rows[k].id);
      assert HasId(rows, rows[k].id);
      MergedRowValid(a, b, rows[k]);
    }
    RowsFitTable(rows);
  }

  /** A live merged row is a row of the archive with the same principal. */
  lemma LiveFromArchive(a: seq<Row>, b: seq<Row>, rows: seq<Row>, k: nat) returns (x: nat)
    requires Ascending(a) && Ascending(b) && Merge(a, b) == Rows(rows) && k < |rows| && rows[k].principal.Some?
    ensures x < |b| && b[x].id == rows[k].id && b[x].principal == rows[k].principal
  {
    MergeExplained(a, b, rows, k);
    x :| 0 <= x < |b| && b[x].id == rows[k].id;
    assert Adopts(b[x], rows[k]);
  }

  /** Live names come only from the archive, where they are distinct. */
  lemma MergedNames(a: seq<Row>, b: seq<Row>, rows: seq<Row>)
    requires Ascending(a) && Ascending(b) && Merge(a, b) == Rows(rows) && DistinctNames(b)
    ensures DistinctNames(rows)
  {
    MergeAscends(a, b, -1);
    forall i: nat, j: nat | i < j < |rows| && rows[i].principal.Some? && rows[j].principal.Some?
      ensures Name(rows[i]) != Name(rows[j])
    {
      var x := LiveFromArchive(a, b, rows, i);
      var y := LiveFromArchive(a, b, rows, j);
      assert rows[i].id != rows[j].id && Name(b[x]) == Name(rows[i]) && Name(b[y]) == Name(rows[j]);
    }
  }

  lemma RecordedProper(a: Actor, rows: seq<Row>)
    requires RowsValid(rows) && Recorded(a, rows).Some? && (a.Caller? ==> a.id <= MAX_PRINCIPALS && a.generation != 0)
    ensures if ActorId(a) == NO_ACTOR then Recorded(a, rows).value == 0
            else Recorded(a, rows).value != 0 && ActorId(a) <= MAX_PRINCIPALS
  {}

  lemma RetriesExtended(retries: seq<Retry>, at: Position, t: Retry)
    requires RetriesValid(retries, at) && at.generation < U64_MAX && PositionValid(at)
    requires RetryValid(t, Advanced(at)) && (forall i :: 0 <= i < |retries| ==> retries[i].request != t.request)
    ensures RetriesValid(retries + [t], Advanced(at))
  {
    var out := retries + [t];
    forall i | 0 <= i < |out| ensures RetryValid(out[i], Advanced(at)) {
      if i < |retries| { assert RetryValid(retries[i], at); }
    }
  }

  /** A committed import is a valid image one generation later, its rows strictly ordered. */
  lemma ImportValid(current: Image, q: Request)
    requires Live(current) && ProperRequest(q) && Plan(current, q).Commit?
    ensures var i := Plan(current, q).image;
            ValidImage(i, false) && Live(i)
            && i.position == current.position.(generation := current.position.generation + 1)
  {
    var m := q.archive.value;
    var rows := Merge(current.rows, m.rows).rows;
    var i := Plan(current, q).image;
    MergedRowsValid(current.rows, m.rows, rows);
    MergedNames(current.rows, m.rows, rows);
    RecordedProper(q.actor, rows);
    var t := i.retries[|current.retries|];
    assert i.retries == current.retries + [t];
    RetriesExtended(current.retries, current.position, t);
  }

  /** What an import does to the rows: nobody is lost, every existing id moves to a later
      generation, no tombstone revives, lockouts, failures, token requirements and credentials
      never weaken, and an id that did not come in is retired. */
  lemma ImportRows(current: Image, q: Request, k: nat)
    requires Live(current) && ProperRequest(q) && Plan(current, q).Commit? && k < |current.rows|
    ensures var rows := Plan(current, q).image.rows;
            exists n :: 0 <= n < |rows| && Succeeds(current.rows[k], rows[n])
                        && (!HasId(q.archive.value.rows, rows[n].id) ==> rows[n].principal.None?)
  {
    var a, b := current.rows, q.archive.value.rows;
    var rows := Merge(a, b).rows;
    assert HasId(a, a[k].id);
    MergeIds(a, b, a[k].id);
    var n: nat :| n < |rows| && rows[n].id == a[k].id;
    MergeExplained(a, b, rows, n);
  }

  // ---------------------------------------------------------------- which requests are committed

  /** The caller delegates no more than it may, and demands of everyone the token it needs itself. */
  predicate Modest(a: Actor, rows: seq<Row>) {
    a.Caller? ==> forall i :: 0 <= i < |rows| && rows[i].principal.Some? ==>
      && (rows[i].principal.value.canCreate ==> a.delegates)
      && (a.tokenRequired ==> rows[i].principal.value.tokenRequired)
  }

  /** The archive holds the caller as an operator of the system tenant with every clearance. */
  predicate StaysOperator(id: u32, rows: seq<Row>) {
    exists i :: 0 <= i < |rows| && rows[i].id == id && rows[i].principal.Some?
                && var u := rows[i].principal.value;
                   u.role == ROLE_OPERATOR && u.tenant == TENANT_SYSTEM && u.classification == U16_MAX
                   && u.sci == U16_MAX
  }

  /** What a request that is not on record needs to be committed. */
  predicate Importable(current: Image, q: Request) {
    && q.expected == current.position && current.position.generation < U64_MAX && |current.retries| != RETRY_MAX
    && q.pinned && q.archive.Some?
    && var m := q.archive.value;
       && m.root.None? && m.position.history == current.position.history && m.position.epoch == current.position.epoch
       && (q.relocate || m.position.node == current.position.node)
       && m.position.generation >= current.position.generation
       && Modest(q.actor, m.rows) && Mergeable(current.rows, m.rows)
       && (q.actor.Caller? && q.actor.id != 0 && q.actor.id != NO_ACTOR ==> StaysOperator(q.actor.id, m.rows))
  }

  /** The committed row looked up is the one with the id, if it is a live system operator. */
  lemma {:induction false} ActiveRowFinds(id: u32, rows: seq<Row>, k: nat)
    requires Ascending(rows) && k < |rows| && rows[k].id == id
    ensures ActiveRow(id, rows) ==
      if rows[k].principal.Some? && SystemOperator(rows[k].principal.value) then Some(rows[k].generation) else None
  {
    if k > 0 {
      assert rows[0].id < rows[k].id;
      ActiveRowFinds(id, rows[1..], k - 1);
    } else if rows[0].principal.None? {
      ActiveRowMissing(id, rows[1..]);
    }
  }

  lemma {:induction false} ActiveRowMissing(id: u32, rows: seq<Row>)
    requires forall i :: 0 <= i < |rows| ==> rows[i].id != id
    ensures ActiveRow(id, rows).None?
  {
    if rows != [] { ActiveRowMissing(id, rows[1..]); }
  }

  /** The merge keeps the caller an operator exactly if the archive does. */
  lemma OperatorByArchive(a: seq<Row>, b: seq<Row>, rows: seq<Row>, id: u32)
    requires Ascending(a) && Ascending(b) && Merge(a, b) == Rows(rows)
    ensures ActiveRow(id, rows).Some? <==> StaysOperator(id, b)
  {
    MergeAscends(a, b, -1);
    MergeIds(a, b, id);
    if HasId(rows, id) {
      var k: nat :| k < |rows| && rows[k].id == id;
      ActiveRowFinds(id, rows, k);
      MergeExplained(a, b, rows, k);
      forall j | 0 <= j < |b| && b[j].id == id ensures Adopts(b[j], rows[k]) {}
    } else {
      ActiveRowMissing(id, rows);
    }
  }

  lemma ModestMeans(a: Actor, rows: seq<Row>)
    ensures AnyOversteps(a, rows) <==> !Modest(a, rows)
  {
    if !Modest(a, rows) {
      var i :| 0 <= i < |rows| && rows[i].principal.Some?
               && !((rows[i].principal.value.canCreate ==> a.delegates)
                    && (a.tokenRequired ==> rows[i].principal.value.tokenRequired));
      assert Oversteps(a, rows[i]);
    }
    if AnyOversteps(a, rows) {
      var i :| 0 <= i < |rows| && Oversteps(a, rows[i]);
      assert rows[i].principal.Some?;
    }
  }

  /** A request that is not on record is committed exactly if it is importable. */
  lemma CommitsIff(current: Image, q: Request)
    requires Live(current) && ProperRequest(q) && forall i :: 0 <= i < |current.retries| ==>
      current.retries[i].request != q.id
    ensures Plan(current, q).Commit? <==> Importable(current, q)
    ensures !Plan(current, q).Answer?
  {
    if q.archive.Some? {
      var m := q.archive.value;
      ModestMeans(q.actor, m.rows);
      MergeSucceeds(current.rows, m.rows);
      if Merge(current.rows, m.rows).Rows? && q.actor.Caller? {
        OperatorByArchive(current.rows, m.rows, Merge(current.rows, m.rows).rows, q.actor.id);
      }
    }
  }

  /** A request that is on record is answered exactly if it comes from the recorded caller with the
      recorded contents, and is refused as a conflict otherwise. */
  lemma OnRecordAnswers(current: Image, q: Request, k: nat)
    requires k < |current.retries| && current.retries[k].request == q.id
    requires forall i :: 0 <= i < k ==> current.retries[i].request != q.id
    ensures var t := current.retries[k];
            Plan(current, q) ==
              if t.actor == (if q.actor.Caller? then q.actor.id else NO_ACTOR) && t.digest == q.digest
                 && t.actorGen == (if q.actor.Caller? then q.actor.generation else 0)
              then Answer(t.result) else Refuse(Conflict)
  {
    FindsFirst(current.retries, q.id, k);
  }

  lemma {:induction false} FindsFirst(retries: seq<Retry>, id: Id16, k: nat)
    requires k < |retries| && retries[k].request == id && forall i :: 0 <= i < k ==> retries[i].request != id
    ensures FindRetry(retries, id) == Some(retries[k])
  {
    if k > 0 { FindsFirst(retries[1..], id, k - 1); }
  }

  /** A committed import keeps the live root's generation, failures and lockout, and adds one retry
      record: this request, its contents and its caller, with the new position. */
  lemma ImportKeepsRoot(current: Image, q: Request)
    requires Plan(current, q).Commit?
    ensures var i := Plan(current, q).image;
            && i.rootGeneration == current.rootGeneration && i.rootFailed == current.rootFailed
            && i.rootLockout == current.rootLockout
            && |i.retries| == |current.retries| + 1 && i.retries[..|current.retries|] == current.retries
            && var t := i.retries[|current.retries|];
               && t.request == q.id && t.digest == q.digest && t.result == i.position
               && t.actor == (if q.actor.Caller? then q.actor.id else NO_ACTOR)
               && (q.actor.Recovery? ==> t.actorGen == 0)
               && (ActorId(q.actor) == 0 ==> t.actorGen == q.actor.generation)
  {}

  // ---------------------------------------------------------------- replay

  lemma {:induction false} FindPrefix(retries: seq<Retry>, more: seq<Retry>, id: Id16)
    requires FindRetry(retries, id).Some?
    ensures FindRetry(retries + more, id) == FindRetry(retries, id)
  {
    if retries[0].request != id {
      FindPrefix(retries[1..], more, id);
    }
    assert (retries + more)[0] == retries[0];
    assert (retries + more)[1..] == retries[1..] + more;
  }

  lemma {:induction false} FindLast(retries: seq<Retry>, t: Retry)
    requires forall i :: 0 <= i < |retries| ==> retries[i].request != t.request
    ensures FindRetry(retries + [t], t.request) == Some(t)
  {
    if retries != [] {
      FindLast(retries[1..], t);
      assert (retries + [t])[0] == retries[0];
      assert (retries + [t])[1..] == retries[1..] + [t];
    }
  }

  /** The identity under which a committed request may be repeated. */
  function Again(q: Request, gen: u64): Request {
    if q.actor.Caller? then q.(actor := q.actor.(generation := gen)) else q
  }

  /** The records from which a request was answered or committed: they hold its record, with the
      answer that was given. */
  predicate OnRecord(q: Request, retries: seq<Retry>, position: Position) {
    var known := FindRetry(retries, q.id);
    known.Some? && known.value.result == position && known.value.actor == ActorId(q.actor)
    && known.value.digest == q.digest
  }

  lemma AnsweredAgain(start: Image, q: Request, retries: seq<Retry>, position: Position)
    requires match Plan(start, q)
             case Answer(p) => position == p && retries == start.retries
             case Refuse(_) => false
             case Commit(i) => position == i.position && retries == i.retries
    ensures OnRecord(q, retries, position)
  {
    if Plan(start, q).Commit? {
      var t := retries[|start.retries|];
      FindLast(start.retries, t);
      assert retries == start.retries + [t];
    }
  }

  /** As long as records are only added, repeating the request under the identity on record is
      planned as the same answer. */
  lemma RecordLasts(q: Request, retries: seq<Retry>, later: Image, position: Position)
    requires OnRecord(q, retries, position) && retries <= later.retries && RetriesValid(later.retries, later.position)
             && ProperRequest(q)
    ensures OnRecord(q, later.retries, position)
    ensures var again := Again(q, FindRetry(later.retries, q.id).value.actorGen);
            ProperRequest(again) && Plan(later, again) == Answer(position)
  {
    var more := later.retries[|retries|..];
    assert later.retries == retries + more;
    FindPrefix(retries, more, q.id);
    var t := FindRetry(later.retries, q.id).value;
    var i :| 0 <= i < |later.retries| && later.retries[i] == t;
    assert RetryValid(later.retries[i], later.position);
  }

  /** The recorded identity is the caller's committed one, so the caller can log in again and
      repeat the request. */
  lemma RecordedIdentity(current: Image, q: Request)
    requires Plan(current, q).Commit? && q.actor.Caller? && q.actor.id != 0 && q.actor.id != NO_ACTOR
    ensures var i := Plan(current, q).image;
            exists n :: 0 <= n < |i.rows| && i.rows[n].id == q.actor.id && i.rows[n].principal.Some?
                        && i.rows[n].generation == i.retries[|i.retries| - 1].actorGen
  {}

  // ---------------------------------------------------------------- the procedure

  method LookupRetry(retries: seq<Retry>, id: Id16) returns (r: Option<Retry>)
    ensures r == FindRetry(retries, id)
  {
    var i := 0;
    assert retries[0..] == retries;
    while i < |retries|
      invariant 0 <= i <= |retries| && FindRetry(retries[i..], id) == FindRetry(retries, id)
    {
      if retries[i].request == id { return Some(retries[i]); }
      assert retries[i..][1..] == retries[i + 1..];
      i := i + 1;
    }
    return None;
  }

  method CallerOversteps(a: Actor, rows: seq<Row>) returns (b: bool)
    ensures b == AnyOversteps(a, rows)
  {
    var i := 0;
    while i < |rows|
      invariant 0 <= i <= |rows| && forall k :: 0 <= k < i ==> !Oversteps(a, rows[k])
    {
      if Oversteps(a, rows[i]) { return true; }
      i := i + 1;
    }
    return false;
  }

  method CommittedGeneration(a: Actor, rows: seq<Row>) returns (g: Option<u64>)
    ensures g == Recorded(a, rows)
  {
    if ActorId(a) == 0 || ActorId(a) == NO_ACTOR { return Some(ActorGen(a)); }
    var i := 0;
    assert rows[0..] == rows;
    while i < |rows|
      invariant 0 <= i <= |rows| && ActiveRow(a.id, rows[i..]) == ActiveRow(a.id, rows)
    {
      if rows[i].id == a.id && rows[i].principal.Some? {
        return if SystemOperator(rows[i].principal.value) then Some(rows[i].generation) else None;
      }
      assert rows[i..][1..] == rows[i + 1..];
      i := i + 1;
    }
    return None;
  }

  /** `maintenance_import` up to publication. */
  method PlanImport(current: Image, q: Request) returns (o: Outcome)
    requires Live(current) && ProperRequest(q)
    ensures o == Plan(current, q)
    ensures (forall i :: 0 <= i < |current.retries| ==> current.retries[i].request != q.id) ==>
      (o.Commit? <==> Importable(current, q)) && !o.Answer?
  {
    if forall i :: 0 <= i < |current.retries| ==> current.retries[i].request != q.id { CommitsIff(current, q); }
    var known := LookupRetry(current.retries, q.id);
    if known.Some? {
      if known.value.actor != ActorId(q.actor) || known.value.actorGen != ActorGen(q.actor)
         || known.value.digest != q.digest {
        return Refuse(Conflict);
      }
      return Answer(known.value.result);
    }
    if q.expected != current.position { return Refuse(Conflict); }
    if |current.retries| == RETRY_MAX { return Refuse(Limit); }
    if !q.pinned { return Refuse(Denied); }
    if q.archive.None? { return Refuse(Corrupt); }
    var m := q.archive.value;
    if Foreign(current, m, q.relocate) { return Refuse(Conflict); }
    var oversteps := CallerOversteps(q.actor, m.rows);
    if oversteps { return Refuse(Denied); }
    var merged := MergeRows(current.rows, m.rows);
    if merged.Clash? { return Refuse(Conflict); }
    if merged.Exhausted? { return Refuse(Limit); }
    var gen := CommittedGeneration(q.actor, merged.rows);
    if gen.None? { return Refuse(Denied); }
    return Commit(Imported(current, m, merged.rows, q, gen.value));
  }
}
