/** Importing another image into a live authority: the two-pointer merge of rows
    (core/qihse_auth_maintenance.c). */
module ImportMerge {
  import opened Prelude
  import opened Principal
  import opened AuthImage

  datatype Merged = Rows(rows: seq<Row>) | Clash | Exhausted

  /** A tombstone comes back to life, or a live principal loses its token or credential. */
  predicate Weakens(prior: Row, incoming: Row) {
    incoming.principal.Some? &&
    (prior.principal.None?
     || (prior.principal.value.tokenRequired && !incoming.principal.value.tokenRequired)
     || (CStr(prior.principal.value.credential) != []
         && CStr(prior.principal.value.credential) != CStr(incoming.principal.value.credential)))
  }

  function Max(a: nat, b: nat): nat { if a > b then a else b }

  /** The row that replaces `prior`: a later generation, never a shorter lockout or fewer failures. */
  function Bump(prior: Row, row: Row): Option<Row> {
    var base := Max(prior.generation, row.generation);
    if base == U64_MAX then None
    else Some(row.(generation := base + 1, lockout := Max(prior.lockout, row.lockout),
                   failed := Max(prior.failed, row.failed)))
  }

  function Cons(row: Option<Row>, rest: Merged): Merged {
    if row.None? then Exhausted else if rest.Rows? then Rows([row.value] + rest.rows) else rest
  }

  /** The merge, front to back; the first failure decides. */
  function Merge(a: seq<Row>, b: seq<Row>): Merged
    decreases |a| + |b|
  {
    if a == [] && b == [] then Rows([])
    else if b == [] || (a != [] && a[0].id < b[0].id) then Cons(Bump(a[0], a[0].(principal := None)), Merge(a[1..], b))
    else if a == [] || b[0].id < a[0].id then Cons(Some(b[0]), Merge(a, b[1..]))
    else if Weakens(a[0], b[0]) then Clash
    else Cons(Bump(a[0], b[0]), Merge(a[1..], b[1..]))
  }

  // ---------------------------------------------------------------- what the merge means

  predicate HasId(rows: seq<Row>, id: nat) { exists i :: 0 <= i < |rows| && rows[i].id == id }

  /** How the merged row of an old one relates to it. */
  predicate Succeeds(prior: Row, row: Row) {
    && row.id == prior.id && row.generation > prior.generation && row.lockout >= prior.lockout
    && row.failed >= prior.failed
    && (prior.principal.None? ==> row.principal.None?)
    && (prior.principal.Some? && row.principal.Some? ==>
          (prior.principal.value.tokenRequired ==> row.principal.value.tokenRequired)
          && (CStr(prior.principal.value.credential) != [] ==>
              CStr(row.principal.value.credential) == CStr(prior.principal.value.credential)))
  }

  /** How the merged row of an incoming one relates to it: the incoming principal is taken over. */
  predicate Adopts(incoming: Row, row: Row) {
    row.id == incoming.id && row.principal == incoming.principal && row.generation >= incoming.generation
  }

  lemma {:induction false} MergeIds(a: seq<Row>, b: seq<Row>, id: nat)
    requires Merge(a, b).Rows?
    ensures HasId(Merge(a, b).rows, id) <==> HasId(a, id) || HasId(b, id)
    decreases |a| + |b|
  {
    if a == [] && b == [] {
    } else if b == [] || (a != [] && a[0].id < b[0].id) {
      MergeIds(a[1..], b, id);
      HasIdCons(a, id);
      HasIdCons(Merge(a, b).rows, id);
      assert Merge(a, b).rows[1..] == Merge(a[1..], b).rows;
    } else if a == [] || b[0].id < a[0].id {
      MergeIds(a, b[1..], id);
      HasIdCons(b, id);
      HasIdCons(Merge(a, b).rows, id);
      assert Merge(a, b).rows[1..] == Merge(a, b[1..]).rows;
    } else {
      MergeIds(a[1..], b[1..], id);
      HasIdCons(a, id);
      HasIdCons(b, id);
      HasIdCons(Merge(a, b).rows, id);
      assert Merge(a, b).rows[1..] == Merge(a[1..], b[1..]).rows;
    }
  }

  lemma HasIdCons(rows: seq<Row>, id: nat)
    requires rows != []
    ensures HasId(rows, id) <==> rows[0].id == id || HasId(rows[1..], id)
  {
    if HasId(rows, id) {
      var i :| 0 <= i < |rows| && rows[i].id == id;
      if i > 0 { assert rows[1..][i - 1].id == id; }
    }
    if HasId(rows[1..], id) {
      var i :| 0 <= i < |rows[1..]| && rows[1..][i].id == id;
      assert rows[i + 1].id == id;
    }
  }

  /** All ids lie above a bound. */
  predicate Above(rows: seq<Row>, lo: int) { forall i :: 0 <= i < |rows| ==> rows[i].id > lo }

  lemma AscendingCons(row: Row, rows: seq<Row>)
    requires Ascending(rows) && Above(rows, row.id)
    ensures Ascending([row] + rows)
  {}

  lemma AscendingTail(rows: seq<Row>)
    requires Ascending(rows) && rows != []
    ensures Ascending(rows[1..]) && Above(rows[1..], rows[0].id)
  {}

  /** The merge of two ascending lists is ascending. */
  lemma {:induction false} MergeAscends(a: seq<Row>, b: seq<Row>, lo: int)
    requires Ascending(a) && Ascending(b) && Above(a, lo) && Above(b, lo) && Merge(a, b).Rows?
    ensures Ascending(Merge(a, b).rows) && Above(Merge(a, b).rows, lo)
    decreases |a| + |b|
  {
    if a == [] && b == [] {
    } else if b == [] || (a != [] && a[0].id < b[0].id) {
      AscendingTail(a);
      MergeAscends(a[1..], b, a[0].id);
      AscendingCons(Merge(a, b).rows[0], Merge(a[1..], b).rows);
    } else if a == [] || b[0].id < a[0].id {
      AscendingTail(b);
      MergeAscends(a, b[1..], b[0].id);
      AscendingCons(Merge(a, b).rows[0], Merge(a, b[1..]).rows);
    } else {
      AscendingTail(a);
      AscendingTail(b);
      MergeAscends(a[1..], b[1..], a[0].id);
      AscendingCons(Merge(a, b).rows[0], Merge(a[1..], b[1..]).rows);
    }
  }

  /** The merged row of an old and an incoming one: the incoming principal, one generation after
      the later of the two, the longer lockout and the larger count of failures. */
  predicate Combines(prior: Row, incoming: Row, row: Row) {
    && row.id == prior.id && row.principal == incoming.principal
    && row.generation == 1 + (if prior.generation > incoming.generation then prior.generation else incoming.generation)
    && row.lockout == (if prior.lockout > incoming.lockout then prior.lockout else incoming.lockout)
    && row.failed == (if prior.failed > incoming.failed then prior.failed else incoming.failed)
  }

  /** The row of a principal that did not come in: a tombstone one generation on. */
  predicate Retires(prior: Row, row: Row) {
    && row.id == prior.id && row.principal.None? && row.generation == prior.generation + 1
    && row.lockout == prior.lockout && row.failed == prior.failed
  }

  /** Origin of every merged row: it succeeds the old row of its id and adopts the incoming
      one; an id that did not come in is left as a tombstone. */
  predicate Explained(a: seq<Row>, b: seq<Row>, row: Row) {
    && (forall i, j :: 0 <= i < |a| && 0 <= j < |b| && a[i].id == row.id && b[j].id == row.id ==>
          Combines(a[i], b[j], row))
    && (forall i :: 0 <= i < |a| && a[i].id == row.id && !HasId(b, row.id) ==> Retires(a[i], row))
    && (forall i :: 0 <= i < |a| && a[i].id == row.id ==> Succeeds(a[i], row))
    && (forall j :: 0 <= j < |b| && b[j].id == row.id ==> Adopts(b[j], row))
    && (!HasId(b, row.id) ==> row.principal.None?)
    && (!HasId(a, row.id) ==> row in b)
  }

  lemma BumpSucceeds(prior: Row, incoming: Row)
    requires prior.id == incoming.id && !Weakens(prior, incoming) && Bump(prior, incoming).Some?
    ensures Succeeds(prior, Bump(prior, incoming).value) && Adopts(incoming, Bump(prior, incoming).value)
  {}

  lemma ExplainedAfter(a: seq<Row>, b: seq<Row>, a': seq<Row>, b': seq<Row>, row: Row)
    requires Explained(a', b', row)
    requires a' == a || (a != [] && a' == a[1..] && a[0].id != row.id)
    requires b' == b || (b != [] && b' == b[1..] && b[0].id != row.id)
    ensures Explained(a, b, row)
  {
    if a != [] { HasIdCons(a, row.id); }
    if b != [] { HasIdCons(b, row.id); }
    forall i | 0 <= i < |a| && a[i].id == row.id
      ensures Succeeds(a[i], row) && (!HasId(b, row.id) ==> Retires(a[i], row))
      ensures forall j :: 0 <= j < |b| && b[j].id == row.id ==> Combines(a[i], b[j], row)
    {
      if a' != a { assert a[i] == a'[i - 1]; }
      forall j | 0 <= j < |b| && b[j].id == row.id ensures Combines(a[i], b[j], row) {
        if b' != b { assert b[j] == b'[j - 1]; }
      }
    }
    forall j | 0 <= j < |b| && b[j].id == row.id ensures Adopts(b[j], row) {
      if b' != b { assert b[j] == b'[j - 1]; }
    }
  }

  lemma OnlyFirst(rows: seq<Row>, id: nat)
    requires Ascending(rows) && (rows == [] || rows[0].id >= id)
    ensures forall i :: 0 <= i < |rows| && rows[i].id == id ==> i == 0
    ensures HasId(rows, id) <==> rows != [] && rows[0].id == id
  {}

  lemma HeadExplained(a: seq<Row>, b: seq<Row>)
    requires Ascending(a) && Ascending(b) && Merge(a, b).Rows? && Merge(a, b).rows != []
    ensures Explained(a, b, Merge(a, b).rows[0])
  {
    var row := Merge(a, b).rows[0];
    OnlyFirst(a, row.id);
    OnlyFirst(b, row.id);
    if a != [] && b != [] && a[0].id == b[0].id { BumpSucceeds(a[0], b[0]); }
  }

  function NextA(a: seq<Row>, b: seq<Row>): seq<Row> {
    if a != [] && (b == [] || a[0].id <= b[0].id) then a[1..] else a
  }

  function NextB(a: seq<Row>, b: seq<Row>): seq<Row> {
    if b != [] && (a == [] || b[0].id <= a[0].id) then b[1..] else b
  }

  /** One turn of the loop: the row to append, or why the merge fails. */
  function Turn(a: seq<Row>, b: seq<Row>): Merged
    requires a != [] || b != []
  {
    var row := if b == [] || (a != [] && a[0].id < b[0].id) then Bump(a[0], a[0].(principal := None))
               else if a == [] || b[0].id < a[0].id then Some(b[0])
               else Bump(a[0], b[0]);
    if a != [] && b != [] && a[0].id == b[0].id && Weakens(a[0], b[0]) then Clash
    else if row.None? then Exhausted
    else Rows([row.value])
  }

  lemma TurnMerges(a: seq<Row>, b: seq<Row>)
    requires a != [] || b != []
    ensures !Turn(a, b).Rows? ==> Merge(a, b) == Turn(a, b)
    ensures Turn(a, b).Rows? ==> Merge(a, b) == Cons(Some(Turn(a, b).rows[0]), Merge(NextA(a, b), NextB(a, b)))
  {}

  lemma TurnId(a: seq<Row>, b: seq<Row>)
    requires (a != [] || b != []) && Turn(a, b).Rows?
    ensures NextA(a, b) != a ==> a[0].id == Turn(a, b).rows[0].id
    ensures NextB(a, b) != b ==> b[0].id == Turn(a, b).rows[0].id
    ensures |NextA(a, b)| + |NextB(a, b)| < |a| + |b|
    ensures (a != [] && a[0].id == Turn(a, b).rows[0].id) || (b != [] && b[0].id == Turn(a, b).rows[0].id)
  {}

  lemma MergeStep(a: seq<Row>, b: seq<Row>)
    requires Merge(a, b).Rows? && Merge(a, b).rows != []
    ensures Merge(NextA(a, b), NextB(a, b)).Rows?
    ensures Merge(a, b).rows[1..] == Merge(NextA(a, b), NextB(a, b)).rows
    ensures |NextA(a, b)| + |NextB(a, b)| < |a| + |b|
    ensures NextA(a, b) != a ==> a[0].id == Merge(a, b).rows[0].id
    ensures NextB(a, b) != b ==> b[0].id == Merge(a, b).rows[0].id
  {
    TurnMerges(a, b);
    TurnId(a, b);
  }

  lemma NextAscends(a: seq<Row>, b: seq<Row>)
    requires Ascending(a) && Ascending(b)
    ensures Ascending(NextA(a, b)) && Ascending(NextB(a, b))
  {}

  lemma LaterRow(rows: seq<Row>, rest: seq<Row>, a: seq<Row>, b: seq<Row>, a': seq<Row>, b': seq<Row>, k: nat)
    requires Ascending(rows) && 0 < k < |rows| && rows[1..] == rest && Explained(a', b', rest[k - 1])
    requires a' == a || (a != [] && a' == a[1..] && a[0].id == rows[0].id)
    requires b' == b || (b != [] && b' == b[1..] && b[0].id == rows[0].id)
    ensures Explained(a, b, rows[k])
  {
    assert rows[k] == rest[k - 1] && rows[0].id < rows[k].id;
    ExplainedAfter(a, b, a', b', rows[k]);
  }

  /** Every merged row is accounted for. */
  lemma {:induction false} MergeExplained(a: seq<Row>, b: seq<Row>, rows: seq<Row>, k: nat)
    requires Ascending(a) && Ascending(b) && Merge(a, b) == Rows(rows) && k < |rows|
    ensures Explained(a, b, rows[k])
    decreases |a| + |b|
  {
    if k == 0 {
      HeadExplained(a, b);
    } else {
      MergeAscends(a, b, -1);
      MergeStep(a, b);
      NextAscends(a, b);
      MergeExplained(NextA(a, b), NextB(a, b), rows[1..], k - 1);
      LaterRow(rows, rows[1..], a, b, NextA(a, b), NextB(a, b), k);
    }
  }

  // ---------------------------------------------------------------- when it succeeds

  /** No tombstone revives, and a live principal keeps its token requirement and its credential. */
  predicate Upholds(prior: Row, incoming: Row) {
    incoming.principal.Some? ==>
      && prior.principal.Some?
      && (prior.principal.value.tokenRequired ==> incoming.principal.value.tokenRequired)
      && (CStr(prior.principal.value.credential) == []
          || CStr(incoming.principal.value.credential) == CStr(prior.principal.value.credential))
  }

  /** Nothing is weakened and no generation is used up. */
  predicate Mergeable(a: seq<Row>, b: seq<Row>) {
    && (forall i :: 0 <= i < |a| ==> a[i].generation < U64_MAX)
    && (forall i, j :: 0 <= i < |a| && 0 <= j < |b| && a[i].id == b[j].id ==>
        Upholds(a[i], b[j]) && b[j].generation < U64_MAX)
  }

  lemma MergeableParts(a: seq<Row>, b: seq<Row>)
    ensures a != [] && Mergeable(a, b) ==> Mergeable(a[1..], b)
    ensures b != [] && Mergeable(a, b) ==> Mergeable(a, b[1..])
  {}

  lemma MergeableHead(a: seq<Row>, b: seq<Row>)
    requires Ascending(a) && Ascending(b)
    ensures a != [] && (b == [] || a[0].id < b[0].id) && a[0].generation < U64_MAX && Mergeable(a[1..], b) ==>
      Mergeable(a, b)
    ensures b != [] && (a == [] || b[0].id < a[0].id) && Mergeable(a, b[1..]) ==> Mergeable(a, b)
    ensures (a != [] && b != [] && a[0].id == b[0].id && !Weakens(a[0], b[0]) && a[0].generation < U64_MAX
             && b[0].generation < U64_MAX && Mergeable(a[1..], b[1..])) ==> Mergeable(a, b)
  {}

  /** The merge succeeds exactly when it may. */
  lemma {:induction false} MergeSucceeds(a: seq<Row>, b: seq<Row>)
    requires Ascending(a) && Ascending(b)
    ensures Merge(a, b).Rows? <==> Mergeable(a, b)
    decreases |a| + |b|
  {
    MergeableParts(a, b);
    MergeableHead(a, b);
    if a == [] && b == [] {
    } else if b == [] || (a != [] && a[0].id < b[0].id) {
      MergeSucceeds(a[1..], b);
    } else if a == [] || b[0].id < a[0].id {
      MergeSucceeds(a, b[1..]);
    } else {
      MergeableParts(a[1..], b);
      MergeSucceeds(a[1..], b[1..]);
    }
  }

  // ---------------------------------------------------------------- capacity

  predicate IdsInRange(rows: seq<Row>) { forall i :: 0 <= i < |rows| ==> 1 <= rows[i].id <= MAX_PRINCIPALS }

  lemma {:induction false} AscendingBounded(rows: seq<Row>, n: nat)
    requires Ascending(rows) && IdsInRange(rows) && n < |rows|
    ensures rows[n].id >= n + 1
  {
    if n > 0 { AscendingBounded(rows, n - 1); }
  }

  /** Distinct ids below 65536 never fill more than the row table. */
  lemma RowsFitTable(rows: seq<Row>)
    requires Ascending(rows) && IdsInRange(rows)
    ensures |rows| <= MAX_PRINCIPALS
  {
    if rows != [] { AscendingBounded(rows, |rows| - 1); }
  }

  // ---------------------------------------------------------------- the loop

  function Join(done: seq<Row>, rest: Merged): Merged {
    if rest.Rows? then Rows(done + rest.rows) else rest
  }

  /** Merged rows all lie below what is left on either side. */
  predicate Below(done: seq<Row>, rest: seq<Row>) {
    forall i, j :: 0 <= i < |done| && 0 <= j < |rest| ==> done[i].id < rest[j].id
  }

  lemma Extend(done: seq<Row>, row: Row)
    requires Ascending(done) && IdsInRange(done) && (forall i :: 0 <= i < |done| ==> done[i].id < row.id)
             && 1 <= row.id <= MAX_PRINCIPALS
    ensures Ascending(done + [row]) && IdsInRange(done + [row]) && |done| < MAX_PRINCIPALS
  {
    RowsFitTable(done + [row]);
  }

  lemma JoinCons(done: seq<Row>, row: Row, rest: Merged)
    ensures Join(done, Cons(Some(row), rest)) == Join(done + [row], rest)
  {
    if rest.Rows? { assert done + ([row] + rest.rows) == done + [row] + rest.rows; }
  }

  /** The body of the loop at positions `a` and `b`. */
  method NextRow(current: seq<Row>, a: nat, image: seq<Row>, b: nat) returns (turn: Merged, takeA: bool, takeB: bool)
    requires a <= |current| && b <= |image| && (a < |current| || b < |image|)
    ensures turn == Turn(current[a..], image[b..])
    ensures (takeA ==> a < |current|) && NextA(current[a..], image[b..]) == current[if takeA then a + 1 else a..]
    ensures (takeB ==> b < |image|) && NextB(current[a..], image[b..]) == image[if takeB then b + 1 else b..]
    ensures takeA || takeB
  {
    takeA := a < |current| && (b == |image| || current[a].id <= image[b].id);
    takeB := b < |image| && (a == |current| || image[b].id <= current[a].id);
    assert a < |current| ==> current[a..][1..] == current[a + 1..];
    assert b < |image| ==> image[b..][1..] == image[b + 1..];
    var row: Row;
    if takeA && !takeB {
      row := current[a].(principal := None);
    } else {
      if takeA && Weakens(current[a], image[b]) { return Clash, takeA, takeB; }
      row := image[b];
    }
    if takeA {
      var bumped := Bump(current[a], row);
      if bumped.None? { return Exhausted, takeA, takeB; }
      row := bumped.value;
    }
    turn := Rows([row]);
  }

  /** What the loop keeps. */
  ghost predicate Merging(current: seq<Row>, image: seq<Row>, merged: seq<Row>, x: seq<Row>, y: seq<Row>) {
    && Ascending(x) && Ascending(y) && IdsInRange(x) && IdsInRange(y)
    && Ascending(merged) && IdsInRange(merged) && Below(merged, x) && Below(merged, y)
    && Merge(current, image) == Join(merged, Merge(x, y))
  }

  /** One row more, and there is always room for it. */
  lemma MergingStep(current: seq<Row>, image: seq<Row>, merged: seq<Row>, x: seq<Row>, y: seq<Row>)
    requires Merging(current, image, merged, x, y) && (x != [] || y != []) && Turn(x, y).Rows?
    ensures |merged| < MAX_PRINCIPALS
    ensures Merging(current, image, merged + Turn(x, y).rows, NextA(x, y), NextB(x, y))
  {
    var row := Turn(x, y).rows[0];
    TurnMerges(x, y);
    TurnId(x, y);
    Extend(merged, row);
    JoinCons(merged, row, Merge(NextA(x, y), NextB(x, y)));
    StillBelow(merged, row, x, y);
  }

  lemma NextAbove(x: seq<Row>, y: seq<Row>)
    requires (x != [] || y != []) && Turn(x, y).Rows? && Ascending(x) && Ascending(y)
    ensures Above(NextA(x, y), Turn(x, y).rows[0].id) && Above(NextB(x, y), Turn(x, y).rows[0].id)
  {
    TurnId(x, y);
  }

  lemma BelowSuffix(merged: seq<Row>, row: Row, x: seq<Row>, x': seq<Row>)
    requires Below(merged, x) && (x' == x || (x != [] && x' == x[1..])) && Above(x', row.id) && IdsInRange(x)
    ensures Below(merged + [row], x') && IdsInRange(x')
  {}

  lemma StillBelow(merged: seq<Row>, row: Row, x: seq<Row>, y: seq<Row>)
    requires (x != [] || y != []) && Turn(x, y).Rows? && row == Turn(x, y).rows[0]
    requires Ascending(x) && Ascending(y) && Below(merged, x) && Below(merged, y) && IdsInRange(x) && IdsInRange(y)
    ensures Below(merged + [row], NextA(x, y)) && Below(merged + [row], NextB(x, y))
    ensures Ascending(NextA(x, y)) && Ascending(NextB(x, y)) && IdsInRange(NextA(x, y)) && IdsInRange(NextB(x, y))
  {
    NextAbove(x, y);
    NextAscends(x, y);
    BelowSuffix(merged, row, x, NextA(x, y));
    BelowSuffix(merged, row, y, NextB(x, y));
  }

  /** The merge loop of `maintenance_import` over rows sorted by id; the output table never runs
      out of room. */
  method MergeRows(current: seq<Row>, image: seq<Row>) returns (m: Merged)
    requires Ascending(current) && Ascending(image) && IdsInRange(current) && IdsInRange(image)
    ensures m == Merge(current, image)
  {
    var a, b: nat := 0, 0;
    var merged: seq<Row> := [];
    assert current[0..] == current && image[0..] == image;
    while a < |current| || b < |image|
      invariant 0 <= a <= |current| && 0 <= b <= |image|
      invariant Merging(current, image, merged, current[a..], image[b..])
      decreases |current| - a + |image| - b
    {
      TurnMerges(current[a..], image[b..]);
      var turn, takeA, takeB := NextRow(current, a, image, b);
      if !turn.Rows? { return turn; }
      MergingStep(current, image, merged, current[a..], image[b..]);
      assert |merged| < MAX_PRINCIPALS;
      merged := merged + turn.rows;
      a, b := if takeA then a + 1 else a, if takeB then b + 1 else b;
    }
    assert merged + [] == merged;
    return Rows(merged);
  }
}
