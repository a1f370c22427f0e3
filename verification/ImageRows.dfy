/** Row and retry lists of an authority image as bytes (core/qihse_auth_archive.c). */
module ImageRows {
  import opened Prelude
  import opened ByteCodec
  import opened Principal
  import opened AuthImage
  import opened ImageBlocks
  import opened ImageCodec

  predicate RowClean(x: Row) { x.principal.Some? ==> Clean(x.principal.value, false) }

  predicate RowsClean(xs: seq<Row>) { forall i :: 0 <= i < |xs| ==> RowClean(xs[i]) }

  predicate RowFits(x: Row) { x.principal.Some? ==> |x.principal.value.acls| <= ACL_MAX }

  predicate RowsFit(xs: seq<Row>) { forall i :: 0 <= i < |xs| ==> RowFits(xs[i]) }

  function HeadOf(x: Row): RowHead {
    RowHead(x.id, if x.principal.Some? then 1 else 0, x.generation, x.failed, x.lockout)
  }

  function EncTail(p: Option<User>): Bytes
    requires p.Some? ==> |p.value.acls| <= ACL_MAX
  {
    if p.Some? then EncPrincipal(p.value) else []
  }

  function EncRow(x: Row): (s: Bytes)
    requires RowFits(x)
    ensures 25 <= |s| <= 1073
  {
    EncRowHead(HeadOf(x)) + EncTail(x.principal)
  }

  lemma RowEq(a: Row, s: Bytes, b: Row, t: Bytes)
    requires RowClean(a) && RowClean(b) && EncRow(a) + s == EncRow(b) + t
    ensures a == b && s == t
  {
    Regroup(EncRowHead(HeadOf(a)), EncTail(a.principal), s);
    Regroup(EncRowHead(HeadOf(b)), EncTail(b.principal), t);
    RowHeadEq(HeadOf(a), EncTail(a.principal) + s, HeadOf(b), EncTail(b.principal) + t);
    if a.principal.Some? {
      PrincipalEq(a.principal.value, s, b.principal.value, t, false);
    } else {
      assert [] + s == s && [] + t == t;
    }
  }

  /** The bytes begin with a clean row. */
  ghost predicate RowStarts(s: Bytes) {
    exists q: Row, t: Bytes :: RowClean(q) && s == EncRow(q) + t
  }

  lemma RowStartsWith(s: Bytes, q: Row, t: Bytes)
    requires RowClean(q) && s == EncRow(q) + t
    ensures RowStarts(s)
  {}

  lemma RowStartsHead(s: Bytes, h: RowHead, rest: Bytes)
    requires s == EncRowHead(h) + rest && RowStarts(s)
    ensures h.active <= 1 && (h.active == 1 ==> Starts(rest, false))
  {
    var q, t :| RowClean(q) && s == EncRow(q) + t;
    Regroup(EncRowHead(HeadOf(q)), EncTail(q.principal), t);
    RowHeadEq(h, rest, HeadOf(q), EncTail(q.principal) + t);
    if q.principal.Some? { StartsWith(rest, q.principal.value, t, false); }
  }

  lemma RowLong(s: Bytes)
    requires RowStarts(s)
    ensures |s| >= 25
  {
    var q, t :| RowClean(q) && s == EncRow(q) + t;
  }

  function RowOf(h: RowHead, p: Option<User>): Row { Row(h.id, h.generation, h.failed, h.lockout, p) }

  lemma RowRebuilt(s: Bytes, h: RowHead, p: Option<User>, mid: Bytes, rest: Bytes)
    requires s == EncRowHead(h) + mid && h.active == (if p.Some? then 1 else 0)
    requires p.Some? ==> Clean(p.value, false)
    requires mid == EncTail(p) + rest
    ensures RowClean(RowOf(h, p)) && s == EncRow(RowOf(h, p)) + rest
  {
    Regroup(EncRowHead(h), EncTail(p), rest);
    assert HeadOf(RowOf(h, p)) == h;
  }

  /** One row of the decoding loop. */
  method ReadRow(r: Reader) returns (x: Row)
    requires r.position <= |r.data|
    modifies r
    ensures r.position <= |r.data| && r.valid == (old(r.valid) && RowStarts(old(r.Rest())))
    ensures r.valid ==> RowClean(x) && old(r.Rest()) == EncRow(x) + r.Rest()
  {
    ghost var s := r.Rest();
    if RowStarts(s) { RowLong(s); }
    var h := ReadRowHead(r);
    ghost var mid := r.Rest();
    if r.valid {
      assert s == EncRowHead(h) + mid;
      if RowStarts(s) { RowStartsHead(s, h, mid); }
    }
    if h.active > 1 { r.valid := false; }
    var p: Option<User> := None;
    if h.active != 0 {
      var u := ReadPrincipal(r, false);
      p := Some(u);
    }
    x := RowOf(h, p);
    if r.valid {
      if p.None? { assert [] + mid == mid; }
      RowRebuilt(s, h, p, mid, r.Rest());
      RowStartsWith(s, x, r.Rest());
    }
  }

  // ---------------------------------------------------------------- row lists

  function EncRows(xs: seq<Row>): (s: Bytes)
    requires RowsFit(xs)
    ensures 25 * |xs| <= |s| <= 1073 * |xs|
  {
    if xs == [] then [] else EncRow(xs[0]) + EncRows(xs[1..])
  }

  lemma SnocTail(xs: seq<Row>, x: Row)
    requires xs != []
    ensures (xs + [x])[0] == xs[0] && (xs + [x])[1..] == xs[1..] + [x]
  {}

  lemma FitsParts(xs: seq<Row>, x: Row)
    requires RowsFit(xs) && RowFits(x)
    ensures RowsFit(xs + [x]) && (xs != [] ==> RowFits(xs[0]) && RowsFit(xs[1..]))
  {}

  lemma {:induction false} RowsSnoc(xs: seq<Row>, x: Row)
    requires RowsFit(xs) && RowFits(x)
    ensures RowsFit(xs + [x]) && EncRows(xs + [x]) == EncRows(xs) + EncRow(x)
  {
    FitsParts(xs, x);
    if xs == [] {
      assert [] + [x] == [x] && [x][1..] == [];
      assert EncRow(x) + [] == EncRow(x) && [] + EncRow(x) == EncRow(x);
    } else {
      RowsSnoc(xs[1..], x);
      SnocTail(xs, x);
      Regroup(EncRow(xs[0]), EncRows(xs[1..]), EncRow(x));
    }
  }

  lemma RowsSplit(a: seq<Row>, s: Bytes)
    requires a != [] && RowsClean(a)
    ensures RowClean(a[0]) && RowsClean(a[1..]) && EncRows(a) + s == EncRow(a[0]) + (EncRows(a[1..]) + s)
  {
    Regroup(EncRow(a[0]), EncRows(a[1..]), s);
  }

  lemma {:induction false} RowsEq(a: seq<Row>, s: Bytes, b: seq<Row>, t: Bytes)
    requires |a| == |b| && RowsClean(a) && RowsClean(b) && EncRows(a) + s == EncRows(b) + t
    ensures a == b && s == t
    decreases |a|
  {
    if a == [] {
      assert [] + s == s && [] + t == t;
    } else {
      RowsSplit(a, s);
      RowsSplit(b, t);
      RowEq(a[0], EncRows(a[1..]) + s, b[0], EncRows(b[1..]) + t);
      RowsEq(a[1..], s, b[1..], t);
      assert a == [a[0]] + a[1..] && b == [b[0]] + b[1..];
    }
  }

  /** The bytes begin with that many clean rows in ascending order. */
  ghost predicate RowsStart(s: Bytes, n: nat) {
    exists qs: seq<Row>, t: Bytes :: |qs| == n && RowsClean(qs) && Ascending(qs) && s == EncRows(qs) + t
  }

  lemma RowsNext(qs: seq<Row>, t: Bytes, i: nat)
    requires i < |qs| && RowsClean(qs)
    ensures RowsClean(qs[i..]) && EncRows(qs[i..]) + t == EncRow(qs[i]) + (EncRows(qs[i + 1..]) + t)
  {
    assert qs[i..][1..] == qs[i + 1..];
    Regroup(EncRow(qs[i]), EncRows(qs[i + 1..]), t);
  }

  /** Rows read so far, and what is left of the bytes they started from. */
  ghost predicate Sofar(start: Bytes, xs: seq<Row>, rest: Bytes) {
    RowsClean(xs) && Ascending(xs) && start == EncRows(xs) + rest
  }

  /** The same, seen from a proper list of rows `qs` followed by `t`. */
  ghost predicate Along(qs: seq<Row>, t: Bytes, xs: seq<Row>, rest: Bytes) {
    |xs| <= |qs| && RowsClean(qs) && Ascending(qs) && xs == qs[..|xs|] && rest == EncRows(qs[|xs|..]) + t
  }

  lemma AlongStarts(qs: seq<Row>, t: Bytes, xs: seq<Row>, s: Bytes)
    requires Along(qs, t, xs, s) && |xs| < |qs|
    ensures RowStarts(s)
  {
    RowsNext(qs, t, |xs|);
    RowStartsWith(s, qs[|xs|], EncRows(qs[|xs| + 1..]) + t);
  }

  lemma AlongNext(qs: seq<Row>, t: Bytes, xs: seq<Row>, s: Bytes, x: Row, rest: Bytes)
    requires Along(qs, t, xs, s) && |xs| < |qs| && RowClean(x) && s == EncRow(x) + rest
    ensures Along(qs, t, xs + [x], rest) && (xs != [] ==> xs[|xs| - 1].id < x.id)
  {
    var n := |xs|;
    RowsNext(qs, t, n);
    RowEq(x, rest, qs[n], EncRows(qs[n + 1..]) + t);
    assert xs + [x] == qs[..n + 1];
    if n > 0 { assert xs[n - 1] == qs[n - 1]; }
  }

  lemma SofarNext(start: Bytes, xs: seq<Row>, s: Bytes, x: Row, rest: Bytes)
    requires Sofar(start, xs, s) && RowClean(x) && s == EncRow(x) + rest && (xs == [] || xs[|xs| - 1].id < x.id)
    ensures Sofar(start, xs + [x], rest)
  {
    RowsSnoc(xs, x);
    Regroup(EncRows(xs), EncRow(x), rest);
  }

  /** One more row, which must come in order. */
  method ReadNext(r: Reader, xs: seq<Row>, ghost start: Bytes, ghost proper: bool, ghost qs: seq<Row>, ghost t: Bytes)
    returns (x: Row, ok: bool)
    requires r.position <= |r.data| && r.valid && Sofar(start, xs, r.Rest())
    requires proper ==> |xs| < |qs| && Along(qs, t, xs, r.Rest())
    modifies r
    ensures r.position <= |r.data| && (ok ==> r.valid) && (proper ==> ok)
    ensures ok ==> Sofar(start, xs + [x], r.Rest())
    ensures ok && proper ==> Along(qs, t, xs + [x], r.Rest())
  {
    ghost var s := r.Rest();
    if proper { AlongStarts(qs, t, xs, s); }
    x := ReadRow(r);
    if proper { AlongNext(qs, t, xs, s, x, r.Rest()); }
    ok := r.valid && (|xs| == 0 || xs[|xs| - 1].id < x.id);
    if ok { SofarNext(start, xs, s, x, r.Rest()); }
  }

  lemma Begin(start: Bytes, qs: seq<Row>, t: Bytes)
    ensures Sofar(start, [], start)
    ensures RowsClean(qs) && Ascending(qs) && start == EncRows(qs) + t ==> Along(qs, t, [], start)
  {
    assert qs[0..] == qs;
    assert [] + start == start;
  }

  method ReadRows(r: Reader, count: nat) returns (xs: seq<Row>, ok: bool)
    requires r.position <= |r.data| && r.valid
    modifies r
    ensures r.position <= |r.data| && (ok ==> r.valid) && ok == RowsStart(old(r.Rest()), count)
    ensures ok ==> |xs| == count && RowsClean(xs) && Ascending(xs) && old(r.Rest()) == EncRows(xs) + r.Rest()
  {
    ghost var start := r.Rest();
    ghost var proper := RowsStart(start, count);
    ghost var qs: seq<Row>, t: Bytes := [], [];
    if proper { qs, t :| |qs| == count && RowsClean(qs) && Ascending(qs) && start == EncRows(qs) + t; }
    Begin(start, qs, t);
    xs := [];
    while |xs| < count
      invariant r.position <= |r.data| && r.valid && |xs| <= count && Sofar(start, xs, r.Rest())
      invariant proper ==> |qs| == count && Along(qs, t, xs, r.Rest())
    {
      var x;
      x, ok := ReadNext(r, xs, start, proper, qs, t);
      if !ok { return; }
      xs := xs + [x];
    }
    ok := true;
  }

  predicate Printable(x: Row) {
    RowFits(x)
    && (x.principal.Some? ==> Terminated(x.principal.value.username) && Terminated(x.principal.value.credential))
  }

  method WriteRow(w: ImageWriter, x: Row)
    requires w.Valid() && Printable(x)
    modifies w`used, w`good, w`out, w.data
    ensures w.Valid() && w.good == (old(w.good) && |old(w.out)| + |EncRow(x)| <= w.capacity)
    ensures w.good ==> w.out == old(w.out) + EncRow(x)
  {
    ghost var o := w.out;
    WriteRowHead(w, HeadOf(x));
    Regroup(o, EncRowHead(HeadOf(x)), EncTail(x.principal));
    if x.principal.Some? {
      WritePrincipal(w, x.principal.value);
    } else {
      assert o + EncRowHead(HeadOf(x)) + [] == o + EncRowHead(HeadOf(x));
    }
  }

  lemma RowsStep(xs: seq<Row>, i: nat)
    requires i < |xs| && RowsFit(xs)
    ensures RowsFit(xs[..i]) && RowsFit(xs[..i + 1]) && RowFits(xs[i])
    ensures EncRows(xs[..i + 1]) == EncRows(xs[..i]) + EncRow(xs[i])
  {
    RowsSnoc(xs[..i], xs[i]);
    assert xs[..i + 1] == xs[..i] + [xs[i]];
  }

  method WriteRows(w: ImageWriter, xs: seq<Row>)
    requires w.Valid() && RowsFit(xs) && (forall i :: 0 <= i < |xs| ==> Printable(xs[i]))
    modifies w`used, w`good, w`out, w.data
    ensures w.Valid() && w.good == (old(w.good) && |old(w.out)| + |EncRows(xs)| <= w.capacity)
    ensures w.good ==> w.out == old(w.out) + EncRows(xs)
  {
    var i := 0;
    ghost var o, written: Bytes := w.out, [];
    assert o + [] == o;
    while i < |xs|
      invariant 0 <= i <= |xs| && w.Valid() && written == EncRows(xs[..i])
      invariant w.good == (old(w.good) && |o| + |written| <= w.capacity)
      invariant w.good ==> w.out == o + written
    {
      WriteRow(w, xs[i]);
      RowsStep(xs, i);
      Regroup(o, written, EncRow(xs[i]));
      written := written + EncRow(xs[i]);
      i := i + 1;
    }
    assert xs[..i] == xs;
  }

  // ---------------------------------------------------------------- retry lists

  function EncRetries(xs: seq<Retry>): (s: Bytes)
    ensures |s| == 124 * |xs|
  {
    if xs == [] then [] else EncRetries(xs[..|xs| - 1]) + EncRetry(xs[|xs| - 1])
  }

  lemma {:induction false} RetriesInjective(a: seq<Retry>, b: seq<Retry>)
    requires |a| == |b| && EncRetries(a) == EncRetries(b)
    ensures a == b
  {
    if a != [] {
      var n := |a| - 1;
      SplitEq(EncRetries(a[..n]), EncRetry(a[n]), EncRetries(b[..n]), EncRetry(b[n]));
      RetriesInjective(a[..n], b[..n]);
      RetryEq(a[n], [], b[n], []);
      assert a == a[..n] + [a[n]] && b == b[..n] + [b[n]];
    }
  }

  lemma EncRetriesGrow(xs: seq<Retry>, x: Retry, s: Bytes)
    requires 124 * |xs| + 124 <= |s| && EncRetries(xs) == s[..124 * |xs|] && EncRetry(x) == s[124 * |xs|..][..124]
    ensures EncRetries(xs + [x]) == s[..124 * |xs + [x]|] && s[124 * |xs|..][124..] == s[124 * |xs + [x]|..]
  {
    assert (xs + [x])[..|xs|] == xs;
    Window(s, 124 * |xs|, 124);
    Join(s, 0, 124 * |xs|, 124 * |xs| + 124);
  }

  method ReadRetries(r: Reader, count: nat) returns (xs: seq<Retry>)
    requires r.position <= |r.data|
    modifies r
    ensures r.position <= |r.data| && r.valid == (old(r.valid) && 124 * count <= |old(r.Rest())|)
    ensures |xs| == count
    ensures r.valid ==> EncRetries(xs) == old(r.Rest())[..124 * count] && r.Rest() == old(r.Rest())[124 * count..]
  {
    xs := [];
    ghost var s := r.Rest();
    while |xs| < count
      invariant r.position <= |r.data| && |xs| <= count
      invariant r.valid == (old(r.valid) && 124 * |xs| <= |s|)
      invariant r.valid ==> EncRetries(xs) == s[..124 * |xs|] && r.Rest() == s[124 * |xs|..]
    {
      var x := ReadRetry(r);
      if r.valid {
        EncRetriesGrow(xs, x, s);
      }
      xs := xs + [x];
    }
  }

  method WriteRetries(w: ImageWriter, xs: seq<Retry>)
    requires w.Valid()
    modifies w`used, w`good, w`out, w.data
    ensures w.Valid() && w.good == (old(w.good) && |old(w.out)| + 124 * |xs| <= w.capacity)
    ensures w.good ==> w.out == old(w.out) + EncRetries(xs)
  {
    var i := 0;
    ghost var o := w.out;
    assert o + EncRetries(xs[..0]) == o;
    while i < |xs|
      invariant 0 <= i <= |xs| && w.Valid()
      invariant w.good == (old(w.good) && |o| + 124 * i <= w.capacity)
      invariant w.good ==> w.out == o + EncRetries(xs[..i])
    {
      WriteRetry(w, xs[i]);
      Regroup(o, EncRetries(xs[..i]), EncRetry(xs[i]));
      assert xs[..i + 1][..i] == xs[..i];
      i := i + 1;
    }
    assert xs[..i] == xs;
  }
}
