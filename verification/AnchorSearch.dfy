/** Interpolation search over learned anchors (algorithms/qihse_anchor_search.c). */
module AnchorSearch {
  import opened Prelude

  /** No array of 8-byte elements is longer. */
  const MAX_LENGTH: nat := 0x2000_0000_0000_0000
  const MAX_ANCHORS: nat := 1048576
  const MIN_ANCHORS: nat := 2

  datatype Anchor = Anchor(v: i64, i: nat, useCount: nat, lastUsed: u64)

  predicate Sorted(arr: seq<i64>) {
    forall p, q :: 0 <= p <= q < |arr| ==> arr[p] <= arr[q]
  }

  /** Every anchor is a true sample of the array, and their positions strictly rise. */
  predicate Sampled(arr: seq<i64>, anchors: seq<Anchor>) {
    && (forall k :: 0 <= k < |anchors| ==> anchors[k].i < |arr| && anchors[k].v == arr[anchors[k].i])
    && (forall j, k :: 0 <= j < k < |anchors| ==> anchors[j].i < anchors[k].i)
  }

  predicate Rising(anchors: seq<Anchor>) {
    forall j, k :: 0 <= j <= k < |anchors| ==> anchors[j].v <= anchors[k].v
  }

  lemma SampledRises(arr: seq<i64>, anchors: seq<Anchor>)
    requires Sorted(arr) && Sampled(arr, anchors)
    ensures Rising(anchors)
  {
    forall j, k | 0 <= j <= k < |anchors| ensures anchors[j].v <= anchors[k].v {
      assert anchors[j].i <= anchors[k].i;
    }
  }

  /** The end anchors span the whole array. */
  predicate Spanning(arr: seq<i64>, anchors: seq<Anchor>) {
    |anchors| >= 2 && anchors[0].i == 0 && anchors[|anchors| - 1].i + 1 == |arr|
  }

  // ---------------------------------------------------------------- scanning

  /** How windows are scanned: so many lanes at a time, or, in a build whose vector path is
      compiled in but not detected at run time, not at all beyond the shortest windows. */
  datatype Scan = Lanes(width: nat) | Blind

  const CHUNK: nat := 4

  predicate Sees(scan: Scan, n: nat) { n <= CHUNK || scan.Lanes? }

  predicate Absent(arr: seq<i64>, lo: nat, hi: nat, key: i64)
    requires lo <= hi <= |arr|
  {
    forall p :: lo <= p < hi ==> arr[p] != key
  }

  /** First match in `[lo, hi)`, if any. */
  ghost predicate FirstMatch(arr: seq<i64>, lo: nat, hi: nat, key: i64, r: Option<nat>)
    requires lo <= hi <= |arr|
  {
    match r
    case None => Absent(arr, lo, hi, key)
    case Some(p) => lo <= p < hi && arr[p] == key && Absent(arr, lo, p, key)
  }

  method ScanRange(arr: seq<i64>, lo: nat, hi: nat, key: i64) returns (r: Option<nat>)
    requires lo <= hi <= |arr|
    ensures FirstMatch(arr, lo, hi, key, r)
  {
    var p := lo;
    while p < hi
      invariant lo <= p <= hi && Absent(arr, lo, p, key)
    {
      if arr[p] == key { return Some(p); }
      p := p + 1;
    }
    return None;
  }

  /** `not_stisla_chunked_search` on the window of `n` elements from `lo`. */
  method ChunkedSearch(arr: seq<i64>, lo: nat, n: nat, key: i64, scan: Scan) returns (r: Option<nat>)
    requires lo + n <= |arr| && (scan.Lanes? ==> scan.width > 0)
    ensures Sees(scan, n) ==> FirstMatch(arr, lo, lo + n, key, r)
    ensures !Sees(scan, n) ==> r == None
  {
    if n > CHUNK && scan.Blind? { return None; }
    var width := if n <= CHUNK then CHUNK else scan.width;
    var base: nat := 0;
    while base + width <= n
      invariant base <= n && Absent(arr, lo, lo + base, key)
    {
      var hit := ScanRange(arr, lo + base, lo + base + width, key);
      if hit.Some? { return hit; }
      base := base + width;
    }
    r := ScanRange(arr, lo + base, lo + n, key);
  }

  // ---------------------------------------------------------------- the three probes

  /** `not_stisla_anchor_lower`: the anchor at or below `x`; a table of four or more never
      answers its last anchor. */
  method AnchorLower(anchors: seq<Anchor>, x: i64) returns (at: nat)
    requires Rising(anchors)
    ensures anchors == [] ==> at == 0
    ensures anchors != [] ==> at < |anchors|
    ensures anchors != [] && anchors[0].v <= x ==>
      anchors[at].v <= x && (at + 1 < |anchors| ==> x < anchors[at + 1].v || (at + 2 == |anchors| && |anchors| > 3))
  {
    if anchors == [] { return 0; }
    if |anchors| == 1 { return 0; }
    if |anchors| == 2 {
      return if anchors[0].v <= x && anchors[1].v <= x then 1 else 0;
    }
    if |anchors| == 3 {
      return if anchors[1].v <= x then (if anchors[2].v <= x then 2 else 1) else 0;
    }
    var lo: nat, hi: nat := 0, |anchors| - 1;
    while lo + 1 < hi
      invariant lo < hi < |anchors|
      invariant anchors[0].v <= x ==> anchors[lo].v <= x
      invariant hi == |anchors| - 1 || x < anchors[hi].v
    {
      var mid := lo + (hi - lo) / 2;
      if anchors[mid].v <= x { lo := mid; } else { hi := mid; }
    }
    return lo;
  }

  /** Division as C does it, towards zero. */
  function TruncDiv(a: int, b: int): int
    requires b != 0
  {
    if a >= 0 then (if b > 0 then a / b else -(a / -b))
    else (if b > 0 then -((-a) / b) else (-a) / (-b))
  }

  /** `not_stisla_interpolate`, unsigned wrap-around of the span and of the result included. */
  function Interpolate(lVal: i64, rVal: i64, lIdx: u64, rIdx: u64, key: i64): nat {
    var span := if rIdx >= lIdx then rIdx - lIdx else rIdx - lIdx + U64_MAX + 1;
    if rVal == lVal || span == 0 then lIdx
    else
      var result := lIdx + TruncDiv((key - lVal) * span, rVal - lVal);
      if result < 0 then 0
      else if result % (U64_MAX + 1) > rIdx then rIdx
      else result % (U64_MAX + 1)
  }

  lemma MulMonotone(a: nat, b: nat, c: nat)
    requires a <= b
    ensures a * c <= b * c
  {}

  lemma QuotientAtMost(m: nat, d: nat, q: nat)
    requires d > 0 && m <= q * d
    ensures m / d <= q
  {
    if m / d > q { MulMonotone(q + 1, m / d, d); }
  }

  lemma QuotientAtLeast(m: nat, d: nat, q: nat)
    requires d > 0 && q * d <= m
    ensures q <= m / d
  {
    if m / d < q { MulMonotone(m / d + 1, q, d); }
  }

  lemma FractionBound(offset: nat, span: nat, range: nat)
    requires offset <= range && range > 0
    ensures offset * span / range <= span
    ensures offset == 0 ==> offset * span / range == 0
    ensures offset == range ==> offset * span / range == span
  {
    MulMonotone(offset, range, span);
    QuotientAtMost(offset * span, range, span);
    if offset == range { QuotientAtLeast(offset * span, range, span); }
  }

  lemma Share(offset: nat, span: nat, range: nat) returns (q: nat)
    requires offset <= range && range > 0
    ensures q == TruncDiv(offset * span, range) == offset * span / range && q <= span
    ensures offset == 0 ==> q == 0
    ensures offset == range ==> q == span
  {
    FractionBound(offset, span, range);
    q := offset * span / range;
  }

  /** In a bracket, interpolation is the plain fraction of the span. */
  lemma InterpolateExact(lVal: i64, rVal: i64, lIdx: u64, rIdx: u64, key: i64, q: nat)
    requires lVal <= key <= rVal && lVal < rVal && lIdx < rIdx < MAX_LENGTH
    requires q == TruncDiv((key - lVal) * (rIdx - lIdx), rVal - lVal) && q <= rIdx - lIdx
    ensures Interpolate(lVal, rVal, lIdx, rIdx, key) == lIdx + q
  {
    WrapSmall(lIdx + q);
  }

  lemma WrapSmall(x: nat)
    requires x <= U64_MAX
    ensures x % (U64_MAX + 1) == x
  {}

  /** Between bracketing anchors the prediction lies in the bracket, is exact at both ends,
      and the 128-bit product cannot overflow. */
  lemma PredictionInBracket(lVal: i64, rVal: i64, lIdx: u64, rIdx: u64, key: i64)
    requires lVal <= key <= rVal && lIdx <= rIdx < MAX_LENGTH
    ensures lIdx <= Interpolate(lVal, rVal, lIdx, rIdx, key) <= rIdx
    ensures key == lVal ==> Interpolate(lVal, rVal, lIdx, rIdx, key) == lIdx
    ensures key == rVal && lVal < rVal ==> Interpolate(lVal, rVal, lIdx, rIdx, key) == rIdx
    ensures 0 <= (key - lVal) * (rIdx - lIdx) < 0x8000_0000_0000_0000_0000_0000_0000_0000
  {
    WideProduct(key - lVal, rIdx - lIdx);
    if lVal < rVal && lIdx < rIdx { InnerPrediction(lVal, rVal, lIdx, rIdx, key); }
  }

  lemma InnerPrediction(lVal: i64, rVal: i64, lIdx: u64, rIdx: u64, key: i64)
    requires lVal <= key <= rVal && lVal < rVal && lIdx < rIdx < MAX_LENGTH
    ensures lIdx <= Interpolate(lVal, rVal, lIdx, rIdx, key) <= rIdx
    ensures key == lVal ==> Interpolate(lVal, rVal, lIdx, rIdx, key) == lIdx
    ensures key == rVal ==> Interpolate(lVal, rVal, lIdx, rIdx, key) == rIdx
  {
    var q := Share(key - lVal, rIdx - lIdx, rVal - lVal);
    InterpolateExact(lVal, rVal, lIdx, rIdx, key, q);
  }

  lemma WideProduct(offset: nat, span: nat)
    requires offset <= U64_MAX && span < MAX_LENGTH
    ensures offset * span < 0x8000_0000_0000_0000_0000_0000_0000_0000
  {
    MulMonotone(offset, U64_MAX, span);
  }

  /** `not_stisla_local_search`. Sound, but complete only on windows of at most 32 elements: the
      branch-free loop keeps an element below the key, so on a longer window it finds the key
      only at the window's first element. */
  method LocalSearch(arr: seq<i64>, lo: nat, hi: nat, key: i64, scan: Scan) returns (r: Option<nat>)
    requires lo < |arr| && hi < |arr| && Sorted(arr) && (scan.Lanes? ==> scan.width > 0)
    ensures r.Some? ==> lo <= r.value <= hi && arr[r.value] == key
    ensures r.Some? <==> lo <= hi && (if hi - lo < 32 then Sees(scan, hi - lo + 1) && !Absent(arr, lo, hi + 1, key)
                                      else arr[lo] == key)
    ensures r.Some? && arr[lo] == key ==> r.value == lo
  {
    if lo > hi || arr[lo] > key || arr[hi] < key { return None; }
    var n := hi - lo + 1;
    if n <= 32 {
      r := ChunkedSearch(arr, lo, n, key, scan);
      return;
    }
    var base := lo;
    while n > 1
      invariant lo <= base && 1 <= n && base + n <= hi + 1
      invariant base == lo || arr[base] < key
      invariant arr[lo] == key ==> base == lo
    {
      var half := n / 2;
      base := if arr[base + half] < key then base + half else base;
      n := n - half;
    }
    return if arr[base] == key then Some(base) else None;
  }

  /** The bracket fallback: a lower bound over `[lo, hi]`. */
  method BracketSearch(arr: seq<i64>, lo: nat, hi: nat, key: i64) returns (r: Option<nat>)
    requires lo <= hi < |arr| && Sorted(arr) && key <= arr[hi]
    ensures FirstMatch(arr, lo, hi + 1, key, r)
  {
    var blo, bhi := lo, hi;
    while blo < bhi
      invariant lo <= blo <= bhi <= hi
      invariant forall p :: lo <= p < blo ==> arr[p] < key
      invariant key <= arr[bhi]
    {
      var mid := blo + (bhi - blo) / 2;
      if arr[mid] < key { blo := mid + 1; } else { bhi := mid; }
    }
    return if arr[blo] == key then Some(blo) else None;
  }

  /** A key between two samples occurs between their positions if it occurs at all. */
  lemma BracketHolds(arr: seq<i64>, lo: nat, hi: nat, key: i64)
    requires lo <= hi < |arr| && Sorted(arr) && arr[lo] <= key <= arr[hi]
    ensures key in arr <==> !Absent(arr, lo, hi + 1, key)
  {
    if key in arr {
      var p :| 0 <= p < |arr| && arr[p] == key;
      var q := if p < lo then lo else if p > hi then hi else p;
      assert arr[q] == key;
    }
  }

  // ---------------------------------------------------------------- one search

  predicate Covered(anchors: seq<Anchor>, key: i64) {
    anchors == [] || anchors[0].v <= key <= anchors[|anchors| - 1].v
  }

  /** The prediction was near enough for nothing to be learned. */
  predicate Close(pred: nat, index: nat, tol: nat) {
    if pred > index then pred - index <= tol else index - pred <= tol
  }

  /** A hit at `index` that a table can learn without repeating or displacing an end. */
  predicate Inner(anchors: seq<Anchor>, key: i64, index: nat) {
    && anchors != [] && anchors[0].v < key && index < anchors[|anchors| - 1].i
    && forall k :: 0 <= k < |anchors| && anchors[k].v == key ==> index < anchors[k].i
  }

  /** The probed window around a prediction, with the wrapping sum of the source. */
  function Window(pred: u64, tol: u64, l: u64, r: u64): (w: (nat, nat))
    requires l <= pred <= r
    ensures l <= w.0 <= w.1 <= r
    ensures pred == l ==> w.0 == l
  {
    var below: nat := if pred > tol then pred - tol else l;
    var lo: nat := if below > l then below else l;
    var sum: nat := pred + tol;
    var above := if sum > U64_MAX then sum - U64_MAX - 1 else sum;
    var hi := if above < r then above else r;
    if lo > hi then (l, r) else (lo, hi)
  }

  /** Probing between two neighbouring anchors. */
  method ProbeBracket(arr: seq<i64>, l: Anchor, r: Anchor, key: i64, tol: u64, scan: Scan)
    returns (hit: Option<nat>, pred: nat)
    requires Sorted(arr) && |arr| <= MAX_LENGTH && (scan.Lanes? ==> scan.width > 0)
    requires l.i < r.i < |arr| && l.v == arr[l.i] && r.v == arr[r.i] && l.v <= key <= r.v
    ensures hit.Some? <==> key in arr
    ensures hit.Some? ==> l.i <= hit.value <= r.i && arr[hit.value] == key
    ensures hit.Some? && !Close(pred, hit.value, tol) ==> l.v < key && l.i < hit.value < r.i
  {
    pred := Interpolate(l.v, r.v, l.i, r.i, key);
    PredictionInBracket(l.v, r.v, l.i, r.i, key);
    var w := Window(pred, tol, l.i, r.i);
    BracketHolds(arr, l.i, r.i, key);
    hit := LocalSearch(arr, w.0, w.1, key, scan);
    if hit.None? {
      hit := BracketSearch(arr, l.i, r.i, key);
    }
  }

  lemma BetweenNeighbours(arr: seq<i64>, anchors: seq<Anchor>, at: nat, key: i64, index: nat)
    requires Sorted(arr) && Sampled(arr, anchors) && at + 1 < |anchors|
    requires anchors[at].v < key && index < anchors[at + 1].i
    ensures Inner(anchors, key, index)
  {
    SampledRises(arr, anchors);
    forall k | 0 <= k < |anchors| && anchors[k].v == key ensures index < anchors[k].i {
      assert k > at;
      assert anchors[at + 1].i <= anchors[k].i;
    }
  }

  /** The search against a non-empty table. `pred` is the prediction, if one was made. */
  method Probe(arr: seq<i64>, anchors: seq<Anchor>, key: i64, tol: u64, scan: Scan)
    returns (hit: Option<nat>, pred: Option<nat>)
    requires Sorted(arr) && |arr| <= MAX_LENGTH && Sampled(arr, anchors) && anchors != []
    requires scan.Lanes? ==> scan.width > 0
    ensures hit.Some? <==> key in arr && Covered(anchors, key)
    ensures hit.Some? ==> hit.value < |arr| && arr[hit.value] == key
    ensures hit.Some? && pred.Some? && !Close(pred.value, hit.value, tol) ==> Inner(anchors, key, hit.value)
  {
    var last := anchors[|anchors| - 1];
    if key < anchors[0].v || key > last.v { return None, None; }
    SampledRises(arr, anchors);
    var at := AnchorLower(anchors, key);
    if at + 1 >= |anchors| {
      return if arr[last.i] == key then Some(last.i) else None, None;
    }
    var p: nat;
    hit, p := ProbeBracket(arr, anchors[at], anchors[at + 1], key, tol, scan);
    pred := Some(p);
    if hit.Some? && !Close(p, hit.value, tol) {
      BetweenNeighbours(arr, anchors, at, key, hit.value);
    }
  }

  // ---------------------------------------------------------------- learning

  /** Where a value belongs: before the first anchor that is not below it. */
  function Place(anchors: seq<Anchor>, v: i64): (p: nat)
    ensures p <= |anchors|
    ensures forall k :: 0 <= k < p ==> anchors[k].v < v
    ensures p < |anchors| ==> anchors[p].v >= v
  {
    if anchors == [] || anchors[0].v >= v then 0 else 1 + Place(anchors[1..], v)
  }

  function Insertion(anchors: seq<Anchor>, a: Anchor): seq<Anchor> {
    var p := Place(anchors, a.v);
    anchors[..p] + [a] + anchors[p..]
  }

  function Without(anchors: seq<Anchor>, k: nat): seq<Anchor>
    requires k < |anchors|
  {
    anchors[..k] + anchors[k + 1..]
  }

  /** The first of the least recently used. */
  predicate Oldest(anchors: seq<Anchor>, k: nat) {
    && k < |anchors|
    && (forall j :: 0 <= j < |anchors| ==> anchors[k].lastUsed <= anchors[j].lastUsed)
    && (forall j :: 0 <= j < k ==> anchors[k].lastUsed < anchors[j].lastUsed)
  }

  lemma PlaceSplits(arr: seq<i64>, anchors: seq<Anchor>, a: Anchor, k: nat)
    requires Sorted(arr) && Sampled(arr, anchors) && a.i < |arr| && a.v == arr[a.i] && k < |anchors|
    requires anchors[k].v == a.v ==> a.i < anchors[k].i
    ensures if k < Place(anchors, a.v) then anchors[k].i < a.i else a.i < anchors[k].i
  {
    SampledRises(arr, anchors);
    var p := Place(anchors, a.v);
    if k >= p { assert anchors[p].v <= anchors[k].v; }
  }

  lemma InsertionSampled(arr: seq<i64>, anchors: seq<Anchor>, a: Anchor)
    requires Sorted(arr) && Sampled(arr, anchors) && a.i < |arr| && a.v == arr[a.i]
    requires forall k :: 0 <= k < |anchors| && anchors[k].v == a.v ==> a.i < anchors[k].i
    ensures Sampled(arr, Insertion(anchors, a))
  {
    var p := Place(anchors, a.v);
    forall k: nat | k < |anchors| ensures if k < p then anchors[k].i < a.i else a.i < anchors[k].i {
      PlaceSplits(arr, anchors, a, k);
    }
    JoinSampled(arr, anchors[..p], a, anchors[p..]);
  }

  lemma JoinSampled(arr: seq<i64>, below: seq<Anchor>, a: Anchor, above: seq<Anchor>)
    requires Sampled(arr, below) && Sampled(arr, above) && a.i < |arr| && a.v == arr[a.i]
    requires forall k :: 0 <= k < |below| ==> below[k].i < a.i
    requires forall k :: 0 <= k < |above| ==> a.i < above[k].i
    ensures Sampled(arr, below + [a] + above)
  {
    var out, p := below + [a] + above, |below|;
    assert forall k :: 0 <= k < |out| ==>
      out[k] == (if k < p then below[k] else if k == p then a else above[k - p - 1]);
  }

  lemma InsertionSpans(arr: seq<i64>, anchors: seq<Anchor>, a: Anchor)
    requires Sorted(arr) && Sampled(arr, anchors) && Spanning(arr, anchors)
    requires a.i < |arr| && a.v == arr[a.i] && Inner(anchors, a.v, a.i)
    ensures Spanning(arr, Insertion(anchors, a))
  {
    var p := Place(anchors, a.v);
    assert p > 0;
    assert p < |anchors|;
  }

  lemma WithoutSampled(arr: seq<i64>, anchors: seq<Anchor>, k: nat)
    requires Sampled(arr, anchors) && k < |anchors|
    ensures Sampled(arr, Without(anchors, k))
  {
    var out := Without(anchors, k);
    assert forall j :: 0 <= j < |out| ==> out[j] == anchors[if j < k then j else j + 1];
  }

  lemma LearnedBelowLimit(arr: seq<i64>, anchors: seq<Anchor>, a: Anchor)
    requires Sorted(arr) && Sampled(arr, anchors)
    requires a.i < |arr| && a.v == arr[a.i] && Inner(anchors, a.v, a.i)
    ensures Sampled(arr, Insertion(anchors, a)) && |Insertion(anchors, a)| == |anchors| + 1
    ensures Spanning(arr, anchors) ==> Spanning(arr, Insertion(anchors, a))
  {
    InsertionSampled(arr, anchors, a);
    if Spanning(arr, anchors) { InsertionSpans(arr, anchors, a); }
  }

  lemma LearnedAtLimit(arr: seq<i64>, anchors: seq<Anchor>, a: Anchor, k: nat)
    requires Sorted(arr) && Sampled(arr, anchors) && k < |anchors|
    requires a.i < |arr| && a.v == arr[a.i] && Inner(anchors, a.v, a.i)
    ensures Sampled(arr, Insertion(Without(anchors, k), a)) && |Insertion(Without(anchors, k), a)| == |anchors|
  {
    WithoutSampled(arr, anchors, k);
    InsertionSampled(arr, Without(anchors, k), a);
  }

  method FindOldest(anchors: seq<Anchor>) returns (k: nat)
    requires anchors != []
    ensures Oldest(anchors, k)
  {
    var oldest: nat := U64_MAX;
    k := 0;
    var j := 0;
    while j < |anchors|
      invariant 0 <= j <= |anchors| && k < |anchors|
      invariant (oldest == U64_MAX && k == 0) || (k < j && oldest == anchors[k].lastUsed)
      invariant forall i :: 0 <= i < j ==> oldest <= anchors[i].lastUsed
      invariant forall i :: 0 <= i < k ==> oldest < anchors[i].lastUsed
    {
      if anchors[j].lastUsed < oldest {
        oldest, k := anchors[j].lastUsed, j;
      }
      j := j + 1;
    }
  }

  method FindPlace(anchors: seq<Anchor>, v: i64) returns (p: nat)
    requires Rising(anchors)
    ensures p == Place(anchors, v)
  {
    p := 0;
    while p < |anchors| && anchors[p].v < v
      invariant p <= |anchors| && forall k :: 0 <= k < p ==> anchors[k].v < v
    {
      p := p + 1;
    }
  }

  /** What the allocator answers during one search, and the bytes it leaves in fresh end anchors. */
  datatype Heap = Heap(first: bool, grow: bool, junkLow: u64, junkHigh: u64)

  /** The end anchors of an array; their usage fields are whatever the memory held. */
  function Ends(arr: seq<i64>, heap: Heap): (ends: seq<Anchor>)
    requires |arr| >= 2
    ensures Sampled(arr, ends) && Spanning(arr, ends)
  {
    [Anchor(arr[0], 0, heap.junkLow, heap.junkLow), Anchor(arr[|arr| - 1], |arr| - 1, heap.junkHigh, heap.junkHigh)]
  }

  datatype Query = Query(key: i64, tol: u64, now: u64, heap: Heap)

  predicate Whole(arr: seq<i64>, anchors: seq<Anchor>) {
    anchors == [] || Spanning(arr, anchors)
  }

  /** Room for one more anchor, counting the two end anchors an empty table first gets. */
  predicate Below(anchors: seq<Anchor>, limit: nat) { |anchors| < limit && 2 < limit }

  /** A search from this table finds its key exactly if it is present and covered. */
  predicate Exact(arr: seq<i64>, key: i64, hit: Option<nat>, table: seq<Anchor>, scan: Scan) {
    hit.Some? <==> key in arr && if |arr| < 32 then Sees(scan, |arr|) else Covered(table, key)
  }

  predicate Passes(arr: seq<i64>, before: seq<Anchor>, after: seq<Anchor>, limit: nat) {
    Whole(arr, before) && Below(before, limit) ==> Whole(arr, after)
  }

  lemma {:induction false} StaysWhole(arr: seq<i64>, tables: seq<seq<Anchor>>, limit: nat, j: nat)
    requires j < |tables| && Whole(arr, tables[0])
    requires forall i :: 0 <= i < |tables| - 1 ==>
      Passes(arr, tables[i], tables[i + 1], limit) && Below(tables[i], limit)
    ensures Whole(arr, tables[j])
  {
    if j > 0 {
      StaysWhole(arr, tables, limit, j - 1);
      assert Passes(arr, tables[j - 1], tables[j - 1 + 1], limit);
    }
  }

  /** Below the limit a run of exact searches from a whole table finds exactly the present keys. */
  lemma RunFinds(arr: seq<i64>, qs: seq<Query>, hits: seq<Option<nat>>, tables: seq<seq<Anchor>>, scan: Scan,
                 limit: nat)
    requires Sorted(arr) && |hits| == |qs| && |tables| == |qs| + 1 && Whole(arr, tables[0])
    requires forall j :: 0 <= j <= |qs| ==> Sampled(arr, tables[j])
    requires forall j :: 0 <= j < |qs| ==> Passes(arr, tables[j], tables[j + 1], limit) && Below(tables[j], limit)
    requires forall j :: 0 <= j < |qs| ==> Exact(arr, qs[j].key, hits[j], tables[j], scan)
    ensures Whole(arr, tables[|qs|])
    ensures forall j :: 0 <= j < |qs| ==> (hits[j].Some? <==> qs[j].key in arr && (|arr| < 32 ==> Sees(scan, |arr|)))
  {
    forall j: nat | j <= |qs| ensures Whole(arr, tables[j]) { StaysWhole(arr, tables, limit, j); }
    forall j | 0 <= j < |qs| ensures hits[j].Some? <==> qs[j].key in arr && (|arr| < 32 ==> Sees(scan, |arr|)) {
      WholeCovers(arr, tables[j], qs[j].key);
    }
  }

  /** With whole ends every key of the array is covered. */
  lemma WholeCovers(arr: seq<i64>, anchors: seq<Anchor>, key: i64)
    requires Sorted(arr) && Sampled(arr, anchors) && Whole(arr, anchors)
    ensures key in arr ==> Covered(anchors, key)
  {
    if key in arr && anchors != [] {
      var p :| 0 <= p < |arr| && arr[p] == key;
      assert arr[0] <= arr[p] <= arr[|arr| - 1];
    }
  }

  /** `not_stisla_anchor_table_t`; `anchors` holds the `size` anchors in use. */
  class AnchorTable {
    var anchors: seq<Anchor>
    var capacity: nat
    var maxCapacity: nat

    ghost predicate Valid() reads this {
      && |anchors| <= capacity <= MAX_ANCHORS
      && MIN_ANCHORS <= maxCapacity <= MAX_ANCHORS
      && (capacity == 0 || capacity >= 2)
    }

    constructor ()
      ensures Valid() && anchors == [] && capacity == MIN_ANCHORS && maxCapacity == MAX_ANCHORS
    {
      anchors, capacity, maxCapacity := [], MIN_ANCHORS, MAX_ANCHORS;
    }

    /** `not_stisla_anchor_table_set_memory_limit`: the limit may drop below what is in use. */
    method SetMemoryLimit(max: nat) returns (ok: bool)
      requires Valid()
      modifies this`maxCapacity
      ensures Valid() && ok == (2 <= max <= 1048576)
      ensures maxCapacity == if ok then max else old(maxCapacity)
    {
      if max < MIN_ANCHORS || max > MAX_ANCHORS { return false; }
      maxCapacity := max;
      return true;
    }

    /** Doubles the capacity up to the limit; fails only with the allocator. */
    method Grow(heap: Heap) returns (ok: bool)
      requires Valid() && capacity > 0
      modifies this`capacity
      ensures Valid() && old(capacity) <= capacity
      ensures ok == (|anchors| < old(capacity) || old(capacity) >= maxCapacity || heap.grow)
      ensures ok && (|anchors| < old(capacity) || old(capacity) < maxCapacity) ==> |anchors| < capacity
    {
      if |anchors| >= capacity && capacity < maxCapacity {
        if !heap.grow { return false; }
        capacity := if capacity * 2 > maxCapacity then maxCapacity else capacity * 2;
      }
      return true;
    }

    /** `not_stisla_learn_anchor` */
    method Learn(value: i64, index: nat, pred: nat, tol: nat, now: u64, heap: Heap)
      requires Valid() && anchors != [] && Rising(anchors)
      modifies this
      ensures Valid() && maxCapacity == old(maxCapacity) && old(capacity) <= capacity
      ensures -(tol as int) <= pred as int - index as int <= tol ==> anchors == old(anchors)
      ensures Close(pred, index, tol) <==> -(tol as int) <= pred as int - index as int <= tol
      ensures !Close(pred, index, tol) && |old(anchors)| < maxCapacity ==>
        anchors == (if |old(anchors)| < old(capacity) || heap.grow
                    then Insertion(old(anchors), Anchor(value, index, 1, now)) else old(anchors))
      ensures !Close(pred, index, tol) && |old(anchors)| >= maxCapacity ==>
        exists k :: 0 <= k < |old(anchors)|
                    && (forall j :: 0 <= j < |old(anchors)| ==> old(anchors)[k].lastUsed <= old(anchors)[j].lastUsed)
                    && (forall j :: 0 <= j < k ==> old(anchors)[k].lastUsed < old(anchors)[j].lastUsed)
                    && anchors == Insertion(Without(old(anchors), k), Anchor(value, index, 1, now))
    {
      if Close(pred, index, tol) { return; }
      if |anchors| >= maxCapacity {
        var k := FindOldest(anchors);
        anchors := Without(anchors, k);
      }
      var grown := Grow(heap);
      if !grown { return; }
      var p := FindPlace(anchors, value);
      anchors := anchors[..p] + [Anchor(value, index, 1, now)] + anchors[p..];
    }

    /** The table stays true, and below the limit it keeps its ends. */
    method LearnHit(arr: seq<i64>, key: i64, index: nat, pred: nat, tol: nat, now: u64, heap: Heap)
      requires Valid() && Sorted(arr) && Sampled(arr, anchors) && anchors != []
      requires index < |arr| && arr[index] == key
      requires Close(pred, index, tol) || Inner(anchors, key, index)
      modifies this
      ensures Valid() && maxCapacity == old(maxCapacity) && old(capacity) <= capacity && Sampled(arr, anchors)
      ensures anchors != [] && |old(anchors)| <= |anchors| <= |old(anchors)| + 1
      ensures Spanning(arr, old(anchors)) && |old(anchors)| < maxCapacity ==> Spanning(arr, anchors)
    {
      SampledRises(arr, anchors);
      ghost var a := Anchor(key, index, 1, now);
      if !Close(pred, index, tol) {
        LearnedBelowLimit(arr, anchors, a);
        forall k: nat | k < |anchors|
          ensures Sampled(arr, Insertion(Without(anchors, k), a)) && |Insertion(Without(anchors, k), a)| == |anchors|
        {
          LearnedAtLimit(arr, anchors, a, k);
        }
      }
      Learn(key, index, pred, tol, now, heap);
    }

    /** `not_stisla_search` with a table. A hit is always right, and the key is found exactly
        when it is present and lies between the end anchors. */
    method Search(arr: seq<i64>, q: Query, scan: Scan) returns (hit: Option<nat>)
      requires Valid() && Sorted(arr) && |arr| <= MAX_LENGTH && Sampled(arr, anchors)
      requires scan.Lanes? ==> scan.width > 0
      modifies this
      ensures Valid() && maxCapacity == old(maxCapacity) && Sampled(arr, anchors)
      ensures hit.Some? ==> hit.value < |arr| && arr[hit.value] == q.key
      ensures |arr| < 32 ==> anchors == old(anchors) && (hit.Some? <==> q.key in arr && Sees(scan, |arr|))
      ensures |arr| >= 32 ==>
        (hit.Some? <==>
         q.key in arr && Covered(old(anchors), q.key) && (old(anchors) != [] || old(capacity) > 0 || q.heap.first))
      ensures Whole(arr, old(anchors)) && 2 < maxCapacity && |old(anchors)| < maxCapacity ==> Whole(arr, anchors)
      ensures |old(anchors)| <= |anchors| <= |old(anchors)| + 3 && old(capacity) <= capacity
    {
      if |arr| == 0 { return None; }
      if |arr| < 32 {
        hit := ChunkedSearch(arr, 0, |arr|, q.key, scan);
        return;
      }
      if anchors == [] {
        if capacity == 0 {
          if !q.heap.first { return None; }
          capacity := 2;
        }
        anchors := Ends(arr, q.heap);
      }
      var pred: Option<nat>;
      hit, pred := Probe(arr, anchors, q.key, q.tol, scan);
      if hit.Some? && pred.Some? {
        LearnHit(arr, q.key, hit.value, pred.value, q.tol, q.now, q.heap);
      }
    }

    /** Any run of searches of one array; `tables` are the anchors each search starts from. Every
        hit is right, and every search finds its key exactly if it is present and covered then.
        As long as no search starts at the limit, that is exactly if it is present. Tables never
        shrink, so a table that ends below its limit was below it throughout. */
    method SearchRun(arr: seq<i64>, qs: seq<Query>, scan: Scan)
      returns (hits: seq<Option<nat>>, ghost tables: seq<seq<Anchor>>)
      requires Valid() && capacity > 0 && Sorted(arr) && |arr| <= MAX_LENGTH && Sampled(arr, anchors)
      requires scan.Lanes? ==> scan.width > 0
      modifies this
      ensures Valid() && Sampled(arr, anchors) && maxCapacity == old(maxCapacity)
      ensures |hits| == |qs| && |tables| == |qs| + 1 && tables[0] == old(anchors) && tables[|qs|] == anchors
      ensures forall j :: 0 <= j < |qs| ==> |tables[j]| <= |anchors|
      ensures forall j :: 0 <= j < |qs| && hits[j].Some? ==> hits[j].value < |arr| && arr[hits[j].value] == qs[j].key
      ensures forall j :: 0 <= j < |qs| ==> Exact(arr, qs[j].key, hits[j], tables[j], scan)
      ensures Whole(arr, old(anchors)) && (forall j :: 0 <= j < |qs| ==> Below(tables[j], maxCapacity)) ==>
        && Whole(arr, anchors)
        && forall j :: 0 <= j < |qs| ==> (hits[j].Some? <==> qs[j].key in arr && (|arr| < 32 ==> Sees(scan, |arr|)))
    {
      hits, tables := [], [anchors];
      while |hits| < |qs|
        invariant |hits| <= |qs| && Valid() && capacity > 0 && maxCapacity == old(maxCapacity)
        invariant |tables| == |hits| + 1 && tables[0] == old(anchors) && tables[|hits|] == anchors
        invariant forall j :: 0 <= j <= |hits| ==> Sampled(arr, tables[j]) && |tables[j]| <= |anchors|
        invariant forall j :: 0 <= j < |hits| ==> Passes(arr, tables[j], tables[j + 1], maxCapacity)
        invariant forall j :: 0 <= j < |hits| && hits[j].Some? ==>
          hits[j].value < |arr| && arr[hits[j].value] == qs[j].key
        invariant forall j :: 0 <= j < |hits| ==> Exact(arr, qs[j].key, hits[j], tables[j], scan)
      {
        var hit := Search(arr, qs[|hits|], scan);
        hits, tables := hits + [hit], tables + [anchors];
      }
      if Whole(arr, tables[0]) && (forall j :: 0 <= j < |qs| ==> Below(tables[j], maxCapacity)) {
        RunFinds(arr, qs, hits, tables, scan, maxCapacity);
      }
    }
  }

  /** `not_stisla_search` without a table: two anchors on the stack, nothing learned. */
  method SearchOnce(arr: seq<i64>, key: i64, tol: u64, scan: Scan) returns (hit: Option<nat>)
    requires Sorted(arr) && |arr| <= MAX_LENGTH && (scan.Lanes? ==> scan.width > 0)
    ensures hit.Some? <==> key in arr && (|arr| >= 32 || Sees(scan, |arr|))
    ensures hit.Some? ==> hit.value < |arr| && arr[hit.value] == key
  {
    if |arr| == 0 { return None; }
    if |arr| < 32 {
      hit := ChunkedSearch(arr, 0, |arr|, key, scan);
      return;
    }
    var ends := Ends(arr, Heap(true, true, 0, 0));
    WholeCovers(arr, ends, key);
    var pred;
    hit, pred := Probe(arr, ends, key, tol, scan);
  }
}
