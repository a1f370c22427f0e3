/** Similarity of encoded rows and selection of the best rows
    (codecs/qihse_trinary_tryte_codec.c). */
module TryteSearch {
  import opened Prelude
  import opened Tryte
  import opened TryteKernels
  import opened TopK

  /** A buffer long enough for one row of that many dimensions. */
  predicate RowBuffer(row: Bytes, dims: u64) {
    RowBytes(dims).Some? ==> |row| == RowBytes(dims).value
  }

  /** `qihse_trinary_tryte_similarity_i32` */
  method Similarity(l: Bytes, r: Bytes, dims: u64, cpu: Cpu) returns (score: Option<int>)
    requires RowBuffer(l, dims) && RowBuffer(r, dims)
    ensures score.Some? <==> dims <= 0x7FFF_FFFF && ValidRow(l, dims) && ValidRow(r, dims)
    ensures score.Some? ==> dims <= 5 * |l| && score.value == DotTrits(l, r, dims)
    ensures score.Some? ==> 0 - dims <= score.value <= dims
  {
    if dims > I32_MAX { return None; }
    var okL := ValidateRow(l, dims);
    if !okL { return None; }
    var okR := ValidateRow(r, dims);
    if !okR { return None; }
    PaddingIsSilent(l, r, dims);
    DotTritsBounded(l, r, dims);
    RowFitsInt32(l, r, dims);
    var total := DotProduct(l, r, cpu);
    return Some(total);
  }

  // ---------------------------------------------------------------- weighted similarity

  type Weight = i32

  function WeightedDot(l: Bytes, r: Bytes, weights: seq<Weight>, n: nat): int
    requires n <= 5 * |l| && |l| == |r| && n <= |weights|
  {
    if n == 0 then 0
    else WeightedDot(l, r, weights, n - 1) + Component(l, n - 1) * Component(r, n - 1) * weights[n - 1]
  }

  predicate NonNegative(weights: seq<Weight>) {
    forall i :: 0 <= i < |weights| ==> weights[i] >= 0
  }

  lemma StepBound(p: int, w: int)
    requires -1 <= p <= 1 && 0 <= w <= I32_MAX
    ensures 0 - I32_MAX <= p * w <= I32_MAX
  {}

  lemma {:induction false} WeightedBound(l: Bytes, r: Bytes, weights: seq<Weight>, n: nat)
    requires n <= 5 * |l| && |l| == |r| && n <= |weights| && NonNegative(weights[..n])
    ensures 0 - n * I32_MAX <= WeightedDot(l, r, weights, n) <= n * I32_MAX
  {
    if n > 0 {
      assert weights[..n][..n - 1] == weights[..n - 1];
      WeightedBound(l, r, weights, n - 1);
      ProductBound(Component(l, n - 1), Component(r, n - 1));
      assert weights[..n][n - 1] >= 0;
      StepBound(Component(l, n - 1) * Component(r, n - 1), weights[n - 1]);
    }
  }

  /** `qihse_tryte_weighted_dims_fit_i64` */
  predicate WeightedDimsFit(dims: u64) { dims <= I64_MAX / I32_MAX }

  /** The dimension bound keeps every partial sum in 64 bits, so the checked addition of the
      source can never report an overflow. */
  lemma CheckedAddNeverFails(l: Bytes, r: Bytes, weights: seq<Weight>, n: nat, dims: u64)
    requires n <= dims && WeightedDimsFit(dims)
    requires n <= 5 * |l| && |l| == |r| && n <= |weights| && NonNegative(weights[..n])
    ensures I64_MIN <= WeightedDot(l, r, weights, n) <= I64_MAX
  {
    WeightedBound(l, r, weights, n);
    assert n * I32_MAX <= dims * I32_MAX;
  }

  /** `qihse_tryte_checked_add_i64` */
  function CheckedAdd(a: int, b: int): Option<int> {
    if (b > 0 && a > I64_MAX - b) || (b < 0 && a < I64_MIN - b) then None else Some(a + b)
  }

  /** `qihse_trinary_tryte_weighted_similarity_i64`: refused exactly for too many dimensions,
      invalid rows or a negative weight. */
  method WeightedSimilarity(l: Bytes, r: Bytes, weights: seq<Weight>, dims: u64) returns (score: Option<int>)
    requires RowBuffer(l, dims) && RowBuffer(r, dims) && |weights| == dims
    ensures score.Some? <==> dims <= 0x7FFF_FFFF_FFFF_FFFF / 0x7FFF_FFFF && ValidRow(l, dims) && ValidRow(r, dims)
                             && forall i :: 0 <= i < dims ==> weights[i] >= 0
    ensures score.Some? ==> dims <= 5 * |l| && score.value == WeightedDot(l, r, weights, dims)
  {
    if dims > I64_MAX / I32_MAX { return None; }
    var okL := ValidateRow(l, dims);
    if !okL { return None; }
    var okR := ValidateRow(r, dims);
    if !okR { return None; }
    RowLength(dims, |l|);
    var sum, d := 0, 0;
    while d < dims
      invariant 0 <= d <= dims
      invariant NonNegative(weights[..d])
      invariant sum == WeightedDot(l, r, weights, d)
    {
      if weights[d] < 0 {
        return None;
      }
      assert weights[..d + 1] == weights[..d] + [weights[d]];
      CheckedAddNeverFails(l, r, weights, d + 1, dims);
      var next := CheckedAdd(sum, Component(l, d) * Component(r, d) * weights[d]);
      assert next.Some?;
      sum := next.value;
      d := d + 1;
    }
    assert weights[..d] == weights;
    return Some(sum);
  }

  // ---------------------------------------------------------------- selection

  /** The payload of the searched rows, one buffer each. */
  predicate RowBuffers(rows: seq<Bytes>, dims: u64) {
    forall i :: 0 <= i < |rows| ==> RowBuffer(rows[i], dims)
  }

  predicate ValidRows(rows: seq<Bytes>, dims: u64) {
    forall i :: 0 <= i < |rows| ==> ValidRow(rows[i], dims)
  }

  method ValidatePayload(rows: seq<Bytes>, dims: u64) returns (ok: bool)
    requires RowBuffers(rows, dims)
    ensures ok <==> RowBytes(dims).Some? && ValidRows(rows, dims)
  {
    if RowBytes(dims).None? { return false; }
    var i := 0;
    while i < |rows|
      invariant 0 <= i <= |rows|
      invariant forall k :: 0 <= k < i ==> ValidRow(rows[k], dims)
    {
      var valid := ValidateRow(rows[i], dims);
      if !valid { return false; }
      i := i + 1;
    }
    return true;
  }

  /** The byte count of the whole payload stays in a `size_t`. */
  predicate PayloadFits(rows: nat, dims: u64) {
    RowBytes(dims).Some? && rows * RowBytes(dims).value <= U64_MAX
  }

  /** Scores of the first `n` rows against the query. */
  ghost function Scores(rows: seq<Bytes>, query: Bytes, dims: u64, n: nat): (s: seq<int>)
    requires n <= |rows| && ValidRows(rows, dims) && ValidRow(query, dims)
    ensures |s| == n
  {
    if n == 0 then []
    else
      RowLength(dims, |query|);
      Scores(rows, query, dims, n - 1) + [DotTrits(rows[n - 1], query, dims)]
  }

  ghost function WeightedScores(rows: seq<Bytes>, query: Bytes, weights: seq<Weight>, dims: u64, n: nat): (s: seq<int>)
    requires n <= |rows| && ValidRows(rows, dims) && ValidRow(query, dims) && |weights| == dims
    ensures |s| == n
  {
    if n == 0 then []
    else
      RowLength(dims, |query|);
      WeightedScores(rows, query, weights, dims, n - 1) + [WeightedDot(rows[n - 1], query, weights, dims)]
  }

  method ScoreRow(rows: seq<Bytes>, query: Bytes, dims: u64, row: nat, cpu: Cpu) returns (score: Option<int>)
    requires RowBuffers(rows, dims) && RowBuffer(query, dims) && ValidRow(query, dims) && ValidRows(rows, dims)
    requires row < |rows|
    ensures score.Some? <==> dims <= I32_MAX
    ensures score.Some? ==> Scores(rows, query, dims, row + 1) == Scores(rows, query, dims, row) + [score.value]
  {
    score := Similarity(rows[row], query, dims, cpu);
  }

  method ScoreRowWeighted(rows: seq<Bytes>, query: Bytes, weights: seq<Weight>, dims: u64, row: nat)
    returns (score: Option<int>)
    requires RowBuffers(rows, dims) && RowBuffer(query, dims) && ValidRow(query, dims) && ValidRows(rows, dims)
    requires row < |rows| && |weights| == dims && WeightedDimsFit(dims)
    ensures score.Some? <==> NonNegative(weights)
    ensures score.Some? ==>
      WeightedScores(rows, query, weights, dims, row + 1) ==
        WeightedScores(rows, query, weights, dims, row) + [score.value]
  {
    score := WeightedSimilarity(rows[row], query, weights, dims);
  }

  /** The selection loop over rows known to be valid. */
  method FillBest(rows: seq<Bytes>, query: Bytes, dims: u64, outRows: array<nat>, outScores: array<int>, max: nat,
                  cpu: Cpu)
    returns (ok: bool, count: nat, ghost sel: seq<Candidate>)
    requires RowBuffers(rows, dims) && RowBuffer(query, dims) && ValidRow(query, dims) && ValidRows(rows, dims)
    requires max <= outRows.Length && max <= outScores.Length && outRows as object != outScores && |rows| > 0
    modifies outRows, outScores
    ensures ok <==> dims <= I32_MAX
    ensures !ok ==> count == 0
    ensures ok ==>
      count == |sel| <= max && Holds(outRows, outScores, sel) && IsTopK(Scores(rows, query, dims, |rows|), sel, max)
  {
    count, sel := 0, [];
    var row := 0;
    while row < |rows|
      invariant 0 <= row <= |rows|
      invariant row > 0 ==> dims <= I32_MAX
      invariant count == |sel| <= max && Holds(outRows, outScores, sel)
      invariant IsTopK(Scores(rows, query, dims, row), sel, max)
    {
      var score := ScoreRow(rows, query, dims, row, cpu);
      if score.None? { return false, 0, []; }
      PushKeepsTopK(Scores(rows, query, dims, row), sel, max, score.value);
      count := InsertCandidate(outRows, outScores, count, max, row, score.value, sel);
      sel := Push(sel, Candidate(score.value, row), max);
      row := row + 1;
    }
    ok := true;
  }

  /** The selection loop over rows known to be valid. */
  method FillBestWeighted(rows: seq<Bytes>, query: Bytes, weights: seq<Weight>, dims: u64, outRows: array<nat>,
                          outScores: array<int>, max: nat)
    returns (ok: bool, count: nat, ghost sel: seq<Candidate>)
    requires RowBuffers(rows, dims) && RowBuffer(query, dims) && ValidRow(query, dims) && ValidRows(rows, dims)
             && |weights| == dims && WeightedDimsFit(dims)
    requires max <= outRows.Length && max <= outScores.Length && outRows as object != outScores && |rows| > 0
    modifies outRows, outScores
    ensures ok <==> NonNegative(weights)
    ensures !ok ==> count == 0
    ensures ok ==>
      count == |sel| <= max && Holds(outRows, outScores, sel)
      && IsTopK(WeightedScores(rows, query, weights, dims, |rows|), sel, max)
  {
    count, sel := 0, [];
    var row := 0;
    while row < |rows|
      invariant 0 <= row <= |rows|
      invariant row > 0 ==> NonNegative(weights)
      invariant count == |sel| <= max && Holds(outRows, outScores, sel)
      invariant IsTopK(WeightedScores(rows, query, weights, dims, row), sel, max)
    {
      var score := ScoreRowWeighted(rows, query, weights, dims, row);
      if score.None? { return false, 0, []; }
      PushKeepsTopK(WeightedScores(rows, query, weights, dims, row), sel, max, score.value);
      count := InsertCandidate(outRows, outScores, count, max, row, score.value, sel);
      sel := Push(sel, Candidate(score.value, row), max);
      row := row + 1;
    }
    ok := true;
  }

  /** `qihse_trinary_tryte_select_topk`: the first `count` entries of the output arrays are the
      best `min(max, rows)` rows. `sel` names them for the contract. */
  method SelectTopK(rows: seq<Bytes>, query: Bytes, dims: u64, outRows: array<nat>, outScores: array<int>, max: nat,
                    cpu: Cpu)
    returns (ok: bool, count: nat, ghost sel: seq<Candidate>)
    requires RowBuffers(rows, dims) && RowBuffer(query, dims)
    requires max <= outRows.Length && max <= outScores.Length && outRows as object != outScores
    modifies outRows, outScores
    ensures ok <==> PayloadFits(|rows|, dims) && ValidRow(query, dims) && ValidRows(rows, dims)
                    && (|rows| == 0 || max == 0 || dims <= I32_MAX)
    ensures !ok ==> count == 0
    ensures ok ==> count == |sel| && Holds(outRows, outScores, sel)
    ensures ok ==> IsTopK(Scores(rows, query, dims, |rows|), sel, max)
    ensures ok ==>
      count <= max && BestRows(outRows[..count], outScores[..count], Scores(rows, query, dims, |rows|), max)
  {
    count, sel := 0, [];
    if RowBytes(dims).None? || |rows| * RowBytes(dims).value > U64_MAX { return false, 0, []; }
    var okQuery := ValidateRow(query, dims);
    if !okQuery { return false, 0, []; }
    var okRows := ValidatePayload(rows, dims);
    if !okRows { return false, 0, []; }
    if |rows| == 0 || max == 0 {
      TopKIsBest(Scores(rows, query, dims, |rows|), [], max, outRows[..0], outScores[..0]);
      return true, 0, [];
    }
    ok, count, sel := FillBest(rows, query, dims, outRows, outScores, max, cpu);
    if ok { TopKIsBest(Scores(rows, query, dims, |rows|), sel, max, outRows[..count], outScores[..count]); }
  }

  /** `qihse_trinary_tryte_select_topk_weighted` */
  method SelectTopKWeighted(rows: seq<Bytes>, query: Bytes, weights: seq<Weight>, dims: u64,
                            outRows: array<nat>, outScores: array<int>, max: nat)
    returns (ok: bool, count: nat, ghost sel: seq<Candidate>)
    requires RowBuffers(rows, dims) && RowBuffer(query, dims) && |weights| == dims
    requires max <= outRows.Length && max <= outScores.Length && outRows as object != outScores
    modifies outRows, outScores
    ensures ok <==> WeightedDimsFit(dims) && PayloadFits(|rows|, dims) && ValidRow(query, dims) && ValidRows(rows, dims)
                    && (|rows| == 0 || max == 0 || NonNegative(weights))
    ensures !ok ==> count == 0
    ensures ok ==> count == |sel| && Holds(outRows, outScores, sel)
    ensures ok ==> IsTopK(WeightedScores(rows, query, weights, dims, |rows|), sel, max)
    ensures ok ==>
      count <= max
      && BestRows(outRows[..count], outScores[..count], WeightedScores(rows, query, weights, dims, |rows|), max)
  {
    count, sel := 0, [];
    if dims > I64_MAX / I32_MAX { return false, 0, []; }
    if RowBytes(dims).None? || |rows| * RowBytes(dims).value > U64_MAX { return false, 0, []; }
    var okQuery := ValidateRow(query, dims);
    if !okQuery { return false, 0, []; }
    var okRows := ValidatePayload(rows, dims);
    if !okRows { return false, 0, []; }
    if |rows| == 0 || max == 0 {
      TopKIsBest(WeightedScores(rows, query, weights, dims, |rows|), [], max, outRows[..0], outScores[..0]);
      return true, 0, [];
    }
    ok, count, sel := FillBestWeighted(rows, query, weights, dims, outRows, outScores, max);
    if ok { TopKIsBest(WeightedScores(rows, query, weights, dims, |rows|), sel, max, outRows[..count],
                       outScores[..count]); }
  }
}
