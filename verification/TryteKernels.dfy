/** The block loops around the lanes (codecs/qihse_trinary_tryte_codec.c). */
module TryteKernels {
  import opened Prelude
  import opened Tryte
  import opened TryteDot

  predicate Trytes(row: Bytes) {
    forall i :: 0 <= i < |row| ==> row[i] <= TRYTE_MAX
  }

  lemma {:induction false} TableSumSplits(l: Bytes, r: Bytes, a: nat, b: nat, c: nat)
    requires a <= b <= c <= |l| == |r|
    ensures TableSum(l, r, a, c) == TableSum(l, r, a, b) + TableSum(l, r, b, c)
    decreases c - b
  {
    if b < c { TableSumSplits(l, r, a, b, c - 1); }
  }

  /** A load reads two neighbouring bytes into one word. */
  function Load(row: Bytes, at: nat): u16
    requires at + 1 < |row|
  {
    Word(row[at], row[at + 1])
  }

  /** A signed 32-bit sum, wrapped when it does not fit. */
  function Wrap32(x: int): int {
    if I32_MIN <= x <= I32_MAX then x else (x + 0x8000_0000) % 0x1_0000_0000 - 0x8000_0000
  }

  /** A signed 16-bit sum, saturated. */
  function Saturate16(x: int): int { if x < -0x8000 then -0x8000 else if x > 0x7FFF then 0x7FFF else x }

  /** One 32-bit lane of a block: `maddubs` adds byte pairs, saturating to 16 bits, and `madd`
      adds word pairs into 32. */
  function QuadSum(l: Bytes, r: Bytes, at: nat): int
    requires at + 3 < |l| == |r|
  {
    var p, q := WordProducts(Load(l, at), Load(r, at)), WordProducts(Load(l, at + 2), Load(r, at + 2));
    Wrap32(Saturate16(p.lo + p.hi) + Saturate16(q.lo + q.hi))
  }

  /** Two neighbouring bytes of both rows: their sums, each at most five. */
  lemma LoadedProducts(l: Bytes, r: Bytes, at: nat)
    requires at + 1 < |l| == |r| && Trytes(l) && Trytes(r)
    ensures var p := WordProducts(Load(l, at), Load(r, at));
            p == Pair(ScalarByte(l[at], r[at]), ScalarByte(l[at + 1], r[at + 1])) && SmallPair(p, 5)
  {
    WordProductsLanes(l[at], l[at + 1], r[at], r[at + 1]);
    LaneIsScalar(l[at], r[at]);
    LaneIsScalar(l[at + 1], r[at + 1]);
    LaneSumSmall(l[at], r[at]);
    LaneSumSmall(l[at + 1], r[at + 1]);
  }

  /** Four bytes add at most 20 to a lane, with neither saturation nor wrap. */
  lemma QuadIsTable(l: Bytes, r: Bytes, at: nat)
    requires at + 3 < |l| == |r| && Trytes(l) && Trytes(r)
    ensures QuadSum(l, r, at) == TableSum(l, r, at, at + 4)
    ensures -20 <= QuadSum(l, r, at) <= 20
  {
    LoadedProducts(l, r, at);
    LoadedProducts(l, r, at + 2);
    assert TableSum(l, r, at, at + 1) == ScalarByte(l[at], r[at]);
    assert TableSum(l, r, at, at + 2) == TableSum(l, r, at, at + 1) + ScalarByte(l[at + 1], r[at + 1]);
    assert TableSum(l, r, at, at + 3) == TableSum(l, r, at, at + 2) + ScalarByte(l[at + 2], r[at + 2]);
  }

  function LaneTotal(acc: seq<int>): int {
    if acc == [] then 0 else LaneTotal(acc[..|acc| - 1]) + acc[|acc| - 1]
  }

  /** Adding one block to the accumulator adds its bytes to the total. */
  lemma {:induction false} BlockAdds(acc: seq<int>, acc': seq<int>, l: Bytes, r: Bytes, at: nat)
    requires |acc| == |acc'| && at + 4 * |acc| <= |l| == |r|
    requires forall k {:trigger acc'[k]} :: 0 <= k < |acc| ==>
      acc'[k] == acc[k] + TableSum(l, r, at + 4 * k, at + 4 * k + 4)
    ensures LaneTotal(acc') == LaneTotal(acc) + TableSum(l, r, at, at + 4 * |acc|)
  {
    if acc != [] {
      var n := |acc| - 1;
      BlockAdds(acc[..n], acc'[..n], l, r, at);
      TableSumSplits(l, r, at, at + 4 * n, at + 4 * n + 4);
    }
  }

  /** The horizontal sum: upper half onto lower half, then pairs. */
  function Reduce4(acc: seq<int>): int
    requires |acc| == 4
  {
    Wrap32(Wrap32(acc[0] + acc[2]) + Wrap32(acc[1] + acc[3]))
  }

  function Reduce8(acc: seq<int>): int
    requires |acc| == 8
  {
    Reduce4([Wrap32(acc[0] + acc[4]), Wrap32(acc[1] + acc[5]), Wrap32(acc[2] + acc[6]), Wrap32(acc[3] + acc[7])])
  }

  /** Every lane holds at most 20 for each block added to it. */
  predicate LanesWithin(acc: seq<int>, blocks: nat) {
    forall k :: 0 <= k < |acc| ==> 0 - 20 * blocks <= acc[k] <= 20 * blocks
  }

  /** Rows of this length and sum keep every 32-bit value of every kernel in range: all but the
      last byte add at most five each. */
  predicate FitsInt32(l: Bytes, r: Bytes)
    requires |l| == |r|
  {
    5 * (|l| - 1) <= I32_MAX && I32_MIN <= TableSum(l, r, 0, |l|) <= I32_MAX
  }

  lemma {:induction false} TableSumBounded(l: Bytes, r: Bytes, a: nat, b: nat)
    requires a <= b <= |l| == |r| && Trytes(l) && Trytes(r)
    ensures 0 - 5 * (b - a) <= TableSum(l, r, a, b) <= 5 * (b - a)
    decreases b
  {
    if a < b {
      TableSumBounded(l, r, a, b - 1);
      LaneIsScalar(l[b - 1], r[b - 1]);
      LaneSumSmall(l[b - 1], r[b - 1]);
    }
  }

  /** No running sum of such rows leaves 32 bits. */
  lemma PrefixFits(l: Bytes, r: Bytes, n: nat)
    requires n <= |l| == |r| && Trytes(l) && Trytes(r) && FitsInt32(l, r)
    ensures I32_MIN <= TableSum(l, r, 0, n) <= I32_MAX
  {
    if n < |l| { TableSumBounded(l, r, 0, n); }
  }

  lemma LaneTotal4(a: seq<int>)
    requires |a| == 4
    ensures LaneTotal(a) == a[0] + a[1] + a[2] + a[3]
  {
    assert a[..3][..2] == a[..2] && a[..2][..1] == a[..1] && a[..1][..0] == [];
    assert LaneTotal(a[..1]) == a[0];
    assert LaneTotal(a[..2]) == a[0] + a[1];
    assert LaneTotal(a[..3]) == a[0] + a[1] + a[2];
  }

  lemma LaneTotal8(a: seq<int>)
    requires |a| == 8
    ensures LaneTotal(a) == LaneTotal(a[..4]) + a[4] + a[5] + a[6] + a[7]
  {
    assert a[..7][..6] == a[..6] && a[..6][..5] == a[..5] && a[..5][..4] == a[..4];
    assert LaneTotal(a[..5]) == LaneTotal(a[..4]) + a[4];
    assert LaneTotal(a[..6]) == LaneTotal(a[..5]) + a[5];
    assert LaneTotal(a[..7]) == LaneTotal(a[..6]) + a[6];
  }

  /** The horizontal sum of lanes that cannot overflow is their total. */
  lemma ReduceIsTotal(acc: seq<int>, blocks: nat)
    requires LanesWithin(acc, blocks) && 20 * |acc| * blocks <= I32_MAX
    ensures |acc| == 4 ==> Reduce4(acc) == LaneTotal(acc)
    ensures |acc| == 8 ==> Reduce8(acc) == LaneTotal(acc)
  {
    if |acc| == 4 {
      LaneTotal4(acc);
      ReduceNoWrap(acc[0], acc[1], acc[2], acc[3], 20 * blocks);
    } else if |acc| == 8 {
      LaneTotal8(acc);
      LaneTotal4(acc[..4]);
      ReduceNoWrap(acc[0] + acc[4], acc[1] + acc[5], acc[2] + acc[6], acc[3] + acc[7], 40 * blocks);
    }
  }

  lemma ReduceNoWrap(a: int, b: int, c: int, d: int, m: nat)
    requires 0 - m <= a <= m && 0 - m <= b <= m && 0 - m <= c <= m && 0 - m <= d <= m && 4 * m <= I32_MAX
    ensures Wrap32(a) == a && Wrap32(b) == b && Wrap32(c) == c && Wrap32(d) == d
    ensures Wrap32(Wrap32(a + c) + Wrap32(b + d)) == a + b + c + d
  {}

  /** The scalar loop, also the tail of both kernels. No addition leaves 32 bits. */
  method ScalarFrom(l: Bytes, r: Bytes, from: nat, start: i32) returns (score: i32)
    requires from <= |l| == |r| && Trytes(l) && Trytes(r) && FitsInt32(l, r) && start == TableSum(l, r, 0, from)
    ensures score == TableSum(l, r, 0, |l|)
  {
    score := start;
    var i := from;
    while i < |l|
      invariant from <= i <= |l|
      invariant score == TableSum(l, r, 0, i)
    {
      PrefixFits(l, r, i + 1);
      score := score + ScalarByte(l[i], r[i]);
      i := i + 1;
    }
  }

  /** One 32-bit lane of a block. */
  method Quad(l: Bytes, r: Bytes, at: nat) returns (q: int)
    requires at + 4 <= |l| == |r| && Trytes(l) && Trytes(r)
    ensures q == TableSum(l, r, at, at + 4) && -20 <= q <= 20
  {
    QuadIsTable(l, r, at);
    q := QuadSum(l, r, at);
  }

  /** So many bytes are that many whole blocks. */
  predicate Whole(bytes: nat, lanes: nat, blocks: nat) { bytes == if lanes == 4 then 16 * blocks else 32 * blocks }

  /** One turn of the block loop: the products of a block, added lane by lane without a wrap. */
  method AddBlock(acc: seq<int>, l: Bytes, r: Bytes, at: nat, ghost blocks: nat) returns (acc': seq<int>)
    requires at + 4 * |acc| <= |l| == |r| && Trytes(l) && Trytes(r)
    requires LanesWithin(acc, blocks) && 20 * (blocks + 1) <= I32_MAX
    ensures |acc'| == |acc| && LaneTotal(acc') == LaneTotal(acc) + TableSum(l, r, at, at + 4 * |acc|)
    ensures LanesWithin(acc', blocks + 1)
  {
    acc' := [];
    while |acc'| < |acc|
      invariant |acc'| <= |acc| && LanesWithin(acc', blocks + 1)
      invariant forall k {:trigger acc'[k]} :: 0 <= k < |acc'| ==>
        acc'[k] == acc[k] + TableSum(l, r, at + 4 * k, at + 4 * k + 4)
      decreases |acc| - |acc'|
    {
      var q := Quad(l, r, at + 4 * |acc'|);
      acc' := acc' + [Wrap32(acc[|acc'|] + q)];
    }
    BlockAdds(acc, acc', l, r, at);
  }

  /** `qihse_tryte_dot_product_ssse3` (four 32-bit lanes) and `_avx2` (eight). */
  method LaneDot(l: Bytes, r: Bytes, lanes: nat) returns (score: i32)
    requires |l| == |r| && Trytes(l) && Trytes(r) && FitsInt32(l, r)
    requires lanes == 4 || lanes == 8
    ensures score == TableSum(l, r, 0, |l|)
  {
    var acc: seq<int> := if lanes == 4 then [0, 0, 0, 0] else [0, 0, 0, 0, 0, 0, 0, 0];
    ReduceIsTotal(acc, 0);
    var i := 0;
    ghost var blocks := 0;
    while i + 4 * lanes <= |l|
      invariant 0 <= i <= |l| && |acc| == lanes && Whole(i, lanes, blocks)
      invariant LaneTotal(acc) == TableSum(l, r, 0, i) && LanesWithin(acc, blocks)
    {
      acc := AddBlock(acc, l, r, i, blocks);
      TableSumSplits(l, r, 0, i, i + 4 * lanes);
      i, blocks := i + 4 * lanes, blocks + 1;
    }
    var total := Reduce(acc, l, r, i, blocks);
    score := ScalarFrom(l, r, i, total);
  }

  /** Whole blocks leave room: the largest multiple of 16 bytes still sums below 2^31. */
  lemma RoomForReduction(length: nat, lanes: nat, i: nat, blocks: nat)
    requires 5 * (length - 1) <= I32_MAX && i <= length && (lanes == 4 || lanes == 8) && Whole(i, lanes, blocks)
    ensures 20 * lanes * blocks <= I32_MAX
  {
    if lanes == 4 { assert 20 * lanes * blocks == 80 * blocks; } else { assert 20 * lanes * blocks == 160 * blocks; }
  }

  /** The horizontal sum after the block loop. */
  method Reduce(acc: seq<int>, l: Bytes, r: Bytes, i: nat, ghost blocks: nat) returns (total: i32)
    requires i <= |l| == |r| && Trytes(l) && Trytes(r) && FitsInt32(l, r)
    requires (|acc| == 4 || |acc| == 8) && Whole(i, |acc|, blocks) && LanesWithin(acc, blocks)
    requires LaneTotal(acc) == TableSum(l, r, 0, i)
    ensures total == TableSum(l, r, 0, i)
  {
    RoomForReduction(|l|, |acc|, i, blocks);
    ReduceIsTotal(acc, blocks);
    PrefixFits(l, r, i);
    total := if |acc| == 4 then Reduce4(acc) else Reduce8(acc);
  }

  /** The processor features found at start-up. */
  datatype Cpu = Avx2 | Ssse3 | Plain

  /** `qihse_tryte_dot_product`: the same number on every processor. */
  method DotProduct(l: Bytes, r: Bytes, cpu: Cpu) returns (score: i32)
    requires |l| == |r| && Trytes(l) && Trytes(r) && FitsInt32(l, r)
    ensures score == TableSum(l, r, 0, |l|)
  {
    match cpu
    case Avx2 => score := LaneDot(l, r, 8);
    case Ssse3 => score := LaneDot(l, r, 4);
    case Plain => score := ScalarFrom(l, r, 0, 0);
  }

  // ---------------------------------------------------------------- the meaning of the sum

  /** The signed-trit dot product over the first `n` dimensions. */
  function DotTrits(l: Bytes, r: Bytes, n: nat): int
    requires n <= 5 * |l| && |l| == |r|
  {
    if n == 0 then 0
    else
      var d := n - 1;
      DotTrits(l, r, d) + Component(l, d) * Component(r, d)
  }

  /** Whole bytes add whole groups of five dimensions. */
  lemma {:induction false} DotTritsWithin(l: Bytes, r: Bytes, byte: nat, n: nat)
    requires byte < |l| == |r| && n <= TRITS
    ensures DotTrits(l, r, 5 * byte + n) == DotTrits(l, r, 5 * byte) + TritSum(l[byte], r[byte], n)
  {
    if n > 0 {
      DotTritsWithin(l, r, byte, n - 1);
      var d := 5 * byte + n - 1;
      assert d / TRITS == byte && d % TRITS == n - 1;
    }
  }

  lemma WholeByte(l: Bytes, r: Bytes, byte: nat)
    requires byte < |l| == |r| && l[byte] <= TRYTE_MAX && r[byte] <= TRYTE_MAX
    ensures DotTrits(l, r, 5 * byte + 5) == DotTrits(l, r, 5 * byte) + ScalarByte(l[byte], r[byte])
  {
    ScalarByteIsTritSum(l[byte], r[byte]);
    DotTritsWithin(l, r, byte, TRITS);
  }

  lemma {:induction false} TableSumIsDotTrits(l: Bytes, r: Bytes, bytes: nat)
    requires bytes <= |l| == |r| && Trytes(l) && Trytes(r)
    ensures TableSum(l, r, 0, bytes) == DotTrits(l, r, 5 * bytes)
  {
    if bytes > 0 {
      TableSumIsDotTrits(l, r, bytes - 1);
      WholeByte(l, r, bytes - 1);
      assert 5 * (bytes - 1) + 5 == 5 * bytes;
    }
  }

  lemma {:induction false} NeutralAddsNothing(l: nat, r: nat, from: nat, n: nat)
    requires from <= n <= TRITS && Neutral(l, from)
    ensures TritSum(l, r, n) == TritSum(l, r, from)
  {
    if from < n {
      NeutralAddsNothing(l, r, from, n - 1);
      assert Trit(l, n - 1) == 1;
    }
  }

  /** Unused trits of a byte contribute nothing. */
  lemma PartialByte(l: Bytes, r: Bytes, byte: nat, used: nat)
    requires byte < |l| == |r| && used <= TRITS && Neutral(l[byte], used)
    ensures DotTrits(l, r, 5 * byte + TRITS) == DotTrits(l, r, 5 * byte + used)
  {
    DotTritsWithin(l, r, byte, TRITS);
    DotTritsWithin(l, r, byte, used);
    NeutralAddsNothing(l[byte], r[byte], used, TRITS);
  }

  lemma RowLength(dims: u64, bytes: nat)
    requires RowBytes(dims) == Some(bytes)
    ensures if dims % TRITS == 0 then dims == 5 * bytes else bytes > 0 && dims == 5 * (bytes - 1) + dims % TRITS
  {}

  /** Padding contributes nothing: on valid rows the table sum is the dot product of the real
      dimensions. */
  lemma PaddingIsSilent(l: Bytes, r: Bytes, dims: u64)
    requires ValidRow(l, dims) && ValidRow(r, dims)
    ensures dims <= 5 * |l| && TableSum(l, r, 0, |l|) == DotTrits(l, r, dims)
  {
    TableSumIsDotTrits(l, r, |l|);
    RowLength(dims, |l|);
    if dims % TRITS != 0 {
      PartialByte(l, r, |l| - 1, dims % TRITS);
    }
  }

  /** Every partial sum over real dimensions stays within their number. */
  lemma {:induction false} DotTritsBounded(l: Bytes, r: Bytes, n: nat)
    requires n <= 5 * |l| && |l| == |r|
    ensures 0 - n <= DotTrits(l, r, n) <= n
  {
    if n > 0 {
      DotTritsBounded(l, r, n - 1);
      ProductBound(Component(l, n - 1), Component(r, n - 1));
    }
  }

  /** Valid rows of at most 2^31 - 1 dimensions keep every kernel within 32 bits. */
  lemma RowFitsInt32(l: Bytes, r: Bytes, dims: u64)
    requires ValidRow(l, dims) && ValidRow(r, dims) && dims <= I32_MAX
    ensures |l| == |r| && Trytes(l) && Trytes(r) && FitsInt32(l, r)
  {
    PaddingIsSilent(l, r, dims);
    DotTritsBounded(l, r, dims);
    RowLength(dims, |l|);
  }

  lemma ProductBound(a: int, b: int)
    requires -1 <= a <= 1 && -1 <= b <= 1
    ensures -1 <= a * b <= 1
  {}
}
