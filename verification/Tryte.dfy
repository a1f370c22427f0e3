/** Five trits to a byte: packing, validation and row encoding
    (codecs/qihse_trinary_tryte_codec.c). */
module Tryte {
  import opened Prelude

  const TRITS := 5
  const TRYTE_MAX := 242

  /** The scalar a component is quantised from. */
  datatype Float = NaN | Number(value: real)

  function Place(i: nat): nat
    requires i <= TRITS
  {
    [1, 3, 9, 27, 81, 243][i]
  }

  /** Trit `i` of a byte, little-endian base 3. */
  function Trit(b: nat, i: nat): (t: nat)
    requires i < TRITS
    ensures t < 3
  {
    b / Place(i) % 3
  }

  /** Trits 0, 1, 2 stand for -1, 0, +1. */
  function Signed(t: nat): int { t - 1 }

  predicate AllTrits(trits: seq<u8>) {
    forall i :: 0 <= i < |trits| ==> trits[i] <= 2
  }

  function PackedValue(trits: seq<u8>): nat
    requires |trits| <= TRITS
  {
    if trits == [] then 0
    else PackedValue(trits[..|trits| - 1]) + trits[|trits| - 1] * Place(|trits| - 1)
  }

  lemma {:induction false} PackedBound(trits: seq<u8>)
    requires |trits| <= TRITS && AllTrits(trits)
    ensures PackedValue(trits) < Place(|trits|)
  {
    if trits != [] { PackedBound(trits[..|trits| - 1]); }
  }

  /** 8-bit accumulation is exact while the total fits. */
  function Accumulate(value: nat, addend: nat): (r: u8) { (value + addend % 256) % 256 }

  lemma AccumulateExact(value: nat, addend: nat)
    requires value + addend < 256
    ensures Accumulate(value, addend) == value + addend
  {}

  lemma PackStep(trits: seq<u8>, i: nat)
    requires i < |trits| <= TRITS && AllTrits(trits[..i + 1])
    ensures PackedValue(trits[..i + 1]) == PackedValue(trits[..i]) + trits[i] * Place(i) < Place(i + 1) <= 243
  {
    assert trits[..i + 1][..i] == trits[..i];
    PackedBound(trits[..i + 1]);
  }

  /** `qihse_trinary_tryte_pack5`, in 8-bit arithmetic. */
  method Pack5(trits: seq<u8>) returns (r: Option<u8>)
    requires |trits| == TRITS
    ensures r.Some? <==> AllTrits(trits)
    ensures r.Some? ==> r.value == PackedValue(trits) <= TRYTE_MAX
  {
    var place: u8, value: u8 := 1, 0;
    var i := 0;
    while i < TRITS
      invariant 0 <= i <= TRITS
      invariant place == Place(i)
      invariant AllTrits(trits[..i]) && value == PackedValue(trits[..i])
    {
      if trits[i] > 2 {
        return None;
      }
      PackStep(trits, i);
      var addend: nat := trits[i] * place;
      AccumulateExact(value, addend);
      value := Accumulate(value, addend);
      place := place * 3 % 256;
      i := i + 1;
    }
    assert trits[..i] == trits;
    PackedBound(trits);
    return Some(value);
  }

  /** `qihse_trinary_tryte_unpack` */
  method Unpack(tryte: u8) returns (r: Option<seq<u8>>)
    ensures r.Some? <==> tryte <= TRYTE_MAX
    ensures r.Some? ==> |r.value| == TRITS && forall i :: 0 <= i < TRITS ==> r.value[i] == Trit(tryte, i)
  {
    if tryte > TRYTE_MAX { return None; }
    var trits: seq<u8> := [];
    var rest: u8 := tryte;
    var i := 0;
    while i < TRITS
      invariant 0 <= i <= TRITS && |trits| == i
      invariant rest == tryte / Place(i)
      invariant forall k :: 0 <= k < i ==> trits[k] == Trit(tryte, k)
    {
      trits := trits + [rest % 3];
      rest := rest / 3;
      i := i + 1;
    }
    return Some(trits);
  }

  /** Reading digits one at a time is dividing by the place value. */
  lemma TritSteps(v: nat)
    ensures Trit(v, 0) == v % 3
    ensures Trit(v, 1) == v / 3 % 3
    ensures Trit(v, 2) == v / 3 / 3 % 3
    ensures Trit(v, 3) == v / 3 / 3 / 3 % 3
    ensures Trit(v, 4) == v / 3 / 3 / 3 / 3 % 3
  {
    assert v / 9 == v / 3 / 3;
    assert v / 27 == v / 9 / 3;
    assert v / 81 == v / 27 / 3;
  }

  lemma PackedExpands(t: seq<u8>, t0: nat, t1: nat, t2: nat, t3: nat, t4: nat)
    requires t == [t0, t1, t2, t3, t4]
    ensures PackedValue(t) == t0 + 3 * (t1 + 3 * (t2 + 3 * (t3 + 3 * t4)))
  {
    assert t[..4][..3] == t[..3] && t[..3][..2] == t[..2] && t[..2][..1] == t[..1] && t[..1][..0] == [];
    assert PackedValue(t[..1]) == t0;
    assert PackedValue(t[..2]) == t0 + 3 * t1;
    assert PackedValue(t[..3]) == t0 + 3 * t1 + 9 * t2;
    assert PackedValue(t[..4]) == t0 + 3 * t1 + 9 * t2 + 27 * t3;
  }

  lemma Digit(d: nat, q: nat)
    requires d < 3
    ensures (d + 3 * q) % 3 == d && (d + 3 * q) / 3 == q
  {}

  /** Packing is a bijection between five trits and the bytes 0 to 242. */
  lemma UnpackOfPack(t: seq<u8>)
    requires |t| == TRITS && AllTrits(t)
    ensures forall i :: 0 <= i < TRITS ==> Trit(PackedValue(t), i) == t[i]
  {
    var t0: nat, t1: nat, t2: nat, t3: nat, t4: nat := t[0], t[1], t[2], t[3], t[4];
    PackedExpands(t, t0, t1, t2, t3, t4);
    TritSteps(PackedValue(t));
    var q3: nat := t3 + 3 * t4;
    var q2: nat := t2 + 3 * q3;
    var q1: nat := t1 + 3 * q2;
    Digit(t0, q1);
    Digit(t1, q2);
    Digit(t2, q3);
    Digit(t3, t4);
  }

  lemma Recombine(b: nat, q1: nat, q2: nat, q3: nat, q4: nat)
    requires b <= TRYTE_MAX && q1 == b / 3 && q2 == q1 / 3 && q3 == q2 / 3 && q4 == q3 / 3
    ensures b == b % 3 + 3 * (q1 % 3 + 3 * (q2 % 3 + 3 * (q3 % 3 + 3 * (q4 % 3))))
  {
    assert b == 3 * q1 + b % 3 && q1 == 3 * q2 + q1 % 3 && q2 == 3 * q3 + q2 % 3 && q3 == 3 * q4 + q3 % 3;
    assert q4 <= 2;
  }

  lemma PackOfUnpack(b: u8)
    requires b <= TRYTE_MAX
    ensures PackedValue([Trit(b, 0), Trit(b, 1), Trit(b, 2), Trit(b, 3), Trit(b, 4)]) == b
  {
    TritSteps(b);
    PackedExpands([Trit(b, 0), Trit(b, 1), Trit(b, 2), Trit(b, 3), Trit(b, 4)], Trit(b, 0), Trit(b, 1), Trit(b, 2),
                  Trit(b, 3), Trit(b, 4));
    var n: nat := b;
    Recombine(n, n / 3, n / 3 / 3, n / 3 / 3 / 3, n / 3 / 3 / 3 / 3);
  }

  /** Bytes of a row, or `None` when the sum wraps in `size_t`. */
  function RowBytes(dims: u64): Option<nat> {
    if dims > U64_MAX - 4 then None else Some((dims + 4) / 5)
  }

  predicate Neutral(b: nat, from: nat) {
    forall i {:trigger Trit(b, i)} :: from <= i < TRITS ==> Trit(b, i) == 1
  }

  /** The bytes of one row: every byte a tryte, the unused trits of the last one neutral. */
  predicate ValidRow(row: Bytes, dims: u64) {
    && RowBytes(dims) == Some(|row|)
    && (forall i :: 0 <= i < |row| ==> row[i] <= TRYTE_MAX)
    && (dims % TRITS != 0 ==> Neutral(row[|row| - 1], dims % TRITS))
  }

  /** `qihse_trinary_tryte_validate` and the padding check. */
  method ValidateRow(row: Bytes, dims: u64) returns (ok: bool)
    requires RowBytes(dims).Some? ==> |row| == RowBytes(dims).value
    ensures ok <==> ValidRow(row, dims)
  {
    if dims > U64_MAX - 4 { return false; }
    var i := 0;
    while i < |row|
      invariant 0 <= i <= |row|
      invariant forall k :: 0 <= k < i ==> row[k] <= TRYTE_MAX
    {
      if row[i] > TRYTE_MAX { return false; }
      i := i + 1;
    }
    var used := dims % TRITS;
    if |row| == 0 || used == 0 { return true; }
    var last := row[|row| - 1];
    var trits := Unpack(last);
    i := used;
    while i < TRITS
      invariant used <= i <= TRITS
      invariant forall k {:trigger Trit(last, k)} :: used <= k < i ==> Trit(last, k) == 1
    {
      if trits.value[i] != 1 { return false; }
      i := i + 1;
    }
    return true;
  }

  function TritOf(x: Float): (t: u8)
    ensures t <= 2
  {
    match x
    case NaN => 1
    case Number(v) => if v < 0.0 then 0 else if v > 0.0 then 2 else 1
  }

  /** `c` is the sign of `x`; NaN has none. */
  predicate IsSign(c: int, x: Float) {
    && (c == -1 <==> x.Number? && x.value < 0.0) && (c == 1 <==> x.Number? && x.value > 0.0)
    && (c == 0 <==> x.NaN? || x.value == 0.0)
  }

  /** The signed trit of dimension `d`. */
  function Component(row: Bytes, d: nat): int
    requires d / TRITS < |row|
  {
    Signed(Trit(row[d / TRITS], d % TRITS))
  }

  /** The five trits that go into one byte, neutral beyond the last dimension. */
  method GatherTrits(vector: seq<Float>, at: nat) returns (trits: seq<u8>)
    ensures |trits| == TRITS && AllTrits(trits)
    ensures forall i :: 0 <= i < TRITS ==> trits[i] == if at + i < |vector| then TritOf(vector[at + i]) else 1
  {
    trits := [1, 1, 1, 1, 1];
    var i := 0;
    while i < TRITS
      invariant 0 <= i <= TRITS && |trits| == TRITS
      invariant forall k :: 0 <= k < TRITS ==>
        trits[k] == if k < i && at + k < |vector| then TritOf(vector[at + k]) else 1
    {
      if at + i < |vector| { trits := trits[i := TritOf(vector[at + i])]; }
      i := i + 1;
    }
  }

  /** Byte `i` of a row holds the signs of its five components, neutral past the end. */
  predicate Carries(b: u8, vector: seq<Float>, i: nat) {
    b <= TRYTE_MAX && forall k :: 0 <= k < TRITS ==>
      Trit(b, k) == if 5 * i + k < |vector| then TritOf(vector[5 * i + k]) else 1
  }

  method EncodeByte(vector: seq<Float>, i: nat) returns (b: u8)
    ensures Carries(b, vector, i)
  {
    var trits := GatherTrits(vector, 5 * i);
    var packed := Pack5(trits);
    UnpackOfPack(trits);
    b := packed.value;
  }

  lemma HeldComponent(bytes: Bytes, vector: seq<Float>, d: nat)
    requires d < |vector| <= 5 * |bytes| && Carries(bytes[d / TRITS], vector, d / TRITS)
    ensures IsSign(Component(bytes, d), vector[d])
  {
    assert 5 * (d / TRITS) + d % TRITS == d;
  }

  lemma HeldRowValid(bytes: Bytes, vector: seq<Float>)
    requires |vector| <= U64_MAX - 4 && |bytes| == (|vector| + 4) / 5
    requires forall i :: 0 <= i < |bytes| ==> Carries(bytes[i], vector, i)
    ensures ValidRow(bytes, |vector|)
  {}

  /** `qihse_trinary_tryte_encode_row`: the row is valid and holds the sign of every component. */
  method EncodeRow(vector: seq<Float>) returns (row: Option<Bytes>)
    requires |vector| <= U64_MAX
    ensures row.Some? <==> RowBytes(|vector|).Some?
    ensures row.Some? ==> ValidRow(row.value, |vector|)
    ensures row.Some? ==> forall d :: 0 <= d < |vector| ==> IsSign(Component(row.value, d), vector[d])
  {
    var n := |vector|;
    if n > U64_MAX - 4 { return None; }
    var bytes: Bytes := [];
    var count := (n + 4) / 5;
    while |bytes| < count
      invariant |bytes| <= count
      invariant forall i :: 0 <= i < |bytes| ==> Carries(bytes[i], vector, i)
      decreases count - |bytes|
    {
      var b := EncodeByte(vector, |bytes|);
      bytes := bytes + [b];
    }
    HeldRowValid(bytes, vector);
    forall d | 0 <= d < n ensures IsSign(Component(bytes, d), vector[d]) {
      HeldComponent(bytes, vector, d);
    }
    return Some(bytes);
  }
}
