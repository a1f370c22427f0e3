/** Dot products of packed trit rows: the table loop, and the 16- and 32-lane kernels that
    unpack with multiply-and-shift and sum in 32-bit lanes
    (codecs/qihse_trinary_tryte_codec.c). */
module TryteDot {
  import opened Prelude
  import opened Tryte

  // ---------------------------------------------------------------- the scalar table

  /** Entry of `qihse_tryte_dot3`. */
  function Dot3(a: nat, b: nat): int {
    (a % 3 - 1) * (b % 3 - 1) + (a / 3 % 3 - 1) * (b / 3 % 3 - 1) + (a / 9 % 3 - 1) * (b / 9 % 3 - 1)
  }

  function ScalarByte(l: nat, r: nat): int {
    Dot3(l % 27, r % 27) + Dot3(l / 27 + 9, r / 27 + 9)
  }

  /** The table sum over the bytes from `a` up to `b`. */
  function TableSum(l: Bytes, r: Bytes, a: nat, b: nat): int
    requires a <= b <= |l| == |r|
  {
    if a == b then 0 else TableSum(l, r, a, b - 1) + ScalarByte(l[b - 1], r[b - 1])
  }

  /** The five signed products of two bytes. */
  function TritProduct(l: nat, r: nat, i: nat): int
    requires i < TRITS
  {
    Signed(Trit(l, i)) * Signed(Trit(r, i))
  }

  function TritSum(l: nat, r: nat, n: nat): int
    requires n <= TRITS
  {
    if n == 0 then 0 else TritSum(l, r, n - 1) + TritProduct(l, r, n - 1)
  }

  lemma LowTrits(b: nat, q: nat, m: nat)
    requires b == 27 * q + m && m < 27
    ensures Trit(b, 0) == m % 3 && Trit(b, 1) == m / 3 % 3 && Trit(b, 2) == m / 9 % 3
  {
    assert b / 3 == 9 * q + m / 3;
    assert b / 9 == 3 * q + m / 9;
  }

  lemma HighTrits(b: nat, q: nat, m: nat)
    requires b == 27 * q + m && m < 27 && q <= 8
    ensures Trit(b, 3) == (q + 9) % 3 && Trit(b, 4) == (q + 9) / 3 % 3 && (q + 9) / 9 % 3 == 1
  {
    assert b / 27 == q;
    assert b / 81 == q / 3;
  }

  /** One table step adds the products of all five trits. */
  lemma ScalarByteIsTritSum(l: nat, r: nat)
    requires l <= TRYTE_MAX && r <= TRYTE_MAX
    ensures ScalarByte(l, r) == TritSum(l, r, TRITS)
  {
    LowTrits(l, l / 27, l % 27);
    LowTrits(r, r / 27, r % 27);
    HighTrits(l, l / 27, l % 27);
    HighTrits(r, r / 27, r % 27);
    TritSumExpands(l, r);
  }

  lemma TritSumExpands(l: nat, r: nat)
    ensures TritSum(l, r, TRITS)
         == TritProduct(l, r, 0) + TritProduct(l, r, 1) + TritProduct(l, r, 2) + TritProduct(l, r, 3)
         + TritProduct(l, r, 4)
  {
    assert TritSum(l, r, 1) == TritProduct(l, r, 0);
    assert TritSum(l, r, 2) == TritSum(l, r, 1) + TritProduct(l, r, 1);
    assert TritSum(l, r, 3) == TritSum(l, r, 2) + TritProduct(l, r, 2);
    assert TritSum(l, r, 4) == TritSum(l, r, 3) + TritProduct(l, r, 3);
  }

  // ---------------------------------------------------------------- one 16-bit word of a register

  /** A 16-bit word holds two byte lanes; signed bytes after the look-up. */
  datatype Pair = Pair(lo: int, hi: int)

  function OrBits(x: nat, y: nat): nat {
    if x == 0 then y
    else if y == 0 then x
    else 2 * OrBits(x / 2, y / 2) + (if x % 2 == 1 || y % 2 == 1 then 1 else 0)
  }

  /** Bitwise or of a word, its two bytes apart. */
  function Or(x: u16, y: u16): u16 {
    (OrBits(x % 256, y % 256) + 256 * OrBits(x / 256, y / 256)) % 0x1_0000
  }

  function MulLo(x: u16, k: nat): u16 { x * k % 0x1_0000 }

  function ShiftLeft8(x: u16): u16 { x * 256 % 0x1_0000 }

  /** `sub_epi8` on both bytes. */
  function SubBytes(x: u16, y: u16): u16 {
    var lo: int := (x % 256 - y % 256) % 256;
    var hi: int := (x / 256 - y / 256) % 256;
    lo + 256 * hi
  }

  const LUT_LO := [-1, 0, 1, -1, 0, 1, -1, 0, 1, 0, 0, 0, 0, 0, 0, 0]
  const LUT_HI := [-1, -1, -1, 0, 0, 0, 1, 1, 1, 0, 0, 0, 0, 0, 0, 0]
  const LUT_MID := [-1, 0, 1, 0, 0, 0, 0, 0, 0, 0, 0, 0, 0, 0, 0, 0]

  /** `shuffle_epi8` of one byte. */
  function LookUp(lut: seq<int>, index: u8): int
    requires |lut| == 16
  {
    if index >= 128 then 0 else lut[index % 16]
  }

  function Shuffle(lut: seq<int>, x: u16): Pair
    requires |lut| == 16
  {
    Pair(LookUp(lut, x % 256), LookUp(lut, x / 256))
  }

  /** Both lanes multiplied and merged. */
  function Scaled(even: u16, odd: u16, k: nat): u16 {
    Or(MulLo(even, k), ShiftLeft8(MulLo(odd, k)))
  }

  /** The intermediate registers of the unpacker, for one word. */
  function HighWord(w: u16): u16 {
    var even := MulLo(w % 256, 19) / 512;
    var odd := MulLo(w / 256, 19) / 512;
    Or(even, ShiftLeft8(odd))
  }

  function High27Word(w: u16): u16 {
    var even := MulLo(w % 256, 19) / 512;
    var odd := MulLo(w / 256, 19) / 512;
    Scaled(even, odd, 27)
  }

  function MidWord(rem: u16): u16 {
    var even := MulLo(rem % 256, 29) / 256;
    var odd := MulLo(rem / 256, 29) / 256;
    Or(even, ShiftLeft8(odd))
  }

  function Mid9Word(rem: u16): u16 {
    var even := MulLo(rem % 256, 29) / 256;
    var odd := MulLo(rem / 256, 29) / 256;
    Scaled(even, odd, 9)
  }

  // ---------------------------------------------------------------- the same, byte by byte

  function HighOf(b: u8): nat { b / 27 }

  function RemOf(b: u8): nat { b % 27 }

  function MidOf(b: u8): nat { b % 27 / 9 }

  function LowOf(b: u8): nat { b % 27 % 9 }

  /** A word made of two bytes. */
  function Word(lo: u8, hi: u8): (w: u16)
    ensures w % 256 == lo && w / 256 == hi
  {
    var l: int, h: int := lo, hi;
    l + 256 * h
  }

  /** Multiplying by 19 and shifting by 9 divides every byte by 27. */
  lemma DivideBy27(b: u8)
    ensures MulLo(b, 19) / 512 == HighOf(b)
  {}

  /** Multiplying by 29 and shifting by 8 divides every remainder by 9. */
  lemma DivideBy9(m: u8)
    requires m < 27
    ensures MulLo(m, 29) / 256 == m / 9
  {}

  lemma ShiftLeft8Bytes(b: u8)
    ensures ShiftLeft8(b) % 256 == 0 && ShiftLeft8(b) / 256 == b
  {
    var n: int := b;
    assert n * 256 < 0x1_0000;
  }

  /** Numbers whose bytes do not meet are added by the or. */
  lemma OrApart(x: u16, y: u16, lo: u8, hi: u8)
    requires x % 256 == lo && x / 256 == 0 && y % 256 == 0 && y / 256 == hi
    ensures Or(x, y) == lo + 256 * hi as int
  {}

  lemma ByteIsLow(b: u8)
    ensures b % 256 == b && b / 256 == 0
  {}

  /** Merging the even and the odd lane. */
  lemma Merge(lo: u8, hi: u8)
    ensures Or(lo, ShiftLeft8(hi)) == Word(lo, hi)
  {
    ShiftLeft8Bytes(hi);
    ByteIsLow(lo);
    OrApart(lo, ShiftLeft8(hi), lo, hi);
  }

  lemma SubWords(a: u8, b: u8, c: u8, d: u8)
    requires c <= a && d <= b
    ensures SubBytes(Word(a, b), Word(c, d)) == Word(a - c, b - d)
  {}

  lemma HighRegister(lo: u8, hi: u8)
    ensures HighWord(Word(lo, hi)) == Word(HighOf(lo), HighOf(hi))
  {
    DivideBy27(lo);
    DivideBy27(hi);
    Merge(HighOf(lo), HighOf(hi));
  }

  lemma Times(b: u8, k: nat, bk: u8)
    requires bk == b * k
    ensures MulLo(b, k) == bk
  {
    var n: nat := bk;
    assert n % 0x1_0000 == n;
  }

  lemma ScaledIs(a: u8, b: u8, k: nat, ak: u8, bk: u8)
    requires ak == a * k && bk == b * k
    ensures Scaled(a, b, k) == Word(ak, bk)
  {
    Times(a, k, ak);
    Times(b, k, bk);
    Merge(ak, bk);
    assert Scaled(a, b, k) == Or(ak, ShiftLeft8(bk));
  }

  lemma High27Register(lo: u8, hi: u8)
    ensures High27Word(Word(lo, hi)) == Word(27 * HighOf(lo), 27 * HighOf(hi))
  {
    DivideBy27(lo);
    DivideBy27(hi);
    ScaledIs(HighOf(lo), HighOf(hi), 27, 27 * HighOf(lo), 27 * HighOf(hi));
  }

  lemma RemRegister(lo: u8, hi: u8)
    ensures SubBytes(Word(lo, hi), High27Word(Word(lo, hi))) == Word(RemOf(lo), RemOf(hi))
  {
    High27Register(lo, hi);
    SubWords(lo, hi, 27 * HighOf(lo), 27 * HighOf(hi));
  }

  lemma MidRegister(a: u8, b: u8)
    requires a < 27 && b < 27
    ensures MidWord(Word(a, b)) == Word(a / 9, b / 9)
  {
    DivideBy9(a);
    DivideBy9(b);
    Merge(a / 9, b / 9);
  }

  lemma LowRegister(a: u8, b: u8)
    requires a < 27 && b < 27
    ensures SubBytes(Word(a, b), Mid9Word(Word(a, b))) == Word(a % 9, b % 9)
  {
    DivideBy9(a);
    DivideBy9(b);
    ScaledIs(a / 9, b / 9, 9, 9 * (a / 9), 9 * (b / 9));
    SubWords(a, b, 9 * (a / 9), 9 * (b / 9));
  }

  // ---------------------------------------------------------------- products of one word

  datatype Unpacked = Unpacked(t0: Pair, t1: Pair, t2: Pair, t3: Pair, t4: Pair)

  /** `qihse_unpack_16_trytes_ssse3` and its 32-lane twin, on one word. */
  function UnpackWord(w: u16): Unpacked {
    var high := HighWord(w);
    var rem := SubBytes(w, High27Word(w));
    var mid := MidWord(rem);
    var low := SubBytes(rem, Mid9Word(rem));
    Unpacked(Shuffle(LUT_LO, low), Shuffle(LUT_HI, low), Shuffle(LUT_MID, mid), Shuffle(LUT_LO, high),
             Shuffle(LUT_HI, high))
  }

  /** `sign_epi8` */
  function SignByte(a: int, b: int): int { if b < 0 then -a else if b == 0 then 0 else a }

  function SignPair(a: Pair, b: Pair): Pair { Pair(SignByte(a.lo, b.lo), SignByte(a.hi, b.hi)) }

  /** A signed 8-bit sum, wrapped when it does not fit. */
  function Wrap8(x: int): int { if -0x80 <= x <= 0x7F then x else (x + 0x80) % 0x100 - 0x80 }

  /** `add_epi8` */
  function AddPair(a: Pair, b: Pair): Pair { Pair(Wrap8(a.lo + b.lo), Wrap8(a.hi + b.hi)) }

  /** The summed products of both lanes. */
  function WordProducts(l: u16, r: u16): Pair {
    var x, y := UnpackWord(l), UnpackWord(r);
    var p01 := AddPair(SignPair(x.t0, y.t0), SignPair(x.t1, y.t1));
    var p23 := AddPair(SignPair(x.t2, y.t2), SignPair(x.t3, y.t3));
    AddPair(AddPair(p01, p23), SignPair(x.t4, y.t4))
  }

  /** What the look-ups yield for one byte. */
  function LaneTrit(b: u8, i: nat): int
    requires i < TRITS
  {
    match i
    case 0 => LookUp(LUT_LO, LowOf(b))
    case 1 => LookUp(LUT_HI, LowOf(b))
    case 2 => LookUp(LUT_MID, MidOf(b))
    case 3 => LookUp(LUT_LO, HighOf(b))
    case _ => LookUp(LUT_HI, HighOf(b))
  }

  function LaneSum(l: u8, r: u8): int {
    SignByte(LaneTrit(l, 0), LaneTrit(r, 0)) + SignByte(LaneTrit(l, 1), LaneTrit(r, 1))
    + (SignByte(LaneTrit(l, 2), LaneTrit(r, 2)) + SignByte(LaneTrit(l, 3), LaneTrit(r, 3)))
    + SignByte(LaneTrit(l, 4), LaneTrit(r, 4))
  }

  lemma UnpackLanes(lo: u8, hi: u8)
    ensures UnpackWord(Word(lo, hi))
         == Unpacked(Pair(LaneTrit(lo, 0), LaneTrit(hi, 0)), Pair(LaneTrit(lo, 1), LaneTrit(hi, 1)),
                     Pair(LaneTrit(lo, 2), LaneTrit(hi, 2)), Pair(LaneTrit(lo, 3), LaneTrit(hi, 3)),
                     Pair(LaneTrit(lo, 4), LaneTrit(hi, 4)))
  {
    HighRegister(lo, hi);
    RemRegister(lo, hi);
    MidRegister(RemOf(lo), RemOf(hi));
    LowRegister(RemOf(lo), RemOf(hi));
  }

  lemma LaneTritSmall(b: u8, i: nat)
    requires i < TRITS
    ensures -1 <= LaneTrit(b, i) <= 1
  {
    LookUpSmall(LowOf(b));
    LookUpSmall(MidOf(b));
    LookUpSmall(HighOf(b));
  }

  lemma LookUpSmall(x: u8)
    ensures -1 <= LookUp(LUT_LO, x) <= 1 && -1 <= LookUp(LUT_HI, x) <= 1 && -1 <= LookUp(LUT_MID, x) <= 1
  {
    var i := x % 16;
    assert -1 <= LUT_LO[i] <= 1 && -1 <= LUT_HI[i] <= 1 && -1 <= LUT_MID[i] <= 1;
  }

  lemma LaneProductSmall(l: u8, r: u8, i: nat)
    requires i < TRITS
    ensures -1 <= SignByte(LaneTrit(l, i), LaneTrit(r, i)) <= 1
  {
    LaneTritSmall(l, i);
  }

  /** The five products of a byte pair sum to at most five. */
  lemma LaneSumSmall(l: u8, r: u8)
    ensures -5 <= LaneSum(l, r) <= 5
  {
    LaneProductSmall(l, r, 0);
    LaneProductSmall(l, r, 1);
    LaneProductSmall(l, r, 2);
    LaneProductSmall(l, r, 3);
    LaneProductSmall(l, r, 4);
  }

  predicate SmallPair(p: Pair, n: nat) { 0 - n <= p.lo <= n && 0 - n <= p.hi <= n }

  /** Small pairs are added without a wrap. */
  lemma AddSmall(a: Pair, m: nat, b: Pair, n: nat)
    requires SmallPair(a, m) && SmallPair(b, n) && m + n <= 5
    ensures AddPair(a, b) == Pair(a.lo + b.lo, a.hi + b.hi) && SmallPair(AddPair(a, b), m + n)
  {}

  /** The products of two words hold the signed product of each trit of each byte. */
  lemma ProductPair(a: u8, b: u8, c: u8, d: u8, i: nat)
    requires i < TRITS
    ensures SmallPair(SignPair(Pair(LaneTrit(a, i), LaneTrit(b, i)), Pair(LaneTrit(c, i), LaneTrit(d, i))), 1)
  {
    LaneProductSmall(a, c, i);
    LaneProductSmall(b, d, i);
  }

  /** No 8-bit addition wraps, whatever the bytes. */
  lemma ProductsAdd(p0: Pair, p1: Pair, p2: Pair, p3: Pair, p4: Pair)
    requires SmallPair(p0, 1) && SmallPair(p1, 1) && SmallPair(p2, 1) && SmallPair(p3, 1) && SmallPair(p4, 1)
    ensures AddPair(AddPair(AddPair(p0, p1), AddPair(p2, p3)), p4)
         == Pair(p0.lo + p1.lo + (p2.lo + p3.lo) + p4.lo, p0.hi + p1.hi + (p2.hi + p3.hi) + p4.hi)
  {
    AddSmall(p0, 1, p1, 1);
    AddSmall(p2, 1, p3, 1);
    AddSmall(AddPair(p0, p1), 2, AddPair(p2, p3), 2);
    AddSmall(AddPair(AddPair(p0, p1), AddPair(p2, p3)), 4, p4, 1);
  }

  lemma WordProductsLanes(a: u8, b: u8, c: u8, d: u8)
    ensures WordProducts(Word(a, b), Word(c, d)) == Pair(LaneSum(a, c), LaneSum(b, d))
  {
    UnpackLanes(a, b);
    UnpackLanes(c, d);
    ProductPair(a, b, c, d, 0);
    ProductPair(a, b, c, d, 1);
    ProductPair(a, b, c, d, 2);
    ProductPair(a, b, c, d, 3);
    ProductPair(a, b, c, d, 4);
    var x, y := UnpackWord(Word(a, b)), UnpackWord(Word(c, d));
    ProductsAdd(SignPair(x.t0, y.t0), SignPair(x.t1, y.t1), SignPair(x.t2, y.t2), SignPair(x.t3, y.t3),
                SignPair(x.t4, y.t4));
  }

  lemma LutDigits(x: nat)
    requires x <= 8
    ensures LookUp(LUT_LO, x) == x % 3 - 1 && LookUp(LUT_HI, x) == x / 3 - 1
    ensures x <= 2 ==> LookUp(LUT_MID, x) == x - 1
  {}

  lemma LowDigits(m: nat)
    requires m < 27
    ensures m % 9 % 3 == m % 3 && m % 9 / 3 == m / 3 % 3 && m / 9 % 3 == m / 9
  {
    var q := m / 9;
    assert m == 9 * q + m % 9;
    assert m / 3 == 3 * q + m % 9 / 3;
  }

  lemma HighDigits(q: nat)
    requires q <= 8
    ensures (q + 9) % 3 == q % 3 && (q + 9) / 3 % 3 == q / 3
  {}

  /** On a tryte the look-ups yield its signed trits. */
  lemma LaneTritIsTrit(b: u8, i: nat)
    requires b <= TRYTE_MAX && i < TRITS
    ensures LaneTrit(b, i) == Signed(Trit(b, i))
  {
    if i < 3 {
      LowTrits(b, b / 27, b % 27);
      LowDigits(b % 27);
      LutDigits(LowOf(b));
      LutDigits(MidOf(b));
    } else {
      HighTrits(b, b / 27, b % 27);
      HighDigits(b / 27);
      LutDigits(HighOf(b));
    }
  }

  lemma SignIsProduct(a: int, b: int)
    requires -1 <= b <= 1
    ensures SignByte(a, b) == a * b
  {}

  /** On trytes a lane adds what the table adds. */
  lemma LaneIsScalar(l: u8, r: u8)
    requires l <= TRYTE_MAX && r <= TRYTE_MAX
    ensures LaneSum(l, r) == ScalarByte(l, r)
  {
    forall i | 0 <= i < TRITS
      ensures SignByte(LaneTrit(l, i), LaneTrit(r, i)) == TritProduct(l, r, i)
    {
      LaneTritIsTrit(l, i);
      LaneTritIsTrit(r, i);
      SignIsProduct(LaneTrit(l, i), LaneTrit(r, i));
    }
    TritSumExpands(l, r);
    ScalarByteIsTritSum(l, r);
  }

  /** The low three trits agree for every byte, tryte or not. */
  lemma LowLanes(l: u8, r: u8)
    ensures SignByte(LaneTrit(l, 0), LaneTrit(r, 0)) + SignByte(LaneTrit(l, 1), LaneTrit(r, 1))
            + SignByte(LaneTrit(l, 2), LaneTrit(r, 2)) == Dot3(l % 27, r % 27)
  {
    LowLane(l);
    LowLane(r);
    SignIsProduct(LaneTrit(l, 0), LaneTrit(r, 0));
    SignIsProduct(LaneTrit(l, 1), LaneTrit(r, 1));
    SignIsProduct(LaneTrit(l, 2), LaneTrit(r, 2));
  }

  lemma LowLane(b: u8)
    ensures LaneTrit(b, 0) == b % 27 % 3 - 1 && LaneTrit(b, 1) == b % 27 / 3 % 3 - 1
            && LaneTrit(b, 2) == b % 27 / 9 % 3 - 1
  {
    LowDigits(b % 27);
    LutDigits(LowOf(b));
    LutDigits(MidOf(b));
  }

  lemma HighLane(b: u8)
    ensures b <= TRYTE_MAX ==> LaneTrit(b, 3) == b / 27 % 3 - 1 && LaneTrit(b, 4) == b / 27 / 3 - 1
    ensures b > TRYTE_MAX ==> b / 27 == 9 && LaneTrit(b, 3) == 0 && LaneTrit(b, 4) == 0
  {
    if b <= TRYTE_MAX {
      LutDigits(b / 27);
    } else {
      assert b / 27 == 9;
    }
  }

  /** The other byte's two highest trits cancel. */
  predicate HighTritsCancel(b: u8) { b / 27 == 2 || b / 27 == 4 || b / 27 == 6 }

  lemma CancelMeans(q: nat)
    requires q <= 8
    ensures q % 3 - 1 + (q / 3 - 1) == 0 <==> q == 2 || q == 4 || q == 6
  {}

  lemma HighTable(l: u8, r: u8)
    ensures l <= TRYTE_MAX && r <= TRYTE_MAX ==>
              Dot3(l / 27 + 9, r / 27 + 9) == (l / 27 % 3 - 1) * (r / 27 % 3 - 1) + (l / 27 / 3 - 1) * (r / 27 / 3 - 1)
    ensures l > TRYTE_MAX && r <= TRYTE_MAX ==>
              Dot3(l / 27 + 9, r / 27 + 9) == -(r / 27 % 3 - 1) - (r / 27 / 3 - 1)
    ensures l > TRYTE_MAX && r > TRYTE_MAX ==> Dot3(l / 27 + 9, r / 27 + 9) == 3
  {
    HighIndex(l);
    HighIndex(r);
  }

  lemma HighIndex(b: u8)
    ensures b <= TRYTE_MAX ==>
              (b / 27 + 9) % 3 == b / 27 % 3 && (b / 27 + 9) / 3 % 3 == b / 27 / 3 && (b / 27 + 9) / 9 % 3 == 1
    ensures b > TRYTE_MAX ==> (b / 27 + 9) % 3 == 0 && (b / 27 + 9) / 3 % 3 == 0 && (b / 27 + 9) / 9 % 3 == 2
  {
    var q := b / 27;
    assert q <= 9;
    if q <= 8 { HighDigits(q); }
  }

  lemma Dot3Symmetric(a: nat, b: nat)
    ensures Dot3(a, b) == Dot3(b, a)
  {}

  /** For arbitrary bytes a lane and the table agree exactly when both are trytes, or one is and
      its two highest trits cancel. The callers validate rows first. */
  lemma LaneAgreesExactly(l: u8, r: u8)
    ensures LaneSum(l, r) == ScalarByte(l, r) <==>
              || (l <= TRYTE_MAX && r <= TRYTE_MAX)
              || (l > TRYTE_MAX && r <= TRYTE_MAX && HighTritsCancel(r))
              || (l <= TRYTE_MAX && r > TRYTE_MAX && HighTritsCancel(l))
  {
    LowLanes(l, r);
    if l <= TRYTE_MAX && r <= TRYTE_MAX {
      LaneIsScalar(l, r);
    } else if l > TRYTE_MAX {
      LeftInvalid(l, r);
    } else {
      LeftInvalid(r, l);
      Dot3Symmetric(l / 27 + 9, r / 27 + 9);
      HighLane(l);
      HighLane(r);
    }
  }

  /** What the two highest lanes and the table add when the left byte is no tryte. */
  lemma LeftInvalid(l: u8, r: u8)
    requires l > TRYTE_MAX
    ensures SignByte(LaneTrit(l, 3), LaneTrit(r, 3)) + SignByte(LaneTrit(l, 4), LaneTrit(r, 4)) == 0
    ensures Dot3(l / 27 + 9, r / 27 + 9) == 0 <==> r <= TRYTE_MAX && HighTritsCancel(r)
  {
    HighLane(l);
    HighTable(l, r);
    if r <= TRYTE_MAX { CancelMeans(r / 27); }
  }
}
