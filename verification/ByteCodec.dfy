/** Fixed-width integers as bytes, and the cursors the record and image codecs advance. */
module ByteCodec {
  import opened Prelude

  function Pow256(n: nat): nat {
    if n == 0 then 1 else 256 * Pow256(n - 1)
  }

  lemma Widths()
    ensures Pow256(1) == U8_MAX + 1 && Pow256(2) == U16_MAX + 1 && Pow256(4) == U32_MAX + 1 && Pow256(8) == U64_MAX + 1
  {
    assert Pow256(4) == 256 * (256 * (256 * (256 * Pow256(0))));
    assert Pow256(8) == 256 * (256 * (256 * (256 * Pow256(4))));
  }

  /** Little-endian, least significant byte first. */
  function Little(n: nat, v: nat): (s: Bytes)
    ensures |s| == n
  {
    if n == 0 then [] else [v % 256] + Little(n - 1, v / 256)
  }

  function FromLittle(s: Bytes): (v: nat)
    ensures v < Pow256(|s|)
  {
    if s == [] then 0 else s[0] + 256 * FromLittle(s[1..])
  }

  lemma {:induction false} LittleOfFrom(s: Bytes)
    ensures Little(|s|, FromLittle(s)) == s
  {
    if s != [] {
      LittleOfFrom(s[1..]);
      assert FromLittle(s) % 256 == s[0] && FromLittle(s) / 256 == FromLittle(s[1..]);
    }
  }

  lemma {:induction false} FromOfLittle(n: nat, v: nat)
    requires v < Pow256(n)
    ensures FromLittle(Little(n, v)) == v
  {
    if n > 0 {
      assert v / 256 < Pow256(n - 1);
      FromOfLittle(n - 1, v / 256);
      assert Little(n, v)[1..] == Little(n - 1, v / 256);
    }
  }

  /** Big-endian, most significant byte first. */
  function Big(n: nat, v: nat): (s: Bytes)
    ensures |s| == n
  {
    if n == 0 then [] else Big(n - 1, v / 256) + [v % 256]
  }

  function FromBig(s: Bytes): (v: nat)
    ensures v < Pow256(|s|)
  {
    if s == [] then 0 else FromBig(s[..|s| - 1]) * 256 + s[|s| - 1]
  }

  lemma {:induction false} BigOfFrom(s: Bytes)
    ensures Big(|s|, FromBig(s)) == s
  {
    if s != [] {
      BigOfFrom(s[..|s| - 1]);
      assert FromBig(s) % 256 == s[|s| - 1] && FromBig(s) / 256 == FromBig(s[..|s| - 1]);
    }
  }

  lemma {:induction false} FromOfBig(n: nat, v: nat)
    requires v < Pow256(n)
    ensures FromBig(Big(n, v)) == v
  {
    if n > 0 {
      assert v / 256 < Pow256(n - 1);
      FromOfBig(n - 1, v / 256);
      assert Big(n, v)[..n - 1] == Big(n - 1, v / 256);
    }
  }

  /** Slices of slices. */
  lemma Window(s: Bytes, i: nat, w: nat)
    requires i + w <= |s|
    ensures s[i..][..w] == s[i..i + w] && s[i..][w..] == s[i + w..]
  {}

  lemma Join(s: Bytes, i: nat, j: nat, k: nat)
    requires i <= j <= k <= |s|
    ensures s[i..j] + s[j..k] == s[i..k]
  {}

  /** Splitting a known prefix off. */
  lemma Peel(a: Bytes, b: Bytes)
    ensures (a + b)[..|a|] == a && (a + b)[|a|..] == b
  {}

  lemma {:induction false} LittleJoin(s: Bytes, n: nat)
    requires n < |s|
    ensures FromLittle(s[..n + 1]) == FromLittle(s[..n]) + Pow256(n) * s[n]
  {
    if n == 0 {
      assert s[..1][1..] == [];
    } else {
      LittleJoin(s[1..], n - 1);
      assert s[..n + 1][1..] == s[1..][..n] && s[..n][1..] == s[1..][..n - 1];
      assert 256 * (Pow256(n - 1) * s[n]) == Pow256(n) * s[n];
    }
  }

  lemma SplitEq(a: Bytes, b: Bytes, c: Bytes, d: Bytes)
    requires |a| == |c| && a + b == c + d
    ensures a == c && b == d
  {
    Peel(a, b);
    Peel(c, d);
  }

  lemma Regroup(o: Bytes, a: Bytes, b: Bytes)
    ensures o + a + b == o + (a + b)
  {}

  /** `reader_t` */
  class Reader {
    const data: Bytes
    var position: nat
    var valid: bool

    constructor (data: Bytes)
      ensures this.data == data && position == 0 && valid
    {
      this.data := data;
      position, valid := 0, true;
    }

    function Rest(): Bytes reads this {
      if position <= |data| then data[position..] else []
    }

    /** `get_bytes` */
    method GetBytes(n: nat) returns (v: Bytes)
      requires position <= |data|
      modifies this
      ensures position <= |data| && |v| == n
      ensures valid == (old(valid) && n <= |old(Rest())|)
      ensures valid ==> v == old(Rest())[..n] && Rest() == old(Rest())[n..]
    {
      if !valid || n > |data| - position {
        valid := false;
        return seq(n, _ => 0);
      }
      v := data[position..position + n];
      position := position + n;
    }

    /** The little-endian `get_u8`, `get_u16`, `get_u32` and `get_u64` loops. */
    method GetLittle(n: nat) returns (v: nat)
      requires position <= |data|
      modifies this
      ensures position <= |data| && v < Pow256(n)
      ensures valid == (old(valid) && n <= |old(Rest())|)
      ensures valid ==> v == FromLittle(old(Rest())[..n]) && Rest() == old(Rest())[n..]
    {
      ghost var start := Rest();
      v := 0;
      var i, weight: nat := 0, 1;
      while i < n
        invariant 0 <= i <= n && position <= |data| && weight == Pow256(i) && v < Pow256(i)
        invariant valid == (old(valid) && i <= |start|)
        invariant valid ==> v == FromLittle(start[..i]) && Rest() == start[i..]
      {
        var b := GetBytes(1);
        if valid {
          LittleJoin(start, i);
          assert b == [start[i]];
        }
        Shifted(v, weight, b[0]);
        v := v + weight * b[0];
        i, weight := i + 1, weight * 256;
      }
    }

    /** The big-endian `read_number`. */
    method GetBig(n: nat) returns (v: nat)
      requires position <= |data|
      modifies this
      ensures position <= |data| && v < Pow256(n)
      ensures valid == (old(valid) && n <= |old(Rest())|)
      ensures valid ==> v == FromBig(old(Rest())[..n]) && Rest() == old(Rest())[n..]
    {
      var bytes := GetBytes(n);
      v := 0;
      var i := 0;
      while i < n
        invariant 0 <= i <= n && v == FromBig(bytes[..i])
        modifies {}
      {
        BigJoin(bytes, i);
        v := v * 256 + bytes[i];
        i := i + 1;
      }
      assert bytes[..n] == bytes;
    }
  }

  lemma BigJoin(s: Bytes, n: nat)
    requires n < |s|
    ensures FromBig(s[..n + 1]) == FromBig(s[..n]) * 256 + s[n]
  {
    assert s[..n + 1][..n] == s[..n];
  }

  lemma Shifted(v: nat, weight: nat, b: u8)
    requires v < weight
    ensures v + weight * b < weight * 256
  {
    assert weight * b <= weight * 255;
  }

  /** `writer_t` over a caller's buffer; `out` is what has been written while valid. */
  class Writer {
    const data: array<u8>
    const length: nat
    var position: nat
    var valid: bool
    ghost var out: Bytes

    ghost predicate Valid() reads this, data {
      position == |out| <= length <= data.Length && (valid ==> data[..position] == out)
    }

    constructor (data: array<u8>, length: nat)
      requires length <= data.Length
      ensures Valid() && this.data == data && this.length == length && valid && out == []
    {
      this.data, this.length := data, length;
      position, valid, out := 0, true, [];
    }

    /** `put_bytes` */
    method PutBytes(s: Bytes)
      requires Valid()
      modifies this, data
      ensures Valid()
      ensures valid == (old(valid) && |old(out)| + |s| <= length)
      ensures valid ==> out == old(out) + s
    {
      if !valid || |s| > length - position {
        valid := false;
        return;
      }
      forall i | 0 <= i < |s| { data[position + i] := s[i]; }
      position, out := position + |s|, out + s;
      assert data[..position] == out;
    }

    /** The little-endian `put_u8`, `put_u16`, `put_u32` and `put_u64` loops. */
    method PutLittle(n: nat, v: nat)
      requires Valid()
      modifies this, data
      ensures Valid()
      ensures valid == (old(valid) && |old(out)| + n <= length)
      ensures valid ==> out == old(out) + Little(n, v)
    {
      var i, rest: nat := 0, v;
      ghost var done: Bytes := [];
      assert out + done == out;
      while i < n
        invariant 0 <= i <= n && Valid() && |done| == i
        invariant done + Little(n - i, rest) == Little(n, v)
        invariant valid == (old(valid) && |old(out)| + i <= length)
        invariant valid ==> out == old(out) + done
      {
        PutBytes([rest % 256]);
        assert Little(n - i, rest) == [rest % 256] + Little(n - i - 1, rest / 256);
        assert done + ([rest % 256] + Little(n - i - 1, rest / 256)) ==
                 done + [rest % 256] + Little(n - i - 1, rest / 256);
        assert old(out) + done + [rest % 256] == old(out) + (done + [rest % 256]);
        done, rest, i := done + [rest % 256], rest / 256, i + 1;
      }
      assert done + [] == done;
    }
  }

  /** `image_writer_t`: without a buffer it only measures; `out` is what has been written. */
  class ImageWriter {
    var data: array?<u8>
    var capacity: nat
    var used: nat
    var good: bool
    ghost var out: Bytes

    ghost predicate Valid() reads this, data {
      && used == |out| <= capacity
      && (data != null ==> capacity <= data.Length && (good ==> data[..used] == out))
    }

    constructor (capacity: nat)
      ensures Valid() && data == null && this.capacity == capacity && good && out == []
    {
      data, this.capacity, used, good, out := null, capacity, 0, true, [];
    }

    /** Rewinds for the pass that fills a buffer of the measured size. */
    method Fill(buffer: array<u8>)
      requires Valid() && good && buffer.Length == used
      modifies this
      ensures Valid() && data == buffer && capacity == buffer.Length && good && out == []
    {
      data, capacity, used, out := buffer, used, 0, [];
    }

    /** `write_bytes` */
    method Write(s: Bytes)
      requires Valid()
      modifies this`used, this`good, this`out, data
      ensures Valid() && good == (old(good) && |old(out)| + |s| <= capacity)
      ensures good ==> out == old(out) + s
    {
      if !good || |s| > capacity - used {
        good := false;
        return;
      }
      if data != null {
        forall i | 0 <= i < |s| { data[used + i] := s[i]; }
      }
      used, out := used + |s|, out + s;
      if data != null { assert data[..used] == out; }
    }

    /** `write_number` */
    method WriteNumber(v: nat, width: nat)
      requires Valid()
      modifies this`used, this`good, this`out, data
      ensures Valid() && good == (old(good) && |old(out)| + width <= capacity)
      ensures good ==> out == old(out) + Big(width, v)
    {
      var bytes: Bytes := [];
      var i, rest: nat := 0, v;
      while i < width
        invariant 0 <= i <= width && |bytes| == i && Big(width - i, rest) + bytes == Big(width, v)
        modifies {}
      {
        assert Big(width - i, rest) == Big(width - i - 1, rest / 256) + [rest % 256];
        assert Big(width - i - 1, rest / 256) + [rest % 256] + bytes ==
                 Big(width - i - 1, rest / 256) + ([rest % 256] + bytes);
        bytes, rest, i := [rest % 256] + bytes, rest / 256, i + 1;
      }
      assert bytes == Big(width, v);
      Write(bytes);
    }
  }
}
