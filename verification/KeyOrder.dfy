/** Sorting by lexicographic keys and finding duplicates among neighbours: what the image
    validator asks of `qsort`. */
module KeyOrder {

  type Key = seq<int>

  /** A key that may repeat. */
  const DEAD: Key := [1]

  predicate Leq(a: Key, b: Key) {
    a == [] || (b != [] && (a[0] < b[0] || (a[0] == b[0] && Leq(a[1..], b[1..]))))
  }

  lemma {:induction false} LeqTotal(a: Key, b: Key)
    ensures Leq(a, b) || Leq(b, a)
  {
    if a != [] && b != [] { LeqTotal(a[1..], b[1..]); }
  }

  lemma {:induction false} LeqTrans(a: Key, b: Key, c: Key)
    requires Leq(a, b) && Leq(b, c)
    ensures Leq(a, c)
  {
    if a != [] && a[0] == b[0] && b[0] == c[0] { LeqTrans(a[1..], b[1..], c[1..]); }
  }

  lemma {:induction false} LeqAntisymmetric(a: Key, b: Key)
    requires Leq(a, b) && Leq(b, a)
    ensures a == b
  {
    if a != [] {
      LeqAntisymmetric(a[1..], b[1..]);
      assert a == [a[0]] + a[1..] && b == [b[0]] + b[1..];
    }
  }

  predicate Ordered(ks: seq<Key>) {
    forall i, j :: 0 <= i < j < |ks| ==> Leq(ks[i], ks[j])
  }

  /** No two live keys are equal. */
  predicate Unique(ks: seq<Key>) {
    forall i, j :: 0 <= i < j < |ks| && ks[i] == ks[j] ==> ks[i] == DEAD
  }

  function Keys<T>(xs: seq<T>, key: T -> Key): (ks: seq<Key>)
    ensures |ks| == |xs| && forall i :: 0 <= i < |xs| ==> ks[i] == key(xs[i])
  {
    seq(|xs|, i requires 0 <= i < |xs| => key(xs[i]))
  }

  /** No two neighbours are equal and live. */
  predicate NeighboursClear(ks: seq<Key>) {
    forall i :: 1 <= i < |ks| && ks[i - 1] == ks[i] ==> ks[i] == DEAD
  }

  /** Among ordered keys, equal live keys show up next to each other. */
  lemma NeighboursSuffice(ks: seq<Key>)
    requires Ordered(ks)
    ensures NeighboursClear(ks) <==> Unique(ks)
  {
    if NeighboursClear(ks) {
      forall i, j | 0 <= i < j < |ks| && ks[i] == ks[j] ensures ks[i] == DEAD {
        if i + 1 < j { LeqAntisymmetric(ks[i], ks[i + 1]); }
        assert ks[i + 1 - 1] == ks[i + 1];
      }
    }
  }

  function Insert<T>(ys: seq<T>, x: T, key: T -> Key): (zs: seq<T>)
    ensures multiset(zs) == multiset(ys) + multiset{x}
  {
    if ys == [] || Leq(key(x), key(ys[0])) then [x] + ys
    else
      assert ys == [ys[0]] + ys[1..];
      [ys[0]] + Insert(ys[1..], x, key)
  }

  /** A sorted rearrangement. */
  function Sort<T>(xs: seq<T>, key: T -> Key): (ys: seq<T>)
    ensures multiset(ys) == multiset(xs)
  {
    if xs == [] then [] else
      assert xs == xs[..|xs| - 1] + [xs[|xs| - 1]];
      Insert(Sort(xs[..|xs| - 1], key), xs[|xs| - 1], key)
  }

  function InsertKey(ks: seq<Key>, k: Key): seq<Key> {
    if ks == [] || Leq(k, ks[0]) then [k] + ks else [ks[0]] + InsertKey(ks[1..], k)
  }

  lemma {:induction false} InsertKeys<T>(ys: seq<T>, x: T, key: T -> Key)
    ensures Keys(Insert(ys, x, key), key) == InsertKey(Keys(ys, key), key(x))
  {
    if ys == [] || Leq(key(x), key(ys[0])) {
      assert Keys([x] + ys, key) == [key(x)] + Keys(ys, key);
    } else {
      InsertKeys(ys[1..], x, key);
      assert Keys(ys, key)[1..] == Keys(ys[1..], key);
      assert Keys([ys[0]] + Insert(ys[1..], x, key), key) == [key(ys[0])] + Keys(Insert(ys[1..], x, key), key);
    }
  }

  lemma {:induction false} InsertMembers(ks: seq<Key>, k: Key, x: Key)
    ensures x in InsertKey(ks, k) <==> x == k || x in ks
  {
    if ks != [] && !Leq(k, ks[0]) {
      InsertMembers(ks[1..], k, x);
      assert ks == [ks[0]] + ks[1..];
    }
  }

  lemma BelowAll(h: Key, ks: seq<Key>)
    requires Ordered(ks) && forall x :: x in ks ==> Leq(h, x)
    ensures Ordered([h] + ks)
  {}

  lemma {:induction false} InsertOrdered(ks: seq<Key>, k: Key)
    requires Ordered(ks)
    ensures Ordered(InsertKey(ks, k))
  {
    if ks == [] {
    } else if Leq(k, ks[0]) {
      forall x | x in ks ensures Leq(k, x) {
        var j :| 0 <= j < |ks| && ks[j] == x;
        if j > 0 { LeqTrans(k, ks[0], ks[j]); }
      }
      BelowAll(k, ks);
    } else {
      InsertOrdered(ks[1..], k);
      LeqTotal(k, ks[0]);
      forall x | x in InsertKey(ks[1..], k) ensures Leq(ks[0], x) {
        InsertMembers(ks[1..], k, x);
        if x != k {
          var j :| 0 <= j < |ks[1..]| && ks[1..][j] == x;
          assert ks[j + 1] == x;
        }
      }
      BelowAll(ks[0], InsertKey(ks[1..], k));
    }
  }

  lemma {:induction false} InsertUnique(ks: seq<Key>, k: Key)
    ensures Unique(InsertKey(ks, k)) <==> Unique(ks) && (k in ks ==> k == DEAD)
  {
    if ks == [] || Leq(k, ks[0]) {
      UniqueCons(k, ks);
    } else {
      InsertUnique(ks[1..], k);
      InsertMembers(ks[1..], k, ks[0]);
      assert ks == [ks[0]] + ks[1..];
      UniqueCons(ks[0], ks[1..]);
      UniqueCons(ks[0], InsertKey(ks[1..], k));
    }
  }

  lemma UniqueCons(h: Key, ks: seq<Key>)
    ensures Unique([h] + ks) <==> Unique(ks) && (h in ks ==> h == DEAD)
  {
    var out := [h] + ks;
    if Unique(out) {
      forall i, j | 0 <= i < j < |ks| && ks[i] == ks[j] ensures ks[i] == DEAD {
        assert out[i + 1] == ks[i] && out[j + 1] == ks[j];
      }
      if h in ks {
        var i :| 0 <= i < |ks| && ks[i] == h;
        assert out[0] == out[i + 1];
      }
    }
  }

  lemma UniqueSnoc(ks: seq<Key>, k: Key)
    ensures Unique(ks + [k]) <==> Unique(ks) && (k in ks ==> k == DEAD)
  {
    var out := ks + [k];
    if Unique(out) {
      forall i, j | 0 <= i < j < |ks| && ks[i] == ks[j] ensures ks[i] == DEAD {
        assert out[i] == ks[i] && out[j] == ks[j];
      }
      if k in ks {
        var i :| 0 <= i < |ks| && ks[i] == k;
        assert out[i] == out[|ks|];
      }
    }
  }

  /** Ordered keys, the same ones as given, repeats included. */
  ghost predicate Arranges(ks: seq<Key>, given: seq<Key>) {
    Ordered(ks) && (forall k :: k in ks <==> k in given) && (Unique(ks) <==> Unique(given))
  }

  lemma InsertArranges(ks: seq<Key>, given: seq<Key>, k: Key)
    requires Arranges(ks, given)
    ensures Arranges(InsertKey(ks, k), given + [k])
  {
    InsertOrdered(ks, k);
    InsertUnique(ks, k);
    UniqueSnoc(given, k);
    forall x ensures x in InsertKey(ks, k) <==> x in given + [k] { InsertMembers(ks, k, x); }
  }

  lemma KeysSnoc<T>(xs: seq<T>, key: T -> Key)
    requires xs != []
    ensures Keys(xs, key) == Keys(xs[..|xs| - 1], key) + [key(xs[|xs| - 1])]
  {}

  /** Sorting orders the keys and neither makes nor hides duplicates. */
  lemma {:induction false} SortLaws<T>(xs: seq<T>, key: T -> Key)
    ensures Arranges(Keys(Sort(xs, key), key), Keys(xs, key))
  {
    if xs != [] {
      var n := |xs| - 1;
      SortLaws(xs[..n], key);
      InsertKeys(Sort(xs[..n], key), xs[n], key);
      InsertArranges(Keys(Sort(xs[..n], key), key), Keys(xs[..n], key), key(xs[n]));
      KeysSnoc(xs, key);
    }
  }

  /** The neighbour check after sorting decides uniqueness of the unsorted sequence. */
  lemma NeighbourCheckDecides<T>(xs: seq<T>, key: T -> Key)
    ensures NeighboursClear(Keys(Sort(xs, key), key)) <==> Unique(Keys(xs, key))
  {
    SortLaws(xs, key);
    NeighboursSuffice(Keys(Sort(xs, key), key));
  }

  /** Keys are distinct exactly if none but the dead one is counted twice. */
  lemma {:induction false} UniqueCounts(ks: seq<Key>)
    ensures Unique(ks) <==> forall k :: k != DEAD ==> multiset(ks)[k] <= 1
    decreases |ks|
  {
    if ks != [] {
      var n := |ks| - 1;
      var front, last := ks[..n], ks[n];
      assert ks == front + [last];
      UniqueCounts(front);
      UniqueSnoc(front, last);
      assert multiset(ks) == multiset(front) + multiset{last};
      assert last in front <==> multiset(front)[last] > 0;
      assert forall k :: multiset(ks)[k] == multiset(front)[k] + (if k == last then 1 else 0);
    }
  }

  /** Whatever the sort: any ordered arrangement of the keys lets the neighbour check decide. */
  lemma AnySortDecides(ks: seq<Key>, given: seq<Key>)
    requires Ordered(ks) && multiset(ks) == multiset(given)
    ensures NeighboursClear(ks) <==> Unique(given)
  {
    UniqueCounts(ks);
    UniqueCounts(given);
    NeighboursSuffice(ks);
  }
}
