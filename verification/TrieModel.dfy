/** What a ternary search trie means: lookups, updates and the order of its keys
    (algorithms/qihse_trinary_trie.c). */
module TrieModel {
  import opened Prelude

  /** A character of a C string: signed, and never the terminator. */
  type Letter = c: int | -128 <= c <= 127 && c != 0 witness 1
  type Key = seq<Letter>

  /** The stored buffer, if any, and its recorded size. */
  datatype Value = Value(data: Option<Bytes>, size: nat)

  datatype Tree = Nil | Node(c: Letter, val: Option<Value>, left: Tree, mid: Tree, right: Tree)

  function Lookup(t: Tree, key: Key): Option<Value>
    decreases t
  {
    if t.Nil? || key == [] then None
    else if key[0] < t.c then Lookup(t.left, key)
    else if key[0] > t.c then Lookup(t.right, key)
    else if |key| == 1 then t.val
    else Lookup(t.mid, key[1..])
  }

  function Leaf(c: Letter): Tree { Node(c, None, Nil, Nil, Nil) }

  /** The tree with the nodes of `key` added where missing and its end set to `o`. */
  function Put(t: Tree, key: Key, o: Option<Value>): Tree
    requires key != []
    decreases |key|, t
  {
    if t.Nil? then
      if |key| == 1 then Node(key[0], o, Nil, Nil, Nil) else Node(key[0], None, Nil, Put(Nil, key[1..], o), Nil)
    else if key[0] < t.c then t.(left := Put(t.left, key, o))
    else if key[0] > t.c then t.(right := Put(t.right, key, o))
    else if |key| == 1 then t.(val := o)
    else t.(mid := Put(t.mid, key[1..], o))
  }

  function Prune(t: Tree): Tree {
    if t.Node? && t.val.None? && t.left.Nil? && t.mid.Nil? && t.right.Nil? then Nil else t
  }

  /** The tree after deleting `key`, emptied nodes removed on the way back. */
  function Del(t: Tree, key: Key): Tree
    requires key != []
    decreases t
  {
    if t.Nil? then Nil
    else if key[0] < t.c then Prune(t.(left := Del(t.left, key)))
    else if key[0] > t.c then Prune(t.(right := Del(t.right, key)))
    else if |key| > 1 then Prune(t.(mid := Del(t.mid, key[1..])))
    else Prune(t.(val := None))
  }

  // ---------------------------------------------------------------- a map

  lemma {:induction false} LookupOfPut(t: Tree, key: Key, o: Option<Value>, k: Key)
    requires key != []
    ensures Lookup(Put(t, key, o), k) == if k == key then o else Lookup(t, k)
    decreases |key|, t
  {
    if k != [] && t.Nil? {
      if |key| > 1 {
        assert key == [key[0]] + key[1..] && k == [k[0]] + k[1..];
        LookupOfPut(Nil, key[1..], o, k[1..]);
      }
    } else if k != [] {
      if key[0] < t.c { LookupOfPut(t.left, key, o, k); }
      else if key[0] > t.c { LookupOfPut(t.right, key, o, k); }
      else if |key| > 1 {
        assert key == [key[0]] + key[1..] && k == [k[0]] + k[1..];
        LookupOfPut(t.mid, key[1..], o, k[1..]);
      }
    }
  }

  lemma PruneLookup(t: Tree, k: Key)
    ensures Lookup(Prune(t), k) == Lookup(t, k)
  {}

  lemma {:induction false} LookupOfDel(t: Tree, key: Key, k: Key)
    requires key != []
    ensures Lookup(Del(t, key), k) == if k == key then None else Lookup(t, k)
    decreases t
  {
    if t.Node? && k != [] {
      if key[0] < t.c {
        LookupOfDel(t.left, key, k);
        PruneLookup(t.(left := Del(t.left, key)), k);
      } else if key[0] > t.c {
        LookupOfDel(t.right, key, k);
        PruneLookup(t.(right := Del(t.right, key)), k);
      } else if |key| > 1 {
        assert key == [key[0]] + key[1..] && k == [k[0]] + k[1..];
        LookupOfDel(t.mid, key[1..], k[1..]);
        PruneLookup(t.(mid := Del(t.mid, key[1..])), k);
      } else {
        PruneLookup(t.(val := None), k);
      }
    }
  }

  // ---------------------------------------------------------------- shape

  /** Each level is a search tree between exclusive bounds. */
  predicate Bst(t: Tree, lo: int, hi: int) {
    t.Node? ==> lo < t.c < hi && Bst(t.left, lo, t.c) && Bst(t.right, t.c, hi) && Bst(t.mid, -129, 128)
  }

  /** Every node without children ends a key. */
  predicate LeavesEnd(t: Tree) {
    t.Node? ==>
      && (t.val.Some? || t.left.Node? || t.mid.Node? || t.right.Node?)
      && LeavesEnd(t.left) && LeavesEnd(t.mid) && LeavesEnd(t.right)
  }

  lemma {:induction false} PutBst(t: Tree, key: Key, o: Option<Value>, lo: int, hi: int)
    requires key != [] && Bst(t, lo, hi) && lo < key[0] < hi
    ensures Bst(Put(t, key, o), lo, hi)
    decreases |key|, t
  {
    if t.Nil? {
      if |key| > 1 { PutBst(Nil, key[1..], o, -129, 128); }
    } else if key[0] < t.c { PutBst(t.left, key, o, lo, t.c); }
    else if key[0] > t.c { PutBst(t.right, key, o, t.c, hi); }
    else if |key| > 1 { PutBst(t.mid, key[1..], o, -129, 128); }
  }

  lemma {:induction false} DelBst(t: Tree, key: Key, lo: int, hi: int)
    requires key != [] && Bst(t, lo, hi)
    ensures Bst(Del(t, key), lo, hi)
    decreases t
  {
    if t.Node? {
      if key[0] < t.c { DelBst(t.left, key, lo, t.c); }
      else if key[0] > t.c { DelBst(t.right, key, t.c, hi); }
      else if |key| > 1 { DelBst(t.mid, key[1..], -129, 128); }
    }
  }

  lemma {:induction false} PutLeavesEnd(t: Tree, key: Key, v: Value)
    requires key != [] && LeavesEnd(t)
    ensures LeavesEnd(Put(t, key, Some(v))) && Put(t, key, Some(v)).Node?
    decreases |key|, t
  {
    if t.Nil? {
      if |key| > 1 { PutLeavesEnd(Nil, key[1..], v); }
    } else if key[0] < t.c { PutLeavesEnd(t.left, key, v); }
    else if key[0] > t.c { PutLeavesEnd(t.right, key, v); }
    else if |key| > 1 { PutLeavesEnd(t.mid, key[1..], v); }
  }

  lemma {:induction false} DelLeavesEnd(t: Tree, key: Key)
    requires key != [] && LeavesEnd(t)
    ensures LeavesEnd(Del(t, key))
    decreases t
  {
    if t.Node? {
      if key[0] < t.c { DelLeavesEnd(t.left, key); }
      else if key[0] > t.c { DelLeavesEnd(t.right, key); }
      else if |key| > 1 { DelLeavesEnd(t.mid, key[1..]); }
    }
  }

  // ---------------------------------------------------------------- the order of keys

  datatype Entry = Entry(key: Key, val: Value)

  /** Lexicographic order, a proper prefix first. */
  predicate Before(a: Key, b: Key) {
    if b == [] then false
    else if a == [] then true
    else a[0] < b[0] || (a[0] == b[0] && Before(a[1..], b[1..]))
  }

  function Prefixed(c: Letter, es: seq<Entry>): (r: seq<Entry>)
    ensures |r| == |es|
    ensures forall i :: 0 <= i < |es| ==> r[i] == Entry([c] + es[i].key, es[i].val)
  {
    if es == [] then [] else [Entry([c] + es[0].key, es[0].val)] + Prefixed(c, es[1..])
  }

  function Own(t: Tree): seq<Entry>
    requires t.Node?
  {
    if t.val.Some? then [Entry([t.c], t.val.value)] else []
  }

  /** The live keys in visiting order. */
  function Entries(t: Tree): seq<Entry> {
    if t.Nil? then []
    else Entries(t.left) + (Own(t) + (Prefixed(t.c, Entries(t.mid)) + Entries(t.right)))
  }

  predicate Ascending(es: seq<Entry>) {
    forall i, j :: 0 <= i < j < |es| ==> Before(es[i].key, es[j].key)
  }

  predicate Within(es: seq<Entry>, lo: int, hi: int) {
    forall i :: 0 <= i < |es| ==> es[i].key != [] && lo < es[i].key[0] < hi
  }

  lemma JoinAscending(a: seq<Entry>, b: seq<Entry>)
    requires Ascending(a) && Ascending(b)
    requires forall i, j :: 0 <= i < |a| && 0 <= j < |b| ==> Before(a[i].key, b[j].key)
    ensures Ascending(a + b)
  {}

  lemma JoinBounded(a: seq<Entry>, b: seq<Entry>, c: int, lo: int, hi: int)
    requires Ascending(a) && Ascending(b) && lo < c < hi
    requires Within(a, lo, c) && Within(b, c - 1, hi)
    ensures Ascending(a + b) && Within(a + b, lo, hi)
  {
    JoinAscending(a, b);
  }

  lemma PrefixedAscending(c: Letter, es: seq<Entry>)
    requires Ascending(es)
    ensures Ascending(Prefixed(c, es)) && Within(Prefixed(c, es), c - 1, c + 1)
  {
    var r := Prefixed(c, es);
    forall i, j | 0 <= i < j < |r| ensures Before(r[i].key, r[j].key) {
      assert r[i].key[1..] == es[i].key && r[j].key[1..] == es[j].key;
    }
  }

  lemma OwnFirst(t: Tree, es: seq<Entry>)
    requires t.Node? && Ascending(es) && Within(es, -129, 128)
    ensures Ascending(Own(t) + Prefixed(t.c, es)) && Within(Own(t) + Prefixed(t.c, es), t.c - 1, t.c + 1)
  {
    PrefixedAscending(t.c, es);
    var r := Prefixed(t.c, es);
    forall j | 0 <= j < |r| ensures Before([t.c], r[j].key) {
      assert r[j].key[1..] == es[j].key;
    }
    JoinAscending(Own(t), r);
  }

  lemma JoinRight(a: seq<Entry>, right: seq<Entry>, c: int, hi: int)
    requires c < hi && Ascending(a) && Within(a, c - 1, c + 1) && Ascending(right) && Within(right, c, hi)
    ensures Ascending(a + right) && Within(a + right, c - 1, hi)
  {
    if right == [] {
      assert a + right == a;
    } else {
      assert c < right[0].key[0] < hi;
      JoinBounded(a, right, c + 1, c - 1, hi);
    }
  }

  /** The node's own key, its middle and its right. */
  lemma RestAscends(t: Tree, mid: seq<Entry>, right: seq<Entry>, hi: int)
    requires t.Node? && t.c < hi && Ascending(mid) && Within(mid, -129, 128) && Ascending(right)
             && Within(right, t.c, hi)
    ensures Ascending(Own(t) + (Prefixed(t.c, mid) + right))
            && Within(Own(t) + (Prefixed(t.c, mid) + right), t.c - 1, hi)
  {
    OwnFirst(t, mid);
    JoinRight(Own(t) + Prefixed(t.c, mid), right, t.c, hi);
    EntriesAssoc(Own(t), Prefixed(t.c, mid), right);
  }

  lemma EntriesAssoc(a: seq<Entry>, b: seq<Entry>, c: seq<Entry>)
    ensures (a + b) + c == a + (b + c)
  {}

  predicate InOrder(t: Tree, lo: int, hi: int) { Ascending(Entries(t)) && Within(Entries(t), lo, hi) }

  lemma NodeInOrder(t: Tree, lo: int, hi: int)
    requires t.Node? && lo < t.c < hi && InOrder(t.left, lo, t.c) && InOrder(t.mid, -129, 128)
             && InOrder(t.right, t.c, hi)
    ensures InOrder(t, lo, hi)
  {
    RestAscends(t, Entries(t.mid), Entries(t.right), hi);
    JoinBounded(Entries(t.left), Own(t) + (Prefixed(t.c, Entries(t.mid)) + Entries(t.right)), t.c, lo, hi);
  }

  /** Visiting order is strictly ascending, so no key is visited twice. */
  lemma {:induction false} EntriesAscend(t: Tree, lo: int, hi: int)
    requires Bst(t, lo, hi)
    ensures InOrder(t, lo, hi)
    decreases t
  {
    if t.Node? {
      EntriesAscend(t.left, lo, t.c);
      EntriesAscend(t.mid, -129, 128);
      EntriesAscend(t.right, t.c, hi);
      NodeInOrder(t, lo, hi);
    }
  }

  lemma WithinMember(es: seq<Entry>, lo: int, hi: int, e: Entry)
    requires Within(es, lo, hi) && e in es
    ensures e.key != [] && lo < e.key[0] < hi
  {}

  /** A key is visited exactly when it is live, with its own value. */
  lemma {:induction false} EntriesFound(t: Tree, lo: int, hi: int, e: Entry)
    requires Bst(t, lo, hi) && e.key != []
    ensures e in Entries(t) <==> Lookup(t, e.key) == Some(e.val)
    decreases t
  {
    if t.Node? {
      var left, mid, right := Entries(t.left), Prefixed(t.c, Entries(t.mid)), Entries(t.right);
      EntriesAscend(t.left, lo, t.c);
      EntriesAscend(t.right, t.c, hi);
      if e in left { WithinMember(left, lo, t.c, e); }
      if e in right { WithinMember(right, t.c, hi, e); }
      assert e in Entries(t) <==> e in left || e in Own(t) || e in mid || e in right;
      PrefixedMember(t.c, Entries(t.mid), e);
      EntriesFound(t.left, lo, t.c, e);
      EntriesFound(t.right, t.c, hi, e);
      if |e.key| > 1 {
        EntriesFound(t.mid, -129, 128, Entry(e.key[1..], e.val));
      } else {
        EntriesAscend(t.mid, -129, 128);
        if Entry([], e.val) in Entries(t.mid) { WithinMember(Entries(t.mid), -129, 128, Entry([], e.val)); }
        assert e.key == [e.key[0]] && e.key[1..] == [];
      }
    }
  }

  lemma PrefixedMember(c: Letter, es: seq<Entry>, e: Entry)
    requires e.key != []
    ensures e in Prefixed(c, es) <==> e.key[0] == c && Entry(e.key[1..], e.val) in es
  {
    var r := Prefixed(c, es);
    if e in r {
      var i :| 0 <= i < |r| && r[i] == e;
      assert e.key[1..] == es[i].key;
      assert es[i] == Entry(e.key[1..], e.val);
    }
    if e.key[0] == c && Entry(e.key[1..], e.val) in es {
      var i :| 0 <= i < |es| && es[i] == Entry(e.key[1..], e.val);
      assert e.key == [c] + e.key[1..];
      assert r[i] == e;
    }
  }

  // ---------------------------------------------------------------- runs

  datatype Op = Ins(key: Key, val: Value) | Rem(key: Key)

  predicate Proper(ops: seq<Op>) {
    forall i :: 0 <= i < |ops| ==> ops[i].key != []
  }

  function RunTree(ops: seq<Op>): Tree
    requires Proper(ops)
  {
    if ops == [] then Nil
    else
      var t, op := RunTree(ops[..|ops| - 1]), ops[|ops| - 1];
      if op.Ins? then Put(t, op.key, Some(op.val)) else Del(t, op.key)
  }

  function RunMap(ops: seq<Op>): map<Key, Value> {
    if ops == [] then map[]
    else
      var m, op := RunMap(ops[..|ops| - 1]), ops[|ops| - 1];
      if op.Ins? then m[op.key := op.val] else m - {op.key}
  }

  /** After any run of inserts and deletes the trie is the map, searches and visits included. */
  lemma {:induction false} RunAgrees(ops: seq<Op>, k: Key)
    requires Proper(ops)
    ensures Lookup(RunTree(ops), k) == if k in RunMap(ops) then Some(RunMap(ops)[k]) else None
    ensures Bst(RunTree(ops), -129, 128) && LeavesEnd(RunTree(ops))
    ensures k != [] ==> forall v :: Entry(k, v) in Entries(RunTree(ops)) <==> k in RunMap(ops) && RunMap(ops)[k] == v
  {
    if ops != [] {
      var t, op := RunTree(ops[..|ops| - 1]), ops[|ops| - 1];
      RunAgrees(ops[..|ops| - 1], k);
      if op.Ins? {
        LookupOfPut(t, op.key, Some(op.val), k);
        PutBst(t, op.key, Some(op.val), -129, 128);
        PutLeavesEnd(t, op.key, op.val);
      } else {
        LookupOfDel(t, op.key, k);
        DelBst(t, op.key, -129, 128);
        DelLeavesEnd(t, op.key);
      }
    }
    if k != [] {
      forall v ensures Entry(k, v) in Entries(RunTree(ops)) <==> Lookup(RunTree(ops), k) == Some(v) {
        EntriesFound(RunTree(ops), -129, 128, Entry(k, v));
      }
    }
  }

  // ---------------------------------------------------------------- visiting with a callback

  /** Levels of characters. */
  function Height(t: Tree): nat {
    if t.Nil? then 0
    else
      var m, l, r := 1 + Height(t.mid), Height(t.left), Height(t.right);
      if m >= l && m >= r then m else if l >= r then l else r
  }

  /** No live key is longer than the trie is high. */
  lemma {:induction false} KeysWithinHeight(t: Tree, e: Entry)
    requires e in Entries(t) && e.key != []
    ensures |e.key| <= Height(t)
    decreases t
  {
    if t.Node? {
      if e in Entries(t.left) { KeysWithinHeight(t.left, e); }
      if e in Entries(t.right) { KeysWithinHeight(t.right, e); }
      PrefixedMember(t.c, Entries(t.mid), e);
      if e in Prefixed(t.c, Entries(t.mid)) && |e.key| > 1 { KeysWithinHeight(t.mid, Entry(e.key[1..], e.val)); }
    }
  }

  /** If every leaf ends a key, some live key is as long as the trie is high. */
  lemma {:induction false} HeightIsReached(t: Tree) returns (e: Entry)
    requires t.Node? && LeavesEnd(t)
    ensures e in Entries(t) && |e.key| == Height(t)
    decreases t
  {
    var m, l, r := 1 + Height(t.mid), Height(t.left), Height(t.right);
    if t.left.Node? && l >= m && l >= r {
      e := HeightIsReached(t.left);
    } else if t.right.Node? && r >= m && r >= l {
      e := HeightIsReached(t.right);
    } else if t.mid.Node? {
      var x := HeightIsReached(t.mid);
      e := Entry([t.c] + x.key, x.val);
      assert e.key[1..] == x.key;
      PrefixedMember(t.c, Entries(t.mid), e);
    } else {
      NodeIsHigh(t.left);
      NodeIsHigh(t.right);
      e := Entry([t.c], t.val.value);
    }
  }

  lemma NodeIsHigh(t: Tree)
    ensures t.Node? ==> Height(t) >= 1
  {}

  /** Where every leaf ends a key, the trie is lower than `n` exactly if every live key is shorter. */
  lemma HeightTells(t: Tree, n: nat)
    requires n > 0 && Bst(t, -129, 128) && LeavesEnd(t)
    ensures Height(t) < n <==> forall k :: Lookup(t, k).Some? ==> |k| < n
  {
    forall k | Height(t) < n && Lookup(t, k).Some? ensures |k| < n {
      LiveKeyFits(t, k);
    }
    if t.Node? && Height(t) >= n {
      var e := HeightIsReached(t);
      NodeIsHigh(t);
      EntriesFound(t, -129, 128, e);
      assert Lookup(t, e.key).Some? && |e.key| >= n;
    }
  }

  lemma LiveKeyFits(t: Tree, k: Key)
    requires Bst(t, -129, 128) && Lookup(t, k).Some?
    ensures |k| <= Height(t)
  {
    var e := Entry(k, Lookup(t, k).value);
    EntriesFound(t, -129, 128, e);
    KeysWithinHeight(t, e);
  }

  /** Inserting one key of `n` letters or more makes any trie that high. */
  lemma LongKeyOverruns(t: Tree, key: Key, v: Value, n: nat)
    requires 0 < n <= |key| && Bst(t, -129, 128)
    ensures Height(Put(t, key, Some(v))) >= n
  {
    PutBst(t, key, Some(v), -129, 128);
    LookupOfPut(t, key, Some(v), key);
    LiveKeyFits(Put(t, key, Some(v)), key);
  }

  function Under(prefix: Key, es: seq<Entry>): (r: seq<Entry>)
    ensures |r| == |es|
    ensures forall i :: 0 <= i < |es| ==> r[i] == Entry(prefix + es[i].key, es[i].val)
  {
    if es == [] then [] else [Entry(prefix + es[0].key, es[0].val)] + Under(prefix, es[1..])
  }

  lemma UnderEmpty(es: seq<Entry>)
    ensures Under([], es) == es
  {
    forall i | 0 <= i < |es| ensures Under([], es)[i] == es[i] {
      assert [] + es[i].key == es[i].key;
    }
  }

  lemma UnderJoin(prefix: Key, a: seq<Entry>, b: seq<Entry>)
    ensures Under(prefix, a + b) == Under(prefix, a) + Under(prefix, b)
  {}

  lemma UnderPrefixed(prefix: Key, c: Letter, es: seq<Entry>)
    ensures Under(prefix, Prefixed(c, es)) == Under(prefix + [c], es)
  {
    forall i | 0 <= i < |es| ensures Under(prefix, Prefixed(c, es))[i] == Under(prefix + [c], es)[i] {
      assert prefix + ([c] + es[i].key) == (prefix + [c]) + es[i].key;
    }
  }

  /** What a callback that refuses after `budget` calls has seen of `all`. */
  predicate Stops(all: seq<Entry>, budget: nat, seen: seq<Entry>, go: bool) {
    if go then seen == all && |all| <= budget else |all| > budget && seen == all[..budget + 1]
  }

  lemma StopsThen(start: seq<Entry>, a: seq<Entry>, b: seq<Entry>, budget: nat, s1: seq<Entry>, s2: seq<Entry>,
                  go: bool)
    requires Stops(start + a, budget, s1, true) && Stops(s1 + b, budget, s2, go)
    ensures Stops(start + (a + b), budget, s2, go)
  {
    assert start + (a + b) == start + a + b;
  }

  lemma StopsEarly(start: seq<Entry>, a: seq<Entry>, b: seq<Entry>, budget: nat, s1: seq<Entry>)
    requires Stops(start + a, budget, s1, false)
    ensures Stops(start + (a + b), budget, s1, false)
  {
    assert start + (a + b) == start + a + b;
  }
}
