/** The ternary search trie with its chunk allocator (algorithms/qihse_trinary_trie.c). */
module Trie {
  import opened Prelude
  import opened TrieModel
  import opened TrieHeap

  /** What an insert stores: empty and missing buffers are kept as a null pointer of size 0. */
  function Stored(data: Option<Bytes>): Value {
    if data.Some? && |data.value| > 0 then Value(data, |data.value|) else Value(None, 0)
  }

  class TrinaryTrie {
    var nodes: seq<Cell>     // all chunks, oldest first
    var root: int
    var freeHead: int
    var chunkUsed: nat
    ghost var tree: Tree
    ghost var free: seq<int>

    ghost predicate Pool(used: set<int>) reads this {
      Chain(nodes, freeHead, free) && Partition(|nodes|, free, chunkUsed, used)
    }

    ghost predicate Valid() reads this {
      && Rep(nodes, root, tree) && Bst(tree, -129, 128)
      && Pool(Foot(nodes, root, tree))
    }

    constructor ()
      ensures Valid() && tree == Nil && nodes == []
    {
      nodes, root, freeHead, chunkUsed := [], NULL, NULL, CHUNK;
      tree, free := Nil, [];
    }

    /** `alloc_node`: the free list first, then the newest chunk, then a new chunk if the
        allocator grants one. */
    method Alloc(c: Letter, grant: bool, ghost used: set<int>) returns (p: int)
      requires Pool(used)
      modifies this
      ensures root == old(root) && tree == old(tree)
      ensures grant ==> p != NULL
      ensures p == NULL ==> nodes == old(nodes) && Pool(used)
      ensures p != NULL ==>
        p !in used && 0 <= p < |nodes| && nodes[p] == Blank(c) && Agree(old(nodes), nodes, used) && Pool(used + {p})
      ensures |old(nodes)| <= |nodes|
    {
      if freeHead != NULL {
        PartitionTake(|nodes|, free, chunkUsed, used);
        p := freeHead;
        freeHead := nodes[p].left;
        free := free[1..];
        ghost var before := nodes;
        nodes := nodes[p := Blank(c)];
        ChainFrame(before, nodes, freeHead, free);
      } else {
        if nodes == [] || chunkUsed >= CHUNK {
          if !grant { return NULL; }
          PartitionGrow(|nodes|, free, used);
          nodes := nodes + seq(CHUNK, _ => Blank(1));
          chunkUsed := 0;
        }
        PartitionFresh(|nodes|, free, chunkUsed, used);
        p := |nodes| - CHUNK + chunkUsed;
        chunkUsed := chunkUsed + 1;
        nodes := nodes[p := Blank(c)];
      }
    }

    /** `free_node` */
    method Free(p: int, ghost used: set<int>)
      requires Pool(used) && p in used && 0 <= p < |nodes|
      modifies this`nodes, this`freeHead, this`free
      ensures nodes == old(nodes)[p := old(nodes)[p].(data := None, left := old(freeHead))]
      ensures Pool(used - {p}) && free == [p] + old(free)
    {
      ghost var before := nodes;
      nodes := nodes[p := nodes[p].(data := None, left := freeHead)];
      ChainFrame(before, nodes, freeHead, free);
      freeHead := p;
      free := [p] + free;
      assert free[1..] == old(free);
    }

    /** `qihse_trinary_trie_search` */
    method Search(key: Key) returns (found: Option<Value>)
      requires Valid()
      ensures found == Lookup(tree, key)
    {
      if key == [] { return None; }
      var node, pos: nat := root, 0;
      ghost var t := tree;
      while node != NULL
        invariant pos < |key| && Rep(nodes, node, t)
        invariant Lookup(t, key[pos..]) == Lookup(tree, key)
        decreases t
      {
        if key[pos] < nodes[node].c {
          node, t := nodes[node].left, t.left;
        } else if key[pos] > nodes[node].c {
          node, t := nodes[node].right, t.right;
        } else {
          if pos + 1 == |key| { break; }
          assert key[pos..][1..] == key[pos + 1..];
          node, t, pos := nodes[node].mid, t.mid, pos + 1;
        }
      }
      return if node != NULL && nodes[node].end then Some(Value(nodes[node].data, nodes[node].size)) else None;
    }

    // -------------------------------------------------------------- insertion

    /** The way down so far: `frames` lead to a hole holding `sub` at `p`. */
    ghost predicate Cursor(frames: seq<Frame>, p: int, sub: Tree) reads this {
      && RepCtx(nodes, root, frames, p) && Rep(nodes, p, sub)
      && CtxFoot(nodes, frames) !! Foot(nodes, p, sub)
      && Pool(CtxFoot(nodes, frames) + Foot(nodes, p, sub))
    }

    method Store(p: int, ghost frames: seq<Frame>, owner: int, dir: Dir)
      requires RepCtx(nodes, root, frames, NULL)
      requires HoleAt(frames, owner, dir)
      modifies this`nodes, this`root
      ensures RepCtx(nodes, root, frames, p) && CtxFoot(nodes, frames) == old(CtxFoot(nodes, frames))
      ensures |nodes| == |old(nodes)|
      ensures forall i :: 0 <= i < |nodes| && i !in CtxFoot(nodes, frames) ==> nodes[i] == old(nodes)[i]
    {
      if owner == NULL {
        root := p;
      } else {
        SetHole(nodes, root, frames, NULL, p);
        nodes := nodes[owner := Relink(nodes[owner], dir, p)];
      }
    }

    /** Hangs a fresh node into the empty hole. */
    method Attach(p: int, c: Letter, ghost frames: seq<Frame>, owner: int, dir: Dir)
      requires RepCtx(nodes, root, frames, NULL) && Pool(CtxFoot(nodes, frames) + {p})
      requires p !in CtxFoot(nodes, frames) && 0 <= p < |nodes| && nodes[p] == Blank(c)
      requires HoleAt(frames, owner, dir)
      modifies this`nodes, this`root
      ensures Cursor(frames, p, Leaf(c))
    {
      ghost var before := nodes;
      Store(p, frames, owner, dir);
      ChainFrame(before, nodes, freeHead, free);
      assert Foot(nodes, p, Leaf(c)) == {p};
    }

    /** Allocates a node for the empty hole. */
    method GrowLeaf(c: Letter, grant: bool, ghost frames: seq<Frame>, owner: int, dir: Dir) returns (p: int)
      requires Cursor(frames, NULL, Nil)
      requires HoleAt(frames, owner, dir)
      modifies this
      ensures tree == old(tree) && (grant ==> p != NULL)
      ensures p == NULL ==> Cursor(frames, NULL, Nil)
      ensures p != NULL ==> Cursor(frames, p, Leaf(c))
    {
      ghost var used := CtxFoot(nodes, frames);
      assert used + {} == used;
      p := Alloc(c, grant, used);
      if p != NULL {
        CtxFrame(old(nodes), nodes, root, frames, NULL);
        Attach(p, c, frames, owner, dir);
      }
    }

    /** One level down, along the key. */
    lemma CursorDown(frames: seq<Frame>, p: int, sub: Tree, key: Key, pos: nat, d: Dir, pos': nat)
      requires Cursor(frames, p, sub) && sub.Node? && pos < |key| && Follows(frames, key, key[pos..])
      requires d == DirOf(key[pos], sub.c) && pos' == (if d.Mid? then pos + 1 else pos) < |key|
      ensures 0 <= p < |nodes| && nodes[p].c == sub.c
      ensures Cursor(frames + [FrameOf(p, sub, d)], Link(nodes[p], d), Child(sub, d))
      ensures Plug(frames + [FrameOf(p, sub, d)], Child(sub, d)) == Plug(frames, sub)
      ensures Follows(frames + [FrameOf(p, sub, d)], key, key[pos'..])
      ensures HoleAt(frames + [FrameOf(p, sub, d)], p, d)
    {
      Descend(nodes, root, frames, p, sub, d);
      FollowsDown(frames, key, key[pos..], p, sub, d, key[pos'..]);
    }

    lemma CursorCell(frames: seq<Frame>, p: int, sub: Tree)
      requires Cursor(frames, p, sub)
      ensures if p == NULL then sub == Nil else 0 <= p < |nodes| && sub.Node? && nodes[p].c == sub.c
    {}

    /** The descent of `qihse_trinary_trie_insert`: makes the missing nodes, one grant each.
        Returns the end node of `key`, or null where the allocator gave up. */
    method Locate(key: Key, grants: seq<bool>)
      returns (p: int, ghost frames: seq<Frame>, ghost sub: Tree, ghost rest: Key)
      requires Valid() && key != [] && |grants| == |key|
      modifies this
      ensures tree == old(tree) && Cursor(frames, p, sub) && SamePut(Plug(frames, sub), tree, key)
      ensures rest != [] && Follows(frames, key, rest)
      ensures if p == NULL then sub == Nil else sub.Node? && rest == [sub.c]
      ensures (forall i :: 0 <= i < |grants| ==> grants[i]) ==> p != NULL
    {
      var owner, dir, pos: nat := NULL, Left, 0;
      p, frames, sub, rest := root, [], tree, key;
      assert {} + Foot(nodes, root, tree) == Foot(nodes, root, tree);
      while true
        invariant tree == old(tree) && Cursor(frames, p, sub) && SamePut(Plug(frames, sub), tree, key)
        invariant pos < |key| && rest == key[pos..] && Follows(frames, key, rest)
        invariant HoleAt(frames, owner, dir)
        decreases |key| - pos, sub
      {
        CursorCell(frames, p, sub);
        if p == NULL {
          LeafSamePut(frames, key, rest, tree);
          p := GrowLeaf(key[pos], grants[pos], frames, owner, dir);
          if p == NULL { return; }
          sub := Leaf(key[pos]);
          CursorCell(frames, p, sub);
        }
        var d := DirOf(key[pos], nodes[p].c);
        if d.Mid? && pos + 1 == |key| { return; }
        var pos': nat := if d.Mid? then pos + 1 else pos;
        CursorDown(frames, p, sub, key, pos, d, pos');
        frames, rest, sub := frames + [FrameOf(p, sub, d)], key[pos'..], Child(sub, d);
        owner, dir, p, pos := p, d, Link(nodes[p], d), pos';
      }
    }

    /** The whole tree again, once the descent is over. */
    ghost method Close(frames: seq<Frame>, p: int, sub: Tree)
      requires Cursor(frames, p, sub) && Bst(Plug(frames, sub), -129, 128)
      modifies this`tree
      ensures Valid() && tree == Plug(frames, sub)
    {
      PlugRep(nodes, root, frames, p, sub);
      tree := Plug(frames, sub);
    }

    /** Writes the end mark and value of the node the descent reached. */
    method SetEnd(p: int, o: Option<Value>, ghost frames: seq<Frame>, ghost sub: Tree)
      requires Cursor(frames, p, sub) && sub.Node?
      modifies this`nodes
      ensures Cursor(frames, p, sub.(val := o))
    {
      ghost var before := nodes;
      var x := nodes[p];
      x := if o.Some? then x.(end := true, data := o.value.data, size := o.value.size)
           else x.(end := false, data := None, size := 0);
      nodes := nodes[p := x];
      assert p in Foot(before, p, sub);
      EndSet(before, p, sub, x, o);
      CtxFrame(before, nodes, root, frames, p);
      ChainFrame(before, nodes, freeHead, free);
    }

    /** `qihse_trinary_trie_insert`. `grants` answers the allocator's requests for node chunks,
        `grantValue` the one for the copy of the value. A failed insert leaves the key unbound. */
    method Insert(key: Key, data: Option<Bytes>, grants: seq<bool>, grantValue: bool) returns (ok: bool)
      requires Valid() && |grants| == |key|
      modifies this
      ensures Valid()
      ensures key == [] ==> !ok && tree == old(tree)
      ensures (key != [] && (forall i :: 0 <= i < |grants| ==> grants[i])
               && (grantValue || Stored(data).data.None?)) ==> ok
      ensures ok ==> tree == Put(old(tree), key, Some(Stored(data)))
      ensures ok ==> var v := Stored(data);
        if data.Some? && |data.value| > 0 then v.data == data && v.size == |data.value|
        else v.data == None && v.size == 0
      ensures key != [] ==> forall k ::
        Lookup(tree, k) == if k == key then (if ok then Some(Stored(data)) else None) else Lookup(old(tree), k)
      ensures ok && LeavesEnd(old(tree)) ==> LeavesEnd(tree)
    {
      if key == [] { return false; }
      var p; ghost var frames, sub, rest;
      p, frames, sub, rest := Locate(key, grants);
      ghost var start := tree;
      PutBst(start, key, None, -129, 128);
      if p == NULL {
        BstBeforePut(Plug(frames, Nil), key, None, -129, 128);
        Close(frames, NULL, Nil);
        forall k ensures Lookup(tree, k) == if k == key then None else Lookup(start, k) {
          UnboundAtHole(frames, key, rest, start, k);
        }
        return false;
      }
      var stored := Stored(data);
      ok := stored.data.None? || grantValue;
      var o := if ok then Some(stored) else None;
      SetEnd(p, o, frames, sub);
      PutFollows(frames, key, rest, sub, o);
      PutBst(start, key, o, -129, 128);
      Close(frames, p, sub.(val := o));
      forall k ensures Lookup(tree, k) == if k == key then o else Lookup(start, k) {
        LookupOfPut(start, key, o, k);
      }
      if ok && LeavesEnd(start) { PutLeavesEnd(start, key, stored); }
    }

    // -------------------------------------------------------------- deletion

    /** Frees the node if nothing hangs on it any more. */
    method PruneNode(p: int, ghost t: Tree, ghost used: set<int>) returns (q: int)
      requires Rep(nodes, p, t) && t.Node? && Pool(used) && Foot(nodes, p, t) <= used
      modifies this`nodes, this`freeHead, this`free
      ensures Rep(nodes, q, Prune(t)) && Foot(nodes, q, Prune(t)) <= old(Foot(nodes, p, t))
      ensures Pool(used - old(Foot(nodes, p, t)) + Foot(nodes, q, Prune(t)))
      ensures Outside(old(nodes), nodes, old(Foot(nodes, p, t)))
    {
      assert p in Foot(nodes, p, t);
      var x := nodes[p];
      if !x.end && x.left == NULL && x.mid == NULL && x.right == NULL {
        assert Foot(nodes, p, t) == {p};
        Free(p, used);
        assert used - {p} + {} == used - {p};
        return NULL;
      }
      assert used - Foot(nodes, p, t) + Foot(nodes, p, t) == used;
      return p;
    }

    method ClearEnd(p: int, ghost t: Tree, ghost used: set<int>)
      requires Rep(nodes, p, t) && t.Node? && Pool(used) && Foot(nodes, p, t) <= used
      modifies this`nodes
      ensures Rep(nodes, p, t.(val := None)) && Foot(nodes, p, t.(val := None)) == old(Foot(nodes, p, t))
      ensures Pool(used) && Outside(old(nodes), nodes, old(Foot(nodes, p, t)))
    {
      assert p in Foot(nodes, p, t);
      if nodes[p].end {
        ghost var before := nodes;
        nodes := nodes[p := nodes[p].(end := false, data := None, size := 0)];
        EndSet(before, p, t, nodes[p], None);
        ChainFrame(before, nodes, freeHead, free);
      }
    }

    /** `delete_node` on one child, and the link to what is left of it. */
    method DeleteChild(p: int, d: Dir, key: Key, ghost t: Tree, ghost used: set<int>)
      returns (deleted: bool, ghost used': set<int>)
      requires Rep(nodes, p, t) && t.Node? && key != [] && Pool(used) && Foot(nodes, p, t) <= used
      modifies this`nodes, this`freeHead, this`free
      ensures Rep(nodes, p, WithChild(t, d, Del(Child(t, d), key)))
      ensures Foot(nodes, p, WithChild(t, d, Del(Child(t, d), key))) <= old(Foot(nodes, p, t))
      ensures used' == used - old(Foot(nodes, p, t)) + Foot(nodes, p, WithChild(t, d, Del(Child(t, d), key)))
              && Pool(used')
      ensures Outside(old(nodes), nodes, old(Foot(nodes, p, t)))
      ensures deleted == Lookup(Child(t, d), key).Some?
      decreases t, 0
    {
      ghost var before, s := nodes, Del(Child(t, d), key);
      ghost var foot, part := Foot(nodes, p, t), Foot(nodes, Link(nodes[p], d), Child(t, d));
      ChildInside(nodes, p, t, d);
      var q;
      q, deleted := DeleteNode(Link(nodes[p], d), key, Child(t, d), used);
      ghost var mid := nodes;
      used' := used - part + Foot(nodes, q, s);
      ChildReplaced(before, mid, p, t, d, q, s);
      SwapPart(used, foot, part, Foot(mid, q, s));
      nodes := nodes[p := Relink(nodes[p], d, q)];
      ChainFrame(mid, nodes, freeHead, free);
    }

    /** `delete_node` */
    method DeleteNode(p: int, key: Key, ghost t: Tree, ghost used: set<int>) returns (q: int, deleted: bool)
      requires Rep(nodes, p, t) && key != [] && Pool(used) && Foot(nodes, p, t) <= used
      modifies this`nodes, this`freeHead, this`free
      ensures Rep(nodes, q, Del(t, key)) && Foot(nodes, q, Del(t, key)) <= old(Foot(nodes, p, t))
      ensures Pool(used - old(Foot(nodes, p, t)) + Foot(nodes, q, Del(t, key)))
      ensures Outside(old(nodes), nodes, old(Foot(nodes, p, t)))
      ensures deleted == Lookup(t, key).Some?
      decreases t, 1
    {
      if p == NULL {
        assert used - {} + {} == used;
        return NULL, false;
      }
      ghost var foot := Foot(nodes, p, t);
      var d := DirOf(key[0], nodes[p].c);
      ghost var used' := used;
      ghost var t' := if d.Mid? && |key| == 1 then t.(val := None)
                      else WithChild(t, d, Del(Child(t, d), if d.Mid? then key[1..] else key));
      assert Del(t, key) == Prune(t');
      if d.Mid? && |key| == 1 {
        deleted := nodes[p].end;
        ClearEnd(p, t, used);
      } else {
        deleted, used' := DeleteChild(p, d, if d.Mid? then key[1..] else key, t, used);
      }
      ghost var foot' := Foot(nodes, p, t');
      q := PruneNode(p, t', used');
      assert used' - foot' == used - foot;
    }

    /** `qihse_trinary_trie_delete` */
    method Delete(key: Key) returns (deleted: bool)
      requires Valid()
      modifies this
      ensures Valid() && deleted == Lookup(old(tree), key).Some?
      ensures tree == if key == [] then old(tree) else Del(old(tree), key)
      ensures forall k :: Lookup(tree, k) == if k == key then None else Lookup(old(tree), k)
      ensures LeavesEnd(old(tree)) ==> LeavesEnd(tree)
    {
      if key == [] { return false; }
      ghost var foot := Foot(nodes, root, tree);
      root, deleted := DeleteNode(root, key, tree, foot);
      ghost var start := tree;
      tree := Del(tree, key);
      DelBst(start, key, -129, 128);
      assert foot - foot + Foot(nodes, root, tree) == Foot(nodes, root, tree);
      forall k ensures Lookup(tree, k) == if k == key then None else Lookup(start, k) {
        LookupOfDel(start, key, k);
      }
      if LeavesEnd(start) { DelLeavesEnd(start, key); }
    }

    // -------------------------------------------------------------- iteration

    /** The callback on one node: refused once `budget` calls have been accepted. */
    method Report(p: int, ghost t: Tree, buf: array<Letter>, depth: nat, budget: nat, seen: seq<Entry>)
      returns (seen': seq<Entry>, go: bool)
      requires Rep(nodes, p, t) && t.Node? && depth < buf.Length && |seen| <= budget
      modifies buf
      ensures buf[..depth + 1] == old(buf[..depth]) + [t.c]
      ensures Stops(seen + Under(old(buf[..depth]), Own(t)), budget, seen', go)
    {
      ghost var prefix := buf[..depth];
      buf[depth] := nodes[p].c;
      assert buf[..depth + 1] == prefix + [t.c];
      seen', go := seen, true;
      if nodes[p].end {
        seen' := seen + [Entry(buf[..depth + 1], Value(nodes[p].data, nodes[p].size))];
        go := |seen'| <= budget;
        assert Under(prefix, Own(t)) == [Entry(prefix + [t.c], t.val.value)];
      } else {
        assert Under(prefix, Own(t)) == [];
        assert seen + [] == seen;
      }
    }

    /** The rest of `foreach_recursive` after the node itself: middle, then right. */
    method VisitBelow(p: int, ghost t: Tree, buf: array<Letter>, depth: nat, budget: nat, seen: seq<Entry>)
      returns (seen': seq<Entry>, go: bool)
      requires Rep(nodes, p, t) && t.Node? && depth + Height(t) < buf.Length && buf[depth] == t.c && |seen| <= budget
      modifies buf
      ensures buf[..depth] == old(buf[..depth])
      ensures Stops(seen + Under(buf[..depth], Prefixed(t.c, Entries(t.mid)) + Entries(t.right)), budget, seen', go)
      decreases t, 0
    {
      ghost var prefix, c, d := buf[..depth], Prefixed(t.c, Entries(t.mid)), Entries(t.right);
      assert buf[..depth + 1] == prefix + [t.c];
      UnderJoin(prefix, c, d);
      UnderPrefixed(prefix, t.c, Entries(t.mid));
      var s1;
      s1, go := Visit(nodes[p].mid, t.mid, buf, depth + 1, budget, seen);
      assert buf[..depth] == buf[..depth + 1][..depth];
      if !go { StopsEarly(seen, Under(prefix, c), Under(prefix, d), budget, s1); return s1, false; }
      seen', go := Visit(nodes[p].right, t.right, buf, depth, budget, s1);
      StopsThen(seen, Under(prefix, c), Under(prefix, d), budget, s1, seen', go);
    }

    /** The node itself and what is below and right of it. */
    method VisitHere(p: int, ghost t: Tree, buf: array<Letter>, depth: nat, budget: nat, seen: seq<Entry>)
      returns (seen': seq<Entry>, go: bool)
      requires Rep(nodes, p, t) && t.Node? && depth + Height(t) < buf.Length && |seen| <= budget
      modifies buf
      ensures buf[..depth] == old(buf[..depth])
      ensures Stops(seen + Under(buf[..depth], Own(t) + (Prefixed(t.c, Entries(t.mid)) + Entries(t.right))), budget,
                    seen', go)
      decreases t, 1
    {
      ghost var prefix, b, rest := buf[..depth], Own(t), Prefixed(t.c, Entries(t.mid)) + Entries(t.right);
      UnderJoin(prefix, b, rest);
      var s1;
      s1, go := Report(p, t, buf, depth, budget, seen);
      assert buf[..depth] == buf[..depth + 1][..depth];
      if !go { StopsEarly(seen, Under(prefix, b), Under(prefix, rest), budget, s1); return s1, false; }
      assert buf[depth] == buf[..depth + 1][depth];
      seen', go := VisitBelow(p, t, buf, depth, budget, s1);
      StopsThen(seen, Under(prefix, b), Under(prefix, rest), budget, s1, seen', go);
    }

    /** `foreach_recursive` */
    method Visit(p: int, ghost t: Tree, buf: array<Letter>, depth: nat, budget: nat, seen: seq<Entry>)
      returns (seen': seq<Entry>, go: bool)
      requires Rep(nodes, p, t) && depth + Height(t) < buf.Length && |seen| <= budget
      modifies buf
      ensures buf[..depth] == old(buf[..depth])
      ensures Stops(seen + Under(buf[..depth], Entries(t)), budget, seen', go)
      decreases t, 2
    {
      ghost var prefix := buf[..depth];
      if p == NULL {
        assert seen + Under(prefix, []) == seen;
        return seen, true;
      }
      ghost var a, rest := Entries(t.left), Own(t) + (Prefixed(t.c, Entries(t.mid)) + Entries(t.right));
      UnderJoin(prefix, a, rest);
      var s1;
      s1, go := Visit(nodes[p].left, t.left, buf, depth, budget, seen);
      if !go { StopsEarly(seen, Under(prefix, a), Under(prefix, rest), budget, s1); return s1, false; }
      seen', go := VisitHere(p, t, buf, depth, budget, s1);
      StopsThen(seen, Under(prefix, a), Under(prefix, rest), budget, s1, seen', go);
    }

    /** `qihse_trinary_trie_foreach` with its 512-byte key buffer: the callback sees the live
        keys in ascending order, each once with its value, until it refuses the call after
        `budget` accepted ones. A trie of 512 levels does not fit the buffer; where every leaf
        ends a key, that is a trie with a key of 512 letters (`HeightTells`). */
    method ForEach(budget: nat) returns (seen: seq<Entry>)
      requires Valid() && Height(tree) < 512
      ensures seen == if |Entries(tree)| <= budget then Entries(tree) else Entries(tree)[..budget + 1]
      ensures Ascending(Entries(tree))
      ensures forall e: Entry :: e.key != [] ==> (e in Entries(tree) <==> Lookup(tree, e.key) == Some(e.val))
    {
      var buf := new Letter[512](_ => 1);
      var more;
      seen, more := Visit(root, tree, buf, 0, budget, []);
      UnderEmpty(Entries(tree));
      assert buf[..0] == [];
      assert [] + Entries(tree) == Entries(tree);
      EntriesAscend(tree, -129, 128);
      forall e: Entry | e.key != [] ensures e in Entries(tree) <==> Lookup(tree, e.key) == Some(e.val) {
        EntriesFound(tree, -129, 128, e);
      }
    }
  }
}
