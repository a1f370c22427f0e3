/** How a trie lies in its node pool: cells, links, contexts and the free list
    (algorithms/qihse_trinary_trie.c). */
module TrieHeap {
  import opened Prelude
  import opened TrieModel

  const NULL := -1
  const CHUNK: nat := 256

  /** `qihse_tst_node_t`; links are pool positions. */
  datatype Cell = Cell(c: Letter, end: bool, data: Option<Bytes>, size: nat, left: int, mid: int, right: int)

  datatype Dir = Left | Mid | Right

  function Blank(c: Letter): Cell { Cell(c, false, None, 0, NULL, NULL, NULL) }

  function ValOf(x: Cell): Option<Value> {
    if x.end then Some(Value(x.data, x.size)) else None
  }

  function Link(x: Cell, d: Dir): int {
    match d case Left => x.left case Mid => x.mid case Right => x.right
  }

  function Relink(x: Cell, d: Dir, p: int): Cell {
    match d case Left => x.(left := p) case Mid => x.(mid := p) case Right => x.(right := p)
  }

  // ---------------------------------------------------------------- trees in the pool

  /** The positions a tree occupies. */
  function Foot(nodes: seq<Cell>, p: int, t: Tree): set<int>
    decreases t
  {
    if t.Nil? || !(0 <= p < |nodes|) then {}
    else {p} + Foot(nodes, nodes[p].left, t.left) + Foot(nodes, nodes[p].mid, t.mid)
         + Foot(nodes, nodes[p].right, t.right)
  }

  predicate Apart(p: int, a: set<int>, b: set<int>, c: set<int>) {
    p !in a && p !in b && p !in c && a !! b && a !! c && b !! c
  }

  predicate Carries(x: Cell, c: Letter, val: Option<Value>) {
    x.c == c && ValOf(x) == val && (!x.end ==> x.data == None)
  }

  /** The cells from `p` on are exactly the tree, without sharing. */
  predicate Rep(nodes: seq<Cell>, p: int, t: Tree)
    decreases t
  {
    if t.Nil? then p == NULL
    else
      && 0 <= p < |nodes| && Carries(nodes[p], t.c, t.val)
      && Rep(nodes, nodes[p].left, t.left) && Rep(nodes, nodes[p].mid, t.mid) && Rep(nodes, nodes[p].right, t.right)
      && Apart(p, Foot(nodes, nodes[p].left, t.left), Foot(nodes, nodes[p].mid, t.mid),
               Foot(nodes, nodes[p].right, t.right))
  }

  /** Equal on some positions. */
  predicate Agree(nodes: seq<Cell>, nodes': seq<Cell>, at: set<int>) {
    forall i :: i in at && 0 <= i < |nodes| ==> i < |nodes'| && nodes'[i] == nodes[i]
  }

  lemma {:induction false} RepFrame(nodes: seq<Cell>, nodes': seq<Cell>, p: int, t: Tree)
    requires Rep(nodes, p, t) && Agree(nodes, nodes', Foot(nodes, p, t))
    ensures Rep(nodes', p, t) && Foot(nodes', p, t) == Foot(nodes, p, t)
    decreases t
  {
    if t.Node? {
      assert p in Foot(nodes, p, t);
      RepFrame(nodes, nodes', nodes[p].left, t.left);
      RepFrame(nodes, nodes', nodes[p].mid, t.mid);
      RepFrame(nodes, nodes', nodes[p].right, t.right);
    }
  }

  // ---------------------------------------------------------------- a tree with a hole

  /** A node on the way down: the direction taken and the two subtrees left behind. */
  datatype Frame = Frame(id: int, c: Letter, val: Option<Value>, dir: Dir, a: Tree, b: Tree)

  function Fill(f: Frame, t: Tree): Tree {
    match f.dir
    case Left => Node(f.c, f.val, t, f.a, f.b)
    case Mid => Node(f.c, f.val, f.a, t, f.b)
    case Right => Node(f.c, f.val, f.a, f.b, t)
  }

  function Plug(frames: seq<Frame>, t: Tree): Tree {
    if frames == [] then t else Plug(frames[..|frames| - 1], Fill(frames[|frames| - 1], t))
  }

  function LinkA(x: Cell, d: Dir): int { if d.Left? then x.mid else x.left }

  function LinkB(x: Cell, d: Dir): int { if d.Right? then x.mid else x.right }

  function FrameFoot(nodes: seq<Cell>, f: Frame): set<int> {
    if 0 <= f.id < |nodes| then
      {f.id} + Foot(nodes, LinkA(nodes[f.id], f.dir), f.a) + Foot(nodes, LinkB(nodes[f.id], f.dir), f.b)
    else {}
  }

  /** One frame in the pool, its hole pointing to `hole`. */
  predicate RepFrameCell(nodes: seq<Cell>, f: Frame, hole: int) {
    && 0 <= f.id < |nodes| && Carries(nodes[f.id], f.c, f.val) && Link(nodes[f.id], f.dir) == hole
    && Rep(nodes, LinkA(nodes[f.id], f.dir), f.a) && Rep(nodes, LinkB(nodes[f.id], f.dir), f.b)
    && Apart(f.id, Foot(nodes, LinkA(nodes[f.id], f.dir), f.a), Foot(nodes, LinkB(nodes[f.id], f.dir), f.b), {})
  }

  function CtxFoot(nodes: seq<Cell>, frames: seq<Frame>): set<int> {
    if frames == [] then {}
    else CtxFoot(nodes, frames[..|frames| - 1]) + FrameFoot(nodes, frames[|frames| - 1])
  }

  /** The frames lead from `root` to a hole pointing to `hole`. */
  predicate RepCtx(nodes: seq<Cell>, root: int, frames: seq<Frame>, hole: int) {
    if frames == [] then root == hole
    else
      var rest, f := frames[..|frames| - 1], frames[|frames| - 1];
      && RepFrameCell(nodes, f, hole)
      && RepCtx(nodes, root, rest, f.id)
      && CtxFoot(nodes, rest) !! FrameFoot(nodes, f)
  }

  lemma FillRep(nodes: seq<Cell>, f: Frame, hole: int, t: Tree)
    requires RepFrameCell(nodes, f, hole) && Rep(nodes, hole, t) && FrameFoot(nodes, f) !! Foot(nodes, hole, t)
    ensures Rep(nodes, f.id, Fill(f, t))
    ensures Foot(nodes, f.id, Fill(f, t)) == FrameFoot(nodes, f) + Foot(nodes, hole, t)
  {
    match f.dir case Left => {} case Mid => {} case Right => {}
  }

  /** Filling the hole gives back a whole tree. */
  lemma {:induction false} PlugRep(nodes: seq<Cell>, root: int, frames: seq<Frame>, hole: int, t: Tree)
    requires RepCtx(nodes, root, frames, hole) && Rep(nodes, hole, t) && CtxFoot(nodes, frames) !! Foot(nodes, hole, t)
    ensures Rep(nodes, root, Plug(frames, t))
    ensures Foot(nodes, root, Plug(frames, t)) == CtxFoot(nodes, frames) + Foot(nodes, hole, t)
    decreases |frames|
  {
    if frames != [] {
      var rest, f := frames[..|frames| - 1], frames[|frames| - 1];
      FillRep(nodes, f, hole, t);
      PlugRep(nodes, root, rest, f.id, Fill(f, t));
    }
  }

  /** The frame left behind when descending from `t` in direction `d`. */
  function FrameOf(p: int, t: Tree, d: Dir): Frame
    requires t.Node?
  {
    match d
    case Left => Frame(p, t.c, t.val, Left, t.mid, t.right)
    case Mid => Frame(p, t.c, t.val, Mid, t.left, t.right)
    case Right => Frame(p, t.c, t.val, Right, t.left, t.mid)
  }

  function Child(t: Tree, d: Dir): Tree
    requires t.Node?
  {
    match d case Left => t.left case Mid => t.mid case Right => t.right
  }

  function WithChild(t: Tree, d: Dir, s: Tree): Tree
    requires t.Node?
  {
    match d case Left => t.(left := s) case Mid => t.(mid := s) case Right => t.(right := s)
  }

  /** A node is its frame filled with one child. */
  lemma SplitNode(nodes: seq<Cell>, p: int, t: Tree, d: Dir, s: Tree)
    requires t.Node? && Rep(nodes, p, t)
    ensures RepFrameCell(nodes, FrameOf(p, t, d), Link(nodes[p], d)) && Rep(nodes, Link(nodes[p], d), Child(t, d))
    ensures FrameFoot(nodes, FrameOf(p, t, d)) !! Foot(nodes, Link(nodes[p], d), Child(t, d))
    ensures FrameFoot(nodes, FrameOf(p, t, d)) + Foot(nodes, Link(nodes[p], d), Child(t, d)) == Foot(nodes, p, t)
    ensures Fill(FrameOf(p, t, d), s) == WithChild(t, d, s)
  {
    match d case Left => {} case Mid => {} case Right => {}
  }

  lemma Descend(nodes: seq<Cell>, root: int, frames: seq<Frame>, p: int, t: Tree, d: Dir)
    requires t.Node? && RepCtx(nodes, root, frames, p) && Rep(nodes, p, t)
             && CtxFoot(nodes, frames) !! Foot(nodes, p, t)
    ensures var f := FrameOf(p, t, d);
            && RepCtx(nodes, root, frames + [f], Link(nodes[p], d)) && Rep(nodes, Link(nodes[p], d), Child(t, d))
            && CtxFoot(nodes, frames + [f]) !! Foot(nodes, Link(nodes[p], d), Child(t, d))
            && CtxFoot(nodes, frames + [f]) + Foot(nodes, Link(nodes[p], d), Child(t, d)) ==
                 CtxFoot(nodes, frames) + Foot(nodes, p, t)
            && Plug(frames + [f], Child(t, d)) == Plug(frames, t)
  {
    var f := FrameOf(p, t, d);
    assert (frames + [f])[..|frames|] == frames;
    SplitNode(nodes, p, t, d, Child(t, d));
  }

  /** The cell and link the hole stands for; the root's own link if there is no frame. */
  predicate HoleAt(frames: seq<Frame>, owner: int, dir: Dir) {
    if frames == [] then owner == NULL else owner == frames[|frames| - 1].id && dir == frames[|frames| - 1].dir
  }

  function DirOf(letter: Letter, c: Letter): Dir {
    if letter < c then Left else if letter > c then Right else Mid
  }

  /** Descending also follows the key. */
  lemma FollowsDown(frames: seq<Frame>, key: Key, rest: Key, p: int, t: Tree, d: Dir, rest': Key)
    requires t.Node? && Follows(frames, key, rest) && rest != [] && rest' != []
    requires match d
             case Left => rest' == rest && rest[0] < t.c
             case Mid => rest == [t.c] + rest'
             case Right => rest' == rest && rest[0] > t.c
    ensures Follows(frames + [FrameOf(p, t, d)], key, rest')
  {
    assert (frames + [FrameOf(p, t, d)])[..|frames|] == frames;
  }

  lemma {:induction false} CtxFrame(nodes: seq<Cell>, nodes': seq<Cell>, root: int, frames: seq<Frame>, hole: int)
    requires RepCtx(nodes, root, frames, hole) && Agree(nodes, nodes', CtxFoot(nodes, frames))
    ensures RepCtx(nodes', root, frames, hole) && CtxFoot(nodes', frames) == CtxFoot(nodes, frames)
    decreases |frames|
  {
    if frames != [] {
      var rest, f := frames[..|frames| - 1], frames[|frames| - 1];
      CtxFrame(nodes, nodes', root, rest, f.id);
      assert f.id in CtxFoot(nodes, frames);
      RepFrame(nodes, nodes', LinkA(nodes[f.id], f.dir), f.a);
      RepFrame(nodes, nodes', LinkB(nodes[f.id], f.dir), f.b);
    }
  }

  lemma AgreeOn(nodes: seq<Cell>, nodes': seq<Cell>, all: set<int>, some: set<int>)
    requires Agree(nodes, nodes', all) && some <= all
    ensures Agree(nodes, nodes', some)
  {}

  /** A frame whose own link is redirected. */
  lemma FrameMoves(nodes: seq<Cell>, nodes': seq<Cell>, f: Frame, hole: int, hole': int)
    requires RepFrameCell(nodes, f, hole) && Agree(nodes, nodes', FrameFoot(nodes, f) - {f.id})
    requires f.id < |nodes'| && nodes'[f.id] == Relink(nodes[f.id], f.dir, hole')
    ensures RepFrameCell(nodes', f, hole') && FrameFoot(nodes', f) == FrameFoot(nodes, f)
  {
    var a, b := LinkA(nodes[f.id], f.dir), LinkB(nodes[f.id], f.dir);
    AgreeOn(nodes, nodes', FrameFoot(nodes, f) - {f.id}, Foot(nodes, a, f.a));
    AgreeOn(nodes, nodes', FrameFoot(nodes, f) - {f.id}, Foot(nodes, b, f.b));
    RepFrame(nodes, nodes', a, f.a);
    RepFrame(nodes, nodes', b, f.b);
    assert LinkA(nodes'[f.id], f.dir) == a && LinkB(nodes'[f.id], f.dir) == b;
  }

  /** Redirecting the hole's link changes nothing else. */
  lemma SetHole(nodes: seq<Cell>, root: int, frames: seq<Frame>, hole: int, hole': int)
    requires RepCtx(nodes, root, frames, hole) && frames != []
    ensures var f := frames[|frames| - 1];
            var nodes' := nodes[f.id := Relink(nodes[f.id], f.dir, hole')];
            && RepCtx(nodes', root, frames, hole') && CtxFoot(nodes', frames) == CtxFoot(nodes, frames)
  {
    var rest, f := frames[..|frames| - 1], frames[|frames| - 1];
    var nodes' := nodes[f.id := Relink(nodes[f.id], f.dir, hole')];
    CtxFrame(nodes, nodes', root, rest, f.id);
    FrameMoves(nodes, nodes', f, hole, hole');
  }

  /** Unchanged outside some positions. */
  predicate Outside(nodes: seq<Cell>, nodes': seq<Cell>, at: set<int>) {
    |nodes'| == |nodes| && forall i :: 0 <= i < |nodes| && i !in at ==> nodes'[i] == nodes[i]
  }

  /** A subtree replaced by one that stays inside the old one's positions. */
  lemma ChildReplaced(nodes: seq<Cell>, nodes': seq<Cell>, p: int, t: Tree, d: Dir, q: int, s: Tree)
    requires Rep(nodes, p, t) && t.Node? && Rep(nodes', q, s)
    requires Outside(nodes, nodes', Foot(nodes, Link(nodes[p], d), Child(t, d)))
    requires Foot(nodes', q, s) <= Foot(nodes, Link(nodes[p], d), Child(t, d))
    ensures var after := nodes'[p := Relink(nodes'[p], d, q)];
            && Rep(after, p, WithChild(t, d, s))
            && Foot(after, p, WithChild(t, d, s)) ==
                 Foot(nodes, p, t) - Foot(nodes, Link(nodes[p], d), Child(t, d)) + Foot(nodes', q, s)
  {
    var after, f := nodes'[p := Relink(nodes'[p], d, q)], FrameOf(p, t, d);
    SplitNode(nodes, p, t, d, s);
    FrameMoves(nodes, after, f, Link(nodes[p], d), q);
    RepFrame(nodes', after, q, s);
    FillRep(after, f, q, s);
  }

  /** Shrinking one part of a footprint shrinks the whole by as much. */
  lemma SwapPart(used: set<int>, foot: set<int>, part: set<int>, part': set<int>)
    requires part' <= part <= foot <= used
    ensures used - part + part' == used - foot + (foot - part + part') && foot - part + part' <= foot
  {}

  lemma ChildInside(nodes: seq<Cell>, p: int, t: Tree, d: Dir)
    requires Rep(nodes, p, t) && t.Node?
    ensures Rep(nodes, Link(nodes[p], d), Child(t, d))
    ensures Foot(nodes, Link(nodes[p], d), Child(t, d)) <= Foot(nodes, p, t)
    ensures p in Foot(nodes, p, t) && p !in Foot(nodes, Link(nodes[p], d), Child(t, d))
  {
    SplitNode(nodes, p, t, d, Nil);
  }

  /** Rewriting the end mark of one node. */
  lemma EndSet(nodes: seq<Cell>, p: int, t: Tree, x: Cell, o: Option<Value>)
    requires Rep(nodes, p, t) && t.Node? && Carries(x, t.c, o)
    requires x.left == nodes[p].left && x.mid == nodes[p].mid && x.right == nodes[p].right
    ensures Rep(nodes[p := x], p, t.(val := o)) && Foot(nodes[p := x], p, t.(val := o)) == Foot(nodes, p, t)
  {
    RepFrame(nodes, nodes[p := x], x.left, t.left);
    RepFrame(nodes, nodes[p := x], x.mid, t.mid);
    RepFrame(nodes, nodes[p := x], x.right, t.right);
  }

  // ---------------------------------------------------------------- following a key

  /** The frames are the way `key` takes, leaving `rest` to match. */
  predicate Follows(frames: seq<Frame>, key: Key, rest: Key) {
    if frames == [] then key == rest
    else
      var up, f := frames[..|frames| - 1], frames[|frames| - 1];
      && rest != []
      && match f.dir
         case Left => rest[0] < f.c && Follows(up, key, rest)
         case Mid => Follows(up, key, [f.c] + rest)
         case Right => rest[0] > f.c && Follows(up, key, rest)
  }

  lemma {:induction false} PutFollows(frames: seq<Frame>, key: Key, rest: Key, t: Tree, o: Option<Value>)
    requires key != [] && rest != [] && Follows(frames, key, rest)
    ensures Put(Plug(frames, t), key, o) == Plug(frames, Put(t, rest, o))
    decreases |frames|
  {
    if frames != [] {
      var up, f := frames[..|frames| - 1], frames[|frames| - 1];
      var rest' := if f.dir.Mid? then [f.c] + rest else rest;
      PutFollows(up, key, rest', Fill(f, t), o);
      assert f.dir.Mid? ==> rest'[1..] == rest;
      assert Put(Fill(f, t), rest', o) == Fill(f, Put(t, rest, o));
    }
  }

  lemma {:induction false} LookupFollows(frames: seq<Frame>, key: Key, rest: Key, t: Tree)
    requires key != [] && rest != [] && Follows(frames, key, rest)
    ensures Lookup(Plug(frames, t), key) == Lookup(t, rest)
    decreases |frames|
  {
    if frames != [] {
      var up, f := frames[..|frames| - 1], frames[|frames| - 1];
      var rest' := if f.dir.Mid? then [f.c] + rest else rest;
      LookupFollows(up, key, rest', Fill(f, t));
      assert f.dir.Mid? ==> rest'[1..] == rest;
    }
  }

  /** Growing a leaf where the key runs out of tree changes no later `Put` of that key. */
  lemma PutAtLeaf(frames: seq<Frame>, key: Key, rest: Key, o: Option<Value>)
    requires key != [] && rest != [] && Follows(frames, key, rest)
    ensures Put(Plug(frames, Leaf(rest[0])), key, o) == Put(Plug(frames, Nil), key, o)
  {
    PutFollows(frames, key, rest, Leaf(rest[0]), o);
    PutFollows(frames, key, rest, Nil, o);
  }

  /** Trees that differ only in nodes that `key` will use anyway. */
  ghost predicate SamePut(t: Tree, u: Tree, key: Key)
    requires key != []
  {
    forall o :: Put(t, key, o) == Put(u, key, o)
  }

  lemma LeafSamePut(frames: seq<Frame>, key: Key, rest: Key, u: Tree)
    requires key != [] && rest != [] && Follows(frames, key, rest) && SamePut(Plug(frames, Nil), u, key)
    ensures SamePut(Plug(frames, Leaf(rest[0])), u, key)
  {
    forall o ensures Put(Plug(frames, Leaf(rest[0])), key, o) == Put(u, key, o) {
      PutAtLeaf(frames, key, rest, o);
    }
  }

  /** Where a key runs out of tree it is unbound, and no other binding has changed. */
  lemma UnboundAtHole(frames: seq<Frame>, key: Key, rest: Key, u: Tree, k: Key)
    requires key != [] && rest != [] && Follows(frames, key, rest) && SamePut(Plug(frames, Nil), u, key)
    ensures Lookup(Plug(frames, Nil), k) == if k == key then None else Lookup(u, k)
  {
    LookupFollows(frames, key, rest, Nil);
    LookupOfPut(Plug(frames, Nil), key, None, k);
    LookupOfPut(u, key, None, k);
  }

  lemma {:induction false} BstBeforePut(t: Tree, key: Key, o: Option<Value>, lo: int, hi: int)
    requires key != [] && Bst(Put(t, key, o), lo, hi)
    ensures Bst(t, lo, hi)
    decreases |key|, t
  {
    if t.Node? {
      if key[0] < t.c { BstBeforePut(t.left, key, o, lo, t.c); }
      else if key[0] > t.c { BstBeforePut(t.right, key, o, t.c, hi); }
      else if |key| > 1 { BstBeforePut(t.mid, key[1..], o, -129, 128); }
    }
  }

  // ---------------------------------------------------------------- the pool

  /** The free list, threaded through the left links. */
  predicate Chain(nodes: seq<Cell>, head: int, free: seq<int>)
    decreases |free|
  {
    if free == [] then head == NULL
    else head == free[0] && 0 <= head < |nodes| && Chain(nodes, nodes[head].left, free[1..])
  }

  lemma {:induction false} ChainFrame(nodes: seq<Cell>, nodes': seq<Cell>, head: int, free: seq<int>)
    requires Chain(nodes, head, free) && |nodes| <= |nodes'|
    requires forall i :: i in free && 0 <= i < |nodes| ==> nodes'[i] == nodes[i]
    ensures Chain(nodes', head, free)
    decreases |free|
  {
    if free != [] { ChainFrame(nodes, nodes', nodes[head].left, free[1..]); }
  }

  predicate Distinct(free: seq<int>) {
    forall i, j :: 0 <= i < j < |free| ==> free[i] != free[j]
  }

  /** First never-used position of the newest chunk. */
  function TailStart(n: nat, chunkUsed: nat): int { n - CHUNK + chunkUsed }

  /** Every position is in exactly one of the tree, the free list and the unused tail. */
  predicate Partition(n: nat, free: seq<int>, chunkUsed: nat, used: set<int>) {
    && chunkUsed <= CHUNK && 0 <= TailStart(n, chunkUsed)
    && Distinct(free)
    && (forall i :: i in free ==> 0 <= i < TailStart(n, chunkUsed) && i !in used)
    && (forall i :: i in used ==> 0 <= i < TailStart(n, chunkUsed))
    && (forall i :: 0 <= i < TailStart(n, chunkUsed) ==> i in used || i in free)
  }

  /** Allocation from the free list, from the newest chunk, and a new chunk. */
  lemma PartitionTake(n: nat, free: seq<int>, chunkUsed: nat, used: set<int>)
    requires Partition(n, free, chunkUsed, used) && free != []
    ensures Partition(n, free[1..], chunkUsed, used + {free[0]})
  {
    forall i | i in free[1..] ensures i != free[0] && i in free {
      var k :| 0 <= k < |free[1..]| && free[1..][k] == i;
      assert free[k + 1] == i;
    }
    forall i | i in free && i != free[0] ensures i in free[1..] {
      var k :| 0 <= k < |free| && free[k] == i;
      assert free[1..][k - 1] == i;
    }
  }

  lemma PartitionFresh(n: nat, free: seq<int>, chunkUsed: nat, used: set<int>)
    requires Partition(n, free, chunkUsed, used) && chunkUsed < CHUNK
    ensures Partition(n, free, chunkUsed + 1, used + {TailStart(n, chunkUsed)})
  {}

  lemma PartitionGrow(n: nat, free: seq<int>, used: set<int>)
    requires Partition(n, free, CHUNK, used)
    ensures Partition(n + CHUNK, free, 0, used)
  {}
}
