/** The R-tree of free blocks: search, insertion and removal
    (updown/libraries/dramalloc/rtree.cpp:20-30, 98-153, 388-531). */
module RTrees {
  import opened Climbs
  import opened Condense
  import opened Nodes
  import opened Reinserts
  import opened Rects
  import opened Seqs
  import opened Split
  import opened TreeModel

  /** The box of child `k` grows least when `r` is added, and it is the first such child. */
  ghost predicate LeastGrown(kids: seq<Tree>, r: Rect, k: int) {
    && 0 <= k < |kids|
    && forall j :: 0 <= j < |kids| ==>
      && Enlargement(kids[k].rect, r) <= Enlargement(kids[j].rect, r)
      && (j < k ==> Enlargement(kids[k].rect, r) < Enlargement(kids[j].rect, r))
  }

  /** From `t` down to `leaf`, always through the child that grows least. */
  ghost predicate LeastDescent(t: Tree, r: Rect, leaf: Tree)
    decreases t
  {
    match t
    case Leaf(_, _) => leaf == t
    case Inner(_, _, kids) => exists k :: LeastGrown(kids, r, k) && LeastDescent(kids[k], r, leaf)
  }

  lemma DescentStep(t: Tree, r: Rect, k: nat, leaf: Tree)
    requires t.Inner? && LeastGrown(t.kids, r, k) && LeastDescent(t.kids[k], r, leaf)
    ensures LeastDescent(t, r, leaf)
  {
  }

  lemma BoxCommutes(a: Rect, b: Rect)
    ensures a.BoundingBox(b) == b.BoundingBox(a)
  {
  }

  /** The child whose box grows least when `b` is added, first among equals. */
  method ChooseLeaf(n: Node, b: Block, ghost S: set<Node>, ghost root: Node) returns (leaf: Node)
    requires Whole(S, root) && n in S
    ensures leaf in S && leaf.level == 0
    ensures LeastDescent(n.view, b.rect, leaf.view) && (n.level == 0 ==> leaf == n)
    decreases n.level
  {
    hide LeastGrown, LeastDescent, Whole, Shaped;
    if n.level == 0 {
      LeafIs(S, root, n, b.rect);
      return n;
    }
    InnerFacts(S, root, n);
    var imin := LeastChild(n, b.rect, n.view.kids);
    leaf := ChooseLeaf(n.branches[imin].child, b, S, root);
    DescentStep(n.view, b.rect, imin, leaf.view);
  }

  lemma LeafIs(S: set<Node>, root: Node, n: Node, r: Rect)
    requires Whole(S, root) && n in S && n.level == 0
    ensures LeastDescent(n.view, r, n.view)
  {
    LeafFacts(S, root, n);
  }

  method LeastChild(n: Node, r: Rect, ghost kids: seq<Tree>) returns (imin: nat)
    requires n.Bounded() && 1 <= n.count == |kids|
    requires forall i :: 0 <= i < n.count ==> n.branches[i].child != null && n.branches[i].child.rect == kids[i].rect
    ensures imin < n.count && LeastGrown(kids, r, imin)
  {
    hide Enlargement, Rect.BoundingBox;
    var c0 := n.branches[0].child;
    var area := Wrap(r.BoundingBox(c0.rect).Area() - c0.rect.Area());
    GrowthIs(c0.rect, r);
    imin := 0;
    var i := 1;
    while i < n.count
      invariant 1 <= i <= n.count && 0 <= imin < i && area == Enlargement(kids[imin].rect, r)
      invariant forall j :: 0 <= j < i ==> area <= Enlargement(kids[j].rect, r)
      invariant forall j :: 0 <= j < imin ==> area < Enlargement(kids[j].rect, r)
    {
      var c := n.branches[i].child;
      var box := r.BoundingBox(c.rect);
      var na := Wrap(box.Area() - c.rect.Area());
      GrowthIs(c.rect, r);
      if na < area {
        imin, area := i, na;
      }
      i := i + 1;
    }
  }

  lemma GrowthIs(bb: Rect, r: Rect)
    ensures Wrap(r.BoundingBox(bb).Area() - bb.Area()) == Enlargement(bb, r)
  {
    BoxCommutes(bb, r);
  }

  /** Node `n`, once in `before`, is out of the tree with nodes `S` but still has its
      level and entries. */
  ghost predicate CutOut(n: Node, level: int, S: set<Node>, before: set<Node>)
    reads n
  {
    n !in S && n in before && n.level == level && n.Typed() && n.count >= 1 && n.view.rect == n.rect
  }

  /** A leaf agrees with its view. */
  ghost predicate LeafMirrors(n: Node)
    reads n
  {
    && n.level == 0 && n.Typed() && n.view.Leaf? && n.view.rect == n.rect && |n.view.blocks| == n.count
    && forall i :: 0 <= i < n.count ==> n.view.blocks[i] == n.branches[i].block
  }

  lemma LeafMirrorsIff(n: Node)
    requires n.level == 0
    ensures n.Mirrors() <==> LeafMirrors(n)
  {
  }

  /** Node by node, level by level, `removed` left the tree, now with nodes `S`; with the
      blocks `gone0` that makes `gone`, as long as inner nodes are not among them. */
  ghost predicate Detached(removed: seq<Node>, S: set<Node>, before: set<Node>, gone0: multiset<Block>, gone: multiset<Block>)
    reads removed
  {
    && (forall i :: 0 <= i < |removed| ==> CutOut(removed[i], i, S, before))
    && gone0 <= gone && (removed == [] ==> gone == gone0)
    && (|removed| == 1 ==> gone == gone0 + Contents(removed[0].view))
    && (removed != [] ==> LeafMirrors(removed[0]))
  }

  lemma LeafContents(t: Tree)
    requires t.Leaf?
    ensures Contents(t) == multiset(t.blocks)
  {
  }

  lemma NothingDetached(S: set<Node>, gone0: multiset<Block>)
    ensures Detached([], S, S, gone0, gone0)
  {
  }

  lemma DetachedApart(removed: seq<Node>, S: set<Node>, before: set<Node>, gone0: multiset<Block>, gone: multiset<Block>)
    requires Detached(removed, S, before, gone0, gone)
    ensures forall n :: n in removed ==> n !in S
  {
  }

  lemma DetachedWithin(removed: seq<Node>, S: set<Node>, T: set<Node>, before: set<Node>, gone0: multiset<Block>, gone: multiset<Block>)
    requires Detached(removed, S, before, gone0, gone) && T <= S
    ensures Detached(removed, T, before, gone0, gone)
  {
    hide Node.Typed, LeafMirrors;
  }

  lemma DetachedMore(removed: seq<Node>, n: Node, S: set<Node>, T: set<Node>, before: set<Node>, gone0: multiset<Block>, gone: multiset<Block>)
    requires Detached(removed, S, before, gone0, gone) && T <= S && CutOut(n, |removed|, T, before) && n.Mirrors()
    ensures Detached(removed + [n], T, before, gone0, gone + Contents(n.view))
  {
    hide Node.Typed, LeafMirrors, Node.Mirrors, Contents;
    if removed == [] { LeafMirrorsIff(n); }
    var all := removed + [n];
    forall i | 0 <= i < |all| ensures CutOut(all[i], i, T, before) {
      if i < |removed| { assert CutOut(removed[i], i, S, before); }
    }
  }

  lemma DetachedFacts(removed: seq<Node>, S: set<Node>, before: set<Node>, gone0: multiset<Block>, gone: multiset<Block>)
    requires Detached(removed, S, before, gone0, gone)
    ensures forall i :: 0 <= i < |removed| ==> CutOut(removed[i], i, S, before)
    ensures gone0 <= gone && (removed == [] ==> gone == gone0)
    ensures |removed| == 1 ==> gone == gone0 + Contents(removed[0].view)
    ensures removed != [] ==> removed[0].Mirrors()
  {
    hide Node.Typed, LeafMirrors, Node.Mirrors, Contents;
    if removed != [] { LeafMirrorsIff(removed[0]); }
  }

  /** How the upward pass stands at a node of level `level` with `count` entries, the root if
      `top`, after `removed` nodes left the tree: an inner node leaves exactly when the pass
      starves one, which is settled at the leaf, where `tight` says that its parent is at
      the minimum and not the root. */
  predicate Tally(level: int, top: bool, count: int, tight: bool, removed: int, starved: bool) {
    && 0 <= removed <= level && (!starved ==> removed <= 1)
    && (level == 0 ==> (top ==> !starved) && (!top ==> count >= 1 && (starved <==> count < MINNODES && tight)))
    && (level > 0 ==> count >= 1 && (!top && count < MINNODES ==> starved && removed == level))
    && (level == 1 && starved ==> !top && count < MINNODES)
    && (level >= 2 && starved ==> removed >= 2)
  }

  lemma TallyFacts(level: int, count: int, tight: bool, removed: int, starved: bool)
    requires Tally(level, false, count, tight, removed, starved)
    ensures count < MINNODES ==> count >= 1 && removed == level
  {
  }

  /** One level up, to a parent with `above` entries before. */
  lemma TallyStep(level: int, count: int, top: bool, above: int, tight: bool, removed: int, starved: bool)
    requires Tally(level, false, count, tight, removed, starved) && above >= MINNODES
    requires level == 0 ==> (tight <==> !top && above == MINNODES)
    ensures var gone := if count < MINNODES then 1 else 0;
      Tally(level + 1, top, above - gone, false, removed + gone, starved)
  {
  }

  lemma TallyEnds(level: int, count: int, tight: bool, removed: int, starved: bool)
    requires Tally(level, true, count, tight, removed, starved)
    ensures 0 <= removed <= level && (level > 0 ==> count >= 1)
    ensures if starved then removed >= 2 else removed <= 1
  {
  }

  lemma TallyBegins(start: Node, root: Node, starved: bool) returns (tight: bool)
    requires start.level == 0 && (start != root ==> start.count >= 1 && start.parent != null)
    requires starved <==>
      start != root && start.count < MINNODES && start.parent != root && start.parent.count == MINNODES
    ensures Tally(0, start == root, start.count, tight, 0, starved)
    ensures start != root ==> (tight <==> start.parent != root && start.parent.count == MINNODES)
  {
    tight := start != root && start.parent != root && start.parent.count == MINNODES;
  }

  /** What a descent relies on at an inner node. */
  lemma InnerFacts(S: set<Node>, root: Node, n: Node)
    requires Whole(S, root) && n in S && n.level != 0
    ensures n.level > 0 && n.Bounded() && n.count >= 1 && n.view.Inner? && |n.view.kids| == n.count
    ensures forall i :: 0 <= i < n.count ==>
      var c := n.branches[i].child;
      c != null && c in S && c != root && c.parent == n && c.level == n.level - 1 && c.view == n.view.kids[i] && c.rect == c.view.rect
    ensures Shaped(n.view)
  {
    hide IsHull, Distinct;
    assert Linked(n, S, root, null) && Linked(root, S, root, null) && Shapely(n, root) && n.Mirrors();
    forall i | 0 <= i < n.count
      ensures var c := n.branches[i].child;
        c != null && c in S && c != root && c.parent == n && c.level == n.level - 1 && c.view == n.view.kids[i] && c.rect == c.view.rect
    {
      assert n.Children()[i] == n.branches[i].child;
      assert Node.MirrorsChild(n.branches[i].child, n.view.kids[i]);
    }
  }

  /** The search in a node that passes for a leaf.  Entries that are nodes give nothing, and
      nobody looks below them. */
  method SearchLeaf(node: Node, startNode: nat, meml: nat, nodel: nat, acc: seq<Block>) returns (ret: seq<Block>)
    requires node.Bounded()
    ensures LeafMirrors(node) ==> ret == acc + ScanBlocks(node.view.blocks, startNode, meml, nodel)
    ensures node.Blockless() && meml > 0 ==> ret == acc
  {
    hide Wrap, ScanBlocks, Rect.Area;
    var reqarea := Wrap(meml * nodel);
    ret := acc;
    EmptyScans(startNode, meml, nodel);
    ghost var bs := if LeafMirrors(node) then node.view.blocks else [];
    assert bs[..0] == [];
    var i := 0;
    while i < node.count
      invariant 0 <= i <= node.count
      invariant LeafMirrors(node) ==> ret == acc + ScanBlocks(bs[..i], startNode, meml, nodel)
      invariant node.Blockless() && meml > 0 ==> ret == acc
    {
      var b := node.branches[i];
      if LeafMirrors(node) { ScanStep(bs, i, startNode, meml, nodel); }
      if b.Area() >= reqarea && b.block.rect.Fit(startNode, meml, nodel) {
        ret := ret + [b.block];
      }
      i := i + 1;
    }
    assert LeafMirrors(node) ==> bs[..i] == bs;
  }

  /** Appends to `acc` the blocks below `node` that the pruned search finds. */
  method SearchRecursive(node: Node, startNode: nat, meml: nat, nodel: nat, acc: seq<Block>,
                         ghost S: set<Node>, ghost root: Node) returns (ret: seq<Block>)
    requires Whole(S, root) && node in S
    ensures ret == acc + Search(node.view, startNode, meml, nodel)
    decreases node.level
  {
    hide Whole, Linked, Node.Mirrors, Shaped, Wrap, SearchKids, ScanBlocks, Rect.Fit, Rect.Area, LeafMirrors, Node.Blockless;
    var reqarea := Wrap(meml * nodel);
    ret := acc;
    var i := 0;
    if node.level == 0 {
      LeafFacts(S, root, node);
      LeafMirrorsIff(node);
      ret := SearchLeaf(node, startNode, meml, nodel, acc);
    } else {
      InnerFacts(S, root, node);
      assert SearchKids(node.view.kids[..0], startNode, meml, nodel) == [] by { EmptyScans(startNode, meml, nodel); }
      while i < node.count
        invariant 0 <= i <= node.count
        invariant ret == acc + SearchKids(node.view.kids[..i], startNode, meml, nodel)
      {
        var c := node.branches[i].child;
        SearchStep(node.view.kids, i, startNode, meml, nodel);
        if node.branches[i].Area() >= reqarea && c.rect.Fit(startNode, meml, nodel) {
          ret := SearchRecursive(c, startNode, meml, nodel, ret, S, root);
        }
        i := i + 1;
      }
      assert node.view.kids[..i] == node.view.kids;
    }
  }

  /** The leaf that holds a block with the rectangle of `b`, found by overlap-guided
      descent; whether removing it would starve an inner node shows in two counts. */
  method FindLeaf(node: Node, b: Block, ghost S: set<Node>, ghost root: Node) returns (ret: Node?)
    requires Whole(S, root) && node in S
    ensures ret == null <==> !Finds(node.view, b.rect)
    ensures ret != null ==> ret in S && ret.level == 0 && Finds(ret.view, b.rect)
    ensures ret != null && node.level > 0 ==> ret != root && ret.parent != null
    ensures ret != null && node.level > 0 ==>
      (Starves(node.view, b.rect) <==> ret.count == MINNODES && ret.parent.count == MINNODES)
    ensures ret != null && node.level == 0 ==> ret == node
    ensures ret != null && node.level == 1 ==> ret.parent == node
    decreases node.level
  {
    hide Whole, Linked, Node.Mirrors, Shaped, WellFormed, Starves, InnerUnderflow;
    var i := 0;
    if node.level == 0 {
      LeafFacts(S, root, node);
      while i < node.count
        invariant 0 <= i <= node.count
        invariant forall j :: 0 <= j < i ==> node.view.blocks[j].rect != b.rect
      {
        if node.branches[i].block.rect == b.rect {
          assert node.view.blocks[i].rect == b.rect;
          return node;
        }
        i := i + 1;
      }
      return null;
    }
    InnerFacts(S, root, node);
    while i < node.count
      invariant 0 <= i <= node.count
      invariant forall j :: 0 <= j < i ==> !(node.view.kids[j].rect.Overlap(b.rect) && Finds(node.view.kids[j], b.rect))
    {
      var c := node.branches[i].child;
      if c.rect.Overlap(b.rect) {
        ret := FindLeaf(c, b, S, root);
        if ret != null {
          assert Hit(node.view.kids, i, b.rect);
          StarvesAt(node.view, i, b.rect);
          LeafOrInner(S, root, c);
          return;
        }
      }
      i := i + 1;
    }
    ret := null;
  }

  lemma EmptyScans(startNode: nat, meml: nat, nodel: nat)
    ensures ScanBlocks([], startNode, meml, nodel) == [] == SearchKids([], startNode, meml, nodel)
  {
  }

  lemma SearchAll(t: Tree, startNode: nat, meml: nat, nodel: nat, arena: Rect)
    requires Shaped(t)
    ensures arena.memLen * arena.nodeLen < WORD && (forall x :: x in Contents(t) ==> arena.Covers(x.rect)) ==>
      var ret := Search(t, startNode, meml, nodel);
      && (forall b :: multiset(ret)[b] == if b.rect.Fit(startNode, meml, nodel) then Contents(t)[b] else 0)
      && ret == Fitting(Listing(t), startNode, meml, nodel)
      && (t.Leaf? ==> SortedByArea(ret))
      && (ret != [] ==> Picked(t, startNode, meml, nodel, ret[0]))
  {
    hide Shaped, Contents, Search, Rect.Fit, Rect.Covers, Fitting, SortedByArea, Picked;
    if arena.memLen * arena.nodeLen < WORD && forall x :: x in Contents(t) ==> arena.Covers(x.rect) {
      SearchInOrder(t, startNode, meml, nodel, arena);
      if t.Leaf? { LeafSorted(t); FittingSorted(t.blocks, startNode, meml, nodel); }
      if Search(t, startNode, meml, nodel) != [] { FirstIsPicked(t, startNode, meml, nodel); }
      forall b ensures multiset(Search(t, startNode, meml, nodel))[b] == if b.rect.Fit(startNode, meml, nodel) then Contents(t)[b] else 0 {
        SearchExact(t, startNode, meml, nodel, arena, b);
      }
    }
  }

  lemma LeafSorted(t: Tree)
    requires t.Leaf? && Shaped(t)
    ensures SortedByArea(t.blocks) && Listing(t) == t.blocks
  {
    hide Rect.Area;
  }

  lemma RootWellFormed(S: set<Node>, root: Node)
    requires Whole(S, root)
    ensures WellFormedRoot(root.view)
  {
    hide WellFormed;
    assert Shapely(root, root);
  }

  lemma RootShaped(S: set<Node>, root: Node)
    requires Whole(S, root)
    ensures Shaped(root.view)
  {
    assert Shapely(root, root);
  }

  lemma LeafOrInner(S: set<Node>, root: Node, n: Node)
    requires Whole(S, root) && n in S
    ensures n.view.Leaf? <==> n.level == 0
    ensures n.view.Size() == n.count
  {
    hide IsHull;
    assert Linked(n, S, root, null) && n.Mirrors();
  }

  /** `removeBlock` on a leaf that holds the rectangle of `b`. */
  method TakeBlock(leaf: Node, b: Block) returns (ghost x: Block)
    requires leaf.level == 0 && leaf.Mirrors() && leaf.view.Leaf? && Shaped(leaf.view) && Finds(leaf.view, b.rect)
    requires leaf.view.Size() <= MAXNODES
    modifies leaf`branches, leaf`count, leaf`view
    ensures leaf.Mirrors() && leaf.Typed() && Shaped(leaf.view) && leaf.view.Size() <= MAXNODES
    ensures x.rect == b.rect && Contents(leaf.view) + multiset{x} == Contents(old(leaf.view))
    ensures leaf.count == old(leaf.count) - 1
  {
    ghost var v := leaf.view;
    assert exists y :: y in v.blocks && y.rect == b.rect by {
      var i :| 0 <= i < |v.blocks| && v.blocks[i].rect == b.rect;
    }
    RemoveBlock(leaf, b);
    ghost var k :| 0 <= k < |v.blocks| && v.blocks[k].rect == b.rect && leaf.view.blocks == Without(v.blocks, k);
    x := v.blocks[k];
    WithoutMultiset(v.blocks, k);
    LeafLoses(v, leaf.view, k);
  }

  /** `n` passes for a leaf, but its entries are nodes, below which no search looks. */
  ghost predicate Stray(n: Node)
    reads n
  {
    && n.level == 0 && n.Bounded() && n.count > 0 && n.Blockless()
    && forall i :: 0 <= i < n.count ==> n.branches[i].child != null
  }

  /** What the search finds in a stray node, for any request of some length: nothing. */
  method SearchStray(n: Node, startNode: nat, meml: nat, nodel: nat) returns (ret: seq<Block>)
    requires Stray(n) && meml > 0
    ensures ret == []
  {
    ret := SearchLeaf(n, startNode, meml, nodel, []);
  }

  /** An inner node that is made a leaf is stray, and stays so while nobody touches it. */
  twostate lemma BecomesStray(n: Node)
    requires (old(n.Typed()) && old(n.level) > 0 && n.count > 0) || old(Stray(n))
    requires n.level == 0 && n.count == old(n.count) && n.branches == old(n.branches)
    ensures Stray(n)
  {
  }

  class RTree {
    var root: Node
    const space: Rect
    ghost var nodes: set<Node>

    ghost predicate Valid()
      reads this, nodes
    {
      Whole(nodes, root)
    }

    /** Everything stored in the tree. */
    ghost function Blocks(): multiset<Block>
      reads this, root
    {
      Contents(root.view)
    }

    constructor (memStart: nat, nodeStart: nat, memLength: nat, nodeLength: nat)
      ensures Valid() && Tight() && fresh(nodes)
      ensures Blocks() == multiset{Block(Rect(memStart, nodeStart, memLength, nodeLength), 64)} && root.view.Leaf?
    {
      var r := Rect(memStart, nodeStart, memLength, nodeLength);
      var n := new Node(0);
      n.rect := r;
      n.view := Leaf(r, []);
      AddBlock(n, Block(r, 64));
      root, space, nodes := n, r, {n};
    }

    /** An inner root has at least two children. */
    ghost predicate Tight()
      reads this, root
    {
      root.level > 0 ==> root.count >= MINNODES
    }

    /** AdjustTree: carries a change of `start`, and a possible new sibling, up to the
        root.  The blocks `delta` came in below `start`; `before` is the old root view. */
    method AdjustTree(start: Node, startExtra: Node?, ghost c0: Climb, ghost before: Tree, ghost delta: multiset<Block>)
      requires Climbing(c0) && c0.root == root && start == c0.cur && startExtra == c0.extra
      requires Contents(start.view) + ExtraContents(startExtra) == Contents(c0.stale) + delta
      requires before == if start == root then c0.stale else root.view
      modifies this, c0.nodes
      ensures Valid() && fresh(nodes - c0.nodes)
      ensures Blocks() == Contents(before) + delta
      ensures old(Tight()) ==> Tight()
      ensures old(root.level) <= root.level <= old(root.level) + 1
      ensures start == old(root) && startExtra == null ==> root == old(root) && root.view == old(root.view) && root.level == old(root.level)
      ensures start == old(root) && startExtra != null ==> root.level == old(root.level) + 1
    {
      hide IsHull, Shaped, Distinct, Climbing, Node.Mirrors, MirrorsBut, WellFormed, WellFormedRoot, Node.Children, Contents, Node.Blockless;
      var leaf, newleaf := start, startExtra;
      ghost var c := c0;
      ghost var tight := Tight();
      while leaf != root
        invariant root == old(root) && Climbing(c) && c.root == root && c.cur == leaf && c.extra == newleaf
        invariant fresh(c.nodes - c0.nodes)
        invariant Contents(leaf.view) + ExtraContents(newleaf) == Contents(c.stale) + delta
        invariant before == if leaf == root then c.stale else root.view
        invariant tight ==> Tight()
        invariant root.level == old(root.level)
        invariant start == root ==> leaf == start && newleaf == startExtra && root.view == old(root.view)
        decreases root.level - leaf.level
      {
        leaf, newleaf, c := AdjustOnce(leaf, newleaf, c, delta);
      }
      if newleaf == null {
        nodes := c.nodes;
        Landed(c);
      } else {
        GrowRoot(leaf, newleaf, c);
      }
    }

    /** One round of the loop: the parent takes note of the change and of a new sibling. */
    method AdjustOnce(leaf: Node, newleaf: Node?, ghost c: Climb, ghost delta: multiset<Block>)
      returns (p: Node, pp: Node?, ghost d: Climb)
      requires Climbing(c) && leaf == c.cur && newleaf == c.extra && leaf != c.root
      requires Contents(leaf.view) + ExtraContents(newleaf) == Contents(c.stale) + delta
      modifies c.nodes
      ensures p == old(leaf.parent) && Climbing(d) && d.root == c.root && d.cur == p && d.extra == pp && d.stale == old(leaf.parent.view)
      ensures c.nodes <= d.nodes && fresh(d.nodes - c.nodes)
      ensures Contents(p.view) + ExtraContents(pp) == Contents(d.stale) + delta
      ensures p.level > leaf.level == old(leaf.level) && p.level <= c.root.level == old(c.root.level)
      ensures p.count >= old(leaf.parent.count) || p.count >= MINNODES
      ensures c.root != p ==> c.root.view == old(c.root.view) && c.root.count == old(c.root.count)
    {
      hide IsHull, Shaped, Distinct, Climbing, Node.Mirrors, MirrorsBut, WellFormed, WellFormedRoot, Node.Children, Contents, Node.Blockless;
      ClimbFacts(c);
      ghost var above, stale := leaf.parent.view, Contents(c.stale);
      ghost var below := Contents(leaf.view) + ExtraContents(newleaf);
      ghost var l: Lift;
      if newleaf == null {
        p, l := LiftPlain(leaf, c);
        pp := null;
        assert Contents(p.view) + stale == Contents(above) + below;
      } else if leaf.parent.count < MAXNODES {
        p, l := LiftAdd(leaf, newleaf, c);
        pp := null;
        assert Contents(p.view) + stale == Contents(above) + below;
      } else {
        p, pp, l := LiftSplit(leaf, newleaf, c);
      }
      assert Contents(p.view) + ExtraContents(pp) + stale == Contents(above) + below;
      Cancel(Contents(p.view) + ExtraContents(pp), stale, Contents(above), delta);
      d := l.Next(above);
    }

    /** Stores `b`, and only `b`, and leaves a well-formed tree. */
    method Add(b: Block)
      requires Valid()
      modifies this, nodes
      ensures Valid() && fresh(nodes - old(nodes))
      ensures Blocks() == old(Blocks()) + multiset{b}
      ensures old(Tight()) ==> Tight()
      ensures old(root.level) <= root.level <= old(root.level) + 1
      ensures old(root.level) == 0 ==> (root.level == 1 <==> old(root.count) == 8)
      ensures old(root.level) == 0 && old(root.count) < 8 ==>
        old(root.view.Leaf?) && root.view.Leaf? && BlockInserted(old(root.view.blocks), b, root.view.blocks)
    {
      hide Linked, Shapely, Node.Mirrors, Climbing, Contents, BlockInserted, LeastDescent;
      if root.level == 0 { RootLeaf(nodes, root); }
      var leaf := ChooseLeaf(root, b, nodes, root);
      ghost var before, stale := root.view, leaf.view;
      var newleaf: Node?;
      ghost var c: Climb;
      newleaf, c := ChangeLeaf(leaf, b);
      AdjustTree(leaf, newleaf, c, before, multiset{b});
    }

    /** The part of `add` that touches the leaf. */
    method ChangeLeaf(leaf: Node, b: Block) returns (newleaf: Node?, ghost c: Climb)
      requires Valid() && leaf in nodes && leaf.level == 0
      modifies leaf`branches, leaf`count, leaf`view, leaf`rect
      ensures c.root == root && c.cur == leaf && c.extra == newleaf && c.stale == old(leaf.view)
      ensures Climbing(c) && fresh(c.nodes - nodes)
      ensures Contents(leaf.view) + ExtraContents(newleaf) == Contents(old(leaf.view)) + multiset{b}
      ensures newleaf == null <==> old(leaf.count) < 8
      ensures old(leaf.view.Leaf?) && leaf.view.Leaf?
      ensures newleaf == null ==> BlockInserted(old(leaf.view.blocks), b, leaf.view.blocks)
      ensures newleaf != null ==> newleaf.view.Leaf? && var bs := old(leaf.view.blocks) + [b];
        SplitInto(bs, BlockRects(bs), multiset(leaf.view.blocks), multiset(newleaf.view.blocks))
    {
      hide SplitInto, BlockRects, BlockInserted, IsHull, Shaped, Distinct, Climbing, Node.Mirrors, MirrorsBut, WellFormed, Node.Children, Linked, Contents, Node.Blockless;
      LeafFacts(nodes, root, leaf);
      ghost var s: Start;
      if leaf.count < MAXNODES {
        InsertInLeaf(leaf, b);
        newleaf := null;
      } else {
        newleaf := SplitLeaf(leaf, b);
        WellFormedFacts(leaf.view);
      }
      s := Start(nodes, root, leaf, newleaf);
      Begun(s);
      c := s.Climbed(old(leaf.view));
    }

    /** All stored blocks the request fits in, each as often as it is stored, in the order in
        which they are stored; from a tree that is one leaf, smaller areas first. */
    method Search(startNode: nat, meml: nat, nodel: nat, ghost arena: Rect) returns (ret: seq<Block>)
      requires Valid()
      ensures ret == TreeModel.Search(root.view, startNode, meml, nodel)
      ensures arena.memLen * arena.nodeLen < WORD && (forall x :: x in Blocks() ==> arena.Covers(x.rect)) ==>
        (forall b :: multiset(ret)[b] == if b.rect.Fit(startNode, meml, nodel) then Blocks()[b] else 0)
        && ret == Fitting(Listing(root.view), startNode, meml, nodel)
        && (root.level == 0 ==> SortedByArea(ret))
        && (ret != [] ==> Picked(root.view, startNode, meml, nodel, ret[0]))
    {
      hide Whole, Shaped, Contents, TreeModel.Search, Rect.Fit, Fitting, Listing, SortedByArea, Picked;
      RootIn(nodes, root);
      ret := SearchRecursive(root, startNode, meml, nodel, [], nodes, root);
      RootShaped(nodes, root);
      LeafOrInner(nodes, root, root);
      SearchAll(root.view, startNode, meml, nodel, arena);
    }

    /** The upward pass of `remove`: underfull nodes leave the tree, each with its subtree.
        That happens to an inner node exactly when both `start` and its parent, which is
        not the root, are at the minimum. */
    method CondenseTree(start: Node, ghost c0: Climb, ghost gone0: multiset<Block>, ghost starved: bool)
      returns (removedNodes: seq<Node>, ghost c: Climb, ghost gone: multiset<Block>)
      requires Sinking(c0) && c0.root == root && start == c0.cur && start.level == 0
      requires start != root ==> start.count >= 1 && Tight() && root.level > 0 && start.parent != null
      requires starved <==>
        start != root && start.count < MINNODES && start.parent != root && start.parent.count == MINNODES
      requires Contents(start.view) + gone0 == Contents(c0.stale)
      modifies c0.nodes
      ensures Sinking(c) && c.cur == c.root == root && c.nodes <= c0.nodes
      ensures root.level > 0 ==> root.count >= 1
      ensures Contents(root.view) + gone == Contents(if start == root then c0.stale else old(root.view))
      ensures Detached(removedNodes, c.nodes, c0.nodes, gone0, gone) && |removedNodes| <= root.level
      ensures if starved then |removedNodes| >= 2 else |removedNodes| <= 1
    {
      hide IsHull, Distinct, Shaped, WellFormed, WellFormedRoot, Sinking, Node.Mirrors, Node.Typed, MirrorsBut, Node.Children, Contents, Detached, Tally;
      removedNodes := [];
      c, gone := c0, gone0;
      var leaf := start;
      ghost var before := if start == root then c0.stale else root.view;
      NothingDetached(c0.nodes, gone0);
      ghost var tight := TallyBegins(start, root, starved);
      while leaf != root
        invariant Sinking(c) && c.root == root && c.cur == leaf && c.nodes <= c0.nodes
        invariant leaf != root ==> root.view == before && Tight() && root.level > 0
        invariant leaf == root ==> c.stale == before
        invariant Contents(leaf.view) + gone == Contents(c.stale)
        invariant Detached(removedNodes, c.nodes, c0.nodes, gone0, gone)
        invariant Tally(leaf.level, leaf == root, leaf.count, tight, |removedNodes|, starved)
        invariant leaf.level == 0 && leaf != root ==>
          leaf.parent != null && (tight <==> leaf.parent != root && leaf.parent.count == MINNODES)
        decreases root.level - leaf.level
      {
        SinkFacts(c);
        ghost var count, above, removed := leaf.count, leaf.parent.count, |removedNodes|;
        TallyFacts(leaf.level, count, tight, removed, starved);
        var p: Node;
        p, removedNodes, c, gone := CondenseOnce(leaf, removedNodes, c, c0.nodes, gone0, gone);
        TallyStep(leaf.level, count, p == root, above, tight, removed, starved);
        leaf, tight := p, false;
      }
      TallyEnds(leaf.level, leaf.count, tight, |removedNodes|, starved);
    }

    /** One round of the pass: an underfull node leaves the tree, another gets its box. */
    method CondenseOnce(leaf: Node, removed: seq<Node>, ghost c: Climb, ghost S: set<Node>, ghost gone0: multiset<Block>, ghost gone: multiset<Block>)
      returns (p: Node, removedNodes: seq<Node>, ghost d: Climb, ghost went: multiset<Block>)
      requires Sinking(c) && leaf == c.cur && leaf != c.root && leaf.parent != null && c.nodes <= S
      requires leaf.count < MINNODES ==> leaf.count >= 1 && |removed| == leaf.level
      requires Contents(leaf.view) + gone == Contents(c.stale) && Detached(removed, c.nodes, S, gone0, gone)
      modifies c.nodes
      ensures p == old(leaf.parent) && Sinking(d) && d.root == c.root && d.cur == p && d.nodes <= c.nodes && d.stale == old(leaf.parent.view)
      ensures p.level == leaf.level + 1 && leaf.level == old(leaf.level)
      ensures Contents(p.view) + went == Contents(d.stale) && Detached(removedNodes, d.nodes, S, gone0, went)
      ensures old(leaf.count) < MINNODES ==> |removedNodes| == |removed| + 1 && p.count == old(leaf.parent.count) - 1
      ensures old(leaf.count) >= MINNODES ==> |removedNodes| == |removed| && p.count == old(leaf.parent.count)
      ensures forall n :: n in c.nodes ==> n.level == old(n.level)
      ensures forall n :: n in c.nodes && n != p && n != leaf ==> n.view == old(n.view) && n.count == old(n.count)
    {
      hide IsHull, Distinct, Shaped, WellFormed, WellFormedRoot, Sinking, Node.Mirrors, Node.Typed, MirrorsBut, Node.Children, Contents, Detached;
      SinkFacts(c);
      ghost var above, stale, below := leaf.parent.view, Contents(c.stale), Contents(leaf.view);
      DetachedApart(removed, c.nodes, S, gone0, gone);
      ghost var k: Sink;
      if leaf.count < MINNODES {
        removedNodes := removed + [leaf];
        p, k := DropStep(leaf, c);
        went := gone + below;
        DetachedMore(removed, leaf, c.nodes, k.Nodes(), S, gone0, gone);
      } else {
        removedNodes, went := removed, gone;
        p, k := KeepStep(leaf, c);
        KeepContents(Contents(p.view), stale, Contents(above), below, gone);
        DetachedWithin(removed, c.nodes, k.Nodes(), S, gone0, gone);
      }
      d := k.Next(above);
    }

    /** Stores the blocks of a leaf that left the tree again. */
    method ReAdd(n: Node)
      requires Valid() && n !in nodes && n.level == 0 && n.Mirrors()
      modifies this, nodes
      ensures Valid() && fresh(nodes - old(nodes))
      ensures Blocks() == old(Blocks()) + Contents(old(n.view))
      ensures root.level >= old(root.level)
    {
      hide Linked, Shapely, Climbing, Whole, Node.Mirrors, Contents, Node.Children, Tight, Node.Blockless;
      LeafMirrorsIff(n);
      LeafContents(n.view);
      ghost var bs := n.view.blocks;
      var j := 0;
      while j < n.count
        invariant 0 <= j <= n.count == old(n.count) && n.branches == old(n.branches)
        invariant Valid() && n !in nodes && fresh(nodes - old(nodes))
        invariant Blocks() == old(Blocks()) + multiset(bs[..j])
        invariant root.level >= old(root.level)
      {
        assert bs[..j + 1] == bs[..j] + [bs[j]];
        Add(n.branches[j].block);
        j := j + 1;
      }
      assert bs[..j] == bs;
    }

    /** `r` becomes a root with the given box. */
    static method TakeOver(r: Node, box: Rect)
      modifies r`rect, r`parent, r`view
      ensures r.rect == box && r.parent == null && r.view == old(r.view).WithRect(box)
    {
      r.rect := box;
      r.parent := null;
      r.view := r.view.WithRect(box);
    }

    /** The only child of the root takes its place. */
    method Shorten(ghost f: int)
      requires Upper(nodes, root, f) && f <= root.level && root.level > 0 && root.count == 1
      modifies this, nodes
      ensures Upper(nodes, root, f) && nodes < old(nodes)
      ensures old(Valid()) ==> Valid() && Tight() && Blocks() == old(Blocks())
      ensures forall m :: m in nodes ==> m.level == old(m.level) && m.count == old(m.count) && m.branches == old(m.branches)
      ensures forall m :: m in old(nodes) && old(m.level) == 0 ==> m in nodes
    {
      hide Linked, Climbing, IsHull, Distinct, WellFormed, WellFormedRoot, Shaped, Contents, Node.Mirrors, Node.Children, Upper, Whole, Node.Blockless;
      UpperRoot(nodes, root, f);
      UpperFacts(nodes, root, f, root);
      var oldr := root;
      root := oldr.branches[0].child;
      assert oldr.Children() == [root];
      ghost var valid := Whole(nodes, oldr);
      if valid { SoleChild(nodes, oldr, root); }
      if WellFormedRoot(root.view) { WithRectRoot(root.view, oldr.rect); }
      TakeOver(root, oldr.rect);
      ReplacedUpper(Replacement(nodes, oldr, root, f));
      if valid {
        Reboxed(root);
        Shortened(Promotion(nodes, oldr, root));
      }
      nodes := nodes - {oldr};
    }

    /** The part of `remove` that touches the leaf; `x` is the block taken out. */
    method TakeFromLeaf(leaf: Node, b: Block) returns (ghost x: Block, ghost c: Climb)
      requires Valid() && leaf in nodes && leaf.level == 0 && Finds(leaf.view, b.rect)
      modifies leaf`branches, leaf`count, leaf`view
      ensures c == Climb(nodes, root, leaf, null, old(leaf.view), 0) && Sinking(c)
      ensures x.rect == b.rect
      ensures Contents(leaf.view) + multiset{x} == Contents(old(leaf.view))
      ensures leaf.count == old(leaf.count) - 1
    {
      hide Linked, Sinking, Distinct, Node.Mirrors, Node.Children, WellFormedRoot, Whole, Shaped, Contents, Node.Blockless;
      LeafFacts(nodes, root, leaf);
      x := TakeBlock(leaf, b);
      ghost var s := Start(nodes, root, leaf, null);
      Removed(s);
      c := s.Climbed(old(leaf.view));
    }

    /** Attaches the detached inner node `n` again - below a node of its own level. */
    method Reinsert(n: Node)
      requires Upper(nodes, root, n.level) && n !in nodes && 1 <= n.level < root.level && n.view.rect == n.rect
      modifies this, nodes, n
      ensures Upper(nodes, root, old(n.level)) && old(nodes) + {n} <= nodes && fresh(nodes - old(nodes) - {n})
      ensures n.level == old(n.level) - 1 && n.count == old(n.count) && n.branches == old(n.branches)
      ensures root.level >= old(root.level)
      ensures forall m :: m in old(nodes) ==> m.level == old(m.level)
      ensures forall m :: m in old(nodes) && m.level < old(n.level) ==> m.count == old(m.count) && m.branches == old(m.branches)
    {
      hide Upper, Hoisting, Node.Children, Node.Typed;
      UpperRoot(nodes, root, n.level);
      var node := ChooseNode(root, n, nodes, root);
      var newnode: Node?;
      ghost var c: Climb;
      newnode, c := TakeIn(node, n, nodes, root);
      while node != root
        invariant root == old(root) && nodes == old(nodes) && Hoisting(c) && c.root == root && c.cur == node && c.extra == newnode
        invariant c.floor == old(n.level) && nodes + {n} <= c.nodes && fresh(c.nodes - nodes - {n})
        invariant n.level == old(n.level) - 1 && n.count == old(n.count) && n.branches == old(n.branches)
        invariant forall m :: m in nodes ==> m.level == old(m.level)
        invariant forall m :: m in nodes && m.level < c.floor ==> m.count == old(m.count) && m.branches == old(m.branches)
        invariant c.floor <= node.level <= root.level
        decreases root.level - node.level
      {
        node, newnode, c := HoistOnce(node, newnode, c);
      }
      if newnode == null {
        HoistLanded(c);
        nodes := c.nodes;
      } else {
        HoistTop(c);
        HoistRoot(node, newnode, c);
      }
    }

    /** One round of the loop that follows a re-attachment. */
    static method HoistOnce(node: Node, newnode: Node?, ghost c: Climb) returns (p: Node, pp: Node?, ghost d: Climb)
      requires Hoisting(c) && node == c.cur && newnode == c.extra && node != c.root
      modifies c.nodes
      ensures p == old(node.parent) && Hoisting(d) && d.root == c.root && d.cur == p && d.extra == pp && d.floor == c.floor
      ensures c.nodes <= d.nodes && fresh(d.nodes - c.nodes)
      ensures p.level > node.level == old(node.level) && p.level <= c.root.level == old(c.root.level) && p.level > c.floor
      ensures forall n :: n in c.nodes ==> n.level == old(n.level)
      ensures forall n :: n in c.nodes && n.level < c.floor ==> n.count == old(n.count) && n.branches == old(n.branches)
    {
      hide Hoisting, Node.Children, Node.Typed;
      HoistFacts(c);
      HoistFloor(c);
      ghost var l: Lift;
      if newnode == null {
        p, l := HoistPlain(node, c);
        pp := null;
      } else if node.parent.count < MAXNODES {
        p, l := HoistAdd(node, newnode, c);
        pp := null;
      } else {
        p, pp, l := HoistSplit(node, newnode, c);
      }
      d := l.Next(c.stale);
    }

    /** A new root above the two halves of the old one. */
    method HoistRoot(leaf: Node, newleaf: Node, ghost c: Climb)
      requires Hoisting(c) && c.cur == c.root == leaf == root && c.extra == newleaf
      modifies this, leaf`parent, leaf`level, newleaf`parent, newleaf`level
      ensures Upper(nodes, root, c.floor) && c.nodes <= nodes && fresh(nodes - c.nodes)
      ensures root.level > leaf.level && leaf.level == old(leaf.level) && newleaf.level == old(newleaf.level)
    {
      hide Distinct, Hoisting, Upper, Node.Children, Node.Mirrors, Node.Blockless;
      HoistTop(c);
      var newr := JoinUnder(leaf, newleaf);
      root := newr;
      nodes := c.nodes + {newr};
      HoistGrown(Top(c, newr));
    }

    /** Takes block `x` out of `leaf` and condenses the tree above it. */
    method TakeOutAndCondense(leaf: Node, b: Block, ghost starved: bool) returns (removedNodes: seq<Node>, ghost x: Block)
      requires Valid() && Tight() && leaf in nodes && leaf.level == 0 && Finds(leaf.view, b.rect)
      requires leaf != root ==> leaf.parent != null && leaf.parent != leaf && leaf.count >= MINNODES && root.level > 0
      requires starved <==>
        leaf != root && leaf.count == MINNODES && leaf.parent != root && leaf.parent.count == MINNODES
      modifies this`nodes, nodes
      ensures Valid() && nodes <= old(nodes) && |removedNodes| <= root.level
      ensures forall i :: 0 <= i < |removedNodes| ==> CutOut(removedNodes[i], i, nodes, old(nodes))
      ensures removedNodes != [] ==> removedNodes[0].Mirrors()
      ensures if starved then |removedNodes| >= 2 else |removedNodes| <= 1
      ensures x in old(Blocks()) && x.rect == b.rect
      ensures !starved ==>
        Blocks() + (if removedNodes == [] then multiset{} else Contents(removedNodes[0].view)) == old(Blocks()) - multiset{x}
    {
      hide Linked, Shapely, Sinking, IsHull, Distinct, Finds, Node.Mirrors, Node.Typed, Contents, Node.Children, Whole, Detached, CutOut;
      ghost var total := Blocks();
      ghost var c: Climb;
      x, c := TakeFromLeaf(leaf, b);
      ghost var d: Climb, gone: multiset<Block>;
      removedNodes, d, gone := CondenseTree(leaf, c, multiset{x}, starved);
      Settled(d);
      nodes := d.nodes;
      DetachedFacts(removedNodes, nodes, c.nodes, multiset{x}, gone);
      assert x in multiset{x} && x in gone && x in Blocks() + gone;
      if !starved {
        TakeOut(Blocks(), gone, total, x, if removedNodes == [] then multiset{} else Contents(removedNodes[0].view));
      }
    }

    /** Every node hangs below the root, and one of them is stray. */
    ghost predicate Broken()
      reads this, nodes
    {
      && root in nodes && (forall m: Node :: m in nodes ==> ParentLinked(m, nodes, root, null))
      && exists n :: n in nodes && Stray(n)
    }

    /** Stores what left the tree again, and shortens the tree. */
    method Restore(removedNodes: seq<Node>, ghost target: multiset<Block>)
      requires Valid() && |removedNodes| <= root.level
      requires forall i :: 0 <= i < |removedNodes| ==> CutOut(removedNodes[i], i, nodes, {removedNodes[i]})
      requires removedNodes != [] ==> removedNodes[0].Mirrors()
      requires |removedNodes| <= 1 ==>
        target == Blocks() + if removedNodes == [] then multiset{} else Contents(removedNodes[0].view)
      modifies this, nodes, removedNodes
      ensures |removedNodes| <= 1 ==> Valid() && Tight() && Blocks() == target
      ensures |removedNodes| > 1 ==> Broken()
      ensures fresh(nodes - old(nodes) - (set n | n in removedNodes))
    {
      hide Linked, Shapely, Climbing, IsHull, Distinct, Node.Mirrors, Contents, Node.Children, Whole, Upper, ParentLinked, Node.Blockless, Stray;
      var i := 0;
      while i < |removedNodes|
        invariant 0 <= i <= |removedNodes| <= root.level
        invariant i == 0 && removedNodes != [] ==> removedNodes[0].Mirrors()
        invariant i == 0 ==> target == Blocks() + (if removedNodes == [] then multiset{} else Contents(removedNodes[0].view)) || |removedNodes| > 1
        invariant i <= 1 ==> Valid()
        invariant i == 1 && |removedNodes| == 1 ==> Blocks() == target
        invariant i > 1 ==> Upper(nodes, root, i - 1) && removedNodes[1] in nodes && removedNodes[1].level == 0 && Stray(removedNodes[1])
        invariant forall j :: i <= j < |removedNodes| ==> CutOut(removedNodes[j], j, nodes, {removedNodes[j]})
        invariant fresh(nodes - old(nodes) - (set n | n in removedNodes))
      {
        var n := removedNodes[i];
        assert CutOut(n, i, nodes, {n});
        if n.level == 0 {
          ReAdd(n);
        } else {
          if i == 1 { WholeIsUpper(nodes, root); } else { UpperHigher(nodes, root, i - 1); }
          label Attaching:
          Reinsert(n);
          BecomesStray@Attaching(removedNodes[1]);
        }
        i := i + 1;
      }
      if |removedNodes| <= 1 {
        RootFacts(nodes, root);
        WholeIsUpper(nodes, root);
      } else {
        UpperRoot(nodes, root, i - 1);
        UpperFacts(nodes, root, i - 1, root);
      }
      ghost var f := if |removedNodes| <= 1 then 1 else i - 1;
      label Attached:
      if root.count == 1 && root.branches[0].child != null {
        Shorten(f);
      }
      if |removedNodes| > 1 {
        UpperHangs(nodes, root, f);
        BecomesStray@Attached(removedNodes[1]);
      }
    }

    /** Takes out one block with the rectangle of `b`, when the descent finds one, and
        keeps every other block - unless that starves an inner node, and then the tree is
        broken for good. */
    method Remove(b: Block)
      requires Valid() && Tight()
      modifies this, nodes
      ensures fresh(nodes - old(nodes))
      ensures Valid() <==> !old(InnerUnderflow(root.view, b.rect))
      ensures Valid() ==> Tight()
      ensures Valid() && !Finds(old(root.view), b.rect) ==> Blocks() == old(Blocks())
      ensures Valid() && Finds(old(root.view), b.rect) ==>
        exists x :: x in old(Blocks()) && x.rect == b.rect && Blocks() == old(Blocks()) - multiset{x}
      ensures !Valid() ==> Broken()
    {
      hide Finds, InnerUnderflow, Starves, Contents, Whole, Broken;
      RootIn(nodes, root);
      var leaf := FindLeaf(root, b, nodes, root);
      if leaf == null {
        NotFound(nodes, root, b.rect);
        return;
      }
      BeforeRemove(nodes, root, leaf, b.rect);
      ghost var x: Block;
      var removedNodes: seq<Node>;
      ghost var total := Blocks();
      removedNodes, x := TakeOutAndCondense(leaf, b, InnerUnderflow(root.view, b.rect));
      Restore(removedNodes, total - multiset{x});
      if Broken() { BrokenNotValid(); }
    }

    lemma BrokenNotValid()
      requires Broken()
      ensures !Valid()
    {
      hide IsHull, Distinct, ParentLinked, Shapely, Node.Mirrors;
      var n :| n in nodes && Stray(n);
      assert n.branches[0].child != null;
    }

    /** A new root above the two halves of the old one. */
    method GrowRoot(leaf: Node, newleaf: Node, ghost c: Climb)
      requires Climbing(c) && c.cur == c.root == leaf == root && c.extra == newleaf
      modifies this, c.nodes
      ensures Valid() && fresh(nodes - c.nodes) && Tight() && root.level == old(root.level) + 1
      ensures Blocks() == old(Contents(leaf.view)) + old(Contents(newleaf.view))
    {
      hide IsHull, Shaped, Distinct, Climbing, Node.Mirrors, MirrorsBut, WellFormed, WellFormedRoot, Node.Children, Linked, Whole, Contents, Node.Blockless;
      TopFacts(c);
      var newr := JoinUnder(leaf, newleaf);
      TopShape(newr.view, leaf.view, newleaf.view);
      root := newr;
      nodes := c.nodes + {newr};
      Grown(Top(c, newr));
    }
  }

  lemma Cancel<T>(x: multiset<T>, y: multiset<T>, a: multiset<T>, d: multiset<T>)
    requires x + y == a + (y + d)
    ensures x == a + d
  {
    forall t: T ensures x[t] == (a + d)[t] {
      assert (x + y)[t] == (a + (y + d))[t];
    }
  }

  lemma KeepContents<T>(p: multiset<T>, stale: multiset<T>, above: multiset<T>, below: multiset<T>, gone: multiset<T>)
    requires p + stale == above + below && below + gone == stale
    ensures p + gone == above
  {
    forall t: T ensures (p + gone)[t] == above[t] {
      assert (p + stale)[t] == (above + below)[t] && (below + gone)[t] == stale[t];
    }
  }

  lemma RootLeaf(S: set<Node>, root: Node)
    requires Whole(S, root) && root.level == 0
    ensures root in S && root.view.Leaf? && root.count == |root.view.blocks| <= 8
  {
    LeafFacts(S, root, root);
  }

  lemma RootIn(S: set<Node>, root: Node)
    requires Whole(S, root)
    ensures root in S
  {
  }

  lemma UpperHangs(S: set<Node>, root: Node, f: int)
    requires Upper(S, root, f)
    ensures root in S && forall m: Node :: m in S ==> ParentLinked(m, S, root, null)
  {
  }

  lemma UpperRoot(S: set<Node>, root: Node, f: int)
    requires Upper(S, root, f)
    ensures root in S
  {
  }

  lemma RootFacts(S: set<Node>, root: Node)
    requires Whole(S, root)
    ensures root.Bounded() && (root.level > 0 ==> root.count >= 1)
    ensures root.count > 0 ==> (root.branches[0].child == null <==> root.level == 0)
  {
    hide IsHull, Distinct;
    assert Linked(root, S, root, null) && Shapely(root, root) && root.Mirrors();
  }

  lemma TakeOut<T>(left: multiset<T>, gone: multiset<T>, total: multiset<T>, x: T, rest: multiset<T>)
    requires left + gone == total && gone == multiset{x} + rest
    ensures left + rest == total - multiset{x} && x in total
  {
    forall t: T ensures (left + rest)[t] == (total - multiset{x})[t] {
      assert (left + gone)[t] == total[t] && gone[t] == (multiset{x} + rest)[t];
    }
    assert x in gone;
  }

  lemma LeafLoses(t: Tree, u: Tree, k: nat)
    requires t.Leaf? && u.Leaf? && Shaped(t) && k < |t.blocks| && u.blocks == Without(t.blocks, k)
    ensures Shaped(u)
  {
  }

  /** Inner underflow shows in the counts of the leaf found and of its parent. */
  lemma BeforeRemove(S: set<Node>, root: Node, leaf: Node, r: Rect)
    requires Whole(S, root) && leaf in S && leaf.level == 0
    requires root.level > 0 ==>
      leaf != root && leaf.parent != null && (Starves(root.view, r) <==> leaf.count == MINNODES && leaf.parent.count == MINNODES)
    requires root.level == 1 ==> leaf.parent == root
    requires root.level == 0 ==> leaf == root
    ensures leaf != root ==> leaf.parent != null && leaf.parent != leaf && leaf.count >= MINNODES && root.level > 0
    ensures InnerUnderflow(root.view, r) <==>
      leaf != root && leaf.count == MINNODES && leaf.parent != root && leaf.parent.count == MINNODES
  {
    hide IsHull, Distinct, Starves, InnerUnderflow;
    LeafFacts(S, root, leaf);
    assert Linked(leaf, S, root, null) && Linked(root, S, root, null) && Shapely(root, root) && root.Mirrors();
    if root.level <= 1 {
      LowTreesDoNotUnderflow(root.view, r);
    } else {
      UnderflowIsStarving(root.view, r);
    }
  }

  lemma NotFound(S: set<Node>, root: Node, r: Rect)
    requires Whole(S, root) && !Finds(root.view, r)
    ensures !InnerUnderflow(root.view, r)
  {
    hide IsHull, Starves;
  }

  lemma SoleChild(S: set<Node>, oldr: Node, r: Node)
    requires Whole(S, oldr) && oldr.level > 0 && oldr.count == 1 && oldr.Bounded() && oldr.branches[0].child == r
    ensures r in S && r != oldr && r.Typed() && r !in r.Children() && oldr !in r.Children()
    ensures r.Mirrors() && WellFormedRoot(r.view) && (r.level > 0 ==> r.count >= MINNODES)
    ensures Contents(oldr.view) == Contents(r.view)
  {
    hide IsHull, Distinct;
    InnerFacts(S, oldr, oldr);
    assert Linked(r, S, oldr, null) && Shapely(r, oldr);
    assert oldr.view.kids == [r.view];
    assert Sum([r.view]) == Contents(r.view);
  }

  /** A node that only gets another box still mirrors its children. */
  twostate lemma Reboxed(r: Node)
    requires old(r.Mirrors()) && r !in old(r.Children())
    requires r.level == old(r.level) && r.count == old(r.count) && r.branches == old(r.branches)
    requires r.view == old(r.view).WithRect(r.rect)
    requires forall m: Node :: m in old(r.Children()) ==> m.view == old(m.view) && m.rect == old(m.rect)
    ensures r.Mirrors()
  {
    assert r.Children() == old(r.Children());
    if r.level > 0 {
      forall i | 0 <= i < r.count ensures Node.MirrorsChild(r.branches[i].child, r.view.kids[i]) {
        assert old(Node.MirrorsChild(r.branches[i].child, r.view.kids[i]));
        assert r.Children()[i] == r.branches[i].child;
      }
    }
  }

  lemma TopFacts(c: Climb)
    requires Climbing(c) && c.cur == c.root && c.extra != null
    ensures c.root in c.nodes && c.extra in c.nodes && c.root != c.extra
    ensures c.root.view.rect == c.root.rect && c.extra.view.rect == c.extra.rect
    ensures c.root.level == c.extra.level >= 0
    ensures WellFormed(c.root.view) && WellFormed(c.extra.view)
    ensures c.root.view.Level() == c.extra.view.Level() == c.root.level
  {
    hide IsHull, Distinct, Node.Children, Node.Blockless;
    assert Linked(c.root, c.nodes, c.root, c.extra) && Linked(c.extra, c.nodes, c.root, c.extra);
    assert c.root.Mirrors() && c.extra.Mirrors() && Shapely(c.extra, c.root);
  }

}
