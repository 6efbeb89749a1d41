/** The R-tree of free blocks as a heap structure: nodes with parent links and an inline
    array of branches, split, adjusted and condensed in place
    (updown/libraries/dramalloc/rtree.h, rtree.cpp). */
module Nodes {
  import opened Rects
  import opened TreeModel
  import opened Seqs
  import opened Split

  /** An entry of a node: `child` in inner nodes, `block` in leaves. */
  datatype Branch = Branch(child: Node?, block: Block)
  {
    function Area(): nat
      reads child
    {
      if child != null then child.rect.Area() else block.rect.Area()
    }
  }

  class Node {
    var level: int
    var count: int
    var parent: Node?
    var rect: Rect
    var branches: seq<Branch>
    /** The value this node stands for. */
    ghost var view: Tree

    constructor (level: nat)
      ensures this.level == level && count == 0 && parent == null
      ensures |branches| == MAXNODES
      ensures view == if level == 0 then Leaf(rect, []) else Inner(rect, level, [])
    {
      this.level, count, parent := level, 0, null;
      rect := Rect(0, 0, 0, 0);
      branches := seq(MAXNODES, _ => Branch(null, ZERO_BLOCK));
      view := if level == 0 then Leaf(Rect(0, 0, 0, 0), []) else Inner(Rect(0, 0, 0, 0), level, []);
    }

    /** The live part of `branches` is within bounds. */
    ghost predicate Bounded()
      reads this
    {
      |branches| == MAXNODES && 0 <= count <= MAXNODES && level >= 0
    }

    /** The entries carry no blocks. */
    ghost predicate Blockless()
      requires Bounded()
      reads this
    {
      forall i :: 0 <= i < count ==> branches[i].block == ZERO_BLOCK
    }

    /** A leaf's entries are blocks, an inner node's are distinct nodes with an empty block. */
    ghost predicate Typed()
      reads this
    {
      && Bounded()
      && (forall i :: 0 <= i < count ==> (branches[i].child == null <==> level == 0))
      && (level > 0 ==> Blockless())
      && (level > 0 ==> Distinct(Children()))
    }

    /** The children of an inner node in branch order. */
    ghost function Children(): (r: seq<Node?>)
      requires Bounded()
      reads this
      ensures |r| == count && forall i :: 0 <= i < count ==> r[i] == branches[i].child
    {
      seq(count, i requires 0 <= i < count && Bounded() reads this => branches[i].child)
    }

    /** `view` agrees with the fields of this node and the views of its children. */
    ghost predicate Mirrors()
      reads this, if Bounded() then Children() else []
    {
      && Typed()
      && view.rect == rect
      && view.Size() == count
      && if level == 0
         then view.Leaf? && forall i :: 0 <= i < count ==> view.blocks[i] == branches[i].block
         else view.Inner? && view.height == level &&
              forall i :: 0 <= i < count ==> MirrorsChild(branches[i].child, view.kids[i])
    }

    /** A node that keeps level and entries stays well typed. */
    twostate lemma TypedFrame()
      requires old(Typed()) && level == old(level) && count == old(count) && branches == old(branches)
      ensures Typed() && Children() == old(Children())
    {
    }

    /** `Mirrors` survives changes to parent links, levels of children and other nodes. */
    twostate lemma MirrorsFrame()
      requires old(Mirrors())
      requires level == old(level) && count == old(count) && rect == old(rect)
      requires branches == old(branches) && view == old(view)
      requires level > 0 ==> forall c: Node :: c in old(Children()) ==> c.view == old(c.view) && c.rect == old(c.rect)
      ensures Mirrors()
    {
      assert Children() == old(Children());
      if level > 0 {
        forall i | 0 <= i < count ensures MirrorsChild(branches[i].child, view.kids[i]) {
          assert old(MirrorsChild(branches[i].child, view.kids[i]));
          assert Children()[i] == branches[i].child;
        }
      }
    }

    static ghost predicate MirrorsChild(c: Node?, t: Tree)
      reads c
    {
      c != null && c.view == t && c.rect == t.rect
    }
  }

  ghost predicate InOrder(rs: seq<Rect>) {
    forall i, j :: 0 <= i < j < |rs| ==> rs[i].Area() <= rs[j].Area()
  }

  /** The last of the first `j` entries that is not smaller than the new one; the new one
      itself, which stands behind all others, when there is none. */
  function Before(rs: seq<Rect>, r: Rect, j: nat): (p: nat)
    requires j <= |rs|
    ensures p <= |rs|
  {
    if j == 0 then |rs| else if rs[j - 1].Area() < r.Area() then Before(rs, r, j - 1) else j - 1
  }

  /** Which entry stands where once the first `i` have been compared with the new one:
      smaller ones stay, each of the others has moved to the place of the next of them. */
  function Sifted(rs: seq<Rect>, r: Rect, i: nat): (p: seq<nat>)
    requires i <= |rs|
    ensures |p| == |rs| + 1 && forall j :: 0 <= j < |p| ==> p[j] <= |rs|
  {
    seq(|rs| + 1, j requires 0 <= j <= |rs| => Stands(rs, r, i, j))
  }

  function Stands(rs: seq<Rect>, r: Rect, i: nat, j: nat): (p: nat)
    requires i <= |rs| && j <= |rs|
    ensures p <= |rs|
  {
    if j < |rs| && (i <= j || rs[j].Area() < r.Area()) then j else Before(rs, r, if j < i then j else i)
  }

  /** The entries `s`, the new one last, in that order. */
  function Arranged<T>(s: seq<T>, rs: seq<Rect>, r: Rect, i: nat): (t: seq<T>)
    requires i <= |rs| == |s| - 1
    ensures |t| == |s|
  {
    Pick(s, Sifted(rs, r, i))
  }

  lemma SiftBegins<T>(rs: seq<Rect>, r: Rect, s: seq<T>)
    requires |s| == |rs| + 1
    ensures Arranged(s, rs, r, 0) == s
  {
  }

  lemma SiftStep<T>(rs: seq<Rect>, r: Rect, i: nat, s: seq<T>)
    requires i < |rs| == |s| - 1
    ensures |Arranged(s, rs, r, i)| == |s| && Arranged(s, rs, r, i)[i] == s[i]
    ensures Arranged(s, rs, r, i + 1)
         == if rs[i].Area() < r.Area() then Arranged(s, rs, r, i) else Swapped(Arranged(s, rs, r, i), i, |rs|)
  {
    hide Rect.Area, Before, Pick, Sifted, Swapped;
    PickAt(s, Sifted(rs, r, i));
    SiftedStep(rs, r, i);
    if rs[i].Area() < r.Area() {
    } else {
      PickSwapped(s, Sifted(rs, r, i), i, |rs|);
    }
  }

  lemma SiftedStep(rs: seq<Rect>, r: Rect, i: nat)
    requires i < |rs|
    ensures |Sifted(rs, r, i)| == |rs| + 1 && Sifted(rs, r, i)[i] == i
    ensures forall j :: 0 <= j <= |rs| ==> Sifted(rs, r, i)[j] <= |rs|
    ensures Sifted(rs, r, i + 1) == if rs[i].Area() < r.Area() then Sifted(rs, r, i) else Swapped(Sifted(rs, r, i), i, |rs|)
  {
    hide Rect.Area;
    var p, q := Sifted(rs, r, i), Sifted(rs, r, i + 1);
    forall j | 0 <= j <= |rs|
      ensures q[j] == (if rs[i].Area() < r.Area() then p else Swapped(p, i, |rs|))[j]
    {
      if j == |rs| { assert q[j] == Before(rs, r, i + 1) && p[j] == Before(rs, r, i); }
    }
  }

  /** The new entry belongs at place `k` of a list in area order, before its equals. */
  ghost predicate Place(rs: seq<Rect>, r: Rect, k: int) {
    && 0 <= k <= |rs|
    && (forall j :: 0 <= j < k ==> rs[j].Area() < r.Area())
    && forall j :: k <= j < |rs| ==> r.Area() <= rs[j].Area()
  }

  /** In a list in area order the new entry ends in its place and the rest stays as it is. */
  lemma SiftEnds<T>(rs: seq<Rect>, r: Rect, s: seq<T>, x: T) returns (k: nat)
    requires InOrder(rs) && |s| == |rs|
    ensures Place(rs, r, k) && Arranged(s + [x], rs, r, |rs|) == s[..k] + [x] + s[k..]
  {
    hide Rect.Area, Sifted, Pick;
    k := 0;
    while k < |rs| && rs[k].Area() < r.Area()
      invariant k <= |rs| && Before(rs, r, k) == |rs|
      invariant forall j :: 0 <= j < k ==> rs[j].Area() < r.Area()
    {
      k := k + 1;
    }
    SiftedAt(rs, r, k);
    PickAt(s + [x], Sifted(rs, r, |rs|));
  }

  lemma SiftedAt(rs: seq<Rect>, r: Rect, k: nat)
    requires Place(rs, r, k) && Before(rs, r, k) == |rs|
    ensures |Sifted(rs, r, |rs|)| == |rs| + 1
    ensures forall j :: 0 <= j <= |rs| ==> Sifted(rs, r, |rs|)[j] == if j < k then j else if j == k then |rs| else j - 1
  {
    hide Rect.Area;
  }

  lemma PlaceKeepsOrder(rs: seq<Rect>, r: Rect, k: nat)
    requires InOrder(rs) && Place(rs, r, k)
    ensures InOrder(rs[..k] + [r] + rs[k..])
  {
    hide Rect.Area;
  }

  /** The rectangles of blocks, and of trees. */
  function BlockRects(bs: seq<Block>): (r: seq<Rect>)
    ensures |r| == |bs| && forall i :: 0 <= i < |bs| ==> r[i] == bs[i].rect
  {
    Leaf(Rect(0, 0, 0, 0), bs).Entries()
  }

  function KidRects(ks: seq<Tree>): (r: seq<Rect>)
    ensures |r| == |ks| && forall i :: 0 <= i < |ks| ==> r[i] == ks[i].rect
  {
    Inner(Rect(0, 0, 0, 0), 0, ks).Entries()
  }

  lemma BlocksInOrder(bs: seq<Block>)
    ensures InOrder(BlockRects(bs)) <==> SortedByArea(bs)
  {
    hide Rect.Area, BlockRects;
    var rs := BlockRects(bs);
    assert |rs| == |bs| && forall i :: 0 <= i < |bs| ==> rs[i] == bs[i].rect by { BlockRectsAre(bs); }
    if InOrder(rs) {
      forall i, j | 0 <= i < j < |bs| ensures bs[i].rect.Area() <= bs[j].rect.Area() {
        assert rs[i].Area() <= rs[j].Area();
      }
    }
  }

  lemma BlockRectsAre(bs: seq<Block>)
    ensures |BlockRects(bs)| == |bs| && forall i :: 0 <= i < |bs| ==> BlockRects(bs)[i] == bs[i].rect
  {
  }

  method AddBlock(node: Node, b: Block)
    requires node.level == 0 && node.Mirrors() && node.count < MAXNODES
    modifies node`branches, node`count, node`view
    ensures node.Mirrors() && node.view.Leaf? && node.count == old(node.count) + 1
    ensures multiset(node.view.blocks) == multiset(old(node.view.blocks)) + multiset{b}
    ensures BlockInserted(old(node.view.blocks), b, node.view.blocks)
  {
    hide Arranged, Rect.Area, Swapped, BlockInserted;
    var n := node.count;
    ghost var bs0, rs := node.view.blocks + [b], BlockRects(node.view.blocks);
    BlockRectsAre(node.view.blocks);
    ghost var bs := bs0;
    SiftBegins(rs, b.rect, bs);
    node.branches := node.branches[node.count := Branch(null, b)];
    var i := 0;
    while i < node.count
      modifies node`branches
      invariant 0 <= i <= n == node.count && |node.branches| == MAXNODES
      invariant |bs| == n + 1
      invariant forall j :: 0 <= j <= n ==> node.branches[j] == Branch(null, bs[j])
      invariant multiset(bs) == multiset(bs0)
      invariant bs == Arranged(bs0, rs, b.rect, i)
    {
      SiftStep(rs, b.rect, i, bs0);
      if node.branches[i].Area() < b.rect.Area() {
      } else {
        var tmp := node.branches[i];
        node.branches := node.branches[i := node.branches[node.count]];
        node.branches := node.branches[node.count := tmp];
        SwapPermutes(bs, i, n);
        bs := Swapped(bs, i, n);
      }
      i := i + 1;
    }
    BlockPlaced(node.view.blocks, b);
    node.count := node.count + 1;
    node.view := Leaf(node.rect, bs);
  }

  /** What sorting a block in makes of the list: in one in area order the block stands before
      the first that is not smaller. */
  ghost predicate BlockInserted(bs: seq<Block>, b: Block, after: seq<Block>) {
    && after == Arranged(bs + [b], BlockRects(bs), b.rect, |bs|)
    && (SortedByArea(bs) ==> SortedByArea(after))
    && (SortedByArea(bs) ==> exists k :: Place(BlockRects(bs), b.rect, k) && after == bs[..k] + [b] + bs[k..])
  }

  lemma InsertedInOrder(bs: seq<Block>, b: Block, after: seq<Block>)
    requires BlockInserted(bs, b, after)
    ensures SortedByArea(bs) ==> SortedByArea(after)
  {
  }

  lemma BlockPlaced(bs: seq<Block>, b: Block)
    ensures BlockInserted(bs, b, Arranged(bs + [b], BlockRects(bs), b.rect, |bs|))
  {
    hide Arranged, Rect.Area, SortedByArea, InOrder, Place;
    if SortedByArea(bs) {
      BlocksInOrder(bs);
      var k := SiftEnds(BlockRects(bs), b.rect, bs, b);
      PlaceBounds(BlockRects(bs), b.rect, k);
      PlaceKeepsOrder(BlockRects(bs), b.rect, k);
      assert BlockRects(bs[..k] + [b] + bs[k..]) == BlockRects(bs)[..k] + [b.rect] + BlockRects(bs)[k..];
      BlocksInOrder(bs[..k] + [b] + bs[k..]);
    }
  }

  lemma PlaceBounds(rs: seq<Rect>, r: Rect, k: int)
    requires Place(rs, r, k)
    ensures 0 <= k <= |rs|
  {
  }

  /** The first entries of `node` are the nodes `cs`, which stand for `ks`. */
  ghost predicate Lined(node: Node, cs: seq<Node?>, ks: seq<Tree>)
    reads node, cs
  {
    && |node.branches| == MAXNODES && |ks| == |cs| <= MAXNODES && Distinct(cs) && node !in cs
    && forall j :: 0 <= j < |cs| ==> node.branches[j] == Branch(cs[j], ZERO_BLOCK) && Node.MirrorsChild(cs[j], ks[j])
  }

  lemma LinedAt(node: Node, cs: seq<Node?>, ks: seq<Tree>, i: nat)
    requires Lined(node, cs, ks) && i < |cs|
    ensures i < |ks| && |node.branches| == MAXNODES && |cs| <= MAXNODES && node.branches[i].Area() == ks[i].rect.Area()
  {
  }

  /** Exchanges two entries. */
  method SwapChildren(node: Node, i: int, m: int, ghost cs: seq<Node?>, ghost ks: seq<Tree>)
    returns (ghost ds: seq<Node?>, ghost ls: seq<Tree>)
    requires Lined(node, cs, ks) && 0 <= i < |cs| && 0 <= m < |cs|
    modifies node`branches
    ensures Lined(node, ds, ls) && |ds| == |cs|
    ensures multiset(ds) == multiset(cs) && multiset(ls) == multiset(ks) && |ks| == |cs|
    ensures ds == Swapped(cs, i, m) && ls == Swapped(ks, i, m)
  {
    hide Distinct;
    var tmp := node.branches[i];
    node.branches := node.branches[i := node.branches[m]];
    node.branches := node.branches[m := tmp];
    SwapPermutes(ks, i, m);
    SwapPermutes(cs, i, m);
    ds, ls := Swapped(cs, i, m), Swapped(ks, i, m);
  }

  method AddChild(node: Node, n: Node)
    requires node.level > 0 && node.Mirrors() && node.count < MAXNODES
    requires n != node && n !in node.Children() && node !in node.Children() && n.view.rect == n.rect
    modifies node`branches, node`count, node`view, n`parent, n`level
    ensures node.Mirrors() && node.Bounded() && node.view.Inner? && node.count == old(node.count) + 1
    ensures forall c :: c in node.Children() <==> c in old(node.Children()) || c == n
    ensures n.parent == node && n.level == node.level - 1
    ensures multiset(node.view.kids) == multiset(old(node.view.kids)) + multiset{n.view}
    ensures node.view.rect == old(node.view.rect)
    ensures old(|node.Children()| == |node.view.kids|)
    ensures KidInserted(old(node.view.kids), old(node.Children()), old(n.view), n, node.view.kids, node.Children())
  {
    hide Distinct, Rect.Area, Arranged, KidInserted;
    KidPlaced(node.view.kids, node.Children(), n.view, n);
    ghost var cs, ks := node.Children() + [n], node.view.kids + [n.view];
    ghost var cs0, ks0 := cs, ks;
    DistinctAppend(node.Children(), n);
    n.parent := node;
    n.level := node.level - 1;
    node.branches := node.branches[node.count := Branch(n, ZERO_BLOCK)];
    assert Lined(node, cs, ks);
    hide Lined, Node.Mirrors, Node.Typed, Node.Children;
    cs, ks := SiftChild(node, n, cs, ks, KidRects(node.view.kids));
    node.count := node.count + 1;
    node.view := Inner(node.rect, node.level, ks);
    SameMembers(cs, cs0);
    LinedMirrors(node, cs, ks);
  }

  lemma LinedMirrors(node: Node, cs: seq<Node?>, ks: seq<Tree>)
    requires Lined(node, cs, ks) && node.level > 0 && node.count == |cs| && node.view == Inner(node.rect, node.level, ks)
    ensures node.Mirrors() && node.Bounded() && node.Children() == cs
  {
    hide Distinct;
    assert node.Bounded();
    assert node.Children() == cs;
    forall i | 0 <= i < node.count ensures node.branches[i].child != null && Node.MirrorsChild(node.branches[i].child, ks[i]) {
      assert node.branches[i] == Branch(cs[i], ZERO_BLOCK);
    }
    assert node.Typed();
  }

  /** The same for a child `n` that stands for `t`. */
  ghost predicate KidInserted(ks: seq<Tree>, cs: seq<Node?>, t: Tree, n: Node, after: seq<Tree>, nodes: seq<Node?>)
    requires |ks| == |cs|
  {
    && after == Arranged(ks + [t], KidRects(ks), t.rect, |ks|)
    && nodes == Arranged(cs + [n], KidRects(ks), t.rect, |ks|)
    && (InOrder(KidRects(ks)) ==> InOrder(KidRects(after)))
    && (InOrder(KidRects(ks)) ==> exists k :: Place(KidRects(ks), t.rect, k) && after == ks[..k] + [t] + ks[k..])
  }

  lemma KidPlaced(ks: seq<Tree>, cs: seq<Node?>, t: Tree, n: Node)
    requires |ks| == |cs|
    ensures KidInserted(ks, cs, t, n, Arranged(ks + [t], KidRects(ks), t.rect, |ks|), Arranged(cs + [n], KidRects(ks), t.rect, |ks|))
  {
    hide Arranged, Rect.Area, InOrder, Place;
    if InOrder(KidRects(ks)) {
      var k := SiftEnds(KidRects(ks), t.rect, ks, t);
      PlaceBounds(KidRects(ks), t.rect, k);
      PlaceKeepsOrder(KidRects(ks), t.rect, k);
      assert KidRects(ks[..k] + [t] + ks[k..]) == KidRects(ks)[..k] + [t.rect] + KidRects(ks)[k..];
    }
  }

  /** Sorts the entry behind the live ones in by area, one exchange after the other. */
  method SiftChild(node: Node, n: Node, ghost cs0: seq<Node?>, ghost ks0: seq<Tree>, ghost rs: seq<Rect>)
    returns (ghost cs: seq<Node?>, ghost ks: seq<Tree>)
    requires Lined(node, cs0, ks0) && 0 <= node.count == |cs0| - 1 == |rs|
    requires |ks0| == |cs0| && forall j :: 0 <= j < |rs| ==> rs[j] == ks0[j].rect
    modifies node`branches
    ensures Lined(node, cs, ks) && |cs| == |cs0|
    ensures multiset(cs) == multiset(cs0) && multiset(ks) == multiset(ks0)
    ensures cs == Arranged(cs0, rs, n.rect, |rs|) && ks == Arranged(ks0, rs, n.rect, |rs|)
  {
    hide Rect.Area, Arranged, Lined, Swapped;
    cs, ks := cs0, ks0;
    SiftBegins(rs, n.rect, cs0);
    SiftBegins(rs, n.rect, ks0);
    var i := 0;
    while i < node.count
      modifies node`branches
      invariant 0 <= i <= node.count == |rs| == |cs| - 1 == |ks| - 1 && Lined(node, cs, ks)
      invariant multiset(cs) == multiset(cs0) && multiset(ks) == multiset(ks0)
      invariant cs == Arranged(cs0, rs, n.rect, i) && ks == Arranged(ks0, rs, n.rect, i)
    {
      LinedAt(node, cs, ks, i);
      SiftStep(rs, n.rect, i, cs0);
      SiftStep(rs, n.rect, i, ks0);
      if node.branches[i].Area() < n.rect.Area() {
      } else {
        cs, ks := SwapChildren(node, i, node.count, cs, ks);
      }
      i := i + 1;
    }
  }

  /** The shift both removals end with: entry `k` goes, later entries move down. */
  method ShiftDown(node: Node, k: int)
    requires node.Bounded() && 0 <= k < node.count
    modifies node`branches, node`count
    ensures node.Bounded() && node.count == old(node.count) - 1
    ensures forall j :: 0 <= j < k ==> node.branches[j] == old(node.branches)[j]
    ensures forall j :: k <= j < node.count ==> node.branches[j] == old(node.branches)[j + 1]
  {
    var i := k;
    while i < node.count - 1
      invariant k <= i < node.count == old(node.count) && |node.branches| == MAXNODES
      invariant forall j :: 0 <= j < k ==> node.branches[j] == old(node.branches)[j]
      invariant forall j :: k <= j < i ==> node.branches[j] == old(node.branches)[j + 1]
      invariant forall j :: i <= j < node.count ==> node.branches[j] == old(node.branches)[j]
    {
      node.branches := node.branches[i := node.branches[i + 1]];
      i := i + 1;
    }
    node.branches := node.branches[i := Branch(null, ZERO_BLOCK)];
    node.count := node.count - 1;
  }

  method RemoveBlock(node: Node, b: Block)
    requires node.level == 0 && node.Mirrors()
    requires exists x :: x in node.view.blocks && x.rect == b.rect
    modifies node`branches, node`count, node`view
    ensures node.Mirrors() && node.count == old(node.count) - 1
    ensures node.Typed() && node.view.Leaf? && node.view.Size() == node.count
    ensures exists k :: 0 <= k < |old(node.view.blocks)| && old(node.view.blocks)[k].rect == b.rect
                     && (forall j :: 0 <= j < k ==> old(node.view.blocks)[j].rect != b.rect)
                     && node.view.blocks == Without(old(node.view.blocks), k)
    ensures node.view.rect == old(node.view.rect)
  {
    var i := 0;
    while i < node.count && b.rect != node.branches[i].block.rect
      invariant 0 <= i <= node.count
      invariant forall j :: 0 <= j < i ==> node.view.blocks[j].rect != b.rect
    {
      i := i + 1;
    }
    ghost var bs := node.view.blocks;
    ShiftDown(node, i);
    node.view := Leaf(node.rect, Without(bs, i));
  }

  method RemoveChild(node: Node, n: Node)
    requires node.level > 0 && node.Mirrors() && node !in node.Children()
    requires n in node.Children()
    modifies node`branches, node`count, node`view
    ensures node.Mirrors() && node.count == old(node.count) - 1
    ensures forall c :: c in node.Children() <==> c in old(node.Children()) && c != n
    ensures node.view.Inner? && node.view.height == node.level && node.view.Size() == node.count && node.Typed()
    ensures exists k :: 0 <= k < |old(node.view.kids)| && old(node.Children())[k] == n
                     && node.view.kids == Without(old(node.view.kids), k)
    ensures node.view.rect == old(node.view.rect)
  {
    ghost var ks, cs := node.view.kids, node.Children();
    var i := 0;
    while i < node.count && n != node.branches[i].child
      invariant 0 <= i <= node.count
      invariant forall j :: 0 <= j < i ==> node.branches[j].child != n
    {
      i := i + 1;
    }
    ShiftDown(node, i);
    node.view := Inner(node.rect, node.level, Without(ks, i));
    assert node.Children() == Without(cs, i);
    WithoutDistinct(cs, i);
  }

  method UpdateBB(n: Node)
    requires n.Mirrors() && n !in n.Children() && n.count > 0
    modifies n`rect, n`view
    ensures n.Mirrors() && n.Typed()
    ensures IsHull(n.rect, n.view.Entries())
    ensures n.view == old(n.view).WithRect(n.rect) && n.view.Size() == n.count && n.view.Level() == n.level
  {
    hide IsHull;
    ghost var v, cs := n.view, n.Children();
    ghost var es := v.Entries();
    var r: Rect;
    if n.level == 0 {
      r := n.branches[0].block.rect;
    } else {
      r := n.branches[0].child.rect;
    }
    HullOfOne(es);
    var i := 1;
    while i < n.count
      invariant 1 <= i <= n.count
      invariant IsHull(r, es[..i])
    {
      HullExtend(r, es, i);
      if n.level == 0 {
        r := r.BoundingBox(n.branches[i].block.rect);
      } else {
        r := r.BoundingBox(n.branches[i].child.rect);
      }
      i := i + 1;
    }
    assert es[..i] == es;
    assert forall j :: 0 <= j < |cs| ==> cs[j] != n;
    n.rect, n.view := r, v.WithRect(r);
    WithRectKeepsEntries(v, r);
  }

  /** Refills leaf `node` with exactly the blocks of one group. */
  method FillLeaf(node: Node, group: seq<Block>)
    requires node.level == 0 && node.Bounded() && MINNODES <= |group| <= MAXNODES
    modifies node`branches, node`count, node`view, node`rect
    ensures node.Mirrors() && WellFormed(node.view) && node.view.Leaf?
    ensures multiset(node.view.blocks) == multiset(group)
  {
    hide IsHull, Node.Mirrors, SortedByArea, Node.Children, BlockInserted;
    node.count := 0;
    node.view := Leaf(node.rect, []);
    EmptyLeaf(node);
    for i := 0 to |group|
      invariant node.Mirrors() && node.view.Leaf? && node.count == i
      invariant multiset(node.view.blocks) == multiset(group[..i])
      invariant SortedByArea(node.view.blocks)
    {
      ghost var bs := node.view.blocks;
      AddBlock(node, group[i]);
      InsertedInOrder(bs, group[i], node.view.blocks);
      assert group[..i + 1] == group[..i] + [group[i]];
    }
    assert group[..|group|] == group;
    LeafView(node);
    UpdateBB(node);
  }

  lemma EmptyLeaf(node: Node)
    requires node.level == 0 && node.Bounded() && node.count == 0 && node.view == Leaf(node.rect, [])
    ensures node.Mirrors() && SortedByArea(node.view.blocks)
  {
  }

  lemma LeafView(node: Node)
    requires node.level == 0 && node.Mirrors()
    ensures node.Bounded() && node.view.Leaf? && node !in node.Children()
  {
  }

  /** `left` and `right` hold what the quadratic split of entries with the rectangles `rects`
      puts into the two groups. */
  ghost predicate SplitInto<T>(entries: seq<T>, rects: seq<Rect>, left: multiset<T>, right: multiset<T>)
    requires |rects| == |entries|
  {
    exists a, b :: SplitBy(entries, rects, left, right, a, b)
  }

  ghost predicate SplitBy<T>(entries: seq<T>, rects: seq<Rect>, left: multiset<T>, right: multiset<T>, a: seq<nat>, b: seq<nat>)
    requires |rects| == |entries|
  {
    && a != [] && b != [] && InRange(a, |rects|) && InRange(b, |rects|)
    && FirstSeeds(rects, a[0], b[0]) && Grouped(rects, a, b)
    && left == multiset(Pick(entries, a)) && right == multiset(Pick(entries, b))
  }

  method SplitLeaf(target: Node, b: Block) returns (ret: Node)
    requires target.level == 0 && target.Mirrors() && target.count == 8
    modifies target`branches, target`count, target`view, target`rect
    ensures fresh(ret) && ret.level == 0 && ret.parent == null
    ensures target.Mirrors() && target.Typed() && WellFormed(target.view)
    ensures ret.Mirrors() && ret.Typed() && WellFormed(ret.view)
    ensures Contents(target.view) + Contents(ret.view) == Contents(old(target.view)) + multiset{b}
    ensures var bs := old(target.view.blocks) + [b];
      target.view.Leaf? && ret.view.Leaf? && SplitInto(bs, BlockRects(bs), multiset(target.view.blocks), multiset(ret.view.blocks))
  {
    hide IsHull, WellFormed, Parts, Grouped, FirstSeeds, SplitBy;
    var entries := seq(target.count, i requires 0 <= i < target.count && target.Bounded() reads target => target.branches[i].block);
    assert entries == target.view.blocks;
    entries := entries + [b];
    var groupA, groupB := QuadraticSplit(seq(|entries|, i requires 0 <= i < |entries| => entries[i].rect));
    PartsPick(entries, groupA, groupB);
    FillLeaf(target, Pick(entries, groupA));
    ret := new Node(target.level);
    FillLeaf(ret, Pick(entries, groupB));
    SplitIs(entries, BlockRects(entries), groupA, groupB);
  }

  lemma SplitIs<T>(entries: seq<T>, rects: seq<Rect>, a: seq<nat>, b: seq<nat>)
    requires |rects| == |entries|
    requires a != [] && b != [] && InRange(a, |rects|) && InRange(b, |rects|)
    requires FirstSeeds(rects, a[0], b[0]) && Grouped(rects, a, b)
    ensures SplitInto(entries, rects, multiset(Pick(entries, a)), multiset(Pick(entries, b)))
  {
    hide Grouped, FirstSeeds;
    assert SplitBy(entries, rects, multiset(Pick(entries, a)), multiset(Pick(entries, b)), a, b);
  }

  ghost function Views(group: seq<Node>): (r: seq<Tree>)
    reads group
    ensures |r| == |group| && forall i :: 0 <= i < |r| ==> r[i] == group[i].view
  {
    seq(|group|, i requires 0 <= i < |group| reads group => group[i].view)
  }

  lemma EmptyMirrors(node: Node)
    requires node.Bounded() && node.level > 0 && node.count == 0
    requires node.view == Inner(node.rect, node.level, [])
    ensures node.Mirrors()
  {
  }

  /** Inner node `node` has exactly the first `i` nodes of the group below it. */
  ghost predicate Filled(node: Node, group: seq<Node>, i: int)
    reads node, group, if node.Bounded() then node.Children() else []
  {
    && 0 <= i <= |group| && node.Mirrors() && node.view.Inner? && node.count == i
    && (forall c :: c in node.Children() ==> c in group[..i])
    && forall c :: c in group[..i] ==> c in node.Children() && c.parent == node && c.level == node.level - 1
  }

  /** Refills inner node `node` with exactly the children of one group. */
  method FillInner(node: Node, group: seq<Node>)
    requires node.level > 0 && node.Bounded() && MINNODES <= |group| <= MAXNODES
    requires Distinct(group) && node !in group
    requires forall c :: c in group ==> c.view.rect == c.rect
    modifies node`branches, node`count, node`view, node`rect, group`parent, group`level
    ensures node.Mirrors() && node.Bounded() && node.view.Inner? && node.level == old(node.level)
    ensures IsHull(node.view.rect, node.view.Entries())
    ensures node.count == |group|
    ensures forall c :: c in node.Children() <==> c in group
    ensures forall c :: c in group ==> c.parent == node && c.level == node.level - 1
    ensures multiset(node.view.kids) == multiset(old(Views(group)))
  {
    hide IsHull, Node.Mirrors, Distinct;
    FillEntries(node, group);
    assert group[..|group|] == group;
    UpdateBB(node);
  }

  /** The loop that adds the children. */
  method FillEntries(node: Node, group: seq<Node>)
    requires node.level > 0 && node.Bounded() && MINNODES <= |group| <= MAXNODES
    requires Distinct(group) && node !in group
    requires forall c :: c in group ==> c.view.rect == c.rect
    modifies node`branches, node`count, node`view, group`parent, group`level
    ensures Filled(node, group, |group|) && node.Bounded() && node.level == old(node.level)
    ensures multiset(node.view.kids) == multiset(old(Views(group)))
  {
    hide IsHull, Distinct, Filled, Node.Mirrors, Node.Children, Shaped, WellFormed;
    node.count := 0;
    node.view := Inner(node.rect, node.level, []);
    FilledNone(node, group);
    ghost var vs := Views(group);
    for i := 0 to |group|
      invariant Filled(node, group, i) && node.Bounded() && node.level == old(node.level) && node.view.Inner?
      invariant multiset(node.view.kids) == multiset(vs[..i])
    {
      FillNext(node, group[i], group, i);
      PrefixMore(vs, i);
    }
    assert vs[..|group|] == vs;
  }

  lemma FilledNone(node: Node, group: seq<Node>)
    requires node.Bounded() && node.level > 0 && node.count == 0 && node.view == Inner(node.rect, node.level, [])
    ensures Filled(node, group, 0)
  {
    EmptyMirrors(node);
  }

  /** Adds the next child of the group. */
  method FillNext(node: Node, n: Node, ghost group: seq<Node>, ghost i: nat)
    requires node.level > 0 && i < |group| <= MAXNODES && Distinct(group) && node !in group && n == group[i]
    requires node.Bounded() && Filled(node, group, i) && n.view.rect == n.rect
    modifies node`branches, node`count, node`view, n`parent, n`level
    ensures node.Bounded() && Filled(node, group, i + 1) && node.view.Inner?
    ensures multiset(node.view.kids) == multiset(old(node.view.kids)) + multiset{n.view}
  {
    hide IsHull, Distinct, Node.Mirrors, Node.Children;
    DistinctAt(group, i);
    AddChild(node, n);
  }

  lemma PrefixMore<T>(s: seq<T>, i: nat)
    requires i < |s|
    ensures multiset(s[..i + 1]) == multiset(s[..i]) + multiset{s[i]}
  {
    assert s[..i + 1] == s[..i] + [s[i]];
  }

  lemma DistinctAt<T>(s: seq<T>, i: nat)
    requires Distinct(s) && i < |s|
    ensures s[i] !in s[..i] && s[..i + 1] == s[..i] + [s[i]]
  {
  }

  /** A new node with exactly the children of one group. */
  method FillFresh(level: nat, group: seq<Node>) returns (ret: Node)
    requires level > 0 && MINNODES <= |group| <= MAXNODES && Distinct(group)
    requires forall c :: c in group ==> c.view.rect == c.rect
    modifies group`parent, group`level
    ensures fresh(ret) && ret.level == level && ret.parent == null
    ensures ret.Mirrors() && ret.Bounded() && IsHull(ret.rect, ret.view.Entries()) && ret.count == |group| && ret.view.Inner?
    ensures forall c :: c in ret.Children() <==> c in group
    ensures forall c :: c in group ==> c.parent == ret && c.level == level - 1
    ensures multiset(ret.view.kids) == multiset(old(Views(group)))
  {
    hide IsHull, Distinct, Node.Children;
    ghost var vs := Views(group);
    ret := new Node(level);
    assert Views(group) == vs;
    FillInner(ret, group);
  }

  lemma EntryRects(group: seq<Node>, views: seq<Tree>, rects: seq<Rect>)
    requires |group| == |views| == |rects| && forall c :: c in group ==> c.view.rect == c.rect
    requires forall i :: 0 <= i < |group| ==> views[i] == group[i].view && rects[i] == group[i].rect
    ensures rects == KidRects(views)
  {
    forall i | 0 <= i < |group| ensures rects[i] == KidRects(views)[i] {
      assert group[i] in group;
    }
  }

  /** The two groups of the children of `target` and the extra node `n`. */
  method GroupChildren(target: Node, n: Node, ghost family: set<Node>) returns (groupA: seq<Node>, groupB: seq<Node>)
    requires target.level > 0 && target.Mirrors() && target.count == 8
    requires n !in target.Children()
    requires forall c :: c in family <==> c in target.Children() || c == n
    requires forall c :: c in family ==> c.view.rect == c.rect
    ensures MINNODES <= |groupA| < MAXNODES && MINNODES <= |groupB| < MAXNODES
    ensures Distinct(groupA) && Distinct(groupB)
    ensures forall c :: c in groupA ==> c !in groupB
    ensures forall c :: c in groupA || c in groupB <==> c in family
    ensures multiset(Views(groupA)) + multiset(Views(groupB)) == multiset(target.view.kids) + multiset{n.view}
    ensures var ks := target.view.kids + [n.view];
      SplitInto(ks, KidRects(ks), multiset(Views(groupA)), multiset(Views(groupB)))
  {
    hide Parts, IsHull, Grouped, FirstSeeds, SplitInto, KidRects;
    ghost var kids := target.view.kids;
    var entries: seq<Node> := [];
    for i := 0 to target.count
      invariant |entries| == i && forall j :: 0 <= j < i ==> entries[j] == target.branches[j].child
    {
      entries := entries + [target.branches[i].child];
    }
    assert entries == target.Children();
    entries := entries + [n];
    assert Distinct(entries) && forall c :: c in entries <==> c in target.Children() || c == n;
    ghost var views := Views(entries);
    assert views == kids + [n.view];
    var rects := seq(|entries|, i requires 0 <= i < |entries| reads entries => entries[i].rect);
    EntryRects(entries, views, rects);
    var a, b := QuadraticSplit(rects);
    PartsPick(entries, a, b);
    PartsPick(views, a, b);
    groupA, groupB := Pick(entries, a), Pick(entries, b);
    assert Views(groupA) == Pick(views, a);
    assert Views(groupB) == Pick(views, b);
    SplitIs(views, rects, a, b);
  }

  lemma MirrorsShow(n: Node)
    requires n.Mirrors() && n.level > 0
    ensures n.Bounded() && n.view.Inner?
  {
  }

  /** `family` is the set of nodes shared out: the children of `target` and `n`. */
  method SplitInner(target: Node, n: Node, ghost family: set<Node>) returns (ret: Node)
    requires target.level > 0 && target.Mirrors() && target.count == 8
    requires n !in target.Children() && target !in family
    requires forall c :: c in family <==> c in target.Children() || c == n
    requires forall c :: c in family ==> c.view.rect == c.rect
    modifies target`branches, target`count, target`view, target`rect
    modifies family`parent, family`level
    ensures fresh(ret) && ret.level == target.level && ret.parent == null
    ensures target.Mirrors() && IsHull(target.rect, target.view.Entries()) && MINNODES <= target.count <= MAXNODES
    ensures ret.Mirrors() && IsHull(ret.rect, ret.view.Entries()) && MINNODES <= ret.count <= MAXNODES
    ensures forall c :: c in family <==> c in target.Children() || c in ret.Children()
    ensures forall c: Node :: c in target.Children() ==> c.parent == target && c.level == target.level - 1
    ensures forall c: Node :: c in ret.Children() ==> c.parent == ret && c.level == target.level - 1
    ensures multiset(target.view.kids) + multiset(ret.view.kids)
         == multiset(old(target.view.kids)) + multiset{old(n.view)}
    ensures var ks := old(target.view.kids) + [old(n.view)];
      target.view.Inner? && ret.view.Inner? && SplitInto(ks, KidRects(ks), multiset(target.view.kids), multiset(ret.view.kids))
  {
    hide IsHull, Distinct, Node.Mirrors, Node.Children, SplitInto;
    MirrorsShow(target);
    var groupA, groupB := GroupChildren(target, n, family);
    ghost var viewsB := Views(groupB);
    FillInner(target, groupA);
    assert Views(groupB) == viewsB;
    label Filled:
    ret := FillFresh(target.level, groupB);
    target.MirrorsFrame@Filled();
  }
}
