/** The upward adjustment of an R-tree after one of its nodes changed: which invariant
    holds while the nodes above are still out of date, and how one step of the loop
    restores it one level up (updown/libraries/dramalloc/rtree.cpp:388-424). */
module Climbs {
  import opened Nodes
  import opened Rects
  import opened Seqs
  import opened TreeModel

  /** How far the upward adjustment of a tree has come: `cur` is up to date, its parent
      still has `stale` as the view of `cur`, and `extra` awaits a parent. */
  datatype Climb = Climb(nodes: set<Node>, root: Node, cur: Node, extra: Node?, stale: Tree, floor: int)

  /** A step of a climb: `p` takes in `c.extra`, splitting off `q` when it is full. */
  datatype Lift = Lift(c: Climb, p: Node, q: Node?, family: set<Node>)
  {
    function Nodes(): set<Node> { if q == null then c.nodes else c.nodes + {q} }

    /** The climb after the step, when the view of `p` was `v` before it. */
    function Next(v: Tree): Climb { Climb(Nodes(), c.root, p, q, v, c.floor) }
  }

  /** The first change of an insertion: block(s) of `leaf` changed, `q` split off it. */
  datatype Start = Start(nodes: set<Node>, root: Node, leaf: Node, q: Node?)
  {
    function Nodes(): set<Node> { if q == null then nodes else nodes + {q} }

    function Climbed(v: Tree): Climb { Climb(Nodes(), root, leaf, q, v, 0) }
  }

  datatype Top = Top(c: Climb, newr: Node)

  /** The children of `n` are in `S`, one level down, and point back at `n`. */
  ghost predicate KidsLinked(n: Node, S: set<Node>)
    reads n, S
  {
    && n.Typed()
    && (n.level > 0 ==> forall c: Node :: c in n.Children() ==> c in S && c.parent == n && c.level == n.level - 1)
  }

  /** `n` is a child of its parent, one level up; the root and `loose` have none. */
  ghost predicate ParentLinked(n: Node, S: set<Node>, root: Node, loose: Node?)
    reads n, S
  {
    if n == root || n == loose then n.parent == null
    else n.parent != null && n.parent in S && n.parent.Typed() && n in n.parent.Children()
         && n.parent.level == n.level + 1
  }

  /** Levels and links around `n` in a tree with nodes `S`; `loose` is a node that has
      not been given a parent yet. */
  ghost predicate Linked(n: Node, S: set<Node>, root: Node, loose: Node?)
    requires root in S
    reads S
  {
    n in S && n.level <= root.level && KidsLinked(n, S) && ParentLinked(n, S, root, loose)
  }

  ghost predicate Shapely(n: Node, root: Node)
    reads n
  {
    if n == root then WellFormedRoot(n.view) else WellFormed(n.view)
  }

  /** `p` mirrors its children, except that it still has the view `stale` of `cur`. */
  ghost predicate MirrorsBut(p: Node, cur: Node, stale: Tree)
    reads p, if p.Bounded() then p.Children() else []
  {
    && p.Typed() && p.level > 0
    && p.view.Inner? && p.view.height == p.level && p.view.rect == p.rect && p.view.Size() == p.count
    && forall i :: 0 <= i < p.count ==>
         if p.branches[i].child == cur then p.view.kids[i] == stale
         else Node.MirrorsChild(p.branches[i].child, p.view.kids[i])
  }

  /** All nodes hang below the root, but for `extra`; from level `floor` up they agree
      with their children on it. */
  ghost predicate Webbed(c: Climb)
    reads c.nodes
  {
    && c.root in c.nodes && c.cur in c.nodes && c.cur.level >= c.floor
    && (c.extra != null ==> c.extra in c.nodes && c.extra != c.root && c.extra != c.cur && c.extra.level == c.cur.level)
    && (forall n: Node :: n in c.nodes ==> ParentLinked(n, c.nodes, c.root, c.extra) && 0 <= n.level <= c.root.level)
    && (forall n: Node :: n in c.nodes && n.level >= c.floor ==> KidsLinked(n, c.nodes))
  }

  /** The state in which `cur` (and its new sibling `extra`) are up to date and the
      nodes above still stand for what they stood for before. */
  ghost predicate Climbing(c: Climb)
    reads c.nodes
  {
    && Webbed(c) && c.floor == 0
    && (forall n :: n in c.nodes && n != c.cur.parent ==> n.Mirrors())
    && (c.cur.parent != null ==> MirrorsBut(c.cur.parent, c.cur, c.stale))
    && (forall n :: n in c.nodes ==> Shapely(n, c.root))
    && (c.extra != null ==> WellFormed(c.cur.view))
  }

  ghost function ExtraContents(extra: Node?): multiset<Block>
    reads extra
  {
    if extra == null then multiset{} else Contents(extra.view)
  }

  /** Brings the view of the parent up to date with the child that changed. */
  ghost method Resync(p: Node, cur: Node, stale: Tree)
    requires MirrorsBut(p, cur, stale) && cur in p.Children() && p != cur && cur.view.rect == cur.rect
    requires p !in p.Children()
    modifies p`view
    ensures p.Mirrors() && p.view.rect == p.rect && p.view.Inner? && p.view.height == p.level
    ensures Contents(p.view) + Contents(stale) == Contents(old(p.view)) + Contents(cur.view)
    ensures forall t :: t in p.view.kids ==> t in old(p.view.kids) || t == cur.view
    ensures exists k :: 0 <= k < p.count && p.branches[k].child == cur && p.view.kids == old(p.view.kids)[k := cur.view]
                     && old(p.view.kids)[k] == stale
  {
    hide Contents;
    var k := ChildAt(p, cur);
    var ks := p.view.kids;
    SumUpdate(ks, k, cur.view);
    SumIs(p.view);
    p.view := Inner(p.rect, p.level, ks[k := cur.view]);
    SumIs(p.view);
  }

  /** Where `cur` stands among the children, and what stands elsewhere. */
  lemma ChildAt(p: Node, cur: Node) returns (k: nat)
    requires p.Typed() && p.level > 0 && cur in p.Children() && p !in p.Children()
    ensures k < p.count && p.branches[k].child == cur
    ensures forall i :: 0 <= i < p.count ==> p.branches[i].child != p && (i != k ==> p.branches[i].child != cur)
  {
    k :| 0 <= k < p.count && p.branches[k].child == cur;
    var cs := p.Children();
    assert Distinct(cs) && cs[k] == cur;
    assert forall i :: 0 <= i < |cs| ==> cs[i] == p.branches[i].child;
  }

  lemma SumIs(t: Tree)
    requires t.Inner?
    ensures Contents(t) == Sum(t.kids)
  {
  }

  /** After `p` alone changed its box and view, its parent still has the old view. */
  twostate lemma StaleParent(p: Node)
    requires p.parent == old(p.parent) && p.parent != null && p.parent != p
    requires old(p.parent.Mirrors()) && p in old(p.parent.Children())
    requires p.parent.level == old(p.parent.level) && p.parent.count == old(p.parent.count)
    requires p.parent.branches == old(p.parent.branches)
    requires p.parent.view == old(p.parent.view) && p.parent.rect == old(p.parent.rect)
    requires forall c: Node :: c in old(p.parent.Children()) && c != p ==> c.view == old(c.view) && c.rect == old(c.rect)
    ensures MirrorsBut(p.parent, p, old(p.view))
  {
    var q := p.parent;
    assert q.Children() == old(q.Children());
    forall i | 0 <= i < q.count ensures
      if q.branches[i].child == p then q.view.kids[i] == old(p.view)
      else Node.MirrorsChild(q.branches[i].child, q.view.kids[i])
    {
      assert old(Node.MirrorsChild(q.branches[i].child, q.view.kids[i]));
      assert q.Children()[i] == q.branches[i].child;
    }
  }

  /** Node `p`, the old parent of `cur`, shares the nodes `l.family` - its children and
      `extra` - with the new node `q`, if any; nothing else changed. */
  twostate predicate Rearranged(new l: Lift)
    requires var c, p := l.c, l.p; old(allocated(c)) && old(allocated(p))
    reads l.c.nodes, l.p, l.q, l.family
  {
    var c, p, q := l.c, l.p, l.q;
    && p in c.nodes && old(p.Bounded()) && p.Typed() && (q != null ==> q.Typed() && q !in c.nodes)
    && p.parent == old(p.parent) && p.level == old(p.level) > 0
    && (q != null ==> q.level == p.level && q.parent == null)
    && (forall m: Node :: m in l.family ==> m in old(p.Children()) || m == c.extra)
    && (forall m: Node :: m in old(p.Children()) ==> m in l.family)
    && (c.extra != null ==> c.extra in l.family)
    && (forall m: Node :: m in l.family ==> m in p.Children() || (q != null && m in q.Children()))
    && (forall m: Node :: m in p.Children() ==> m in l.family && m.parent == p)
    && (q != null ==> forall m: Node :: m in q.Children() ==> m in l.family && m.parent == q)
    && (forall m: Node :: m in c.nodes ==> m.level == old(m.level))
    && (forall m: Node :: m in c.nodes && m !in l.family ==> m.parent == old(m.parent))
    && (forall m: Node :: m in c.nodes && m != p ==> m.count == old(m.count) && m.branches == old(m.branches))
  }

  twostate lemma FamilyFacts(new l: Lift)
    requires var c, p := l.c, l.p; old(allocated(c)) && old(allocated(p))
    requires var c, p := l.c, l.p; old(Webbed(c)) && c.cur != c.root && p == old(c.cur.parent)
    requires Rearranged(l)
    ensures forall m: Node :: m in l.family ==> m in l.c.nodes && m.level == l.p.level - 1 && m != l.c.root
    ensures l.p !in l.family && l.q !in l.family && l.p.level > l.c.floor
    ensures var c, p := l.c, l.p; forall m: Node :: m in l.family ==> m in c.nodes && old(m.parent) == if m == c.extra then null else p
  {
    hide Distinct;
    var c, p := l.c, l.p;
    assert old(ParentLinked(c.cur, c.nodes, c.root, c.extra)) && old(ParentLinked(c.root, c.nodes, c.root, c.extra));
    assert old(KidsLinked(p, c.nodes));
    assert c.extra != null ==> old(ParentLinked(c.extra, c.nodes, c.root, c.extra));
  }

  /** Nodes outside the family hang where they hung. */
  twostate lemma ParentsElsewhere(new l: Lift)
    requires var c, p := l.c, l.p; old(allocated(c)) && old(allocated(p))
    requires var c, p := l.c, l.p; old(Webbed(c)) && c.cur != c.root && p == old(c.cur.parent)
    requires Rearranged(l)
    ensures forall n: Node :: n in l.c.nodes && n !in l.family ==> ParentLinked(n, l.Nodes(), l.c.root, l.q)
  {
    hide Distinct, KidsLinked, Node.Children, Node.Blockless;
    var c, p := l.c, l.p;
    var S := l.Nodes();
    forall n: Node | n in c.nodes && n !in l.family ensures ParentLinked(n, S, c.root, l.q) {
      assert old(ParentLinked(n, c.nodes, c.root, c.extra));
      if n != c.root {
        var o := n.parent;
        assert o == old(n.parent) && n in old(n.parent.Children());
        assert o in c.nodes && o.level == old(o.level) == n.level + 1;
        assert old(o.Typed()) && o.count == old(o.count) && o.branches == old(o.branches);
        o.TypedFrame();
      }
    }
  }

  /** Nodes other than `p` keep their children. */
  twostate lemma KidsElsewhere(new l: Lift)
    requires var c, p := l.c, l.p; old(allocated(c)) && old(allocated(p))
    requires var c, p := l.c, l.p; old(Webbed(c)) && c.cur != c.root && p == old(c.cur.parent)
    requires Rearranged(l)
    ensures forall n: Node :: n in l.c.nodes && n.level >= l.c.floor && n != l.p ==> KidsLinked(n, l.Nodes())
  {
    hide Distinct, ParentLinked, Node.Children, Node.Blockless;
    var c, p := l.c, l.p;
    var S := l.Nodes();
    FamilyFacts(l);
    assert old(KidsLinked(p, c.nodes));
    forall n: Node | n in c.nodes && n.level >= c.floor && n != p ensures KidsLinked(n, S) {
      assert old(KidsLinked(n, c.nodes));
      assert n.level > 0 ==> forall m: Node :: m in old(n.Children()) ==> m in c.nodes && old(m.parent) == n && m !in l.family;
      n.TypedFrame();
    }
  }

  twostate lemma ParentsFamily(new l: Lift)
    requires var c, p := l.c, l.p; old(allocated(c)) && old(allocated(p))
    requires var c, p := l.c, l.p; old(Webbed(c)) && c.cur != c.root && p == old(c.cur.parent)
    requires Rearranged(l)
    ensures forall n: Node :: n in l.family ==> ParentLinked(n, l.Nodes(), l.c.root, l.q)
  {
    hide Distinct, Node.Children, Node.Blockless;
    FamilyFacts(l);
  }

  twostate lemma KidsMoved(new l: Lift)
    requires var c, p := l.c, l.p; old(allocated(c)) && old(allocated(p))
    requires var c, p := l.c, l.p; old(Webbed(c)) && c.cur != c.root && p == old(c.cur.parent)
    requires Rearranged(l)
    ensures KidsLinked(l.p, l.Nodes())
    ensures l.q != null ==> KidsLinked(l.q, l.Nodes()) && ParentLinked(l.q, l.Nodes(), l.c.root, l.q)
  {
    hide Distinct, Node.Children, Node.Blockless;
    FamilyFacts(l);
  }

  /** The rearrangement keeps the links; the climb goes on at `p`. */
  twostate lemma RisenLinks(new l: Lift)
    requires var c, p := l.c, l.p; old(allocated(c)) && old(allocated(p))
    requires var c, p := l.c, l.p; old(Webbed(c)) && c.cur != c.root && p == old(c.cur.parent)
    requires Rearranged(l)
    ensures forall v :: Webbed(l.Next(v))
  {
    hide Distinct, ParentLinked, KidsLinked, Node.Children, Node.Blockless;
    FamilyFacts(l);
    ParentsElsewhere(l);
    ParentsFamily(l);
    KidsElsewhere(l);
    KidsMoved(l);
  }

  /** The new views: `p` and `q` are up to date, all other views are untouched. */
  twostate predicate Reviewed(new l: Lift)
    requires var c, p := l.c, l.p; old(allocated(c)) && old(allocated(p))
    requires Rearranged(l)
    reads l.c.nodes, l.p, l.q, l.family
  {
    var c, p, q := l.c, l.p, l.q;
    && p.Mirrors() && Shapely(p, c.root)
    && (q != null ==> q.Mirrors() && WellFormed(q.view) && WellFormed(p.view))
    && (forall m: Node :: m in c.nodes && m != p ==> m.view == old(m.view) && m.rect == old(m.rect))
  }

  twostate lemma MirrorsElsewhere(new l: Lift)
    requires var c, p := l.c, l.p; old(allocated(c)) && old(allocated(p))
    requires var c, p := l.c, l.p; old(Climbing(c)) && c.cur != c.root && p == old(c.cur.parent)
    requires Rearranged(l)
    requires Reviewed(l)
    ensures forall n: Node :: n in l.c.nodes && n != l.p && n != l.p.parent ==> n.Mirrors()
  {
    hide Node.Mirrors, MirrorsBut, WellFormed, WellFormedRoot, Distinct;
    var c, p := l.c, l.p;
    forall n: Node | n in c.nodes && n != p && n != p.parent ensures n.Mirrors() {
      assert old(Linked(n, c.nodes, c.root, c.extra));
      assert forall m: Node :: m in old(n.Children()) ==> m in c.nodes && m != p;
      n.MirrorsFrame();
    }
  }

  twostate lemma ShapelyElsewhere(new l: Lift)
    requires var c, p := l.c, l.p; old(allocated(c)) && old(allocated(p))
    requires var c, p := l.c, l.p; old(Climbing(c)) && c.cur != c.root && p == old(c.cur.parent)
    requires Rearranged(l)
    requires Reviewed(l)
    ensures forall n: Node :: n in l.c.nodes ==> Shapely(n, l.c.root)
  {
    hide Node.Mirrors, MirrorsBut, WellFormed, WellFormedRoot, Distinct, Linked;
    var root := l.c.root;
    forall n: Node | n in l.c.nodes ensures Shapely(n, root) {
      assert old(Shapely(n, root));
    }
  }

  twostate lemma StaleAbove(new l: Lift)
    requires var c, p := l.c, l.p; old(allocated(c)) && old(allocated(p))
    requires var c, p := l.c, l.p; old(Climbing(c)) && c.cur != c.root && p == old(c.cur.parent)
    requires Rearranged(l)
    requires Reviewed(l)
    ensures var p := l.p; p.parent != null ==> MirrorsBut(p.parent, p, old(p.view))
    ensures var p := l.p; p.parent == null <==> p == l.c.root
  {
    hide Node.Mirrors, MirrorsBut, WellFormed, WellFormedRoot, Distinct, Node.Children, Node.Blockless;
    var c, p := l.c, l.p;
    assert old(Linked(p, c.nodes, c.root, c.extra));
    if p != c.root {
      assert old(Linked(p.parent, c.nodes, c.root, c.extra));
      assert forall m: Node :: m in old(p.parent.Children()) ==> m in c.nodes;
      StaleParent(p);
    }
  }

  /** After the rearrangement the climb goes on at `p`. */
  twostate lemma Risen(new l: Lift)
    requires var c, p := l.c, l.p; old(allocated(c)) && old(allocated(p))
    requires var c, p := l.c, l.p; old(Climbing(c)) && c.cur != c.root && p == old(c.cur.parent)
    requires Rearranged(l)
    requires Reviewed(l)
    ensures var p := l.p; Climbing(l.Next(old(p.view)))
  {
    hide Node.Mirrors, MirrorsBut, WellFormed, WellFormedRoot, Distinct, Linked, Node.Children, Node.Blockless;
    RisenLinks(l);
    MirrorsElsewhere(l);
    ShapelyElsewhere(l);
    StaleAbove(l);
  }

  /** What the next step of a climb relies on. */
  lemma ClimbFacts(c: Climb)
    requires Climbing(c) && c.cur != c.root
    ensures var p := c.cur.parent;
      && p != null && p in c.nodes && c.cur in c.nodes && p != c.cur && 0 < p.level <= c.root.level
      && p.Bounded() && c.cur in p.Children() && p !in p.Children()
      && (forall m: Node :: m in p.Children() ==> m in c.nodes && m.parent == p && m.level == p.level - 1)
      && MirrorsBut(p, c.cur, c.stale) && p.view.Inner? && p.view.height == p.level
      && Shaped(p.view) && 1 <= p.count <= MAXNODES && (p != c.root ==> MINNODES <= p.count)
      && (forall m: Node :: m in p.Children() ==> m.view.rect == m.rect)
    ensures c.cur.Mirrors() && c.cur.view.rect == c.cur.rect && WellFormed(c.cur.view)
    ensures c.cur.view.Level() == c.cur.level == c.cur.parent.level - 1
  {
    hide IsHull;
    assert Linked(c.cur, c.nodes, c.root, c.extra) && Linked(c.cur.parent, c.nodes, c.root, c.extra);
    assert Shapely(c.cur, c.root) && Shapely(c.cur.parent, c.root);
  }

  lemma ExtraFacts(c: Climb)
    requires Climbing(c) && c.cur != c.root && c.extra != null
    ensures c.cur.parent != null && c.cur.parent.Bounded()
    ensures c.extra in c.nodes && c.extra != c.cur.parent && c.extra !in c.cur.parent.Children()
    ensures c.extra.Mirrors() && c.extra.view.rect == c.extra.rect && WellFormed(c.extra.view)
    ensures c.extra.view.Level() == c.extra.level == c.cur.parent.level - 1
  {
    hide IsHull;
    assert Linked(c.cur, c.nodes, c.root, c.extra) && Linked(c.cur.parent, c.nodes, c.root, c.extra);
    assert Linked(c.extra, c.nodes, c.root, c.extra);
    assert Shapely(c.extra, c.root);
  }

  /** `updateBB` of the parent of `cur`, with its view brought up to date. */
  method RefreshParent(cur: Node, ghost c: Climb) returns (p: Node)
    requires Climbing(c) && cur == c.cur && cur != c.root
    modifies cur.parent`rect, cur.parent`view
    ensures p == cur.parent && p.Mirrors() && p.Typed() && p.Children() == old(cur.parent.Children())
    ensures p.view.Inner? && p.view.height == p.level && p.view.Size() == p.count && p.view.rect == p.rect
    ensures Shaped(p.view) && WellFormedRoot(p.view) && (p != c.root ==> WellFormed(p.view))
    ensures Contents(p.view) + Contents(c.stale) == Contents(old(cur.parent.view)) + Contents(cur.view)
  {
    hide IsHull, Shaped, Distinct, Climbing, Node.Mirrors, MirrorsBut;
    ClimbFacts(c);
    p := cur.parent;
    ghost var before := p.view;
    Resync(p, cur, c.stale);
    UpdateBB(p);
    ExchangeShape(before, p.view, cur.view);
    assert p.Children() == old(cur.parent.Children());
  }

  /** `addChild` and `updateBB` on a parent with room. */
  method Absorb(p: Node, extra: Node)
    requires p.Mirrors() && p.level > 0 && 1 <= p.count < MAXNODES
    requires p != extra && extra !in p.Children() && p !in p.Children() && extra.view.rect == extra.rect
    requires p.view.Inner? && Shaped(p.view) && WellFormed(extra.view) && extra.view.Level() == p.level - 1
    modifies p`branches, p`count, p`view, p`rect, extra`parent, extra`level
    ensures p.Mirrors() && p.Typed() && p.count == old(p.count) + 1
    ensures forall m :: m in p.Children() <==> m in old(p.Children()) || m == extra
    ensures extra.parent == p && extra.level == p.level - 1
    ensures WellFormed(p.view) && WellFormedRoot(p.view)
    ensures Contents(p.view) == Contents(old(p.view)) + Contents(extra.view)
  {
    hide IsHull, Shaped, Distinct, KidInserted, Node.Mirrors, WellFormed, Contents;
    InnerView(p);
    ghost var before := p.view;
    AddChild(p, extra);
    InnerView(p);
    ghost var v, cs := p.view, p.Children();
    SumPlus(v.kids, before.kids, extra.view);
    UpdateBB(p);
    assert p.Children() == cs;
    Absorbed(before, v, p.view, extra.view);
  }

  lemma InnerView(p: Node)
    requires p.Mirrors() && p.level > 0
    ensures p.Typed() && p.view.Inner? && p.view.height == p.level && p.view.Size() == p.count && p.view.rect == p.rect
  {
  }

  lemma Absorbed(before: Tree, v: Tree, after: Tree, extra: Tree)
    requires before.Inner? && v.Inner? && after == v.WithRect(after.rect) && v.height == before.height && Shaped(before)
    requires WellFormed(extra) && extra.Level() == before.height - 1
    requires multiset(v.kids) == multiset(before.kids) + multiset{extra}
    requires 1 <= before.Size() < MAXNODES && v.Size() == before.Size() + 1 && IsHull(after.rect, after.Entries())
    ensures WellFormed(after) && WellFormedRoot(after) && Contents(after) == Contents(before) + Contents(extra)
  {
    hide IsHull, Shaped, Tree.Entries;
    SumPlus(v.kids, before.kids, extra);
    ExchangeShape(before, after, extra);
  }

  /** Both on the parent of `cur`. */
  method RefreshWith(cur: Node, extra: Node, ghost c: Climb) returns (p: Node)
    requires Climbing(c) && c.extra == extra && cur == c.cur && cur != c.root
    requires cur.parent != null && cur.parent.count < MAXNODES
    modifies cur.parent`branches, cur.parent`count, cur.parent`view, cur.parent`rect, extra`parent, extra`level
    ensures p == old(cur.parent) && p.Mirrors() && p.Typed() && p.count == old(cur.parent.count) + 1
    ensures old(p.Bounded()) && forall m :: m in p.Children() <==> m in old(p.Children()) || m == extra
    ensures extra.parent == p && extra.level == p.level - 1 == old(extra.level)
    ensures WellFormed(p.view) && WellFormedRoot(p.view)
    ensures Contents(p.view) + Contents(c.stale) == Contents(old(cur.parent.view)) + Contents(old(cur.view)) + Contents(old(extra.view))
  {
    hide IsHull, Shaped, Distinct, Climbing, Node.Mirrors, MirrorsBut, Node.Children, WellFormed, WellFormedRoot, Contents, Node.Blockless;
    ClimbFacts(c);
    ExtraFacts(c);
    p := RefreshParent(cur, c);
    Absorb(p, extra);
  }

  /** One step up when the node below has no new sibling. */
  method LiftPlain(cur: Node, ghost c: Climb) returns (p: Node, ghost l: Lift)
    requires Climbing(c) && c.extra == null && cur == c.cur && cur != c.root
    modifies c.nodes
    ensures p == old(cur.parent) && l.c == c && l.p == p && l.q == null
    ensures Climbing(l.Next(old(cur.parent.view)))
    ensures Contents(p.view) + Contents(c.stale) == Contents(old(cur.parent.view)) + Contents(old(cur.view))
    ensures forall n :: n in c.nodes && n != p ==> n.view == old(n.view) && n.count == old(n.count)
    ensures forall n :: n in c.nodes ==> n.level == old(n.level)
    ensures p.count >= old(cur.parent.count) || p.count >= MINNODES
  {
    hide IsHull, Shaped, Distinct, Climbing, Node.Mirrors, MirrorsBut, Node.Children, WellFormed, WellFormedRoot, Node.Blockless;
    ClimbFacts(c);
    l := Lift(c, cur.parent, null, set m: Node | m in c.nodes && m in cur.parent.Children());
    p := RefreshParent(cur, c);
    Risen(l);
  }

  /** One step up when the parent has room for the new sibling. */
  method LiftAdd(cur: Node, extra: Node, ghost c: Climb) returns (p: Node, ghost l: Lift)
    requires Climbing(c) && c.extra == extra && cur == c.cur && cur != c.root
    requires cur.parent.count < MAXNODES
    modifies c.nodes
    ensures p == old(cur.parent) && l.c == c && l.p == p && l.q == null
    ensures Climbing(l.Next(old(cur.parent.view)))
    ensures Contents(p.view) + Contents(c.stale) == Contents(old(cur.parent.view)) + Contents(old(cur.view)) + Contents(old(extra.view))
    ensures forall n :: n in c.nodes && n != p ==> n.view == old(n.view) && n.count == old(n.count)
    ensures forall n :: n in c.nodes ==> n.level == old(n.level)
    ensures p.count >= old(cur.parent.count) || p.count >= MINNODES
  {
    hide IsHull, Shaped, Distinct, Climbing, Node.Mirrors, MirrorsBut, Node.Children, WellFormed, WellFormedRoot, Node.Blockless;
    ClimbFacts(c);
    ExtraFacts(c);
    ghost var cs := cur.parent.Children();
    l := Lift(c, cur.parent, null, set m: Node | m in c.nodes && (m in cs || m == extra));
    p := RefreshWith(cur, extra, c);
    assert forall m: Node :: m in l.family ==> m in cs || m == extra;
    assert forall m: Node :: m in cs ==> m in l.family;
    assert forall m: Node :: m in l.family ==> m in p.Children();
    assert forall m: Node :: m in p.Children() ==> m in l.family && m.parent == p;
    assert forall m: Node :: m in c.nodes && m !in l.family ==> m.parent == old(m.parent);
    Risen(l);
  }

  /** `splitNode` of a full parent. */
  method Overflow(p: Node, extra: Node, ghost family: set<Node>) returns (pp: Node)
    requires p.Mirrors() && p.level > 0 && p.count == MAXNODES
    requires extra !in p.Children() && p !in family && p.view.Inner?
    requires forall m :: m in family <==> m in p.Children() || m == extra
    requires forall m :: m in family ==> m.view.rect == m.rect
    requires Shaped(p.view) && WellFormed(extra.view) && extra.view.Level() == p.level - 1
    modifies p`branches, p`count, p`view, p`rect, family`parent, family`level
    ensures fresh(pp) && pp.level == p.level && pp.parent == null
    ensures p.Mirrors() && p.Typed() && WellFormed(p.view) && WellFormedRoot(p.view) && p.count >= MINNODES
    ensures pp.Mirrors() && pp.Typed() && WellFormed(pp.view)
    ensures forall m :: m in family <==> m in p.Children() || m in pp.Children()
    ensures forall m: Node :: m in p.Children() ==> m.parent == p && m.level == p.level - 1
    ensures forall m: Node :: m in pp.Children() ==> m.parent == pp && m.level == p.level - 1
    ensures Contents(p.view) + Contents(pp.view) == Contents(old(p.view)) + Contents(extra.view)
  {
    hide IsHull, Shaped, Distinct, Node.Children, Node.Blockless;
    ghost var before := p.view;
    pp := SplitInner(p, extra, family);
    ShareOutShape(before, extra.view, p.view);
    ShareOutShape(before, extra.view, pp.view);
    ShareOutContents(before, extra.view, p.view, pp.view);
    WellFormedFacts(p.view);
  }

  /** `updateBB` and `splitNode` on the parent of `cur`. */
  method OverflowWith(cur: Node, extra: Node, ghost c: Climb, ghost family: set<Node>) returns (p: Node, pp: Node)
    requires Climbing(c) && c.extra == extra && cur == c.cur && cur != c.root
    requires cur.parent != null && cur.parent.count == MAXNODES && cur.parent.Bounded() && cur.parent !in family
    requires forall m :: m in family <==> m in cur.parent.Children() || m == extra
    modifies cur.parent`branches, cur.parent`count, cur.parent`view, cur.parent`rect, family`parent, family`level
    ensures p == old(cur.parent) && fresh(pp) && pp.level == p.level && pp.parent == null
    ensures p.Mirrors() && p.Typed() && WellFormed(p.view) && WellFormedRoot(p.view) && p.count >= MINNODES
    ensures pp.Mirrors() && pp.Typed() && WellFormed(pp.view)
    ensures forall m :: m in family <==> m in p.Children() || m in pp.Children()
    ensures forall m: Node :: m in p.Children() ==> m.parent == p && m.level == p.level - 1
    ensures forall m: Node :: m in pp.Children() ==> m.parent == pp && m.level == p.level - 1
    ensures Contents(p.view) + Contents(pp.view) + Contents(c.stale)
         == Contents(old(cur.parent.view)) + Contents(old(cur.view)) + Contents(old(extra.view))
  {
    hide IsHull, Shaped, Distinct, Climbing, Node.Mirrors, MirrorsBut, Node.Children, WellFormed, WellFormedRoot, Contents, Node.Blockless;
    ClimbFacts(c);
    ExtraFacts(c);
    p := RefreshParent(cur, c);
    pp := Overflow(p, extra, family);
  }

  /** One step up when the parent is full and has to be split. */
  method LiftSplit(cur: Node, extra: Node, ghost c: Climb) returns (p: Node, pp: Node, ghost l: Lift)
    requires Climbing(c) && c.extra == extra && cur == c.cur && cur != c.root
    requires cur.parent.count == MAXNODES
    modifies c.nodes
    ensures p == old(cur.parent) && l.c == c && l.p == p && l.q == pp && fresh(pp)
    ensures Climbing(l.Next(old(cur.parent.view)))
    ensures Contents(p.view) + Contents(pp.view) + Contents(c.stale)
         == Contents(old(cur.parent.view)) + Contents(old(cur.view)) + Contents(old(extra.view))
    ensures forall n :: n in c.nodes && n != p ==> n.view == old(n.view) && n.count == old(n.count)
    ensures forall n :: n in c.nodes ==> n.level == old(n.level)
    ensures p.count >= old(cur.parent.count) || p.count >= MINNODES
  {
    hide IsHull, Shaped, Distinct, Climbing, Node.Mirrors, MirrorsBut, Node.Children, WellFormed, WellFormedRoot, Node.Blockless;
    ClimbFacts(c);
    ExtraFacts(c);
    ghost var cs := cur.parent.Children();
    ghost var family := set m: Node | m in c.nodes && (m in cs || m == extra);
    p, pp := OverflowWith(cur, extra, c, family);
    l := Lift(c, p, pp, family);
    assert forall m: Node :: m in c.nodes && m !in l.family ==> m.parent == old(m.parent);
    assert forall m: Node :: m in c.nodes ==> m.level == old(m.level);
    Risen(l);
  }

  /** All nodes are linked up, well shaped and stand for their views. */
  ghost predicate Whole(S: set<Node>, root: Node)
    reads S
  {
    && root in S
    && forall n :: n in S ==> Linked(n, S, root, null) && n.Mirrors() && Shapely(n, root)
  }

  /** What an insertion relies on at the chosen leaf. */
  lemma LeafFacts(S: set<Node>, root: Node, leaf: Node)
    requires Whole(S, root) && leaf in S && leaf.level == 0
    ensures leaf.Mirrors() && leaf.Bounded() && leaf.view.Leaf? && Shaped(leaf.view) && leaf.view.Size() == leaf.count
    ensures leaf != root ==> leaf.count >= MINNODES
    ensures forall i :: 0 <= i < leaf.count ==> leaf.branches[i] == Branch(null, leaf.view.blocks[i])
  {
    hide IsHull;
    assert Linked(leaf, S, root, null) && Shapely(leaf, root);
  }

  method InsertInLeaf(leaf: Node, b: Block)
    requires leaf.level == 0 && leaf.Mirrors() && leaf.count < MAXNODES && leaf.view.Leaf? && Shaped(leaf.view)
    modifies leaf`branches, leaf`count, leaf`view, leaf`rect
    ensures leaf.Mirrors() && leaf.Typed() && WellFormedRoot(leaf.view)
    ensures leaf.count == old(leaf.count) + 1 && (leaf.count >= MINNODES ==> WellFormed(leaf.view))
    ensures Contents(leaf.view) == Contents(old(leaf.view)) + multiset{b}
    ensures leaf.view.Leaf? && BlockInserted(old(leaf.view.blocks), b, leaf.view.blocks)
  {
    hide IsHull, Arranged, Place;
    AddBlock(leaf, b);
    UpdateBB(leaf);
  }

  /** Only `leaf` changed, perhaps splitting off the new leaf `q`. */
  twostate predicate LeafChanged(new s: Start)
    requires var n, r, l := s.nodes, s.root, s.leaf; old(allocated(n)) && old(allocated(r)) && old(allocated(l))
    reads s.nodes, s.leaf, s.q, s.root
  {
    var leaf, q, nodes := s.leaf, s.q, s.nodes;
    && leaf in nodes && leaf.level == 0 && q !in nodes && leaf.Typed()
    && (q != null ==> q.Typed() && q.level == 0 && q.parent == null)
    && (forall m: Node :: m in nodes ==> m.level == old(m.level) && m.parent == old(m.parent))
    && (forall m: Node :: m in nodes && m != leaf ==>
          m.count == old(m.count) && m.branches == old(m.branches) && m.view == old(m.view) && m.rect == old(m.rect))
  }

  twostate lemma BegunParents(new s: Start)
    requires var n, r, l := s.nodes, s.root, s.leaf; old(allocated(n)) && old(allocated(r)) && old(allocated(l))
    requires var n, r := s.nodes, s.root; old(Whole(n, r))
    requires LeafChanged(s)
    ensures forall n :: n in s.Nodes() ==> ParentLinked(n, s.Nodes(), s.root, s.q)
  {
    hide Distinct, WellFormed, WellFormedRoot, Node.Mirrors, Node.Children, KidsLinked, Node.Blockless;
    var leaf, root, nodes, S := s.leaf, s.root, s.nodes, s.Nodes();
    forall n: Node | n in nodes ensures ParentLinked(n, S, root, s.q) {
      assert old(Linked(n, nodes, root, null));
      if n != root {
        var o := n.parent;
        assert o == old(n.parent) && o != leaf && old(o.Typed());
        o.TypedFrame();
      }
    }
  }

  twostate lemma BegunKids(new s: Start)
    requires var n, r, l := s.nodes, s.root, s.leaf; old(allocated(n)) && old(allocated(r)) && old(allocated(l))
    requires var n, r := s.nodes, s.root; old(Whole(n, r))
    requires LeafChanged(s)
    ensures forall n :: n in s.Nodes() ==> KidsLinked(n, s.Nodes()) && 0 <= n.level <= s.root.level
  {
    hide Distinct, WellFormed, WellFormedRoot, Node.Mirrors, Node.Children, ParentLinked, Node.Blockless;
    var leaf, root, nodes, S := s.leaf, s.root, s.nodes, s.Nodes();
    assert old(Linked(leaf, nodes, root, null));
    forall n: Node | n in nodes ensures KidsLinked(n, S) && 0 <= n.level <= root.level {
      assert old(Linked(n, nodes, root, null));
      if n != leaf { n.TypedFrame(); }
    }
  }

  twostate lemma BegunViews(new s: Start)
    requires var n, r, l := s.nodes, s.root, s.leaf; old(allocated(n)) && old(allocated(r)) && old(allocated(l))
    requires var n, r := s.nodes, s.root; old(Whole(n, r))
    requires LeafChanged(s)
    requires Shapely(s.leaf, s.root)
    ensures forall n: Node :: n in s.nodes && n != s.leaf && n != s.leaf.parent ==> n.Mirrors()
    ensures forall n: Node :: n in s.nodes ==> Shapely(n, s.root)
    ensures var leaf := s.leaf; leaf.parent != null ==> MirrorsBut(leaf.parent, leaf, old(leaf.view))
  {
    hide IsHull, Distinct, WellFormed, WellFormedRoot, Node.Mirrors, MirrorsBut, Node.Children, Node.Blockless;
    var leaf, root, nodes := s.leaf, s.root, s.nodes;
    assert old(Linked(leaf, nodes, root, null));
    forall n | n in nodes ensures Shapely(n, root) {
      assert old(Shapely(n, root));
    }
    forall n: Node | n in nodes && n != leaf && n != leaf.parent ensures n.Mirrors() {
      assert old(Linked(n, nodes, root, null)) && old(n.Mirrors());
      assert forall m: Node :: m in old(n.Children()) ==> m in nodes && m != leaf;
      n.MirrorsFrame();
    }
    if leaf != root {
      assert old(Linked(leaf.parent, nodes, root, null)) && old(leaf.parent.Mirrors());
      StaleParent(leaf);
    }
  }

  /** An insertion that changed one leaf is a climb about to start there. */
  twostate lemma Begun(new s: Start)
    requires var n, r, l := s.nodes, s.root, s.leaf; old(allocated(n)) && old(allocated(r)) && old(allocated(l))
    requires var n, r := s.nodes, s.root; old(Whole(n, r))
    requires LeafChanged(s)
    requires s.leaf.Mirrors() && Shapely(s.leaf, s.root)
    requires s.q != null ==> s.q.Mirrors() && WellFormed(s.q.view) && WellFormed(s.leaf.view)
    ensures var leaf := s.leaf; Climbing(s.Climbed(old(leaf.view)))
  {
    hide IsHull, Distinct, WellFormed, WellFormedRoot, Node.Mirrors, MirrorsBut, Node.Children, KidsLinked, ParentLinked, Node.Blockless;
    BegunParents(s);
    BegunKids(s);
    BegunViews(s);
    var leaf, root, nodes := s.leaf, s.root, s.nodes;
    assert old(Linked(leaf, nodes, root, null));
  }

  /** At the root with no sibling left over, the climb is complete. */
  lemma Landed(c: Climb)
    requires Climbing(c) && c.cur == c.root && c.extra == null
    ensures Whole(c.nodes, c.root)
  {
    hide IsHull, Distinct, WellFormed, WellFormedRoot, Node.Mirrors, MirrorsBut, Node.Children, Node.Blockless;
    assert Linked(c.root, c.nodes, c.root, null);
  }

  /** A new root over the two halves of the old one. */
  twostate predicate Topped(new t: Top)
    requires var c := t.c; old(allocated(c))
    reads t.c.nodes, t.c.root, t.c.extra, t.newr
  {
    var c, newr := t.c, t.newr;
    && c.extra != null && newr !in c.nodes && newr.Typed() && newr.parent == null && newr.level == c.root.level + 1
    && c.root in newr.Children() && c.extra in newr.Children()
    && (forall m: Node :: m in newr.Children() ==> m == c.root || m == c.extra)
    && c.root.parent == newr && c.extra.parent == newr
    && (forall m: Node :: m in c.nodes && m != c.root && m != c.extra ==> m.parent == old(m.parent))
    && (forall m: Node :: m in c.nodes ==>
          m.level == old(m.level) && m.count == old(m.count) && m.branches == old(m.branches) && m.view == old(m.view) && m.rect == old(m.rect))
  }

  twostate lemma GrownParents(new t: Top)
    requires var c := t.c; old(allocated(c)) && old(Webbed(c)) && c.cur == c.root
    requires Topped(t)
    ensures forall n: Node :: n in t.c.nodes ==>
      ParentLinked(n, t.c.nodes + {t.newr}, t.newr, null) && 0 <= n.level <= t.newr.level
  {
    hide Distinct, Node.Children, KidsLinked, Node.Blockless;
    var c, newr := t.c, t.newr;
    var S := c.nodes + {newr};
    assert old(ParentLinked(c.root, c.nodes, c.root, c.extra)) && old(ParentLinked(c.extra, c.nodes, c.root, c.extra));
    forall n: Node | n in c.nodes ensures ParentLinked(n, S, newr, null) && 0 <= n.level <= newr.level {
      assert old(ParentLinked(n, c.nodes, c.root, c.extra));
      if n != c.root && n != c.extra {
        var o := n.parent;
        assert o == old(n.parent) && old(o.Typed());
        o.TypedFrame();
      }
    }
  }

  twostate lemma GrownKids(new t: Top)
    requires var c := t.c; old(allocated(c)) && old(Webbed(c)) && c.cur == c.root
    requires Topped(t)
    ensures forall n: Node :: n in t.c.nodes && n.level >= t.c.floor ==> KidsLinked(n, t.c.nodes + {t.newr})
  {
    hide Distinct, Node.Children, Node.Blockless;
    var c, newr := t.c, t.newr;
    var S := c.nodes + {newr};
    assert old(ParentLinked(c.root, c.nodes, c.root, c.extra)) && old(ParentLinked(c.extra, c.nodes, c.root, c.extra));
    forall n: Node | n in c.nodes && n.level >= c.floor ensures KidsLinked(n, S) {
      assert old(KidsLinked(n, c.nodes));
      n.TypedFrame();
      assert n.level > 0 ==> forall m: Node :: m in old(n.Children()) ==> m in c.nodes && old(m.parent) == n && m != c.root && m != c.extra;
    }
  }

  twostate lemma GrownViews(new t: Top)
    requires var c := t.c; old(allocated(c)) && old(Climbing(c)) && c.cur == c.root
    requires Topped(t)
    ensures forall n: Node :: n in t.c.nodes ==> n.Mirrors() && WellFormed(n.view)
  {
    hide Distinct, WellFormedRoot, WellFormed, Node.Mirrors, MirrorsBut, Node.Children, Node.Blockless;
    var c := t.c;
    assert old(Linked(c.root, c.nodes, c.root, c.extra));
    forall n: Node | n in c.nodes ensures n.Mirrors() && WellFormed(n.view) {
      assert old(Linked(n, c.nodes, c.root, c.extra)) && old(n.Mirrors()) && old(Shapely(n, c.root));
      n.MirrorsFrame();
    }
  }

  twostate lemma GrownRoot(new t: Top)
    requires var c := t.c; old(allocated(c)) && old(Webbed(c)) && c.cur == c.root
    requires Topped(t)
    requires KidsLinked(t.newr, t.c.nodes)
    ensures KidsLinked(t.newr, t.c.nodes + {t.newr})
    ensures ParentLinked(t.newr, t.c.nodes + {t.newr}, t.newr, null) && t.newr.level >= 0
  {
    assert 0 <= t.c.root.level;
  }

  /** A root that was split is whole again under its new parent. */
  twostate lemma Grown(new t: Top)
    requires var c := t.c; old(allocated(c)) && old(Climbing(c)) && c.cur == c.root
    requires Topped(t)
    requires KidsLinked(t.newr, t.c.nodes) && t.newr.Mirrors() && WellFormedRoot(t.newr.view)
    ensures Whole(t.c.nodes + {t.newr}, t.newr)
  {
    hide Distinct, WellFormedRoot, WellFormed, Node.Mirrors, MirrorsBut, Node.Children, ParentLinked, KidsLinked, Node.Blockless;
    GrownParents(t);
    GrownKids(t);
    GrownViews(t);
    GrownRoot(t);
  }

  /** The new root over two nodes of the same level. */
  method JoinUnder(leaf: Node, newleaf: Node) returns (newr: Node)
    requires leaf != newleaf && leaf.level == newleaf.level >= 0
    requires leaf.view.rect == leaf.rect && newleaf.view.rect == newleaf.rect
    modifies leaf`parent, leaf`level, newleaf`parent, newleaf`level
    ensures fresh(newr) && newr.parent == null && newr.level == leaf.level + 1
    ensures leaf.level == newleaf.level == old(leaf.level) && leaf.parent == newleaf.parent == newr
    ensures newr.Mirrors() && newr.Typed() && newr.count == 2 && newr.view.Inner? && newr.view.height == newr.level
    ensures forall m :: m in newr.Children() <==> m == leaf || m == newleaf
    ensures multiset(newr.view.kids) == multiset{leaf.view, newleaf.view} && newr.view.rect == newr.rect
  {
    hide IsHull, Shaped, Distinct, WellFormed, WellFormedRoot, Node.Mirrors, KidInserted, Contents;
    newr := new Node(leaf.level + 1);
    EmptyMirrors(newr);
    assert newr.Children() == [] && newr.view.kids == [];
    AddChild(newr, leaf);
    AddChild(newr, newleaf);
    InnerView(newr);
    ghost var cs := newr.Children();
    UpdateBB(newr);
    assert newr.Children() == cs;
  }

  lemma TopShape(t: Tree, a: Tree, b: Tree)
    requires t.Inner? && multiset(t.kids) == multiset{a, b}
    requires WellFormed(a) && WellFormed(b) && a.Level() == b.Level() == t.height - 1 >= 0
    ensures WellFormedRoot(t) && t.Size() == 2
    ensures Contents(t) == Contents(a) + Contents(b)
  {
    hide WellFormed, Contents, Shaped;
    TwoKids(t.kids, a, b);
    SumIs(t);
    ShapedFrom(t);
  }

  lemma ShapedFrom(t: Tree)
    requires t.Inner? && t.height > 0 && forall k :: k in t.kids ==> WellFormed(k) && k.Level() == t.height - 1
    ensures Shaped(t)
  {
    hide WellFormed;
  }

  lemma TwoKids(kids: seq<Tree>, a: Tree, b: Tree)
    requires multiset(kids) == multiset{a, b}
    ensures |kids| == 2 && (forall k :: k in kids ==> k == a || k == b)
    ensures Sum(kids) == Contents(a) + Contents(b)
  {
    hide Contents, Sum;
    assert |kids| == |multiset(kids)|;
    assert multiset([a, b]) == multiset{a, b};
    SumPermute(kids, [a, b]);
    SumOfTwo(a, b);
    forall k | k in kids ensures k == a || k == b {
      assert k in multiset(kids);
    }
  }

  lemma SumOfTwo(a: Tree, b: Tree)
    ensures Sum([a, b]) == Contents(a) + Contents(b)
  {
    hide Contents;
    SumAppend([a], [b]);
    SumOfOne(a);
    SumOfOne(b);
    assert [a] + [b] == [a, b];
  }

  lemma SumOfOne(a: Tree)
    ensures Sum([a]) == Contents(a)
  {
    hide Contents;
  }
}
