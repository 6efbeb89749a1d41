/** The upward pass of a removal, which drops an underfull leaf and tightens boxes, and
    the shortening of the root (updown/libraries/dramalloc/rtree.cpp:494-531). */
module Condense {
  import opened Climbs
  import opened Nodes
  import opened Rects
  import opened Seqs
  import opened TreeModel

  /** The state in which `cur` holds fewer entries than before, with its old box, and the
      nodes above still stand for what they stood for before. */
  ghost predicate Sinking(c: Climb)
    reads c.nodes
  {
    && Webbed(c) && c.extra == null && c.floor == 0
    && (forall n :: n in c.nodes && n != c.cur.parent ==> n.Mirrors())
    && (c.cur.parent != null ==> MirrorsBut(c.cur.parent, c.cur, c.stale))
    && (forall n :: n in c.nodes && n != c.cur ==> Shapely(n, c.root))
    && Shaped(c.cur.view) && c.cur.view.Size() <= MAXNODES
  }

  /** One step: `cur` was changed in place or, when `gone` is not empty, left the tree with
      the subtree `gone`; the parent `p` took note.  Nothing else changed. */
  datatype Sink = Sink(c: Climb, p: Node, gone: set<Node>)
  {
    function Nodes(): set<Node> { c.nodes - gone }

    function Next(v: Tree): Climb { Climb(Nodes(), c.root, p, null, v, 0) }
  }

  /** `gone` is `cur` with everything below it. */
  ghost predicate CutOff(c: Climb, gone: set<Node>)
    reads c.nodes
  {
    && c.cur in gone && gone <= c.nodes && c.cur.parent !in gone && c.root !in gone
    && (forall m: Node :: m in c.nodes && m != c.root && m !in gone ==> m.parent !in gone)
    && (forall m: Node :: m in gone && m != c.cur ==> m.parent in gone)
  }

  /** Does climbing from `m` lead to `n`? */
  ghost predicate Below(m: Node, n: Node, S: set<Node>)
    reads S, m, n
    decreases n.level - m.level
  {
    m == n || (m.level < n.level && m.parent != null && m.parent in S && m.level < m.parent.level && Below(m.parent, n, S))
  }

  lemma SubtreeCutOff(c: Climb) returns (gone: set<Node>)
    requires Sinking(c) && c.cur != c.root
    ensures CutOff(c, gone)
  {
    hide Node.Mirrors, MirrorsBut, Shaped, WellFormed, WellFormedRoot, KidsLinked, Node.Children, Node.Blockless;
    assert Linked(c.cur, c.nodes, c.root, null) && Linked(c.cur.parent, c.nodes, c.root, null);
    assert Linked(c.root, c.nodes, c.root, null);
    gone := set m | m in c.nodes && Below(m, c.cur, c.nodes);
    forall m: Node | m in c.nodes && m != c.root && m !in gone ensures m.parent !in gone {
      assert Linked(m, c.nodes, c.root, null);
      BelowLevel(m.parent, c.cur, c.nodes);
    }
    BelowLevel(c.root, c.cur, c.nodes);
    BelowLevel(c.cur.parent, c.cur, c.nodes);
  }

  lemma BelowLevel(m: Node, n: Node, S: set<Node>)
    ensures Below(m, n, S) ==> m == n || m.level < n.level
  {
  }

  twostate predicate Noted(k: Sink)
    reads k.c.nodes
  {
    var c, p, cur := k.c, k.p, k.c.cur;
    && p in c.nodes && cur in c.nodes && p == old(cur.parent) && p != cur && p.Typed() && old(p.Typed()) && p.level > 0
    && (k.gone == {} || old(CutOff(c, k.gone)))
    && (forall m: Node :: m in c.nodes ==> m.level == old(m.level) && m.parent == old(m.parent))
    && (forall m: Node :: m in c.nodes && m != p ==> m.count == old(m.count) && m.branches == old(m.branches))
    && (forall m: Node :: m in c.nodes && m != p && m != cur ==> m.view == old(m.view) && m.rect == old(m.rect))
    && (forall m: Node :: m in old(p.Children()) ==> m in p.Children() || (k.gone != {} && m == cur))
    && (forall m: Node :: m in p.Children() ==> m in old(p.Children()) && (k.gone != {} ==> m != cur))
  }

  twostate lemma NotedParents(k: Sink)
    requires old(Webbed(k.c)) && k.c.floor == 0 && k.c.extra == null && Noted(k)
    ensures forall n :: n in k.Nodes() ==> ParentLinked(n, k.Nodes(), k.c.root, null)
  {
    hide Distinct, Node.Children, Node.Blockless;
    var c, p := k.c, k.p;
    hide KidsLinked, Node.Blockless;
    assert old(KidsLinked(p, c.nodes)) by { assert old(Linked(c.cur, c.nodes, c.root, null)) && old(Linked(p, c.nodes, c.root, null)); }
    forall n: Node | n in k.Nodes() ensures ParentLinked(n, k.Nodes(), c.root, null) {
      assert old(Linked(n, c.nodes, c.root, null));
      if n != c.root {
        var o := n.parent;
        assert old(Linked(o, c.nodes, c.root, null)) && n in old(o.Children());
        if o != p { o.TypedFrame(); }
      }
    }
  }

  twostate lemma NotedTyped(k: Sink)
    requires old(Webbed(k.c)) && k.c.floor == 0 && k.c.extra == null && Noted(k)
    ensures forall n: Node :: n in k.c.nodes ==> n.Bounded() && old(n.Bounded()) && n.Typed()
    ensures forall n: Node :: n in k.c.nodes && n != k.p ==> n.Children() == old(n.Children())
  {
    hide Distinct, ParentLinked;
    forall n: Node | n in k.c.nodes
      ensures n.Bounded() && old(n.Bounded()) && n.Typed() && (n != k.p ==> n.Children() == old(n.Children()))
    {
      assert old(KidsLinked(n, k.c.nodes));
      if n != k.p { n.TypedFrame(); }
    }
  }

  twostate lemma NotedKids(k: Sink)
    requires old(Webbed(k.c)) && k.c.floor == 0 && k.c.extra == null && Noted(k)
    ensures forall n :: n in k.Nodes() ==> KidsLinked(n, k.Nodes()) && n.level <= k.c.root.level
    ensures k.c.root in k.Nodes()
  {
    hide Distinct, Node.Children, Node.Typed;
    var c, p := k.c, k.p;
    NotedTyped(k);
    assert old(Linked(c.cur, c.nodes, c.root, null)) && old(Linked(p, c.nodes, c.root, null));
    assert old(Linked(c.root, c.nodes, c.root, null));
    forall n: Node | n in k.Nodes() ensures KidsLinked(n, k.Nodes()) && n.level <= c.root.level {
      assert old(Linked(n, c.nodes, c.root, null));
      assert n.level > 0 ==> forall m: Node :: m in n.Children() ==> m in c.nodes && old(m.parent) == n;
    }
  }

  twostate lemma NotedViews(k: Sink)
    requires old(Sinking(k.c)) && Noted(k) && k.c.cur != k.c.root
    requires k.gone == {} ==> k.c.cur.Mirrors()
    ensures forall n: Node :: n in k.Nodes() && n != k.p && n != k.p.parent ==> n.Mirrors()
    ensures var p := k.p; p.parent != null ==> MirrorsBut(p.parent, p, old(p.view))
  {
    hide Distinct, Node.Children, Node.Mirrors, MirrorsBut, WellFormed, WellFormedRoot, Shaped, Node.Blockless;
    var c, p := k.c, k.p;
    assert old(Linked(c.cur, c.nodes, c.root, null)) && old(Linked(p, c.nodes, c.root, null));
    forall n: Node | n in k.Nodes() && n != p && n != p.parent ensures n.Mirrors() {
      assert old(Linked(n, c.nodes, c.root, null));
      if n != c.cur {
        assert forall m: Node :: m in old(n.Children()) ==> m in c.nodes && m != p && m != c.cur;
        n.MirrorsFrame();
      }
    }
    if p != c.root {
      assert old(Linked(p.parent, c.nodes, c.root, null));
      assert forall m: Node :: m in old(p.parent.Children()) ==> m in c.nodes && m != c.cur;
      StaleParent(p);
    }
  }

  /** After the step the pass goes on at `p`. */
  twostate lemma Sank(k: Sink)
    requires old(Sinking(k.c)) && Noted(k) && k.c.cur != k.c.root
    requires k.gone == {} ==> k.c.cur.Mirrors() && WellFormed(k.c.cur.view)
    requires k.p.Mirrors() && Shaped(k.p.view) && k.p.view.Size() <= MAXNODES
    ensures var p := k.p; Sinking(k.Next(old(p.view)))
  {
    hide Distinct, Node.Children, Node.Mirrors, MirrorsBut, WellFormed, WellFormedRoot, Shaped, KidsLinked, ParentLinked, Node.Blockless;
    NotedParents(k);
    NotedKids(k);
    NotedViews(k);
    var c, p := k.c, k.p;
    assert old(Linked(p, c.nodes, c.root, null));
    forall n | n in k.Nodes() && n != p ensures Shapely(n, c.root) {
      if n != c.cur { assert old(Shapely(n, c.root)); }
    }
    var d := k.Next(old(p.view));
    assert Webbed(d);
  }

  /** What a step relies on. */
  lemma SinkFacts(c: Climb)
    requires Sinking(c) && c.cur != c.root
    ensures var p := c.cur.parent;
      && p != null && p in c.nodes && c.cur in c.nodes && p != c.cur && 0 < p.level <= c.root.level
      && p.level == c.cur.level + 1
      && p.Typed() && c.cur in p.Children() && p !in p.Children()
      && MirrorsBut(p, c.cur, c.stale) && p.view.Inner? && p.view.height == p.level && |p.view.kids| == p.count
      && Shaped(p.view) && 1 <= p.count <= MAXNODES && (p != c.root ==> MINNODES <= p.count)
    ensures c.cur.Mirrors() && c.cur.Typed() && c.cur.view.rect == c.cur.rect && c.cur !in c.cur.Children() && c.cur.parent !in c.cur.Children()
    ensures c.cur.view.Level() == c.cur.level && c.cur.view.Size() == c.cur.count
  {
    hide IsHull, Distinct;
    assert Linked(c.cur, c.nodes, c.root, null) && Linked(c.cur.parent, c.nodes, c.root, null);
    assert Shapely(c.cur.parent, c.root);
  }

  /** The node below keeps enough entries: tighten its box and tell its parent. */
  method KeepStep(cur: Node, ghost c: Climb) returns (p: Node, ghost k: Sink)
    requires Sinking(c) && cur == c.cur && cur != c.root && cur.count >= MINNODES
    modifies c.nodes
    ensures p == old(cur.parent) && k == Sink(c, p, {}) && Sinking(k.Next(old(cur.parent.view)))
    ensures Contents(p.view) + Contents(c.stale) == Contents(old(cur.parent.view)) + Contents(old(cur.view))
    ensures forall n :: n in c.nodes ==> n.level == old(n.level) && n.count == old(n.count)
    ensures forall n :: n in c.nodes && n != p && n != cur ==> n.view == old(n.view)
    ensures p.level == cur.level + 1
  {
    hide IsHull, Distinct, Shaped, WellFormed, WellFormedRoot, Sinking, Node.Mirrors, MirrorsBut, Node.Children, Contents;
    SinkFacts(c);
    p := cur.parent;
    ghost var before, cv, cs, ps := p.view, cur.view, cur.Children(), p.Children();
    assert Shaped(cv) by { SinkShaped(c); }
    UpdateBB(cur);
    WithRectShape(cv, cur.rect);
    WithRectKeepsEntries(cv, cur.rect);
    StillBut(c);
    assert cur.Children() == cs;
    label Boxed:
    Resync(p, cur, c.stale);
    assert p.Children() == ps && cur.Children() == cs;
    cur.MirrorsFrame@Boxed();
    ExchangeShape(before, p.view, cur.view);
    k := Sink(c, p, {});
    Sank(k);
  }

  /** `removeChild`, with the view of the parent brought up to date. */
  method DropChild(p: Node, cur: Node, ghost stale: Tree)
    requires MirrorsBut(p, cur, stale) && cur in p.Children() && p != cur && p !in p.Children()
    requires p.level > 0 && p.Typed() && Shaped(p.view) && cur.view.rect == cur.rect
    modifies p`branches, p`count, p`view
    ensures p.Mirrors() && p.Typed() && p.count == old(p.count) - 1
    ensures forall m :: m in p.Children() <==> m in old(p.Children()) && m != cur
    ensures p.view.Inner? && Shaped(p.view) && p.view.Size() == p.count
    ensures Contents(p.view) + Contents(stale) == Contents(old(p.view))
  {
    hide IsHull, Distinct, Shaped, WellFormed, Node.Mirrors, Node.Children, Contents, Node.Blockless;
    ghost var before, ps := p.view, p.Children();
    BeforeDrop(p, cur, stale);
    Resync(p, cur, stale);
    assert p.Children() == ps;
    ghost var middle := p.view;
    RemoveChild(p, cur);
    Dropped(before, middle, p.view, cur.view, stale, ps, cur);
  }

  lemma BeforeDrop(p: Node, cur: Node, stale: Tree)
    requires MirrorsBut(p, cur, stale)
    ensures p.view.Inner? && |p.view.kids| == p.count && Distinct(p.Children()) && p.view.height == p.level
  {
  }

  /** The node below has too few entries: its parent drops it. */
  method DropStep(cur: Node, ghost c: Climb) returns (p: Node, ghost k: Sink)
    requires Sinking(c) && cur == c.cur && cur != c.root
    modifies c.nodes
    ensures p == old(cur.parent) && k.c == c && k.p == p && Sinking(k.Next(old(cur.parent.view)))
    ensures Contents(p.view) + Contents(c.stale) == Contents(old(cur.parent.view))
    ensures forall n :: n in c.nodes ==> n.level == old(n.level)
    ensures forall n :: n in c.nodes && n != p ==> n.count == old(n.count) && n.view == old(n.view) && n.branches == old(n.branches)
    ensures p.level == cur.level + 1 && p.count == old(cur.parent.count) - 1
    ensures cur !in k.Nodes() && (forall n :: n in k.Nodes() ==> n in c.nodes) && cur.Mirrors() && cur.Typed()
    ensures cur.rect == old(cur.rect) && cur in c.nodes && cur.view.rect == cur.rect
  {
    hide IsHull, Distinct, Shaped, WellFormed, WellFormedRoot, Sinking, Node.Mirrors, MirrorsBut, Node.Children, Contents, Node.Blockless;
    SinkFacts(c);
    ghost var gone := SubtreeCutOff(c);
    p := cur.parent;
    k := Sink(c, p, gone);
    DropChild(p, cur, c.stale);
    cur.MirrorsFrame();
    Sank(k);
  }

  lemma WithoutUpdated<T>(s: seq<T>, k: nat, x: T)
    requires k < |s|
    ensures Without(s[k := x], k) == Without(s, k)
  {
  }

  lemma FewerShaped(t: Tree, u: Tree)
    requires t.Inner? && u.Inner? && t.height == u.height && Shaped(t) && forall k :: k in u.kids ==> k in t.kids
    ensures Shaped(u)
  {
    hide WellFormed;
  }

  lemma Dropped(before: Tree, middle: Tree, after: Tree, v: Tree, stale: Tree, cs: seq<Node?>, cur: Node)
    requires before.Inner? && middle.Inner? && after.Inner? && before.height == middle.height == after.height
    requires Shaped(before) && Distinct(cs) && |cs| == |before.kids|
    requires exists k :: 0 <= k < |cs| && cs[k] == cur && middle.kids == before.kids[k := v] && before.kids[k] == stale
    requires exists k :: 0 <= k < |cs| && k < |middle.kids| && cs[k] == cur && after.kids == Without(middle.kids, k)
    ensures Shaped(after)
    ensures Contents(after) + Contents(stale) == Contents(before)
  {
    hide IsHull, WellFormed, Contents, Shaped;
    var k :| 0 <= k < |cs| && cs[k] == cur && middle.kids == before.kids[k := v] && before.kids[k] == stale;
    var j :| 0 <= j < |cs| && j < |middle.kids| && cs[j] == cur && after.kids == Without(middle.kids, j);
    assert j == k;
    WithoutUpdated(before.kids, k, v);
    WithoutMultiset(before.kids, k);
    SumRemove(before.kids, k);
    SumIs(before);
    SumIs(after);
    FewerShaped(before, after);
  }

  /** Changing `cur` alone leaves its parent waiting with the stale view. */
  twostate lemma StillBut(c: Climb)
    requires c.cur.parent != null && c.cur.parent == old(c.cur.parent) && c.cur.parent != c.cur
    requires old(MirrorsBut(c.cur.parent, c.cur, c.stale))
    requires var p := c.cur.parent;
      p.level == old(p.level) && p.count == old(p.count) && p.branches == old(p.branches) && p.view == old(p.view) && p.rect == old(p.rect)
    requires var p := c.cur.parent;
      forall m: Node :: m in old(p.Children()) && m != c.cur ==> m.view == old(m.view) && m.rect == old(m.rect)
    ensures MirrorsBut(c.cur.parent, c.cur, c.stale)
  {
    var p := c.cur.parent;
    assert p.Children() == old(p.Children());
    forall i | 0 <= i < p.count ensures
      if p.branches[i].child == c.cur then p.view.kids[i] == c.stale
      else Node.MirrorsChild(p.branches[i].child, p.view.kids[i])
    {
      assert p.Children()[i] == p.branches[i].child;
    }
  }

  lemma SinkShaped(c: Climb)
    requires Sinking(c)
    ensures Shaped(c.cur.view)
  {
  }

  /** At the root the pass is complete. */
  lemma Settled(c: Climb)
    requires Sinking(c) && c.cur == c.root
    requires c.root.level > 0 ==> c.root.count >= 1
    ensures Whole(c.nodes, c.root)
  {
    hide IsHull, Distinct, WellFormed, Node.Children, Node.Blockless;
    assert Linked(c.root, c.nodes, c.root, null) && c.root.Mirrors();
  }

  /** A removal that changed one leaf is a pass about to start there. */
  twostate lemma Removed(s: Start)
    requires s.q == null && old(Whole(s.nodes, s.root)) && LeafChanged(s)
    requires s.leaf.Mirrors() && Shaped(s.leaf.view) && s.leaf.view.Size() <= MAXNODES
    ensures Sinking(s.Climbed(old(s.leaf.view)))
  {
    hide Distinct, WellFormed, WellFormedRoot, Node.Mirrors, MirrorsBut, Node.Children, KidsLinked, ParentLinked, Node.Blockless;
    BegunParents(s);
    BegunKids(s);
    var leaf, root, nodes := s.leaf, s.root, s.nodes;
    assert old(Linked(leaf, nodes, root, null));
    forall n | n in nodes && n != leaf ensures Shapely(n, root) {
      assert old(Shapely(n, root));
    }
    RemovedViews(s);
  }

  twostate lemma RemovedViews(s: Start)
    requires s.q == null && old(Whole(s.nodes, s.root)) && LeafChanged(s)
    ensures forall n: Node :: n in s.nodes && n != s.leaf && n != s.leaf.parent ==> n.Mirrors()
    ensures var leaf := s.leaf; leaf.parent != null ==> MirrorsBut(leaf.parent, leaf, old(leaf.view))
  {
    hide Distinct, WellFormed, WellFormedRoot, Node.Mirrors, MirrorsBut, Node.Children, Node.Blockless;
    var leaf, root, nodes := s.leaf, s.root, s.nodes;
    assert old(Linked(leaf, nodes, root, null));
    forall n: Node | n in nodes && n != leaf && n != leaf.parent ensures n.Mirrors() {
      assert old(Linked(n, nodes, root, null)) && old(n.Mirrors());
      assert forall m: Node :: m in old(n.Children()) ==> m in nodes && m != leaf;
      n.MirrorsFrame();
    }
    if leaf != root {
      assert old(Linked(leaf.parent, nodes, root, null)) && old(leaf.parent.Mirrors());
      StaleParent(leaf);
    }
  }

  /** The only child of the root `oldr` takes its place and its box. */
  twostate predicate Promoted(h: Promotion)
    reads h.nodes
  {
    var r, oldr, nodes := h.newr, h.oldr, h.nodes;
    && r in nodes && oldr in nodes && oldr.level > 0 && oldr.count == 1
    && old(oldr.Bounded()) && old(oldr.Children()) == [r]
    && r.parent == null
    && (forall m: Node :: m in nodes ==> m.level == old(m.level) && m.count == old(m.count) && m.branches == old(m.branches))
    && (forall m: Node :: m in nodes && m != r ==> m.parent == old(m.parent) && m.view == old(m.view) && m.rect == old(m.rect))
  }

  datatype Promotion = Promotion(nodes: set<Node>, oldr: Node, newr: Node)

  twostate lemma PromotedParents(h: Promotion)
    requires old(Whole(h.nodes, h.oldr)) && Promoted(h)
    ensures forall n :: n in h.nodes && n != h.oldr ==> ParentLinked(n, h.nodes - {h.oldr}, h.newr, null)
    ensures h.newr != h.oldr
  {
    hide Distinct, WellFormed, WellFormedRoot, Node.Mirrors, Node.Children, Node.Blockless;
    var S, r, oldr, nodes := h.nodes - {h.oldr}, h.newr, h.oldr, h.nodes;
    assert old(Linked(oldr, nodes, oldr, null)) && old(Linked(r, nodes, oldr, null));
    assert r in old(oldr.Children());
    forall n: Node | n in nodes && n != oldr ensures ParentLinked(n, S, r, null) {
      assert old(Linked(n, nodes, oldr, null));
      if n != r {
        var o := n.parent;
        assert old(Linked(o, nodes, oldr, null));
        o.TypedFrame();
        assert o != oldr;
      }
    }
  }

  twostate lemma PromotedDown(h: Promotion)
    requires old(Whole(h.nodes, h.oldr)) && Promoted(h)
    ensures forall n :: n in h.nodes && n != h.oldr ==> KidsLinked(n, h.nodes - {h.oldr}) && n.level <= h.newr.level
  {
    hide Distinct, WellFormed, WellFormedRoot, Node.Mirrors, Node.Children, Node.Blockless;
    var S, r, oldr, nodes := h.nodes - {h.oldr}, h.newr, h.oldr, h.nodes;
    PromotedKids(h);
    PromotedLevels(h);
    forall n: Node | n in nodes && n != oldr ensures KidsLinked(n, S) {
      assert old(Linked(n, nodes, oldr, null));
      n.TypedFrame();
    }
  }

  twostate lemma PromotedLevels(h: Promotion)
    requires old(Whole(h.nodes, h.oldr)) && Promoted(h)
    ensures forall n :: n in h.nodes && n != h.oldr ==> n.level <= h.newr.level
  {
    hide Distinct, WellFormed, WellFormedRoot, Node.Mirrors, Node.Children, Node.Blockless;
    var r, oldr, nodes := h.newr, h.oldr, h.nodes;
    assert old(Linked(oldr, nodes, oldr, null)) && old(Linked(r, nodes, oldr, null));
    forall n: Node | n in nodes && n != oldr ensures n.level <= r.level {
      assert old(Linked(n, nodes, oldr, null));
      if n != r { assert old(Linked(n.parent, nodes, oldr, null)); }
    }
  }

  /** Shortening keeps the tree whole. */
  twostate lemma Shortened(h: Promotion)
    requires old(Whole(h.nodes, h.oldr)) && Promoted(h)
    requires h.newr.Mirrors() && WellFormedRoot(h.newr.view)
    ensures Whole(h.nodes - {h.oldr}, h.newr)
  {
    hide Distinct, WellFormed, WellFormedRoot, Node.Mirrors, Node.Children, KidsLinked, ParentLinked, Node.Blockless;
    PromotedParents(h);
    PromotedDown(h);
    PromotedKids(h);
    var r, oldr, nodes := h.newr, h.oldr, h.nodes;
    forall n: Node | n in nodes && n != oldr && n != r ensures n.Mirrors() && Shapely(n, r) {
      assert old(Linked(n, nodes, oldr, null)) && old(n.Mirrors()) && old(Shapely(n, oldr));
      n.MirrorsFrame();
    }
  }

  twostate lemma PromotedKids(h: Promotion)
    requires old(Whole(h.nodes, h.oldr)) && Promoted(h)
    ensures forall n: Node :: n in h.nodes && n != h.oldr && n.level > 0 ==>
      forall m: Node :: m in old(n.Children()) ==> m in h.nodes && m != h.newr
  {
    hide Distinct, WellFormed, WellFormedRoot, Node.Mirrors, Node.Children, Node.Blockless;
    var r, oldr, nodes := h.newr, h.oldr, h.nodes;
    assert old(Linked(oldr, nodes, oldr, null)) && old(r.parent) == oldr;
    forall n: Node | n in nodes && n != oldr && n.level > 0
      ensures forall m: Node :: m in old(n.Children()) ==> m in nodes && m != r
    {
      assert old(Linked(n, nodes, oldr, null));
    }
  }
}
