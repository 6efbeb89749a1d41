/** Re-attaching an inner node that a removal left with one child.  The node becomes a
    child of a node of its own level, and with that a level lower than its entries call
    for (updown/libraries/dramalloc/rtree.cpp:58, 426-474). */
module Reinserts {
  import opened Climbs
  import opened Nodes
  import opened Rects
  import opened Seqs
  import opened TreeModel

  /** What survives a re-attachment: all nodes hang below the root and are boxed, and from
      level `f` up they agree with their children on it. */
  ghost predicate Upper(S: set<Node>, root: Node, f: int)
    reads S
  {
    && root in S
    && (forall m: Node :: m in S ==> ParentLinked(m, S, root, null) && 0 <= m.level <= root.level && m.view.rect == m.rect)
    && (forall m: Node :: m in S && m.level >= f ==> KidsLinked(m, S) && m.count >= 1)
  }

  ghost predicate Hoisting(c: Climb)
    reads c.nodes
  {
    && Webbed(c) && c.floor >= 1
    && (forall m: Node :: m in c.nodes ==> m.view.rect == m.rect)
    && (forall m: Node :: m in c.nodes && m.level >= c.floor ==> m.count >= 1)
  }

  /** Lets the view of an inner node agree with its children again. */
  ghost method Remirror(p: Node)
    requires p.Typed() && p.level > 0 && p !in p.Children()
    requires forall m: Node :: m in p.Children() ==> m.view.rect == m.rect
    modifies p`view
    ensures p.Mirrors() && p.view.rect == p.rect && p.view.Inner? && p.view.height == p.level
  {
    var cs: seq<Node> := [];
    for i := 0 to p.count
      invariant |cs| == i && forall j :: 0 <= j < i ==> cs[j] == p.branches[j].child
    {
      cs := cs + [p.branches[i].child];
    }
    assert forall j :: 0 <= j < |cs| ==> cs[j] == p.Children()[j];
    p.view := Inner(p.rect, p.level, Views(cs));
  }

  lemma HoistFacts(c: Climb)
    requires Hoisting(c) && c.cur != c.root
    ensures var p := c.cur.parent;
      && p != null && p in c.nodes && c.cur in c.nodes && c.root in c.nodes && p != c.cur && 0 < p.level <= c.root.level
      && p.level == c.cur.level + 1
      && p.Typed() && c.cur in p.Children() && p !in p.Children() && 1 <= p.count <= MAXNODES
      && (forall m: Node :: m in p.Children() ==> m in c.nodes && m.parent == p && m.level == p.level - 1 && m.view.rect == m.rect)
    ensures c.extra != null ==>
      c.extra in c.nodes && c.extra != c.cur.parent && c.extra !in c.cur.parent.Children() && c.extra.view.rect == c.extra.rect && c.extra.level == c.cur.parent.level - 1
    ensures forall m: Node :: m in c.nodes ==> m.view.rect == m.rect
  {
    hide Distinct;
    assert ParentLinked(c.cur, c.nodes, c.root, c.extra) && KidsLinked(c.cur.parent, c.nodes);
    assert c.extra != null ==> ParentLinked(c.extra, c.nodes, c.root, c.extra);
  }

  lemma HoistFloor(c: Climb)
    requires Hoisting(c)
    ensures c.floor <= c.cur.level && c.cur in c.nodes && c.root in c.nodes
  {
  }

  /** After the rearrangement the climb goes on at `p`. */
  twostate lemma HoistRisen(new l: Lift)
    requires var c, p := l.c, l.p; old(allocated(c)) && old(allocated(p))
    requires var c, p := l.c, l.p; old(Hoisting(c)) && c.cur != c.root && p == old(c.cur.parent)
    requires Rearranged(l)
    requires forall m: Node :: m in l.c.nodes ==> m.view.rect == m.rect
    requires l.p.count >= 1 && (l.q != null ==> l.q.view.rect == l.q.rect && l.q.count >= 1)
    ensures forall v :: Hoisting(l.Next(v))
  {
    hide Webbed;
    RisenLinks(l);
  }

  /** `updateBB` of the parent of `cur`. */
  method RefreshBox(cur: Node, ghost c: Climb) returns (p: Node)
    requires Hoisting(c) && cur == c.cur && cur != c.root
    modifies cur.parent`rect, cur.parent`view
    ensures p == cur.parent && p.Mirrors() && p.Typed() && p.Children() == old(cur.parent.Children())
    ensures p.view.rect == p.rect && p.view.Inner?
  {
    hide IsHull, Distinct, Hoisting, Node.Mirrors;
    HoistFacts(c);
    p := cur.parent;
    Remirror(p);
    UpdateBB(p);
    assert p.Children() == old(cur.parent.Children());
  }

  /** One step up when the node below has no new sibling. */
  method HoistPlain(cur: Node, ghost c: Climb) returns (p: Node, ghost l: Lift)
    requires Hoisting(c) && c.extra == null && cur == c.cur && cur != c.root
    modifies c.nodes
    ensures p == old(cur.parent) && l.c == c && l.p == p && l.q == null
    ensures Hoisting(l.Next(c.stale))
    ensures forall n :: n in c.nodes ==> n.level == old(n.level)
    ensures forall n :: n in c.nodes && n != p ==> n.count == old(n.count) && n.branches == old(n.branches)
  {
    hide Distinct, Hoisting, Node.Mirrors, Node.Children, Node.Blockless;
    HoistFacts(c);
    l := Lift(c, cur.parent, null, set m: Node | m in c.nodes && m in cur.parent.Children());
    p := RefreshBox(cur, c);
    HoistRisen(l);
  }

  /** One step up when the parent has room for the new sibling. */
  method HoistAdd(cur: Node, extra: Node, ghost c: Climb) returns (p: Node, ghost l: Lift)
    requires Hoisting(c) && c.extra == extra && cur == c.cur && cur != c.root
    requires cur.parent.count < MAXNODES
    modifies c.nodes
    ensures p == old(cur.parent) && l.c == c && l.p == p && l.q == null
    ensures Hoisting(l.Next(c.stale))
    ensures forall n :: n in c.nodes ==> n.level == old(n.level)
    ensures forall n :: n in c.nodes && n != p ==> n.count == old(n.count) && n.branches == old(n.branches)
  {
    hide Distinct, Hoisting, Node.Mirrors, Node.Children, Node.Blockless;
    HoistFacts(c);
    ghost var cs := cur.parent.Children();
    l := Lift(c, cur.parent, null, set m: Node | m in c.nodes && (m in cs || m == extra));
    p := RefreshBox(cur, c);
    AddBoxed(p, extra);
    assert forall m: Node :: m in p.Children() ==> m in l.family && m.parent == p;
    assert forall m: Node :: m in c.nodes && m !in l.family ==> m.parent == old(m.parent);
    HoistRisen(l);
  }

  /** One step up when the parent is full and has to be split. */
  method HoistSplit(cur: Node, extra: Node, ghost c: Climb) returns (p: Node, pp: Node, ghost l: Lift)
    requires Hoisting(c) && c.extra == extra && cur == c.cur && cur != c.root
    requires cur.parent.count == MAXNODES
    modifies c.nodes
    ensures p == old(cur.parent) && l.c == c && l.p == p && l.q == pp && fresh(pp)
    ensures Hoisting(l.Next(c.stale))
    ensures forall n :: n in c.nodes ==> n.level == old(n.level)
    ensures forall n :: n in c.nodes && n != p ==> n.count == old(n.count) && n.branches == old(n.branches)
  {
    hide Distinct, Hoisting, Node.Mirrors, Node.Children, IsHull, Node.Blockless;
    HoistFacts(c);
    ghost var cs := cur.parent.Children();
    ghost var family := set m: Node | m in c.nodes && (m in cs || m == extra);
    p := RefreshBox(cur, c);
    pp := SplitBoxed(p, extra, family);
    l := Lift(c, p, pp, family);
    assert forall m: Node :: m in c.nodes && m !in l.family ==> m.parent == old(m.parent);
    assert forall m: Node :: m in c.nodes ==> m.level == old(m.level);
    HoistRisen(l);
  }

  /** `addChild` and `updateBB`. */
  method AddBoxed(p: Node, extra: Node)
    requires p.Mirrors() && p.level > 0 && p.count < MAXNODES && 0 <= p.count
    requires p != extra && extra !in p.Children() && p !in p.Children() && extra.view.rect == extra.rect
    modifies p`branches, p`count, p`view, p`rect, extra`parent, extra`level
    ensures p.Typed() && p.count == old(p.count) + 1 && p.view.rect == p.rect
    ensures forall m :: m in p.Children() <==> m in old(p.Children()) || m == extra
    ensures extra.parent == p && extra.level == p.level - 1
  {
    hide IsHull, Distinct, Node.Children, KidInserted, Node.Blockless;
    AddChild(p, extra);
    ghost var cs := p.Children();
    assert forall m :: m in cs <==> m in old(p.Children()) || m == extra;
    UpdateBB(p);
    assert p.Children() == cs;
  }

  /** `splitNode`, as far as links and boxes go. */
  method SplitBoxed(p: Node, extra: Node, ghost family: set<Node>) returns (pp: Node)
    requires p.Mirrors() && p.level > 0 && p.count == MAXNODES
    requires extra !in p.Children() && p !in family
    requires forall m :: m in family <==> m in p.Children() || m == extra
    requires forall m :: m in family ==> m.view.rect == m.rect
    modifies p`branches, p`count, p`view, p`rect, family`parent, family`level
    ensures fresh(pp) && pp.level == p.level && pp.parent == null
    ensures p.Typed() && p.view.rect == p.rect && p.count >= 1
    ensures pp.Typed() && pp.view.rect == pp.rect && pp.count >= 1
    ensures forall m :: m in family <==> m in p.Children() || m in pp.Children()
    ensures forall m: Node :: m in p.Children() ==> m.parent == p && m.level == p.level - 1
    ensures forall m: Node :: m in pp.Children() ==> m.parent == pp && m.level == p.level - 1
  {
    hide IsHull, Distinct, Node.Children, Node.Blockless;
    pp := SplitInner(p, extra, family);
  }

  /** The first change of a re-attachment: `node` takes in the detached node `n`, splitting
      off `q` when it is full; `family` is what they share out. */
  datatype Attach = Attach(S: set<Node>, root: Node, node: Node, n: Node, q: Node?, family: set<Node>, f: int)
  {
    function Nodes(): set<Node> { if q == null then S + {n} else S + {n} + {q} }

    function Hoisted(v: Tree): Climb { Climb(Nodes(), root, node, q, v, f) }
  }

  twostate predicate TookIn(new a: Attach)
    requires var S, root, node, n := a.S, a.root, a.node, a.n;
      old(allocated(S)) && old(allocated(root)) && old(allocated(node)) && old(allocated(n))
    reads a.S, a.root, a.node, a.n, a.q, a.family
  {
    var S, node, n, q := a.S, a.node, a.n, a.q;
    && a.root in S && node in S && n !in S && q !in S && q != n && node.level == a.f >= 1
    && old(node.Bounded()) && node.Typed() && (q != null ==> q.Typed() && q.level == a.f && q.parent == null)
    && n.level == a.f - 1
    && (forall m: Node :: m in a.family ==> m in old(node.Children()) || m == n)
    && (forall m: Node :: m in old(node.Children()) ==> m in a.family)
    && n in a.family
    && (forall m: Node :: m in a.family ==> m in node.Children() || (q != null && m in q.Children()))
    && (forall m: Node :: m in node.Children() ==> m in a.family && m.parent == node)
    && (q != null ==> forall m: Node :: m in q.Children() ==> m in a.family && m.parent == q)
    && (forall m: Node :: m in S ==> m.level == old(m.level))
    && (forall m: Node :: m in S && m !in a.family ==> m.parent == old(m.parent))
    && (forall m: Node :: m in S && m != node ==> m.count == old(m.count) && m.branches == old(m.branches))
  }

  twostate lemma AttachFacts(new a: Attach)
    requires var S, root, node, n := a.S, a.root, a.node, a.n;
      old(allocated(S)) && old(allocated(root)) && old(allocated(node)) && old(allocated(n)) && old(Upper(S, root, node.level))
    requires TookIn(a)
    ensures forall m: Node :: m in a.family ==> m.level == a.f - 1 && m != a.root && (m in a.S || m == a.n)
    ensures a.node !in a.family && a.q !in a.family
    ensures var node := a.node; forall m: Node :: m in a.family && m in a.S ==> old(m.parent) == node
  {
    hide Distinct, Node.Children, Node.Blockless;
    var S, root, node := a.S, a.root, a.node;
    assert old(KidsLinked(node, S)) && old(ParentLinked(root, S, root, null));
  }

  twostate lemma AttachParents(new a: Attach)
    requires var S, root, node, n := a.S, a.root, a.node, a.n;
      old(allocated(S)) && old(allocated(root)) && old(allocated(node)) && old(allocated(n)) && old(Upper(S, root, node.level))
    requires TookIn(a)
    ensures forall m: Node :: m in a.Nodes() ==> ParentLinked(m, a.Nodes(), a.root, a.q) && 0 <= m.level <= a.root.level
  {
    hide Distinct, Node.Children, KidsLinked, Node.Blockless;
    var S, root, node := a.S, a.root, a.node;
    AttachFacts(a);
    forall m: Node | m in S && m !in a.family ensures ParentLinked(m, a.Nodes(), root, a.q) {
      assert old(ParentLinked(m, S, root, null));
      if m != root {
        var o := m.parent;
        assert o == old(m.parent) && m in old(o.Children()) && old(o.Typed());
        o.TypedFrame();
      }
    }
    forall m: Node | m in S ensures 0 <= m.level <= root.level {
      assert old(ParentLinked(m, S, root, null));
    }
  }

  twostate lemma AttachKids(new a: Attach)
    requires var S, root, node, n := a.S, a.root, a.node, a.n;
      old(allocated(S)) && old(allocated(root)) && old(allocated(node)) && old(allocated(n)) && old(Upper(S, root, node.level))
    requires TookIn(a)
    ensures forall m: Node :: m in a.Nodes() && m.level >= a.f ==> KidsLinked(m, a.Nodes())
  {
    hide Distinct, Node.Children, ParentLinked, Node.Blockless;
    var S, root, node := a.S, a.root, a.node;
    AttachFacts(a);
    forall m: Node | m in S && m.level >= a.f && m != node ensures KidsLinked(m, a.Nodes()) {
      assert old(KidsLinked(m, S));
      assert forall o: Node :: o in old(m.Children()) ==> o in S && old(o.parent) == m && o !in a.family;
      m.TypedFrame();
    }
    assert KidsLinked(node, a.Nodes());
  }

  /** A re-attachment that changed one node is a climb about to start there. */
  twostate lemma Attached(new a: Attach)
    requires var S, root, node, n := a.S, a.root, a.node, a.n;
      old(allocated(S)) && old(allocated(root)) && old(allocated(node)) && old(allocated(n)) && old(Upper(S, root, node.level))
    requires TookIn(a)
    requires forall m: Node :: m in a.Nodes() ==> m.view.rect == m.rect
    requires a.node.count >= 1 && (a.q != null ==> a.q.count >= 1)
    ensures forall v :: Hoisting(a.Hoisted(v))
  {
    hide Distinct, Node.Children, ParentLinked, KidsLinked, Node.Blockless;
    AttachFacts(a);
    AttachParents(a);
    AttachKids(a);
  }

  lemma UpperFacts(S: set<Node>, root: Node, f: int, m: Node)
    requires Upper(S, root, f) && m in S && m.level >= f && m.level > 0
    ensures m.Typed() && m.Bounded() && m !in m.Children() && 1 <= m.count <= MAXNODES && m.level <= root.level
    ensures root in S && forall o: Node :: o in S ==> o.view.rect == o.rect
    ensures forall o: Node :: o in m.Children() ==> o in S && o.parent == m && o.level == m.level - 1 && o.view.rect == o.rect
    ensures forall i :: 0 <= i < m.count ==> m.branches[i].child != null && m.branches[i].child in m.Children()
  {
    hide Distinct, ParentLinked;
    assert KidsLinked(m, S);
    assert forall i :: 0 <= i < m.count ==> m.Children()[i] == m.branches[i].child;
  }

  /** Descends to the level of `n` through the child whose box grows most. */
  method ChooseNode(m: Node, n: Node, ghost S: set<Node>, ghost root: Node) returns (node: Node)
    requires Upper(S, root, n.level) && n.level >= 1 && m in S && m.level >= n.level
    ensures node in S && node.level == n.level
    decreases m.level
  {
    hide Upper, Node.Typed, Node.Children;
    if m.level == n.level {
      return m;
    }
    UpperFacts(S, root, n.level, m);
    var newareas: seq<nat> := [];
    var i := 0;
    while i < m.count
      invariant 0 <= i <= m.count && |newareas| == i
    {
      var c := m.branches[i].child;
      newareas := newareas + [Wrap(n.rect.BoundingBox(c.rect).Area() - c.rect.Area())];
      i := i + 1;
    }
    i := MaxElement(newareas);
    node := ChooseNode(m.branches[i].child, n, S, root);
  }

  /** The position of the first largest element. */
  method MaxElement(s: seq<nat>) returns (k: nat)
    requires s != []
    ensures k < |s| && (forall i :: 0 <= i < |s| ==> s[i] <= s[k]) && forall i :: 0 <= i < k ==> s[i] < s[k]
  {
    k := 0;
    for i := 1 to |s|
      invariant k < i <= |s|
      invariant (forall j :: 0 <= j < i ==> s[j] <= s[k]) && forall j :: 0 <= j < k ==> s[j] < s[k]
    {
      if s[k] < s[i] { k := i; }
    }
  }

  /** `addChild`, or `splitNode` when the node is full: `family` is shared out. */
  method Admit(node: Node, n: Node, ghost family: set<Node>) returns (newnode: Node?)
    requires node.Typed() && node.level > 0 && node !in node.Children()
    requires forall m: Node :: m in node.Children() ==> m.view.rect == m.rect && m.parent == node && m.level == node.level - 1
    requires n != node && n !in node.Children() && node !in family && n.view.rect == n.rect
    requires forall m :: m in family <==> m in node.Children() || m == n
    modifies node, family`parent, family`level
    ensures node.Typed() && node.view.rect == node.rect && node.count >= 1
    ensures node.parent == old(node.parent) && node.level == old(node.level)
    ensures newnode != null ==>
      fresh(newnode) && newnode.level == node.level && newnode.parent == null &&
      newnode.Typed() && newnode.view.rect == newnode.rect && newnode.count >= 1
    ensures forall m :: m in family <==> m in node.Children() || (newnode != null && m in newnode.Children())
    ensures forall m: Node :: m in node.Children() ==> m.parent == node
    ensures newnode != null ==> forall m: Node :: m in newnode.Children() ==> m.parent == newnode
    ensures n.level == node.level - 1
    ensures forall m :: m in family && m != n ==> m.level == old(m.level)
  {
    hide IsHull, Distinct, Node.Mirrors, Node.Children, Node.Blockless;
    ghost var cs := node.Children();
    Remirror(node);
    assert node.Children() == cs;
    if node.count < MAXNODES {
      AddBoxed(node, n);
      newnode := null;
    } else {
      newnode := SplitBoxed(node, n, family);
    }
  }

  /** The part of `reinsert` that touches the chosen node. */
  method TakeIn(node: Node, n: Node, ghost S: set<Node>, ghost root: Node) returns (newnode: Node?, ghost c: Climb)
    requires Upper(S, root, node.level) && node in S && n !in S && n.level == node.level >= 1 && n.view.rect == n.rect
    modifies S, n
    ensures c.root == root && c.cur == node && c.extra == newnode && c.floor == node.level == old(node.level)
    ensures Hoisting(c) && S + {n} <= c.nodes && fresh(c.nodes - S - {n})
    ensures n.level == old(n.level) - 1 && n.count == old(n.count) && n.branches == old(n.branches)
    ensures forall m :: m in S ==> m.level == old(m.level)
    ensures forall m :: m in S && m != node ==> m.count == old(m.count) && m.branches == old(m.branches)
  {
    hide IsHull, Distinct, Upper, Node.Mirrors, Node.Children, Hoisting, TookIn, Node.Blockless;
    ghost var a: Attach;
    newnode, a := Join(node, n, S, root);
    Attached(a);
    c := a.Hoisted(old(node.view));
  }

  /** The same, as one change. */
  method Join(node: Node, n: Node, ghost S: set<Node>, ghost root: Node) returns (newnode: Node?, ghost a: Attach)
    requires Upper(S, root, node.level) && node in S && n !in S && n.level == node.level >= 1 && n.view.rect == n.rect
    modifies S, n
    ensures a == Attach(S, root, node, n, newnode, a.family, node.level) && TookIn(a) && node.level == old(node.level)
    ensures newnode == null || fresh(newnode)
    ensures n.count == old(n.count) && n.branches == old(n.branches) && n.level == old(n.level) - 1
    ensures forall m: Node :: m in a.Nodes() ==> m.view.rect == m.rect
    ensures node.count >= 1 && (newnode != null ==> newnode.count >= 1)
    ensures forall m :: m in S ==> m.level == old(m.level)
    ensures forall m :: m in S && m != node ==> m.count == old(m.count) && m.branches == old(m.branches)
  {
    hide IsHull, Distinct, Upper, Node.Mirrors, Node.Children, Node.Blockless;
    UpperFacts(S, root, node.level, node);
    ghost var cs := node.Children();
    ghost var family := (set m: Node | m in S && m in cs) + {n};
    newnode := Admit(node, n, family);
    a := Attach(S, root, node, n, newnode, family, node.level);
    assert forall m: Node :: m in S && m !in a.family ==> m.parent == old(m.parent);
  }

  /** At the root with no sibling left over, the climb is complete. */
  lemma HoistLanded(c: Climb)
    requires Hoisting(c) && c.cur == c.root && c.extra == null
    ensures Upper(c.nodes, c.root, c.floor)
  {
  }

  lemma HoistTop(c: Climb)
    requires Hoisting(c) && c.cur == c.root && c.extra != null
    ensures c.root in c.nodes && c.extra in c.nodes && c.root != c.extra && c.root.level == c.extra.level >= 1
    ensures c.root.view.rect == c.root.rect && c.extra.view.rect == c.extra.rect && c.floor <= c.root.level
  {
  }

  /** A root that was split is in order again under its new parent. */
  twostate lemma HoistGrown(new t: Top)
    requires var c := t.c; old(allocated(c)) && old(Hoisting(c)) && c.cur == c.root
    requires Topped(t)
    requires KidsLinked(t.newr, t.c.nodes) && t.newr.view.rect == t.newr.rect && t.newr.count >= 1
    ensures Upper(t.c.nodes + {t.newr}, t.newr, t.c.floor)
  {
    hide Distinct, Node.Children, ParentLinked, KidsLinked, Node.Blockless;
    GrownParents(t);
    GrownKids(t);
    GrownRoot(t);
  }

  /** A whole tree is in order from level 1 up. */
  lemma WholeIsUpper(S: set<Node>, root: Node)
    requires Whole(S, root)
    ensures Upper(S, root, 1)
  {
    hide IsHull, Distinct, Shaped;
    forall m: Node | m in S
      ensures ParentLinked(m, S, root, null) && 0 <= m.level <= root.level && m.view.rect == m.rect
      ensures m.level >= 1 ==> KidsLinked(m, S) && m.count >= 1
    {
      assert Linked(m, S, root, null) && m.Mirrors() && Shapely(m, root);
    }
  }

  lemma UpperHigher(S: set<Node>, root: Node, f: int)
    requires Upper(S, root, f)
    ensures Upper(S, root, f + 1)
  {
  }

  /** The only child of the root `oldr` took its place and its box. */
  twostate predicate Replaced(h: Replacement)
    reads h.nodes
  {
    var r, oldr, nodes := h.newr, h.oldr, h.nodes;
    && r in nodes && oldr in nodes && oldr.level > 0 && oldr.level >= h.f && oldr.count == 1
    && old(oldr.Bounded()) && old(oldr.Children()) == [r]
    && r.parent == null && r.view.rect == r.rect
    && (forall m: Node :: m in nodes ==> m.level == old(m.level) && m.count == old(m.count) && m.branches == old(m.branches))
    && (forall m: Node :: m in nodes && m != r ==> m.parent == old(m.parent) && m.view == old(m.view) && m.rect == old(m.rect))
  }

  datatype Replacement = Replacement(nodes: set<Node>, oldr: Node, newr: Node, f: int)

  twostate lemma ReplacedParents(h: Replacement)
    requires old(Upper(h.nodes, h.oldr, h.f)) && Replaced(h)
    ensures forall m: Node :: m in h.nodes && m != h.oldr ==>
      ParentLinked(m, h.nodes - {h.oldr}, h.newr, null) && 0 <= m.level <= h.newr.level
    ensures h.newr != h.oldr
  {
    hide Distinct, Node.Children, KidsLinked, Node.Blockless;
    var r, oldr, nodes := h.newr, h.oldr, h.nodes;
    assert r in old(oldr.Children());
    assert r.level == oldr.level - 1 && r != oldr by { assert old(KidsLinked(oldr, nodes)); ChildLevel(h); }
    forall m: Node | m in nodes && m != oldr ensures ParentLinked(m, nodes - {oldr}, r, null) && 0 <= m.level <= r.level {
      assert old(ParentLinked(m, nodes, oldr, null));
      if m != r {
        var o := m.parent;
        assert o == old(m.parent) && old(o.Typed()) && m in old(o.Children());
        o.TypedFrame();
        assert o != oldr;
      }
    }
  }

  twostate lemma ChildLevel(h: Replacement)
    requires old(Upper(h.nodes, h.oldr, h.f)) && Replaced(h)
    ensures h.newr.level == h.oldr.level - 1
  {
    var oldr, r, nodes := h.oldr, h.newr, h.nodes;
    assert old(KidsLinked(oldr, nodes)) && r in old(oldr.Children());
  }

  twostate lemma ReplacedTyped(h: Replacement)
    requires old(Upper(h.nodes, h.oldr, h.f)) && Replaced(h)
    ensures forall m: Node :: m in h.nodes && m.level >= h.f ==>
      m.Bounded() && old(m.Bounded()) && m.Typed() && m.Children() == old(m.Children())
  {
    hide Distinct, ParentLinked;
    forall m: Node | m in h.nodes && m.level >= h.f
      ensures m.Bounded() && old(m.Bounded()) && m.Typed() && m.Children() == old(m.Children())
    {
      assert old(KidsLinked(m, h.nodes));
      m.TypedFrame();
    }
  }

  twostate lemma ReplacedKids(h: Replacement)
    requires old(Upper(h.nodes, h.oldr, h.f)) && Replaced(h)
    ensures forall m: Node :: m in h.nodes && m != h.oldr && m.level >= h.f ==> KidsLinked(m, h.nodes - {h.oldr}) && m.count >= 1
  {
    hide Distinct, Node.Children, Node.Typed;
    var r, oldr, nodes := h.newr, h.oldr, h.nodes;
    ReplacedTyped(h);
    assert old(KidsLinked(oldr, nodes)) && r in old(oldr.Children());
    assert old(ParentLinked(oldr, nodes, oldr, null));
    forall m: Node | m in nodes && m != oldr && m.level >= h.f ensures KidsLinked(m, nodes - {oldr}) && m.count >= 1 {
      assert old(KidsLinked(m, nodes));
      assert m.level > 0 ==> forall o: Node :: o in old(m.Children()) ==> o in nodes && old(o.parent) == m && o != r && o != oldr;
    }
  }

  /** Shortening keeps what was in order in order. */
  twostate lemma ReplacedUpper(h: Replacement)
    requires old(Upper(h.nodes, h.oldr, h.f)) && Replaced(h)
    ensures Upper(h.nodes - {h.oldr}, h.newr, h.f)
  {
    hide Distinct, Node.Children, KidsLinked, ParentLinked, Node.Blockless;
    ReplacedParents(h);
    ReplacedKids(h);
  }
}
