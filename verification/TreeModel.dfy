/** The value an R-tree node stands for, and what the heap structure of module
    RTrees is proved against: contents, shape, search and lookup
    (updown/libraries/dramalloc/rtree.h, rtree.cpp). */
module TreeModel {
  import opened Rects

  const MINNODES: nat := 2
  const MAXNODES: nat := 8

  datatype Tree =
    | Leaf(rect: Rect, blocks: seq<Block>)
    | Inner(rect: Rect, height: nat, kids: seq<Tree>)
  {
    function Level(): nat { if Leaf? then 0 else height }

    function Size(): nat { if Leaf? then |blocks| else |kids| }

    /** The same node with another rectangle. */
    function WithRect(r: Rect): Tree {
      if Leaf? then Leaf(r, blocks) else Inner(r, height, kids)
    }

    /** The rectangles of the entries of the node. */
    function Entries(): seq<Rect> {
      if Leaf? then seq(|blocks|, i requires 0 <= i < |blocks| => blocks[i].rect)
      else seq(|kids|, i requires 0 <= i < |kids| => kids[i].rect)
    }
  }

  /** The blocks stored under `t`. */
  ghost function Contents(t: Tree): multiset<Block> {
    match t
    case Leaf(_, blocks) => multiset(blocks)
    case Inner(_, _, kids) => Sum(kids)
  }

  ghost function Sum(kids: seq<Tree>): multiset<Block> {
    if kids == [] then multiset{} else Contents(kids[0]) + Sum(kids[1..])
  }

  predicate SortedByArea(blocks: seq<Block>) {
    forall i, j :: 0 <= i < j < |blocks| ==> blocks[i].rect.Area() <= blocks[j].rect.Area()
  }

  /** What holds of every node but the root: 2..8 entries, a rectangle that is exactly
      their bounding box, leaf blocks in area order, all leaves at level 0. */
  ghost predicate WellFormed(t: Tree)
    decreases t, 1
  {
    && MINNODES <= t.Size() <= MAXNODES
    && IsHull(t.rect, t.Entries())
    && Shaped(t)
  }

  /** The part of `WellFormed` that the root satisfies too. */
  ghost predicate Shaped(t: Tree)
    decreases t, 0
  {
    match t
    case Leaf(_, blocks) => SortedByArea(blocks)
    case Inner(_, height, kids) =>
      && height > 0
      && forall k :: k in kids ==> WellFormed(k) && k.Level() == height - 1
  }

  /** The root may hold fewer entries and, after a removal, a rectangle that is too big. */
  ghost predicate WellFormedRoot(t: Tree) {
    && t.Size() <= MAXNODES
    && (t.Inner? ==> t.Size() >= 1)
    && Shaped(t)
  }

  // ---- sums over children -------------------------------------------------------

  lemma {:induction false} SumAppend(a: seq<Tree>, b: seq<Tree>)
    ensures Sum(a + b) == Sum(a) + Sum(b)
  {
    if a == [] {
      assert a + b == b;
    } else {
      var ab := a + b;
      assert ab != [] && ab[0] == a[0] && ab[1..] == a[1..] + b;
      SumAppend(a[1..], b);
      assert Sum(ab) == Contents(a[0]) + Sum(a[1..] + b);
    }
  }

  lemma SumAt(kids: seq<Tree>, k: nat)
    requires k < |kids|
    ensures Sum(kids) == Sum(kids[..k]) + Contents(kids[k]) + Sum(kids[k + 1..])
  {
    assert kids == kids[..k] + kids[k..];
    SumAppend(kids[..k], kids[k..]);
    assert kids[k..][1..] == kids[k + 1..];
  }

  /** Replacing one child changes the sum by the difference of the two. */
  lemma SumUpdate(kids: seq<Tree>, k: nat, t: Tree)
    requires k < |kids|
    ensures Sum(kids[k := t]) + Contents(kids[k]) == Sum(kids) + Contents(t)
  {
    SumAt(kids, k);
    SumAt(kids[k := t], k);
    assert kids[k := t][..k] == kids[..k];
    assert kids[k := t][k + 1..] == kids[k + 1..];
  }

  lemma SumRemove(kids: seq<Tree>, k: nat)
    requires k < |kids|
    ensures Sum(kids[..k] + kids[k + 1..]) + Contents(kids[k]) == Sum(kids)
  {
    SumAt(kids, k);
    SumAppend(kids[..k], kids[k + 1..]);
  }

  /** The sum does not depend on the order of the children. */
  lemma {:induction false} SumPermute(a: seq<Tree>, b: seq<Tree>)
    requires multiset(a) == multiset(b)
    ensures Sum(a) == Sum(b)
    decreases |a|
  {
    hide Contents;
    if a == [] {
      assert |multiset(b)| == 0;
    } else {
      var k := SamePlace(a, b);
      SumPermute(a[1..], b[..k] + b[k + 1..]);
      SumRemove(b, k);
    }
  }

  /** Where the first of `a` stands in a permutation of `a`, and what is left of both. */
  lemma SamePlace<T>(a: seq<T>, b: seq<T>) returns (k: nat)
    requires a != [] && multiset(a) == multiset(b)
    ensures k < |b| && b[k] == a[0] && multiset(a[1..]) == multiset(b[..k] + b[k + 1..])
  {
    assert a[0] in multiset(b);
    k :| 0 <= k < |b| && b[k] == a[0];
    FirstOut(a);
    RestOf(b, k);
  }

  lemma FirstOut<T>(s: seq<T>)
    requires s != []
    ensures multiset(s[1..]) == multiset(s) - multiset{s[0]}
  {
    assert s == [s[0]] + s[1..];
  }

  lemma RestOf<T>(s: seq<T>, k: nat)
    requires k < |s|
    ensures multiset(s[..k] + s[k + 1..]) == multiset(s) - multiset{s[k]}
  {
    assert s == s[..k] + [s[k]] + s[k + 1..];
  }

  lemma SumPlus(a: seq<Tree>, b: seq<Tree>, t: Tree)
    requires multiset(a) == multiset(b) + multiset{t}
    ensures Sum(a) == Sum(b) + Contents(t)
    ensures forall k :: k in a ==> k in b || k == t
  {
    assert multiset(a) == multiset(b + [t]);
    SumPermute(a, b + [t]);
    SumAppend(b, [t]);
    assert Sum([t]) == Contents(t);
    forall k | k in a ensures k in b || k == t {
      assert k in multiset(b) + multiset{t};
    }
  }

  /** Two groups of children that together permute a third hold what it held. */
  lemma SumSplit(a: seq<Tree>, b: seq<Tree>, all: seq<Tree>)
    requires multiset(a) + multiset(b) == multiset(all)
    ensures Sum(a) + Sum(b) == Sum(all)
  {
    assert multiset(a + b) == multiset(all);
    SumPermute(a + b, all);
    SumAppend(a, b);
  }

  lemma {:induction false} InSum(kids: seq<Tree>, b: Block)
    ensures b in Sum(kids) <==> exists i :: 0 <= i < |kids| && b in Contents(kids[i])
  {
    if kids != [] {
      var rest := kids[1..];
      InSum(rest, b);
      assert b in Sum(kids) <==> b in Contents(kids[0]) || b in Sum(rest);
      hide Contents, Sum;
      forall i | 0 <= i < |rest| ensures rest[i] == kids[i + 1] { }
      forall i | 1 <= i < |kids| ensures kids[i] == rest[i - 1] { }
    }
  }

  lemma WellFormedFacts(t: Tree)
    requires WellFormed(t)
    ensures Shaped(t) && MINNODES <= t.Size() <= MAXNODES && IsHull(t.rect, t.Entries())
  {
  }

  /** Exchanging children for well-formed ones of the same level keeps the shape. */
  lemma ExchangeShape(t: Tree, u: Tree, extra: Tree)
    requires t.Inner? && u.Inner? && t.height == u.height && Shaped(t)
    requires WellFormed(extra) && extra.Level() == t.height - 1
    requires forall k :: k in u.kids ==> k in t.kids || k == extra
    ensures Shaped(u)
    ensures MINNODES <= u.Size() <= MAXNODES && IsHull(u.rect, u.Entries()) ==> WellFormed(u)
  {
    hide IsHull;
  }

  /** A node holding some children of a shaped node, and one more, is well formed. */
  lemma ShareOutShape(t: Tree, extra: Tree, a: Tree)
    requires t.Inner? && a.Inner? && t.height == a.height
    requires multiset(a.kids) <= multiset(t.kids) + multiset{extra}
    requires Shaped(t) && WellFormed(extra) && extra.Level() == t.height - 1
    requires MINNODES <= a.Size() <= MAXNODES && IsHull(a.rect, a.Entries())
    ensures WellFormed(a)
  {
    hide IsHull;
    forall k | k in a.kids ensures k in t.kids || k == extra {
      assert k in multiset(a.kids);
      assert k in multiset(t.kids) + multiset{extra};
    }
  }

  /** Two nodes that share out the children of `t` and one more hold what those held. */
  lemma ShareOutContents(t: Tree, extra: Tree, a: Tree, b: Tree)
    requires t.Inner? && a.Inner? && b.Inner?
    requires multiset(a.kids) + multiset(b.kids) == multiset(t.kids) + multiset{extra}
    ensures Contents(a) + Contents(b) == Contents(t) + Contents(extra)
  {
    assert multiset(t.kids + [extra]) == multiset(t.kids) + multiset{extra};
    SumSplit(a.kids, b.kids, t.kids + [extra]);
    SumAppend(t.kids, [extra]);
    assert Sum([extra]) == Contents(extra);
  }

  lemma WithRectKeepsEntries(t: Tree, r: Rect)
    ensures t.WithRect(r).Entries() == t.Entries()
    ensures Contents(t.WithRect(r)) == Contents(t)
  {
  }

  lemma WithRectRoot(t: Tree, r: Rect)
    requires WellFormedRoot(t)
    ensures WellFormedRoot(t.WithRect(r)) && Contents(t.WithRect(r)) == Contents(t)
  {
  }

  lemma WithRectShape(t: Tree, r: Rect)
    requires Shaped(t) && MINNODES <= t.Size() <= MAXNODES && IsHull(r, t.Entries())
    ensures WellFormed(t.WithRect(r))
  {
    hide IsHull;
    WithRectKeepsEntries(t, r);
  }

  // ---- bounding boxes -----------------------------------------------------------

  /** Every block lies in the rectangle of its subtree. */
  lemma {:induction false} BoxCoversContents(t: Tree, b: Block)
    requires WellFormed(t) && b in Contents(t)
    ensures t.rect.Covers(b.rect)
  {
    match t
    case Leaf(_, blocks) =>
      var i :| 0 <= i < |blocks| && blocks[i] == b;
      assert t.Entries()[i] == b.rect;
    case Inner(_, _, kids) =>
      InSum(kids, b);
      var i :| 0 <= i < |kids| && b in Contents(kids[i]);
      assert kids[i] in kids;
      BoxCoversContents(kids[i], b);
      assert t.Entries()[i] == kids[i].rect;
  }

  /** ... and conversely lies in any rectangle that covers all blocks: the box is the
      exact bounding box of the stored blocks, not only of the direct entries. */
  lemma {:induction false} BoxIsLeast(t: Tree, o: Rect)
    requires WellFormed(t)
    requires forall b :: b in Contents(t) ==> o.Covers(b.rect)
    ensures o.Covers(t.rect)
  {
    match t
    case Leaf(_, blocks) =>
      forall i | 0 <= i < |blocks| ensures o.Covers(t.Entries()[i]) {
        assert blocks[i] in Contents(t);
      }
      HullIsLeast(t.rect, t.Entries(), o);
    case Inner(_, _, kids) =>
      forall i | 0 <= i < |kids| ensures o.Covers(t.Entries()[i]) {
        forall b | b in Contents(kids[i]) ensures o.Covers(b.rect) {
          InSum(kids, b);
        }
        assert kids[i] in kids;
        BoxIsLeast(kids[i], o);
      }
      HullIsLeast(t.rect, t.Entries(), o);
  }

  // ---- search -------------------------------------------------------------------

  /** The blocks `searchRecursive` appends for one leaf, left to right. */
  function ScanBlocks(blocks: seq<Block>, startNode: nat, meml: nat, nodel: nat): seq<Block> {
    if blocks == [] then []
    else
      var b := blocks[|blocks| - 1];
      ScanBlocks(blocks[..|blocks| - 1], startNode, meml, nodel) +
      (if b.rect.Area() < Wrap(meml * nodel) then []
       else if b.rect.Fit(startNode, meml, nodel) then [b] else [])
  }

  /** The blocks the pruned search appends below `t`. */
  function Search(t: Tree, startNode: nat, meml: nat, nodel: nat): seq<Block>
    decreases t, 0
  {
    match t
    case Leaf(_, blocks) => ScanBlocks(blocks, startNode, meml, nodel)
    case Inner(_, _, kids) => SearchKids(kids, startNode, meml, nodel)
  }

  function SearchKids(kids: seq<Tree>, startNode: nat, meml: nat, nodel: nat): seq<Block>
    decreases kids, 1
  {
    if kids == [] then []
    else
      var k := kids[|kids| - 1];
      SearchKids(kids[..|kids| - 1], startNode, meml, nodel) +
      (if k.rect.Area() < Wrap(meml * nodel) || !k.rect.Fit(startNode, meml, nodel) then []
       else Search(k, startNode, meml, nodel))
  }

  /** One more entry scanned, as the loops of `searchRecursive` do it. */
  lemma ScanStep(blocks: seq<Block>, i: nat, startNode: nat, meml: nat, nodel: nat)
    requires i < |blocks|
    ensures ScanBlocks(blocks[..i + 1], startNode, meml, nodel) == ScanBlocks(blocks[..i], startNode, meml, nodel) +
      (if blocks[i].rect.Area() < Wrap(meml * nodel) || !blocks[i].rect.Fit(startNode, meml, nodel) then [] else [blocks[i]])
  {
    assert blocks[..i + 1][..i] == blocks[..i];
  }

  lemma SearchStep(kids: seq<Tree>, i: nat, startNode: nat, meml: nat, nodel: nat)
    requires i < |kids|
    ensures SearchKids(kids[..i + 1], startNode, meml, nodel) == SearchKids(kids[..i], startNode, meml, nodel) +
      (if kids[i].rect.Area() < Wrap(meml * nodel) || !kids[i].rect.Fit(startNode, meml, nodel) then []
       else Search(kids[i], startNode, meml, nodel))
  {
    assert kids[..i + 1][..i] == kids[..i];
  }

  lemma {:induction false} ScanExact(blocks: seq<Block>, startNode: nat, meml: nat, nodel: nat, b: Block)
    requires forall x :: x in blocks ==> x.rect.memLen * x.rect.nodeLen < WORD
    ensures multiset(ScanBlocks(blocks, startNode, meml, nodel))[b]
         == if b.rect.Fit(startNode, meml, nodel) then multiset(blocks)[b] else 0
  {
    if blocks != [] {
      var n := |blocks| - 1;
      assert blocks == blocks[..n] + [blocks[n]];
      ScanExact(blocks[..n], startNode, meml, nodel, b);
      if blocks[n].rect.Fit(startNode, meml, nodel) {
        assert blocks[n] in blocks;
        FitMonotone(blocks[n].rect, blocks[n].rect, startNode, meml, nodel);
      }
    }
  }

  /** Pruning by area and bounding box loses nothing and invents nothing: `search`
      returns each stored block that fits the request, as often as it is stored. */
  lemma {:induction false} SearchExact(t: Tree, startNode: nat, meml: nat, nodel: nat, space: Rect, b: Block)
    requires Shaped(t)
    requires space.memLen * space.nodeLen < WORD
    requires forall x :: x in Contents(t) ==> space.Covers(x.rect)
    ensures multiset(Search(t, startNode, meml, nodel))[b]
         == if b.rect.Fit(startNode, meml, nodel) then Contents(t)[b] else 0
    decreases t, 0
  {
    match t
    case Leaf(_, blocks) =>
      forall x | x in blocks ensures x.rect.memLen * x.rect.nodeLen < WORD {
        assert x in Contents(t);
        ProductMonotone(x.rect.memLen, space.memLen, x.rect.nodeLen, space.nodeLen);
      }
      ScanExact(blocks, startNode, meml, nodel, b);
    case Inner(_, _, kids) =>
      SearchKidsExact(kids, startNode, meml, nodel, space, b);
  }

  lemma {:induction false} SearchKidsExact(kids: seq<Tree>, startNode: nat, meml: nat, nodel: nat, space: Rect, b: Block)
    requires forall k :: k in kids ==> WellFormed(k)
    requires space.memLen * space.nodeLen < WORD
    requires forall x :: x in Sum(kids) ==> space.Covers(x.rect)
    ensures multiset(SearchKids(kids, startNode, meml, nodel))[b]
         == if b.rect.Fit(startNode, meml, nodel) then Sum(kids)[b] else 0
    decreases kids, 1
  {
    if kids != [] {
      var n := |kids| - 1;
      var k := kids[n];
      assert kids[..n] + [k] == kids;
      SumAppend(kids[..n], [k]);
      assert Sum([k]) == Contents(k);
      assert k in kids;
      SearchKidsExact(kids[..n], startNode, meml, nodel, space, b);
      if k.rect.Area() < Wrap(meml * nodel) || !k.rect.Fit(startNode, meml, nodel) {
        PrunedHasNoFit(k, startNode, meml, nodel, space, b);
      } else {
        SearchExact(k, startNode, meml, nodel, space, b);
      }
    }
  }

  lemma PrunedHasNoFit(t: Tree, startNode: nat, meml: nat, nodel: nat, space: Rect, b: Block)
    requires WellFormed(t)
    requires space.memLen * space.nodeLen < WORD
    requires forall x :: x in Contents(t) ==> space.Covers(x.rect)
    requires t.rect.Area() < Wrap(meml * nodel) || !t.rect.Fit(startNode, meml, nodel)
    ensures b.rect.Fit(startNode, meml, nodel) ==> Contents(t)[b] == 0
  {
    if b.rect.Fit(startNode, meml, nodel) && b in Contents(t) {
      BoxCoversContents(t, b);
      BoxIsLeast(t, space);
      ProductMonotone(t.rect.memLen, space.memLen, t.rect.nodeLen, space.nodeLen);
      FitMonotone(t.rect, b.rect, startNode, meml, nodel);
      assert false;
    }
  }

  // ---- order of the search ------------------------------------------------------

  /** The blocks below `t`, leaf by leaf from left to right. */
  ghost function Listing(t: Tree): seq<Block>
    decreases t, 0
  {
    match t
    case Leaf(_, blocks) => blocks
    case Inner(_, _, kids) => ListingOf(kids)
  }

  ghost function ListingOf(kids: seq<Tree>): seq<Block>
    decreases kids, 1
  {
    if kids == [] then [] else ListingOf(kids[..|kids| - 1]) + Listing(kids[|kids| - 1])
  }

  /** Those of the blocks in a list that the request fits, in the order of the list. */
  function Fitting(bs: seq<Block>, startNode: nat, meml: nat, nodel: nat): seq<Block> {
    if bs == [] then []
    else (if bs[0].rect.Fit(startNode, meml, nodel) then [bs[0]] else []) + Fitting(bs[1..], startNode, meml, nodel)
  }

  lemma {:induction false} FittingAppend(a: seq<Block>, b: seq<Block>, startNode: nat, meml: nat, nodel: nat)
    ensures Fitting(a + b, startNode, meml, nodel) == Fitting(a, startNode, meml, nodel) + Fitting(b, startNode, meml, nodel)
  {
    hide Rect.Fit, Fitting;
    if a == [] {
      FittingNil(startNode, meml, nodel);
      assert a + b == b;
    } else {
      var ab := a + b;
      FittingAppend(a[1..], b, startNode, meml, nodel);
      FittingHead(a, startNode, meml, nodel);
      FittingHead(ab, startNode, meml, nodel);
      assert ab[0] == a[0] && ab[1..] == a[1..] + b;
    }
  }

  lemma FittingNil(startNode: nat, meml: nat, nodel: nat)
    ensures Fitting([], startNode, meml, nodel) == []
  {
  }

  lemma FittingHead(bs: seq<Block>, startNode: nat, meml: nat, nodel: nat)
    requires bs != []
    ensures Fitting(bs, startNode, meml, nodel) ==
      (if bs[0].rect.Fit(startNode, meml, nodel) then [bs[0]] else []) + Fitting(bs[1..], startNode, meml, nodel)
  {
    hide Rect.Fit;
  }

  lemma {:induction false} FittingNone(bs: seq<Block>, startNode: nat, meml: nat, nodel: nat)
    requires forall b :: b in bs ==> !b.rect.Fit(startNode, meml, nodel)
    ensures Fitting(bs, startNode, meml, nodel) == []
  {
    if bs != [] { FittingNone(bs[1..], startNode, meml, nodel); }
  }

  /** The first of them is the first that fits. */
  lemma {:induction false} FittingFirst(bs: seq<Block>, startNode: nat, meml: nat, nodel: nat) returns (i: nat)
    requires Fitting(bs, startNode, meml, nodel) != []
    ensures i < |bs| && bs[i] == Fitting(bs, startNode, meml, nodel)[0] && bs[i].rect.Fit(startNode, meml, nodel)
    ensures forall j :: 0 <= j < i ==> !bs[j].rect.Fit(startNode, meml, nodel)
  {
    if bs[0].rect.Fit(startNode, meml, nodel) {
      i := 0;
    } else {
      i := FittingFirst(bs[1..], startNode, meml, nodel);
      i := i + 1;
    }
  }

  /** Blocks in area order stay in area order. */
  lemma {:induction false} FittingSorted(bs: seq<Block>, startNode: nat, meml: nat, nodel: nat)
    requires SortedByArea(bs)
    ensures SortedByArea(Fitting(bs, startNode, meml, nodel))
    ensures forall b :: b in Fitting(bs, startNode, meml, nodel) ==> b in bs
  {
    hide Rect.Area, Rect.Fit;
    if bs != [] {
      var rest := Fitting(bs[1..], startNode, meml, nodel);
      FittingSorted(bs[1..], startNode, meml, nodel);
      forall b | b in rest ensures bs[0].rect.Area() <= b.rect.Area() && b in bs {
        var i :| 0 <= i < |bs[1..]| && bs[1..][i] == b;
        assert bs[i + 1] == b;
      }
    }
  }

  lemma {:induction false} ListingHolds(t: Tree)
    ensures multiset(Listing(t)) == Contents(t)
    decreases t, 0
  {
    match t
    case Leaf(_, _) =>
    case Inner(_, _, kids) => ListingOfHolds(kids);
  }

  lemma {:induction false} ListingOfHolds(kids: seq<Tree>)
    ensures multiset(ListingOf(kids)) == Sum(kids)
    decreases kids, 1
  {
    if kids != [] {
      var n := |kids| - 1;
      ListingOfHolds(kids[..n]);
      ListingHolds(kids[n]);
      SumAppend(kids[..n], [kids[n]]);
      assert kids == kids[..n] + [kids[n]];
      assert Sum([kids[n]]) == Contents(kids[n]);
    }
  }

  /** The search yields the stored blocks that fit in the order in which they are stored. */
  lemma {:induction false} SearchInOrder(t: Tree, startNode: nat, meml: nat, nodel: nat, space: Rect)
    requires Shaped(t)
    requires space.memLen * space.nodeLen < WORD
    requires forall x :: x in Contents(t) ==> space.Covers(x.rect)
    ensures Search(t, startNode, meml, nodel) == Fitting(Listing(t), startNode, meml, nodel)
    decreases t, 0
  {
    match t
    case Leaf(_, blocks) =>
      forall x | x in blocks ensures x.rect.memLen * x.rect.nodeLen < WORD {
        assert x in Contents(t);
        ProductMonotone(x.rect.memLen, space.memLen, x.rect.nodeLen, space.nodeLen);
      }
      ScanInOrder(blocks, startNode, meml, nodel);
    case Inner(_, _, kids) =>
      SearchKidsInOrder(kids, startNode, meml, nodel, space);
  }

  lemma {:induction false} ScanInOrder(blocks: seq<Block>, startNode: nat, meml: nat, nodel: nat)
    requires forall x :: x in blocks ==> x.rect.memLen * x.rect.nodeLen < WORD
    ensures ScanBlocks(blocks, startNode, meml, nodel) == Fitting(blocks, startNode, meml, nodel)
  {
    if blocks != [] {
      var n := |blocks| - 1;
      var b := blocks[n];
      assert blocks == blocks[..n] + [b] && b in blocks;
      ScanInOrder(blocks[..n], startNode, meml, nodel);
      FittingAppend(blocks[..n], [b], startNode, meml, nodel);
      if b.rect.Fit(startNode, meml, nodel) { FitMonotone(b.rect, b.rect, startNode, meml, nodel); }
      FittingOne(b, startNode, meml, nodel);
    }
  }

  lemma FittingOne(b: Block, startNode: nat, meml: nat, nodel: nat)
    ensures Fitting([b], startNode, meml, nodel) == if b.rect.Fit(startNode, meml, nodel) then [b] else []
  {
    hide Rect.Fit;
    assert [b][1..] == [];
  }

  lemma {:induction false} SearchKidsInOrder(kids: seq<Tree>, startNode: nat, meml: nat, nodel: nat, space: Rect)
    requires forall k :: k in kids ==> WellFormed(k)
    requires space.memLen * space.nodeLen < WORD
    requires forall x :: x in Sum(kids) ==> space.Covers(x.rect)
    ensures SearchKids(kids, startNode, meml, nodel) == Fitting(ListingOf(kids), startNode, meml, nodel)
    decreases kids, 1
  {
    hide Rect.Fit, Rect.Area, Wrap, WellFormed;
    if kids != [] {
      var n := |kids| - 1;
      var k := kids[n];
      assert kids[..n] + [k] == kids;
      SumAppend(kids[..n], [k]);
      assert Sum([k]) == Contents(k);
      assert k in kids;
      SearchKidsInOrder(kids[..n], startNode, meml, nodel, space);
      FittingAppend(ListingOf(kids[..n]), Listing(k), startNode, meml, nodel);
      if k.rect.Area() < Wrap(meml * nodel) || !k.rect.Fit(startNode, meml, nodel) {
        forall b | b in Listing(k) ensures !b.rect.Fit(startNode, meml, nodel) {
          ListingHolds(k);
          assert b in multiset(Listing(k));
          PrunedHasNoFit(k, startNode, meml, nodel, space, b);
        }
        FittingNone(Listing(k), startNode, meml, nodel);
      } else {
        WellFormedFacts(k);
        SearchInOrder(k, startNode, meml, nodel, space);
      }
    }
  }

  /** `b` is what a request gets from the tree: in a leaf the first block that it fits, in an
      inner node what it gets from the first child that stores one. */
  ghost predicate Picked(t: Tree, startNode: nat, meml: nat, nodel: nat, b: Block) {
    match t
    case Leaf(_, blocks) =>
      exists i :: 0 <= i < |blocks| && blocks[i] == b && b.rect.Fit(startNode, meml, nodel) &&
        forall j :: 0 <= j < i ==> !blocks[j].rect.Fit(startNode, meml, nodel)
    case Inner(_, _, kids) =>
      exists i :: 0 <= i < |kids| && Picked(kids[i], startNode, meml, nodel, b) &&
        forall j, x :: 0 <= j < i && x in Contents(kids[j]) ==> !x.rect.Fit(startNode, meml, nodel)
  }

  /** What heads the list that the search yields. */
  lemma {:induction false} FirstIsPicked(t: Tree, startNode: nat, meml: nat, nodel: nat)
    requires Fitting(Listing(t), startNode, meml, nodel) != []
    ensures Picked(t, startNode, meml, nodel, Fitting(Listing(t), startNode, meml, nodel)[0])
    decreases t, 0
  {
    match t
    case Leaf(_, blocks) =>
      var i := FittingFirst(blocks, startNode, meml, nodel);
    case Inner(_, _, kids) =>
      var i := FirstKid(kids, startNode, meml, nodel);
      FirstIsPicked(kids[i], startNode, meml, nodel);
  }

  lemma {:induction false} FirstKid(kids: seq<Tree>, startNode: nat, meml: nat, nodel: nat) returns (i: nat)
    requires Fitting(ListingOf(kids), startNode, meml, nodel) != []
    ensures i < |kids| && Fitting(Listing(kids[i]), startNode, meml, nodel) != []
    ensures Fitting(Listing(kids[i]), startNode, meml, nodel)[0] == Fitting(ListingOf(kids), startNode, meml, nodel)[0]
    ensures forall j, x :: 0 <= j < i && x in Contents(kids[j]) ==> !x.rect.Fit(startNode, meml, nodel)
    decreases |kids|
  {
    var n := |kids| - 1;
    FittingNil(startNode, meml, nodel);
    assert kids != [] && ListingOf(kids) == ListingOf(kids[..n]) + Listing(kids[n]);
    hide Rect.Fit, Fitting, Listing, ListingOf, Contents;
    FittingAppend(ListingOf(kids[..n]), Listing(kids[n]), startNode, meml, nodel);
    if Fitting(ListingOf(kids[..n]), startNode, meml, nodel) != [] {
      i := FirstKid(kids[..n], startNode, meml, nodel);
    } else {
      i := n;
      NoKid(kids[..n], startNode, meml, nodel);
    }
  }

  lemma NoKid(kids: seq<Tree>, startNode: nat, meml: nat, nodel: nat)
    requires Fitting(ListingOf(kids), startNode, meml, nodel) == []
    ensures forall j, x :: 0 <= j < |kids| && x in Contents(kids[j]) ==> !x.rect.Fit(startNode, meml, nodel)
  {
    hide Rect.Fit, Fitting, Listing, ListingOf, Contents;
    ListingOfHolds(kids);
    forall j, x | 0 <= j < |kids| && x in Contents(kids[j]) ensures !x.rect.Fit(startNode, meml, nodel) {
      InSum(kids, x);
      assert x in multiset(ListingOf(kids));
      NothingFits(ListingOf(kids), x, startNode, meml, nodel);
    }
  }

  lemma {:induction false} NothingFits(bs: seq<Block>, x: Block, startNode: nat, meml: nat, nodel: nat)
    requires x in bs && Fitting(bs, startNode, meml, nodel) == []
    ensures !x.rect.Fit(startNode, meml, nodel)
  {
    hide Rect.Fit;
    if x != bs[0] { NothingFits(bs[1..], x, startNode, meml, nodel); }
  }

  /** From a leaf a request gets a block of least area. */
  lemma PickedLeast(t: Tree, startNode: nat, meml: nat, nodel: nat, b: Block)
    requires t.Leaf? && Shaped(t) && Picked(t, startNode, meml, nodel, b)
    ensures b in Contents(t) && b.rect.Fit(startNode, meml, nodel)
    ensures forall x :: x in Contents(t) && x.rect.Fit(startNode, meml, nodel) ==> b.rect.Area() <= x.rect.Area()
  {
    hide Rect.Fit, Rect.Area;
    var i :| 0 <= i < |t.blocks| && t.blocks[i] == b && forall j :: 0 <= j < i ==> !t.blocks[j].rect.Fit(startNode, meml, nodel);
    forall x | x in Contents(t) && x.rect.Fit(startNode, meml, nodel) ensures b.rect.Area() <= x.rect.Area() {
      var k :| 0 <= k < |t.blocks| && t.blocks[k] == x;
      assert k >= i;
    }
  }

  // ---- lookup -------------------------------------------------------------------

  ghost predicate Stores(t: Tree, r: Rect) {
    exists b :: b in Contents(t) && b.rect == r
  }

  /** Does the overlap-guided descent of `findLeaf` reach a leaf holding rectangle `r`? */
  ghost predicate Finds(t: Tree, r: Rect) {
    match t
    case Leaf(_, blocks) => exists i :: 0 <= i < |blocks| && blocks[i].rect == r
    case Inner(_, _, kids) => exists i :: 0 <= i < |kids| && kids[i].rect.Overlap(r) && Finds(kids[i], r)
  }

  /** The descent only ever reaches a leaf that holds `r` ... */
  lemma {:induction false} FindsSound(t: Tree, r: Rect)
    requires Finds(t, r)
    ensures Stores(t, r)
  {
    match t
    case Leaf(_, blocks) =>
      var i :| 0 <= i < |blocks| && blocks[i].rect == r;
      assert blocks[i] in Contents(t);
    case Inner(_, _, kids) =>
      var i :| 0 <= i < |kids| && kids[i].rect.Overlap(r) && Finds(kids[i], r);
      FindsSound(kids[i], r);
      var b :| b in Contents(kids[i]) && b.rect == r;
      InSum(kids, b);
  }

  /** ... and overlap pruning never cuts the way to a stored block that has cells. */
  lemma {:induction false} FindsComplete(t: Tree, b: Block)
    requires Shaped(t)
    requires b.rect.Positive() && b in Contents(t)
    ensures Finds(t, b.rect)
  {
    match t
    case Leaf(_, blocks) =>
      var i :| 0 <= i < |blocks| && blocks[i] == b;
    case Inner(_, _, kids) =>
      InSum(kids, b);
      var i :| 0 <= i < |kids| && b in Contents(kids[i]);
      assert kids[i] in kids;
      BoxCoversContents(kids[i], b);
      FindsComplete(kids[i], b);
      assert kids[i].rect.Overlap(b.rect);
  }

  /** The child through which the descent for `r` goes: the first that finds it. */
  ghost predicate Hit(kids: seq<Tree>, k: nat, r: Rect) {
    && k < |kids|
    && kids[k].rect.Overlap(r) && Finds(kids[k], r)
    && forall j :: 0 <= j < k ==> !(kids[j].rect.Overlap(r) && Finds(kids[j], r))
  }

  lemma HitUnique(kids: seq<Tree>, j: nat, k: nat, r: Rect)
    requires Hit(kids, j, r) && Hit(kids, k, r)
    ensures j == k
  {
  }

  /** Removing `r` below the non-root node `t` leaves an inner node with one child: the
      leaf found for `r` and the parent of that leaf both hold the minimum. */
  ghost predicate Starves(t: Tree, r: Rect) {
    && t.Inner?
    && (exists k: nat ::
          && Hit(t.kids, k, r)
          && if t.kids[k].Leaf? then |t.kids| == MINNODES && |t.kids[k].blocks| == MINNODES
             else Starves(t.kids[k], r))
  }

  /** Removing `r` from the tree with root `t` underflows an inner node. */
  ghost predicate InnerUnderflow(t: Tree, r: Rect) {
    t.Inner? && exists k: nat :: Hit(t.kids, k, r) && Starves(t.kids[k], r)
  }

  /** The choice in `Starves` is the one the descent makes. */
  lemma StarvesAt(t: Tree, k: nat, r: Rect)
    requires t.Inner? && Hit(t.kids, k, r)
    ensures Starves(t, r) <==>
      if t.kids[k].Leaf? then |t.kids| == MINNODES && |t.kids[k].blocks| == MINNODES
      else Starves(t.kids[k], r)
    ensures InnerUnderflow(t, r) <==> Starves(t.kids[k], r)
  {
    forall j: nat | Hit(t.kids, j, r) ensures j == k {
      HitUnique(t.kids, j, k, r);
    }
  }

  lemma UnderflowIsStarving(t: Tree, r: Rect)
    requires t.Inner? && Shaped(t) && t.height >= 2
    ensures InnerUnderflow(t, r) <==> Starves(t, r)
  {
    forall k: nat | Hit(t.kids, k, r) ensures t.kids[k].Inner? {
      assert t.kids[k] in t.kids && t.kids[k].Level() == t.height - 1;
    }
  }

  /** A tree of at most two levels never underflows an inner node. */
  lemma LowTreesDoNotUnderflow(t: Tree, r: Rect)
    requires WellFormedRoot(t) && t.Level() <= 1
    ensures !InnerUnderflow(t, r)
  {
    if t.Inner? {
      forall k | 0 <= k < |t.kids| ensures t.kids[k].Leaf? {
        assert t.kids[k] in t.kids;
        assert WellFormed(t.kids[k]) && t.kids[k].Level() == 0;
        assert Shaped(t.kids[k]);
      }
    }
  }

  /** Every node but the root stores two blocks or more. */
  lemma {:induction false} StoresTwo(t: Tree)
    requires WellFormed(t)
    ensures |Contents(t)| >= MINNODES
  {
    hide IsHull;
    match t
    case Leaf(_, blocks) =>
    case Inner(_, _, kids) =>
      assert kids[0] in kids;
      StoresTwo(kids[0]);
  }

  lemma OneBlockIsLeaf(t: Tree)
    requires WellFormedRoot(t) && |Contents(t)| <= 1
    ensures t.Leaf?
  {
    hide WellFormed;
    if t.Inner? {
      assert t.kids[0] in t.kids;
      StoresTwo(t.kids[0]);
    }
  }

  /** A path through a root, an inner node with two children and a leaf with two blocks. */
  lemma ThinPathUnderflows(t: Tree, j: nat, i: nat, r: Rect)
    requires t.Inner? && Hit(t.kids, j, r) && t.kids[j].Inner? && Hit(t.kids[j].kids, i, r) && t.kids[j].kids[i].Leaf?
    ensures InnerUnderflow(t, r) <==> |t.kids[j].kids| == MINNODES && |t.kids[j].kids[i].blocks| == MINNODES
  {
    StarvesAt(t, j, r);
    StarvesAt(t.kids[j], i, r);
  }

  /** The least tree of three levels: eight unit blocks, each node with two entries. */
  function Unit(k: nat): Block { Block(Rect(k, 0, 1, 1), 64) }

  function Twin(k: nat): Tree { Leaf(Rect(k, 0, 2, 1), [Unit(k), Unit(k + 1)]) }

  function Branch(k: nat): Tree { Inner(Rect(k, 0, 4, 1), 1, [Twin(k), Twin(k + 2)]) }

  function LeastTree(): Tree { Inner(Rect(0, 0, 8, 1), 2, [Branch(0), Branch(4)]) }

  lemma TwinFormed(k: nat)
    ensures WellFormed(Twin(k)) && Finds(Twin(k), Unit(k).rect)
  {
    var es := Twin(k).Entries();
    assert es[0] == Unit(k).rect && es[1] == Unit(k + 1).rect;
    assert Twin(k).blocks[0].rect == Unit(k).rect;
  }

  /** Two well-formed neighbours of one level under one box. */
  lemma PairFormed(t: Tree, a: Tree, b: Tree)
    requires t.Inner? && t.kids == [a, b] && WellFormed(a) && WellFormed(b)
    requires a.Level() == b.Level() == t.height - 1 && t.rect.memStart == a.rect.memStart
    requires t.rect.nodeStart == a.rect.nodeStart == b.rect.nodeStart && t.rect.nodeLen == a.rect.nodeLen == b.rect.nodeLen
    requires b.rect.memStart == a.rect.MemEnd() && t.rect.MemEnd() == b.rect.MemEnd()
    ensures WellFormed(t)
  {
    hide Shaped, IsHull;
    PairBoxed(t, a, b);
    PairShaped(t, a, b);
  }

  lemma PairBoxed(t: Tree, a: Tree, b: Tree)
    requires t.Inner? && t.kids == [a, b] && t.rect.memStart == a.rect.memStart
    requires t.rect.nodeStart == a.rect.nodeStart == b.rect.nodeStart && t.rect.nodeLen == a.rect.nodeLen == b.rect.nodeLen
    requires b.rect.memStart == a.rect.MemEnd() && t.rect.MemEnd() == b.rect.MemEnd()
    ensures IsHull(t.rect, t.Entries())
  {
    var es := t.Entries();
    assert es[0] == a.rect && es[1] == b.rect;
  }

  lemma PairShaped(t: Tree, a: Tree, b: Tree)
    requires t.Inner? && t.kids == [a, b] && WellFormed(a) && WellFormed(b)
    requires a.Level() == b.Level() == t.height - 1
    ensures Shaped(t)
  {
    hide IsHull;
    assert t.height > 0;
    assert forall k :: k in t.kids ==> k == a || k == b;
  }

  lemma FirstHit(t: Tree, r: Rect)
    requires t.Inner? && t.kids != [] && t.kids[0].rect.Overlap(r) && Finds(t.kids[0], r)
    ensures Hit(t.kids, 0, r) && Finds(t, r)
  {
  }

  lemma BranchFormed(k: nat)
    ensures WellFormed(Branch(k)) && Hit(Branch(k).kids, 0, Unit(k).rect) && Finds(Branch(k), Unit(k).rect)
  {
    hide Finds, WellFormed, Hit;
    TwinFormed(k);
    TwinFormed(k + 2);
    PairFormed(Branch(k), Twin(k), Twin(k + 2));
    FirstHit(Branch(k), Unit(k).rect);
  }

  lemma FirstStored(t: Tree, b: Block)
    requires t.Inner? && t.kids != [] && b in Contents(t.kids[0])
    ensures b in Contents(t)
  {
  }

  /** It is a well-formed tree, and removing its first block starves an inner node. */
  lemma LeastTreeUnderflows()
    ensures WellFormedRoot(LeastTree()) && LeastTree().Size() >= MINNODES
    ensures Unit(0) in Contents(LeastTree()) && InnerUnderflow(LeastTree(), Unit(0).rect)
  {
    hide WellFormed, Finds, Hit, InnerUnderflow, Shaped, Contents;
    BranchFormed(0);
    BranchFormed(4);
    PairFormed(LeastTree(), Branch(0), Branch(4));
    WellFormedFacts(LeastTree());
    FirstHit(LeastTree(), Unit(0).rect);
    ThinPathUnderflows(LeastTree(), 0, 0, Unit(0).rect);
    assert Unit(0) in Contents(Twin(0)) by { TwinStores(0); }
    FirstStored(Branch(0), Unit(0));
    FirstStored(LeastTree(), Unit(0));
  }

  lemma TwinStores(k: nat)
    ensures Unit(k) in Contents(Twin(k))
  {
    assert Twin(k).blocks[0] == Unit(k);
  }
}
