/** Rectangles of the memory x node plane, and the blocks that carry them
    (updown/libraries/dramalloc/rtree.h).

    Coordinates are natural numbers: every rectangle the allocator stores lies inside
    its arena (proved in module Allocation), whose ends fit a 64-bit word, so the
    additions of the source do not wrap.  Areas are products and may wrap, so `Area`
    keeps the 64-bit truncation. */
module Rects {
  const WORD: nat := 0x1_0000_0000_0000_0000

  /** The value a 64-bit unsigned register holds after a computation yielding `x`. */
  function Wrap(x: int): (r: nat)
    ensures 0 <= x < WORD ==> r == x
    ensures r < WORD
  {
    x % WORD
  }

  function Min(a: nat, b: nat): nat { if b < a then b else a }
  function Max(a: nat, b: nat): nat { if a < b then b else a }

  datatype Rect = Rect(memStart: nat, nodeStart: nat, memLen: nat, nodeLen: nat)
  {
    function MemEnd(): nat { memStart + memLen }

    function NodeEnd(): nat { nodeStart + nodeLen }

    function Area(): nat { Wrap(memLen * nodeLen) }

    /** True of rectangles that contain at least one cell. */
    predicate Positive() { memLen > 0 && nodeLen > 0 }

    /** True when cell (m, n) lies in the rectangle. */
    predicate Has(m: nat, n: nat) {
      memStart <= m < MemEnd() && nodeStart <= n < NodeEnd()
    }

    predicate Covers(o: Rect) {
      memStart <= o.memStart && o.MemEnd() <= MemEnd() &&
      nodeStart <= o.nodeStart && o.NodeEnd() <= NodeEnd()
    }

    function BoundingBox(b: Rect): (r: Rect)
      ensures r.Covers(this) && r.Covers(b)
      ensures r.memStart == memStart || r.memStart == b.memStart
      ensures r.nodeStart == nodeStart || r.nodeStart == b.nodeStart
      ensures r.MemEnd() == MemEnd() || r.MemEnd() == b.MemEnd()
      ensures r.NodeEnd() == NodeEnd() || r.NodeEnd() == b.NodeEnd()
    {
      var m := Min(memStart, b.memStart);
      var n := Min(nodeStart, b.nodeStart);
      Rect(m, n, Max(MemEnd(), b.MemEnd()) - m, Max(NodeEnd(), b.NodeEnd()) - n)
    }

    /** Does a request for `meml` memory on `nodel` nodes from `startNode` fit here? */
    predicate Fit(startNode: nat, meml: nat, nodel: nat) {
      if memLen < meml || nodeLen < nodel then false
      else if startNode < nodeStart || startNode > nodeStart + nodeLen then false
      else if startNode + nodel > nodeStart + nodeLen then false
      else true
    }

    predicate Overlap(b: Rect) {
      !(memStart >= b.MemEnd() || MemEnd() <= b.memStart ||
        nodeStart >= b.NodeEnd() || NodeEnd() <= b.nodeStart)
    }
  }

  datatype Block = Block(rect: Rect, blockSize: nat)

  const ZERO_BLOCK := Block(Rect(0, 0, 0, 0), 0)

  /** `r` is the bounding box of `rs`: it covers all of them, and each of its four
      sides is met by one of them. */
  predicate IsHull(r: Rect, rs: seq<Rect>) {
    && (forall i :: 0 <= i < |rs| ==> r.Covers(rs[i]))
    && (exists i :: 0 <= i < |rs| && rs[i].memStart == r.memStart)
    && (exists i :: 0 <= i < |rs| && rs[i].nodeStart == r.nodeStart)
    && (exists i :: 0 <= i < |rs| && rs[i].MemEnd() == r.MemEnd())
    && (exists i :: 0 <= i < |rs| && rs[i].NodeEnd() == r.NodeEnd())
  }

  /** The bounding box is the least rectangle covering the entries, hence unique. */
  lemma HullIsLeast(r: Rect, rs: seq<Rect>, o: Rect)
    requires IsHull(r, rs)
    requires forall i :: 0 <= i < |rs| ==> o.Covers(rs[i])
    ensures o.Covers(r)
  {
    var i :| 0 <= i < |rs| && rs[i].memStart == r.memStart;
    var j :| 0 <= j < |rs| && rs[j].nodeStart == r.nodeStart;
    var k :| 0 <= k < |rs| && rs[k].MemEnd() == r.MemEnd();
    var l :| 0 <= l < |rs| && rs[l].NodeEnd() == r.NodeEnd();
    assert o.Covers(rs[i]) && o.Covers(rs[j]) && o.Covers(rs[k]) && o.Covers(rs[l]);
  }

  lemma HullOfOne(rs: seq<Rect>)
    requires |rs| > 0
    ensures IsHull(rs[0], rs[..1])
  {
    assert rs[..1][0] == rs[0];
  }

  /** Growing the bounding box of a prefix by the next rectangle, as `updateBB` does. */
  lemma HullExtend(r: Rect, rs: seq<Rect>, n: nat)
    requires n < |rs| && IsHull(r, rs[..n])
    ensures IsHull(r.BoundingBox(rs[n]), rs[..n + 1])
  {
    var ps, ss := rs[..n], rs[..n + 1];
    var q := r.BoundingBox(rs[n]);
    assert ss[n] == rs[n];
    forall i | 0 <= i < |ss| ensures q.Covers(ss[i]) {
      if i < n { assert r.Covers(ps[i]); }
    }
    var i :| 0 <= i < n && ps[i].memStart == r.memStart;
    var j :| 0 <= j < n && ps[j].nodeStart == r.nodeStart;
    var k :| 0 <= k < n && ps[k].MemEnd() == r.MemEnd();
    var l :| 0 <= l < n && ps[l].NodeEnd() == r.NodeEnd();
    assert ss[i] == ps[i] && ss[j] == ps[j] && ss[k] == ps[k] && ss[l] == ps[l];
  }

  /** Two rectangles that share a cell overlap, and only those. */
  lemma OverlapIffCommonCell(a: Rect, b: Rect)
    requires a.Positive() && b.Positive()
    ensures a.Overlap(b) <==> exists m, n :: a.Has(m, n) && b.Has(m, n)
  {
    if a.Overlap(b) {
      assert a.Has(Max(a.memStart, b.memStart), Max(a.nodeStart, b.nodeStart));
      assert b.Has(Max(a.memStart, b.memStart), Max(a.nodeStart, b.nodeStart));
    }
  }

  /** A request fits where there is room for it at its start node. */
  lemma RoomIff(r: Rect, startNode: nat, meml: nat, nodel: nat)
    ensures r.Fit(startNode, meml, nodel) <==> exists m: nat :: r.Covers(Rect(m, startNode, meml, nodel))
  {
    if r.Fit(startNode, meml, nodel) {
      assert r.Covers(Rect(r.memStart, startNode, meml, nodel));
    }
  }

  /** A request that fits a rectangle fits every rectangle covering it, and asks for no
      more area: the two tests by which `search` prunes a subtree. */
  lemma FitMonotone(outer: Rect, inner: Rect, startNode: nat, meml: nat, nodel: nat)
    requires outer.Covers(inner) && inner.Fit(startNode, meml, nodel)
    requires outer.memLen * outer.nodeLen < WORD
    ensures outer.Fit(startNode, meml, nodel)
    ensures Wrap(meml * nodel) <= outer.Area()
  {
    ProductMonotone(meml, outer.memLen, nodel, outer.nodeLen);
  }

  lemma ProductMonotone(a: nat, b: nat, c: nat, d: nat)
    requires a <= b && c <= d
    ensures a * c <= b * d
  {
    assert a * c <= b * c;
    assert b * c <= b * d;
  }
}
