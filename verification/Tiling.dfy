/** How a request is cut out of a free rectangle and put back, on rectangles
    (updown/libraries/dramalloc/alloc.cpp:35-47, 77-121, 131-177). */
module Tiling {
  import opened Rects

  /** A request with the memory address it was granted. */
  datatype Grant = Grant(base: nat, size: nat, blockSize: nat, nbNodes: nat, startNode: nat)
  {
    predicate WellPosed() { size > 0 && blockSize > 0 && nbNodes > 0 && Blocks() >= nbNodes }

    function Blocks(): nat
      requires blockSize > 0
    {
      size / blockSize + if size % blockSize != 0 then 1 else 0
    }

    /** Blocks fill whole rows across the nodes. */
    predicate FullRect()
      requires blockSize > 0 && nbNodes > 0
    {
      Blocks() % nbNodes == 0
    }

    function MemLength(): nat
      requires blockSize > 0 && nbNodes > 0
    {
      (Blocks() / nbNodes + if FullRect() then 0 else 1) * blockSize
    }

    /** The rows that are full across all nodes, and the blocks of the last one if not. */
    function Footprint(): seq<Rect>
      requires WellPosed()
    {
      Facts();
      if FullRect() then [Rect(base, startNode, MemLength(), nbNodes)]
      else [Rect(base, startNode, MemLength() - blockSize, nbNodes),
            Rect(base + MemLength() - blockSize, startNode, blockSize, Blocks() % nbNodes)]
    }

    predicate Occupies(m: nat, n: nat)
      requires WellPosed()
    {
      exists i :: 0 <= i < |Footprint()| && Footprint()[i].Has(m, n)
    }

    /** The cells a live request holds. */
    predicate Uses(m: nat, n: nat) { WellPosed() && Occupies(m, n) }

    lemma Facts()
      requires WellPosed()
      ensures MemLength() >= blockSize
      ensures !FullRect() ==> 0 < Blocks() % nbNodes < nbNodes && MemLength() >= 2 * blockSize
      ensures (Blocks() / nbNodes) * blockSize == MemLength() - if FullRect() then 0 else blockSize
    {
      var q := Blocks() / nbNodes;
      ProductMonotone(1, q, blockSize, blockSize);
      Distribute(q, 1, blockSize);
    }

    /** The memory length in blocks. */
    lemma Sides()
      requires WellPosed()
      ensures FullRect() <==> Blocks() % nbNodes == 0
      ensures MemLength() == (Blocks() / nbNodes + if FullRect() then 0 else 1) * blockSize
      ensures !FullRect() ==> MemLength() - blockSize == (Blocks() / nbNodes) * blockSize
    {
      Facts();
    }

    /** The footprint is exactly as large as the blocks of the request together. */
    lemma FootprintArea()
      requires WellPosed()
      ensures FullRect() ==> MemLength() * nbNodes == Blocks() * blockSize
      ensures !FullRect() ==> (MemLength() - blockSize) * nbNodes + blockSize * (Blocks() % nbNodes) == Blocks() * blockSize
      ensures size <= Blocks() * blockSize < size + blockSize
    {
      hide Blocks, MemLength, Footprint;
      Facts();
      BlocksEnough();
      var q, r := Blocks() / nbNodes, Blocks() % nbNodes;
      Distribute(q * nbNodes, r, blockSize);
      Reorder(q, blockSize, nbNodes);
    }

    lemma BlocksEnough()
      requires blockSize > 0
      ensures size <= Blocks() * blockSize < size + blockSize
    {
      var k := size / blockSize;
      assert size == k * blockSize + size % blockSize;
      Distribute(k, 1, blockSize);
    }

    /** The 64-bit computation of the memory length does not wrap. */
    lemma MemLengthFits()
      requires WellPosed() && nbNodes >= 2 && size < WORD
      ensures MemLength() < WORD
    {
      hide Blocks, MemLength, Footprint;
      Facts();
      BlocksEnough();
      var q, r, all := Blocks() / nbNodes, Blocks() % nbNodes, Blocks();
      assert all == q * nbNodes + r;
      ProductMonotone(q, q, 2, nbNodes);
      if r == 0 {
        ProductMonotone(2 * q, all, blockSize, blockSize);
        Distribute(q, q, blockSize);
        ProductMonotone(1, q, blockSize, blockSize);
      } else {
        ProductMonotone(q + 1, all - 1, blockSize, blockSize);
        Distribute(q, 1, blockSize);
        Distribute(all - 1, 1, blockSize);
      }
    }
  }

  lemma Distribute(a: nat, b: nat, c: nat)
    ensures (a + b) * c == a * c + b * c
  {
  }

  lemma Reorder(a: nat, b: nat, c: nat)
    ensures (a * b) * c == (a * c) * b
  {
  }

  /** The leftovers of free rectangle `s` in the order in which they are put back: right of
      the request, beside its last row, below it, left of it. */
  function Leftovers(s: Rect, g: Grant): seq<Block>
    requires g.WellPosed()
  {
    RightPiece(s, g) + RowPiece(s, g) + LowerPiece(s, g) + LeftPiece(s, g)
  }

  function RightPiece(s: Rect, g: Grant): seq<Block>
    requires g.WellPosed()
  {
    g.Facts();
    if g.startNode + g.nbNodes < s.NodeEnd()
    then [Block(Rect(s.memStart, g.startNode + g.nbNodes,
                     g.MemLength() - (if g.FullRect() then 0 else g.blockSize),
                     s.NodeEnd() - (g.startNode + g.nbNodes)), g.blockSize)]
    else []
  }

  /** The node start of the selected rectangle is added to the start node of the request,
      as the source does; the length is a 64-bit difference. */
  function RowPiece(s: Rect, g: Grant): seq<Block>
    requires g.WellPosed()
  {
    if g.FullRect() then []
    else
      var n := s.nodeStart + (g.startNode + g.Blocks() % g.nbNodes);
      [Block(Rect(s.memStart + (g.Blocks() / g.nbNodes) * g.blockSize, n, g.blockSize, Wrap(s.NodeEnd() - n)), g.blockSize)]
  }

  function LowerPiece(s: Rect, g: Grant): seq<Block>
    requires g.WellPosed()
  {
    if g.MemLength() != s.memLen
    then [Block(Rect(s.memStart + g.MemLength(), s.nodeStart, Wrap(s.memLen - g.MemLength()), s.nodeLen), g.blockSize)]
    else []
  }

  function LeftPiece(s: Rect, g: Grant): seq<Block>
    requires g.WellPosed()
  {
    if g.startNode != s.nodeStart
    then [Block(Rect(s.memStart, s.nodeStart, g.MemLength(), Wrap(g.startNode - s.nodeStart)), g.blockSize)]
    else []
  }

  /** What `free` puts back: the last row, if it is shorter, then the full rows. */
  function Freed(g: Grant): seq<Block>
    requires g.WellPosed()
  {
    if g.FullRect() then [Block(g.Footprint()[0], g.blockSize)]
    else [Block(g.Footprint()[1], g.blockSize), Block(g.Footprint()[0], g.blockSize)]
  }

  predicate Holds(bs: seq<Block>, m: nat, n: nat) {
    exists i :: 0 <= i < |bs| && bs[i].rect.Has(m, n)
  }

  /** The rectangles in `bs` have cells, lie in `s` and are pairwise disjoint. */
  ghost predicate Apart(bs: seq<Block>, s: Rect) {
    && (forall i :: 0 <= i < |bs| ==> bs[i].rect.Positive() && s.Covers(bs[i].rect))
    && forall i, j :: 0 <= i < j < |bs| ==> !bs[i].rect.Overlap(bs[j].rect)
  }

  /** The request at the start of `s` and the leftovers share out the cells of `s`. */
  ghost predicate SharedOut(s: Rect, g: Grant)
    requires g.WellPosed()
  {
    && Apart(Leftovers(s, g), s)
    && (forall m, n :: s.Has(m, n) <==> g.Occupies(m, n) || Holds(Leftovers(s, g), m, n))
    && forall m, n :: !(g.Occupies(m, n) && Holds(Leftovers(s, g), m, n))
  }

  /** Exactly when the pieces share out the selected rectangle: the row piece is misplaced
      unless the request needs none or the rectangle starts at node 0. */
  lemma SharedOutIff(s: Rect, g: Grant)
    requires g.WellPosed() && g.base == s.memStart && s.Fit(g.startNode, g.MemLength(), g.nbNodes)
    requires s.MemEnd() < WORD && s.NodeEnd() < WORD
    ensures SharedOut(s, g) <==> g.FullRect() || s.nodeStart == 0
  {
    g.Facts();
    if g.FullRect() || s.nodeStart == 0 {
      PiecesApart(s, g);
      PiecesCover(s, g);
    } else {
      LostCell(s, g);
    }
  }

  lemma OccupiesMeans(g: Grant, m: nat, n: nat)
    requires g.WellPosed()
    ensures g.FullRect() ==>
      (g.Occupies(m, n) <==> g.base <= m < g.base + g.MemLength() && g.startNode <= n < g.startNode + g.nbNodes)
    ensures !g.FullRect() ==>
      (g.Occupies(m, n) <==>
        g.base <= m < g.base + g.MemLength() && g.startNode <= n < g.startNode + g.nbNodes &&
        (m < g.base + g.MemLength() - g.blockSize || n < g.startNode + g.Blocks() % g.nbNodes))
  {
    hide Grant.MemLength, Grant.Blocks;
    g.Facts();
    if g.FullRect() {
      assert g.Footprint()[0].Has(m, n) <==> g.Occupies(m, n);
    } else {
      assert g.Footprint()[0].Has(m, n) || g.Footprint()[1].Has(m, n) <==> g.Occupies(m, n);
    }
  }

  lemma HoldsJoin(a: seq<Block>, b: seq<Block>, m: nat, n: nat)
    ensures Holds(a + b, m, n) <==> Holds(a, m, n) || Holds(b, m, n)
  {
    if Holds(a, m, n) {
      var i :| 0 <= i < |a| && a[i].rect.Has(m, n);
      assert (a + b)[i].rect.Has(m, n);
    }
    if Holds(b, m, n) {
      var i :| 0 <= i < |b| && b[i].rect.Has(m, n);
      assert (a + b)[|a| + i].rect.Has(m, n);
    }
  }

  lemma HoldsOne(a: seq<Block>, m: nat, n: nat)
    requires |a| <= 1
    ensures Holds(a, m, n) <==> |a| == 1 && a[0].rect.Has(m, n)
  {
    if |a| == 1 && a[0].rect.Has(m, n) {
      assert Holds(a, m, n);
    }
  }

  lemma HoldsLeftovers(s: Rect, g: Grant, m: nat, n: nat)
    requires g.WellPosed()
    ensures Holds(Leftovers(s, g), m, n) <==>
      Holds(RightPiece(s, g), m, n) || Holds(RowPiece(s, g), m, n) || Holds(LowerPiece(s, g), m, n) || Holds(LeftPiece(s, g), m, n)
  {
    hide Grant.MemLength, Grant.Blocks, RightPiece, RowPiece, LowerPiece, LeftPiece;
    HoldsJoin(RightPiece(s, g), RowPiece(s, g), m, n);
    HoldsJoin(RightPiece(s, g) + RowPiece(s, g), LowerPiece(s, g), m, n);
    HoldsJoin(RightPiece(s, g) + RowPiece(s, g) + LowerPiece(s, g), LeftPiece(s, g), m, n);
  }

  lemma PiecesCover(s: Rect, g: Grant)
    requires g.WellPosed() && g.base == s.memStart && s.Fit(g.startNode, g.MemLength(), g.nbNodes)
    requires s.MemEnd() < WORD && s.NodeEnd() < WORD
    requires g.FullRect() || s.nodeStart == 0
    ensures forall m, n :: Holds(Leftovers(s, g), m, n) <==> s.Has(m, n) && !g.Occupies(m, n)
    ensures forall m, n :: g.Occupies(m, n) ==> s.Has(m, n)
  {
    hide Grant.MemLength, Grant.Blocks, Grant.Occupies, Leftovers;
    forall m, n ensures Holds(Leftovers(s, g), m, n) <==> s.Has(m, n) && !g.Occupies(m, n) {
      g.Facts();
      OccupiesMeans(g, m, n);
      HoldsLeftovers(s, g, m, n);
      HoldsOne(RightPiece(s, g), m, n);
      HoldsOne(RowPiece(s, g), m, n);
      HoldsOne(LowerPiece(s, g), m, n);
      HoldsOne(LeftPiece(s, g), m, n);
    }
    forall m, n | g.Occupies(m, n) ensures s.Has(m, n) {
      g.Facts();
      OccupiesMeans(g, m, n);
    }
  }

  lemma ApartJoin(a: seq<Block>, b: seq<Block>, s: Rect)
    requires Apart(a, s) && Apart(b, s)
    requires forall i, j :: 0 <= i < |a| && 0 <= j < |b| ==> !a[i].rect.Overlap(b[j].rect)
    ensures Apart(a + b, s)
  {
  }

  lemma PiecesApart(s: Rect, g: Grant)
    requires g.WellPosed() && g.base == s.memStart && s.Fit(g.startNode, g.MemLength(), g.nbNodes)
    requires s.MemEnd() < WORD && s.NodeEnd() < WORD
    requires g.FullRect() || s.nodeStart == 0
    ensures Apart(Leftovers(s, g), s)
  {
    hide RightPiece, RowPiece, LowerPiece, LeftPiece, Apart, Grant.MemLength, Grant.Blocks, Rect.Fit;
    BesideApart(s, g);
    OthersApart(s, g);
    ApartJoin(RightPiece(s, g) + RowPiece(s, g), LowerPiece(s, g) + LeftPiece(s, g), s);
    assert Leftovers(s, g) == RightPiece(s, g) + RowPiece(s, g) + (LowerPiece(s, g) + LeftPiece(s, g));
  }

  lemma BesideApart(s: Rect, g: Grant)
    requires g.WellPosed() && g.base == s.memStart && s.Fit(g.startNode, g.MemLength(), g.nbNodes)
    requires s.MemEnd() < WORD && s.NodeEnd() < WORD
    requires g.FullRect() || s.nodeStart == 0
    ensures Apart(RightPiece(s, g) + RowPiece(s, g), s)
  {
    hide Grant.MemLength, Grant.Blocks;
    g.Facts();
    ApartJoin(RightPiece(s, g), RowPiece(s, g), s);
  }

  lemma OthersApart(s: Rect, g: Grant)
    requires g.WellPosed() && g.base == s.memStart && s.Fit(g.startNode, g.MemLength(), g.nbNodes)
    requires s.MemEnd() < WORD && s.NodeEnd() < WORD
    requires g.FullRect() || s.nodeStart == 0
    ensures Apart(LowerPiece(s, g) + LeftPiece(s, g), s)
    ensures var a, b := RightPiece(s, g) + RowPiece(s, g), LowerPiece(s, g) + LeftPiece(s, g);
      forall i, j :: 0 <= i < |a| && 0 <= j < |b| ==> !a[i].rect.Overlap(b[j].rect)
  {
    hide Grant.MemLength, Grant.Blocks;
    g.Facts();
    ApartJoin(LowerPiece(s, g), LeftPiece(s, g), s);
  }

  /** The first cell beside the last row is in no piece when the row piece is misplaced. */
  lemma LostCell(s: Rect, g: Grant)
    requires g.WellPosed() && g.base == s.memStart && s.Fit(g.startNode, g.MemLength(), g.nbNodes)
    requires s.MemEnd() < WORD && s.NodeEnd() < WORD
    requires !g.FullRect() && s.nodeStart > 0
    ensures exists m, n :: s.Has(m, n) && !g.Occupies(m, n) && !Holds(Leftovers(s, g), m, n)
  {
    hide Grant.MemLength, Grant.Blocks, Grant.Occupies, Leftovers;
    g.Facts();
    var m, n := s.memStart + g.MemLength() - g.blockSize, g.startNode + g.Blocks() % g.nbNodes;
    OccupiesMeans(g, m, n);
    HoldsLeftovers(s, g, m, n);
    assert s.Has(m, n) && !g.Occupies(m, n) && !Holds(Leftovers(s, g), m, n);
  }

  /** `free` puts back the cells of the footprint, each once. */
  lemma FreedCover(g: Grant, arena: Rect)
    requires g.WellPosed() && forall m, n :: g.Occupies(m, n) ==> arena.Has(m, n)
    ensures Apart(Freed(g), arena)
    ensures forall m, n :: Holds(Freed(g), m, n) <==> g.Occupies(m, n)
  {
    hide Grant.MemLength, Grant.Blocks, Rect.Covers, Rect.Has;
    g.Facts();
    FreedCells(g);
    forall i | 0 <= i < |Freed(g)| ensures Freed(g)[i].rect.Positive() && arena.Covers(Freed(g)[i].rect) {
      forall m, n | Freed(g)[i].rect.Has(m, n) ensures arena.Has(m, n) {
        assert Holds(Freed(g), m, n);
      }
      CoversByCells(arena, Freed(g)[i].rect);
    }
  }

  lemma FreedCells(g: Grant)
    requires g.WellPosed()
    ensures forall m, n :: Holds(Freed(g), m, n) <==> g.Occupies(m, n)
  {
    hide Grant.MemLength, Grant.Blocks, Rect.Has;
    forall m, n ensures Holds(Freed(g), m, n) <==> g.Occupies(m, n) {
      if g.Occupies(m, n) {
        var i :| 0 <= i < |g.Footprint()| && g.Footprint()[i].Has(m, n);
        assert Freed(g)[if g.FullRect() then 0 else 1 - i].rect.Has(m, n);
      }
      if Holds(Freed(g), m, n) {
        var i :| 0 <= i < |Freed(g)| && Freed(g)[i].rect.Has(m, n);
        assert g.Footprint()[if g.FullRect() then 0 else 1 - i].Has(m, n);
      }
    }
  }

  lemma CoversByCells(o: Rect, r: Rect)
    requires r.Positive() && forall m, n :: r.Has(m, n) ==> o.Has(m, n)
    ensures o.Covers(r)
  {
    assert r.Has(r.memStart, r.nodeStart) && r.Has(r.MemEnd() - 1, r.NodeEnd() - 1);
  }
}
