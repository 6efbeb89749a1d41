/** The allocator: free rectangles kept in an R-tree, requests cut out of them
    (updown/libraries/dramalloc/alloc.cpp). */
module Allocation {
  import opened Bits
  import opened Rects
  import opened RTrees
  import opened Seqs
  import opened Tiling
  import opened TreeModel

  /** The pointer value by which `allocate` reports failure. */
  const FAILED: nat := WORD - 1

  ghost predicate IsFree(free: multiset<Block>, m: nat, n: nat) {
    exists b :: b in free && b.rect.Has(m, n)
  }

  ghost predicate IsTaken(live: set<Grant>, m: nat, n: nat) {
    exists g :: g in live && g.Uses(m, n)
  }

  /** The free blocks have cells, lie in the arena and do not overlap. */
  ghost predicate Disjoint(free: multiset<Block>, arena: Rect) {
    && (forall b :: b in free ==> free[b] == 1 && b.rect.Positive() && arena.Covers(b.rect))
    && forall b, c :: b in free && c in free && b != c ==> !b.rect.Overlap(c.rect)
  }

  /** Free rectangles and live footprints are pairwise disjoint and together are the arena. */
  ghost predicate Conserved(free: multiset<Block>, live: set<Grant>, arena: Rect) {
    && Disjoint(free, arena)
    && (forall g :: g in live ==> g.WellPosed())
    && (forall g, h, m, n :: g in live && h in live && g.Uses(m, n) && h.Uses(m, n) ==> g == h)
    && (forall m, n :: !(IsFree(free, m, n) && IsTaken(live, m, n)))
    && forall m, n :: arena.Has(m, n) <==> IsFree(free, m, n) || IsTaken(live, m, n)
  }

  /** Putting apart rectangles into a free list none of whose cells they hold. */
  lemma AddApart(free: multiset<Block>, ls: seq<Block>, arena: Rect)
    requires Disjoint(free, arena) && Apart(ls, arena)
    requires forall m, n :: !(IsFree(free, m, n) && Holds(ls, m, n))
    ensures Disjoint(free + multiset(ls), arena)
    ensures forall m, n :: IsFree(free + multiset(ls), m, n) <==> IsFree(free, m, n) || Holds(ls, m, n)
  {
    AddDisjoint(free, ls, arena);
    AddFree(free, ls);
  }

  lemma AddDisjoint(free: multiset<Block>, ls: seq<Block>, arena: Rect)
    requires Disjoint(free, arena) && Apart(ls, arena)
    requires forall m, n :: !(IsFree(free, m, n) && Holds(ls, m, n))
    ensures Disjoint(free + multiset(ls), arena)
  {
    hide Rect.Overlap, Rect.Covers, Rect.Has;
    var all := free + multiset(ls);
    ApartOnce(ls, arena);
    forall b, i | b in free && 0 <= i < |ls| ensures b != ls[i] && !b.rect.Overlap(ls[i].rect) && !ls[i].rect.Overlap(b.rect) {
      NoCommonCell(b, ls, i);
    }
    forall b | b in all ensures all[b] == 1 && b.rect.Positive() && arena.Covers(b.rect) {
      assert b in free || b in ls;
    }
    forall b, c | b in all && c in all && b != c ensures !b.rect.Overlap(c.rect) {
      assert (b in free || b in ls) && (c in free || c in ls);
      if b in ls && c in ls { ApartPair(ls, arena, b, c); }
    }
  }

  lemma AddFree(free: multiset<Block>, ls: seq<Block>)
    ensures forall m, n :: IsFree(free + multiset(ls), m, n) <==> IsFree(free, m, n) || Holds(ls, m, n)
  {
    hide Rect.Has;
    var all := free + multiset(ls);
    forall m, n ensures IsFree(all, m, n) <==> IsFree(free, m, n) || Holds(ls, m, n) {
      if IsFree(all, m, n) {
        var b :| b in all && b.rect.Has(m, n);
        if b !in free { assert b in ls; }
      }
      if IsFree(free, m, n) {
        var b :| b in free && b.rect.Has(m, n);
        assert b in all;
      }
      if Holds(ls, m, n) {
        var i :| 0 <= i < |ls| && ls[i].rect.Has(m, n);
        assert ls[i] in all;
      }
    }
  }

  lemma NoCommonCell(b: Block, ls: seq<Block>, i: nat)
    requires i < |ls| && b.rect.Positive() && ls[i].rect.Positive()
    requires forall m, n :: !(b.rect.Has(m, n) && Holds(ls, m, n))
    ensures b != ls[i] && !b.rect.Overlap(ls[i].rect) && !ls[i].rect.Overlap(b.rect)
  {
    var r := ls[i].rect;
    OverlapIffCommonCell(b.rect, r);
    forall m, n ensures !(b.rect.Has(m, n) && r.Has(m, n)) {
      assert r.Has(m, n) ==> Holds(ls, m, n);
    }
    assert r.Has(r.memStart, r.nodeStart);
  }

  lemma ApartPair(ls: seq<Block>, s: Rect, b: Block, c: Block)
    requires Apart(ls, s) && b in ls && c in ls && b != c
    ensures !b.rect.Overlap(c.rect)
  {
  }

  lemma ApartOnce(ls: seq<Block>, s: Rect)
    requires Apart(ls, s)
    ensures forall b :: b in ls ==> multiset(ls)[b] == 1
  {
    assert Distinct(ls);
    forall b | b in ls ensures multiset(ls)[b] == 1 { DistinctCounts(ls, b); }
  }

  /** Taking one block out of the free list frees no cell twice. */
  lemma TakeApart(free: multiset<Block>, s: Block, arena: Rect)
    requires Disjoint(free, arena) && s in free
    ensures Disjoint(free - multiset{s}, arena)
    ensures forall m, n :: IsFree(free - multiset{s}, m, n) <==> IsFree(free, m, n) && !s.rect.Has(m, n)
  {
    hide Rect.Covers;
    var rest := free - multiset{s};
    forall b ensures b in rest <==> b in free && b != s { }
    forall m, n ensures IsFree(rest, m, n) <==> IsFree(free, m, n) && !s.rect.Has(m, n) {
      if IsFree(rest, m, n) {
        var b :| b in rest && b.rect.Has(m, n);
        assert b in free && !b.rect.Overlap(s.rect);
      }
      if IsFree(free, m, n) && !s.rect.Has(m, n) {
        var b :| b in free && b.rect.Has(m, n);
        assert b in rest;
      }
    }
  }

  lemma TakenMore(live: set<Grant>, g: Grant)
    requires g.WellPosed()
    ensures forall m, n :: IsTaken(live + {g}, m, n) <==> IsTaken(live, m, n) || g.Occupies(m, n)
  {
    forall m, n ensures IsTaken(live + {g}, m, n) <==> IsTaken(live, m, n) || g.Occupies(m, n) {
      if IsTaken(live, m, n) {
        var h :| h in live && h.Uses(m, n);
        assert h in live + {g};
      }
      if g.Occupies(m, n) { assert g in live + {g} && g.Uses(m, n); }
    }
  }

  /** The allocation step keeps the balance of free and taken cells exactly when the row
      piece is put in its place. */
  lemma AllocateConserves(free: multiset<Block>, live: set<Grant>, arena: Rect, s: Block, g: Grant)
    requires Conserved(free, live, arena) && arena.MemEnd() < WORD && arena.NodeEnd() < WORD
    requires s in free && g.WellPosed() && g.base == s.rect.memStart && s.rect.Fit(g.startNode, g.MemLength(), g.nbNodes)
    ensures Conserved(free - multiset{s} + multiset(Leftovers(s.rect, g)), live + {g}, arena) <==> g.FullRect() || s.rect.nodeStart == 0
  {
    hide Conserved, SharedOut, Leftovers, Holds, Grant.Occupies, Grant.FullRect, Rect.Fit, Rect.Has;
    SelectedInArena(free, live, arena, s);
    SharedOutIff(s.rect, g);
    if g.FullRect() || s.rect.nodeStart == 0 {
      Allocated(free, live, arena, s, g);
    } else {
      LostCell(s.rect, g);
      Misplaced(free, live, arena, s, g);
    }
  }

  lemma SelectedInArena(free: multiset<Block>, live: set<Grant>, arena: Rect, s: Block)
    requires Conserved(free, live, arena) && s in free
    ensures s.rect.memStart < s.rect.MemEnd() <= arena.MemEnd() && s.rect.NodeEnd() <= arena.NodeEnd()
  {
  }

  lemma Allocated(free: multiset<Block>, live: set<Grant>, arena: Rect, s: Block, g: Grant)
    requires Conserved(free, live, arena) && s in free && g.WellPosed() && SharedOut(s.rect, g)
    ensures Conserved(free - multiset{s} + multiset(Leftovers(s.rect, g)), live + {g}, arena)
  {
    hide Leftovers, Grant.Occupies;
    var ls := Leftovers(s.rect, g);
    TakeApart(free, s, arena);
    TakenMore(live, g);
    ApartWithin(ls, s.rect, arena);
    AddApart(free - multiset{s}, ls, arena);
    forall m, n | s.rect.Has(m, n) ensures !IsTaken(live, m, n) {
      assert IsFree(free, m, n);
    }
    forall h, k, m, n | h in live + {g} && k in live + {g} && h.Uses(m, n) && k.Uses(m, n) ensures h == k {
      if h in live || k in live {
        assert IsTaken(live, m, n);
        assert !s.rect.Has(m, n);
      }
    }
    var free1 := free - multiset{s} + multiset(ls);
    forall m, n ensures !(IsFree(free1, m, n) && IsTaken(live + {g}, m, n)) {
      assert s.rect.Has(m, n) ==> IsFree(free, m, n);
    }
    forall m, n ensures arena.Has(m, n) <==> IsFree(free1, m, n) || IsTaken(live + {g}, m, n) {
      assert s.rect.Has(m, n) ==> IsFree(free, m, n);
    }
  }

  lemma ApartWithin(ls: seq<Block>, s: Rect, arena: Rect)
    requires Apart(ls, s) && arena.Covers(s)
    ensures Apart(ls, arena)
    ensures forall m, n :: Holds(ls, m, n) ==> s.Has(m, n)
  {
  }

  lemma Misplaced(free: multiset<Block>, live: set<Grant>, arena: Rect, s: Block, g: Grant)
    requires Conserved(free, live, arena) && s in free && g.WellPosed()
    requires exists m, n :: s.rect.Has(m, n) && !g.Occupies(m, n) && !Holds(Leftovers(s.rect, g), m, n)
    ensures !Conserved(free - multiset{s} + multiset(Leftovers(s.rect, g)), live + {g}, arena)
  {
    hide Leftovers, Grant.Occupies;
    var ls := Leftovers(s.rect, g);
    var m, n :| s.rect.Has(m, n) && !g.Occupies(m, n) && !Holds(ls, m, n);
    TakeApart(free, s, arena);
    TakenMore(live, g);
    assert IsFree(free, m, n) && arena.Has(m, n);
    var free1 := free - multiset{s} + multiset(ls);
    forall b | b in free1 ensures !b.rect.Has(m, n) {
      if b in ls {
        assert !Holds(ls, m, n);
      } else {
        assert b in free - multiset{s};
      }
    }
    assert !IsFree(free1, m, n) && !IsTaken(live + {g}, m, n);
  }

  /** The cells that `g` describes are those of the requests in `L`. */
  ghost predicate SameCells(L: set<Grant>, g: Grant) {
    forall m, n :: g.Uses(m, n) <==> IsTaken(L, m, n)
  }

  /** Freeing a description keeps the balance without the requests in `L` exactly when it
      describes their cells. */
  lemma FreeBalancesIff(free: multiset<Block>, live: set<Grant>, arena: Rect, g: Grant, L: set<Grant>)
    requires Conserved(free, live, arena) && g.WellPosed() && L <= live
    ensures Conserved(free + multiset(Freed(g)), live - L, arena) <==> SameCells(L, g)
  {
    hide Freed, Conserved, SameCells;
    if SameCells(L, g) { FreeShared(free, live, arena, g, L); }
    if Conserved(free + multiset(Freed(g)), live - L, arena) { FreedAreCells(free, live, arena, g, L); }
  }

  lemma FreeShared(free: multiset<Block>, live: set<Grant>, arena: Rect, g: Grant, L: set<Grant>)
    requires Conserved(free, live, arena) && g.WellPosed() && L <= live && SameCells(L, g)
    ensures Conserved(free + multiset(Freed(g)), live - L, arena)
  {
    hide Freed, Grant.Occupies, Grant.WellPosed, Disjoint, IsFree;
    TakenApart(free, live, arena, L);
    forall m, n | g.Occupies(m, n) ensures arena.Has(m, n) && IsTaken(live, m, n) && !IsFree(free, m, n) {
      assert g.Uses(m, n) && IsTaken(L, m, n);
    }
    FreedCover(g, arena);
    AddApart(free, Freed(g), arena);
    var free1 := free + multiset(Freed(g));
    forall m, n ensures IsFree(free1, m, n) <==> IsFree(free, m, n) || IsTaken(L, m, n) {
      assert g.Uses(m, n) <==> g.Occupies(m, n);
    }
    hide IsTaken, SameCells;
  }

  /** Live requests are those in `L` and the others, which share no cell. */
  lemma TakenApart(free: multiset<Block>, live: set<Grant>, arena: Rect, L: set<Grant>)
    requires Conserved(free, live, arena) && L <= live
    ensures forall m, n :: IsTaken(live, m, n) <==> IsTaken(L, m, n) || IsTaken(live - L, m, n)
    ensures forall m, n :: !(IsTaken(L, m, n) && IsTaken(live - L, m, n))
  {
    hide Disjoint, IsFree, Grant.Occupies, Grant.WellPosed, Grant.Uses;
    forall m, n | IsTaken(live, m, n) ensures IsTaken(L, m, n) || IsTaken(live - L, m, n) {
      var h :| h in live && h.Uses(m, n);
      assert h in L || h in live - L;
    }
    forall m, n | IsTaken(L, m, n) ensures IsTaken(live, m, n) && !IsTaken(live - L, m, n) {
      var h :| h in L && h.Uses(m, n);
      assert h in live;
    }
    forall m, n | IsTaken(live - L, m, n) ensures IsTaken(live, m, n) {
      var h :| h in live - L && h.Uses(m, n);
      assert h in live;
    }
  }

  lemma FreedAreCells(free: multiset<Block>, live: set<Grant>, arena: Rect, g: Grant, L: set<Grant>)
    requires Conserved(free, live, arena) && g.WellPosed() && L <= live
    requires Conserved(free + multiset(Freed(g)), live - L, arena)
    ensures SameCells(L, g)
  {
    hide Freed, Grant.Occupies, Grant.WellPosed, Disjoint, IsFree, IsTaken;
    TakenApart(free, live, arena, L);
    FreedCells(g);
    AddFree(free, Freed(g));
    NoneTwice(free, Freed(g), arena);
    forall m, n ensures g.Uses(m, n) <==> IsTaken(L, m, n) {
      assert g.Uses(m, n) <==> Holds(Freed(g), m, n);
      assert arena.Has(m, n) <==> IsFree(free, m, n) || IsTaken(live, m, n);
      assert arena.Has(m, n) <==> IsFree(free + multiset(Freed(g)), m, n) || IsTaken(live - L, m, n);
      assert !(IsFree(free, m, n) && IsTaken(live, m, n));
      assert !(IsFree(free + multiset(Freed(g)), m, n) && IsTaken(live - L, m, n));
    }
  }

  /** A disjoint free list holds no cell twice. */
  lemma NoneTwice(free: multiset<Block>, ls: seq<Block>, arena: Rect)
    requires Disjoint(free + multiset(ls), arena)
    ensures forall m, n :: !(IsFree(free, m, n) && Holds(ls, m, n))
  {
    hide Rect.Covers;
    var all := free + multiset(ls);
    forall c, i | c in free && 0 <= i < |ls| ensures !c.rect.Overlap(ls[i].rect) {
      var b := ls[i];
      assert b in multiset(ls) && c in all && b in all;
      assert multiset(ls)[b] >= 1 && free[c] >= 1 && all[b] == free[b] + multiset(ls)[b];
    }
  }

  /** Freeing a live request gives its cells back. */
  lemma FreeConserves(free: multiset<Block>, live: set<Grant>, arena: Rect, g: Grant)
    requires Conserved(free, live, arena) && g in live
    ensures Conserved(free + multiset(Freed(g)), live - {g}, arena)
  {
    hide Freed, Disjoint, Grant.Occupies, IsFree;
    forall m, n ensures g.Uses(m, n) <==> IsTaken({g}, m, n) {
      if g.Uses(m, n) { assert g in {g}; }
    }
    FreeBalancesIff(free, live, arena, g, {g});
  }

  /** The requests `allocate` turns down before it looks for a free block. */
  ghost predicate Refused(size: nat, blockSize: nat, nbNodes: nat) {
    || size == 0 || blockSize == 0 || nbNodes <= 1
    || !IsPow2(nbNodes)
    || (size / blockSize + if size % blockSize != 0 then 1 else 0) < nbNodes
  }

  /** Fewer blocks than nodes. */
  lemma FewBlocks(g: Grant)
    requires g.blockSize > 0 && g.nbNodes > 0
    ensures g.Blocks() < g.nbNodes <==> g.size <= (g.nbNodes - 1) * g.blockSize
  {
    hide Grant.Blocks;
    g.BlocksEnough();
    var k := g.Blocks();
    if k < g.nbNodes {
      ProductMonotone(k, g.nbNodes - 1, g.blockSize, g.blockSize);
    } else {
      ProductMonotone(g.nbNodes, k, g.blockSize, g.blockSize);
      Distribute(g.nbNodes - 1, 1, g.blockSize);
    }
  }

  lemma NotRefused(g: Grant)
    requires !Refused(g.size, g.blockSize, g.nbNodes)
    ensures g.WellPosed() && g.nbNodes >= 2
  {
  }

  /** The free blocks that the search offers for a request, in its order; where the request
      is granted does not matter. */
  ghost function Offered(t: Tree, g: Grant): seq<Block>
    requires g.WellPosed()
  {
    TreeModel.Search(t, g.startNode, g.MemLength(), g.nbNodes)
  }

  ghost predicate Starving(t: Tree, g: Grant)
    requires g.WellPosed()
  {
    Offered(t, g) != [] && InnerUnderflow(t, Offered(t, g)[0].rect)
  }

  ghost predicate Fits(free: multiset<Block>, g: Grant)
    requires g.WellPosed()
  {
    exists s :: s in free && s.rect.Fit(g.startNode, g.MemLength(), g.nbNodes)
  }

  /** Of the free blocks that the request fits, none has fewer cells than `s`. */
  ghost predicate Least(free: multiset<Block>, s: Block, g: Grant)
    requires g.WellPosed()
  {
    forall x :: x in free && x.rect.Fit(g.startNode, g.MemLength(), g.nbNodes) ==>
      s.rect.memLen * s.rect.nodeLen <= x.rect.memLen * x.rect.nodeLen
  }

  /** What one successful allocation does to the free blocks. */
  ghost predicate Cut(before: multiset<Block>, after: multiset<Block>, s: Block, g: Grant)
    requires g.WellPosed()
  {
    && s in before && s.rect.Fit(g.startNode, g.MemLength(), g.nbNodes) && g.base == s.rect.memStart
    && after == before - multiset{s} + multiset(Leftovers(s.rect, g))
  }

  /** A request fits a free block that starts at address `m`. */
  ghost predicate Room(free: multiset<Block>, m: nat, startNode: nat, meml: nat, nodel: nat) {
    exists x :: x in free && x.rect.memStart == m && x.rect.Fit(startNode, meml, nodel)
  }

  /** What lies behind request `g`, cut out of `s`, is one block across all nodes. */
  ghost predicate WholeBehind(free: multiset<Block>, s: Rect, g: Grant)
    requires g.WellPosed()
  {
    forall n: nat, len: nat, k: nat | s.Fit(n, len, k) && 0 < len <= s.memLen - g.MemLength() ::
      Room(free, s.memStart + g.MemLength(), n, len, k)
  }

  /** What lies on the nodes after it is one block as long as its full rows. */
  ghost predicate WholeAfter(free: multiset<Block>, s: Rect, g: Grant)
    requires g.WellPosed()
  {
    var full := g.MemLength() - if g.FullRect() then 0 else g.blockSize;
    forall n: nat, len: nat, k: nat | s.Fit(n, len, k) && k > 0 && n >= g.startNode + g.nbNodes && len <= full ::
      Room(free, s.memStart, n, len, k)
  }

  /** What lies on the nodes before it is one block as long as all its rows. */
  ghost predicate WholeBefore(free: multiset<Block>, s: Rect, g: Grant)
    requires g.WellPosed()
  {
    forall n: nat, len: nat, k: nat | s.Fit(n, len, k) && k > 0 && n + k <= g.startNode && len <= g.MemLength() ::
      Room(free, s.memStart, n, len, k)
  }

  /** What lies beside a shorter last row is one block to the last node, if rightly placed. */
  ghost predicate WholeBeside(free: multiset<Block>, s: Rect, g: Grant)
    requires g.WellPosed()
  {
    g.FullRect() || s.nodeStart > 0 ||
    forall n: nat, len: nat, k: nat, m: nat |
      s.Fit(n, len, k) && k > 0 && n >= g.startNode + g.Blocks() % g.nbNodes && len <= g.blockSize && m + g.blockSize == s.memStart + g.MemLength() ::
        Room(free, m, n, len, k)
  }

  /** Otherwise it is displaced by the start node of `s`. */
  ghost predicate Displaced(free: multiset<Block>, s: Rect, g: Grant)
    requires g.WellPosed()
  {
    g.FullRect() || s.nodeStart == 0 ||
    exists x :: x in free && x.rect.memLen == g.blockSize && x.rect.memStart + g.blockSize == s.memStart + g.MemLength() &&
      x.rect.nodeStart == s.nodeStart + g.startNode + g.Blocks() % g.nbNodes &&
      (x.rect.nodeStart <= s.NodeEnd() ==> x.rect.NodeEnd() == s.NodeEnd())
  }

  /** How request `g` is cut out of `s`. */
  ghost predicate LeavesRoom(free: multiset<Block>, s: Rect, g: Grant)
    requires g.WellPosed()
  {
    && WholeBehind(free, s, g) && WholeAfter(free, s, g) && WholeBefore(free, s, g)
    && WholeBeside(free, s, g) && Displaced(free, s, g)
  }

  lemma CutLeavesRoom(before: multiset<Block>, after: multiset<Block>, s: Block, g: Grant)
    requires g.WellPosed() && Cut(before, after, s, g) && s.rect.MemEnd() < WORD && s.rect.NodeEnd() < WORD
    ensures LeavesRoom(after, s.rect, g)
  {
    hide Grant.MemLength, Grant.Blocks, Grant.FullRect, Leftovers, RightPiece, RowPiece, LowerPiece, LeftPiece;
    var r, ls := s.rect, Leftovers(s.rect, g);
    forall x | x in ls ensures x in after { assert x in multiset(ls); }
    PiecesIn(r, g);
    RoomBehind(r, g, after);
    RoomAfter(r, g, after);
    RoomBefore(r, g, after);
    RoomBeside(r, g, after);
  }

  lemma PiecesIn(s: Rect, g: Grant)
    requires g.WellPosed()
    ensures forall x :: x in LowerPiece(s, g) || x in RightPiece(s, g) || x in LeftPiece(s, g) || x in RowPiece(s, g) ==> x in Leftovers(s, g)
  {
    hide RightPiece, RowPiece, LowerPiece, LeftPiece;
  }

  lemma RoomBehind(s: Rect, g: Grant, free: multiset<Block>)
    requires g.WellPosed() && s.MemEnd() < WORD && (forall x :: x in LowerPiece(s, g) ==> x in free)
    ensures WholeBehind(free, s, g)
  {
    hide Grant.MemLength;
    assert LowerPiece(s, g) != [] ==> LowerPiece(s, g)[0] in free;
  }

  lemma RoomAfter(s: Rect, g: Grant, free: multiset<Block>)
    requires g.WellPosed() && (forall x :: x in RightPiece(s, g) ==> x in free)
    ensures WholeAfter(free, s, g)
  {
    hide Grant.MemLength, Grant.FullRect;
    assert RightPiece(s, g) != [] ==> RightPiece(s, g)[0] in free;
  }

  lemma RoomBefore(s: Rect, g: Grant, free: multiset<Block>)
    requires g.WellPosed() && s.NodeEnd() < WORD && s.Fit(g.startNode, g.MemLength(), g.nbNodes)
    requires forall x :: x in LeftPiece(s, g) ==> x in free
    ensures WholeBefore(free, s, g)
  {
    hide Grant.MemLength;
    assert LeftPiece(s, g) != [] ==> LeftPiece(s, g)[0] in free;
  }

  lemma RoomBeside(s: Rect, g: Grant, free: multiset<Block>)
    requires g.WellPosed() && s.NodeEnd() < WORD && s.Fit(g.startNode, g.MemLength(), g.nbNodes)
    requires forall x :: x in RowPiece(s, g) ==> x in free
    ensures WholeBeside(free, s, g) && Displaced(free, s, g)
  {
    hide Grant.MemLength, Grant.Blocks;
    g.Facts();
    assert RowPiece(s, g) != [] ==> RowPiece(s, g)[0] in free;
  }

  /** How request `g` is given back: its full rows as one block, and so a shorter last row. */
  ghost predicate GivesRoom(free: multiset<Block>, g: Grant)
    requires g.WellPosed()
  {
    if g.FullRect() then
      Room(free, g.base, g.startNode, g.MemLength(), g.nbNodes) && Fits(free, g)
    else
      && g.MemLength() > g.blockSize && Room(free, g.base, g.startNode, g.MemLength() - g.blockSize, g.nbNodes)
      && Room(free, g.base + g.MemLength() - g.blockSize, g.startNode, g.blockSize, g.Blocks() % g.nbNodes)
  }

  lemma FreedGivesRoom(before: multiset<Block>, g: Grant)
    requires g.WellPosed()
    ensures GivesRoom(before + multiset(Freed(g)), g)
  {
    hide Grant.MemLength, Grant.Blocks;
    g.Facts();
    var free := before + multiset(Freed(g));
    assert Freed(g)[0] in free;
    assert !g.FullRect() ==> Freed(g)[1] in free;
  }

  class Allocator {
    const arena: Rect
    const freeBlocks: RTree
    ghost var live: set<Grant>

    ghost predicate Sound()
      reads freeBlocks, freeBlocks.nodes, freeBlocks.root
    {
      && arena.MemEnd() < WORD && arena.NodeEnd() < WORD && arena.memLen * arena.nodeLen < WORD
      && freeBlocks.Valid() && freeBlocks.Tight()
    }

    ghost predicate Balanced()
      reads this, freeBlocks, freeBlocks.root
    {
      Conserved(freeBlocks.Blocks(), live, arena)
    }

    constructor (start: nat, memSize: nat, nbNodes: nat)
      requires 0 < memSize && 0 < nbNodes && start + memSize < WORD && memSize * nbNodes < WORD && nbNodes < WORD
      ensures Sound() && Balanced() && live == {} && arena == Rect(start, 0, memSize, nbNodes)
      ensures freeBlocks.Blocks() == multiset{Block(arena, 64)} && freeBlocks.root.view.Leaf?
      ensures fresh(freeBlocks) && fresh(freeBlocks.nodes)
    {
      arena := Rect(start, 0, memSize, nbNodes);
      freeBlocks := new RTree(start, 0, memSize, nbNodes);
      live := {};
      new;
      Fresh(Block(arena, 64));
    }

    lemma ArenaFits()
      requires Sound()
      ensures arena.MemEnd() < WORD && arena.NodeEnd() < WORD
    {
    }

    /** What is left on the nodes after the request. */
    method PutRight(s: Rect, g: Grant)
      requires Sound() && g.WellPosed() && g.base == s.memStart && s.Fit(g.startNode, g.MemLength(), g.nbNodes)
      modifies freeBlocks, freeBlocks.nodes
      ensures Sound() && fresh(freeBlocks.nodes - old(freeBlocks.nodes))
      ensures freeBlocks.Blocks() == old(freeBlocks.Blocks()) + multiset(RightPiece(s, g))
    {
      hide Grant.Blocks, Grant.MemLength, Sound, RTree.Blocks;
      g.Facts();
      var sy2 := s.nodeStart + s.nodeLen;
      if g.startNode + g.nbNodes < sy2 {
        var a := Rect(s.memStart, g.startNode + g.nbNodes, g.MemLength(), 0);
        if !g.FullRect() {
          a := a.(memLen := g.MemLength() - g.blockSize);
        }
        a := a.(nodeLen := sy2 - a.nodeStart);
        Put(Block(a, g.blockSize));
      }
    }

    /** What is left beside the last row of the request. */
    method PutRow(s: Rect, g: Grant)
      requires Sound() && g.WellPosed() && g.base == s.memStart && s.Fit(g.startNode, g.MemLength(), g.nbNodes)
      modifies freeBlocks, freeBlocks.nodes
      ensures Sound() && fresh(freeBlocks.nodes - old(freeBlocks.nodes))
      ensures freeBlocks.Blocks() == old(freeBlocks.Blocks()) + multiset(RowPiece(s, g))
    {
      hide Grant.Blocks, Grant.MemLength, Sound, RTree.Blocks;
      g.Facts();
      if !g.FullRect() {
        var b := s.(memStart := s.memStart + (g.Blocks() / g.nbNodes) * g.blockSize,
                    nodeStart := s.nodeStart + (g.startNode + g.Blocks() % g.nbNodes),
                    memLen := g.blockSize);
        b := b.(nodeLen := Wrap(s.nodeStart + s.nodeLen - b.nodeStart));
        Put(Block(b, g.blockSize));
      }
    }

    /** What is left behind the request in memory. */
    method PutLower(s: Rect, g: Grant)
      requires Sound() && g.WellPosed() && g.base == s.memStart && s.Fit(g.startNode, g.MemLength(), g.nbNodes)
      modifies freeBlocks, freeBlocks.nodes
      ensures Sound() && fresh(freeBlocks.nodes - old(freeBlocks.nodes))
      ensures freeBlocks.Blocks() == old(freeBlocks.Blocks()) + multiset(LowerPiece(s, g))
    {
      hide Grant.Blocks, Grant.MemLength, Sound, RTree.Blocks;
      if g.MemLength() != s.memLen {
        var c := s.(memStart := s.memStart + g.MemLength(), memLen := Wrap(s.memLen - g.MemLength()));
        Put(Block(c, g.blockSize));
      }
    }

    /** What is left on the nodes before the request. */
    method PutLeft(s: Rect, g: Grant)
      requires Sound() && g.WellPosed() && g.base == s.memStart && s.Fit(g.startNode, g.MemLength(), g.nbNodes)
      modifies freeBlocks, freeBlocks.nodes
      ensures Sound() && fresh(freeBlocks.nodes - old(freeBlocks.nodes))
      ensures freeBlocks.Blocks() == old(freeBlocks.Blocks()) + multiset(LeftPiece(s, g))
    {
      hide Grant.Blocks, Grant.MemLength, Sound, RTree.Blocks;
      if g.startNode != s.nodeStart {
        var d := s.(memLen := g.MemLength(), nodeLen := Wrap(g.startNode - s.nodeStart));
        Put(Block(d, g.blockSize));
      }
    }

    /** The leftovers, in the order in which they are put back. */
    method PutBack(s: Rect, g: Grant)
      requires Sound() && g.WellPosed() && g.base == s.memStart && s.Fit(g.startNode, g.MemLength(), g.nbNodes)
      modifies freeBlocks, freeBlocks.nodes
      ensures Sound() && fresh(freeBlocks.nodes - old(freeBlocks.nodes))
      ensures freeBlocks.Blocks() == old(freeBlocks.Blocks()) + multiset(Leftovers(s, g))
    {
      hide Grant.WellPosed, Grant.MemLength, Rect.Fit, RTree.Blocks, RightPiece, RowPiece, LowerPiece, LeftPiece, Leftovers, Sound;
      PutRight(s, g);
      PutRow(s, g);
      PutLower(s, g);
      PutLeft(s, g);
      PiecesJoin(s, g);
    }

    /** The requests turned down before the search: those that are empty, not for a power of
        two of nodes above one, or leave a node without a block.  The power-of-two test is on
        bits. */
    method Refuses(size: nat, blockSize: nat, nbNodes: nat) returns (refused: bool)
      ensures refused <==> Refused(size, blockSize, nbNodes)
      ensures refused <==>
        size == 0 || blockSize == 0 || nbNodes <= 1 || !IsPow2(nbNodes) || size <= (nbNodes - 1) * blockSize
    {
      if nbNodes > 0 && blockSize > 0 { FewBlocks(Grant(0, size, blockSize, nbNodes, 0)); }
      if size == 0 || blockSize == 0 || nbNodes == 0 {
        return true;
      }
      if nbNodes <= 1 {
        return true;
      }
      PowerOfTwoTest(nbNodes);
      if And(nbNodes, nbNodes - 1) != 0 {
        return true;
      }
      return Grant(0, size, blockSize, nbNodes, 0).Blocks() < nbNodes;
    }

    /** The free blocks the request fits. */
    method FindFree(req: Grant) returns (blocks: seq<Block>)
      requires Sound() && Balanced() && req.WellPosed() && req.nbNodes >= 2 && req.size < WORD
      ensures blocks == Offered(freeBlocks.root.view, req)
      ensures blocks == [] <==> !Fits(freeBlocks.Blocks(), req)
      ensures blocks != [] ==> blocks[0] in freeBlocks.Blocks() && blocks[0].rect.Fit(req.startNode, req.MemLength(), req.nbNodes)
      ensures blocks != [] ==> Picked(freeBlocks.root.view, req.startNode, req.MemLength(), req.nbNodes, blocks[0])
      ensures blocks != [] && freeBlocks.root.level == 0 ==> Least(freeBlocks.Blocks(), blocks[0], req)
    {
      hide Grant.Blocks, Grant.MemLength, RTree.Valid, RTree.Tight, RTree.Blocks, Conserved, Rect.Fit, TreeModel.Search, Picked, Fitting, Listing;
      req.MemLengthFits();
      InArena(freeBlocks.Blocks(), live, arena);
      blocks := freeBlocks.Search(req.startNode, Wrap(req.MemLength()), req.nbNodes, arena);
      FirstFits(blocks, freeBlocks.Blocks(), req);
      if blocks != [] && freeBlocks.root.level == 0 { SortedLeast(blocks, freeBlocks.Blocks(), live, arena, req); }
    }

    /** Cuts the request out of the first free block it fits. */
    method Allocate(size: nat, blockSize: nat, nbNodes: nat, startNode: nat) returns (ret: nat)
      requires Sound() && Balanced() && size < WORD
      requires !Refused(size, blockSize, nbNodes) ==>
        !Starving(freeBlocks.root.view, Grant(0, size, blockSize, nbNodes, startNode))
      modifies this, freeBlocks, freeBlocks.nodes
      ensures Sound() && fresh(freeBlocks.nodes - old(freeBlocks.nodes))
      ensures ret == FAILED <==>
        Refused(size, blockSize, nbNodes) || !Fits(old(freeBlocks.Blocks()), Grant(0, size, blockSize, nbNodes, startNode))
      ensures ret == FAILED ==> Balanced() && freeBlocks.Blocks() == old(freeBlocks.Blocks()) && live == old(live)
      ensures ret != FAILED ==>
        var g := Grant(ret, size, blockSize, nbNodes, startNode);
        live == old(live) + {g} && g !in old(live) &&
        var found := Offered(old(freeBlocks.root.view), g);
        found != [] && Cut(old(freeBlocks.Blocks()), freeBlocks.Blocks(), found[0], g) &&
        (Balanced() <==> g.FullRect() || found[0].rect.nodeStart == 0) &&
        Picked(old(freeBlocks.root.view), startNode, g.MemLength(), nbNodes, found[0]) &&
        (old(freeBlocks.root.level) == 0 ==> Least(old(freeBlocks.Blocks()), found[0], g)) &&
        LeavesRoom(freeBlocks.Blocks(), found[0].rect, g)
    {
      hide Grant.Blocks, Grant.MemLength, Conserved, InnerUnderflow, Rect.Fit, Cut, Refused, Sound, RTree.Blocks, TreeModel.Search, Grant.WellPosed, Fits, Picked, Least, LeavesRoom;
      var refused := Refuses(size, blockSize, nbNodes);
      if refused {
        return FAILED;
      }
      var req := Grant(0, size, blockSize, nbNodes, startNode);
      NotRefused(req);
      var blocks := FindFree(req);
      if blocks == [] {
        return FAILED;
      }
      ret := blocks[0].rect.memStart;
      BaseIrrelevant(req, ret);
      Carve(blocks[0], req.(base := ret));
    }

    /** Replaces free block `s` by what the request leaves of it. */
    method Carve(s: Block, g: Grant)
      requires Sound() && Balanced() && s in freeBlocks.Blocks() && !InnerUnderflow(freeBlocks.root.view, s.rect)
      requires g.WellPosed() && g.base == s.rect.memStart && s.rect.Fit(g.startNode, g.MemLength(), g.nbNodes)
      modifies this, freeBlocks, freeBlocks.nodes
      ensures Sound() && fresh(freeBlocks.nodes - old(freeBlocks.nodes))
      ensures Cut(old(freeBlocks.Blocks()), freeBlocks.Blocks(), s, g) && LeavesRoom(freeBlocks.Blocks(), s.rect, g)
      ensures live == old(live) + {g} && g !in old(live) && g.base < FAILED
      ensures Balanced() <==> g.FullRect() || s.rect.nodeStart == 0
    {
      hide Grant.Blocks, Grant.MemLength, Grant.FullRect, Sound, RTree.Blocks, Conserved, Leftovers, InnerUnderflow, Rect.Fit, Finds, Contents, Grant.WellPosed, IsFree, IsTaken, LeavesRoom;
      ArenaFits();
      ghost var free := freeBlocks.Blocks();
      SelectedInArena(free, live, arena, s);
      NotLive(free, live, arena, s, g);
      AllocateConserves(free, live, arena, s, g);
      Replace(s, g);
      CutLeavesRoom(free, freeBlocks.Blocks(), s, g);
      live := live + {g};
    }

    /** The part of it that changes the tree. */
    method Replace(s: Block, g: Grant)
      requires Sound() && Balanced() && s in freeBlocks.Blocks() && !InnerUnderflow(freeBlocks.root.view, s.rect)
      requires g.WellPosed() && g.base == s.rect.memStart && s.rect.Fit(g.startNode, g.MemLength(), g.nbNodes)
      modifies freeBlocks, freeBlocks.nodes
      ensures Sound() && fresh(freeBlocks.nodes - old(freeBlocks.nodes))
      ensures freeBlocks.Blocks() == old(freeBlocks.Blocks()) - multiset{s} + multiset(Leftovers(s.rect, g))
    {
      hide Grant.Blocks, Grant.MemLength, Sound, RTree.Blocks, Conserved, Leftovers, InnerUnderflow, Rect.Fit, Grant.WellPosed;
      Take(s);
      PutBack(s.rect, g);
    }

    /** Removes free block `s`, and no other. */
    method Take(s: Block)
      requires Sound() && Balanced() && s in freeBlocks.Blocks() && !InnerUnderflow(freeBlocks.root.view, s.rect)
      modifies freeBlocks, freeBlocks.nodes
      ensures Sound() && fresh(freeBlocks.nodes - old(freeBlocks.nodes))
      ensures freeBlocks.Blocks() == old(freeBlocks.Blocks()) - multiset{s}
    {
      hide RTree.Valid, RTree.Tight, RTree.Blocks, Conserved, InnerUnderflow, Finds, Contents;
      ghost var free := freeBlocks.Blocks();
      Stored(freeBlocks, live, arena, s);
      freeBlocks.Remove(s);
      TakenIs(free, freeBlocks.Blocks(), live, arena, s);
    }

    /** Gives back the footprint of the request as it is described, which is right exactly
        when its cells are those of live requests. */
    method Free(start: nat, size: nat, blockSize: nat, nbNodes: nat, startNode: nat)
      requires Sound() && Balanced()
      modifies this, freeBlocks, freeBlocks.nodes
      ensures Sound() && fresh(freeBlocks.nodes - old(freeBlocks.nodes))
      ensures var g := Grant(start, size, blockSize, nbNodes, startNode);
        live == old(live) - Released(old(live), g) &&
        freeBlocks.Blocks() == old(freeBlocks.Blocks()) + (if g.WellPosed() then multiset(Freed(g)) else multiset{}) &&
        (Balanced() <==> !g.WellPosed() || SameCells(Released(old(live), g), g)) &&
        (g.WellPosed() ==> GivesRoom(freeBlocks.Blocks(), g))
    {
      hide Grant.MemLength, RTree.Valid, RTree.Tight, RTree.Blocks, Conserved, Freed, Released, SameCells, GivesRoom;
      var g := Grant(start, size, blockSize, nbNodes, startNode);
      NothingReleased(freeBlocks.Blocks(), live, arena, g);
      if size == 0 || blockSize == 0 || nbNodes == 0 {
        return;
      }
      if g.Blocks() < nbNodes {
        return;
      }
      FreeBalances(freeBlocks.Blocks(), live, arena, g);
      FreedGivesRoom(freeBlocks.Blocks(), g);
      GiveBack(g);
      live := live - Released(live, g);
    }

    /** A shorter last row goes back first, then the full rows. */
    method GiveBack(g: Grant)
      requires Sound() && g.WellPosed()
      modifies freeBlocks, freeBlocks.nodes
      ensures Sound() && fresh(freeBlocks.nodes - old(freeBlocks.nodes))
      ensures freeBlocks.Blocks() == old(freeBlocks.Blocks()) + multiset(Freed(g))
    {
      hide Grant.MemLength, RTree.Valid, RTree.Tight, RTree.Blocks, Sound, Grant.Blocks;
      g.Facts();
      var req := Rect(g.base, g.startNode, g.MemLength(), g.nbNodes);
      if !g.FullRect() {
        req := req.(memLen := req.memLen - g.blockSize);
        Put(Block(Rect(g.base + g.MemLength() - g.blockSize, g.startNode, g.blockSize, g.Blocks() % g.nbNodes), g.blockSize));
      }
      Put(Block(req, g.blockSize));
    }

    method Put(b: Block)
      requires Sound()
      modifies freeBlocks, freeBlocks.nodes
      ensures Sound() && fresh(freeBlocks.nodes - old(freeBlocks.nodes))
      ensures freeBlocks.Blocks() == old(freeBlocks.Blocks()) + multiset{b}
    {
      hide RTree.Valid, RTree.Tight, RTree.Blocks;
      freeBlocks.Add(b);
    }
  }

  /** What a request needs does not depend on where it is granted. */
  lemma BaseIrrelevant(g: Grant, base: nat)
    requires g.WellPosed()
    ensures g.(base := base).WellPosed()
    ensures g.(base := base).MemLength() == g.MemLength()
    ensures forall t :: Offered(t, g.(base := base)) == Offered(t, g)
    ensures forall free, s :: Least(free, s, g.(base := base)) == Least(free, s, g)
  {
    hide Rect.Fit;
  }

  /** Smaller areas first, and free rectangles have as many cells as their areas say. */
  lemma SortedLeast(found: seq<Block>, free: multiset<Block>, live: set<Grant>, arena: Rect, g: Grant)
    requires Conserved(free, live, arena) && arena.memLen * arena.nodeLen < WORD && g.WellPosed()
    requires forall b :: multiset(found)[b] == if b.rect.Fit(g.startNode, g.MemLength(), g.nbNodes) then free[b] else 0
    requires found != [] && SortedByArea(found)
    ensures Least(free, found[0], g)
  {
    hide Rect.Fit, Grant.MemLength, IsFree, IsTaken;
    assert found[0] in multiset(found);
    AreaIsCells(free, live, arena, found[0]);
    forall x | x in free && x.rect.Fit(g.startNode, g.MemLength(), g.nbNodes)
      ensures found[0].rect.memLen * found[0].rect.nodeLen <= x.rect.memLen * x.rect.nodeLen
    {
      assert x in multiset(found);
      var i :| 0 <= i < |found| && found[i] == x;
      AreaIsCells(free, live, arena, x);
      assert i > 0 ==> found[0].rect.Area() <= found[i].rect.Area();
    }
  }

  lemma AreaIsCells(free: multiset<Block>, live: set<Grant>, arena: Rect, x: Block)
    requires Conserved(free, live, arena) && arena.memLen * arena.nodeLen < WORD && x in free
    ensures x.rect.Area() == x.rect.memLen * x.rect.nodeLen
  {
    hide IsFree, IsTaken;
    assert arena.Covers(x.rect);
    ProductMonotone(x.rect.memLen, arena.memLen, x.rect.nodeLen, arena.nodeLen);
  }

  lemma InArena(free: multiset<Block>, live: set<Grant>, arena: Rect)
    requires Conserved(free, live, arena)
    ensures forall x :: x in free ==> arena.Covers(x.rect)
  {
  }

  ghost predicate Within(h: Grant, g: Grant) {
    forall m, n :: h.Uses(m, n) ==> g.Uses(m, n)
  }

  /** The live requests that lie within the cells that `g` describes. */
  ghost function Released(live: set<Grant>, g: Grant): set<Grant> {
    set h | h in live && Within(h, g)
  }

  /** Freeing a description can be balanced at all exactly when the live requests within its
      cells make up these cells; then it is balanced without those requests. */
  lemma FreeBalances(free: multiset<Block>, live: set<Grant>, arena: Rect, g: Grant)
    requires Conserved(free, live, arena) && g.WellPosed()
    ensures Conserved(free + multiset(Freed(g)), live - Released(live, g), arena) <==> SameCells(Released(live, g), g)
    ensures (exists L :: L <= live && Conserved(free + multiset(Freed(g)), live - L, arena)) <==> SameCells(Released(live, g), g)
  {
    hide Freed, Conserved, SameCells;
    FreeBalancesIff(free, live, arena, g, Released(live, g));
    forall L | L <= live && Conserved(free + multiset(Freed(g)), live - L, arena) ensures L == Released(live, g) {
      FreeBalancesIff(free, live, arena, g, L);
      OnlyReleased(free, live, arena, g, L);
    }
  }

  /** No other requests have these cells. */
  lemma OnlyReleased(free: multiset<Block>, live: set<Grant>, arena: Rect, g: Grant, L: set<Grant>)
    requires Conserved(free, live, arena) && L <= live && SameCells(L, g)
    ensures L == Released(live, g)
  {
    hide Disjoint, IsFree, Freed, Grant.Footprint, Grant.Occupies;
    forall h | h in L ensures Within(h, g) {
      forall m, n | h.Uses(m, n) ensures g.Uses(m, n) { assert IsTaken(L, m, n); }
    }
    forall h | h in live && Within(h, g) ensures h in L {
      FootprintStarts(h);
      assert h.Uses(h.base, h.startNode) && g.Uses(h.base, h.startNode) && IsTaken(L, h.base, h.startNode);
    }
  }

  lemma NothingReleased(free: multiset<Block>, live: set<Grant>, arena: Rect, g: Grant)
    requires Conserved(free, live, arena)
    ensures !g.WellPosed() ==> Released(live, g) == {}
  {
    hide Disjoint, IsFree, IsTaken, Freed, Grant.Footprint, Grant.Occupies;
    if !g.WellPosed() {
      forall h | h in live ensures !Within(h, g) {
        FootprintStarts(h);
        assert h.Uses(h.base, h.startNode) && !g.Uses(h.base, h.startNode);
      }
    }
  }

  /** The first cell of a footprint is in the last rectangle given back. */
  lemma FootprintStarts(g: Grant)
    requires g.WellPosed()
    ensures Freed(g) != []
    ensures var b := Freed(g)[|Freed(g)| - 1];
      b.rect.memStart == g.base && b.rect.nodeStart == g.startNode && b.rect.Positive() && g.Occupies(g.base, g.startNode)
  {
    hide Grant.MemLength, Grant.Blocks;
    g.Facts();
    assert g.Footprint()[0].Has(g.base, g.startNode);
  }

  /** The request is cut from free cells, so it is not live before. */
  lemma NotLive(free: multiset<Block>, live: set<Grant>, arena: Rect, s: Block, g: Grant)
    requires Conserved(free, live, arena) && s in free
    requires g.WellPosed() && g.base == s.rect.memStart && s.rect.Fit(g.startNode, g.MemLength(), g.nbNodes)
    ensures g !in live
  {
    g.Facts();
    assert s.rect.Has(g.base, g.startNode) && IsFree(free, g.base, g.startNode);
    OccupiesMeans(g, g.base, g.startNode);
    assert !IsTaken(live, g.base, g.startNode);
  }

  /** `remove` finds a free block. */
  lemma Stored(t: RTree, live: set<Grant>, arena: Rect, s: Block)
    requires t.Valid() && Conserved(t.Blocks(), live, arena) && s in t.Blocks()
    ensures Finds(t.root.view, s.rect)
  {
    hide Rect.Has, Rect.Overlap;
    RootShaped(t.nodes, t.root);
    FindsComplete(t.root.view, s);
  }

  /** No other free block has the rectangle of `s`. */
  lemma TakenIs(before: multiset<Block>, after: multiset<Block>, live: set<Grant>, arena: Rect, s: Block)
    requires Conserved(before, live, arena) && s in before
    requires exists x :: x in before && x.rect == s.rect && after == before - multiset{x}
    ensures after == before - multiset{s}
  {
  }

  lemma PiecesJoin(s: Rect, g: Grant)
    requires g.WellPosed()
    ensures multiset(Leftovers(s, g)) ==
      multiset(RightPiece(s, g)) + multiset(RowPiece(s, g)) + multiset(LowerPiece(s, g)) + multiset(LeftPiece(s, g))
  {
  }

  /** The first block found is a free block the request fits, if there is any. */
  lemma FirstFits(found: seq<Block>, free: multiset<Block>, g: Grant)
    requires g.WellPosed()
    requires forall b :: multiset(found)[b] == if b.rect.Fit(g.startNode, g.MemLength(), g.nbNodes) then free[b] else 0
    ensures found == [] <==> !Fits(free, g)
    ensures found != [] ==> found[0] in free && found[0].rect.Fit(g.startNode, g.MemLength(), g.nbNodes)
  {
    hide Rect.Fit;
    if found != [] { assert found[0] in multiset(found); }
    if Fits(free, g) {
      var s :| s in free && s.rect.Fit(g.startNode, g.MemLength(), g.nbNodes);
      assert s in multiset(found);
    }
  }

  lemma Fresh(b: Block)
    requires b.rect.Positive()
    ensures Conserved(multiset{b}, {}, b.rect)
  {
    var free := multiset{b};
    forall m, n ensures b.rect.Has(m, n) <==> IsFree(free, m, n) {
      assert b in free;
    }
  }
}
