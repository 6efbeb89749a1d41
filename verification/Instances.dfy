/** Inputs on which the code misses its purpose, as runs of the operations from a fresh
    state. */
module Instances {
  import opened Allocation
  import opened Bits
  import opened Placement
  import opened Rects
  import opened RTrees
  import opened Segments
  import opened Service
  import opened Swizzle
  import opened Tiling
  import Regions
  import SpMallocs
  import TreeModel
  import Timeline

  // ---- the row piece behind node 0 (updown/libraries/dramalloc/alloc.cpp:94-103) ----

  /** Four blocks on nodes 0 and 1 of four leave nodes 2 and 3. */
  lemma HalfCut()
    ensures var g, s := Grant(0, 512, 128, 2, 0), Rect(0, 0, 256, 4);
      !Refused(512, 128, 2) && g.WellPosed() && g.FullRect() && s.Fit(0, g.MemLength(), 2) &&
      Leftovers(s, g) == [Block(Rect(0, 2, 256, 2), 128)]
  {
    SmallPowers();
    var g := Grant(0, 512, 128, 2, 0);
    assert g.Blocks() == 4 && g.MemLength() == 256;
  }

  /** Three blocks there do not fill their rows. */
  lemma ThreeBlocks()
    ensures var g, s := Grant(0, 384, 128, 2, 2), Rect(0, 2, 256, 2);
      !Refused(384, 128, 2) && g.WellPosed() && !g.FullRect() && s.Fit(2, g.MemLength(), 2)
  {
    SmallPowers();
    var g := Grant(0, 384, 128, 2, 2);
    assert g.Blocks() == 3 && g.MemLength() == 256;
  }

  /** A tree with one block has no inner node to starve. */
  lemma OneBlockDoesNotStarve(t: RTree, b: Block, g: Grant)
    requires t.Valid() && t.Blocks() == multiset{b} && g.WellPosed()
    ensures !Starving(t.root.view, g)
  {
    hide Offered;
    RootWellFormed(t.nodes, t.root);
    TreeModel.OneBlockIsLeaf(t.root.view);
  }

  /** An arena of which one half is handed out: the other half is one free block. */
  method HalfTaken() returns (a: Allocator)
    ensures fresh(a) && fresh(a.freeBlocks) && fresh(a.freeBlocks.nodes)
    ensures a.Sound() && a.Balanced() && a.arena == Rect(0, 0, 256, 4)
    ensures a.live == {Grant(0, 512, 128, 2, 0)} && a.freeBlocks.Blocks() == multiset{Block(Rect(0, 2, 256, 2), 128)}
  {
    hide Conserved, RTree.Blocks, Refused, Starving, Leftovers, Allocator.Sound, Offered, Grant.MemLength, Grant.WellPosed, Grant.FullRect;
    a := new Allocator(0, 256, 4);
    HalfCut();
    LeafDoesNotStarve(a.freeBlocks.root.view, Grant(0, 512, 128, 2, 0));
    assert Block(a.arena, 64) in a.freeBlocks.Blocks();
    var p := a.Allocate(512, 128, 2, 0);
  }

  lemma LeafDoesNotStarve(t: TreeModel.Tree, g: Grant)
    requires t.Leaf? && g.WellPosed()
    ensures !Starving(t, g)
  {
    hide Offered;
  }

  /** A balanced arena out of balance after one more request: its block starts at node 2, and
      it does not fill its rows. */
  method RowPieceBreaks() returns (a: Allocator)
    ensures a.Sound() && !a.Balanced()
    ensures a.live == {Grant(0, 512, 128, 2, 0), Grant(0, 384, 128, 2, 2)}
  {
    hide Conserved, RTree.Blocks, Refused, Starving, Leftovers, Allocator.Sound, RTree.Valid, Offered, Grant.MemLength, Grant.WellPosed, Grant.FullRect;
    a := HalfTaken();
    ThreeBlocks();
    ValidTree(a);
    OneBlockDoesNotStarve(a.freeBlocks, Block(Rect(0, 2, 256, 2), 128), Grant(0, 384, 128, 2, 2));
    assert Block(Rect(0, 2, 256, 2), 128) in a.freeBlocks.Blocks();
    var p := a.Allocate(384, 128, 2, 2);
  }

  lemma ValidTree(a: Allocator)
    requires a.Sound()
    ensures a.freeBlocks.Valid()
  {
  }

  /** The other half taken by a request that fills it: two live requests at the same address
      of different nodes. */
  method SameBase() returns (a: Allocator)
    ensures a.Sound() && a.Balanced()
    ensures a.live == {Grant(0, 512, 128, 2, 0), Grant(0, 512, 128, 2, 2)}
  {
    hide Conserved, RTree.Blocks, Refused, Starving, Leftovers, Allocator.Sound, RTree.Valid, Offered, Grant.MemLength, Grant.WellPosed, Grant.FullRect;
    a := HalfTaken();
    OtherHalf();
    ValidTree(a);
    OneBlockDoesNotStarve(a.freeBlocks, Block(Rect(0, 2, 256, 2), 128), Grant(0, 512, 128, 2, 2));
    assert Block(Rect(0, 2, 256, 2), 128) in a.freeBlocks.Blocks();
    var p := a.Allocate(512, 128, 2, 2);
  }

  lemma OtherHalf()
    ensures var g, s := Grant(0, 512, 128, 2, 2), Rect(0, 2, 256, 2);
      !Refused(512, 128, 2) && g.WellPosed() && g.FullRect() && s.Fit(2, g.MemLength(), 2)
  {
    SmallPowers();
    var g := Grant(0, 512, 128, 2, 2);
    assert g.Blocks() == 4 && g.MemLength() == 256;
  }

  /** Half the block size describes the same cells, and freeing them is right. */
  method OtherBlockSize() returns (a: Allocator)
    ensures a.Sound() && a.Balanced() && a.live == {}
  {
    hide Conserved, RTree.Blocks, Allocator.Sound, Grant.MemLength, Released, SameCells, Freed;
    a := HalfTaken();
    SameHalf();
    a.Free(0, 512, 64, 2, 0);
  }

  lemma SameHalf()
    ensures var g, h := Grant(0, 512, 128, 2, 0), Grant(0, 512, 64, 2, 0);
      h.WellPosed() && Released({g}, h) == {g} && SameCells({g}, h)
  {
    hide Grant.Occupies;
    var g, h := Grant(0, 512, 128, 2, 0), Grant(0, 512, 64, 2, 0);
    assert g.Blocks() == 4 && g.MemLength() == 256 && h.Blocks() == 8 && h.MemLength() == 256;
    forall m, n ensures g.Uses(m, n) <==> h.Uses(m, n) {
      OccupiesMeans(g, m, n);
      OccupiesMeans(h, m, n);
    }
    assert g in {g};
  }

  // ---- a row of one byte (updown/libraries/dramalloc/dramalloc_service_core.cpp:236, 245) ----

  lemma OneByteRounds()
    ensures RoundUp(1, 128, 2) == 256 && !Refused(256, 128, 2)
    ensures var g := Grant(0, 256, 128, 2, 0); g.WellPosed() && g.MemLength() == 128
    ensures RequestArea(2).WellPosed() && Leftovers(Rect(0, 0, 1024, 2), RequestArea(2)) == [Block(Rect(REQUEST, 0, 1024 - REQUEST, 2), REQUEST)]
    ensures IsPow2(2) && IsPow2(128)
  {
    SmallPowers();
    var g, h := Grant(0, 256, 128, 2, 0), RequestArea(2);
    assert g.Blocks() == 2 && h.Blocks() == 2 && h.MemLength() == REQUEST;
  }

  /** One byte on two nodes of 512 bytes, taken. */
  method OneByteTaken() returns (d: DramAllocator)
    ensures fresh(d) && fresh(d.allocator) && fresh(d.allocator.freeBlocks) && fresh(d.allocator.freeBlocks.nodes)
    ensures d.ready && d.Usable() && d.machine == Machine(2, 0, 0, 1024) && d.reserved < d.allocator.live
    ensures |d.table| == 1 && exists base: nat :: d.table[0] == Entry(5000, base, 1, 128, 2, 0)
  {
    hide Conserved, RTree.Blocks, Refused, Starving, Leftovers, Allocator.Sound, RTree.Valid, Accounts, RoundUp, GrantOf;
    var m := Machine(2, 0, 0, 1024);
    OneByteRounds();
    d := new DramAllocator(m);
    UsableTree(d);
    var b := Block(Rect(REQUEST, 0, 1024 - REQUEST, 2), REQUEST);
    OneBlockDoesNotStarve(d.allocator.freeBlocks, b, Grant(0, 256, 128, 2, 0));
    assert b in d.allocator.freeBlocks.Blocks() && b.rect.Fit(0, 128, 2);
    var r := d.AllocateMemory(1, 128, 2, 0, 5000);
  }

  /** And given back: the request stays live, its row is gone. */
  method OneByteLost() returns (d: DramAllocator)
    ensures d.ready && !d.Usable() && d.table == [] && d.reserved < d.allocator.live
  {
    hide DramAllocator.Usable, Released, GivenBackWhole, RTree.Blocks;
    d := OneByteTaken();
    var base: nat :| d.table[0] == Entry(5000, base, 1, 128, 2, 0);
    OneByteGivesNothing(d);
    NotWhole(d.table[0], base);
    var ok := d.FreeMemory(5000);
  }

  lemma NotWhole(e: Entry, base: nat)
    requires e == Entry(5000, base, 1, 128, 2, 0)
    ensures !GivenBackWhole(e) && ReturnOf(e) == Grant(base, 1, 128, 2, 0)
  {
  }

  lemma OneByteGivesNothing(d: DramAllocator)
    requires d.Usable()
    ensures forall base: nat :: Released(d.allocator.live, Grant(base, 1, 128, 2, 0)) == {}
  {
    hide Conserved, Accounts, Released, RTree.Blocks, RTree.Valid, RTree.Tight;
    forall base: nat ensures Released(d.allocator.live, Grant(base, 1, 128, 2, 0)) == {} {
      var h := Grant(base, 1, 128, 2, 0);
      assert h.Blocks() == 1;
      NothingReleased(d.allocator.freeBlocks.Blocks(), d.allocator.live, d.allocator.arena, h);
    }
  }

  lemma UsableTree(d: DramAllocator)
    requires d.Usable()
    ensures d.allocator.freeBlocks.Valid()
  {
  }

  // ---- a high base (updown/common/include/memorySegments.h:41-50) ----

  /** A segment at the first address that has 37 bits: its base has a virtual address, which
      has no physical one. */
  lemma HighBase() returns (s: Segment)
    ensures s.InRange() && s.base == Phys(0, MAXSUM + 1) && s.GetVirtual(s.base) == Some(0) && s.GetPhysical(0) == None
  {
    hide Pow2, NodeBytes, PlaceOf, NodeOf, Segment.Unswizzled, Segment.GetPhysical;
    var m := Mask(26, 30, 1, 7);
    var base := Phys(0, MAXSUM + 1);
    s := Segment(0, 256, m, base, Phys(base.node + Pow2(m.B), NodeBytes(256, m) + base.addr));
    SmallPowers();
    Pow2Monotone(8, 38);
    BelowLimit(0, 256, m);
    UnswizzledIs(s, Phys(0, 0));
    NoBits(m);
    PhysicalRoundTrip(s, base);
  }

  lemma NoBits(m: Mask)
    ensures Up(Up(Down(0, m.C), m.B) + 0, m.C) + Low(0, m.C) == 0
  {
    LowOfZero(m.C);
    LowOfZero(m.B);
  }

  // ---- the region map (updown/runtime/include/updown.h:306-318, 366-399) ----

  /** No bytes from a map whose only region starts at 4. */
  method NothingUnaligned() returns (m: Regions.RegionMap)
    ensures !m.Valid()
  {
    m := new Regions.RegionMap(4, 16);
    Regions.AllReturned(m.regions, 4, 20);
    assert 8 % 8 == 0 && m.regions[0].HasAligned(0);
    var p, i := m.GetRegion(0);
  }

  /** Eight bytes at 12 in a region of 16. */
  method BeyondRegion() returns (m: Regions.RegionMap)
    ensures !m.Valid()
  {
    m := new Regions.RegionMap(0, 16);
    Regions.AllReturned(m.regions, 0, 16);
    var p, i := m.GetRegionAtAddr(12, 8);
  }

  /** No bytes at 8 in a region of 16. */
  method NothingBehind() returns (m: Regions.RegionMap)
    ensures !m.Valid()
  {
    m := new Regions.RegionMap(0, 16);
    Regions.AllReturned(m.regions, 0, 16);
    var p, i := m.GetRegionAtAddr(8, 0);
  }

  // ---- the timeline (updown/basimruntime/src/basimupdown.cpp:1640-1659) ----

  lemma {:induction false} OneEach(h: seq<nat>, n: nat)
    requires n <= |h| && forall i :: 0 <= i < |h| ==> h[i] == 1
    ensures Timeline.Bytes(h, 0, n) == n
  {
    if n > 0 { OneEach(h, n - 1); }
  }

  /** Three ticks and one byte in every cycle: the first compaction makes the slots wrong. */
  method OddTicks() returns (r: Timeline.Recorder)
    ensures r.ticks == 3 && r.Valid() && !r.Exact()
    ensures |r.seen| == 1001 && forall i :: 0 <= i < |r.seen| ==> r.seen[i] == 1
  {
    hide Timeline.Bytes, Timeline.Faithful;
    r := new Timeline.Recorder(3);
    for k := 0 to Timeline.SLOTS
      invariant fresh(r) && fresh(r.timeline) && r.ticks == 3 && r.Valid() && r.Exact() && r.interval == 1
      invariant |r.seen| == k && forall i :: 0 <= i < k ==> r.seen[i] == 1
    {
      r.Tick(1);
    }
    OneEach(r.seen, Timeline.SLOTS);
    r.Tick(1);
  }

  // ---- the scratchpad simulator (updown/libraries/SpMalloc/heap_simulator.py:12-17) ----

  /** A heap of two words grants them twice. */
  method GrantedTwice() returns (p: nat, q: nat)
    ensures p == q == 8
  {
    var a := new SpMallocs.ImplicitFreeListAllocator(16, 0);
    p := a.Alloc(1);
    q := a.Alloc(1);
  }
}
