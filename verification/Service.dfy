/** The allocation service: requests checked, rounded, placed and recorded in the
    translation table (updown/libraries/dramalloc/dramalloc_service_core.cpp:34-137, 163-249). */
module Service {
  import opened Allocation
  import opened Bits
  import opened Placement
  import opened Rects
  import opened RTrees
  import opened Segments
  import opened Seqs
  import opened Swizzle
  import opened Tiling
  import TreeModel

  datatype Machine = Machine(nodes: nat, mapBase: nat, mapSize: nat, gmapSize: nat)
  {
    predicate IsLocal(ptr: nat) { mapBase < ptr < mapBase + mapSize }
  }

  /** The size rounded up to whole rows of blocks across the nodes. */
  function RoundUp(size: nat, blockSize: nat, numNodes: nat): nat {
    if blockSize == 0 || numNodes == 0 then 0
    else RowsFor(size, blockSize, numNodes) * RowSize(blockSize, numNodes)
  }

  function RowSize(blockSize: nat, numNodes: nat): (r: nat)
    ensures blockSize > 0 && numNodes > 0 ==> r > 0
  {
    blockSize * numNodes
  }

  function RowsFor(size: nat, blockSize: nat, numNodes: nat): nat
    requires blockSize > 0 && numNodes > 0
  {
    CeilDiv(size, RowSize(blockSize, numNodes))
  }

  /** The request that the allocator got for a row of the table. */
  function GrantOf(e: Entry): Grant {
    Grant(e.phyBase, RoundUp(e.size, e.blockSize, e.numNodes), e.blockSize, e.numNodes, e.startNode)
  }

  /** The request that the allocator is given back for it: the size is not rounded. */
  function ReturnOf(e: Entry): Grant {
    Grant(e.phyBase, e.size, e.blockSize, e.numNodes, e.startNode)
  }

  /** A rounded request fills its rows. */
  lemma RoundedIsFull(g: Grant, size: nat)
    requires size > 0 && g.blockSize > 0 && g.nbNodes > 0 && g.size == RoundUp(size, g.blockSize, g.nbNodes)
    ensures var rows := RowsFor(size, g.blockSize, g.nbNodes);
      rows >= 1 && g.Blocks() == rows * g.nbNodes && g.WellPosed() && g.FullRect() && g.MemLength() == rows * g.blockSize
    ensures size <= g.size < size + g.blockSize * g.nbNodes
  {
    hide Grant.MemLength, Grant.Blocks, CeilDiv;
    var rows := RowsFor(size, g.blockSize, g.nbNodes);
    CeilIs(size, RowSize(g.blockSize, g.nbNodes));
    AtLeastOne(rows, RowSize(g.blockSize, g.nbNodes));
    Reorder3(rows, g.blockSize, g.nbNodes);
    BlocksOfMultiple(g, rows * g.nbNodes);
    DivModIs(rows * g.nbNodes, g.nbNodes, rows, 0);
    ProductMonotone(1, rows, g.nbNodes, g.nbNodes);
    ProductMonotone(1, rows * g.nbNodes, g.blockSize, g.blockSize);
    g.Sides();
  }

  lemma AtLeastOne(q: nat, d: nat)
    requires q * d > 0
    ensures q >= 1
  {
  }

  lemma Reorder3(a: nat, b: nat, c: nat)
    ensures a * (b * c) == (a * c) * b && a * (b * c) == (a * b) * c
  {
  }

  lemma BlocksOfMultiple(g: Grant, k: nat)
    requires g.blockSize > 0 && g.size == k * g.blockSize
    ensures g.Blocks() == k
  {
    DivModIs(g.size, g.blockSize, k, 0);
  }

  /** Rounding up: the least multiple that is not smaller. */
  lemma CeilIs(a: nat, b: nat)
    requires b > 0
    ensures a <= CeilDiv(a, b) * b < a + b
  {
    Spread(a / b, b);
  }

  lemma CeilUnique(a: nat, b: nat, q: nat)
    requires b > 0 && a <= q * b < a + b
    ensures CeilDiv(a, b) == q
  {
    CeilIs(a, b);
    var e := CeilDiv(a, b) - q;
    assert e * b == CeilDiv(a, b) * b - q * b;
    StepAtLeast(e, b);
  }

  /** The description given back names the same rectangle exactly when the unrounded size
      fills whole rows of blocks. */
  lemma ReturnMatches(e: Entry)
    requires e.size > 0 && e.blockSize > 0 && e.numNodes > 0
    ensures GrantOf(e).WellPosed()
    ensures ReturnOf(e).WellPosed() && Freed(ReturnOf(e)) == Freed(GrantOf(e)) <==> ReturnOf(e).FullRect()
  {
    hide Grant.Blocks, Grant.MemLength;
    var g, h := GrantOf(e), ReturnOf(e);
    RoundedIsFull(g, e.size);
    if h.FullRect() {
      var q := h.Blocks() / e.numNodes;
      h.BlocksEnough();
      assert h.Blocks() == q * e.numNodes;
      Reorder3(q, e.blockSize, e.numNodes);
      AtLeastOne(q * e.numNodes, e.blockSize);
      AtLeastOne(q, e.numNodes);
      ProductMonotone(1, q, e.numNodes, e.numNodes);
      ProductMonotone(e.blockSize, e.blockSize, 1, e.numNodes);
      CeilUnique(e.size, RowSize(e.blockSize, e.numNodes), q);
      h.Sides();
    }
  }

  predicate IsGlobal(e: Entry) { e.numNodes > 1 }

  /** The multi-node rows of the table and the live requests are in one-to-one
      correspondence. */
  ghost predicate Matched(table: seq<Entry>, live: set<Grant>) {
    && (forall i :: 0 <= i < |table| ==> table[i].blockSize > 0 && table[i].numNodes > 0)
    && (forall i :: 0 <= i < |table| && IsGlobal(table[i]) ==> table[i].size > 0 && GrantOf(table[i]) in live)
    && (forall i, j :: 0 <= i < j < |table| && IsGlobal(table[i]) && IsGlobal(table[j]) ==> GrantOf(table[i]) != GrantOf(table[j]))
    && forall g :: g in live ==> g.nbNodes > 1 && RecordedIn(table, g)
  }

  ghost predicate RecordedIn(table: seq<Entry>, g: Grant) {
    exists i :: 0 <= i < |table| && IsGlobal(table[i]) && GrantOf(table[i]) == g
  }

  /** The rows stand for the live requests but those reserved for the service itself. */
  ghost predicate Accounts(table: seq<Entry>, live: set<Grant>, reserved: set<Grant>) {
    && reserved <= live && (forall g :: g in reserved ==> g.nbNodes > 1)
    && Matched(table, live - reserved)
  }

  lemma NoRows(reserved: set<Grant>)
    ensures Accounts([], reserved, reserved) <==> forall g :: g in reserved ==> g.nbNodes > 1
  {
    assert reserved - reserved == {};
  }

  lemma ReservedLive(table: seq<Entry>, live: set<Grant>, reserved: set<Grant>)
    requires Accounts(table, live, reserved)
    ensures reserved <= live
  {
  }

  /** A row for a new live request. */
  lemma Accounted(table: seq<Entry>, live: set<Grant>, reserved: set<Grant>, e: Entry)
    requires Accounts(table, live, reserved) && e.blockSize > 0 && e.numNodes > 0
    requires IsGlobal(e) ==> e.size > 0 && GrantOf(e) !in live
    ensures Accounts(table + [e], if IsGlobal(e) then live + {GrantOf(e)} else live, reserved)
  {
    hide GrantOf, Matched;
    Recorded(table, live - reserved, e);
    if IsGlobal(e) { assert live + {GrantOf(e)} - reserved == live - reserved + {GrantOf(e)}; }
  }

  lemma Recorded(table: seq<Entry>, live: set<Grant>, e: Entry)
    requires Matched(table, live) && e.blockSize > 0 && e.numNodes > 0
    requires IsGlobal(e) ==> e.size > 0 && GrantOf(e) !in live
    ensures Matched(table + [e], if IsGlobal(e) then live + {GrantOf(e)} else live)
  {
    hide GrantOf;
    var all := table + [e];
    var live1 := if IsGlobal(e) then live + {GrantOf(e)} else live;
    forall g | g in live1 ensures g.nbNodes > 1 && RecordedIn(all, g) {
      if g in live {
        var i :| 0 <= i < |table| && IsGlobal(table[i]) && GrantOf(table[i]) == g;
        assert all[i] == table[i];
      } else {
        assert all[|table|] == e;
        NodesOf(e);
      }
    }
  }

  lemma NodesOf(e: Entry)
    ensures GrantOf(e).nbNodes == e.numNodes && GrantOf(e).blockSize == e.blockSize
    ensures GrantOf(e).base == e.phyBase && GrantOf(e).startNode == e.startNode
  {
  }

  /** Erasing a row keeps the correspondence with the requests without its own, and with
      no others. */
  lemma Erased(table: seq<Entry>, k: nat, live: set<Grant>)
    requires k < |table| && Matched(table, live)
    ensures IsGlobal(table[k]) ==> Matched(Without(table, k), live - {GrantOf(table[k])}) && !Matched(Without(table, k), live)
    ensures !IsGlobal(table[k]) ==> Matched(Without(table, k), live)
  {
    hide GrantOf, Matched;
    RowsFormed(table, live, k);
    ErasedRow(table, k, live);
    if IsGlobal(table[k]) {
      RowGone(table, k, live);
      NotRecorded(Without(table, k), live, GrantOf(table[k]));
    }
  }

  lemma ErasedRow(table: seq<Entry>, k: nat, live: set<Grant>)
    requires k < |table| && Matched(table, live)
    ensures Matched(Without(table, k), if IsGlobal(table[k]) then live - {GrantOf(table[k])} else live)
  {
    hide GrantOf, Without, RecordedIn;
    RestRows(table, k);
    var e, rest := table[k], Without(table, k);
    forall g | g in live && !(IsGlobal(e) && g == GrantOf(e)) ensures RecordedIn(rest, g) {
      StillRecorded(table, k, g);
    }
  }

  /** The other rows, in their order. */
  lemma RestRows(table: seq<Entry>, k: nat)
    requires k < |table|
    ensures |Without(table, k)| == |table| - 1
    ensures forall i :: 0 <= i < |table| - 1 ==> Without(table, k)[i] == table[if i < k then i else i + 1]
  {
  }

  lemma StillRecorded(table: seq<Entry>, k: nat, g: Grant)
    requires k < |table| && RecordedIn(table, g) && !(IsGlobal(table[k]) && g == GrantOf(table[k]))
    ensures RecordedIn(Without(table, k), g)
  {
    hide GrantOf;
    var i :| 0 <= i < |table| && IsGlobal(table[i]) && GrantOf(table[i]) == g;
    assert Without(table, k)[if i < k then i else i - 1] == table[i];
  }

  lemma RowGone(table: seq<Entry>, k: nat, live: set<Grant>)
    requires k < |table| && Matched(table, live) && IsGlobal(table[k])
    ensures !RecordedIn(Without(table, k), GrantOf(table[k]))
  {
    hide GrantOf;
    var rest := Without(table, k);
    forall i | 0 <= i < |rest| && IsGlobal(rest[i]) ensures GrantOf(rest[i]) != GrantOf(table[k]) {
      assert rest[i] == table[if i < k then i else i + 1];
    }
  }

  lemma NotRecorded(table: seq<Entry>, live: set<Grant>, g: Grant)
    requires g in live && !RecordedIn(table, g)
    ensures !Matched(table, live)
  {
  }

  /** The cells of what is given back are among those of the request, and make them up
      exactly when the unrounded size fills whole rows. */
  lemma ReturnWithin(e: Entry)
    requires e.size > 0 && e.blockSize > 0 && e.numNodes > 0
    ensures Within(ReturnOf(e), GrantOf(e))
    ensures Within(GrantOf(e), ReturnOf(e)) <==> ReturnOf(e).FullRect()
  {
    hide GrantOf, Grant.Occupies, Freed, Grant.MemLength, Grant.FullRect;
    var g, h := GrantOf(e), ReturnOf(e);
    ReturnMatches(e);
    if h.FullRect() {
      FreedCells(g);
      FreedCells(h);
    } else {
      ReturnShorter(e);
      LastCell(g, h);
    }
  }

  /** An unrounded size that does not fill its rows has fewer full ones. */
  lemma ReturnShorter(e: Entry)
    requires e.size > 0 && e.blockSize > 0 && e.numNodes > 0 && !ReturnOf(e).FullRect()
    ensures var g, h := GrantOf(e), ReturnOf(e);
      g.WellPosed() && g.FullRect() && h.MemLength() <= g.MemLength() && h.base == g.base && h.startNode == g.startNode &&
      h.nbNodes == g.nbNodes > 0 && h.blockSize == g.blockSize > 0
  {
    hide Grant.Blocks, RoundUp, RowsFor, Grant.MemLength;
    var g, h := GrantOf(e), ReturnOf(e);
    RoundedIsFull(g, e.size);
    g.BlocksEnough();
    h.BlocksEnough();
    FewerBlocks(e.size, e.blockSize, h.Blocks(), g.Blocks());
    Shorter(h, RowsFor(e.size, e.blockSize, e.numNodes));
  }

  lemma Shorter(h: Grant, rows: nat)
    requires h.blockSize > 0 && h.nbNodes > 0 && !h.FullRect() && h.Blocks() <= rows * h.nbNodes
    ensures h.MemLength() <= rows * h.blockSize
  {
    hide Grant.Blocks;
    FewerRows(h.Blocks(), h.nbNodes, rows);
    ProductMonotone(h.Blocks() / h.nbNodes + 1, rows, h.blockSize, h.blockSize);
  }

  lemma FewerBlocks(size: nat, blockSize: nat, few: nat, many: nat)
    requires few * blockSize < size + blockSize && size <= many * blockSize
    ensures few <= many
  {
    StepAtLeast(few - many, blockSize);
    assert (few - many) * blockSize == few * blockSize - many * blockSize;
  }

  lemma FewerRows(blocks: nat, nodes: nat, rows: nat)
    requires nodes > 0 && blocks <= rows * nodes && blocks % nodes != 0
    ensures blocks / nodes + 1 <= rows
  {
    var e := blocks / nodes - rows;
    assert e * nodes == blocks / nodes * nodes - rows * nodes;
    StepAtLeast(e, nodes);
  }

  /** What is not a full rectangle lacks the last cell of one that is as long. */
  lemma LastCell(g: Grant, h: Grant)
    requires g.WellPosed() && g.FullRect() && h.base == g.base && h.startNode == g.startNode
    requires h.nbNodes == g.nbNodes && h.blockSize == g.blockSize > 0 && !h.FullRect() && h.MemLength() <= g.MemLength()
    ensures Within(h, g) && !Within(g, h)
  {
    hide Grant.Blocks, Grant.MemLength, Grant.Occupies;
    g.Facts();
    var m, n := g.base + g.MemLength() - 1, g.startNode + g.nbNodes - 1;
    OccupiesMeans(g, m, n);
    if h.WellPosed() {
      h.Facts();
      OccupiesMeans(h, m, n);
    }
    assert g.Uses(m, n) && !h.Uses(m, n);
    forall i, j | h.Uses(i, j) ensures g.Uses(i, j) {
      OccupiesMeans(g, i, j);
      OccupiesMeans(h, i, j);
    }
  }

  /** Giving back `h`, which lies within live request `g`, releases `g` or nothing. */
  lemma ReleasedIs(free: multiset<Block>, live: set<Grant>, arena: Rect, g: Grant, h: Grant)
    requires Conserved(free, live, arena) && g in live && Within(h, g)
    ensures Released(live, h) == if Within(g, h) then {g} else {}
    ensures !h.WellPosed() || SameCells(Released(live, h), h) <==> !h.WellPosed() || Within(g, h)
  {
    hide Freed, Grant.Footprint, Grant.Occupies, Disjoint, IsFree, Grant.WellPosed;
    forall k | k in live && Within(k, h) ensures k == g {
      FootprintStarts(k);
      assert k.Uses(k.base, k.startNode) && h.Uses(k.base, k.startNode) && g.Uses(k.base, k.startNode);
    }
    if h.WellPosed() {
      if Within(g, h) {
        assert g in {g};
      } else {
        FootprintStarts(h);
        assert h.Uses(h.base, h.startNode) && !IsTaken({}, h.base, h.startNode);
      }
    }
  }

  /** Within a single-node description lies no request on several nodes. */
  lemma SingleNodeReleasesNone(free: multiset<Block>, live: set<Grant>, arena: Rect, h: Grant)
    requires Conserved(free, live, arena) && h.nbNodes == 1 && forall g :: g in live ==> g.nbNodes > 1
    ensures Released(live, h) == {}
    ensures h.WellPosed() ==> !SameCells(Released(live, h), h)
  {
    hide Freed, Disjoint, IsFree, IsTaken, Grant.Occupies, Grant.Blocks, Grant.MemLength;
    forall k | k in live ensures !Within(k, h) {
      k.Facts();
      OccupiesMeans(k, k.base, k.startNode);
      OccupiesMeans(k, k.base, k.startNode + 1);
      assert k.Uses(k.base, k.startNode) && k.Uses(k.base, k.startNode + 1);
      OnOneNode(h, k.base, k.startNode);
      OnOneNode(h, k.base, k.startNode + 1);
    }
    if h.WellPosed() {
      FootprintStarts(h);
      assert h.Uses(h.base, h.startNode) && !IsTaken({}, h.base, h.startNode) by { NoneTaken(h.base, h.startNode); }
    }
  }

  lemma NoneTaken(m: nat, n: nat)
    ensures !IsTaken({}, m, n)
  {
  }

  lemma OnOneNode(h: Grant, m: nat, n: nat)
    requires h.nbNodes == 1
    ensures h.Uses(m, n) ==> n == h.startNode
  {
    hide Grant.Blocks, Grant.MemLength;
    if h.WellPosed() { OccupiesMeans(h, m, n); }
  }

  /** Whether giving a row back returns what was taken for it. */
  predicate GivenBackWhole(e: Entry)
    requires e.blockSize > 0 && e.numNodes > 0
  {
    if IsGlobal(e) then ReturnOf(e).FullRect() else e.size == 0
  }

  /** Balance and correspondence after a free, in one condition; nothing that is reserved
      is ever given back. */
  lemma FreeKeeps(free: multiset<Block>, live: set<Grant>, reserved: set<Grant>, arena: Rect, table: seq<Entry>, k: nat)
    requires Conserved(free, live, arena) && k < |table| && Accounts(table, live, reserved)
    ensures table[k].blockSize > 0 && table[k].numNodes > 0
    ensures reserved !! Released(live, ReturnOf(table[k]))
    ensures var h := ReturnOf(table[k]);
      (!h.WellPosed() || SameCells(Released(live, h), h)) && Accounts(Without(table, k), live - Released(live, h), reserved) <==> GivenBackWhole(table[k])
  {
    hide Freed, Grant.Footprint, Grant.Occupies, Disjoint, IsFree, IsTaken, Grant.Blocks, Matched, Conserved, Released, SameCells, Within, GrantOf, RoundUp;
    var rows := live - reserved;
    RowsFormed(table, rows, k);
    var e := table[k];
    var h := ReturnOf(e);
    Erased(table, k, rows);
    if IsGlobal(e) {
      NodesOf(e);
      ReturnWithin(e);
      ReleasedIs(free, live, arena, GrantOf(e), h);
      ReturnMatches(e);
      assert live - {} == live && live - {GrantOf(e)} - reserved == rows - {GrantOf(e)};
    } else {
      assert forall g :: g in live ==> g in rows || g in reserved;
      SingleNodeReleasesNone(free, live, arena, h);
      SingleNodePosed(h);
      assert live - {} == live;
    }
  }

  lemma RowsFormed(table: seq<Entry>, live: set<Grant>, k: nat)
    requires k < |table| && Matched(table, live)
    ensures table[k].blockSize > 0 && table[k].numNodes > 0
    ensures IsGlobal(table[k]) ==> table[k].size > 0 && GrantOf(table[k]) in live
    ensures forall g :: g in live ==> g.nbNodes > 1
  {
  }

  lemma SingleNodePosed(h: Grant)
    requires h.blockSize > 0 && h.nbNodes == 1
    ensures h.WellPosed() <==> h.size > 0
  {
  }

  /** `x & (x - 1)` on 64-bit words, where 0 - 1 wraps. */
  function OneBit(x: nat): nat { And(x, Wrap(x - 1)) }

  lemma OneBitIff(x: nat)
    requires x < WORD
    ensures OneBit(x) == 0 <==> x == 0 || IsPow2(x)
  {
    hide And;
    if x > 0 { PowerOfTwoTest(x); } else { ZeroAnd(Wrap(x - 1)); }
  }

  lemma ZeroAnd(x: nat)
    ensures And(0, x) == 0
  {
  }

  /** Power-of-two block sizes above 64 are multiples of 8 as they are. */
  lemma AlignedBlock(blockSize: nat)
    requires IsPow2(blockSize) && blockSize > 64
    ensures CeilDiv(blockSize, 8) * 8 == blockSize
  {
    var k: nat :| blockSize == Pow2(k);
    hide Pow2;
    RequestPower();
    if k < 6 { Pow2Monotone(k, 6); }
    Pow2Add(6, k - 6);
    DivModIs(blockSize, 8, 8 * Pow2(k - 6), 0);
  }

  /** The rounded request fits a free block. */
  ghost predicate FitsRounded(free: multiset<Block>, size: nat, blockSize: nat, numNodes: nat, startNode: nat) {
    var g := Grant(0, RoundUp(size, blockSize, numNodes), blockSize, numNodes, startNode);
    g.WellPosed() && Fits(free, g)
  }

  /** Of the rounded requests, the allocator turns down the empty ones. */
  lemma RefusedRounded(size: nat, blockSize: nat, numNodes: nat, startNode: nat)
    requires IsPow2(blockSize) && numNodes != 1 && (numNodes == 0 || IsPow2(numNodes))
    ensures Refused(RoundUp(size, blockSize, numNodes), blockSize, numNodes) <==> size == 0 || numNodes == 0
    ensures size > 0 && numNodes > 0 ==> Grant(0, RoundUp(size, blockSize, numNodes), blockSize, numNodes, startNode).WellPosed()
  {
    hide RoundUp;
    if numNodes > 0 {
      if size > 0 {
        RoundedIsFull(Grant(0, RoundUp(size, blockSize, numNodes), blockSize, numNodes, startNode), size);
      } else {
        RoundZero(blockSize, numNodes);
      }
    }
  }

  lemma RoundZero(blockSize: nat, numNodes: nat)
    ensures RoundUp(0, blockSize, numNodes) == 0
  {
  }

  lemma AlwaysFull(g: Grant, size: nat)
    requires g.blockSize > 0 && g.nbNodes > 0 && g.size == RoundUp(size, g.blockSize, g.nbNodes) && size > 0
    ensures g.FullRect()
  {
    RoundedIsFull(g, size);
  }

  /** Bytes of a request record: type, continuation, four arguments and padding. */
  const REQUEST: nat := 64

  /** The area for one request record on each node. */
  function RequestArea(nodes: nat): Grant { Grant(0, REQUEST * nodes, REQUEST, nodes, 0) }

  /** It needs one block on every node. */
  lemma RequestAreaIs(nodes: nat)
    requires nodes > 1
    ensures var g := RequestArea(nodes); g.WellPosed() && g.FullRect() && g.MemLength() == REQUEST
  {
    hide Grant.Blocks;
    BlocksOfMultiple(RequestArea(nodes), nodes);
  }

  /** The size of the area does not wrap, or it wraps to nothing. */
  lemma AreaSize(nodes: nat)
    requires IsPow2(nodes)
    ensures Wrap(REQUEST * nodes) == REQUEST * nodes || Wrap(REQUEST * nodes) == 0
  {
    hide Pow2, Wrap;
    var k: nat :| nodes == Pow2(k);
    RequestPower();
    Pow2Add(6, k);
    Powers();
    if k >= 58 {
      Pow2Add(64, k - 58);
      assert 6 + k == 64 + (k - 58);
      MultipleWraps(Pow2(k - 58));
    } else {
      Pow2Monotone(6 + k, 63);
      Pow2Add(1, 63);
      SmallPowers();
      InWord(REQUEST * nodes);
    }
  }

  lemma RequestPower()
    ensures Pow2(6) == REQUEST
  {
  }

  lemma MultipleWraps(q: nat)
    ensures Wrap(WORD * q) == 0
  {
    DivModIs(WORD * q, WORD, q, 0);
  }

  /** A fresh arena has room for the request area exactly when a node has room for a record. */
  lemma RequestFits(t: TreeModel.Tree, arena: Rect, nodes: nat)
    requires nodes > 1 && IsPow2(nodes) && t.Leaf? && arena.nodeStart == 0 && arena.nodeLen == nodes
    requires arena.memLen * nodes < WORD
    ensures var size := Wrap(REQUEST * nodes);
      !Refused(size, REQUEST, nodes) ==>
        size == REQUEST * nodes && RequestArea(nodes).WellPosed() && !Starving(t, RequestArea(nodes)) &&
        (Fits(multiset{Block(arena, 64)}, RequestArea(nodes)) <==> REQUEST <= arena.memLen)
    ensures REQUEST <= arena.memLen ==> !Refused(Wrap(REQUEST * nodes), REQUEST, nodes)
  {
    hide IsPow2, Grant.MemLength, Grant.Blocks, Wrap, Offered;
    RequestAreaIs(nodes);
    AreaSize(nodes);
    if REQUEST <= arena.memLen {
      ProductMonotone(REQUEST, arena.memLen, nodes, nodes);
      InWord(REQUEST * nodes);
      BlocksOfMultiple(RequestArea(nodes), nodes);
      NotRefusedHere(RequestArea(nodes));
    }
    if !Refused(Wrap(REQUEST * nodes), REQUEST, nodes) {
      assert Block(arena, 64) in multiset{Block(arena, 64)};
    }
  }

  lemma NotRefusedHere(g: Grant)
    requires g.size > 0 && g.blockSize > 0 && g.nbNodes > 1 && IsPow2(g.nbNodes) && g.Blocks() >= g.nbNodes
    ensures !Refused(g.size, g.blockSize, g.nbNodes)
  {
    hide IsPow2;
  }

  class DramAllocator {
    const machine: Machine
    const memPerNode: nat
    const allocator: Allocator
    var table: seq<Entry>
    /** Did the constructor get what it needs? */
    var ready: bool
    /** What the service holds for its own use. */
    ghost var reserved: set<Grant>

    ghost predicate Usable()
      reads this, allocator, allocator.freeBlocks, allocator.freeBlocks.nodes, allocator.freeBlocks.root
    {
      allocator.Sound() && allocator.Balanced() && Accounts(table, allocator.live, reserved)
    }

    /** On more than one node the service takes the area for its request records out of the
        arena; no row of the table stands for it. */
    constructor (m: Machine)
      requires 0 < m.nodes < WORD && 0 < m.gmapSize < WORD && m.gmapSize * m.nodes < WORD
      ensures machine == m && memPerNode == m.gmapSize / m.nodes && table == []
      ensures ready <==> IsPow2(m.nodes) && (m.nodes == 1 || 64 <= m.gmapSize)
      ensures ready ==> Usable() && allocator.arena == Rect(0, 0, m.gmapSize, m.nodes)
      ensures ready ==> allocator.live == reserved == if m.nodes == 1 then {} else {Grant(0, 64 * m.nodes, 64, m.nodes, 0)}
      ensures ready && m.nodes > 1 ==>
        RequestArea(m.nodes).WellPosed() && allocator.freeBlocks.Blocks() == multiset(Leftovers(allocator.arena, RequestArea(m.nodes)))
      ensures fresh(allocator) && fresh(allocator.freeBlocks) && fresh(allocator.freeBlocks.nodes)
    {
      hide Conserved, Allocator.Sound, OneBit, RTree.Blocks, IsPow2, Leftovers, Grant.WellPosed, Accounts;
      machine := m;
      memPerNode := m.gmapSize / m.nodes;
      allocator := new Allocator(0, m.gmapSize, m.nodes);
      table, reserved, ready := [], {}, false;
      new;
      OneBitIff(m.nodes);
      if OneBit(m.nodes) == 0 {
        ready := true;
        if m.nodes > 1 {
          TakeRequestArea();
        }
        NoRows(reserved);
      }
    }

    /** The area for the request records, from the untouched arena. */
    method TakeRequestArea()
      requires 1 < machine.nodes && IsPow2(machine.nodes) && allocator.Sound() && allocator.Balanced()
      requires allocator.arena == Rect(0, 0, machine.gmapSize, machine.nodes) && allocator.live == {}
      requires allocator.freeBlocks.Blocks() == multiset{Block(allocator.arena, 64)} && allocator.freeBlocks.root.view.Leaf?
      modifies this`ready, this`reserved, allocator, allocator.freeBlocks, allocator.freeBlocks.nodes
      ensures ready <==> REQUEST <= machine.gmapSize
      ensures ready ==> allocator.Sound() && allocator.Balanced() && allocator.live == reserved == {RequestArea(machine.nodes)}
      ensures RequestArea(machine.nodes).WellPosed()
      ensures ready ==> allocator.freeBlocks.Blocks() == multiset(Leftovers(allocator.arena, RequestArea(machine.nodes)))
      ensures fresh(allocator.freeBlocks.nodes - old(allocator.freeBlocks.nodes))
    {
      hide Conserved, RTree.Blocks, Refused, Fits, Starving, Wrap, IsPow2, Offered, RTree.Valid, RTree.Tight, Leftovers, Grant.WellPosed, Grant.MemLength, Grant.FullRect, Rect.Fit;
      var n := machine.nodes;
      RequestFits(allocator.freeBlocks.root.view, allocator.arena, n);
      RequestAreaIs(n);
      var phy := allocator.Allocate(Wrap(REQUEST * n), REQUEST, n, 0);
      ready := phy != FAILED;
      reserved := allocator.live;
    }

    /** Allocates and records a request for which the virtual memory manager has set aside
        the addresses from `virt` on. */
    method AllocateMemory(size: nat, blockSize: nat, numNodes: nat, startNode: nat, virt: nat) returns (ret: Option<nat>)
      requires Usable() && blockSize < WORD && numNodes < WORD && RoundUp(size, blockSize, numNodes) < WORD
      requires numNodes > 1 && !Refused(RoundUp(size, blockSize, numNodes), blockSize, numNodes) ==>
        !Starving(allocator.freeBlocks.root.view, Grant(0, RoundUp(size, blockSize, numNodes), blockSize, numNodes, startNode))
      modifies this`table, allocator, allocator.freeBlocks, allocator.freeBlocks.nodes
      ensures Usable() && fresh(allocator.freeBlocks.nodes - old(allocator.freeBlocks.nodes))
      ensures ret == None <==>
        !IsPow2(blockSize) || blockSize <= 64 || blockSize >= memPerNode || numNodes == 0 || !IsPow2(numNodes) ||
        numNodes > machine.nodes || startNode >= machine.nodes ||
        (numNodes > 1 && (size == 0 || !FitsRounded(old(allocator.freeBlocks.Blocks()), size, blockSize, numNodes, startNode)))
      ensures ret == None ==> table == old(table) && allocator.live == old(allocator.live)
      ensures ret.Some? ==>
        |table| > 0 && table == old(table) + [Entry(virt, table[|table| - 1].phyBase, size, blockSize, numNodes, startNode)] &&
        var g := GrantOf(table[|table| - 1]);
        ret.value == virt &&
        (numNodes == 1 ==> g.base == virt && allocator.live == old(allocator.live)) &&
        (numNodes > 1 ==> g !in old(allocator.live) && allocator.live == old(allocator.live) + {g})
    {
      hide Accounts, Conserved, Allocator.Sound, RTree.Blocks, RoundUp, Starving, OneBit, CeilDiv;
      OneBitIff(blockSize);
      OneBitIff(numNodes);
      if OneBit(blockSize) != 0 { return None; }
      if blockSize >= memPerNode { return None; }
      if blockSize <= 64 { return None; }
      if numNodes > machine.nodes { return None; }
      if OneBit(numNodes) != 0 { return None; }
      if startNode >= machine.nodes { return None; }
      AlignedBlock(blockSize);
      if numNodes == 1 {
        Accounted(table, allocator.live, reserved, Entry(virt, virt, size, blockSize, numNodes, startNode));
        table := table + [Entry(virt, virt, size, blockSize, numNodes, startNode)];
        return Some(virt);
      }
      var aligned := CeilDiv(blockSize, 8) * 8;
      var phy := Place(RoundUp(size, aligned, numNodes), aligned, numNodes, startNode, size);
      if phy == FAILED {
        return None;
      }
      var e := Entry(virt, phy, size, aligned, numNodes, startNode);
      Accounted(table, old(allocator.live), reserved, e);
      table := table + [e];
      return Some(virt);
    }

    /** The multi-node part: the allocator's answer for the rounded request. */
    method Place(allocSize: nat, blockSize: nat, numNodes: nat, startNode: nat, ghost size: nat) returns (phy: nat)
      requires Usable() && allocSize == RoundUp(size, blockSize, numNodes) < WORD && IsPow2(blockSize) && numNodes != 1
      requires numNodes == 0 || IsPow2(numNodes)
      requires !Refused(allocSize, blockSize, numNodes) ==>
        !Starving(allocator.freeBlocks.root.view, Grant(0, allocSize, blockSize, numNodes, startNode))
      modifies allocator, allocator.freeBlocks, allocator.freeBlocks.nodes
      ensures allocator.Sound() && allocator.Balanced() && fresh(allocator.freeBlocks.nodes - old(allocator.freeBlocks.nodes))
      ensures phy == FAILED <==>
        numNodes == 0 || size == 0 || !FitsRounded(old(allocator.freeBlocks.Blocks()), size, blockSize, numNodes, startNode)
      ensures phy == FAILED ==> allocator.live == old(allocator.live)
      ensures phy != FAILED ==>
        var g := Grant(phy, allocSize, blockSize, numNodes, startNode);
        g !in old(allocator.live) && allocator.live == old(allocator.live) + {g}
    {
      hide Accounts, Conserved, Allocator.Sound, RTree.Blocks, RoundUp, Starving, Refused, Fits, Cut, Offered;
      RefusedRounded(size, blockSize, numNodes, startNode);
      phy := allocator.Allocate(allocSize, blockSize, numNodes, startNode);
      if phy != FAILED {
        AlwaysFull(Grant(phy, allocSize, blockSize, numNodes, startNode), size);
      }
    }

    /** Whether the row of the table with this address goes back to the allocator whole. */
    method FreeMemory(ptr: nat) returns (ok: Option<bool>)
      requires Usable()
      modifies this`table, allocator, allocator.freeBlocks, allocator.freeBlocks.nodes
      ensures reserved <= allocator.live && fresh(allocator.freeBlocks.nodes - old(allocator.freeBlocks.nodes))
      ensures machine.mapBase < ptr < machine.mapBase + machine.mapSize <==> machine.IsLocal(ptr)
      ensures machine.IsLocal(ptr) ==> ok == Some(true) && table == old(table) && Usable()
      ensures ok == None <==> !machine.IsLocal(ptr) && forall i :: 0 <= i < |old(table)| ==> old(table)[i].virtBase != ptr
      ensures ok == None ==> table == old(table) && Usable()
      ensures ok.Some? && !machine.IsLocal(ptr) ==>
        exists i :: 0 <= i < |old(table)| && old(table)[i].virtBase == ptr && table == Without(old(table), i) &&
          (forall j :: 0 <= j < i ==> old(table)[j].virtBase != ptr) &&
          allocator.live == old(allocator.live) - Released(old(allocator.live), ReturnOf(old(table)[i])) &&
          (Usable() <==> GivenBackWhole(old(table)[i]))
    {
      hide Accounts, Conserved, Allocator.Sound, RTree.Blocks, Grant.WellPosed, Freed, Released, SameCells, GivenBackWhole;
      ReservedLive(table, allocator.live, reserved);
      if machine.IsLocal(ptr) {
        return Some(true);
      }
      var i := 0;
      while i < |table|
        invariant 0 <= i <= |table|
        invariant forall j :: 0 <= j < i ==> table[j].virtBase != ptr
      {
        if table[i].virtBase == ptr {
          var e := table[i];
          FreeKeeps(allocator.freeBlocks.Blocks(), allocator.live, reserved, allocator.arena, table, i);
          allocator.Free(e.phyBase, e.size, e.blockSize, e.numNodes, e.startNode);
          table := table[..i] + table[i + 1..];
          return Some(true);
        }
        i := i + 1;
      }
      return None;
    }
  }

  /** The state of a service whose arena fits the address field. */
  ghost predicate Serves(free: multiset<Block>, live: set<Grant>, reserved: set<Grant>, arena: Rect, table: seq<Entry>) {
    && Conserved(free, live, arena) && Accounts(table, live, reserved) && arena.MemEnd() <= Pow2(37)
    && forall i :: 0 <= i < |table| ==> table[i].virtBase + table[i].size < WORD
  }

  /** A live request lies within the arena. */
  lemma LiveInArena(free: multiset<Block>, live: set<Grant>, arena: Rect, g: Grant)
    requires Conserved(free, live, arena) && g in live
    ensures g.WellPosed() && g.base + g.MemLength() <= arena.MemEnd()
  {
    hide Disjoint, IsFree, Grant.Occupies, Grant.Blocks, Grant.MemLength, Grant.Footprint;
    g.Facts();
    OccupiesMeans(g, g.base + g.MemLength() - 1, g.startNode);
    assert g.FullRect() ==> g.Uses(g.base + g.MemLength() - 1, g.startNode);
    assert !g.FullRect() ==> g.Uses(g.base + g.MemLength() - 1, g.startNode);
    assert IsTaken(live, g.base + g.MemLength() - 1, g.startNode);
  }

  /** A row starting at node 0 describes its request, addresses and all. */
  lemma RowDescribes(free: multiset<Block>, live: set<Grant>, reserved: set<Grant>, arena: Rect, table: seq<Entry>, i: nat)
    requires Serves(free, live, reserved, arena, table) && i < |table|
    requires IsGlobal(table[i]) && table[i].Regular() && table[i].startNode == 0
    ensures var e := table[i];
      GrantOf(e) in live - reserved && Describes(e, GrantOf(e)) && e.virtBase + e.size < WORD && e.size <= Pow2(37 + Log2(e.numNodes))
  {
    hide Grant.Blocks, Grant.MemLength, Conserved, GrantOf, Pow2, Log2, RowSize;
    var e := table[i];
    var g := GrantOf(e);
    LiveInArena(free, live, arena, g);
    Powers();
    NodesOf(e);
    g.Facts();
    PlainBaseIff(g);
    Rounded(e);
    WidthsOf(e);
    WidthsLog(e);
    var m := e.Widths();
    Pow2Add(37, m.B);
    ProductMonotone(g.MemLength(), Pow2(37), e.numNodes, e.numNodes);
  }

  /** A row needs no more than the memory its request has on all its nodes. */
  lemma Rounded(e: Entry)
    requires e.size > 0 && e.blockSize > 0 && e.numNodes > 0
    ensures var g := GrantOf(e);
      g.WellPosed() && e.size <= g.Blocks() * g.blockSize && g.Blocks() * g.blockSize == g.MemLength() * e.numNodes
  {
    hide Grant.Blocks, Grant.MemLength, RowsFor, RowSize;
    var g := GrantOf(e);
    RoundedIsFull(g, e.size);
    g.FootprintArea();
  }

  /** In every state of the service, two addresses of rows that start at node 0 reach the
      same host address only if they are the same address of the same row. */
  lemma RowsDoNotAlias(free: multiset<Block>, live: set<Grant>, reserved: set<Grant>, arena: Rect, table: seq<Entry>, host: Host,
                       i: nat, va: nat, j: nat, vb: nat)
    requires Serves(free, live, reserved, arena, table) && i < |table| && j < |table| && host.Formed()
    requires IsGlobal(table[i]) && table[i].Regular() && table[i].startNode == 0 && table[i].Has(va)
    requires IsGlobal(table[j]) && table[j].Regular() && table[j].startNode == 0 && table[j].Has(vb)
    requires table[i].blockSize > 0 && table[j].blockSize > 0 && table[i].Translate(va).Some? && table[j].Translate(vb).Some?
    requires host.InRange(FromWord(table[i].Translate(va).value)) && host.InRange(FromWord(table[j].Translate(vb).value))
    requires host.PA2SA(table[i].Translate(va).value, true) == host.PA2SA(table[j].Translate(vb).value, true)
    ensures i == j && va == vb
  {
    hide Conserved, Describes, Log2, Pow2, FromWord, Host.PA2SA, Entry.Translate, GrantOf, Entry.Regular;
    RowDescribes(free, live, reserved, arena, table, i);
    RowDescribes(free, live, reserved, arena, table, j);
    EndToEnd(free, live, arena, host, table[i], GrantOf(table[i]), va, table[j], GrantOf(table[j]), vb);
  }

  /** No address of such a row reaches what the service holds for itself. */
  lemma RowsAvoidReserved(free: multiset<Block>, live: set<Grant>, reserved: set<Grant>, arena: Rect, table: seq<Entry>,
                          i: nat, va: nat, g: Grant)
    requires Serves(free, live, reserved, arena, table) && i < |table| && g in reserved
    requires IsGlobal(table[i]) && table[i].Regular() && table[i].startNode == 0 && table[i].Has(va)
    requires table[i].blockSize > 0 && table[i].Translate(va).Some?
    ensures var p := FromWord(table[i].Translate(va).value); !g.Uses(p.addr, p.node)
  {
    hide Disjoint, IsFree, IsTaken, Describes, Log2, Pow2, FromWord, Entry.Translate, GrantOf, Entry.Regular, Grant.Occupies, Matched, Entry.Widths, Suits, PlaceAt;
    RowDescribes(free, live, reserved, arena, table, i);
    var e, h := table[i], GrantOf(table[i]);
    TranslatePlaces(e, h, va);
    var p := FromWord(e.Translate(va).value);
    LiveInArena(free, live, arena, h);
    assert h.Uses(p.addr, p.node);
  }

  /** The arena offers every node the memory of the whole machine, the host a share of it:
      all addresses of a row that starts at node 0 reach the host exactly when the row stays
      within the share, and within the bound of the addition. */
  lemma RowHostedIff(free: multiset<Block>, live: set<Grant>, reserved: set<Grant>, arena: Rect, table: seq<Entry>, host: Host, i: nat)
    requires Serves(free, live, reserved, arena, table) && i < |table| && host.Formed()
    requires IsGlobal(table[i]) && table[i].Regular() && table[i].startNode == 0
    ensures var e := table[i];
      e.blockSize > 0 && e.size > 0 &&
      ((forall va: nat :: e.Has(va) ==> e.Translate(va).Some? && host.PA2SA(e.Translate(va).value, true).Some?) <==>
        e.phyBase + Reach(e.size, e.blockSize, e.numNodes) <= Min(host.PerNode(), 0x10_0000_0000))
  {
    hide Conserved, Describes, Log2, Pow2, FromWord, Host.PA2SA, Host.PerNode, Entry.Translate, GrantOf, Reach;
    RowDescribes(free, live, reserved, arena, table, i);
    var e := table[i];
    NodesOf(e);
    Powers();
    RowsFormed(table, live - reserved, i);
    AllHostedIff(e, GrantOf(e), host);
  }

  /** The memory length of the request bounds the reach of its row. */
  lemma ReachWithin(e: Entry)
    requires e.Regular() && e.numNodes > 1 && e.size > 0
    ensures e.blockSize > 0 && GrantOf(e).WellPosed()
    ensures Reach(e.size, e.blockSize, e.numNodes) <= GrantOf(e).MemLength()
  {
    hide Log2, Pow2, PlaceOf, NodeOf, Reach, Entry.Widths, Grant.MemLength, Grant.Blocks, Entry.Regular, CeilDiv;
    WidthsOf(e);
    var m := e.Widths();
    RoundedIsFull(GrantOf(e), e.size);
    ReachIs(e.size, m);
    var o: nat :| o < e.size && PlaceOf(o, m) + 1 == Reach(e.size, Pow2(m.C), Pow2(m.B));
    BelowLimit(o, e.size, m);
    assert Pow2(m.B) * Pow2(m.C) == RowSize(e.blockSize, e.numNodes);
  }

  /** Four nodes with 4 GiB between them: behind the request area there is room for 3 GiB on
      two nodes, and half of that does not fit in the share of a node. */
  lemma ShareExceeded()
    ensures var m, size := Machine(4, 0, 0, 0x1_0000_0000), 0xC000_0000;
      var free := multiset{Block(Rect(REQUEST, 0, m.gmapSize - REQUEST, 4), REQUEST)};
      && IsPow2(128) && 64 < 128 < m.gmapSize / m.nodes && IsPow2(2) && 2 <= m.nodes && FitsRounded(free, size, 128, 2, 0)
      && REQUEST + Reach(size, 128, 2) > m.gmapSize / m.nodes
  {
    SmallPowers();
    var size, r := 0xC000_0000, Rect(REQUEST, 0, 0x1_0000_0000 - REQUEST, 4);
    var b := Block(r, REQUEST);
    assert b in multiset{b} && RoundUp(size, 128, 2) == size;
    var g := Grant(0, size, 128, 2, 0);
    assert g.MemLength() == 0x6000_0000;
    assert r.Fit(0, g.MemLength(), 2);
  }

  /** A row that starts at any other node is translated beside its request, from its first
      byte on. */
  lemma OtherRowsMisplaced(e: Entry)
    requires e.Regular() && IsGlobal(e) && e.size > 0 && e.phyBase <= MAXSUM && e.startNode > 0
    ensures e.blockSize > 0 && e.numNodes > 0 && GrantOf(e).WellPosed() && e.Translate(e.virtBase).Some?
    ensures var p := FromWord(e.Translate(e.virtBase).value); p == Phys(0, e.phyBase) && !GrantOf(e).Occupies(p.addr, p.node)
  {
    hide Grant.Blocks, Grant.MemLength, Pow2, Log2, RowsFor, RowSize, FromWord, And, Or, Up, Down, Low, IsPow2, RoundUp;
    WidthsOf(e);
    Rounded(e);
    NodesOf(e);
    OccupiesMeans(GrantOf(e), e.phyBase, 0);
    FirstByte(e);
  }

  /** Two rows with the same base reach the same host address with their first bytes,
      whatever their start nodes. */
  lemma RowsAlias(e: Entry, f: Entry, host: Host)
    requires e.Regular() && IsGlobal(e) && e.size > 0 && f.Regular() && IsGlobal(f) && f.size > 0
    requires e.phyBase == f.phyBase <= MAXSUM && host.first <= host.last
    ensures e.blockSize > 0 && f.blockSize > 0 && e.Translate(e.virtBase).Some? && f.Translate(f.virtBase).Some?
    ensures host.PA2SA(e.Translate(e.virtBase).value, true) == host.PA2SA(f.Translate(f.virtBase).value, true)
  {
    hide Entry.Translate, Entry.Regular, Host.PA2SA, Phys.Compressed;
    FirstByte(e);
    FirstByte(f);
  }

  lemma FirstByte(e: Entry)
    requires e.Regular() && e.numNodes > 1 && e.size > 0 && e.phyBase <= MAXSUM
    ensures e.blockSize > 0 && e.Translate(e.virtBase) == Some(Phys(0, e.phyBase).Compressed())
    ensures FromWord(Phys(0, e.phyBase).Compressed()) == Phys(0, e.phyBase)
  {
    hide Pow2, Log2, FromWord, Up, Down, Low, And, Or, Phys.Compressed, IsPow2, Entry.Translate;
    WidthsOf(e);
    FirstTranslated(e);
    LowOfZero(37);
    FromFields(0, e.phyBase);
    FromFields(0, 0);
    Unpack(Phys(0, e.phyBase));
  }

  lemma FirstTranslated(e: Entry)
    requires e.numNodes > 1 && e.blockSize > 0 && e.size > 0
    ensures e.Translate(e.virtBase) ==
      match FromWord(e.phyBase).Plus(FromWord(0))
      case None => None
      case Some(p) => Some(p.Compressed())
  {
    hide Pow2, Log2, FromWord, Up, Down, Low, And, Or, Phys.Compressed, Phys.Plus, Entry.Widths, Not, Wrap, Shl;
    FirstSwizzled(e.Widths());
    NothingWraps(e.blockSize, e.numNodes);
  }

  lemma NothingWraps(blockSize: nat, numNodes: nat)
    requires numNodes > 0
    ensures 0 % numNodes == 0 == 0 / numNodes && Wrap(0 * blockSize + 0) == 0
  {
  }

  lemma FirstSwizzled(m: Mask)
    ensures Down(0, m.C) == 0 == Shl(0, 37) && forall x :: And(0, x) == 0
    ensures Or(Or(0, 0), 0) == 0
  {
    LowOfZero(m.C);
    LowOfZero(37);
  }
}
