/** Where the bytes of a live request end up: the service's own translation, its agreement
    with the installed segment, and the absence of aliasing
    (updown/libraries/dramalloc/dramalloc_service_core.cpp:270-277, 387-393, 456-497;
    updown/basimruntime/src/basimupdown.cpp:3060-3108). */
module Placement {
  import opened Allocation
  import opened Bits
  import opened Rects
  import opened Segments
  import opened Swizzle
  import opened Tiling

  function Log2(n: nat): nat
    requires n > 0
  {
    if n == 1 then 0 else 1 + Log2(n / 2)
  }

  lemma {:induction false} Log2Pow2(k: nat)
    ensures Log2(Pow2(k)) == k
  {
    if k > 0 { Log2Pow2(k - 1); }
  }

  /** The mask of a request: 37 bits for row and byte, the node bits between them. */
  function ServiceMask(blockSize: nat, nrNodes: nat): nat
    requires blockSize > 0 && nrNodes > 0
  {
    var nrC, nrB := Log2(blockSize), Log2(nrNodes);
    var nrF := Wrap(37 - nrC);
    Or(Or(0, Shl(Pow2(nrF) - 1, nrC + nrB)), Pow2(nrC) - 1)
  }

  /** A row of the translation table. */
  datatype Entry = Entry(virtBase: nat, phyBase: nat, size: nat, blockSize: nat, numNodes: nat, startNode: nat)
  {
    predicate Has(virt: nat) { virtBase <= virt < virtBase + size }

    /** Powers of two, with at least one bit for the rows. */
    ghost predicate Regular() {
      IsPow2(blockSize) && IsPow2(numNodes) && blockSize < Pow2(37) && numNodes <= Pow2(14)
    }

    /** The widths of the mask fields. */
    function Widths(): Mask
      requires blockSize > 0 && numNodes > 0
    {
      var C, B := Log2(blockSize), Log2(numNodes);
      var F := Wrap(37 - C);
      Mask(Wrap(64 - C - B - F), F, B, C)
    }

    /** The physical address word of `virt`, by the service's own arithmetic. */
    function Translate(virt: nat): Option<nat>
      requires blockSize > 0 && numNodes > 0 && Has(virt)
    {
      if numNodes == 1 then Some(virt)
      else
        var offset := virt - virtBase;
        var m := Widths();
        var blockNumber := And(Down(offset, m.C), Pow2(m.B + m.F) - 1);
        var nodeOffset := blockNumber % numNodes;
        var blockNumberInNode := blockNumber / numNodes;
        var blockOffset := And(offset, Pow2(m.C) - 1);
        var swizzled := Or(Or(And(offset, Not(Down(WORD - 1, m.P))), Shl(nodeOffset, 37)),
                           Wrap(blockNumberInNode * blockSize + blockOffset));
        match FromWord(phyBase).Plus(FromWord(swizzled))
        case None => None
        case Some(p) => Some(p.Compressed())
    }

    /** The segment installed for this entry. */
    function Installed(): Segment
      requires blockSize > 0 && numNodes > 0 && Decodable(ServiceMask(blockSize, numNodes))
    {
      SegmentOf(virtBase, virtBase + size, ServiceMask(blockSize, numNodes), phyBase)
    }
  }

  /** The widths of a regular entry: the two logarithms, and 37 bits in all for row and byte. */
  lemma WidthsOf(e: Entry)
    requires e.Regular()
    ensures e.blockSize > 0 && e.numNodes > 0
    ensures var m := e.Widths();
      m.P + m.F + m.B + m.C == 64 && m.F + m.C == 37 && m.F >= 1 && m.B <= 14 &&
      e.blockSize == Pow2(m.C) && e.numNodes == Pow2(m.B) && (e.numNodes > 1 ==> m.B >= 1)
  {
    hide Log2, Pow2;
    var c: nat :| e.blockSize == Pow2(c);
    var b: nat :| e.numNodes == Pow2(b);
    Log2Pow2(c);
    Log2Pow2(b);
    if c >= 37 { Pow2Monotone(37, c); }
    if b >= 15 { TooManyNodes(b); }
    Pow2OfZero(b);
  }

  lemma TooManyNodes(b: nat)
    requires b >= 15
    ensures Pow2(b) > Pow2(14)
  {
    Pow2Monotone(15, b);
  }

  lemma Pow2OfZero(b: nat)
    ensures b == 0 ==> Pow2(b) == 1
  {
  }

  /** The mask word of a multi-node request decodes, and to the widths that the service
      itself uses. */
  lemma MaskDecodes(e: Entry)
    requires e.Regular() && e.numNodes > 1
    ensures e.blockSize > 0 && e.numNodes > 0
    ensures Decodable(ServiceMask(e.blockSize, e.numNodes))
    ensures Decoded(ServiceMask(e.blockSize, e.numNodes)) == e.Widths()
  {
    hide Log2, Pow2, Or, Decodable, Decoded;
    WidthsOf(e);
    var m := e.Widths();
    assert m.B + m.C == m.C + m.B;
    Bits.OrZero(Shl(Pow2(m.F) - 1, m.C + m.B));
    assert ServiceMask(e.blockSize, e.numNodes) == Encode(m);
    DecodeEncode(m);
  }

  /** The mask for a single node is one whose decoding never ends. */
  lemma SingleNodeMask(e: Entry)
    requires e.Regular() && e.numNodes == 1
    ensures e.blockSize > 0 && !Decodable(ServiceMask(e.blockSize, 1))
  {
    hide Log2, Pow2, Or, Decodable, Decoded;
    WidthsOf(e);
    var m := e.Widths();
    OneIsPow2(m.B);
    assert m.B + m.C == m.C + m.B;
    Bits.OrZero(Shl(Pow2(m.F) - 1, m.C + m.B));
    assert ServiceMask(e.blockSize, e.numNodes) == Encode(m);
    DecodeEncode(m);
  }

  lemma OneIsPow2(b: nat)
    requires Pow2(b) == 1
    ensures b == 0
  {
  }

  /** Rows on a single node are addressed as they are, and so is local memory on the host. */
  lemma LocalAddresses(e: Entry, virt: nat, host: Host, w: nat)
    requires e.numNodes == 1 && e.blockSize > 0 && e.Has(virt) && host.first <= host.last && host.PerNode() > 0
    ensures e.Translate(virt) == Some(virt) && host.PA2SA(w, false) == Some(w) && host.SA2PA(w, false) == w
  {
  }

  /** The service's translator and the installed segment agree on every address. */
  lemma TranslatorsAgree(e: Entry, virt: nat)
    requires e.Regular() && e.numNodes > 1 && e.Has(virt)
    ensures e.blockSize > 0 && e.numNodes > 0
    ensures Decodable(ServiceMask(e.blockSize, e.numNodes))
    ensures e.Translate(virt) ==
      match e.Installed().GetPhysical(virt)
      case None => None
      case Some(p) => Some(p.Compressed())
  {
    hide Log2, Pow2, Or, And, Decodable, Decoded, ServiceMask, FromWord, Down, NodeBytes, Shl, Wrap, Not, IsPow2, Phys.Compressed, Phys.Plus, Entry.Widths;
    WidthsOf(e);
    MaskDecodes(e);
  }

  /** Where byte `o` of a request belongs when its start node is in the base. */
  function PlaceAt(g: Grant, o: nat, m: Mask): Phys {
    Phys(g.startNode + NodeOf(o, m), g.base + PlaceOf(o, m))
  }

  /** The mask of a request whose blocks and nodes are powers of two. */
  predicate Suits(m: Mask, g: Grant) {
    g.blockSize == Pow2(m.C) && g.nbNodes == Pow2(m.B)
  }

  /** Block and place of a byte by division. */
  lemma PlaceIs(o: nat, m: Mask)
    ensures RowOf(o, m) == o / Pow2(m.C) / Pow2(m.B)
    ensures NodeOf(o, m) == o / Pow2(m.C) % Pow2(m.B)
    ensures PlaceOf(o, m) == RowOf(o, m) * Pow2(m.C) + o % Pow2(m.C)
  {
    hide Down, Low, Up, Pow2;
    DownIs(o, m.C);
    DownIs(Down(o, m.C), m.B);
    DownDown(o, m.C, m.B);
    assert m.C + m.B == m.B + m.C;
    UpIs(RowOf(o, m), m.C);
  }

  lemma BlockBelow(o: nat, d: nat, k: nat)
    requires d > 0
    ensures o < k * d <==> o / d < k
  {
    var e := o / d - k;
    assert e * d == o / d * d - k * d;
    StepAtLeast(e, d);
  }

  /** Comparing pairs of row and node, nodes below `d`, is comparing the block numbers. */
  lemma PairBelow(row: nat, node: nat, q: nat, r: nat, d: nat)
    requires node < d && r < d
    ensures row * d + node < q * d + r <==> row < q || (row == q && node < r)
  {
    var e := row - q;
    assert e * d == row * d - q * d;
    StepAtLeast(e, d);
  }

  /** The place of a byte is in the footprint exactly when the byte is in the blocks of
      the request. */
  lemma InFootprint(g: Grant, o: nat, m: Mask)
    requires g.WellPosed() && Suits(m, g)
    ensures var p := PlaceAt(g, o, m);
      g.Occupies(p.addr, p.node) <==> o < g.Blocks() * g.blockSize
  {
    hide Pow2, NodeOf, RowOf, PlaceOf, Grant.Occupies, Grant.Blocks, Grant.MemLength, Grant.FullRect;
    PlaceIs(o, m);
    OccupiesMeans(g, g.base + PlaceOf(o, m), g.startNode + NodeOf(o, m));
    BlockBelow(o, g.blockSize, g.Blocks());
    g.Sides();
    RowsAndNodes(RowOf(o, m), NodeOf(o, m), o % g.blockSize, o / g.blockSize, g);
  }

  /** Block `b` in row `row` on node `node` belongs to the request exactly when its byte
      `at` is in the full rows or, in the last row, on one of the first nodes. */
  lemma RowsAndNodes(row: nat, node: nat, at: nat, b: nat, g: Grant)
    requires g.WellPosed() && b / g.nbNodes == row && b % g.nbNodes == node && at < g.blockSize
    ensures var q, r := g.Blocks() / g.nbNodes, g.Blocks() % g.nbNodes;
      b < g.Blocks() <==>
        row * g.blockSize + at < (q + if r == 0 then 0 else 1) * g.blockSize && (r == 0 || row * g.blockSize + at < q * g.blockSize || node < r)
  {
    hide Grant.Blocks;
    var q, r := g.Blocks() / g.nbNodes, g.Blocks() % g.nbNodes;
    PairBelow(row, node, q, r, g.nbNodes);
    PairBelow(row, at, q, 0, g.blockSize);
    PairBelow(row, at, q + 1, 0, g.blockSize);
  }

  /** Every cell of the footprint is the place of a byte. */
  lemma FootprintFull(g: Grant, addr: nat, node: nat, m: Mask)
    requires g.WellPosed() && Suits(m, g) && g.Occupies(addr, node)
    ensures exists o: nat :: o < g.Blocks() * g.blockSize && PlaceAt(g, o, m) == Phys(node, addr)
  {
    hide Pow2, NodeOf, RowOf, PlaceOf, Grant.Occupies, Grant.Blocks, Grant.MemLength, Up, Down, Low;
    OccupiesMeans(g, addr, node);
    g.Facts();
    var row, at := Down(addr - g.base, m.C), Low(addr - g.base, m.C);
    Joined(addr - g.base, m.C);
    FieldsOf(row, node - g.startNode, at, m);
    var o := Up(Up(row, m.B) + (node - g.startNode), m.C) + at;
    assert PlaceAt(g, o, m) == Phys(node, addr);
    InFootprint(g, o, m);
  }

  /** No two bytes of live requests share a place, whichever requests they belong to. */
  lemma NoAliasing(free: multiset<Block>, live: set<Grant>, arena: Rect, g: Grant, o: nat, m: Mask, h: Grant, u: nat, k: Mask)
    requires Conserved(free, live, arena) && g in live && h in live
    requires Suits(m, g) && Suits(k, h) && g.WellPosed() && h.WellPosed()
    requires o < g.Blocks() * g.blockSize && u < h.Blocks() * h.blockSize
    requires PlaceAt(g, o, m) == PlaceAt(h, u, k)
    ensures g == h && o == u
  {
    hide Pow2, NodeOf, RowOf, PlaceOf, Grant.Occupies, Grant.Blocks, Disjoint, IsFree, IsTaken, Up, Down, Low;
    InFootprint(g, o, m);
    InFootprint(h, u, k);
    var p := PlaceAt(g, o, m);
    assert g.Uses(p.addr, p.node) && h.Uses(p.addr, p.node);
    Pow2Injective(m.B, k.B);
    Pow2Injective(m.C, k.C);
    SameByte(o, u, m, k);
  }

  lemma Pow2Injective(a: nat, b: nat)
    requires Pow2(a) == Pow2(b)
    ensures a == b
  {
    Log2Pow2(a);
    Log2Pow2(b);
  }

  lemma SameByte(o: nat, u: nat, m: Mask, k: Mask)
    requires m.B == k.B && m.C == k.C && NodeOf(o, m) == NodeOf(u, k) && PlaceOf(o, m) == PlaceOf(u, k)
    ensures o == u
  {
    hide Pow2, NodeOf, RowOf, PlaceOf, Up, Down, Low;
    ByteOf(o, m);
    ByteOf(u, k);
  }

  /** The memory of the machine on the simulating host, cut up by global nodes. */
  datatype Host = Host(base: nat, size: nat, first: nat, last: nat)
  {
    predicate Formed() { first <= last <= MAXNODE && base + size < WORD && 0 < PerNode() <= MAXADDR + 1 }

    function PerNode(): nat
      requires first <= last
    {
      size / (last - first + 1)
    }

    predicate InRange(p: Phys)
      requires first <= last
    {
      first <= p.node <= last && p.addr < PerNode()
    }

    /** Host address of physical address word `w`. */
    function PA2SA(w: nat, isGlobal: bool): Option<nat>
      requires first <= last
    {
      if !isGlobal then Some(w)
      else
        var node, offset := And(Down(w, 37), MAXNODE), And(w, MAXADDR);
        if offset >= PerNode() then None
        else Some(Wrap(base + Wrap(PerNode() * Wrap(node - first)) + offset))
    }

    /** Physical address word of host address `sa`. */
    function SA2PA(sa: nat, isGlobal: bool): nat
      requires first <= last && PerNode() > 0
    {
      if !isGlobal then sa
      else
        var offset := Wrap(sa - base);
        var node := Wrap(offset / PerNode() + first);
        Or(Shl(node, 37), offset % PerNode())
    }
  }

  /** In-range words have the host address of their node and byte. */
  lemma HostAddress(host: Host, w: nat)
    requires host.Formed() && host.InRange(FromWord(w))
    ensures var p := FromWord(w);
      host.PA2SA(w, true) == Some(host.base + host.PerNode() * (p.node - host.first) + p.addr)
    ensures var p := FromWord(w);
      host.PerNode() * (p.node - host.first) + p.addr < host.size
  {
    hide FromWord, Wrap, Host.PA2SA;
    var p := FromWord(w);
    PA2SAIs(host, w);
    InMemory(host.size, host.last - host.first + 1, p.node - host.first, p.addr);
    hide Host.PerNode;
    NoCarry(host.base, host.PerNode(), p.node - host.first, p.addr, host.size);
  }

  /** Every physical word: bytes beyond the share of a node have no host address; the shares
      of the nodes follow one another from the base. */
  lemma HostAddressIs(host: Host, w: nat)
    requires host.Formed()
    ensures var node, addr, share := w / 0x20_0000_0000 % 0x4000, w % 0x20_0000_0000, host.size / (host.last - host.first + 1);
      && (host.PA2SA(w, true) == None <==> addr >= share)
      && (addr < share && host.first <= node <= host.last ==> host.PA2SA(w, true) == Some(host.base + share * (node - host.first) + addr))
  {
    hide FromWord, Wrap, Host.PA2SA;
    FieldsAre(w);
    PA2SAIs(host, w);
    if host.InRange(FromWord(w)) { HostAddress(host, w); }
  }

  lemma PA2SAIs(host: Host, w: nat)
    requires host.first <= host.last
    ensures var p := FromWord(w);
      host.PA2SA(w, true) ==
        if p.addr >= host.PerNode() then None
        else Some(Wrap(host.base + Wrap(host.PerNode() * Wrap(p.node - host.first)) + p.addr))
  {
    hide And, Down, Wrap, Host.PerNode;
  }

  lemma NoCarry(base: nat, per: nat, k: nat, at: nat, size: nat)
    requires per * k + at < size && base + size < WORD && k < WORD
    ensures per * k >= 0 && Wrap(base + Wrap(per * Wrap(k)) + at) == base + per * k + at
  {
    var product := per * k;
    assert product >= 0;
  }

  lemma InMemory(size: nat, nodes: nat, k: nat, at: nat)
    requires nodes > 0 && k < nodes && at < size / nodes
    ensures size / nodes * k + at < size
  {
    var per := size / nodes;
    ProductMonotone(per, per, k + 1, nodes);
    assert per * (k + 1) == per * k + per;
  }

  /** The maps between physical and host addresses undo each other, up to the reserved bits
      of the word. */
  lemma HostRoundTrip(host: Host, w: nat)
    requires host.Formed() && host.InRange(FromWord(w))
    ensures host.PA2SA(w, true).Some?
    ensures host.SA2PA(host.PA2SA(w, true).value, true) == FromWord(w).Compressed() == Low(w, 51)
  {
    hide FromWord, Low, Phys.Compressed, Host.PA2SA, Host.SA2PA, Host.PerNode;
    HostAddress(host, w);
    Repack(w);
    var p := FromWord(w);
    var k := p.node - host.first;
    ShareStart(host.PerNode(), k, p.addr);
    SA2PAIs(host, host.base + host.PerNode() * k + p.addr, k, p.addr);
  }

  lemma HostRoundTripBack(host: Host, sa: nat)
    requires host.Formed() && host.base <= sa < host.base + host.PerNode() * (host.last - host.first + 1)
    ensures host.InRange(FromWord(host.SA2PA(sa, true)))
    ensures host.PA2SA(host.SA2PA(sa, true), true) == Some(sa)
  {
    hide FromWord, Host.PA2SA, Host.SA2PA, Host.PerNode, Phys.Compressed;
    var p := HostPlace(host, sa);
    Unpack(p);
    HostAddress(host, p.Compressed());
  }

  /** Node and byte of a host address in the memory of the machine. */
  lemma HostPlace(host: Host, sa: nat) returns (p: Phys)
    requires host.Formed() && host.base <= sa < host.base + host.PerNode() * (host.last - host.first + 1)
    ensures p.Fits() && host.InRange(p) && host.SA2PA(sa, true) == p.Compressed()
    ensures host.base + host.PerNode() * (p.node - host.first) + p.addr == sa
  {
    hide Host.PerNode, Host.SA2PA, Phys.Compressed;
    var per, nodes := host.PerNode(), host.last - host.first + 1;
    var offset := sa - host.base;
    PartsAgain(offset, per, nodes);
    BlockBelow(offset, per, nodes);
    SharesFit(host);
    var q, r := DivMod(offset, per);
    SA2PAIs(host, sa, q, r);
    p := Phys(q + host.first, r);
  }

  lemma DivMod(a: nat, d: nat) returns (q: nat, r: nat)
    requires d > 0
    ensures q == a / d && r == a % d && a == d * q + r && r < d
  {
    q, r := a / d, a % d;
  }

  lemma ShareStart(per: nat, k: nat, at: nat)
    requires at < per
    ensures per * k >= 0 && (per * k + at) / per == k && (per * k + at) % per == at
  {
    DivModIs(per * k + at, per, k, at);
  }

  lemma SA2PAIs(host: Host, sa: nat, q: nat, r: nat)
    requires host.Formed() && host.base <= sa < host.base + WORD && q + host.first < WORD
    requires q == (sa - host.base) / host.PerNode() && r == (sa - host.base) % host.PerNode()
    ensures host.SA2PA(sa, true) == Phys(q + host.first, r).Compressed()
  {
    hide Or, Shl, Host.PerNode, Wrap;
    InWord(sa - host.base);
    InWord(q + host.first);
  }

  lemma InWord(x: nat)
    requires x < WORD
    ensures Wrap(x) == x
  {
  }

  /** The shares of the nodes do not exceed the memory. */
  lemma SharesFit(host: Host)
    requires host.Formed()
    ensures host.PerNode() * (host.last - host.first + 1) <= host.size < WORD
  {
    PartsAgain(host.size, host.last - host.first + 1, 0);
  }

  lemma PartsAgain(a: nat, d: nat, k: nat)
    requires d > 0
    ensures d * (a / d) + a % d == a && d * k == k * d
  {
  }

  /** The physical base word that `allocate_memory` records and installs: the address alone. */
  function PlainBase(offset: nat): nat { offset }

  /** The word the constructor builds for its own request area: the start node is in it,
      but only 27 bits of the address. */
  function FullBase(startNode: nat, offset: nat): nat {
    Or(Shl(startNode, 37), And(offset, Down(WORD - 1, 37)))
  }

  /** Does base word `w` stand for the place where `g` starts? */
  predicate Encodes(w: nat, g: Grant) { FromWord(w) == Phys(g.startNode, g.base) }

  /** The recorded base is right exactly for requests that start at node 0. */
  lemma PlainBaseIff(g: Grant)
    requires g.base <= MAXADDR
    ensures Encodes(PlainBase(g.base), g) <==> g.startNode == 0
  {
    hide FromWord, Up;
    FromFields(0, g.base);
    LowOfZero(37);
  }

  /** The constructor's encoding is right exactly below 2^27. */
  lemma FullBaseIff(g: Grant)
    requires g.startNode <= MAXNODE && g.base <= MAXADDR
    ensures Encodes(FullBase(g.startNode, g.base), g) <==> g.base < Pow2(27)
  {
    hide FromWord, Up, Down, Low, Pow2, And, Or, Shl;
    Powers();
    DownOnes(64, 37);
    AndLow(g.base, 27);
    Joined(g.base, 27);
    Pow2Monotone(27, 37);
    Unpack(Phys(g.startNode, Low(g.base, 27)));
    if g.base < Pow2(27) { LowSmall(g.base, 27); }
  }

  /** A row of the table and the live request it stands for. */
  ghost predicate Describes(e: Entry, g: Grant) {
    && e.Regular() && e.numNodes > 1 && Encodes(e.phyBase, g)
    && g.blockSize == e.blockSize && g.nbNodes == e.numNodes && g.startNode == e.startNode
    && g.WellPosed() && e.size <= g.Blocks() * g.blockSize
  }

  /** The translation of an address, when the bounds of the addition let it through, is the
      place of its byte: a cell of the footprint. */
  lemma TranslatePlaces(e: Entry, g: Grant, virt: nat)
    requires Describes(e, g) && e.Has(virt) && e.virtBase + e.size < WORD && e.size <= Pow2(37 + Log2(e.numNodes))
    requires e.Translate(virt).Some?
    ensures FromWord(e.Translate(virt).value) == PlaceAt(g, virt - e.virtBase, e.Widths())
    ensures Suits(e.Widths(), g) && PlaceAt(g, virt - e.virtBase, e.Widths()).Fits()
    ensures var p := FromWord(e.Translate(virt).value); g.Occupies(p.addr, p.node)
  {
    hide Log2, Pow2, Decodable, ServiceMask, FromWord, NodeOf, PlaceOf, Grant.Occupies, Grant.Blocks, IsPow2, Entry.Widths, Entry.Installed, Entry.Translate;
    hide Segment.GetPhysical, Segment.InRange, Segment.NoPadding, Phys.Compressed;
    var m, l := e.Widths(), virt - e.virtBase;
    WidthsOf(e);
    TranslatorsAgree(e, virt);
    InstalledIs(e);
    assert m.B + m.F + m.C == 37 + m.B;
    Forward(e.Installed(), virt);
    SumFits(e.Installed().base, Phys(NodeOf(l, m), PlaceOf(l, m)));
    Unpack(PlaceAt(g, l, m));
    InFootprint(g, l, m);
  }

  lemma SumFits(p: Phys, q: Phys)
    requires p.Plus(q).Some?
    ensures p.Plus(q).value == Phys(p.node + q.node, p.addr + q.addr) && p.Plus(q).value.Fits()
  {
  }

  lemma InstalledIs(e: Entry)
    requires e.Regular() && e.numNodes > 1 && e.virtBase + e.size < WORD && e.size <= Pow2(37 + Log2(e.numNodes))
    ensures e.blockSize > 0 && e.numNodes > 0 && Decodable(ServiceMask(e.blockSize, e.numNodes))
    ensures var s := e.Installed();
      s.virtualBase == e.virtBase && s.virtualLimit == e.virtBase + e.size &&
      s.mask == e.Widths() && s.base == FromWord(e.phyBase) && s.InRange() && s.NoPadding() &&
      e.size <= Pow2(s.mask.B + s.mask.F + s.mask.C)
  {
    hide Log2, Pow2, Decodable, Decoded, ServiceMask, FromWord, NodeBytes, IsPow2, Entry.Widths;
    WidthsOf(e);
    MaskDecodes(e);
    WidthsLog(e);
    FromWordIs(e.phyBase);
    assert e.Widths().B + e.Widths().F + e.Widths().C == 37 + e.Widths().B;
  }

  lemma WidthsLog(e: Entry)
    requires e.blockSize > 0 && e.numNodes > 0
    ensures e.Widths().B == Log2(e.numNodes) && e.Widths().C == Log2(e.blockSize)
  {
  }

  /** An address is translated exactly when the place of its byte passes both bounds of the
      addition. */
  lemma TranslatedIff(e: Entry, g: Grant, virt: nat)
    requires Describes(e, g) && e.Has(virt) && e.virtBase + e.size < WORD && e.size <= Pow2(37 + Log2(e.numNodes))
    ensures var p := PlaceAt(g, virt - e.virtBase, e.Widths());
      e.Translate(virt).Some? <==> p.node < 0x4000 && p.addr < 0x10_0000_0000
  {
    hide Log2, Pow2, Decodable, ServiceMask, FromWord, NodeOf, PlaceOf, Grant.Occupies, Grant.Blocks, IsPow2, Entry.Widths, Entry.Installed, Entry.Translate;
    hide Segment.GetPhysical, Segment.InRange, Segment.NoPadding, Phys.Compressed;
    WidthsOf(e);
    TranslatorsAgree(e, virt);
    InstalledIs(e);
    var m := e.Widths();
    assert m.B + m.F + m.C == 37 + m.B;
    Forward(e.Installed(), virt);
  }

  /** A translated address has a host address exactly when its byte is within the memory of
      one node. */
  lemma HostedIff(e: Entry, g: Grant, host: Host, virt: nat)
    requires Describes(e, g) && e.Has(virt) && e.virtBase + e.size < WORD && e.size <= Pow2(37 + Log2(e.numNodes))
    requires e.Translate(virt).Some? && host.first <= host.last
    ensures host.PA2SA(e.Translate(virt).value, true).Some? <==> g.base + PlaceOf(virt - e.virtBase, e.Widths()) < host.PerNode()
  {
    hide Log2, Pow2, Describes, Down, And, PlaceOf, NodeOf, Entry.Translate, Entry.Widths, Grant.Occupies, Suits, Host.PerNode;
    Inside(e, g, virt);
    TranslatePlaces(e, g, virt);
  }

  function Bytes(blocks: nat, blockSize: nat): nat { blocks * blockSize }

  /** How far `size` bytes reach on the node where they reach farthest. */
  function Reach(size: nat, blockSize: nat, numNodes: nat): nat
    requires size > 0 && blockSize > 0 && numNodes > 0
  {
    var last := (size - 1) / blockSize;
    Bytes(last / numNodes, blockSize) + if last % numNodes == 0 then (size - 1) % blockSize + 1 else blockSize
  }

  /** It is the least bound of the places. */
  lemma ReachIs(size: nat, m: Mask)
    requires size > 0
    ensures forall o: nat :: o < size ==> PlaceOf(o, m) < Reach(size, Pow2(m.C), Pow2(m.B))
    ensures exists o: nat :: o < size && PlaceOf(o, m) + 1 == Reach(size, Pow2(m.C), Pow2(m.B))
  {
    hide Pow2, PlaceOf, RowOf;
    var c, d := Pow2(m.C), Pow2(m.B);
    var last := (size - 1) / c;
    forall o: nat | o < size ensures PlaceOf(o, m) < Reach(size, c, d) {
      PlaceIs(o, m);
      ReachBound(o, size, c, d);
    }
    if last % d == 0 {
      PlaceIs(size - 1, m);
      assert PlaceOf(size - 1, m) + 1 == Reach(size, c, d);
    } else {
      var o := FullBlock(size, c, d);
      PlaceIs(o, m);
      assert PlaceOf(o, m) + 1 == Reach(size, c, d);
    }
  }

  lemma ReachBound(o: nat, size: nat, c: nat, d: nat)
    requires o < size && c > 0 && d > 0
    ensures o / c / d * c + o % c < Reach(size, c, d)
  {
    var last, b := (size - 1) / c, o / c;
    QuotientMonotone(o, size - 1, c);
    QuotientMonotone(b, last, d);
    Parts(o, c);
    Parts(size - 1, c);
    Parts(b, d);
    Parts(last, d);
    if b / d < last / d { Below(b / d, last / d, c); }
  }

  lemma Parts(a: nat, d: nat)
    requires d > 0
    ensures a == a / d * d + a % d && a % d < d
  {
  }

  lemma Below(a: nat, b: nat, c: nat)
    requires a < b
    ensures a * c + c <= b * c
  {
    StepAtLeast(b - a, c);
    assert (b - a) * c == b * c - a * c;
  }

  lemma QuotientMonotone(a: nat, b: nat, d: nat)
    requires a <= b && d > 0
    ensures a / d <= b / d
  {
    var e := b / d - a / d;
    assert e * d == b / d * d - a / d * d;
    StepAtLeast(e, d);
  }

  /** The last byte of the first block in the last row. */
  lemma FullBlock(size: nat, c: nat, d: nat) returns (o: nat)
    requires size > 0 && c > 0 && d > 0 && (size - 1) / c % d != 0
    ensures o < size && o / c / d == (size - 1) / c / d && o % c == c - 1
  {
    Parts(size - 1, c);
    Parts((size - 1) / c, d);
    o := BlockEnd(size, c, d, (size - 1) / c, (size - 1) / c / d);
  }

  lemma BlockEnd(size: nat, c: nat, d: nat, last: nat, q: nat) returns (o: nat)
    requires c > 0 && d > 0 && last * c < size && q * d < last
    ensures o < size && o / c / d == q && o % c == c - 1
  {
    var b := q * d;
    o := b * c + (c - 1);
    DivModIs(o, c, b, c - 1);
    DivModIs(b, d, q, 0);
    Below(b, last, c);
  }

  /** All addresses of a row have host addresses exactly when its reach stays within the
      memory of a node and the 36 bits of the addition. */
  lemma AllHostedIff(e: Entry, g: Grant, host: Host)
    requires Describes(e, g) && e.size > 0 && e.virtBase + e.size < WORD && e.size <= Pow2(37 + Log2(e.numNodes))
    requires g.startNode + e.numNodes <= MAXNODE + 1 && host.first <= host.last
    ensures e.blockSize > 0 && e.numNodes > 0
    ensures (forall va: nat :: e.Has(va) ==> e.Translate(va).Some? && host.PA2SA(e.Translate(va).value, true).Some?) <==>
      g.base + Reach(e.size, e.blockSize, e.numNodes) <= Min(host.PerNode(), 0x10_0000_0000)
  {
    hide Log2, Pow2, Describes, PlaceOf, NodeOf, Entry.Translate, Entry.Widths, Host.PerNode, Host.PA2SA, Reach, Entry.Regular;
    Inside(e, g, e.virtBase);
    DescribesRegular(e, g);
    WidthsOf(e);
    var m := e.Widths();
    ReachIs(e.size, m);
    forall va: nat | e.Has(va)
      ensures e.Translate(va).Some? && host.PA2SA(e.Translate(va).value, true).Some? <==>
        g.base + PlaceOf(va - e.virtBase, m) < Min(host.PerNode(), MAXSUM + 1)
    {
      ByteOf(va - e.virtBase, m);
      TranslatedIff(e, g, va);
      if e.Translate(va).Some? { HostedIff(e, g, host, va); }
    }
    var o: nat :| o < e.size && PlaceOf(o, m) + 1 == Reach(e.size, Pow2(m.C), Pow2(m.B));
    assert e.Has(e.virtBase + o);
  }

  lemma DescribesRegular(e: Entry, g: Grant)
    requires Describes(e, g)
    ensures e.Regular() && e.numNodes > 1
  {
  }

  /** No aliasing, end to end: two addresses of live requests that reach the same host
      address are the same byte of the same request. */
  lemma EndToEnd(free: multiset<Block>, live: set<Grant>, arena: Rect, host: Host,
                 e: Entry, g: Grant, va: nat, f: Entry, h: Grant, vb: nat)
    requires Conserved(free, live, arena) && g in live && h in live && host.Formed()
    requires Describes(e, g) && e.Has(va) && e.virtBase + e.size < WORD && e.size <= Pow2(37 + Log2(e.numNodes))
    requires Describes(f, h) && f.Has(vb) && f.virtBase + f.size < WORD && f.size <= Pow2(37 + Log2(f.numNodes))
    requires e.Translate(va).Some? && f.Translate(vb).Some?
    requires host.InRange(FromWord(e.Translate(va).value)) && host.InRange(FromWord(f.Translate(vb).value))
    requires host.PA2SA(e.Translate(va).value, true) == host.PA2SA(f.Translate(vb).value, true)
    ensures g == h && va - e.virtBase == vb - f.virtBase
  {
    hide Conserved, Log2, Pow2, FromWord, Host.PA2SA, Host.SA2PA, Grant.Occupies, Describes, Suits, PlaceAt, Entry.Widths, Entry.Translate;
    Inside(e, g, va);
    Inside(f, h, vb);
    TranslatePlaces(e, g, va);
    TranslatePlaces(f, h, vb);
    var p, q := FromWord(e.Translate(va).value), FromWord(f.Translate(vb).value);
    HostRoundTrip(host, e.Translate(va).value);
    HostRoundTrip(host, f.Translate(vb).value);
    Unpack(p);
    Unpack(q);
    NoAliasing(free, live, arena, g, va - e.virtBase, e.Widths(), h, vb - f.virtBase, f.Widths());
  }

  lemma Inside(e: Entry, g: Grant, va: nat)
    requires Describes(e, g) && e.Has(va)
    ensures e.blockSize > 0 && e.numNodes > 0
    ensures g.WellPosed() && va - e.virtBase < g.Blocks() * g.blockSize
  {
    hide Grant.Blocks;
  }
}
