/** Global segments: virtual addresses spread over the nodes block by block, and back
    (updown/common/include/memorySegments.h:10-74, 415-541). */
module Segments {
  import opened Bits
  import opened Rects
  import opened Swizzle

  const MAXNODE: nat := 0x3FFF
  const MAXADDR: nat := 0x1F_FFFF_FFFF
  /** The bound `operator+` checks has one bit less than the address field. */
  const MAXSUM: nat := 0xF_FFFF_FFFF

  /** A node and a byte in its memory. */
  datatype Phys = Phys(node: nat, addr: nat)
  {
    predicate Fits() { node <= MAXNODE && addr <= MAXADDR }

    /** The word that holds both fields. */
    function Compressed(): nat { Or(Shl(node, 37), addr) }

    function Plus(o: Phys): Option<Phys> {
      if node + o.node > MAXNODE || addr + o.addr > MAXSUM then None
      else Some(Phys(node + o.node, addr + o.addr))
    }

    function Minus(o: Phys): Option<Phys> {
      if node < o.node || addr < o.addr then None
      else Some(Phys(node - o.node, addr - o.addr))
    }
  }

  function FromWord(w: nat): Phys {
    Phys(And(Down(w, 37), MAXNODE), And(w, MAXADDR))
  }

  /** Unpacking takes the two fields, 14 and 37 bits wide. */
  lemma FromWordIs(w: nat)
    ensures FromWord(w) == Phys(Low(Down(w, 37), 14), Low(w, 37))
    ensures FromWord(w).Fits()
  {
    hide Down, Low, And, Pow2;
    Powers();
    AndLow(Down(w, 37), 14);
    AndLow(w, 37);
    Joined(Down(w, 37), 14);
    Joined(w, 37);
  }

  /** In numbers: the address is the remainder by 2^37, the node that of the quotient by 2^14. */
  lemma FieldsAre(w: nat)
    ensures FromWord(w) == Phys(w / 0x20_0000_0000 % 0x4000, w % 0x20_0000_0000)
  {
    hide FromWord, Down, Low, Pow2;
    Powers();
    FromWordIs(w);
    DownIs(w, 37);
    DownIs(Down(w, 37), 14);
  }

  lemma FromFields(node: nat, addr: nat)
    requires Phys(node, addr).Fits()
    ensures FromWord(Up(node, 37) + addr) == Phys(node, addr)
  {
    hide Down, Low, And, Pow2, Up;
    Powers();
    FromWordIs(Up(node, 37) + addr);
    Split(node, addr, 37);
    LowSmall(node, 14);
  }

  lemma CompressedIs(p: Phys)
    requires p.Fits()
    ensures p.Compressed() == Up(p.node, 37) + p.addr
  {
    hide Or, Pow2, Up;
    Powers();
    OrDisjoint(p.node, 37, p.addr);
    FieldsFit(p.node, p.addr, 14, 37);
    Pow2Monotone(51, 64);
  }

  /** Packing and unpacking lose nothing of an address whose fields fit ... */
  lemma Unpack(p: Phys)
    requires p.Fits()
    ensures FromWord(p.Compressed()) == p
  {
    hide FromWord, Phys.Compressed, Up;
    CompressedIs(p);
    FromFields(p.node, p.addr);
  }

  /** ... and of a word they lose exactly the reserved bits above the two fields. */
  lemma Repack(w: nat)
    ensures FromWord(w).Compressed() == Low(w, 51)
  {
    hide Down, Low, Pow2, Up, FromWord, Phys.Compressed;
    FromWordIs(w);
    CompressedIs(FromWord(w));
    LowOfParts(w, 14, 37);
  }

  lemma {:induction false} LowOfParts(w: nat, j: nat, k: nat)
    ensures Low(w, j + k) == Up(Low(Down(w, k), j), k) + Low(w, k)
  {
    if k > 0 { LowOfParts(w / 2, j, k - 1); }
  }

  /** Numerator over denominator, rounded up. */
  function CeilDiv(a: nat, b: nat): nat
    requires b > 0
  {
    a / b + if a % b == 0 then 0 else 1
  }

  /** The bytes of one row of blocks across the nodes. */
  function RowBytes(m: Mask): (r: nat)
    ensures r > 0
  {
    Pow2(m.B) * Pow2(m.C)
  }

  /** The bytes of whole rows that `size` bytes take up on each node. */
  function NodeBytes(size: nat, m: Mask): nat {
    CeilDiv(size, RowBytes(m)) * Pow2(m.C)
  }

  /** Where byte `l` of a segment goes: its node, its row of blocks, its place in the block. */
  function NodeOf(l: nat, m: Mask): nat { Low(Down(l, m.C), m.B) }
  function RowOf(l: nat, m: Mask): nat { Down(l, m.B + m.C) }
  function PlaceOf(l: nat, m: Mask): nat { Up(RowOf(l, m), m.C) + Low(l, m.C) }

  /** In numbers: blocks of 2^C bytes go round 2^B nodes. */
  lemma PlacesAre(l: nat, m: Mask)
    ensures NodeOf(l, m) == l / Pow2(m.C) % Pow2(m.B)
    ensures PlaceOf(l, m) == l / (Pow2(m.B) * Pow2(m.C)) * Pow2(m.C) + l % Pow2(m.C)
  {
    hide Down, Low, Up, Pow2;
    DownIs(l, m.C);
    DownIs(Down(l, m.C), m.B);
    DownIs(l, m.B + m.C);
    Pow2Add(m.B, m.C);
    UpIs(RowOf(l, m), m.C);
  }

  /** The swizzled address as `getPhysicalAddr` computes it. */
  function Swizzled(l: nat, m: Mask): nat {
    var numNodes := Pow2(m.B);
    var blockNumber := And(Down(l, m.C), Pow2(m.B + m.F) - 1);
    var nodeOffset := blockNumber % numNodes;
    var blockNumberInNode := blockNumber / numNodes;
    var blockOffset := And(l, Pow2(m.C) - 1);
    Or(Or(And(l, Not(Down(WORD - 1, m.P))), Shl(nodeOffset, 37)), Wrap(blockNumberInNode * Pow2(m.C) + blockOffset))
  }

  datatype Segment = Segment(virtualBase: nat, virtualLimit: nat, mask: Mask, base: Phys, limit: Phys)
  {
    predicate Contains(va: nat) { virtualBase <= va < virtualLimit }

    predicate ContainsPhys(p: Phys) {
      base.addr <= p.addr < limit.addr && base.node <= p.node < limit.node
    }

    function GetPhysical(va: nat): Option<Phys> {
      if !Contains(va) then None else base.Plus(FromWord(Swizzled(va - virtualBase, mask)))
    }

    function Unswizzled(off: Phys): nat {
      Or(Or(Or(Shl(Down(off.node, mask.B), mask.B + mask.F + mask.C),
               Shl(Down(off.addr, mask.C), mask.B + mask.C)),
            Shl(And(off.node, Pow2(mask.B) - 1), mask.C)),
         And(off.addr, Pow2(mask.C) - 1))
    }

    function GetVirtual(p: Phys): Option<nat> {
      if !ContainsPhys(p) then None
      else
        match p.Minus(base)
        case None => None
        case Some(off) =>
          var va := Wrap(virtualBase + Unswizzled(off));
          if Contains(va) then Some(va) else None
    }

    /** Fields wide enough for the segment, and an address space that does not wrap. */
    predicate InRange() {
      && mask.P + mask.F + mask.B + mask.C == 64
      && mask.F + mask.C <= 37 && mask.B <= 14
      && virtualBase <= virtualLimit < WORD && base.Fits()
      && limit == Phys(base.node + Pow2(mask.B),
                       NodeBytes(virtualLimit - virtualBase, mask) + base.addr)
    }

    /** The logical addresses have as many bits as the mask has below its padding. */
    predicate NoPadding() {
      virtualBase <= virtualLimit && virtualLimit - virtualBase <= Pow2(mask.B + mask.F + mask.C)
    }
  }

  /** The mask of the padding bits. */
  lemma PaddingMask(p: nat)
    requires p <= 64
    ensures Not(Down(WORD - 1, p)) == Up(Pow2(p) - 1, 64 - p)
  {
    hide Down, Up, Pow2;
    Powers();
    DownOnes(64, p);
    UpOnes(p, 64 - p);
  }

  /** Addresses without padding bits go to the node, row and place of their block. */
  lemma SwizzledIs(l: nat, m: Mask)
    requires m.P + m.F + m.B + m.C == 64 && m.F + m.C <= 37 && m.B <= 14 && l < Pow2(m.B + m.F + m.C)
    ensures Swizzled(l, m) == Up(NodeOf(l, m), 37) + PlaceOf(l, m)
    ensures NodeOf(l, m) < Pow2(m.B) && NodeOf(l, m) <= MAXNODE && PlaceOf(l, m) <= MAXADDR
  {
    hide Pow2, Swizzled, NodeOf, RowOf, PlaceOf, Up;
    SwizzledParts(l, m);
    BlockFields(l, m);
    Powers();
    Pow2Monotone(m.B, 14);
    Pow2Monotone(m.F + m.C, 37);
    JoinedFields(NodeOf(l, m), PlaceOf(l, m));
  }

  /** No padding is kept, and the fields are those of the block. */
  lemma SwizzledParts(l: nat, m: Mask)
    requires m.P + m.F + m.B + m.C == 64 && l < Pow2(m.B + m.F + m.C)
    ensures Swizzled(l, m) == Or(Or(0, Shl(NodeOf(l, m), 37)), Wrap(PlaceOf(l, m)))
  {
    hide Down, Up, Low, Pow2, And, Or, Wrap, Not, RowOf, Shl, NodeOf, PlaceOf;
    PaddingGone(l, m);
    BlockFields(l, m);
    PlaceParts(l, m);
  }

  lemma PlaceParts(l: nat, m: Mask)
    ensures PlaceOf(l, m) == RowOf(l, m) * Pow2(m.C) + And(l, Pow2(m.C) - 1)
  {
    hide Up, Low, Pow2, And, RowOf;
    UpIs(RowOf(l, m), m.C);
    AndLow(l, m.C);
  }

  lemma PaddingGone(l: nat, m: Mask)
    requires m.P + m.F + m.B + m.C == 64 && l < Pow2(m.B + m.F + m.C)
    ensures And(l, Not(Down(WORD - 1, m.P))) == 0
  {
    hide Down, Up, Low, Pow2, And, Not;
    PaddingMask(m.P);
    AndHigh(l, Pow2(m.P) - 1, 64 - m.P);
    LowSmall(l, 64 - m.P);
    NothingKept(m.P);
  }

  lemma JoinedFields(n: nat, place: nat)
    requires n <= MAXNODE && place <= MAXADDR
    ensures Or(Or(0, Shl(n, 37)), Wrap(place)) == Up(n, 37) + place
  {
    hide Up, Pow2, Or, Shl, Wrap;
    Powers();
    Pow2Monotone(51, 64);
    FieldsFit(n, place, 14, 37);
    ShlSmall(n, place);
    Bits.OrZero(Up(n, 37));
    OrDisjoint(n, 37, place);
  }

  lemma ShlSmall(n: nat, place: nat)
    requires Up(n, 37) + place < WORD
    ensures Shl(n, 37) == Up(n, 37) && Wrap(place) == place
  {
    hide Up;
  }

  lemma NothingKept(p: nat)
    ensures And(0, Pow2(p) - 1) == 0 && Up(0, 64 - if p <= 64 then p else 64) == 0
  {
    LowOfZero(64 - if p <= 64 then p else 64);
  }

  /** The block number splits into the node and the row. */
  lemma BlockFields(l: nat, m: Mask)
    requires l < Pow2(m.B + m.F + m.C)
    ensures var bn := And(Down(l, m.C), Pow2(m.B + m.F) - 1);
      bn % Pow2(m.B) == NodeOf(l, m) && bn / Pow2(m.B) == RowOf(l, m)
    ensures NodeOf(l, m) < Pow2(m.B) && RowOf(l, m) < Pow2(m.F) && PlaceOf(l, m) < Pow2(m.F + m.C)
  {
    hide Down, Up, Low, Pow2, And;
    var block := Down(l, m.C);
    BlockNumber(l, m);
    DownIs(block, m.B);
    DownDown(l, m.C, m.B);
    assert m.C + m.B == m.B + m.C;
    Joined(l, m.C);
    FieldsFit(RowOf(l, m), Low(l, m.C), m.F, m.C);
  }

  lemma BlockNumber(l: nat, m: Mask)
    requires l < Pow2(m.B + m.F + m.C)
    ensures And(Down(l, m.C), Pow2(m.B + m.F) - 1) == Down(l, m.C)
    ensures Down(Down(l, m.C), m.B) < Pow2(m.F)
  {
    hide Down, Low, Pow2, And;
    var block := Down(l, m.C);
    AndLow(block, m.B + m.F);
    DownFits(l, m.B + m.F, m.C);
    LowSmall(block, m.B + m.F);
    assert m.F + m.B == m.B + m.F;
    DownFits(block, m.F, m.B);
  }

  /** The inverse puts the fields back where they came from. */
  lemma UnswizzledIs(s: Segment, off: Phys)
    requires s.mask.B <= 14 && off.node < Pow2(s.mask.B) && off.addr <= MAXADDR && s.mask.C <= 37
    ensures var m := s.mask; s.Unswizzled(off) == Up(Up(Down(off.addr, m.C), m.B) + off.node, m.C) + Low(off.addr, m.C)
    ensures s.Unswizzled(off) < Pow2(37 + s.mask.B)
  {
    hide Down, Up, Low, Pow2, And, Or, Wrap;
    var m := s.mask;
    var row, place := Down(off.addr, m.C), Low(off.addr, m.C);
    LowSmall(off.node, m.B);
    NothingShifted(m.B + m.F + m.C);
    AndLow(off.node, m.B);
    AndLow(off.addr, m.C);
    Joined(off.addr, m.C);
    Powers();
    assert (37 - m.C) + m.C == 37;
    DownFits(off.addr, 37 - m.C, m.C);
    FieldsFit(row, off.node, 37 - m.C, m.B);
    FieldsFit(Up(row, m.B) + off.node, place, 37 - m.C + m.B, m.C);
    assert 37 - m.C + m.B + m.C == 37 + m.B;
    Pow2Monotone(37 + m.B, 64);
    UpMonotone(Up(row, m.B), Up(row, m.B) + off.node, m.C);
    UpMonotone(off.node, Up(row, m.B) + off.node, m.C);
    UpUp(row, m.B, m.C);
    NoWrap(row, m.B + m.C);
    NoWrap(off.node, m.C);
    Bits.OrZero(Up(row, m.B + m.C));
    UpOr(Up(row, m.B), off.node, m.C);
    OrDisjoint(row, m.B, off.node);
    OrDisjoint(Up(row, m.B) + off.node, m.C, place);
  }

  lemma NothingShifted(k: nat)
    ensures Shl(0, k) == 0
  {
    LowOfZero(k);
  }

  lemma NoWrap(a: nat, k: nat)
    requires Up(a, k) < WORD
    ensures Shl(a, k) == Up(a, k)
  {
  }

  /** The fields of a byte of the segment, and the byte of given fields. */
  lemma FieldsOf(row: nat, node: nat, place: nat, m: Mask)
    requires node < Pow2(m.B) && place < Pow2(m.C)
    ensures var l := Up(Up(row, m.B) + node, m.C) + place;
      NodeOf(l, m) == node && RowOf(l, m) == row && PlaceOf(l, m) == Up(row, m.C) + place
  {
    hide Down, Up, Low, Pow2;
    var l := Up(Up(row, m.B) + node, m.C) + place;
    Split(Up(row, m.B) + node, place, m.C);
    Split(row, node, m.B);
    DownDown(l, m.C, m.B);
    assert m.C + m.B == m.B + m.C;
  }

  lemma ByteOf(l: nat, m: Mask)
    ensures NodeOf(l, m) < Pow2(m.B)
    ensures Down(PlaceOf(l, m), m.C) == RowOf(l, m) && Low(PlaceOf(l, m), m.C) == Low(l, m.C)
    ensures l == Up(Up(RowOf(l, m), m.B) + NodeOf(l, m), m.C) + Low(l, m.C)
  {
    hide Down, Up, Low, Pow2;
    Joined(l, m.C);
    Joined(Down(l, m.C), m.B);
    DownDown(l, m.C, m.B);
    assert m.C + m.B == m.B + m.C;
    Split(RowOf(l, m), Low(l, m.C), m.C);
  }

  lemma CeilAbove(l: nat, size: nat, d: nat)
    requires l < size && d > 0
    ensures l / d < CeilDiv(size, d)
  {
    var q, r := l / d, l % d;
    var e := size / d - q;
    assert e * d == size / d * d - q * d;
    StepAtLeast(e, d);
  }

  lemma CeilBelow(size: nat, d: nat, k: nat)
    requires size <= k * d && d > 0
    ensures CeilDiv(size, d) <= k
  {
    var e := size / d - k;
    assert e * d == size / d * d - k * d;
    StepAtLeast(e, d);
  }

  /** A byte of the segment stays below the physical limit. */
  lemma BelowLimit(l: nat, size: nat, m: Mask)
    requires l < size
    ensures PlaceOf(l, m) < NodeBytes(size, m)
  {
    hide Down, Up, Low, Pow2, CeilDiv;
    Pow2Add(m.B, m.C);
    DownIs(l, m.B + m.C);
    var rows := CeilDiv(size, Pow2(m.B) * Pow2(m.C));
    CeilAbove(l, size, Pow2(m.B) * Pow2(m.C));
    UpIs(RowOf(l, m), m.C);
    Joined(l, m.C);
    ProductMonotone(RowOf(l, m) + 1, rows, Pow2(m.C), Pow2(m.C));
    Spread(RowOf(l, m), Pow2(m.C));
  }

  lemma Spread(a: nat, b: nat)
    ensures (a + 1) * b == a * b + b
  {
  }

  /** The physical limit leaves no more room than the address fields have. */
  lemma LimitFits(size: nat, m: Mask)
    requires size <= Pow2(m.B + m.F + m.C)
    ensures NodeBytes(size, m) <= Pow2(m.F + m.C)
  {
    hide Pow2, CeilDiv;
    Pow2Add(m.B, m.C);
    Pow2Add(m.F, m.B + m.C);
    Pow2Add(m.F, m.C);
    assert m.F + (m.B + m.C) == m.B + m.F + m.C;
    CeilBelow(size, Pow2(m.B) * Pow2(m.C), Pow2(m.F));
    ProductMonotone(CeilDiv(size, Pow2(m.B) * Pow2(m.C)), Pow2(m.F), Pow2(m.C), Pow2(m.C));
  }

  /** The forward map reaches an address inside the physical limits, or overflows the
      node or address bound of the addition. */
  lemma Forward(s: Segment, va: nat)
    requires s.InRange() && s.Contains(va)
    requires va - s.virtualBase < Pow2(s.mask.B + s.mask.F + s.mask.C)
    ensures var l := va - s.virtualBase;
      s.GetPhysical(va) == s.base.Plus(Phys(NodeOf(l, s.mask), PlaceOf(l, s.mask)))
    ensures s.GetPhysical(va).Some? ==> s.ContainsPhys(s.GetPhysical(va).value)
  {
    hide Pow2, NodeOf, PlaceOf, Swizzled, FromWord, NodeBytes;
    var l := va - s.virtualBase;
    SwizzledIs(l, s.mask);
    FromFields(NodeOf(l, s.mask), PlaceOf(l, s.mask));
    BelowLimit(l, s.virtualLimit - s.virtualBase, s.mask);
  }

  /** The inverse map undoes the forward map on every address without padding bits. */
  lemma VirtualRoundTrip(s: Segment, va: nat)
    requires s.InRange() && s.Contains(va) && s.GetPhysical(va).Some?
    requires va - s.virtualBase < Pow2(s.mask.B + s.mask.F + s.mask.C)
    ensures s.GetVirtual(s.GetPhysical(va).value) == Some(va)
  {
    hide Pow2, NodeOf, PlaceOf, RowOf, Segment.GetPhysical, Segment.Unswizzled, Segment.InRange, NodeBytes, Segment.ContainsPhys;
    var l, m := va - s.virtualBase, s.mask;
    MaskFits(s);
    Forward(s, va);
    SwizzledIs(l, m);
    ByteOf(l, m);
    UnswizzledIs(s, Phys(NodeOf(l, m), PlaceOf(l, m)));
  }

  lemma MaskFits(s: Segment)
    requires s.InRange()
    ensures s.mask.P + s.mask.F + s.mask.B + s.mask.C == 64 && s.mask.F + s.mask.C <= 37 && s.mask.B <= 14
    ensures s.virtualBase <= s.virtualLimit < WORD
  {
  }

  /** When the two lower fields fill an address field, as in every mask of the service,
      addresses with padding bits are never recovered. */
  lemma VirtualRoundTripIff(s: Segment, va: nat)
    requires s.InRange() && s.mask.F + s.mask.C == 37 && s.Contains(va) && s.GetPhysical(va).Some?
    ensures s.GetVirtual(s.GetPhysical(va).value) == Some(va) <==> va - s.virtualBase < Pow2(s.mask.B + s.mask.F + s.mask.C)
  {
    hide Pow2, Segment.Unswizzled, Segment.GetPhysical, Segment.GetVirtual, Segment.InRange, NodeBytes, Swizzled;
    if va - s.virtualBase < Pow2(s.mask.B + s.mask.F + s.mask.C) {
      VirtualRoundTrip(s, va);
    } else {
      PaddingLost(s, va);
    }
  }

  lemma PaddingLost(s: Segment, va: nat)
    requires s.InRange() && s.mask.F + s.mask.C == 37 && s.Contains(va) && s.GetPhysical(va).Some?
    requires va - s.virtualBase >= Pow2(s.mask.B + s.mask.F + s.mask.C)
    ensures s.GetVirtual(s.GetPhysical(va).value) != Some(va)
  {
    hide Pow2, Segment.Unswizzled, NodeBytes, Swizzled, FromWord, Wrap, Down, Up, Low;
    var off := FromWord(Swizzled(va - s.virtualBase, s.mask));
    FromWordIs(Swizzled(va - s.virtualBase, s.mask));
    if off.node < Pow2(s.mask.B) {
      UnswizzledIs(s, off);
      assert s.mask.B + s.mask.F + s.mask.C == 37 + s.mask.B;
      SumsDiffer(s.virtualBase, s.Unswizzled(off), va - s.virtualBase);
    }
  }

  lemma SumsDiffer(base: nat, x: nat, y: nat)
    requires x < y && base + y < WORD
    ensures Wrap(base + x) == base + x < base + y
  {
  }

  /** The forward map undoes the inverse map wherever the sum of base and offset passes
      the bounds of the addition. */
  lemma PhysicalRoundTrip(s: Segment, p: Phys)
    requires s.InRange() && s.NoPadding() && s.GetVirtual(p).Some?
    ensures s.Contains(s.GetVirtual(p).value)
    ensures s.GetPhysical(s.GetVirtual(p).value) == if p.node >= 0x4000 || p.addr >= 0x10_0000_0000 then None else Some(p)
  {
    hide Pow2, NodeOf, PlaceOf, RowOf, Segment.GetPhysical, Segment.Unswizzled, NodeBytes, Up, Down, Low, Wrap;
    var off, m := Phys(p.node - s.base.node, p.addr - s.base.addr), s.mask;
    LimitFits(s.virtualLimit - s.virtualBase, m);
    Powers();
    Pow2Monotone(m.F + m.C, 37);
    UnswizzledIs(s, off);
    Joined(off.addr, m.C);
    FieldsOf(Down(off.addr, m.C), off.node, Low(off.addr, m.C), m);
    Pow2Monotone(37 + m.B, 64);
    var va := s.GetVirtual(p).value;
    WrapsOff(s.virtualBase, s.Unswizzled(off), va);
    Forward(s, va);
  }

  lemma WrapsOff(base: nat, x: nat, va: nat)
    requires x < WORD && base < WORD && va == Wrap(base + x) && va >= base
    ensures va == base + x
  {
  }

  /** Exactly the addresses of the segment are translated, to node and place of their byte
      behind the base, if the fields of the sum have 14 and 36 bits. */
  lemma ForwardExact(s: Segment, va: nat, p: Phys)
    requires s.InRange() && s.NoPadding()
    ensures s.GetPhysical(va) == Some(p) <==>
      && s.virtualBase <= va < s.virtualLimit && p.node < 0x4000 && p.addr < 0x10_0000_0000
      && p.node == s.base.node + NodeOf(va - s.virtualBase, s.mask) && p.addr == s.base.addr + PlaceOf(va - s.virtualBase, s.mask)
  {
    hide Pow2, NodeOf, PlaceOf, NodeBytes, Segment.GetPhysical;
    if s.Contains(va) {
      Forward(s, va);
    } else {
      OutsideForward(s, va);
    }
  }

  lemma OutsideForward(s: Segment, va: nat)
    requires !s.Contains(va)
    ensures s.GetPhysical(va) == None
  {
  }

  /** Exactly these places are translated back. */
  lemma InverseExact(s: Segment, p: Phys, va: nat)
    requires s.InRange() && s.NoPadding()
    ensures s.GetVirtual(p) == Some(va) <==>
      && s.virtualBase <= va < s.virtualLimit
      && p.node == s.base.node + NodeOf(va - s.virtualBase, s.mask) && p.addr == s.base.addr + PlaceOf(va - s.virtualBase, s.mask)
  {
    hide Pow2, NodeOf, PlaceOf, RowOf, Segment.GetPhysical, Segment.GetVirtual, Segment.Unswizzled, NodeBytes, Up, Down, Low, Wrap;
    if s.virtualBase <= va < s.virtualLimit && p == Phys(s.base.node + NodeOf(va - s.virtualBase, s.mask), s.base.addr + PlaceOf(va - s.virtualBase, s.mask)) {
      PlaceBack(s, va);
    }
    if s.GetVirtual(p) == Some(va) { BackPlace(s, p, va); }
  }

  lemma PlaceBack(s: Segment, va: nat)
    requires s.InRange() && s.NoPadding() && s.Contains(va)
    ensures var l := va - s.virtualBase;
      s.GetVirtual(Phys(s.base.node + NodeOf(l, s.mask), s.base.addr + PlaceOf(l, s.mask))) == Some(va)
  {
    hide Pow2, NodeOf, PlaceOf, RowOf, Segment.Unswizzled, NodeBytes, Up, Down, Low;
    var l, m := va - s.virtualBase, s.mask;
    BelowLimit(l, s.virtualLimit - s.virtualBase, m);
    ByteOf(l, m);
    BlockFields(l, m);
    Powers();
    Pow2Monotone(m.F + m.C, 37);
    UnswizzledIs(s, Phys(NodeOf(l, m), PlaceOf(l, m)));
  }

  lemma BackPlace(s: Segment, p: Phys, va: nat)
    requires s.InRange() && s.NoPadding() && s.GetVirtual(p) == Some(va)
    ensures s.Contains(va)
    ensures p == Phys(s.base.node + NodeOf(va - s.virtualBase, s.mask), s.base.addr + PlaceOf(va - s.virtualBase, s.mask))
  {
    hide Pow2, NodeOf, PlaceOf, RowOf, Segment.Unswizzled, NodeBytes, Up, Down, Low, Wrap;
    var off, m := Phys(p.node - s.base.node, p.addr - s.base.addr), s.mask;
    LimitFits(s.virtualLimit - s.virtualBase, m);
    Powers();
    Pow2Monotone(m.F + m.C, 37);
    UnswizzledIs(s, off);
    Joined(off.addr, m.C);
    FieldsOf(Down(off.addr, m.C), off.node, Low(off.addr, m.C), m);
    Pow2Monotone(37 + m.B, 64);
    WrapsOff(s.virtualBase, s.Unswizzled(off), va);
  }

  /** Distinct addresses of a segment go to distinct places. */
  lemma ForwardInjective(s: Segment, va: nat, vb: nat)
    requires s.InRange() && s.NoPadding() && s.Contains(va) && s.Contains(vb)
    requires s.GetPhysical(va).Some? && s.GetPhysical(va) == s.GetPhysical(vb)
    ensures va == vb
  {
    VirtualRoundTrip(s, va);
    VirtualRoundTrip(s, vb);
  }

  /** The segment that the plain-mask constructor builds; the physical limit is rounded up
      to whole rows of blocks. */
  function SegmentOf(virtualBase: nat, virtualLimit: nat, plainMask: nat, compressedBase: nat): Segment
    requires virtualBase <= virtualLimit && Decodable(plainMask)
  {
    var m := Decoded(plainMask);
    var b := FromWord(compressedBase);
    Segment(virtualBase, virtualLimit, m, b,
            Phys(b.node + Pow2(m.B), NodeBytes(virtualLimit - virtualBase, m) + b.addr))
  }

  /** The last byte of a segment lies in the last block row below the limit. */
  lemma LimitIsTight(size: nat, m: Mask)
    requires size > 0
    ensures NodeBytes(size, m) <= PlaceOf(size - 1, m) + Pow2(m.C)
  {
    hide Down, Up, Low, Pow2, CeilDiv;
    Pow2Add(m.B, m.C);
    DownIs(size - 1, m.B + m.C);
    var d, rows := Pow2(m.B) * Pow2(m.C), CeilDiv(size, Pow2(m.B) * Pow2(m.C));
    var row := RowOf(size - 1, m);
    Spread((size - 1) / d, d);
    CeilBelow(size, d, row + 1);
    UpIs(row, m.C);
    ProductMonotone(rows, row + 1, Pow2(m.C), Pow2(m.C));
    Spread(row, Pow2(m.C));
  }

  /** A segment's bounds, and its physical limit: above every byte of the segment, and by
      less than a block row.  It is in range when its fields and addresses are. */
  method MakeSegment(virtualBase: nat, virtualLimit: nat, plainMask: nat, compressedBase: nat) returns (s: Segment)
    requires virtualBase <= virtualLimit && Decodable(plainMask)
    ensures s == SegmentOf(virtualBase, virtualLimit, plainMask, compressedBase)
    ensures s.virtualBase == virtualBase && s.virtualLimit == virtualLimit && s.base.Fits()
    ensures forall va: nat :: s.Contains(va) ==>
      s.base.addr + PlaceOf(va - virtualBase, s.mask) < s.limit.addr && s.base.node + NodeOf(va - virtualBase, s.mask) < s.limit.node
    ensures virtualBase < virtualLimit ==>
      s.limit.addr <= s.base.addr + PlaceOf(virtualLimit - 1 - virtualBase, s.mask) + Pow2(s.mask.C)
    ensures virtualLimit < WORD && s.mask.P + s.mask.F + s.mask.B + s.mask.C == 64 && s.mask.F + s.mask.C <= 37 && s.mask.B <= 14 ==>
      s.InRange()
  {
    hide PlaceOf, NodeOf, Pow2, FromWord, Decoded, Decodable;
    var m := Decode(plainMask);
    var numNodes, blockSize := Pow2(m.B), Pow2(m.C);
    var b := FromWord(compressedBase);
    assert numNodes * blockSize == RowBytes(m);
    var rows := CeilDiv(virtualLimit - virtualBase, numNodes * blockSize);
    s := Segment(virtualBase, virtualLimit, m, b, Phys(b.node + numNodes, rows * blockSize + b.addr));
    SegmentBounds(s);
    FromWordIs(compressedBase);
  }

  lemma SegmentBounds(s: Segment)
    requires s.virtualBase <= s.virtualLimit
    requires s.limit == Phys(s.base.node + Pow2(s.mask.B), NodeBytes(s.virtualLimit - s.virtualBase, s.mask) + s.base.addr)
    ensures forall va: nat :: s.Contains(va) ==>
      s.base.addr + PlaceOf(va - s.virtualBase, s.mask) < s.limit.addr && s.base.node + NodeOf(va - s.virtualBase, s.mask) < s.limit.node
    ensures s.virtualBase < s.virtualLimit ==>
      s.limit.addr <= s.base.addr + PlaceOf(s.virtualLimit - 1 - s.virtualBase, s.mask) + Pow2(s.mask.C)
  {
    hide PlaceOf, NodeOf, Pow2, NodeBytes;
    var size := s.virtualLimit - s.virtualBase;
    forall va: nat | s.Contains(va)
      ensures s.base.addr + PlaceOf(va - s.virtualBase, s.mask) < s.limit.addr && s.base.node + NodeOf(va - s.virtualBase, s.mask) < s.limit.node
    {
      BelowLimit(va - s.virtualBase, size, s.mask);
      ByteOf(va - s.virtualBase, s.mask);
    }
    if size > 0 { LimitIsTight(size, s.mask); }
  }
}
