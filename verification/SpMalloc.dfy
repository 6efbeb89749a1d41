/** The scratchpad allocator: block headers in raw memory
    (updown/libraries/SpMalloc/SpMalloc.py:95-305).  The emitted instructions become the
    statements of `Malloc` and `Free`, the labels of the search its loop. */
module SpMallocs {
  import opened Bits
  import opened FreeLists
  import opened Rects

  /** The bytes a request takes, with its header. */
  function Need(words: nat): nat { (words + 1) * 8 }

  /** What the program computes for them: an addition and a shift in a 64-bit register. */
  function Required(words: nat): nat { Wrap(Wrap(words + 1) * 8) }

  /** A register as the compare instructions read it. */
  function Signed(r: nat): int { if r < 0x8000_0000_0000_0000 then r else r - WORD }

  /** The size test of the search. */
  predicate Passes(size: nat, required: nat) { !(Signed(size) < Signed(required)) }

  /** The size from which blocks pass it. */
  function Asked(required: nat): nat { if Signed(required) < HEADER then HEADER else required }

  lemma PassesIff(size: nat, required: nat)
    requires HEADER <= size < 0x8000_0000_0000_0000 && required < WORD
    ensures Passes(size, required) <==> size >= Asked(required)
  {
  }

  /** A block that passes the test holds the request exactly when the request is below
      2^60 - 1 words; from there on the register reads as negative or has wrapped. */
  lemma PassesHolds(size: nat, words: nat)
    requires size < 0x8000_0000_0000_0000 && words < WORD && Passes(size, Required(words))
    ensures size >= Need(words) <==> words + 1 < 0x1000_0000_0000_0000
  {
  }

  /** The register holds at least a header and reads as a positive number. */
  predicate Sized(words: nat) { Signed(Required(words)) >= HEADER }

  /** From 2^61 - 1 words on, the register holds less than the request takes. */
  lemma RequiredIff(words: nat)
    requires words < WORD
    ensures Required(words) % 8 == 0 && Required(words) <= Need(words) && Required(words) < WORD
    ensures Required(words) == Need(words) <==> words + 1 < 0x2000_0000_0000_0000
    ensures Sized(words) && Required(words) == Need(words) <==> words + 1 < 0x1000_0000_0000_0000
  {
  }

  /** Can block `b` be marked used for the register value? */
  predicate Fair(b: Span, required: nat) { Signed(required) >= HEADER || (required == 0 && b.size == HEADER) }

  /** A word written at a byte address, in the memory `m` or outside of it. */
  function Stored(m: seq<nat>, at: nat, v: nat): seq<nat> { if at / 8 < |m| then m[at / 8 := v] else m }

  /** The header of what is split off free block `b`, and that of the block itself, in 64-bit
      registers. */
  function HeadersWritten(m: seq<nat>, b: Span, required: nat): seq<nat>
    requires b.addr / 8 < |m|
  {
    var remaining := Wrap(b.size - required);
    if remaining >= BREAK
    then Stored(m, Wrap(b.addr + required), Wrap(remaining * 2))[b.addr / 8 := Wrap(required * 2) + 1]
    else m[b.addr / 8 := Wrap(b.size * 2) + 1]
  }

  /** For a fair request they are the headers of the parts of the block. */
  lemma FairHeaders(m: seq<nat>, b: Span, required: nat)
    requires b.Aligned() && !b.used && b.size < 0x8000_0000 && b.End() < 0x8000_0000_0000_0000 && b.End() / 8 <= |m|
    requires required < WORD && required % 8 == 0 && b.size >= Asked(required) && Fair(b, required)
    ensures b.addr / 8 < |m| && (b.size >= Asked(required) + BREAK ==> (b.addr + Asked(required)) / 8 < |m|)
    ensures var c, need := Carve(b, Asked(required)), Asked(required);
      HeadersWritten(m, b, required) ==
        if b.size >= need + BREAK then m[(b.addr + need) / 8 := c[1].Header()][b.addr / 8 := c[0].Header()]
        else m[b.addr / 8 := c[0].Header()]
  {
  }

  /** For any other request the block is split all the same: its header becomes that of a used
      block of the wrapped size, the wrapped rest is written behind that size, where there
      is memory, and no other word changes. */
  lemma UnfairHeaders(m: seq<nat>, b: Span, required: nat)
    requires b.Aligned() && b.addr / 8 < |m| && required < WORD && required % 8 == 0 && !Fair(b, required)
    requires b.size < 0x8000_0000
    ensures var h, at := HeadersWritten(m, b, required), (b.addr + required) % 0x1_0000_0000_0000_0000;
      && |h| == |m| && h[b.addr / 8] % 2 == 1
      && forall w :: 0 <= w < |m| ==>
           h[w] == if w == b.addr / 8 then required * 2 % 0x1_0000_0000_0000_0000 + 1
                   else if w == at / 8 then (b.size - required) * 2 % 0x1_0000_0000_0000_0000
                   else m[w]
  {
    UnfairSplits(b, required);
    TwiceWrapped(b.size - required);
    WrapIs(required * 2);
    WrapIs(b.addr + required);
    hide Wrap, Fair, Span.Aligned;
    EvenWrap(required);
  }

  lemma WrapIs(x: int)
    ensures Wrap(x) == x % 0x1_0000_0000_0000_0000
  {
  }

  lemma TwiceWrapped(x: int)
    ensures Wrap(Wrap(x) * 2) == x * 2 % 0x1_0000_0000_0000_0000
  {
    var q := x / WORD;
    assert x * 2 == Wrap(x) * 2 + (2 * q) * WORD;
  }

  lemma UnfairSplits(b: Span, required: nat)
    requires b.Aligned() && required < WORD && required % 8 == 0 && !Fair(b, required) && b.size < 0x8000_0000
    ensures Wrap(b.size - required) >= BREAK
  {
  }

  lemma EvenWrap(r: nat)
    ensures Wrap(r * 2) % 2 == 0 && (Wrap(r * 2) + 1) % 2 == 1
  {
  }

  /** The memory words at the block addresses are the headers of the blocks. */
  ghost predicate Shows(m: seq<nat>, bs: seq<Span>) {
    forall i :: 0 <= i < |bs| ==> HeaderAt(m, bs[i])
  }

  predicate HeaderAt(m: seq<nat>, b: Span) {
    b.addr / 8 < |m| && m[b.addr / 8] == b.Header()
  }

  /** Writing the header of one block leaves those of blocks elsewhere. */
  lemma HeaderKept(m: seq<nat>, a: Span, b: Span, v: nat)
    requires a.Aligned() && b.Aligned() && a.addr != b.addr && a.addr / 8 < |m| && HeaderAt(m, b)
    ensures HeaderAt(m[a.addr / 8 := v], b)
  {
  }

  lemma ShowsMerged(m: seq<nat>, bs: seq<Span>, k: nat, lo: nat, hi: nat)
    requires Chain(bs, lo, hi) && Shows(m, bs) && k + 1 < |bs|
    ensures bs[k].addr / 8 < |m|
    ensures Shows(m[bs[k].addr / 8 := Merged(bs[k], bs[k + 1]).Header()], bs[..k] + [Merged(bs[k], bs[k + 1])] + bs[k + 2..])
  {
    hide HeaderAt, Chain, Span.Aligned;
    HeaderRange(m, bs[k]);
    var b := Merged(bs[k], bs[k + 1]);
    var m1 := m[bs[k].addr / 8 := b.Header()];
    HeaderWritten(m, b);
    forall i | 0 <= i < |bs| && i != k ensures HeaderAt(m1, bs[i]) {
      Elsewhere(bs, lo, hi, k, i);
      HeaderKept(m, bs[k], bs[i], b.Header());
    }
    var all := bs[..k] + [b] + bs[k + 2..];
    forall i | 0 <= i < |all| ensures HeaderAt(m1, all[i]) {
      if i < k { assert all[i] == bs[i]; } else if i > k { assert all[i] == bs[i + 1]; }
    }
  }

  lemma HeaderRange(m: seq<nat>, b: Span)
    requires HeaderAt(m, b)
    ensures b.addr / 8 < |m| && m[b.addr / 8] == b.Header()
  {
  }

  lemma HeaderWritten(m: seq<nat>, b: Span)
    requires b.addr / 8 < |m|
    ensures HeaderAt(m[b.addr / 8 := b.Header()], b)
  {
  }

  lemma Elsewhere(bs: seq<Span>, lo: nat, hi: nat, i: nat, j: nat)
    requires Chain(bs, lo, hi) && i < |bs| && j < |bs| && i != j
    ensures bs[i].addr != bs[j].addr && bs[i].Aligned() && bs[j].Aligned()
  {
    ChainBounds(bs, lo, hi, i);
    ChainBounds(bs, lo, hi, j);
    if i < j { ChainOrder(bs, lo, hi, i, j); } else { ChainOrder(bs, lo, hi, j, i); }
  }

  /** Rewriting one header for another block at the same address. */
  lemma ShowsReplaced(m: seq<nat>, bs: seq<Span>, k: nat, b: Span, lo: nat, hi: nat)
    requires Chain(bs, lo, hi) && Shows(m, bs) && k < |bs| && b.addr == bs[k].addr
    ensures bs[k].addr / 8 < |m| && Shows(m[bs[k].addr / 8 := b.Header()], bs[k := b])
  {
    hide HeaderAt, Chain, Span.Aligned;
    HeaderRange(m, bs[k]);
    HeaderWritten(m, b);
    forall i | 0 <= i < |bs| && i != k ensures HeaderAt(m[bs[k].addr / 8 := b.Header()], bs[i]) {
      Elsewhere(bs, lo, hi, k, i);
      HeaderKept(m, bs[k], bs[i], b.Header());
    }
  }

  /** Splitting writes the header of the rest, then that of the block taken. */
  lemma ShowsCarved(m: seq<nat>, bs: seq<Span>, k: nat, need: nat, lo: nat, hi: nat)
    requires Chain(bs, lo, hi) && Shows(m, bs) && k < |bs| && HEADER <= need && need % 8 == 0
    requires bs[k].size >= need + BREAK && hi / 8 <= |m|
    ensures bs[k].addr / 8 < |m| && (bs[k].addr + need) / 8 < |m|
    ensures var c := Carve(bs[k], need);
      Shows(m[c[1].addr / 8 := c[1].Header()][c[0].addr / 8 := c[0].Header()], bs[..k] + c + bs[k + 1..])
  {
    hide HeaderAt, Chain, Span.Aligned;
    var c := Carve(bs[k], need);
    var all := bs[..k] + c + bs[k + 1..];
    CarveChain(bs, k, need, lo, hi);
    assert all[k] == c[0] && all[k + 1] == c[1];
    ChainBounds(all, lo, hi, k);
    ChainBounds(all, lo, hi, k + 1);
    var m1 := m[c[1].addr / 8 := c[1].Header()];
    var m2 := m1[c[0].addr / 8 := c[0].Header()];
    HeaderWritten(m, c[1]);
    HeaderWritten(m1, c[0]);
    Elsewhere(all, lo, hi, k, k + 1);
    HeaderKept(m1, c[0], c[1], c[0].Header());
    forall i | 0 <= i < |all| ensures HeaderAt(m2, all[i]) {
      if i < k || i > k + 1 {
        assert all[i] == bs[if i < k then i else i - 1];
        Elsewhere(all, lo, hi, k, i);
        Elsewhere(all, lo, hi, k + 1, i);
        HeaderKept(m, c[1], all[i], c[1].Header());
        HeaderKept(m1, c[0], all[i], c[0].Header());
      }
    }
  }

  class SpMalloc {
    const first: nat
    const end: nat
    const mem: array<nat>
    ghost var blocks: seq<Span>

    ghost predicate InBank() {
      && first % 8 == 0 && end % 8 == 0 && first + HEADER <= end && end / 8 <= mem.Length
      && end - first < 0x8000_0000 && end < 0x8000_0000_0000_0000
    }

    /** Before the first call the heap is a zero word; from then on, a chain of blocks. */
    ghost predicate Valid()
      reads this, mem
    {
      && InBank()
      && if blocks == [] then mem[first / 8] == 0 else Chain(blocks, first, end) && Shows(mem[..], blocks)
    }

    /** The blocks the next request finds. */
    ghost function Opening(): seq<Span>
      reads this
      requires InBank()
    {
      if blocks == [] then [Span(first, end - first, false)] else blocks
    }

    /** Word `w` is outside the heap or inside a used block of `bs`. */
    ghost predicate Protected(bs: seq<Span>, w: nat) {
      8 * w < first || 8 * w >= end || exists i :: 0 <= i < |bs| && bs[i].used && bs[i].addr <= 8 * w < bs[i].End()
    }

    /** The first header word is zero only before the first call. */
    method InitAllocator()
      requires Valid()
      modifies this`blocks, mem
      ensures Valid() && blocks == old(Opening()) && blocks != []
      ensures forall w :: 0 <= w < mem.Length && Protected(blocks, w) ==> mem[w] == old(mem[w])
    {
      hide Span.Aligned;
      if mem[first / 8] == 0 {
        if blocks != [] { NonZero(); }
        mem[first / 8] := (end - first) * 2;
        blocks := [Span(first, end - first, false)];
        AlignedWhole(first, end);
      }
    }

    lemma NonZero()
      requires Valid() && blocks != []
      ensures mem[first / 8] != 0
    {
      assert HeaderAt(mem[..], blocks[0]);
    }

    /** The search: takes in block after block, merging free neighbours in their headers,
        until the block it stands on is free and passes the size test, or the bank ends. */
    method FindFreeBlock(required: nat, ghost need: nat) returns (cur: nat, found: bool, ghost n: nat)
      requires Valid() && blocks != [] && required < WORD && need == Asked(required)
      modifies this`blocks, mem
      ensures 0 < n <= |old(blocks)| && blocks == Coalesced(old(blocks)[..n]) + old(blocks)[n..]
      ensures Valid() && blocks != []
      ensures found ==> ShortestFit(old(blocks), n, need) && cur == Reached(old(blocks), n).addr
      ensures !found ==> n == |old(blocks)| && !Fit(old(blocks), need)
      ensures forall w :: 0 <= w < mem.Length && Protected(old(blocks), w) ==> mem[w] == old(mem[w])
    {
      hide Chain, Span.Aligned, Coalesced, Fit, Shows, Protected, Reached, Passes;
      ghost var O := blocks;
      cur, n, found := first, 1, false;
      Begin(O, need);
      while true
        invariant 0 < n <= |O| && InBank() && blocks == Coalesced(O[..n]) + O[n..] && cur == Reached(O, n).addr
        invariant Chain(blocks, first, end) && Shows(mem[..], blocks) && !Fit(O[..n - 1], need)
        invariant forall w :: 0 <= w < mem.Length && Protected(O, w) ==> mem[w] == old(mem[w])
        decreases |O| - n
      {
        ghost var b := Reached(O, n);
        CoalesceNoneIff(O[..n]);
        ReachedFits(O, n, need);
        AtHead(mem[..], O, n, first, end);
        var data := mem[cur / 8];
        var size, isAllocated := data / 2, data % 2;
        SizeInBank(O, n);
        PassesIff(size, required);
        if Passes(size, required) && isAllocated == 0 {
          found := true;
          return;
        }
        var next := size + cur;
        if next >= end {
          assert O[..n] == O;
          return;
        }
        cur := Coalesce(cur, size, isAllocated, O, n);
        n := n + 1;
      }
    }

    /** Steps over a used block, or over a free one before a used one; merges two free ones. */
    method Coalesce(at: nat, size: nat, isAllocated: nat, ghost O: seq<Span>, ghost n: nat) returns (cur: nat)
      requires InBank() && Chain(O, first, end) && 0 < n < |O| && blocks == Coalesced(O[..n]) + O[n..]
      requires Chain(blocks, first, end) && Shows(mem[..], blocks)
      requires at == Reached(O, n).addr && size == Reached(O, n).size && (isAllocated == 1 <==> Reached(O, n).used)
      modifies this`blocks, mem
      ensures blocks == Coalesced(O[..n + 1]) + O[n + 1..] && cur == Reached(O, n + 1).addr
      ensures Chain(blocks, first, end) && Shows(mem[..], blocks)
      ensures forall w :: 0 <= w < mem.Length && Protected(O, w) ==> mem[w] == old(mem[w])
    {
      hide Chain, Span.Aligned, Coalesced, Shows, Protected, Reached;
      AtHead(mem[..], O, n, first, end);
      var next := size + at;
      cur := next;
      if isAllocated == 1 {
        StepOver(O, n);
        return;
      }
      var nextHeader := mem[next / 8];
      if nextHeader % 2 == 1 {
        StepOver(O, n);
        return;
      }
      cur := at;
      MergeNext(at, size, nextHeader, O, n);
    }

    /** Splits the block found if enough is left over, and marks it used. */
    method AllocateBlock(cur: nat, required: nat, ghost O: seq<Span>, ghost n: nat) returns (ptr: nat)
      requires InBank() && Chain(O, first, end) && 0 < n <= |O| && blocks == Coalesced(O[..n]) + O[n..]
      requires Chain(blocks, first, end) && Shows(mem[..], blocks)
      requires !Reached(O, n).used && Reached(O, n).size >= Asked(required) && required < WORD && required % 8 == 0
      requires cur == Reached(O, n).addr
      modifies this`blocks, mem
      ensures ptr == Reached(O, n).addr + HEADER && blocks != []
      ensures Reached(O, n).addr / 8 < mem.Length && mem[..] == HeadersWritten(old(mem[..]), Reached(O, n), required)
      ensures Valid() <==> Fair(Reached(O, n), required)
      ensures blocks == if Fair(Reached(O, n), required) then Taken(O, n, Asked(required)) else old(blocks)
      ensures Fair(Reached(O, n), required) ==> forall w :: 0 <= w < mem.Length && Protected(O, w) ==> mem[w] == old(mem[w])
    {
      hide Chain, Span.Aligned, Coalesced, Shows, Protected, HeaderAt, Taken, HeadersWritten, Fair;
      ghost var b, k := Reached(O, n), |Coalesced(O[..n])| - 1;
      CoalesceNoneIff(O[..n]);
      SizeInBank(O, n);
      ShowsAt(mem[..], blocks, k);
      HeaderRange(mem[..], b);
      ghost var m := mem[..];
      WriteHeaders(cur, required, b);
      if Fair(b, required) {
        FairHeaders(m, b, required);
        Granting(m, O, n, Asked(required));
        blocks := Taken(O, n, Asked(required));
      } else {
        UnfairHeaders(m, b, required);
        WrongHeader(mem[..], blocks, k);
      }
      ptr := cur + HEADER;
    }

    /** The words written by a fair request show the list with the block taken, and none of
        them is in use. */
    lemma Granting(m: seq<nat>, O: seq<Span>, n: nat, need: nat)
      requires InBank() && Chain(O, first, end) && 0 < n <= |O| && |m| == mem.Length
      requires Chain(Coalesced(O[..n]) + O[n..], first, end) && Shows(m, Coalesced(O[..n]) + O[n..])
      requires !Reached(O, n).used && Reached(O, n).size >= need >= HEADER && need % 8 == 0
      ensures Taken(O, n, need) != [] && Chain(Taken(O, n, need), first, end)
      ensures var b, c := Reached(O, n), Carve(Reached(O, n), need);
        b.addr / 8 < |m| && !Protected(O, b.addr / 8) &&
        (b.size < need + BREAK ==> Shows(m[b.addr / 8 := c[0].Header()], Taken(O, n, need))) &&
        (b.size >= need + BREAK ==>
          (b.addr + need) / 8 < |m| && !Protected(O, (b.addr + need) / 8) &&
          Shows(m[(b.addr + need) / 8 := c[1].Header()][b.addr / 8 := c[0].Header()], Taken(O, n, need)))
    {
      hide Chain, Span.Aligned, Coalesced, Shows, Protected, HeaderAt, Taken;
      var bs, b, k := Coalesced(O[..n]) + O[n..], Reached(O, n), |Coalesced(O[..n])| - 1;
      CoalesceNoneIff(O[..n]);
      TakenParts(O, n, need);
      SizeInBank(O, n);
      AlignedParts(b);
      CarveChain(bs, k, need, first, end);
      WordOf(O, n, b.addr);
      if b.size >= need + BREAK {
        ShowsCarved(m, bs, k, need, first, end);
        WordOf(O, n, b.addr + need);
      } else {
        ShowsReplaced(m, bs, k, Carve(b, need)[0], first, end);
      }
    }

    /** The words written, in 64-bit registers. */
    method WriteHeaders(cur: nat, required: nat, ghost b: Span)
      requires cur / 8 < mem.Length && mem[cur / 8] / 2 == b.size && cur == b.addr
      modifies mem
      ensures mem[..] == HeadersWritten(old(mem[..]), b, required)
    {
      hide Wrap;
      var size := mem[cur / 8] / 2;
      var remaining := Wrap(size - required);
      if remaining >= BREAK {
        size := required;
        Store(Wrap(cur + size), Wrap(remaining * 2));
      }
      mem[cur / 8] := Wrap(size * 2) + 1;
    }

    method Store(at: nat, v: nat)
      modifies mem
      ensures mem[..] == Stored(old(mem[..]), at, v)
    {
      if at / 8 < mem.Length {
        mem[at / 8] := v;
      }
    }

    /** `sp_malloc`: a pointer to the payload, or 0.  It is granted from the first run of free
        blocks that passes the size test; unless the register holds a size that the block can
        be marked with, the headers are wrong afterwards, and the words written are stated. */
    method Malloc(words: nat) returns (ptr: nat)
      requires Valid() && words < WORD
      modifies this`blocks, mem
      ensures words == 0 ==> ptr == 0 && Valid() && blocks == old(Opening())
      ensures words > 0 ==> (ptr == 0 <==> !Fit(old(Opening()), Asked(Required(words))))
      ensures words > 0 && ptr == 0 ==> Valid() && blocks == Coalesced(old(Opening()))
      ensures blocks != [] && (Sized(words) ==> Valid())
      ensures ptr != 0 ==>
        if Valid() then exists n :: Granted(old(Opening()), n, Asked(Required(words)), ptr, blocks) && Fair(Reached(old(Opening()), n), Required(words))
        else exists n :: Misgranted(old(Opening()), n, Required(words), ptr, blocks, mem[..])
      ensures Valid() ==> forall w :: 0 <= w < mem.Length && Protected(old(Opening()), w) ==> mem[w] == old(mem[w])
    {
      hide Chain, Coalesced, Shows, Protected, Fit, Opening, Reached, Wrap, HeadersWritten;
      RequiredIff(words);
      InitAllocator();
      ghost var O := blocks;
      if words == 0 {
        return 0;
      }
      var required := Wrap(Wrap(words + 1) * 8);
      ghost var need := Asked(required);
      var cur, found, n := FindFreeBlock(required, need);
      assert Chain(O, first, end);
      if !found {
        assert O[..n] == O;
        return 0;
      }
      ReachedFits(O, n, need);
      FitGrows(O, n, need);
      ghost var m := mem[..];
      assert Shows(m, blocks);
      ptr := AllocateBlock(cur, required, O, n);
      if Fair(Reached(O, n), required) {
        assert Granted(O, n, need, ptr, blocks);
      } else {
        assert Misgranted(O, n, required, ptr, blocks, mem[..]);
      }
    }

    /** `sp_free` of a live pointer clears the allocation bit of its header. */
    method Free(ptr: nat, ghost k: nat)
      requires Valid() && k < |blocks| && blocks[k].used && ptr == blocks[k].addr + HEADER
      modifies this`blocks, mem
      ensures Valid() && blocks == old(blocks)[k := old(blocks)[k].(used := false)]
      ensures forall w :: 0 <= w < mem.Length && w != (ptr - HEADER) / 8 ==> mem[w] == old(mem[w])
    {
      hide Chain, Shows, And;
      ghost var b, m := blocks[k].(used := false), mem[..];
      ChainBounds(blocks, first, end, k);
      ShowsAt(mem[..], blocks, k);
      ShowsReplaced(m, blocks, k, b, first, end);
      FreedChain(blocks, k, first, end);
      var header := mem[(ptr - HEADER) / 8];
      ClearBit(header);
      mem[(ptr - HEADER) / 8] := And(header, 0xFFFF_FFFE);
      assert mem[..] == m[b.addr / 8 := b.Header()];
      blocks := blocks[k := b];
    }

    /** Both blocks are free: the first takes in the second. */
    method MergeNext(cur: nat, size: nat, nextHeader: nat, ghost O: seq<Span>, ghost n: nat)
      requires InBank() && Chain(O, first, end) && 0 < n < |O| && blocks == Coalesced(O[..n]) + O[n..]
      requires Chain(blocks, first, end) && Shows(mem[..], blocks)
      requires !Reached(O, n).used && !O[n].used && cur == Reached(O, n).addr && size == Reached(O, n).size
      requires nextHeader == O[n].Header() && cur / 8 < mem.Length
      modifies this`blocks, mem
      ensures blocks == Coalesced(O[..n + 1]) + O[n + 1..] && Reached(O, n + 1).addr == cur
      ensures Chain(blocks, first, end) && Shows(mem[..], blocks)
      ensures forall w :: 0 <= w < mem.Length && Protected(O, w) ==> mem[w] == old(mem[w])
    {
      hide Chain, Span.Aligned, Coalesced, Shows, Protected;
      ghost var k := |Coalesced(O[..n])| - 1;
      CoalesceNoneIff(O[..n]);
      ghost var b, m := Merged(Reached(O, n), O[n]), mem[..];
      ShowsMerged(m, blocks, k, first, end);
      MergeChain(blocks, k, first, end);
      Merges(O, n);
      ReachedChain(O, n, first, end);
      AlignedParts(Reached(O, n));
      WordOf(O, n, cur);
      mem[cur / 8] := (nextHeader / 2 + size) * 2;
      assert mem[..] == m[cur / 8 := b.Header()];
      blocks := blocks[..k] + [Merged(blocks[k], blocks[k + 1])] + blocks[k + 2..];
    }

    lemma SizeInBank(O: seq<Span>, n: nat)
      requires InBank() && Chain(O, first, end) && 0 < n <= |O|
      ensures var b := Reached(O, n); b.Aligned() && HEADER <= b.size < 0x8000_0000 && b.End() <= end
    {
      hide Chain, Reached;
      ReachedChain(O, n, first, end);
    }

    lemma Begin(O: seq<Span>, need: nat)
      requires Chain(O, first, end) && need > 0
      ensures Coalesced(O[..1]) + O[1..] == O && Reached(O, 1).addr == first && !Fit(O[..0], need)
    {
      hide Coalesced, Total;
      CoalesceStep(O, 0);
      CoalesceNone(O);
    }

    lemma WordOf(O: seq<Span>, n: nat, at: nat)
      requires Chain(O, first, end) && 0 < n <= |O| && !Reached(O, n).used && at % 8 == 0
      requires Reached(O, n).addr <= at < Reached(O, n).End()
      ensures !Protected(O, at / 8)
    {
      hide Chain, Coalesced;
      ReachedChain(O, n, first, end);
      forall i | 0 <= i < |O| && O[i].used ensures !(O[i].addr <= at < O[i].End()) {
        ReachedIsFree(O, n, first, end, i);
      }
    }
  }

  /** The outcome of a successful request for `need` bytes: it is granted at the start of the
      block reached after the shortest part of the list in which a run fits. */
  ghost predicate Granted(O: seq<Span>, n: nat, need: nat, ptr: nat, after: seq<Span>) {
    ShortestFit(O, n, need) && Reached(O, n).size >= need && ptr == Reached(O, n).addr + HEADER && after == Taken(O, n, need)
  }

  /** The outcome of any other request that passes the size test: the headers of `after`, in
      which the block reached is still free, are overwritten. */
  ghost predicate Misgranted(O: seq<Span>, n: nat, required: nat, ptr: nat, after: seq<Span>, m: seq<nat>) {
    && ShortestFit(O, n, Asked(required)) && !Fair(Reached(O, n), required)
    && ptr == Reached(O, n).addr + HEADER && after == Coalesced(O[..n]) + O[n..]
    && exists m0 :: Shows(m0, after) && Reached(O, n).addr / 8 < |m0| && m == HeadersWritten(m0, Reached(O, n), required)
  }

  /** A used header where the list has a free block. */
  lemma WrongHeader(m: seq<nat>, bs: seq<Span>, k: nat)
    requires k < |bs| && !bs[k].used && bs[k].addr / 8 < |m| && m[bs[k].addr / 8] % 2 == 1
    ensures !Shows(m, bs)
  {
    assert !HeaderAt(m, bs[k]);
  }

  /** The list after a grant: the block reached gives way to its parts. */
  lemma TakenParts(O: seq<Span>, n: nat, need: nat)
    requires 0 < n <= |O| && Reached(O, n).size >= need
    ensures Coalesced(O[..n]) != []
    ensures var bs, k, c := Coalesced(O[..n]) + O[n..], |Coalesced(O[..n])| - 1, Carve(Reached(O, n), need);
      bs[k] == Reached(O, n) && bs[..k] + c + bs[k + 1..] == Taken(O, n, need) && (|c| == 1 ==> bs[k := c[0]] == Taken(O, n, need))
  {
    hide Coalesced;
    CoalesceNoneIff(O[..n]);
  }

  lemma FreedChain(bs: seq<Span>, k: nat, lo: nat, hi: nat)
    requires Chain(bs, lo, hi) && k < |bs|
    ensures Chain(bs[k := bs[k].(used := false)], lo, hi)
  {
    var all := bs[k := bs[k].(used := false)];
    forall i, j | 0 <= i < j < |all| && j == i + 1 ensures Adjoin(all[i], all[j]) {
      assert Adjoin(bs[i], bs[j]);
    }
  }

  /** The mask of `free` clears bit 0 of headers below 2^32. */
  lemma ClearBit(h: nat)
    requires h < 0x1_0000_0000
    ensures And(h, 0xFFFF_FFFE) == h - h % 2
  {
    hide And, Low, Down;
    Pow2Of31();
    AndHigh(h, Pow2(31) - 1, 1);
    OneUp(Pow2(31) - 1);
    OneUp(h / 2);
    AndLow(h / 2, 31);
    LowSmall(h / 2, 31);
    OneDown(h);
  }

  lemma Pow2Of31()
    ensures Pow2(31) == 0x8000_0000
  {
    hide Pow2;
    SmallPowers();
    Pow2Add(8, 8);
    Pow2Add(16, 8);
    Pow2Add(24, 7);
  }

  lemma OneUp(a: nat)
    ensures Up(a, 1) == 2 * a
  {
  }

  lemma OneDown(a: nat)
    ensures Down(a, 1) == a / 2
  {
  }

  lemma AlignedParts(b: Span)
    requires b.Aligned()
    ensures b.addr % 8 == 0 && b.size % 8 == 0 && b.size >= HEADER
  {
  }

  /** What the headers tell at the block reached and at the next one. */
  lemma AtHead(m: seq<nat>, O: seq<Span>, n: nat, lo: nat, hi: nat)
    requires Chain(O, lo, hi) && 0 < n <= |O| && Shows(m, Coalesced(O[..n]) + O[n..])
    ensures var b := Reached(O, n);
      b.addr / 8 < |m| && m[b.addr / 8] / 2 == b.size && (m[b.addr / 8] % 2 == 0 <==> !b.used) && m[b.addr / 8] % 2 <= 1
    ensures n == |O| <==> Reached(O, n).End() >= hi
    ensures n < |O| ==> O[n].addr == Reached(O, n).End() && O[n].addr / 8 < |m| && m[O[n].addr / 8] == O[n].Header()
  {
    hide Chain, Coalesced, Span.Aligned;
    var all, k := Coalesced(O[..n]) + O[n..], |Coalesced(O[..n])| - 1;
    CoalesceNoneIff(O[..n]);
    ReachedChain(O, n, lo, hi);
    assert all[k] == Reached(O, n) && HeaderAt(m, all[k]);
    if n < |O| { assert all[k + 1] == O[n] && HeaderAt(m, all[k + 1]); }
  }

  lemma ShowsAt(m: seq<nat>, bs: seq<Span>, k: nat)
    requires Shows(m, bs) && k < |bs|
    ensures HeaderAt(m, bs[k])
  {
  }

  lemma StepOver(O: seq<Span>, n: nat)
    requires 0 < n < |O| && (Reached(O, n).used || O[n].used)
    ensures Coalesced(O[..n + 1]) + O[n + 1..] == Coalesced(O[..n]) + O[n..]
    ensures Reached(O, n + 1) == O[n]
  {
    hide Coalesced;
    CoalesceStep(O, n);
  }

  lemma Merges(O: seq<Span>, n: nat)
    requires 0 < n < |O| && !Reached(O, n).used && !O[n].used
    ensures var before := Coalesced(O[..n]) + O[n..];
      var k := |Coalesced(O[..n])| - 1;
      k >= 0 && k + 1 < |before| &&
      Coalesced(O[..n + 1]) + O[n + 1..] == before[..k] + [Merged(before[k], before[k + 1])] + before[k + 2..]
    ensures Reached(O, n + 1).addr == Reached(O, n).addr
  {
    hide Coalesced;
    CoalesceStep(O, n);
    CoalesceNoneIff(O[..n]);
  }

  lemma AlignedWhole(lo: nat, hi: nat)
    requires lo % 8 == 0 && hi % 8 == 0 && lo + HEADER <= hi
    ensures Span(lo, hi - lo, false).Aligned()
  {
  }

  lemma {:induction false} UsedAppend(a: seq<Span>, b: seq<Span>)
    ensures Used(a + b) == Used(a) + Used(b)
  {
    if b != [] {
      var n := |b| - 1;
      UsedAppend(a, b[..n]);
      assert (a + b)[..|a| + n] == a + b[..n];
    } else {
      assert a + b == a;
    }
  }

  /** A granted request adds one used block and keeps every other one as it is. */
  lemma GrantKeepsUsed(O: seq<Span>, n: nat, need: nat, ptr: nat, after: seq<Span>)
    requires Granted(O, n, need, ptr, after)
    ensures var c := Carve(Reached(O, n), need)[0];
      c.used && ptr == c.addr + 8 && c.addr == Reached(O, n).addr
      && c.size == (if Reached(O, n).size >= need + 16 then need else Reached(O, n).size) >= need && Used(after) == Used(O[..n]) + [c] + Used(O[n..])
    ensures Used(O) == Used(O[..n]) + Used(O[n..])
  {
    hide Used, Coalesced, Fit;
    ReachedFits(O, n, need);
    CoalesceNoneIff(O[..n]);
    var done := Coalesced(O[..n]);
    var k := |done| - 1;
    var c := Carve(done[k], need);
    assert done == done[..k] + [done[k]] && O == O[..n] + O[n..];
    UsedAppend(O[..n], O[n..]);
    UsedAppend(done[..k], [done[k]]);
    UsedAppend(done[..k] + c, O[n..]);
    UsedAppend(done[..k], c);
    CoalescedKeepsUsed(O[..n]);
    UsedCarved(done[k], need);
  }

  /** For every request: the free run it is granted from holds the words asked for exactly
      when they are below 2^60 - 1. */
  lemma GrantHoldsIff(O: seq<Span>, n: nat, words: nat, lo: nat, hi: nat)
    requires Chain(O, lo, hi) && hi - lo < 0x8000_0000_0000_0000 && words < WORD && ShortestFit(O, n, Asked(Required(words)))
    ensures !Reached(O, n).used && Passes(Reached(O, n).size, Required(words))
    ensures Reached(O, n).size >= Need(words) <==> words + 1 < 0x1000_0000_0000_0000
  {
    hide Chain, Fit, Reached, Required, Passes;
    ReachedFits(O, n, Asked(Required(words)));
    ReachedChain(O, n, lo, hi);
    RequiredIff(words);
    PassesIff(Reached(O, n).size, Required(words));
    PassesHolds(Reached(O, n).size, words);
  }

  /** 2^60 words: every list with a free block grants them, and no block can be marked with
      their size. */
  lemma HugeGranted(O: seq<Span>, lo: nat, hi: nat)
    requires Chain(O, lo, hi)
    ensures Required(0x1000_0000_0000_0000) == 0x8000_0000_0000_0008 && Asked(Required(0x1000_0000_0000_0000)) == HEADER
    ensures forall b :: b in O ==> !Fair(b, Required(0x1000_0000_0000_0000))
    ensures Fit(O, HEADER) <==> exists i :: 0 <= i < |O| && !O[i].used
  {
    if i :| 0 <= i < |O| && !O[i].used {
      assert O[i..i + 1] == [O[i]] && [O[i]][..0] == [];
      assert Total([O[i]]) == O[i].size && AllFree(O, i, i + 1);
    }
    if Fit(O, HEADER) {
      var a, b :| 0 <= a < b <= |O| && AllFree(O, a, b) && Total(O[a..b]) >= HEADER;
      assert !O[a].used;
    }
  }

  lemma UsedCarved(b: Span, need: nat)
    requires b.size >= need && !b.used
    ensures Used([b]) == [] && Used(Carve(b, need)) == [Carve(b, need)[0]]
  {
    var c := Carve(b, need);
    assert [b][..0] == [] && c[..1] == [c[0]] && [c[0]][..0] == [];
    assert Used([c[0]]) == Used([]) + [c[0]];
  }

  /** The first free block with `need` bytes. */
  ghost predicate FirstFit(bs: seq<Span>, t: nat, need: nat) {
    && t < |bs| && !bs[t].used && bs[t].size >= need
    && forall i :: 0 <= i < t ==> bs[i].used || bs[i].size < need
  }

  /** The block that the simulator takes: block 0 when nothing fits. */
  ghost predicate Selected(bs: seq<Span>, t: nat, need: nat) {
    FirstFit(bs, t, need) || (!HasFree(bs, need) && t == 0 && bs != [])
  }

  /** The reference simulator (updown/libraries/SpMalloc/heap_simulator.py). */
  class ImplicitFreeListAllocator {
    var blocks: seq<Span>

    constructor (size: nat, initAddress: nat)
      requires initAddress <= size
      ensures blocks == [Span(initAddress, size - initAddress, false)]
    {
      blocks := [Span(initAddress, size - initAddress, false)];
    }

    /** First fit; block 0, whatever it is, when nothing fits. */
    method Alloc(words: nat) returns (ptr: nat)
      requires blocks != []
      modifies this
      ensures words == 0 ==> ptr == 0 && blocks == old(blocks)
      ensures words > 0 ==>
        exists t: nat :: Selected(old(blocks), t, Need(words)) && ptr == old(blocks)[t].addr + HEADER &&
          blocks == old(blocks)[..t] + Carve(old(blocks)[t], Need(words)) + old(blocks)[t + 1..]
    {
      if words == 0 {
        return 0;
      }
      var allocSize := Need(words);
      var target := 0;
      var i := 0;
      while i < |blocks|
        invariant 0 <= i <= |blocks| && target == 0
        invariant forall j :: 0 <= j < i ==> blocks[j].used || blocks[j].size < allocSize
      {
        if !blocks[i].used && blocks[i].size >= allocSize {
          target := i;
          break;
        }
        i := i + 1;
      }
      ghost var O := blocks;
      var b := blocks[target];
      var remaining: int := b.size - allocSize;
      if remaining >= 2 * 8 {
        blocks := blocks[..target + 1] + [Span(b.addr + allocSize, remaining, false)] + blocks[target + 1..];
      } else {
        allocSize := b.size;
      }
      blocks := blocks[target := Span(b.addr, allocSize, true)];
      ptr := b.addr + HEADER;
      assert Selected(O, target, Need(words));
      assert blocks == O[..target] + Carve(b, Need(words)) + O[target + 1..];
    }

    method Free(addr: nat) returns (successful: bool)
      requires addr >= HEADER
      modifies this
      ensures |blocks| == |old(blocks)|
      ensures forall i :: 0 <= i < |blocks| ==>
        blocks[i] == if old(blocks)[i].addr == addr - HEADER then old(blocks)[i].(used := false) else old(blocks)[i]
      ensures successful <==> exists i :: 0 <= i < |blocks| && blocks[i].addr == addr - HEADER
    {
      successful := false;
      var i := 0;
      while i < |blocks|
        invariant 0 <= i <= |blocks| == |old(blocks)|
        invariant forall j :: i <= j < |blocks| ==> blocks[j] == old(blocks)[j]
        invariant forall j :: 0 <= j < i ==>
          blocks[j] == if old(blocks)[j].addr == addr - HEADER then old(blocks)[j].(used := false) else old(blocks)[j]
        invariant successful <==> exists j :: 0 <= j < i && blocks[j].addr == addr - HEADER
      {
        if blocks[i].addr == addr - HEADER {
          blocks := blocks[i := blocks[i].(used := false)];
          successful := true;
        }
        i := i + 1;
      }
    }
  }

  /** The simulator hands out free memory that is large enough exactly when some block is. */
  lemma SelectedFitsIff(bs: seq<Span>, t: nat, need: nat)
    requires Selected(bs, t, need)
    ensures !bs[t].used && bs[t].size >= need <==> HasFree(bs, need)
  {
  }

  /** Freeing in both: the same block of the same list. */
  lemma FreeRefines(O: seq<Span>, lo: nat, hi: nat, k: nat, simulated: seq<Span>)
    requires Chain(O, lo, hi) && k < |O| && |simulated| == |O|
    requires forall i :: 0 <= i < |O| ==> simulated[i] == if O[i].addr == O[k].addr then O[i].(used := false) else O[i]
    ensures simulated == O[k := O[k].(used := false)]
  {
    forall i | 0 <= i < |O| && i != k ensures O[i].addr != O[k].addr {
      Elsewhere(O, lo, hi, i, k);
    }
  }

  /** On heaps without adjacent free blocks the emitted program grants what its simulator
      grants, at the same address, and leaves the same blocks. */
  lemma Refines(O: seq<Span>, n: nat, need: nat, ptr: nat, after: seq<Span>, t: nat)
    requires NoPairs(O) && Granted(O, n, need, ptr, after) && FirstFit(O, t, need)
    ensures ptr == O[t].addr + HEADER && after == O[..t] + Carve(O[t], need) + O[t + 1..]
  {
    hide Coalesced, Fit;
    ReachedFits(O, n, need);
    FitIff(O[..n - 1], need);
    PrefixSame(O, n);
    PrefixSame(O, n - 1);
    forall i | 0 <= i < n - 1 ensures O[..n - 1][i] == O[i] { }
    assert O[..n][..n - 1] == O[..n - 1];
  }

  lemma PrefixSame(O: seq<Span>, n: nat)
    requires NoPairs(O) && n <= |O|
    ensures Coalesced(O[..n]) == O[..n]
  {
    CoalescedSame(O[..n]);
  }

  /** ... and it grants whenever the simulator finds a fitting block. */
  lemma RefinesSuccess(O: seq<Span>, need: nat)
    requires NoPairs(O)
    ensures Fit(O, need) <==> HasFree(O, need)
  {
    FitIff(O, need);
    CoalescedSame(O);
  }
}
