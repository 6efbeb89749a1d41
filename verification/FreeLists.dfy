/** Implicit free lists: the blocks that tile a heap, and what a first-fit search with lazy
    forward coalescing makes of them (updown/libraries/SpMalloc/SpMalloc.py:139-252). */
module FreeLists {

  const HEADER: nat := 8
  /** What is left over is split off if it has at least two words. */
  const BREAK: nat := 16

  /** A block with its header: `size` bytes from `addr` on. */
  datatype Span = Span(addr: nat, size: nat, used: bool)
  {
    function End(): nat { addr + size }

    /** Whole words, at least one. */
    predicate Aligned() { addr % 8 == 0 && size % 8 == 0 && size >= HEADER }

    /** The header word: size and allocation bit. */
    function Header(): nat { 2 * size + if used then 1 else 0 }
  }

  predicate Adjoin(a: Span, b: Span) { a.End() == b.addr }

  /** The blocks lie end to end from `lo` to `hi`, word by word. */
  ghost predicate Chain(bs: seq<Span>, lo: nat, hi: nat) {
    && bs != [] && bs[0].addr == lo && bs[|bs| - 1].End() == hi
    && (forall i :: 0 <= i < |bs| ==> bs[i].Aligned())
    && forall i, j :: 0 <= i < j < |bs| && j == i + 1 ==> Adjoin(bs[i], bs[j])
  }

  function Merged(a: Span, b: Span): Span { Span(a.addr, a.size + b.size, false) }

  /** Every run of adjacent free blocks made one, from the left. */
  function Coalesced(bs: seq<Span>): seq<Span> {
    if bs == [] then []
    else
      var done, next := Coalesced(bs[..|bs| - 1]), bs[|bs| - 1];
      if done != [] && !done[|done| - 1].used && !next.used
      then done[..|done| - 1] + [Merged(done[|done| - 1], next)]
      else done + [next]
  }

  ghost predicate AllFree(bs: seq<Span>, a: nat, b: nat)
    requires a <= b <= |bs|
  {
    forall i :: a <= i < b ==> !bs[i].used
  }

  function Total(bs: seq<Span>): nat {
    if bs == [] then 0 else Total(bs[..|bs| - 1]) + bs[|bs| - 1].size
  }

  /** Some run of adjacent free blocks has `n` bytes. */
  ghost predicate Fit(bs: seq<Span>, n: nat) {
    exists a, b :: 0 <= a < b <= |bs| && AllFree(bs, a, b) && Total(bs[a..b]) >= n
  }

  /** Some free block has `n` bytes. */
  ghost predicate HasFree(bs: seq<Span>, n: nat) {
    exists i :: 0 <= i < |bs| && !bs[i].used && bs[i].size >= n
  }

  /** No two adjacent blocks are free. */
  ghost predicate NoPairs(bs: seq<Span>) {
    forall i :: 0 < i < |bs| ==> bs[i - 1].used || bs[i].used
  }

  /** One more block, as the loop of the search takes it in. */
  lemma CoalesceStep(bs: seq<Span>, n: nat)
    requires n < |bs|
    ensures var done, next := Coalesced(bs[..n]), bs[n];
      Coalesced(bs[..n + 1]) ==
        if done != [] && !done[|done| - 1].used && !next.used
        then done[..|done| - 1] + [Merged(done[|done| - 1], next)]
        else done + [next]
  {
    assert bs[..n + 1][..n] == bs[..n];
  }

  lemma {:induction false} CoalescedChain(bs: seq<Span>, n: nat, lo: nat, hi: nat)
    requires Chain(bs, lo, hi) && 0 < n <= |bs|
    ensures Chain(Coalesced(bs[..n]) + bs[n..], lo, hi)
    ensures Coalesced(bs[..n]) != []
  {
    hide Coalesced, Chain;
    CoalesceStep(bs, n - 1);
    if n == 1 {
      CoalesceNone(bs);
      assert Coalesced(bs[..1]) + bs[1..] == bs;
    } else {
      CoalescedChain(bs, n - 1, lo, hi);
      Advance(bs, n - 1, lo, hi);
    }
  }

  lemma Advance(bs: seq<Span>, n: nat, lo: nat, hi: nat)
    requires 0 < n < |bs| && Coalesced(bs[..n]) != [] && Chain(Coalesced(bs[..n]) + bs[n..], lo, hi)
    ensures Coalesced(bs[..n + 1]) != [] && Chain(Coalesced(bs[..n + 1]) + bs[n + 1..], lo, hi)
  {
    hide Coalesced, Chain;
    CoalesceStep(bs, n);
    var done := Coalesced(bs[..n]);
    var before, after := done + bs[n..], Coalesced(bs[..n + 1]) + bs[n + 1..];
    if !done[|done| - 1].used && !bs[n].used {
      MergeChain(before, |done| - 1, lo, hi);
      assert after == before[..|done| - 1] + [Merged(before[|done| - 1], before[|done|])] + before[|done| + 1..];
    } else {
      assert after == before;
    }
  }

  lemma CoalesceNone(bs: seq<Span>)
    ensures Coalesced(bs[..0]) == []
  {
  }

  lemma MergeChain(bs: seq<Span>, k: nat, lo: nat, hi: nat)
    requires Chain(bs, lo, hi) && k + 1 < |bs|
    ensures Chain(bs[..k] + [Merged(bs[k], bs[k + 1])] + bs[k + 2..], lo, hi)
  {
    hide Span.Aligned;
    MergeAligned(bs[k], bs[k + 1]);
    assert Adjoin(bs[k], bs[k + 1]);
  }

  lemma MergeAligned(a: Span, b: Span)
    requires a.Aligned() && b.Aligned()
    ensures Merged(a, b).Aligned()
  {
  }

  /** Coalescing leaves no two adjacent free blocks. */
  lemma {:induction false} CoalescedNoPairs(bs: seq<Span>)
    ensures NoPairs(Coalesced(bs))
  {
    if bs != [] { CoalescedNoPairs(bs[..|bs| - 1]); }
  }

  /** ... and changes nothing where there are none. */
  lemma {:induction false} CoalescedSame(bs: seq<Span>)
    requires NoPairs(bs)
    ensures Coalesced(bs) == bs
  {
    if bs != [] {
      CoalescedSame(bs[..|bs| - 1]);
      assert bs == bs[..|bs| - 1] + [bs[|bs| - 1]];
    }
  }

  /** Coalescing keeps the used blocks, in their order. */
  function Used(bs: seq<Span>): seq<Span> {
    if bs == [] then [] else Used(bs[..|bs| - 1]) + if bs[|bs| - 1].used then [bs[|bs| - 1]] else []
  }

  lemma {:induction false} CoalescedKeepsUsed(bs: seq<Span>)
    ensures Used(Coalesced(bs)) == Used(bs)
  {
    if bs != [] {
      CoalescedKeepsUsed(bs[..|bs| - 1]);
      var done, all := Coalesced(bs[..|bs| - 1]), Coalesced(bs);
      assert all[..|all| - 1] == if |all| == |done| then done[..|done| - 1] else done;
    }
  }

  /** The last free block of the coalesced list has the bytes of the run that ends there. */
  lemma {:induction false} LastRun(bs: seq<Span>) returns (a: nat)
    requires bs != [] && !bs[|bs| - 1].used
    ensures a < |bs| && AllFree(bs, a, |bs|) && (a == 0 || bs[a - 1].used)
    ensures var done := Coalesced(bs); done != [] && !done[|done| - 1].used && done[|done| - 1].size == Total(bs[a..])
    ensures Coalesced(bs)[|Coalesced(bs)| - 1].addr == bs[a].addr
  {
    hide Coalesced, Total;
    var n := |bs| - 1;
    var rest := bs[..n];
    assert bs[..n + 1] == bs;
    CoalesceStep(bs, n);
    CoalesceNoneIff(rest);
    if n > 0 && !bs[n - 1].used {
      a := LastRun(rest);
      TotalStep(bs, a);
      assert AllFree(rest, a, n);
    } else {
      a := n;
      TotalStep(bs, n);
      assert rest[n..] == [];
      TotalNone();
      if n > 0 { LastUsed(rest); }
    }
  }

  /** The total of a tail is that of the tail without the last block, and the last block. */
  lemma TotalStep(bs: seq<Span>, a: nat)
    requires a < |bs|
    ensures Total(bs[a..]) == Total(bs[..|bs| - 1][a..]) + bs[|bs| - 1].size
  {
    var tail := bs[a..];
    assert tail[..|tail| - 1] == bs[..|bs| - 1][a..];
  }

  lemma CoalesceNoneIff(bs: seq<Span>)
    ensures Coalesced(bs) == [] <==> bs == []
  {
  }

  lemma LastUsed(bs: seq<Span>)
    requires bs != [] && bs[|bs| - 1].used
    ensures Coalesced(bs) != [] && Coalesced(bs)[|Coalesced(bs)| - 1] == bs[|bs| - 1]
  {
  }

  lemma TotalNone()
    ensures Total([]) == 0
  {
  }

  lemma {:induction false} TotalMonotone(bs: seq<Span>, a: nat, b: nat)
    requires a <= b <= |bs|
    ensures Total(bs[b..]) <= Total(bs[a..])
  {
    hide Total;
    if b < |bs| {
      TotalStep(bs, a);
      TotalStep(bs, b);
      TotalMonotone(bs[..|bs| - 1], a, b);
    } else {
      TotalNone();
      assert bs[b..] == [];
    }
  }

  /** A run fits exactly when coalescing makes a free block that fits. */
  lemma {:induction false} FitIff(bs: seq<Span>, need: nat)
    ensures Fit(bs, need) <==> HasFree(Coalesced(bs), need)
  {
    hide Coalesced, Total, HasFree, Fit, FitAtEnd;
    if bs == [] {
      CoalesceNoneIff(bs);
      NoneFits(need);
    } else {
      var n := |bs| - 1;
      FitIff(bs[..n], need);
      FitLast(bs, need);
      FreeAtEnd(bs, need);
      if !bs[n].used {
        var a := LastRun(bs);
        RunAtEnd(bs, a, need);
      } else {
        UsedAtEnd(bs, need);
        LastUsed(bs);
      }
    }
  }

  lemma NoneFits(need: nat)
    ensures !Fit([], need) && !HasFree([], need)
  {
  }

  lemma UsedAtEnd(bs: seq<Span>, need: nat)
    requires bs != [] && bs[|bs| - 1].used
    ensures !FitAtEnd(bs, need)
  {
  }

  /** One more block makes one more free block that fits, or makes the last one fit. */
  lemma FreeAtEnd(bs: seq<Span>, need: nat)
    requires bs != []
    ensures var done := Coalesced(bs);
      done != [] && (HasFree(done, need) <==> HasFree(Coalesced(bs[..|bs| - 1]), need) || (!done[|done| - 1].used && done[|done| - 1].size >= need))
  {
    hide Coalesced, HasFree;
    var n := |bs| - 1;
    var before, done := Coalesced(bs[..n]), Coalesced(bs);
    assert bs[..n + 1] == bs;
    CoalesceStep(bs, n);
    HasFreeLast(done, need);
    if before != [] { HasFreeLast(before, need); }
    assert done[..|done| - 1] == if |done| == |before| then before[..|before| - 1] else before;
  }

  lemma HasFreeLast(bs: seq<Span>, need: nat)
    requires bs != []
    ensures var n := |bs| - 1; HasFree(bs, need) <==> HasFree(bs[..n], need) || (!bs[n].used && bs[n].size >= need)
  {
    var n := |bs| - 1;
    if HasFree(bs[..n], need) {
      var i :| 0 <= i < n && !bs[..n][i].used && bs[..n][i].size >= need;
      assert !bs[i].used;
    }
    if HasFree(bs, need) {
      var i :| 0 <= i < |bs| && !bs[i].used && bs[i].size >= need;
      if i < n { assert bs[..n][i] == bs[i]; }
    }
  }

  /** The last block is in a run that fits. */
  ghost predicate FitAtEnd(bs: seq<Span>, need: nat) {
    exists a :: 0 <= a < |bs| && AllFree(bs, a, |bs|) && Total(bs[a..]) >= need
  }

  lemma FitLast(bs: seq<Span>, need: nat)
    requires bs != []
    ensures Fit(bs, need) <==> Fit(bs[..|bs| - 1], need) || FitAtEnd(bs, need)
  {
    hide Total;
    var n := |bs| - 1;
    var rest := bs[..n];
    if Fit(rest, need) {
      var a, b :| 0 <= a < b <= n && AllFree(rest, a, b) && Total(rest[a..b]) >= need;
      assert rest[a..b] == bs[a..b];
      assert AllFree(bs, a, b);
    }
    if FitAtEnd(bs, need) {
      var a :| 0 <= a < |bs| && AllFree(bs, a, |bs|) && Total(bs[a..]) >= need;
      assert bs[a..|bs|] == bs[a..];
    }
    if Fit(bs, need) {
      var a, b :| 0 <= a < b <= |bs| && AllFree(bs, a, b) && Total(bs[a..b]) >= need;
      if b <= n {
        assert rest[a..b] == bs[a..b];
        assert AllFree(rest, a, b);
      } else {
        assert bs[a..b] == bs[a..];
      }
    }
  }

  /** Of the runs at the end, the maximal one is the longest. */
  lemma RunAtEnd(bs: seq<Span>, a: nat, need: nat)
    requires a < |bs| && AllFree(bs, a, |bs|) && (a == 0 || bs[a - 1].used)
    ensures FitAtEnd(bs, need) <==> Total(bs[a..]) >= need
  {
    hide Total;
    if FitAtEnd(bs, need) {
      var b :| 0 <= b < |bs| && AllFree(bs, b, |bs|) && Total(bs[b..]) >= need;
      TotalMonotone(bs, a, b);
    }
  }

  /** Blocks of a chain lie within its bounds and do not overlap. */
  lemma {:induction false} ChainOrder(bs: seq<Span>, lo: nat, hi: nat, i: nat, j: nat)
    requires Chain(bs, lo, hi) && i < j < |bs|
    ensures bs[i].End() <= bs[j].addr
  {
    hide Span.Aligned;
    assert Adjoin(bs[j - 1], bs[j]);
    if i < j - 1 { ChainOrder(bs, lo, hi, i, j - 1); }
  }

  lemma ChainBounds(bs: seq<Span>, lo: nat, hi: nat, i: nat)
    requires Chain(bs, lo, hi) && i < |bs|
    ensures lo <= bs[i].addr && bs[i].End() <= hi && bs[i].Aligned()
    ensures bs[i].addr / 8 < hi / 8 && bs[i].addr < hi
  {
    if i > 0 { ChainOrder(bs, lo, hi, 0, i); }
    if i < |bs| - 1 { ChainOrder(bs, lo, hi, i, |bs| - 1); }
  }

  /** Every word of the heap is in exactly one block: payloads are disjoint. */
  lemma BlocksDisjoint(bs: seq<Span>, lo: nat, hi: nat, i: nat, j: nat, at: nat)
    requires Chain(bs, lo, hi) && i < |bs| && j < |bs|
    requires bs[i].addr <= at < bs[i].End() && bs[j].addr <= at < bs[j].End()
    ensures i == j
  {
    if i < j { ChainOrder(bs, lo, hi, i, j); }
    if j < i { ChainOrder(bs, lo, hi, j, i); }
  }

  lemma {:induction false} BlocksCover(bs: seq<Span>, lo: nat, hi: nat, at: nat) returns (i: nat)
    requires Chain(bs, lo, hi) && lo <= at < hi
    ensures i < |bs| && bs[i].addr <= at < bs[i].End()
  {
    hide Span.Aligned;
    i := 0;
    while at >= bs[i].End()
      invariant i < |bs| && bs[i].addr <= at
      decreases |bs| - i
    {
      assert i + 1 < |bs| ==> Adjoin(bs[i], bs[i + 1]);
      i := i + 1;
    }
  }

  /** The shortest part of the list in which a run fits: as far as the search reads. */
  ghost predicate ShortestFit(bs: seq<Span>, n: nat, need: nat) {
    0 < n <= |bs| && Fit(bs[..n], need) && !Fit(bs[..n - 1], need)
  }

  /** A block taken for `need` bytes, and what is split off. */
  function Carve(b: Span, need: nat): seq<Span> {
    if b.size - need < BREAK then [Span(b.addr, b.size, true)]
    else [Span(b.addr, need, true), Span(b.addr + need, b.size - need, false)]
  }

  /** The block that the search settles on after reading `n` blocks. */
  function Reached(bs: seq<Span>, n: nat): Span
    requires 0 < n <= |bs|
  {
    CoalesceNoneIff(bs[..n]);
    Coalesced(bs[..n])[|Coalesced(bs[..n])| - 1]
  }

  /** The list after a successful allocation. */
  function Taken(bs: seq<Span>, n: nat, need: nat): seq<Span>
    requires 0 < n <= |bs| && Reached(bs, n).size >= need
  {
    CoalesceNoneIff(bs[..n]);
    Coalesced(bs[..n])[..|Coalesced(bs[..n])| - 1] + Carve(Reached(bs, n), need) + bs[n..]
  }

  /** After reading the shortest fitting part the search stands on a free block that fits. */
  lemma ReachedFits(bs: seq<Span>, n: nat, need: nat)
    requires 0 < n <= |bs| && !Fit(bs[..n - 1], need)
    ensures Fit(bs[..n], need) <==> !Reached(bs, n).used && Reached(bs, n).size >= need
  {
    hide Coalesced, Fit, HasFree;
    assert bs[..n][..n - 1] == bs[..n - 1];
    FitIff(bs[..n], need);
    FitIff(bs[..n - 1], need);
    FreeAtEnd(bs[..n], need);
  }

  /** Fitting is a matter of long enough a part of the list. */
  lemma {:induction false} FitGrows(bs: seq<Span>, n: nat, need: nat)
    requires n <= |bs| && Fit(bs[..n], need)
    ensures Fit(bs, need)
  {
    var a, b :| 0 <= a < b <= n && AllFree(bs[..n], a, b) && Total(bs[..n][a..b]) >= need;
    assert bs[..n][a..b] == bs[a..b];
    forall i | a <= i < b ensures !bs[i].used { assert bs[..n][i] == bs[i]; }
    assert AllFree(bs, a, b);
  }

  lemma ReachedChain(bs: seq<Span>, n: nat, lo: nat, hi: nat)
    requires Chain(bs, lo, hi) && 0 < n <= |bs|
    ensures Chain(Coalesced(bs[..n]) + bs[n..], lo, hi)
    ensures Reached(bs, n).Aligned() && lo <= Reached(bs, n).addr && Reached(bs, n).End() <= hi
    ensures n < |bs| ==> Reached(bs, n).End() == bs[n].addr < hi
    ensures n == |bs| ==> Reached(bs, n).End() == hi
  {
    hide Coalesced, Span.Aligned;
    CoalescedChain(bs, n, lo, hi);
    var all := Coalesced(bs[..n]) + bs[n..];
    var k := |Coalesced(bs[..n])| - 1;
    ChainBounds(all, lo, hi, k);
    assert all[k] == Reached(bs, n);
    if n < |bs| {
      assert all[k + 1] == bs[n] && Adjoin(all[k], all[k + 1]);
      ChainBounds(bs, lo, hi, n);
    }
  }

  /** The words of the free block reached belong to no used block. */
  lemma ReachedIsFree(bs: seq<Span>, n: nat, lo: nat, hi: nat, i: nat)
    requires Chain(bs, lo, hi) && 0 < n <= |bs| && !Reached(bs, n).used && i < |bs| && bs[i].used
    ensures bs[i].End() <= Reached(bs, n).addr || Reached(bs, n).End() <= bs[i].addr
  {
    hide Coalesced, Chain, Span.Aligned;
    ReachedChain(bs, n, lo, hi);
    if bs[n - 1].used {
      LastUsed(bs[..n]);
    } else {
      var a := LastRun(bs[..n]);
      if i < n { assert bs[..n][i] == bs[i]; }
      if i < a { ChainOrder(bs, lo, hi, i, a); }
      if i > n { ChainOrder(bs, lo, hi, n, i); ChainBounds(bs, lo, hi, n); }
    }
  }

  /** Carving a block of a chain leaves a chain. */
  lemma CarveChain(bs: seq<Span>, k: nat, need: nat, lo: nat, hi: nat)
    requires Chain(bs, lo, hi) && k < |bs| && HEADER <= need <= bs[k].size && need % 8 == 0
    ensures Chain(bs[..k] + Carve(bs[k], need) + bs[k + 1..], lo, hi)
  {
    hide Span.Aligned;
    CarveAligned(bs[k], need);
    var c := Carve(bs[k], need);
    var all := bs[..k] + c + bs[k + 1..];
    forall i | 0 <= i < |all| ensures all[i] == (if i < k then bs[i] else if i < k + |c| then c[i - k] else bs[i - |c| + 1]) { }
    forall i, j | 0 <= i < j < |all| && j == i + 1 ensures Adjoin(all[i], all[j]) {
      if j < k {
        assert Adjoin(bs[i], bs[j]);
      } else if j == k {
        assert Adjoin(bs[i], bs[j]);
      } else if i >= k + |c| - 1 {
        assert Adjoin(bs[i - |c| + 1], bs[j - |c| + 1]);
      }
    }
  }

  lemma CarveAligned(b: Span, need: nat)
    requires b.Aligned() && HEADER <= need <= b.size && need % 8 == 0
    ensures forall i :: 0 <= i < |Carve(b, need)| ==> Carve(b, need)[i].Aligned()
  {
  }
}
