/** The manager of the mapped memory: a map from addresses to regions, free or used
    (updown/runtime/include/updown.h:214-460).  The source keeps one map for local and one
    for global segments and does the same to either; this is one of them, in key order. */
module Regions {
  import opened Rects
  import opened Seqs

  datatype Region = Region(addr: nat, size: nat, free: bool)
  {
    function End(): nat { addr + size }

    /** Bytes to skip to reach an address that is a multiple of 8. */
    function Pad(): nat { if addr % 8 == 0 then 0 else 8 - addr % 8 }

    /** Can `get_region` cut `n` bytes out of the region? */
    predicate Fits(n: nat) { free && Pad() + n <= size }

    /** Are `n` bytes at a multiple of 8 in the region free? */
    ghost predicate HasAligned(n: nat) {
      free && exists q: nat :: q % 8 == 0 && addr <= q && q + n <= End()
    }

    lemma FitsIff(n: nat)
      ensures Fits(n) <==> HasAligned(n)
    {
      if Fits(n) { assert (addr + Pad()) % 8 == 0 && addr <= addr + Pad() && addr + Pad() + n <= End(); }
    }

    /** Does `get_region_at_addr` consider the region for `n` bytes at `a`? */
    predicate Offers(a: nat, n: nat) { addr <= a && free && n <= size }
  }

  datatype Pointer = Null | To(addr: nat)

  /** `regions[r.addr] = r` on a map kept in key order. */
  function Put(s: seq<Region>, r: Region): seq<Region> {
    if s == [] then [r]
    else if s[0].addr < r.addr then [s[0]] + Put(s[1..], r)
    else if s[0].addr == r.addr then [r] + s[1..]
    else [r] + s
  }

  ghost predicate Sorted(s: seq<Region>) {
    forall i, j :: 0 <= i < j < |s| ==> s[i].addr < s[j].addr
  }

  /** The regions lie end to end from `lo` to `hi`, none is empty, and free neighbours have
      been joined. */
  ghost predicate Tiled(s: seq<Region>, lo: nat, hi: nat) {
    && s != [] && s[0].addr == lo && s[|s| - 1].End() == hi
    && (forall i :: 0 <= i < |s| ==> s[i].size > 0)
    && (forall i :: 0 < i < |s| ==> s[i - 1].End() == s[i].addr)
    && forall i :: 0 < i < |s| ==> !(s[i - 1].free && s[i].free)
  }

  /** The regions handed out. */
  ghost function Used(s: seq<Region>): set<Region> {
    set r | r in s && !r.free
  }

  lemma {:induction false} TiledApart(s: seq<Region>, lo: nat, hi: nat, i: nat, j: nat)
    requires Tiled(s, lo, hi) && i < j < |s|
    ensures s[i].End() <= s[j].addr
    decreases j
  {
    if i < j - 1 { TiledApart(s, lo, hi, i, j - 1); }
  }

  lemma TiledFacts(s: seq<Region>, lo: nat, hi: nat)
    requires Tiled(s, lo, hi)
    ensures Sorted(s)
    ensures forall i :: 0 <= i < |s| ==> lo <= s[i].addr < s[i].End() <= hi
  {
    forall i, j | 0 <= i < j < |s| ensures s[i].addr < s[j].addr {
      TiledApart(s, lo, hi, i, j);
    }
    forall i | 0 <= i < |s| ensures lo <= s[i].addr < s[i].End() <= hi {
      if i > 0 { TiledApart(s, lo, hi, 0, i); }
      if i < |s| - 1 { TiledApart(s, lo, hi, i, |s| - 1); }
    }
  }

  lemma WithinArena(s: seq<Region>, lo: nat, hi: nat, i: nat)
    requires Tiled(s, lo, hi) && i < |s|
    ensures lo <= s[i].addr < s[i].End() <= hi
  {
    TiledFacts(s, lo, hi);
  }

  /** No two regions share a byte. */
  lemma NoOverlap(s: seq<Region>, lo: nat, hi: nat, x: Region, y: Region)
    requires Tiled(s, lo, hi) && x in s && y in s && x != y
    ensures x.End() <= y.addr || y.End() <= x.addr
  {
    var i: nat :| i < |s| && s[i] == x;
    var j: nat :| j < |s| && s[j] == y;
    if i < j { TiledApart(s, lo, hi, i, j); } else { TiledApart(s, lo, hi, j, i); }
  }

  lemma {:induction false} PutKeeps(s: seq<Region>, r: Region)
    ensures r in Put(s, r)
    ensures forall x :: x in s && x.addr != r.addr ==> x in Put(s, r)
  {
    if s != [] && s[0].addr < r.addr {
      PutKeeps(s[1..], r);
      forall x | x in s && x.addr != r.addr ensures x in Put(s, r) {
        assert x == s[0] || x in s[1..];
      }
    }
  }

  /** A new key goes between its neighbours. */
  lemma {:induction false} PutBetween(s: seq<Region>, r: Region, i: nat)
    requires Sorted(s) && i < |s| && s[i].addr < r.addr && (i + 1 < |s| ==> r.addr < s[i + 1].addr)
    ensures Put(s, r) == s[..i + 1] + [r] + s[i + 1..]
  {
    assert s[0].addr < r.addr;
    if i > 0 {
      PutBetween(s[1..], r, i - 1);
      assert s[1..][..i] == s[1..i + 1] && s[1..][i..] == s[i + 1..];
    } else if |s| > 1 {
      assert s[1..][0] == s[1];
    }
  }

  /** An old key gets its value replaced. */
  lemma {:induction false} PutOver(s: seq<Region>, r: Region, i: nat)
    requires Sorted(s) && i < |s| && s[i].addr == r.addr
    ensures Put(s, r) == s[i := r]
  {
    if i > 0 {
      assert s[0].addr < r.addr;
      PutOver(s[1..], r, i - 1);
      assert s[1..][i - 1 := r] == s[i := r][1..];
    }
  }

  /** Smaller keys keep their place. */
  lemma {:induction false} PutAbove(s: seq<Region>, r: Region, i: nat)
    requires Sorted(s) && i < |s| && s[i].addr < r.addr
    ensures |Put(s, r)| >= |s| && Put(s, r)[..i + 1] == s[..i + 1]
  {
    assert s[0].addr < r.addr;
    if i > 0 {
      PutAbove(s[1..], r, i - 1);
      assert Put(s, r)[..i + 1] == [s[0]] + Put(s[1..], r)[..i];
      assert s[..i + 1] == [s[0]] + s[1..][..i];
    } else {
      PutLonger(s[1..], r);
    }
  }

  lemma {:induction false} PutLonger(s: seq<Region>, r: Region)
    ensures |Put(s, r)| >= |s|
  {
    if s != [] { PutLonger(s[1..], r); }
  }

  // ---- canonical form -----------------------------------------------------------

  /** Two tilings that agree up to position `k` and hand out the same regions agree there
      too: a free region reaches as far in one as in the other. */
  lemma SameAt(s: seq<Region>, t: seq<Region>, lo: nat, hi: nat, k: nat)
    requires Tiled(s, lo, hi) && Tiled(t, lo, hi) && Used(s) == Used(t)
    requires k < |s| && k < |t| && s[..k] == t[..k]
    ensures s[k] == t[k]
  {
    TiledFacts(s, lo, hi);
    TiledFacts(t, lo, hi);
    assert s[k].addr == t[k].addr by {
      if k > 0 { assert s[..k][k - 1] == s[k - 1] && t[..k][k - 1] == t[k - 1]; }
    }
    if !s[k].free {
      assert s[k] in Used(t);
    } else if !t[k].free {
      assert t[k] in Used(s);
    } else if s[k].size < t[k].size {
      StopsShort(s, t, lo, hi, k);
    } else if t[k].size < s[k].size {
      StopsShort(t, s, lo, hi, k);
    }
  }

  lemma StopsShort(s: seq<Region>, t: seq<Region>, lo: nat, hi: nat, k: nat)
    requires Tiled(s, lo, hi) && Tiled(t, lo, hi) && Used(s) == Used(t)
    requires k < |s| && k < |t| && s[k].free && t[k].free && s[k].addr == t[k].addr
    ensures s[k].size >= t[k].size
  {
    TiledFacts(s, lo, hi);
    TiledFacts(t, lo, hi);
    if s[k].size < t[k].size {
      assert k + 1 < |s| && !s[k + 1].free && s[k + 1] in Used(t);
      var j :| 0 <= j < |t| && t[j] == s[k + 1];
      if j != k { TiledApart(t, lo, hi, if j < k then j else k, if j < k then k else j); }
    }
  }

  lemma {:induction false} SamePrefix(s: seq<Region>, t: seq<Region>, lo: nat, hi: nat, k: nat)
    requires Tiled(s, lo, hi) && Tiled(t, lo, hi) && Used(s) == Used(t)
    requires k <= |s| && k <= |t|
    ensures s[..k] == t[..k]
  {
    if k > 0 {
      SamePrefix(s, t, lo, hi, k - 1);
      SameAt(s, t, lo, hi, k - 1);
      assert s[..k] == s[..k - 1] + [s[k - 1]] && t[..k] == t[..k - 1] + [t[k - 1]];
    }
  }

  /** The map is determined by what is handed out: any two histories that leave the same
      regions in use leave the same map. */
  lemma Canonical(s: seq<Region>, t: seq<Region>, lo: nat, hi: nat)
    requires Tiled(s, lo, hi) && Tiled(t, lo, hi) && Used(s) == Used(t)
    ensures s == t
  {
    var k := if |s| < |t| then |s| else |t|;
    SamePrefix(s, t, lo, hi, k);
    TiledFacts(s, lo, hi);
    TiledFacts(t, lo, hi);
    if |s| < |t| {
      assert s[k - 1] == s[..k][k - 1] == t[k - 1];
      TiledApart(t, lo, hi, k - 1, |t| - 1);
    } else if |t| < |s| {
      assert t[k - 1] == t[..k][k - 1] == s[k - 1];
      TiledApart(s, lo, hi, k - 1, |s| - 1);
    }
  }

  /** A region handed out and given back leaves the map as it was. */
  lemma GetThenRemove(before: seq<Region>, during: seq<Region>, after: seq<Region>, r: Region, lo: nat, hi: nat)
    requires Tiled(before, lo, hi) && Tiled(after, lo, hi)
    requires r !in Used(before) && Used(during) == Used(before) + {r} && Used(after) == Used(during) - {r}
    ensures after == before
  {
    assert Used(after) == Used(before);
    Canonical(before, after, lo, hi);
  }

  /** When all has been given back, one free region is left. */
  lemma AllReturned(s: seq<Region>, lo: nat, hi: nat)
    requires lo <= hi && Tiled(s, lo, hi) && Used(s) == {}
    ensures s == [Region(lo, hi - lo, true)]
  {
    var t := [Region(lo, hi - lo, true)];
    TiledFacts(s, lo, hi);
    assert s[0] in s;
    Canonical(s, t, lo, hi);
  }

  // ---- cutting and joining ------------------------------------------------------

  /** What is left of region `r` when `n` bytes are cut out of it at `a`. */
  function Pieces(r: Region, a: nat, n: nat): seq<Region>
    requires r.addr <= a && a + n <= r.End()
  {
    (if r.addr < a then [Region(r.addr, a - r.addr, true)] else []) +
    [Region(a, n, false)] +
    (if a + n < r.End() then [Region(a + n, r.End() - a - n, true)] else [])
  }

  /** Region `i` of a tiling exchanged for pieces that tile it and of which those at the
      ends are used or meet no free neighbour. */
  lemma Exchanged(s: seq<Region>, lo: nat, hi: nat, i: nat, ps: seq<Region>)
    requires Tiled(s, lo, hi) && i < |s| && Tiled(ps, s[i].addr, s[i].End())
    requires ps[0].free ==> s[i].free || i == 0 || !s[i - 1].free
    requires ps[|ps| - 1].free ==> s[i].free || i == |s| - 1 || !s[i + 1].free
    ensures Tiled(s[..i] + ps + s[i + 1..], lo, hi)
  {
    var t := s[..i] + ps + s[i + 1..];
    var n := |ps|;
    forall k | 0 < k < |t| ensures t[k - 1].End() == t[k].addr && !(t[k - 1].free && t[k].free) {
      if k < i { assert t[k - 1] == s[k - 1] && t[k] == s[k]; }
      else if k == i { assert t[k - 1] == s[i - 1] && t[k] == ps[0]; }
      else if k < i + n { assert t[k - 1] == ps[k - 1 - i] && t[k] == ps[k - i]; }
      else if k == i + n { assert t[k - 1] == ps[n - 1] && t[k] == s[i + 1]; }
      else { assert t[k - 1] == s[k - n] && t[k] == s[k - n + 1]; }
    }
  }

  /** Where the elements of three stretches of a list stand. */
  lemma InStretches(s: seq<Region>, a: nat, b: nat, x: Region)
    requires a <= b <= |s|
    ensures x in s[..a] <==> exists k :: 0 <= k < a && s[k] == x
    ensures x in s[a..b] <==> exists k :: a <= k < b && s[k] == x
    ensures x in s[b..] <==> exists k :: b <= k < |s| && s[k] == x
  {
    forall k | 0 <= k < a ensures s[k] == s[..a][k] { }
    forall k | a <= k < b ensures s[k] == s[a..b][k - a] { }
    forall k | b <= k < |s| ensures s[k] == s[b..][k - b] { }
  }

  /** Keys are distinct: what stands outside a stretch does not stand in it. */
  lemma OutsideIff(s: seq<Region>, a: nat, b: nat, x: Region)
    requires Sorted(s) && a <= b <= |s|
    ensures x in s && x !in s[a..b] <==> x in s[..a] || x in s[b..]
  {
    InStretches(s, a, b, x);
    if exists k :: (0 <= k < a || b <= k < |s|) && s[k] == x { KeysDiffer(s, a, b, x); }
  }

  lemma KeysDiffer(s: seq<Region>, a: nat, b: nat, x: Region)
    requires Sorted(s) && a <= b <= |s|
    requires exists k :: (0 <= k < a || b <= k < |s|) && s[k] == x
    ensures forall j :: a <= j < b ==> s[j] != x
  {
  }

  lemma UsedExchanged(s: seq<Region>, i: nat, ps: seq<Region>)
    requires i < |s| && Sorted(s)
    ensures Used(s[..i] + ps + s[i + 1..]) == (Used(s) - {s[i]}) + Used(ps)
  {
    hide Sorted;
    var t := s[..i] + ps + s[i + 1..];
    assert s[i..i + 1] == [s[i]];
    forall x ensures x in t <==> (x in s && x != s[i]) || x in ps {
      OutsideIff(s, i, i + 1, x);
    }
  }

  class RegionMap {
    const lo: nat
    const hi: nat
    var regions: seq<Region>

    /** No address in the arena is near the end of the address space. */
    ghost predicate Valid()
      reads this
    {
      lo < hi && hi + 8 <= WORD && Tiled(regions, lo, hi)
    }

    constructor (base: nat, size: nat)
      requires size > 0 && base + size + 8 <= WORD
      ensures Valid() && lo == base && hi == base + size && Used(regions) == {}
    {
      lo, hi := base, base + size;
      regions := [Region(base, size, true)];
    }

    /** Hands out `n` bytes of the first free region that has them at a multiple of 8.  The
        map stays a tiling exactly when `n` is positive or no padding is cut off. */
    method GetRegion(n: nat) returns (p: Pointer, ghost i: nat)
      requires Valid()
      modifies this`regions
      ensures p == Null <==> forall j :: 0 <= j < |old(regions)| ==> !old(regions)[j].HasAligned(n)
      ensures p == Null ==> regions == old(regions)
      ensures p != Null ==>
        i < |old(regions)| && old(regions)[i].HasAligned(n) && (forall j :: 0 <= j < i ==> !old(regions)[j].HasAligned(n)) &&
        p.addr % 8 == 0 && old(regions)[i].addr <= p.addr < old(regions)[i].addr + 8 && p.addr + n <= old(regions)[i].End() &&
        (Valid() <==> n > 0 || p.addr == old(regions)[i].addr)
      ensures p != Null && Valid() && n == 0 ==> regions == old(regions)
      ensures p != Null && n > 0 ==>
        Region(p.addr, n, false) !in old(Used(regions)) && Used(regions) == old(Used(regions)) + {Region(p.addr, n, false)}
    {
      hide Tiled, Used, Region.HasAligned;
      forall r: Region ensures r.Fits(n) <==> r.HasAligned(n) { r.FitsIff(n); }
      var used, aligned := FindRegion(n);
      i := used;
      if used == |regions| {
        return Null, i;
      }
      Take(used, aligned, n);
      p := To(aligned);
    }

    /** The first region with `n` bytes at a multiple of 8, and that multiple. */
    method FindRegion(n: nat) returns (used: nat, aligned: nat)
      requires Valid()
      ensures used <= |regions| && forall j :: 0 <= j < used ==> !regions[j].Fits(n)
      ensures used < |regions| ==>
        regions[used].Fits(n) && aligned == regions[used].addr + regions[used].Pad() && aligned % 8 == 0
    {
      hide Tiled;
      used, aligned := 0, 0;
      while used < |regions|
        invariant used <= |regions|
        invariant forall j :: 0 <= j < used ==> !regions[j].Fits(n)
      {
        var r := regions[used];
        if r.free && n <= r.size {
          WithinArena(regions, lo, hi, used);
          aligned := r.addr;
          if r.addr % 8 != 0 {
            var offset := 8 - r.addr % 8;
            if r.size >= (n + offset) % WORD {
              aligned := r.addr + offset;
              return;
            }
          } else {
            return;
          }
        }
        used := used + 1;
      }
    }

    /** Cuts `n` bytes at `aligned` out of region `i`. */
    method Take(i: nat, aligned: nat, n: nat)
      requires Valid() && i < |regions| && regions[i].Fits(n) && aligned == regions[i].addr + regions[i].Pad()
      modifies this`regions
      ensures Valid() <==> n > 0 || old(regions)[i].Pad() == 0
      ensures Valid() && n == 0 ==> regions == old(regions)
      ensures n > 0 ==>
        Region(aligned, n, false) !in old(Used(regions)) && Used(regions) == old(Used(regions)) + {Region(aligned, n, false)}
    {
      hide Region.Pad, Put, Sorted, Tiled, Used, Pieces;
      ghost var s := regions;
      var offset := aligned - regions[i].addr;
      PadHolds(s, lo, hi, i, aligned, n);
      if offset != 0 {
        regions := Put(regions, Region(aligned, n, false));
        if regions[i].size - offset > n {
          regions := Put(regions, Region(aligned + n, regions[i].size - offset - n, true));
        }
        regions := regions[i := regions[i].(size := offset, free := true)];
        if n > 0 { PaddedPieces(s, lo, hi, i, aligned, n); } else { PaddedNothing(s, lo, hi, i, aligned); }
      } else {
        var rest := regions[i].size - n;
        regions := regions[i := regions[i].(size := n, free := false)];
        PutRest(s, lo, hi, i, n);
        if rest != 0 {
          regions := Put(regions, Region(regions[i].addr + n, rest, true));
        }
      }
      if n > 0 { Cut(s, lo, hi, i, aligned, n); }
    }

    /** Hands out `n` bytes at `a`, cut from the last free region of that size at or before
        `a`.  The map stays a tiling exactly when that region reaches far enough, and `n` is
        positive or nothing is left in front. */
    method GetRegionAtAddr(a: nat, n: nat) returns (p: Pointer, ghost i: nat)
      requires Valid() && a < WORD && n < WORD
      modifies this`regions
      ensures p == Null <==>
        forall j :: 0 <= j < |old(regions)| ==> !(old(regions)[j].addr <= a && old(regions)[j].free && n <= old(regions)[j].size)
      ensures p == Null ==> regions == old(regions)
      ensures p != Null ==>
        p == To(a) && i < |old(regions)| && old(regions)[i].addr <= a && old(regions)[i].free && n <= old(regions)[i].size &&
        (forall j :: i < j < |old(regions)| ==> !(old(regions)[j].addr <= a && old(regions)[j].free && n <= old(regions)[j].size)) &&
        (Valid() <==> a + n <= old(regions)[i].End() && (n > 0 || old(regions)[i].addr == a))
      ensures p != Null && Valid() && n == 0 ==> regions == old(regions)
      ensures p != Null && Valid() && n > 0 ==>
        Region(a, n, false) !in old(Used(regions)) && Used(regions) == old(Used(regions)) + {Region(a, n, false)}
    {
      hide Tiled, Used;
      var sel := FindOffer(a, n);
      i := sel;
      if sel == |regions| {
        return Null, i;
      }
      TakeAt(sel, a, n);
      p := To(a);
    }

    /** The last region that is considered for `n` bytes at `a`. */
    method FindOffer(a: nat, n: nat) returns (sel: nat)
      requires Valid()
      ensures sel <= |regions| && (sel < |regions| ==> regions[sel].Offers(a, n))
      ensures forall j :: 0 <= j < |regions| && (sel == |regions| || sel < j) ==> !regions[j].Offers(a, n)
    {
      hide Tiled;
      sel := |regions|;
      var it := 0;
      while it < |regions|
        invariant it <= |regions| && (sel == |regions| || 0 <= sel < it)
        invariant sel < |regions| ==> regions[sel].Offers(a, n)
        invariant forall j :: 0 <= j < it && (sel == |regions| || sel < j) ==> !regions[j].Offers(a, n)
      {
        var r := regions[it];
        if r.addr <= a && r.free && n <= r.size {
          sel := it;
        } else if r.addr > a {
          TiledFacts(regions, lo, hi);
          return;
        }
        it := it + 1;
      }
    }

    /** Cuts `n` bytes at `a` out of region `i`; sizes are 64-bit words. */
    method TakeAt(i: nat, a: nat, n: nat)
      requires Valid() && i < |regions| && regions[i].Offers(a, n) && a < WORD
      modifies this`regions
      ensures Valid() <==> a + n <= old(regions)[i].End() && (n > 0 || old(regions)[i].addr == a)
      ensures Valid() && n == 0 ==> regions == old(regions)
      ensures Valid() && n > 0 ==>
        Region(a, n, false) !in old(Used(regions)) && Used(regions) == old(Used(regions)) + {Region(a, n, false)}
    {
      hide Put, Sorted, Tiled, Used;
      ghost var s := regions;
      NextKey(s, lo, hi, i);
      var total := regions[i].size;
      if regions[i].addr < a {
        regions := regions[i := regions[i].(size := a - regions[i].addr)];
        LeadKeeps(s, lo, hi, i, a, n);
        regions := Put(regions, Region(a, n, false));
        var rest := (total - n - regions[i].size) % WORD;
        if rest != 0 {
          regions := Put(regions, Region((a + n) % WORD, rest, true));
        }
        LedIff(s, lo, hi, i, a, n);
      } else {
        regions := regions[i := regions[i].(size := n, free := false)];
        var rest := total - n;
        if rest != 0 {
          regions := Put(regions, Region(regions[i].addr + n, rest, true));
        }
        PutRest(s, lo, hi, i, n);
        if n > 0 { Cut(s, lo, hi, i, a, n); }
      }
    }

    /** Takes a region back and joins it with its free neighbours; a pointer that is not
        handed out is refused. */
    method RemoveRegion(ptr: nat) returns (ok: bool, ghost r: Region)
      requires Valid()
      modifies this`regions
      ensures Valid()
      ensures ok <==> exists x :: x in old(Used(regions)) && x.addr == ptr
      ensures !ok ==> regions == old(regions)
      ensures ok ==> r in old(Used(regions)) && r.addr == ptr && Used(regions) == old(Used(regions)) - {r}
    {
      hide Sorted, Used, Tiled, Given;
      ghost var s := regions;
      TiledFacts(regions, lo, hi);
      var it := 0;
      while it < |regions| && regions[it].addr != ptr
        invariant it <= |regions| && forall j :: 0 <= j < it ==> regions[j].addr != ptr
      {
        it := it + 1;
      }
      KeyAt(s, it, ptr);
      if it == |regions| || regions[it].free {
        return false, Region(0, 0, true);
      }
      r := regions[it];
      JoinUp(it, ptr);
      Joined(s, lo, hi, it);
      ok := true;
    }

    /** Frees region `i` at `ptr`: merges left, merges right, and else only marks it. */
    method JoinUp(i: nat, ptr: nat)
      requires i < |regions| && !regions[i].free && regions[i].addr == ptr && Sorted(regions)
      modifies this`regions
      ensures regions == Given(old(regions), i)
    {
      hide Sorted, Given, Spliced;
      ghost var s := regions;
      var it := i;
      if it != 0 && regions[it - 1].free {
        it := it - 1;
        Merge(it);
      } else {
        SplicedNothing(s, i);
      }
      ghost var x, e := if it < i then s[it].(size := s[it].size + s[i].size) else s[i], i + 1;
      SplicedAt(s, it, e, x);
      if it + 1 != |regions| && regions[it + 1].free {
        Merge(it);
        ghost var y := x;
        x := x.(size := x.size + s[e].size);
        SplicedMore(s, it, e, y, x);
        e := e + 1;
        SplicedAt(s, it, e, x);
      }
      SplicedUpdate(s, it, e, x);
      if regions[it].addr == ptr {
        regions := regions[it := regions[it].(free := true)];
      }
      GivenIs(s, i, it, e);
    }

    /** Joins region `k` with the next one. */
    method Merge(k: nat)
      requires k + 1 < |regions|
      modifies this`regions
      ensures regions == Spliced(old(regions), k, k + 2, old(regions)[k].(size := old(regions)[k].size + old(regions)[k + 1].size))
    {
      var size := regions[k + 1].size;
      MergedAt(regions, k, size);
      regions := regions[k := regions[k].(size := regions[k].size + size)];
      regions := Without(regions, k + 1);
    }
  }

  lemma KeyAt(s: seq<Region>, it: nat, ptr: nat)
    requires Sorted(s) && it <= |s| && (it < |s| ==> s[it].addr == ptr)
    requires forall j :: 0 <= j < it ==> s[j].addr != ptr
    ensures it < |s| && !s[it].free <==> exists x :: x in Used(s) && x.addr == ptr
    ensures it < |s| && !s[it].free ==> s[it] in Used(s)
  {
    if it < |s| && !s[it].free { assert s[it] in Used(s); }
  }

  /** The stretch that is one free region after region `i` has been given back. */
  function First(s: seq<Region>, i: nat): (a: nat)
    requires i < |s|
    ensures a <= i
  {
    if i > 0 && s[i - 1].free then i - 1 else i
  }

  function Last(s: seq<Region>, i: nat): (b: nat)
    requires i < |s|
    ensures i <= b < |s|
  {
    if i + 1 < |s| && s[i + 1].free then i + 1 else i
  }

  function Fusion(s: seq<Region>, i: nat): Region
    requires i < |s|
  {
    Region(s[First(s, i)].addr,
           (if First(s, i) < i then s[i - 1].size else 0) + s[i].size + (if Last(s, i) > i then s[i + 1].size else 0), true)
  }

  /** The map with region `i` given back. */
  function Given(s: seq<Region>, i: nat): seq<Region>
    requires i < |s|
  {
    s[..First(s, i)] + [Fusion(s, i)] + s[Last(s, i) + 1..]
  }

  /** Two neighbours joined under the key of the first. */
  lemma MergedAt(s: seq<Region>, k: nat, size: nat)
    requires k + 1 < |s|
    ensures var x := s[k].(size := s[k].size + size);
      Without(s[k := x], k + 1) == s[..k] + [x] + s[k + 2..]
  {
  }

  /** The regions from `k` to `e` replaced by one. */
  function Spliced(s: seq<Region>, k: nat, e: nat, x: Region): seq<Region>
    requires k < e <= |s|
  {
    s[..k] + [x] + s[e..]
  }

  lemma SplicedNothing(s: seq<Region>, i: nat)
    requires i < |s|
    ensures Spliced(s, i, i + 1, s[i]) == s
  {
  }

  lemma SplicedAt(s: seq<Region>, k: nat, e: nat, x: Region)
    requires k < e <= |s|
    ensures var t := Spliced(s, k, e, x);
      |t| == |s| - (e - k) + 1 && t[k] == x && (e < |s| ==> t[k + 1] == s[e])
  {
  }

  lemma SplicedMore(s: seq<Region>, k: nat, e: nat, x: Region, y: Region)
    requires k < e < |s|
    ensures var t := Spliced(s, k, e, x);
      |t| >= k + 2 && Spliced(t, k, k + 2, y) == Spliced(s, k, e + 1, y)
  {
  }

  lemma SplicedUpdate(s: seq<Region>, k: nat, e: nat, x: Region)
    requires k < e <= |s|
    ensures |Spliced(s, k, e, x)| > k && Spliced(s, k, e, x)[k := x.(free := true)] == Spliced(s, k, e, x.(free := true))
  {
  }

  /** The region given back and its free neighbours, as one. */
  lemma GivenIs(s: seq<Region>, i: nat, k: nat, e: nat)
    requires i < |s| && k == (if i > 0 && s[i - 1].free then i - 1 else i)
    requires e == if i + 1 < |s| && s[i + 1].free then i + 2 else i + 1
    ensures var size := (if k < i then s[i - 1].size else 0) + s[i].size + (if e > i + 1 then s[i + 1].size else 0);
      Given(s, i) == Spliced(s, k, e, Region(s[k].addr, size, true))
  {
  }

  /** A stretch of regions exchanged for one that covers it and meets no free neighbour. */
  lemma Fused(s: seq<Region>, lo: nat, hi: nat, a: nat, b: nat, r: Region)
    requires Tiled(s, lo, hi) && a < b <= |s| && r.addr == s[a].addr && r.End() == s[b - 1].End() && r.size > 0
    requires (a > 0 ==> !s[a - 1].free) && (b < |s| ==> !s[b].free)
    ensures Tiled(s[..a] + [r] + s[b..], lo, hi)
  {
    var t := s[..a] + [r] + s[b..];
    forall k | 0 < k < |t| ensures t[k - 1].End() == t[k].addr && !(t[k - 1].free && t[k].free) {
      if k < a { assert t[k - 1] == s[k - 1] && t[k] == s[k]; }
      else if k == a { assert t[k - 1] == s[a - 1]; }
      else if k == a + 1 { assert t[k] == s[b]; }
      else { assert t[k - 1] == s[b + k - a - 2] && t[k] == s[b + k - a - 1]; }
    }
  }

  lemma UsedFused(s: seq<Region>, a: nat, b: nat, r: Region)
    requires Sorted(s) && a < b <= |s| && r.free
    ensures Used(s[..a] + [r] + s[b..]) == Used(s) - Used(s[a..b])
  {
    hide Sorted;
    var t := s[..a] + [r] + s[b..];
    forall x: Region | !x.free ensures x in t <==> x in s && x !in s[a..b] {
      OutsideIff(s, a, b, x);
    }
  }

  lemma FusionCovers(s: seq<Region>, lo: nat, hi: nat, i: nat)
    requires Tiled(s, lo, hi) && i < |s| && !s[i].free
    ensures var a, b, r := First(s, i), Last(s, i), Fusion(s, i);
      && r.addr == s[a].addr && r.End() == s[b].End() && r.size > 0 && r.free
      && (a > 0 ==> !s[a - 1].free) && (b + 1 < |s| ==> !s[b + 1].free)
      && forall k :: a <= k <= b && k != i ==> s[k].free
  {
    var a, b := First(s, i), Last(s, i);
    assert a < i ==> s[i - 1].End() == s[i].addr;
    assert b > i ==> s[i].End() == s[i + 1].addr;
  }

  lemma Joined(s: seq<Region>, lo: nat, hi: nat, i: nat)
    requires Tiled(s, lo, hi) && i < |s| && !s[i].free
    ensures Tiled(Given(s, i), lo, hi)
    ensures Used(Given(s, i)) == Used(s) - {s[i]}
  {
    hide Sorted, Used, Tiled, First, Last, Fusion;
    TiledFacts(s, lo, hi);
    FusionCovers(s, lo, hi, i);
    Fused(s, lo, hi, First(s, i), Last(s, i) + 1, Fusion(s, i));
    UsedFused(s, First(s, i), Last(s, i) + 1, Fusion(s, i));
    OneUsed(s, First(s, i), Last(s, i) + 1, i);
  }

  lemma OneUsed(s: seq<Region>, a: nat, b: nat, i: nat)
    requires a <= i < b <= |s| && !s[i].free && forall k :: a <= k < b && k != i ==> s[k].free
    ensures Used(s[a..b]) == {s[i]}
  {
    assert s[a..b][i - a] == s[i];
  }

  /** The map after the insertion of the used region and the one behind it ... */
  function Inserted(s: seq<Region>, i: nat, a: nat, n: nat): seq<Region>
    requires i < |s| && s[i].addr <= a && a + n <= s[i].End()
  {
    var s1 := Put(s, Region(a, n, false));
    if a + n < s[i].End() then Put(s1, Region(a + n, s[i].End() - a - n, true)) else s1
  }

  /** ... neither of which touches what precedes. */
  lemma PadHolds(s: seq<Region>, lo: nat, hi: nat, i: nat, a: nat, n: nat)
    requires Tiled(s, lo, hi) && i < |s| && s[i].addr <= a && a + n <= s[i].End()
    ensures s[i].addr < a ==>
      var s1 := Put(s, Region(a, n, false));
      |s1| > i && s1[i] == s[i] && |Inserted(s, i, a, n)| > i && Inserted(s, i, a, n)[i] == s[i]
  {
    hide Put;
    TiledFacts(s, lo, hi);
    if s[i].addr < a {
      var s1 := Put(s, Region(a, n, false));
      PutHolds(s, Region(a, n, false), i);
      PutSorted(s, Region(a, n, false));
      PutHolds(s1, Region(a + n, s[i].End() - a - n, true), i);
    }
  }

  lemma PutHolds(s: seq<Region>, r: Region, i: nat)
    requires Sorted(s) && i < |s| && s[i].addr < r.addr
    ensures |Put(s, r)| > i && Put(s, r)[i] == s[i]
  {
    PutAbove(s, r, i);
    assert Put(s, r)[i] == Put(s, r)[..i + 1][i] == s[..i + 1][i];
  }

  lemma {:induction false} PutSorted(s: seq<Region>, r: Region)
    requires Sorted(s)
    ensures Sorted(Put(s, r))
    ensures forall x :: x in Put(s, r) ==> x == r || x in s
  {
    if s != [] && s[0].addr < r.addr {
      PutSorted(s[1..], r);
      forall x | x in Put(s[1..], r) ensures s[0].addr < x.addr {
      }
    }
  }

  lemma NextKey(s: seq<Region>, lo: nat, hi: nat, i: nat)
    requires Tiled(s, lo, hi) && i < |s|
    ensures Sorted(s) && s[i].size > 0 && (i + 1 < |s| ==> s[i + 1].addr == s[i].End())
  {
    TiledFacts(s, lo, hi);
  }

  lemma SpliceOne(s: seq<Region>, i: nat, u: Region, a: Region)
    requires i < |s|
    ensures (s[..i + 1] + [a] + s[i + 1..])[i := u] == s[..i] + [u, a] + s[i + 1..]
  {
  }

  lemma SpliceTwo(s: seq<Region>, i: nat, u: Region, a: Region, b: Region)
    requires i < |s|
    ensures var s1 := s[..i + 1] + [a] + s[i + 1..];
      (s1[..i + 2] + [b] + s1[i + 2..])[i := u] == s[..i] + [u, a, b] + s[i + 1..]
  {
  }

  lemma PaddedPieces(s: seq<Region>, lo: nat, hi: nat, i: nat, a: nat, n: nat)
    requires Tiled(s, lo, hi) && i < |s| && s[i].addr < a && a + n <= s[i].End() && n > 0
    ensures |Inserted(s, i, a, n)| > i
    ensures Inserted(s, i, a, n)[i := Region(s[i].addr, a - s[i].addr, true)] == s[..i] + Pieces(s[i], a, n) + s[i + 1..]
  {
    hide Put, Sorted;
    var r := s[i];
    var u, x := Region(r.addr, a - r.addr, true), Region(a, n, false);
    NextKey(s, lo, hi, i);
    PutBetween(s, x, i);
    PutSorted(s, x);
    var s1 := Put(s, x);
    assert s1[i + 1] == x;
    if a + n < r.End() {
      var y := Region(a + n, r.End() - a - n, true);
      assert i + 2 < |s1| ==> s1[i + 2] == s[i + 1];
      PutBetween(s1, y, i + 1);
      SpliceTwo(s, i, u, x, y);
      assert Pieces(r, a, n) == [u, x, y];
    } else {
      SpliceOne(s, i, u, x);
      assert Pieces(r, a, n) == [u, x];
    }
  }

  /** A request for no bytes behind the start of a region leaves an empty region or two
      free ones side by side. */
  lemma PaddedNothing(s: seq<Region>, lo: nat, hi: nat, i: nat, a: nat)
    requires Tiled(s, lo, hi) && i < |s| && s[i].addr < a <= s[i].End() && |Inserted(s, i, a, 0)| > i
    ensures !Tiled(Inserted(s, i, a, 0)[i := Region(s[i].addr, a - s[i].addr, true)], lo, hi)
  {
    hide Tiled;
    if a < s[i].End() {
      FreeSideBySide(s, lo, hi, i, a);
    } else {
      EmptyRegion(s, lo, hi, i, a);
    }
  }

  lemma FreeSideBySide(s: seq<Region>, lo: nat, hi: nat, i: nat, a: nat)
    requires Tiled(s, lo, hi) && i < |s| && s[i].addr < a < s[i].End() && |Inserted(s, i, a, 0)| > i
    ensures !Tiled(Inserted(s, i, a, 0)[i := Region(s[i].addr, a - s[i].addr, true)], lo, hi)
  {
    hide Put, Sorted;
    NextKey(s, lo, hi, i);
    var u, x, y := Region(s[i].addr, a - s[i].addr, true), Region(a, 0, false), Region(a, s[i].End() - a, true);
    PutBetween(s, x, i);
    PutSorted(s, x);
    PutOver(Put(s, x), y, i + 1);
    var t := Inserted(s, i, a, 0)[i := u];
    assert i + 1 < |t| && t[i].free && t[i + 1] == y;
  }

  lemma EmptyRegion(s: seq<Region>, lo: nat, hi: nat, i: nat, a: nat)
    requires Tiled(s, lo, hi) && i < |s| && s[i].addr < a == s[i].End() && |Inserted(s, i, a, 0)| > i
    ensures !Tiled(Inserted(s, i, a, 0)[i := Region(s[i].addr, a - s[i].addr, true)], lo, hi)
  {
    hide Put, Sorted;
    var u, x := Region(s[i].addr, a - s[i].addr, true), Region(a, 0, false);
    var s1 := Put(s, x);
    PutKeeps(s, x);
    PadHolds(s, lo, hi, i, a, 0);
    var k :| 0 <= k < |s1| && s1[k] == x;
    assert k != i && s1[i := u][k] == x;
  }

  lemma SameKeys(s: seq<Region>, t: seq<Region>)
    requires Sorted(s) && |s| == |t| && forall k :: 0 <= k < |s| ==> s[k].addr == t[k].addr
    ensures Sorted(t)
  {
  }

  /** A request at the start of a region: the two updates. */
  lemma PutRest(s: seq<Region>, lo: nat, hi: nat, i: nat, n: nat)
    requires Tiled(s, lo, hi) && i < |s| && n <= s[i].size && s[i].free
    ensures var s1 := s[i := Region(s[i].addr, n, false)];
      var t := if s[i].size == n then s1 else Put(s1, Region(s[i].addr + n, s[i].size - n, true));
      t == if n > 0 then s[..i] + Pieces(s[i], s[i].addr, n) + s[i + 1..] else s
  {
    hide Put, Sorted, Tiled;
    NextKey(s, lo, hi, i);
    var r := s[i];
    var x, y := Region(r.addr, n, false), Region(r.addr + n, r.size - n, true);
    SameKeys(s, s[i := x]);
    if n == 0 {
      PutOver(s[i := x], y, i);
    } else if r.size != n {
      PutBetween(s[i := x], y, i);
      SpliceNext(s, i, x, y);
      assert Pieces(r, r.addr, n) == [x, y];
    } else {
      SpliceNext(s, i, x, y);
      assert Pieces(r, r.addr, n) == [x];
    }
  }

  lemma SpliceNext(s: seq<Region>, i: nat, x: Region, y: Region)
    requires i < |s|
    ensures s[i := x] == s[..i] + [x] + s[i + 1..]
    ensures s[i := x][..i + 1] + [y] + s[i := x][i + 1..] == s[..i] + [x, y] + s[i + 1..]
  {
  }

  lemma PiecesTile(r: Region, a: nat, n: nat)
    requires r.addr <= a && a + n <= r.End() && n > 0
    ensures Tiled(Pieces(r, a, n), r.addr, r.End())
    ensures Used(Pieces(r, a, n)) == {Region(a, n, false)}
  {
    assert Region(a, n, false) in Pieces(r, a, n);
  }

  /** Cutting `n > 0` bytes out of a free region hands out those bytes and no others. */
  lemma Cut(s: seq<Region>, lo: nat, hi: nat, i: nat, a: nat, n: nat)
    requires Tiled(s, lo, hi) && i < |s| && s[i].free && s[i].addr <= a && a + n <= s[i].End() && n > 0
    ensures var t := s[..i] + Pieces(s[i], a, n) + s[i + 1..];
      var r := Region(a, n, false);
      Tiled(t, lo, hi) && Used(t) == Used(s) + {r} && r !in Used(s)
  {
    hide Sorted;
    var ps := Pieces(s[i], a, n);
    var r := Region(a, n, false);
    PiecesTile(s[i], a, n);
    NextKey(s, lo, hi, i);
    Exchanged(s, lo, hi, i, ps);
    UsedExchanged(s, i, ps);
    if r in s { NoOverlap(s, lo, hi, r, s[i]); }
  }

  // ---- the form with a given address --------------------------------------------

  /** The map after a request at `a` behind the start of region `i`, with 64-bit sizes. */
  function Led(s: seq<Region>, i: nat, a: nat, n: nat): seq<Region>
    requires i < |s| && s[i].addr < a
  {
    var s1 := Put(s[i := Region(s[i].addr, a - s[i].addr, true)], Region(a, n, false));
    var rest := (s[i].size - n - (a - s[i].addr)) % WORD;
    if rest != 0 then Put(s1, Region((a + n) % WORD, rest, true)) else s1
  }

  lemma {:induction false} PutUpdate(s: seq<Region>, r: Region, i: nat, u: Region)
    requires Sorted(s) && i < |s| && s[i].addr == u.addr < r.addr
    ensures |Put(s, r)| > i && Put(s[i := u], r) == Put(s, r)[i := u]
  {
    assert s[0].addr < r.addr;
    var t := s[i := u];
    if i > 0 {
      assert t[1..] == s[1..][i - 1 := u];
      PutUpdate(s[1..], r, i - 1, u);
    } else {
      assert t[1..] == s[1..];
    }
  }

  /** It is the cut when the region reaches far enough ... */
  lemma LedInside(s: seq<Region>, lo: nat, hi: nat, i: nat, a: nat, n: nat)
    requires Tiled(s, lo, hi) && hi < WORD && i < |s| && s[i].addr < a && a + n <= s[i].End()
    ensures |Inserted(s, i, a, n)| > i
    ensures Led(s, i, a, n) == Inserted(s, i, a, n)[i := Region(s[i].addr, a - s[i].addr, true)]
  {
    hide Put;
    TiledFacts(s, lo, hi);
    var u, x := Region(s[i].addr, a - s[i].addr, true), Region(a, n, false);
    PutUpdate(s, x, i, u);
    PutSorted(s, x);
    PutHolds(s, x, i);
    if a + n < s[i].End() {
      PutUpdate(Put(s, x), Region(a + n, s[i].End() - a - n, true), i, u);
    }
  }

  /** ... and otherwise something ends behind the arena. */
  lemma LedOutside(s: seq<Region>, lo: nat, hi: nat, i: nat, a: nat, n: nat)
    requires Tiled(s, lo, hi) && hi < WORD && i < |s| && s[i].Offers(a, n) && s[i].addr < a < WORD && s[i].End() < a + n
    ensures !Tiled(Led(s, i, a, n), lo, hi)
  {
    hide Put;
    TiledFacts(s, lo, hi);
    var t, x := Led(s, i, a, n), Region(a, n, false);
    var s0 := s[i := Region(s[i].addr, a - s[i].addr, true)];
    var rest := s[i].size - n - (a - s[i].addr);
    assert rest % WORD == rest + WORD by { assert 0 < rest + WORD < WORD; }
    var y := Region((a + n) % WORD, rest + WORD, true);
    PutKeeps(s0, x);
    PutKeeps(Put(s0, x), y);
    assert t == Put(Put(s0, x), y);
    var z := if a + n < WORD then y else x;
    assert z in t && z.End() > hi;
    if Tiled(t, lo, hi) { TiledFacts(t, lo, hi); }
  }

  /** The region offered first keeps its place while the others go in. */
  lemma LeadKeeps(s: seq<Region>, lo: nat, hi: nat, i: nat, a: nat, n: nat)
    requires Tiled(s, lo, hi) && i < |s| && s[i].addr < a
    ensures var u := Region(s[i].addr, a - s[i].addr, true);
      |Put(s[i := u], Region(a, n, false))| > i && Put(s[i := u], Region(a, n, false))[i] == u
  {
    NextKey(s, lo, hi, i);
    var t := s[i := Region(s[i].addr, a - s[i].addr, true)];
    SameKeys(s, t);
    PutHolds(t, Region(a, n, false), i);
  }

  lemma LedIff(s: seq<Region>, lo: nat, hi: nat, i: nat, a: nat, n: nat)
    requires Tiled(s, lo, hi) && hi < WORD && i < |s| && s[i].Offers(a, n) && s[i].addr < a < WORD
    ensures Tiled(Led(s, i, a, n), lo, hi) <==> a + n <= s[i].End() && n > 0
    ensures a + n <= s[i].End() && n > 0 ==>
      Region(a, n, false) !in Used(s) && Used(Led(s, i, a, n)) == Used(s) + {Region(a, n, false)}
  {
    hide Led, Inserted, Tiled, Used, Pieces;
    if a + n > s[i].End() {
      LedOutside(s, lo, hi, i, a, n);
    } else {
      LedInside(s, lo, hi, i, a, n);
      if n == 0 {
        PaddedNothing(s, lo, hi, i, a);
      } else {
        PaddedPieces(s, lo, hi, i, a, n);
        Cut(s, lo, hi, i, a, n);
      }
    }
  }
}
