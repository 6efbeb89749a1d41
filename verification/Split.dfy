/** The quadratic split of the entries of an overfull R-tree node into two groups
    (updown/libraries/dramalloc/rtree.cpp:173-279, 281-386: the two overloads run the
    same algorithm, on children and on blocks).  Groups hold positions of entries. */
module Split {
  import opened Rects
  import opened Seqs
  import opened TreeModel

  /** Area a pair of entries wastes when boxed together, as a 64-bit unsigned word. */
  function Waste(a: Rect, b: Rect): nat {
    Wrap(a.BoundingBox(b).Area() - a.Area() - b.Area())
  }

  /** Growth of box `bb` when `r` is added to it, as a 64-bit unsigned word. */
  function Enlargement(bb: Rect, r: Rect): nat {
    Wrap(bb.BoundingBox(r).Area() - bb.Area())
  }

  /** Of rectangles without a common cell, in a box whose area fits a word: the cells of the
      least box around both that belong to neither. */
  lemma WasteIs(a: Rect, b: Rect, box: Rect)
    requires a.Positive() && b.Positive() && !(exists m, n :: a.Has(m, n) && b.Has(m, n))
    requires IsHull(box, [a, b]) && box.memLen * box.nodeLen < 0x1_0000_0000_0000_0000
    ensures Waste(a, b) + a.memLen * a.nodeLen + b.memLen * b.nodeLen == box.memLen * box.nodeLen
  {
    hide Waste, IsHull, Rect.Overlap, Rect.Has, Rect.Positive;
    OverlapIffCommonCell(a, b);
    WasteApart(a, b, box);
  }

  lemma WasteApart(a: Rect, b: Rect, box: Rect)
    requires !a.Overlap(b) && IsHull(box, [a, b]) && box.memLen * box.nodeLen < WORD
    ensures Waste(a, b) + a.memLen * a.nodeLen + b.memLen * b.nodeLen == box.memLen * box.nodeLen
  {
    hide *;
    BoxIs(a, b, box);
    BothInside(a, b, box);
    WasteFrom(a, b, box);
    WrapSum(a.memLen * a.nodeLen, b.memLen * b.nodeLen, box.memLen * box.nodeLen);
  }

  lemma WasteFrom(a: Rect, b: Rect, box: Rect)
    requires box == a.BoundingBox(b)
    ensures Waste(a, b) == Wrap(Wrap(box.memLen * box.nodeLen) - Wrap(a.memLen * a.nodeLen) - Wrap(b.memLen * b.nodeLen))
  {
  }

  lemma WrapSum(x: nat, y: nat, z: nat)
    requires x + y <= z < WORD
    ensures Wrap(Wrap(z) - Wrap(x) - Wrap(y)) + x + y == z
  {
  }

  lemma BothInside(a: Rect, b: Rect, box: Rect)
    requires box.Covers(a) && box.Covers(b) && !a.Overlap(b)
    ensures a.memLen * a.nodeLen + b.memLen * b.nodeLen <= box.memLen * box.nodeLen
  {
    if a.MemEnd() <= b.memStart || b.MemEnd() <= a.memStart {
      Side(a.memLen, b.memLen, box.memLen, a.nodeLen, b.nodeLen, box.nodeLen);
    } else {
      Side(a.nodeLen, b.nodeLen, box.nodeLen, a.memLen, b.memLen, box.memLen);
    }
  }

  /** The cells a box gains when it becomes the least box around itself and `r`. */
  lemma EnlargementIs(bb: Rect, r: Rect, box: Rect)
    requires IsHull(box, [bb, r]) && box.memLen * box.nodeLen < 0x1_0000_0000_0000_0000
    ensures Enlargement(bb, r) + bb.memLen * bb.nodeLen == box.memLen * box.nodeLen
  {
    hide *;
    BoxIs(bb, r, box);
    CoversMore(box, bb);
    GrowthFrom(bb, r, box);
    WrapDifference(bb.memLen * bb.nodeLen, box.memLen * box.nodeLen);
  }

  lemma GrowthFrom(bb: Rect, r: Rect, box: Rect)
    requires box == bb.BoundingBox(r)
    ensures Enlargement(bb, r) == Wrap(Wrap(box.memLen * box.nodeLen) - Wrap(bb.memLen * bb.nodeLen))
  {
  }

  lemma WrapDifference(x: nat, z: nat)
    requires x <= z < 0x1_0000_0000_0000_0000
    ensures Wrap(Wrap(z) - Wrap(x)) + x == z
  {
  }

  lemma CoversMore(box: Rect, r: Rect)
    requires box.Covers(r)
    ensures r.memLen * r.nodeLen <= box.memLen * box.nodeLen
  {
    ProductMonotone(r.memLen, box.memLen, r.nodeLen, box.nodeLen);
  }

  lemma BoxIs(a: Rect, b: Rect, box: Rect)
    requires IsHull(box, [a, b])
    ensures box == a.BoundingBox(b) && box.Covers(a) && box.Covers(b)
  {
    assert [a, b][0] == a && [a, b][1] == b;
  }

  lemma Side(x: nat, y: nat, z: nat, u: nat, v: nat, w: nat)
    requires x + y <= z && u <= w && v <= w
    ensures x * u + y * v <= z * w && x * u <= z * w && y * v <= z * w && u * x == x * u && v * y == y * v && w * z == z * w
  {
    ProductMonotone(x, x, u, w);
    ProductMonotone(y, y, v, w);
    ProductMonotone(x + y, z, w, w);
    assert (x + y) * w == x * w + y * w;
  }

  /** |a - b| taken after reading the 64-bit difference as a signed number. */
  function SignedGap(a: nat, b: nat): nat {
    var d := Wrap(a - b);
    if d < WORD / 2 then d else WORD - d
  }

  /** The pair wastes most area, and is the first that does. */
  ghost predicate FirstSeeds(rects: seq<Rect>, imax: nat, jmax: nat)
    requires imax < |rects| && jmax < |rects|
  {
    && imax != jmax
    && forall i, j :: 0 <= i < |rects| && 0 <= j < |rects| && i != j ==>
      && Waste(rects[i], rects[j]) <= Waste(rects[imax], rects[jmax])
      && (Earlier(i, j, imax, jmax) ==> Waste(rects[i], rects[j]) < Waste(rects[imax], rects[jmax]))
  }

  method PickSeeds(rects: seq<Rect>) returns (imax: nat, jmax: nat)
    requires |rects| >= 2
    ensures imax < |rects| && jmax < |rects| && imax != jmax && FirstSeeds(rects, imax, jmax)
  {
    hide Sought, Waste, FirstSeeds;
    var maxd := 0;
    imax, jmax := 0, 1;
    SoughtBegins(rects);
    for i := 0 to |rects|
      invariant Sought(rects, i, 0, imax, jmax, maxd)
    {
      for j := 0 to |rects|
        invariant Sought(rects, i, j, imax, jmax, maxd)
      {
        SoughtFacts(rects, i, j, imax, jmax, maxd);
        SoughtStep(rects, i, j, imax, jmax, maxd);
        if i != j {
          var val := Waste(rects[i], rects[j]);
          if maxd < val {
            maxd, imax, jmax := val, i, j;
          }
        }
      }
      SoughtRow(rects, i, imax, jmax, maxd);
    }
    SoughtEnds(rects, imax, jmax, maxd);
  }

  predicate Earlier(p: nat, q: nat, i: nat, j: nat) { p < i || (p == i && q < j) }

  /** What the loops have found before they come to the pair `i`, `j`. */
  ghost predicate Sought(rects: seq<Rect>, i: nat, j: nat, imax: nat, jmax: nat, maxd: nat) {
    && imax < |rects| && jmax < |rects| && imax != jmax
    && (forall p, q :: 0 <= p < |rects| && 0 <= q < |rects| && p != q && Earlier(p, q, i, j) ==> Waste(rects[p], rects[q]) <= maxd)
    && (forall p, q :: 0 <= p < |rects| && 0 <= q < |rects| && p != q && Earlier(p, q, imax, jmax) ==> Waste(rects[p], rects[q]) < maxd)
    && maxd <= Waste(rects[imax], rects[jmax])
    && ((imax == 0 && jmax == 1 && maxd == 0) || Earlier(imax, jmax, i, j))
  }

  lemma SoughtBegins(rects: seq<Rect>)
    requires |rects| >= 2
    ensures Sought(rects, 0, 0, 0, 1, 0)
  {
    hide Waste;
  }

  lemma SoughtFacts(rects: seq<Rect>, i: nat, j: nat, imax: nat, jmax: nat, maxd: nat)
    requires Sought(rects, i, j, imax, jmax, maxd)
    ensures imax < |rects| && jmax < |rects|
  {
  }

  lemma SoughtStep(rects: seq<Rect>, i: nat, j: nat, imax: nat, jmax: nat, maxd: nat)
    requires Sought(rects, i, j, imax, jmax, maxd) && i < |rects| && j < |rects|
    ensures if i != j && maxd < Waste(rects[i], rects[j]) then Sought(rects, i, j + 1, i, j, Waste(rects[i], rects[j]))
            else Sought(rects, i, j + 1, imax, jmax, maxd)
  {
    hide Waste;
  }

  lemma SoughtRow(rects: seq<Rect>, i: nat, imax: nat, jmax: nat, maxd: nat)
    requires Sought(rects, i, |rects|, imax, jmax, maxd)
    ensures Sought(rects, i + 1, 0, imax, jmax, maxd)
  {
    hide Waste;
  }

  lemma SoughtEnds(rects: seq<Rect>, imax: nat, jmax: nat, maxd: nat)
    requires Sought(rects, |rects|, 0, imax, jmax, maxd)
    ensures imax < |rects| && jmax < |rects| && imax != jmax && FirstSeeds(rects, imax, jmax)
  {
    hide Waste;
  }

  /** The first entry with the largest gap between the two enlargements, and both of them
      when they differ. */
  method PickNext(rects: seq<Rect>, toInsert: seq<nat>, aBB: Rect, bBB: Rect)
    returns (max: nat, maxdA: nat, maxdB: nat)
    requires toInsert != [] && InRange(toInsert, |rects|)
    ensures max < |toInsert|
    ensures forall k :: 0 <= k < |toInsert| ==>
              Gap(aBB, bBB, rects[toInsert[k]]) <= Gap(aBB, bBB, rects[toInsert[max]])
    ensures forall k :: 0 <= k < max ==> Gap(aBB, bBB, rects[toInsert[k]]) < Gap(aBB, bBB, rects[toInsert[max]])
    ensures var dA, dB := Enlargement(aBB, rects[toInsert[max]]), Enlargement(bBB, rects[toInsert[max]]);
      if dA == dB then maxdA == maxdB else maxdA == dA && maxdB == dB
  {
    hide Gap, SignedGap, Enlargement, InRange;
    var maxd := 0;
    max, maxdA, maxdB := 0, 0, 0;
    InRangeAt(toInsert, |rects|);
    GapIs(aBB, bBB, rects[toInsert[0]]);
    for it := 0 to |toInsert|
      invariant max < |toInsert|
      invariant maxd <= Gap(aBB, bBB, rects[toInsert[max]])
      invariant forall k :: 0 <= k < it ==> Gap(aBB, bBB, rects[toInsert[k]]) <= maxd
      invariant forall k :: 0 <= k < max ==> Gap(aBB, bBB, rects[toInsert[k]]) < maxd
      invariant maxd >= 0 && (maxd == 0 ==> max == maxdA == maxdB == 0)
      invariant maxd > 0 ==> maxd == Gap(aBB, bBB, rects[toInsert[max]])
      invariant maxd > 0 ==> maxdA == Enlargement(aBB, rects[toInsert[max]]) && maxdB == Enlargement(bBB, rects[toInsert[max]])
    {
      GapIs(aBB, bBB, rects[toInsert[it]]);
      var dA := Enlargement(aBB, rects[toInsert[it]]);
      var dB := Enlargement(bBB, rects[toInsert[it]]);
      if maxd < SignedGap(dA, dB) {
        maxd, max, maxdA, maxdB := SignedGap(dA, dB), it, dA, dB;
      }
    }
  }

  /** The distance of the enlargements, when both are below half the range of a word. */
  lemma GapIs(aBB: Rect, bBB: Rect, r: Rect)
    ensures Gap(aBB, bBB, r) == SignedGap(Enlargement(aBB, r), Enlargement(bBB, r))
    ensures Gap(aBB, bBB, r) == 0 <==> Enlargement(aBB, r) == Enlargement(bBB, r)
    ensures var dA, dB := Enlargement(aBB, r), Enlargement(bBB, r);
      dA < 0x8000_0000_0000_0000 && dB < 0x8000_0000_0000_0000 ==> Gap(aBB, bBB, r) == if dA < dB then dB - dA else dA - dB
  {
    hide Enlargement;
  }

  lemma InRangeAt(s: seq<nat>, n: nat)
    requires InRange(s, n)
    ensures forall k :: 0 <= k < |s| ==> s[k] < n
  {
  }

  function Gap(aBB: Rect, bBB: Rect, r: Rect): (gap: nat)
    ensures gap == 0 <==> Enlargement(aBB, r) == Enlargement(bBB, r)
  {
    SignedGap(Enlargement(aBB, r), Enlargement(bBB, r))
  }

  predicate InRange(s: seq<nat>, n: nat) {
    forall k :: 0 <= k < |s| ==> s[k] < n
  }

  /** The three lists hold each of the positions 0..n exactly once between them. */
  ghost predicate Parts(a: seq<nat>, b: seq<nat>, rest: seq<nat>, n: nat) {
    multiset(a) + multiset(b) + multiset(rest) == multiset(Iota(n))
  }

  lemma PartsFacts(a: seq<nat>, b: seq<nat>, rest: seq<nat>, n: nat)
    requires Parts(a, b, rest, n)
    ensures |a| + |b| + |rest| == n
    ensures InRange(a, n) && InRange(b, n) && InRange(rest, n)
    ensures Parts(b, a, rest, n)
    ensures Parts(a + rest, b, [], n)
  {
    var s := a + b + rest;
    assert multiset(s) == multiset(Iota(n));
    SameMembers(s, Iota(n));
    forall x | x in s ensures x < n {
      assert x in Iota(n);
    }
    assert forall k :: 0 <= k < |a| ==> a[k] in s;
    assert forall k :: 0 <= k < |b| ==> b[k] in s;
    assert forall k :: 0 <= k < |rest| ==> rest[k] in s;
  }

  lemma PartsMove(a: seq<nat>, b: seq<nat>, rest: seq<nat>, k: nat, n: nat)
    requires Parts(a, b, rest, n) && k < |rest|
    ensures Parts(a + [rest[k]], b, Without(rest, k), n)
    ensures Parts(a, b + [rest[k]], Without(rest, k), n)
  {
    WithoutMultiset(rest, k);
  }

  /** The next position goes to one of the lists. */
  lemma PartsGrow(a: seq<nat>, b: seq<nat>, rest: seq<nat>, n: nat)
    ensures Parts([], [], [], 0)
    ensures Parts(a, b, rest, n) ==>
      Parts(a + [n], b, rest, n + 1) && Parts(a, b + [n], rest, n + 1) && Parts(a, b, rest + [n], n + 1)
  {
    assert Iota(n + 1) == Iota(n) + [n];
    assert multiset(Iota(n + 1)) == multiset(Iota(n)) + multiset{n};
    assert multiset(a + [n]) == multiset(a) + multiset{n};
    assert multiset(b + [n]) == multiset(b) + multiset{n};
    assert multiset(rest + [n]) == multiset(rest) + multiset{n};
  }

  /** The positions that are not seeds, in order. */
  method Others(n: nat, imax: nat, jmax: nat) returns (toInsert: seq<nat>)
    requires imax < n && jmax < n && imax != jmax
    ensures Parts([imax], [jmax], toInsert, n)
  {
    hide Parts, Iota;
    toInsert := [];
    ghost var a: seq<nat>, b: seq<nat> := [], [];
    PartsGrow(a, b, toInsert, 0);
    for i := 0 to n
      invariant Parts(a, b, toInsert, i)
      invariant if imax < i then a == [imax] else a == []
      invariant if jmax < i then b == [jmax] else b == []
    {
      PartsGrow(a, b, toInsert, i);
      if i == imax {
        assert a + [i] == [imax];
        a := a + [i];
      } else if i == jmax {
        assert b + [i] == [jmax];
        b := b + [i];
      } else {
        toInsert := toInsert + [i];
      }
    }
  }

  /** Entry `e` goes to the group that began with `a`, as number `k` of it, rather than to the
      one that began with `b`: it enlarges `a` less; if both alike, `a` is smaller; if that too
      is equal, the group had no more than `limit` entries. */
  ghost predicate Drawn(a: Rect, b: Rect, e: Rect, k: nat, limit: int) {
    || Enlargement(a, e) < Enlargement(b, e)
    || (Enlargement(a, e) == Enlargement(b, e) && (a.Area() < b.Area() || (a.Area() == b.Area() && k <= limit)))
  }

  /** Every entry of both groups is drawn to the first of its group, except that the last
      entry left, the one with the least gap, fills a group of one up to two. */
  ghost predicate Grouped(rects: seq<Rect>, groupA: seq<nat>, groupB: seq<nat>)
    requires groupA != [] && groupB != [] && InRange(groupA, |rects|) && InRange(groupB, |rects|)
  {
    var a, b := rects[groupA[0]], rects[groupB[0]];
    && ((forall k :: 1 <= k < |groupA| ==> Drawn(a, b, rects[groupA[k]], k, |groupB| - 1))
        || (|groupA| == 2 && forall k :: 1 <= k < |groupB| ==> Gap(a, b, rects[groupA[1]]) <= Gap(a, b, rects[groupB[k]])))
    && ((forall k :: 1 <= k < |groupB| ==> Drawn(b, a, rects[groupB[k]], k, |groupA|))
        || (|groupB| == 2 && forall k :: 1 <= k < |groupA| ==> Gap(a, b, rects[groupB[1]]) <= Gap(a, b, rects[groupA[k]])))
  }

  /** The loop before it ends: both groups are drawn, and no entry left has a larger gap than
      one that is placed. */
  ghost predicate Drawing(rects: seq<Rect>, groupA: seq<nat>, groupB: seq<nat>, rest: seq<nat>)
  {
    && groupA != [] && groupB != []
    && InRange(groupA, |rects|) && InRange(groupB, |rects|) && InRange(rest, |rects|)
    && var a, b := rects[groupA[0]], rects[groupB[0]];
    && (forall k :: 1 <= k < |groupA| ==> Drawn(a, b, rects[groupA[k]], k, |groupB| - 1))
    && (forall k :: 1 <= k < |groupB| ==> Drawn(b, a, rects[groupB[k]], k, |groupA|))
    && (forall k, i :: 1 <= k < |groupA| && 0 <= i < |rest| ==> Gap(a, b, rects[rest[i]]) <= Gap(a, b, rects[groupA[k]]))
    && (forall k, i :: 1 <= k < |groupB| && 0 <= i < |rest| ==> Gap(a, b, rects[rest[i]]) <= Gap(a, b, rects[groupB[k]]))
  }

  lemma DrawingOn(rects: seq<Rect>, groupA: seq<nat>, groupB: seq<nat>, rest: seq<nat>, max: nat, toA: bool)
    requires Drawing(rects, groupA, groupB, rest) && max < |rest|
    requires forall k :: 0 <= k < |rest| ==>
      Gap(rects[groupA[0]], rects[groupB[0]], rects[rest[k]]) <= Gap(rects[groupA[0]], rects[groupB[0]], rects[rest[max]])
    requires var a, b, e := rects[groupA[0]], rects[groupB[0]], rects[rest[max]];
      if toA then Drawn(a, b, e, |groupA|, |groupB| - 1) else Drawn(b, a, e, |groupB|, |groupA|)
    ensures if toA then Drawing(rects, groupA + [rest[max]], groupB, Without(rest, max))
            else Drawing(rects, groupA, groupB + [rest[max]], Without(rest, max))
  {
    hide Enlargement, Gap, Rect.Area;
  }

  /** The two groups partition the nine entries, neither is below the minimum of two, and
      the first entries of the groups are the first most wasteful pair. */
  method QuadraticSplit(rects: seq<Rect>) returns (groupA: seq<nat>, groupB: seq<nat>)
    requires |rects| == 9
    ensures 2 <= |groupA| <= 7 && 2 <= |groupB| <= 7
    ensures Parts(groupA, groupB, [], |rects|)
    ensures InRange(groupA, |rects|) && InRange(groupB, |rects|)
    ensures FirstSeeds(rects, groupA[0], groupB[0])
    ensures Grouped(rects, groupA, groupB)
  {
    hide FirstSeeds, Parts, Drawn, Drawing, Grouped, Gap, Enlargement;
    var imax, jmax := PickSeeds(rects);
    groupA, groupB := [imax], [jmax];
    var aBB, bBB := rects[imax], rects[jmax];
    var toInsert := Others(|rects|, imax, jmax);
    PartsFacts(groupA, groupB, toInsert, |rects|);
    DrawingBegins(rects, imax, jmax, toInsert);
    while toInsert != []
      invariant Parts(groupA, groupB, toInsert, |rects|)
      invariant |groupA| + |toInsert| >= MINNODES && |groupB| + |toInsert| >= MINNODES
      invariant |groupA| >= 1 && groupA[0] == imax && |groupB| >= 1 && groupB[0] == jmax
      invariant InRange(groupA, |rects|) && InRange(groupB, |rects|)
      invariant if toInsert == [] then Grouped(rects, groupA, groupB) else Drawing(rects, groupA, groupB, toInsert)
      decreases |toInsert|
    {
      PartsFacts(groupA, groupB, toInsert, |rects|);
      if |groupA| + |toInsert| == MINNODES {
        LastToA(rects, groupA, groupB, toInsert);
        groupA, toInsert := groupA + toInsert, [];
        break;
      }
      if |groupB| + |toInsert| == MINNODES {
        LastToB(rects, groupA, groupB, toInsert);
        PartsFacts(groupB, groupA, toInsert, |rects|);
        groupB, toInsert := groupB + toInsert, [];
        PartsFacts(groupB, groupA, toInsert, |rects|);
        break;
      }
      var max, maxdA, maxdB := PickNext(rects, toInsert, aBB, bBB);
      var a := toInsert[max];
      PartsMove(groupA, groupB, toInsert, max, |rects|);
      var toA := Choose(maxdA, maxdB, aBB, bBB, |groupA|, |groupB|, rects[a]);
      DrawingOn(rects, groupA, groupB, toInsert, max, toA);
      if toA {
        groupA := groupA + [a];
      } else {
        groupB := groupB + [a];
      }
      toInsert := Without(toInsert, max);
      PartsFacts(groupA, groupB, toInsert, |rects|);
      if toInsert == [] { DrawingEnds(rects, groupA, groupB); }
    }
    PartsFacts(groupA, groupB, toInsert, |rects|);
  }

  /** To which group an entry is added: the one it enlarges less, then the one with the
      smaller box, then the smaller one. */
  method Choose(maxdA: nat, maxdB: nat, aBB: Rect, bBB: Rect, sizeA: nat, sizeB: nat, ghost e: Rect) returns (toA: bool)
    requires var dA, dB := Enlargement(aBB, e), Enlargement(bBB, e);
      if dA == dB then maxdA == maxdB else maxdA == dA && maxdB == dB
    ensures if toA then Drawn(aBB, bBB, e, sizeA, sizeB - 1) else Drawn(bBB, aBB, e, sizeB, sizeA)
  {
    hide Enlargement, Rect.Area;
    if maxdA < maxdB {
      toA := true;
    } else if maxdA > maxdB {
      toA := false;
    } else if aBB.Area() < bBB.Area() {
      toA := true;
    } else if aBB.Area() > bBB.Area() {
      toA := false;
    } else {
      toA := sizeA < sizeB;
    }
  }

  lemma DrawingBegins(rects: seq<Rect>, imax: nat, jmax: nat, rest: seq<nat>)
    requires imax < |rects| && jmax < |rects| && InRange(rest, |rects|)
    ensures Drawing(rects, [imax], [jmax], rest)
  {
  }

  lemma DrawingEnds(rects: seq<Rect>, groupA: seq<nat>, groupB: seq<nat>)
    requires Drawing(rects, groupA, groupB, [])
    ensures Grouped(rects, groupA, groupB)
  {
    hide Drawn, Gap;
  }

  /** Larger groups on the other side keep an entry where it is. */
  lemma StillDrawn(rects: seq<Rect>, own: seq<nat>, a: Rect, b: Rect, limit: int, more: int)
    requires own != [] && InRange(own, |rects|) && limit <= more
    requires forall k :: 1 <= k < |own| ==> Drawn(a, b, rects[own[k]], k, limit)
    ensures forall k :: 1 <= k < |own| ==> Drawn(a, b, rects[own[k]], k, more)
  {
    hide Enlargement, Rect.Area;
  }

  lemma LastToA(rects: seq<Rect>, groupA: seq<nat>, groupB: seq<nat>, rest: seq<nat>)
    requires Drawing(rects, groupA, groupB, rest) && |rest| == 1 == |groupA|
    ensures InRange(groupA + rest, |rects|) && Grouped(rects, groupA + rest, groupB)
  {
    hide Drawn, Gap;
    StillDrawn(rects, groupB, rects[groupB[0]], rects[groupA[0]], 1, 2);
    assert groupA + rest == [groupA[0], rest[0]];
  }

  lemma LastToB(rects: seq<Rect>, groupA: seq<nat>, groupB: seq<nat>, rest: seq<nat>)
    requires Drawing(rects, groupA, groupB, rest) && |rest| == 1 == |groupB|
    ensures InRange(groupB + rest, |rects|) && Grouped(rects, groupA, groupB + rest)
  {
    hide Drawn, Gap;
    StillDrawn(rects, groupA, rects[groupA[0]], rects[groupB[0]], 0, 1);
    assert groupB + rest == [groupB[0], rest[0]];
  }

  /** Elements picked by two groups that partition the positions are all the elements. */
  lemma PartsPick<T>(s: seq<T>, a: seq<nat>, b: seq<nat>)
    requires Parts(a, b, [], |s|)
    ensures InRange(a, |s|) && InRange(b, |s|)
    ensures multiset(Pick(s, a)) + multiset(Pick(s, b)) == multiset(s)
    ensures forall x :: x in Pick(s, a) || x in Pick(s, b) <==> x in s
    ensures Distinct(s) ==> Distinct(Pick(s, a)) && Distinct(Pick(s, b))
    ensures Distinct(s) ==> forall i :: 0 <= i < |a| ==> Pick(s, a)[i] !in Pick(s, b)
  {
    PickPartition(s, a, b);
    var t := Pick(s, a) + Pick(s, b);
    assert multiset(t) == multiset(s);
    SameMembers(s, t);
    assert forall x :: x in Pick(s, a) || x in Pick(s, b) <==> x in t;
    if Distinct(s) {
      DistinctByMultiset(s, t);
      forall i, j | 0 <= i < j < |a| ensures Pick(s, a)[i] != Pick(s, a)[j] {
        assert t[i] != t[j];
      }
      forall i, j | 0 <= i < j < |b| ensures Pick(s, b)[i] != Pick(s, b)[j] {
        assert t[|a| + i] != t[|a| + j];
      }
      forall i, j | 0 <= i < |a| && 0 <= j < |b| ensures Pick(s, a)[i] != Pick(s, b)[j] {
        assert t[i] != t[|a| + j];
      }
    }
  }
}
