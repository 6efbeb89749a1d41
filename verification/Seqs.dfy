/** Facts about sequences used by the in-place algorithms. */
module Seqs {
  function Swapped<T>(s: seq<T>, i: nat, j: nat): (r: seq<T>)
    requires i < |s| && j < |s|
    ensures |r| == |s| && r[i] == s[j] && r[j] == s[i]
    ensures forall k :: 0 <= k < |s| && k != i && k != j ==> r[k] == s[k]
  {
    s[i := s[j]][j := s[i]]
  }

  lemma SwapPermutes<T>(s: seq<T>, i: nat, j: nat)
    requires i < |s| && j < |s|
    ensures multiset(Swapped(s, i, j)) == multiset(s)
    ensures Distinct(s) ==> Distinct(Swapped(s, i, j))
    ensures forall x :: x in Swapped(s, i, j) <==> x in s
  {
    SameMembers(Swapped(s, i, j), s);
  }

  function Without<T>(s: seq<T>, k: nat): (r: seq<T>)
    requires k < |s|
    ensures |r| == |s| - 1
    ensures forall i :: 0 <= i < k ==> r[i] == s[i]
    ensures forall i :: k <= i < |r| ==> r[i] == s[i + 1]
  {
    s[..k] + s[k + 1..]
  }

  lemma WithoutMultiset<T>(s: seq<T>, k: nat)
    requires k < |s|
    ensures multiset(Without(s, k)) + multiset{s[k]} == multiset(s)
    ensures forall x :: x in Without(s, k) ==> x in s
  {
    assert s == s[..k] + [s[k]] + s[k + 1..];
  }

  ghost predicate Distinct<T>(s: seq<T>) {
    forall i, j :: 0 <= i < j < |s| ==> s[i] != s[j]
  }

  lemma SameMembers<T>(a: seq<T>, b: seq<T>)
    requires multiset(a) == multiset(b)
    ensures |a| == |b| && forall x :: x in a <==> x in b
  {
    assert |multiset(a)| == |multiset(b)|;
    forall x ensures x in a <==> x in b {
      assert x in a <==> x in multiset(a);
    }
  }

  lemma WithoutDistinct<T>(s: seq<T>, k: nat)
    requires k < |s| && Distinct(s)
    ensures Distinct(Without(s, k))
    ensures forall x :: x in Without(s, k) <==> x in s && x != s[k]
  {
    forall x | x in s && x != s[k] ensures x in Without(s, k) {
      var i :| 0 <= i < |s| && s[i] == x;
      assert x == Without(s, k)[if i < k then i else i - 1];
    }
  }

  lemma DistinctAppend<T>(s: seq<T>, x: T)
    requires Distinct(s) && x !in s
    ensures Distinct(s + [x])
  {
  }

  function Iota(n: nat): (r: seq<nat>)
    ensures |r| == n && forall i :: 0 <= i < n ==> r[i] == i
  {
    seq(n, i => i)
  }

  /** The elements of `s` at the given positions. */
  function Pick<T>(s: seq<T>, at: seq<nat>): (r: seq<T>)
    requires forall k :: 0 <= k < |at| ==> at[k] < |s|
    ensures |r| == |at| && forall i :: 0 <= i < |at| ==> r[i] == s[at[i]]
  {
    seq(|at|, i requires 0 <= i < |at| => s[at[i]])
  }

  lemma PickAt<T>(s: seq<T>, at: seq<nat>)
    requires forall k :: 0 <= k < |at| ==> at[k] < |s|
    ensures |Pick(s, at)| == |at| && forall i :: 0 <= i < |at| ==> Pick(s, at)[i] == s[at[i]]
  {
  }

  lemma PickSwapped<T>(s: seq<T>, at: seq<nat>, i: nat, j: nat)
    requires i < |at| && j < |at| && forall k :: 0 <= k < |at| ==> at[k] < |s|
    ensures forall k :: 0 <= k < |at| ==> Swapped(at, i, j)[k] < |s|
    ensures Pick(s, Swapped(at, i, j)) == Swapped(Pick(s, at), i, j)
  {
  }

  lemma {:induction false} PickPermutes<T>(s: seq<T>, a: seq<nat>, b: seq<nat>)
    requires multiset(a) == multiset(b)
    requires forall k :: 0 <= k < |a| ==> a[k] < |s|
    requires forall k :: 0 <= k < |b| ==> b[k] < |s|
    ensures multiset(Pick(s, a)) == multiset(Pick(s, b))
    decreases |a|
  {
    SameMembers(a, b);
    if a != [] {
      assert a[0] in b;
      var k :| 0 <= k < |b| && b[k] == a[0];
      LessOne(a, b, k);
      PickPermutes(s, Without(a, 0), Without(b, k));
      PickWithout(s, a, 0);
      PickWithout(s, b, k);
    }
  }

  lemma LessOne<T>(a: seq<T>, b: seq<T>, k: nat)
    requires a != [] && k < |b| && b[k] == a[0] && multiset(a) == multiset(b)
    ensures multiset(Without(a, 0)) == multiset(Without(b, k))
  {
    WithoutMultiset(a, 0);
    WithoutMultiset(b, k);
    assert multiset(Without(a, 0)) == multiset(a) - multiset{a[0]};
    assert multiset(Without(b, k)) == multiset(b) - multiset{a[0]};
  }

  lemma PickWithout<T>(s: seq<T>, at: seq<nat>, k: nat)
    requires k < |at| && forall i :: 0 <= i < |at| ==> at[i] < |s|
    ensures forall i :: 0 <= i < |at| - 1 ==> Without(at, k)[i] < |s|
    ensures multiset(Pick(s, Without(at, k))) + multiset{s[at[k]]} == multiset(Pick(s, at))
  {
    WithoutMultiset(Pick(s, at), k);
    assert Pick(s, Without(at, k)) == Without(Pick(s, at), k);
  }

  /** Two lists of positions that together list every position once split the elements. */
  lemma PickPartition<T>(s: seq<T>, a: seq<nat>, b: seq<nat>)
    requires multiset(a) + multiset(b) == multiset(Iota(|s|))
    ensures (forall k :: 0 <= k < |a| ==> a[k] < |s|) && forall k :: 0 <= k < |b| ==> b[k] < |s|
    ensures multiset(Pick(s, a)) + multiset(Pick(s, b)) == multiset(s)
  {
    assert multiset(a + b) == multiset(Iota(|s|));
    SameMembers(a + b, Iota(|s|));
    forall k | 0 <= k < |a| ensures a[k] < |s| {
      assert a[k] in a + b && a[k] in Iota(|s|);
    }
    forall k | 0 <= k < |b| ensures b[k] < |s| {
      assert b[k] in a + b && b[k] in Iota(|s|);
    }
    PickPermutes(s, a + b, Iota(|s|));
    assert Pick(s, Iota(|s|)) == s;
    assert Pick(s, a + b) == Pick(s, a) + Pick(s, b);
  }

  lemma {:induction false} DistinctCounts<T>(s: seq<T>, x: T)
    requires Distinct(s)
    ensures multiset(s)[x] <= 1
  {
    if s != [] {
      assert s == [s[0]] + s[1..];
      DistinctCounts(s[1..], x);
    }
  }

  /** Whether a sequence repeats an element does not depend on its order. */
  lemma DistinctByMultiset<T>(s: seq<T>, t: seq<T>)
    requires Distinct(s) && multiset(s) == multiset(t)
    ensures Distinct(t)
  {
    forall i, j | 0 <= i < j < |t| ensures t[i] != t[j] {
      DistinctCounts(s, t[i]);
      assert t == t[..i] + [t[i]] + t[i + 1..j] + [t[j]] + t[j + 1..];
    }
  }

  /** The naturals below `n`. */
  ghost function Range(n: nat): (r: set<nat>)
    ensures forall j: nat :: j in r <==> j < n
    ensures |r| == n
  {
    if n == 0 then {} else Range(n - 1) + {n - 1}
  }

  lemma RangeBound(s: set<nat>, n: nat)
    requires forall x :: x in s ==> x < n
    ensures |s| <= n
  {
    assert s <= Range(n);
    SubsetSize(s, Range(n));
  }

  lemma {:induction false} DistinctSize<T>(s: seq<T>, a: set<T>)
    requires Distinct(s) && forall x :: x in s <==> x in a
    ensures |s| == |a|
    decreases |s|
  {
    if s == [] {
      assert a == {};
    } else {
      var t, x := s[..|s| - 1], s[|s| - 1];
      forall y ensures y in t <==> y in a - {x} {
        assert s == t + [x];
      }
      DistinctSize(t, a - {x});
    }
  }

  lemma {:induction false} SubsetSize<T>(a: set<T>, b: set<T>)
    requires a <= b
    ensures |a| <= |b|
    decreases a
  {
    if a != {} {
      var x :| x in a;
      SubsetSize(a - {x}, b - {x});
    }
  }
}
