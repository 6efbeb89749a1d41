/** The timeline of a node's traffic: a thousand slots, each the rate over one interval;
    when they are full, neighbours are averaged in place and the interval doubles
    (updown/basimruntime/src/basimupdown.cpp:1634-1659).  Rates are reals.  The packet
    timeline is updated by the same statements and is another object of this class. */
module Timeline {
  const SLOTS: nat := 1000
  const HALF: nat := 500

  /** The bytes seen in the cycles from `a` up to `b`. */
  function Bytes(h: seq<nat>, a: nat, b: nat): nat
    requires b <= |h|
  {
    if b <= a then 0 else Bytes(h, a, b - 1) + h[b - 1]
  }

  lemma {:induction false} BytesJoin(h: seq<nat>, a: nat, b: nat, c: nat)
    requires a <= b <= c <= |h|
    ensures Bytes(h, a, b) + Bytes(h, b, c) == Bytes(h, a, c)
  {
    if b < c { BytesJoin(h, a, b, c - 1); }
  }

  lemma {:induction false} BytesLater(h: seq<nat>, x: nat, a: nat, b: nat)
    requires b <= |h|
    ensures Bytes(h + [x], a, b) == Bytes(h, a, b)
  {
    if a < b { BytesLater(h, x, a, b - 1); }
  }

  function Sum(s: seq<real>): real {
    if s == [] then 0.0 else Sum(s[..|s| - 1]) + s[|s| - 1]
  }

  function Average(s: seq<real>, i: nat): real
    requires |s| == SLOTS && i < HALF
  {
    (s[2 * i] + s[2 * i + 1]) / 2.0
  }

  /** Neighbours averaged, and room for as many again. */
  function Paired(s: seq<real>): (r: seq<real>)
    requires |s| == SLOTS
  {
    seq(SLOTS, i requires 0 <= i < SLOTS => if i < HALF then Average(s, i) else 0.0)
  }

  /** The cycles of slot `i`. */
  function Seen(h: seq<nat>, interval: nat, i: nat): nat {
    if (i + 1) * interval <= |h| then Bytes(h, i * interval, (i + 1) * interval) else 0
  }

  /** The first `n` slots fit into the cycles seen. */
  lemma Fits(i: nat, n: nat, interval: nat)
    requires i < n
    ensures (i + 1) * interval <= n * interval
  {
  }

  /** Each of the first `n` slots, taken for a slot's time, gives the bytes of its cycles. */
  ghost predicate Faithful(s: seq<real>, h: seq<nat>, interval: nat, time: nat, n: nat) {
    n <= |s| && forall i: nat :: i < n ==> SlotIs(s[i], h, interval, time, i)
  }

  ghost predicate SlotIs(x: real, h: seq<nat>, interval: nat, time: nat, i: nat) {
    (i + 1) * interval <= |h| && x * time as real == Seen(h, interval, i) as real
  }

  /** A slot of twice the interval covers the cycles of two neighbours. */
  lemma SeenTwice(h: seq<nat>, interval: nat, i: nat)
    requires (2 * i + 2) * interval <= |h|
    ensures (i + 1) * (2 * interval) <= |h|
    ensures (2 * i + 1) * interval <= |h|
    ensures Seen(h, 2 * interval, i) == Seen(h, interval, 2 * i) + Seen(h, interval, 2 * i + 1)
  {
    assert i * (2 * interval) == (2 * i) * interval;
    assert (i + 1) * (2 * interval) == (2 * i + 2) * interval;
    BytesJoin(h, (2 * i) * interval, (2 * i + 1) * interval, (2 * i + 2) * interval);
  }

  /** Averaging two rates gives their bytes over twice the time when twice the time is what
      the new slot takes, and only then, unless there was no traffic. */
  lemma PairIs(x: real, y: real, time: nat, odd: nat, b: nat, c: nat)
    requires time > 0 && odd <= 1 && x * time as real == b as real && y * time as real == c as real
    ensures (x + y) / 2.0 * (2 * time + odd) as real == (b + c) as real <==> odd == 0 || b + c == 0
  {
    var t := time as real;
    var z := x + y;
    assert z * t == (b + c) as real;
    assert z / 2.0 * (2.0 * t) == z * t;
    assert (2 * time + odd) as real == 2.0 * t + odd as real;
    assert z / 2.0 * (2.0 * t + odd as real) == z / 2.0 * (2.0 * t) + z / 2.0 * odd as real;
    assert z == 0.0 <==> b + c == 0 by {
      if z != 0.0 { assert z * t != 0.0; }
    }
  }

  /** No bytes in all exactly when no slot has any. */
  lemma {:induction false} NothingSeen(h: seq<nat>, interval: nat, n: nat)
    requires n * interval <= |h|
    ensures Bytes(h, 0, n * interval) == 0 <==> forall i: nat :: i < n ==> Seen(h, interval, i) == 0
  {
    if n > 0 {
      assert n * interval == (n - 1) * interval + interval;
      NothingSeen(h, interval, n - 1);
      BytesJoin(h, 0, (n - 1) * interval, n * interval);
      assert Seen(h, interval, n - 1) == Bytes(h, (n - 1) * interval, n * interval);
    }
  }

  /** Compacting full slots keeps them faithful exactly when the interval is a whole number
      of slot times, or nothing has been seen. */
  lemma Averaged(s: seq<real>, h: seq<nat>, interval: nat, ticks: nat)
    requires |s| == SLOTS && interval * ticks >= 2 && SLOTS * interval <= |h|
    requires Faithful(s, h, interval, interval * ticks / 2, SLOTS)
    ensures Faithful(Paired(s), h, 2 * interval, 2 * interval * ticks / 2, HALF) <==>
      interval * ticks % 2 == 0 || Bytes(h, 0, SLOTS * interval) == 0
  {
    hide Bytes, Seen;
    var p := interval * ticks;
    var time, odd := p / 2, p % 2;
    assert 2 * interval * ticks / 2 == 2 * time + odd by { assert 2 * interval * ticks == 2 * p; }
    assert HALF * (2 * interval) == SLOTS * interval;
    NothingSeen(h, 2 * interval, HALF);
    forall i: nat | i < HALF
      ensures SlotIs(Paired(s)[i], h, 2 * interval, 2 * time + odd, i) <==> odd == 0 || Seen(h, 2 * interval, i) == 0
    {
      AveragedAt(s, h, interval, time, odd, i);
    }
  }

  lemma AveragedAt(s: seq<real>, h: seq<nat>, interval: nat, time: nat, odd: nat, i: nat)
    requires |s| == SLOTS && i < HALF && Faithful(s, h, interval, time, SLOTS) && time > 0 && odd <= 1
    ensures (i + 1) * (2 * interval) <= |h|
    ensures SlotIs(Paired(s)[i], h, 2 * interval, 2 * time + odd, i) <==> odd == 0 || Seen(h, 2 * interval, i) == 0
  {
    hide Bytes, Seen;
    assert SlotIs(s[2 * i], h, interval, time, 2 * i);
    assert SlotIs(s[2 * i + 1], h, interval, time, 2 * i + 1);
    assert (2 * i + 2) * interval <= |h|;
    SeenTwice(h, interval, i);
    PairIs(s[2 * i], s[2 * i + 1], time, odd, Seen(h, interval, 2 * i), Seen(h, interval, 2 * i + 1));
  }

  /** Faithful slots and the pending bytes are all that has been seen. */
  lemma {:induction false} Conserved(s: seq<real>, h: seq<nat>, interval: nat, time: nat, n: nat)
    requires n <= |s| && Faithful(s, h, interval, time, n) && n * interval <= |h|
    requires forall i :: n <= i < |s| ==> s[i] == 0.0
    ensures Sum(s) * time as real + Bytes(h, n * interval, |h|) as real == Bytes(h, 0, |h|) as real
  {
    hide Sum, Faithful, Bytes;
    SumTail(s, n);
    SumSeen(s, h, interval, time, n);
    BytesJoin(h, 0, n * interval, |h|);
  }

  lemma {:induction false} SumTail(s: seq<real>, n: nat)
    requires n <= |s| && forall i :: n <= i < |s| ==> s[i] == 0.0
    ensures Sum(s) == Sum(s[..n])
  {
    if n == |s| {
      assert s[..n] == s;
    } else {
      SumTail(s[..|s| - 1], n);
      assert s[..|s| - 1][..n] == s[..n];
    }
  }

  lemma {:induction false} SumSeen(s: seq<real>, h: seq<nat>, interval: nat, time: nat, n: nat)
    requires n <= |s| && Faithful(s, h, interval, time, n) && n * interval <= |h|
    ensures Sum(s[..n]) * time as real == Bytes(h, 0, n * interval) as real
  {
    hide Faithful, SlotIs;
    if n > 0 {
      var m := n - 1;
      assert n * interval == m * interval + interval;
      FaithfulLast(s, h, interval, time, n);
      SumSeen(s, h, interval, time, m);
      assert s[..n][..m] == s[..m];
      SeenNext(s[m], h, interval, time, m);
      Spread(Sum(s[..m]), s[m], time as real);
    }
  }

  lemma FaithfulLast(s: seq<real>, h: seq<nat>, interval: nat, time: nat, n: nat)
    requires n > 0 && Faithful(s, h, interval, time, n)
    ensures Faithful(s, h, interval, time, n - 1) && SlotIs(s[n - 1], h, interval, time, n - 1)
  {
  }

  lemma Spread(a: real, b: real, t: real)
    ensures (a + b) * t == a * t + b * t
  {
  }

  lemma SeenNext(x: real, h: seq<nat>, interval: nat, time: nat, m: nat)
    requires SlotIs(x, h, interval, time, m) && m * interval <= (m + 1) * interval <= |h|
    ensures x * time as real == (Bytes(h, 0, (m + 1) * interval) - Bytes(h, 0, m * interval)) as real
  {
    BytesJoin(h, 0, m * interval, (m + 1) * interval);
  }

  lemma FaithfulLater(s: seq<real>, h: seq<nat>, x: nat, interval: nat, time: nat, n: nat)
    requires n * interval <= |h|
    ensures Faithful(s, h + [x], interval, time, n) <==> Faithful(s, h, interval, time, n)
  {
    forall i: nat | i < n ensures Seen(h + [x], interval, i) == Seen(h, interval, i) {
      Fits(i, n, interval);
      BytesLater(h, x, i * interval, (i + 1) * interval);
    }
    if n <= |s| {
      forall i: nat | i < n ensures SlotIs(s[i], h + [x], interval, time, i) <==> SlotIs(s[i], h, interval, time, i) {
        Fits(i, n, interval);
      }
    }
  }

  /** One more slot filled with its cycles. */
  lemma FaithfulMore(s: seq<real>, h: seq<nat>, interval: nat, time: nat, n: nat, x: real)
    requires n < |s| && (n + 1) * interval <= |h| && SlotIs(x, h, interval, time, n)
    ensures Faithful(s[n := x], h, interval, time, n + 1) <==> Faithful(s, h, interval, time, n)
  {
    var t := s[n := x];
    if Faithful(t, h, interval, time, n + 1) {
      forall i: nat | i < n ensures SlotIs(s[i], h, interval, time, i) { assert SlotIs(t[i], h, interval, time, i); }
    }
  }

  /** The time of one slot. */
  function TimeOf(interval: nat, ticks: nat): nat { interval * ticks / 2 }

  class Recorder {
    const ticks: nat
    const timeline: array<real>
    var index: nat
    var cycle: nat
    var interval: nat
    var traffic: nat
    /** The bytes of every cycle so far. */
    ghost var seen: seq<nat>

    /** The filled slots and the pending cycles are all cycles; unfilled slots are zero. */
    ghost predicate Valid()
      reads this, timeline
    {
      cycle < interval && Kept()
    }

    ghost predicate Kept()
      reads this, timeline
    {
      && timeline.Length == SLOTS && index <= SLOTS && ticks >= 2 && interval > 0
      && index * interval + cycle == |seen|
      && traffic == Bytes(seen, index * interval, |seen|)
      && forall i :: index <= i < SLOTS ==> timeline[i] == 0.0
    }

    /** The slots show what was seen. */
    ghost predicate Exact()
      reads this, timeline
    {
      Faithful(timeline[..], seen, interval, TimeOf(interval, ticks), index)
    }

    constructor (ticks: nat)
      requires ticks >= 2
      ensures Valid() && Exact() && seen == [] && this.ticks == ticks && interval == 1 && fresh(timeline)
    {
      this.ticks := ticks;
      timeline := new real[SLOTS](_ => 0.0);
      index, cycle, interval, traffic := 0, 0, 1, 0;
      seen := [];
    }

    /** Records the bytes of one cycle.  What the slots show stays exact, except that a
        compaction spoils it exactly when an interval is not a whole number of slot times
        and something has been seen. */
    method Tick(bytes: nat)
      requires Valid()
      modifies this, timeline
      ensures Valid() && seen == old(seen) + [bytes]
      ensures interval == if old(index) == 1000 && old(cycle) + 1 == old(interval) then 2 * old(interval) else old(interval)
      ensures interval != old(interval) ==> index == 500
      ensures old(Exact()) ==>
        (Exact() <==> interval == old(interval) || old(interval) * ticks % 2 == 0 || Bytes(old(seen), 0, SLOTS * old(interval)) == 0)
      ensures ticks % 2 == 0 && old(Exact()) ==> Exact()
    {
      hide Faithful, Bytes;
      EvenTicks(interval, ticks);
      ghost var h, s := seen, timeline[..];
      seen := seen + [bytes];
      Pending(h, bytes, index * interval);
      FaithfulLater(s, h, bytes, interval, TimeOf(interval, ticks), index);
      cycle := cycle + 1;
      traffic := traffic + bytes;
      if cycle == interval {
        if index < SLOTS {
          FillSlot();
        } else {
          BytesLater(h, bytes, 0, SLOTS * interval);
          Compact();
        }
      }
    }

    /** The slots and the pending bytes add up to everything that was seen. */
    lemma Balance()
      requires Valid() && Exact()
      ensures Sum(timeline[..]) * TimeOf(interval, ticks) as real + traffic as real == Bytes(seen, 0, |seen|) as real
    {
      hide Faithful, Bytes, Sum, TimeOf;
      Conserved(timeline[..], seen, interval, TimeOf(interval, ticks), index);
    }

    method FillSlot()
      requires Kept() && cycle == interval && index < SLOTS
      modifies this`index, this`traffic, this`cycle, timeline
      ensures Valid() && (Exact() <==> old(Exact()))
    {
      hide Faithful, Bytes;
      ghost var s := timeline[..];
      SlotTime(interval, ticks);
      var time := TimeOf(interval, ticks) as real;
      ghost var x := traffic as real / time;
      assert (index + 1) * interval == |seen|;
      assert SlotIs(x, seen, interval, TimeOf(interval, ticks), index);
      FaithfulMore(s, seen, interval, TimeOf(interval, ticks), index, x);
      timeline[index] := traffic as real / time;
      assert timeline[..] == s[index := x];
      index := index + 1;
      traffic := 0;
      cycle := 0;
      assert Bytes(seen, index * interval, |seen|) == 0 by { NoBytes(seen); }
    }

    method Compact()
      requires Kept() && cycle == interval && index == SLOTS
      modifies this`index, this`interval, timeline
      ensures Valid() && interval == 2 * old(interval) && index == HALF
      ensures old(Exact()) ==>
        (Exact() <==> old(interval) * ticks % 2 == 0 || Bytes(seen, 0, SLOTS * old(interval)) == 0)
    {
      hide Faithful, Bytes;
      ghost var s := timeline[..];
      assert interval * ticks >= 2 by { SlotTime(interval, ticks); }
      if Exact() { Averaged(s, seen, interval, ticks); }
      interval := interval * 2;
      AverageInPlace();
      index := HALF;
      assert HALF * interval == SLOTS * old(interval);
    }

    /** The first half of the slots becomes the averages, the second half zero. */
    method AverageInPlace()
      requires timeline.Length == SLOTS
      modifies timeline
      ensures timeline[..] == Paired(old(timeline[..]))
    {
      ghost var s := timeline[..];
      AverageUp();
      ghost var t := timeline[..];
      var i := HALF;
      while i < SLOTS
        invariant HALF <= i <= SLOTS
        invariant timeline[..HALF] == t[..HALF]
        invariant forall j :: HALF <= j < i ==> timeline[j] == 0.0
      {
        timeline[i] := 0.0;
        i := i + 1;
      }
      PairedIs(s, t, timeline[..]);
    }

    /** The first half of the slots becomes the averages; every slot is read before it is
        written. */
    method AverageUp()
      requires timeline.Length == SLOTS
      modifies timeline
      ensures forall j :: 0 <= j < HALF ==> timeline[j] == Average(old(timeline[..]), j)
    {
      ghost var s := timeline[..];
      hide Average;
      var i := 0;
      while i < HALF
        invariant 0 <= i <= HALF
        invariant forall j :: 0 <= j < i ==> timeline[j] == Average(s, j)
        invariant forall j :: i <= j < SLOTS ==> timeline[j] == s[j]
      {
        AverageIs(s, i);
        timeline[i] := (timeline[2 * i] + timeline[2 * i + 1]) / 2.0;
        i := i + 1;
      }
    }
  }

  lemma AverageIs(s: seq<real>, i: nat)
    requires |s| == SLOTS && i < HALF
    ensures Average(s, i) == (s[2 * i] + s[2 * i + 1]) / 2.0
  {
  }

  lemma PairedIs(s: seq<real>, t: seq<real>, u: seq<real>)
    requires |s| == |t| == |u| == SLOTS && u[..HALF] == t[..HALF]
    requires forall j :: 0 <= j < HALF ==> t[j] == Average(s, j)
    requires forall j :: HALF <= j < SLOTS ==> u[j] == 0.0
    ensures u == Paired(s)
  {
    hide Average;
    forall j | 0 <= j < SLOTS ensures u[j] == Paired(s)[j] {
      if j < HALF { assert u[j] == u[..HALF][j] == t[..HALF][j]; }
    }
  }

  /** A slot takes some time. */
  lemma SlotTime(interval: nat, ticks: nat)
    requires interval > 0 && ticks >= 2
    ensures interval * ticks >= 2 && interval * ticks / 2 > 0
  {
    assert interval * ticks == ticks + (interval - 1) * ticks;
  }

  lemma EvenTicks(interval: nat, ticks: nat)
    ensures ticks % 2 == 0 ==> interval * ticks % 2 == 0
  {
    if ticks % 2 == 0 { assert interval * ticks == 2 * (interval * (ticks / 2)); }
  }

  lemma NoBytes(h: seq<nat>)
    ensures Bytes(h, |h|, |h|) == 0
  {
  }

  lemma Pending(h: seq<nat>, x: nat, a: nat)
    requires a <= |h|
    ensures Bytes(h + [x], a, |h| + 1) == Bytes(h, a, |h|) + x
  {
    BytesLater(h, x, a, |h|);
  }
}
