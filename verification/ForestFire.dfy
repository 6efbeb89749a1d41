/** Forest-fire graphs: every new vertex is joined to the vertices a fire reaches that
    starts at a random old one (updown/apps/pagerank/graph_generators.py:386-497).  What is
    drawn is given: `starts(n)` is the parent of vertex `n`, and `draws(n, v)` the number
    drawn where `v` burns in the fire for `n`; a shuffled order is an arbitrary choice. */
module ForestFire {
  import opened Seqs

  /** A walk along the edges of `N`. */
  ghost predicate Walk(N: seq<seq<nat>>, p: seq<nat>) {
    p != [] && (forall i :: 0 <= i < |p| ==> p[i] < |N|) && forall i :: 0 < i < |p| ==> Edge(N, p[i - 1], p[i])
  }

  ghost predicate Edge(N: seq<seq<nat>>, u: nat, v: nat) {
    u < |N| && v in N[u]
  }

  ghost predicate Joins(N: seq<seq<nat>>, p: seq<nat>, u: nat, v: nat) {
    Walk(N, p) && p[0] == u && p[|p| - 1] == v
  }

  ghost predicate Linked(N: seq<seq<nat>>, u: nat, v: nat) {
    exists p :: Joins(N, p, u, v)
  }

  /** A walk from `u` to `v` that stays in `s`. */
  ghost predicate Within(N: seq<seq<nat>>, s: set<nat>, u: nat, v: nat) {
    exists p :: Joins(N, p, u, v) && forall i :: 0 <= i < |p| ==> p[i] in s
  }

  /** The first `n` lists are the graph, each neighbour once; the others are empty. */
  ghost predicate Listed(N: seq<seq<nat>>, n: nat) {
    && n <= |N|
    && (forall u :: 0 <= u < n ==> Distinct(N[u]))
    && (forall u, v :: 0 <= u < n && v in N[u] ==> v < n)
    && forall u :: n <= u < |N| ==> N[u] == []
  }

  ghost predicate LoopFree(N: seq<seq<nat>>, n: nat)
    requires n <= |N|
  {
    forall u :: 0 <= u < n ==> u !in N[u]
  }

  ghost predicate Symmetric(N: seq<seq<nat>>, n: nat)
    requires n <= |N|
  {
    forall u, v :: 0 <= u < n && 0 <= v < n ==> (v in N[u] <==> u in N[v])
  }

  ghost predicate Connected(N: seq<seq<nat>>, n: nat) {
    forall u, v :: 0 <= u < n && 0 <= v < n ==> Linked(N, u, v)
  }

  /** The fire so far: `walked` lists the burnt vertices, each once, first the start; each
      is reached through burnt ones; only burnt vertices are about to burn on. */
  ghost predicate Fire(G: seq<seq<nat>>, n: nat, v0: nat, walked: seq<nat>, burnt: set<nat>) {
    && walked != [] && walked[0] == v0 && Distinct(walked)
    && (forall x :: x in walked <==> x in burnt)
    && forall x :: x in burnt ==> x < n && Within(G, burnt, v0, x)
  }

  /** A burnt vertex `v` burns on, in this round of the fire, to these vertices. */
  datatype Blaze = Blaze(v: nat, round: nat, picked: seq<nat>)

  /** The burnt vertices in the order in which they catch fire. */
  function Trail(v0: nat, log: seq<Blaze>): (t: seq<nat>)
    decreases |log|
  {
    if log == [] then [v0] else Trail(v0, log[..|log| - 1]) + log[|log| - 1].picked
  }

  ghost predicate Burned(log: seq<Blaze>, x: nat) {
    exists i :: 0 <= i < |log| && log[i].v == x
  }

  /** The neighbours of `u` below `n` that have not caught fire. */
  ghost function Unburnt(N: seq<seq<nat>>, n: nat, u: nat, walked: seq<nat>): set<nat>
    requires u < |N|
  {
    set x | x in N[u] && x < n && x !in walked
  }

  /** As many of them catch fire as are drawn, or all. */
  ghost predicate Burns(N: seq<seq<nat>>, n: nat, draws: (nat, nat) -> nat, walked: seq<nat>, b: Blaze) {
    && b.v < n <= |N| && Distinct(b.picked)
    && (forall x :: x in b.picked ==> x in Unburnt(N, n, b.v, walked))
    && |b.picked| == if draws(n, b.v) < |Unburnt(N, n, b.v, walked)| then draws(n, b.v) else |Unburnt(N, n, b.v, walked)|
  }

  ghost predicate Course(N: seq<seq<nat>>, n: nat, draws: (nat, nat) -> nat, v0: nat, log: seq<Blaze>) {
    forall i :: 0 <= i < |log| ==> Burns(N, n, draws, Trail(v0, log[..i]), log[i])
  }

  /** Each vertex burns once, the start in round 0, every other one in the round after the one
      in which it caught fire, and one round after the other. */
  ghost predicate Rounds(v0: nat, log: seq<Blaze>) {
    && (forall i, j :: 0 <= i < j < |log| ==> log[i].v != log[j].v && log[i].round <= log[j].round)
    && (forall i :: 0 <= i < |log| && log[i].v == v0 ==> log[i].round == 0)
    && forall i, j :: 0 <= i < |log| && 0 <= j < |log| && log[j].v in log[i].picked ==> log[j].round == log[i].round + 1
  }

  /** The fire for vertex `n` from its start until nothing burns any more. */
  ghost predicate BurntOut(N: seq<seq<nat>>, n: nat, draws: (nat, nat) -> nat, v0: nat, log: seq<Blaze>) {
    && Course(N, n, draws, v0, log) && Rounds(v0, log)
    && forall x :: x in Trail(v0, log) <==> Burned(log, x)
  }

  /** The fire in round `r`: `waiting` has still to burn in it, `next` in the next one. */
  ghost predicate Raging(N: seq<seq<nat>>, n: nat, draws: (nat, nat) -> nat, v0: nat, log: seq<Blaze>, waiting: set<nat>, next: set<nat>, r: nat) {
    && Course(N, n, draws, v0, log) && Rounds(v0, log)
    && AllInFire(v0, log, waiting, next) && InTurn(v0, log, waiting, next, r)
  }

  ghost predicate AllInFire(v0: nat, log: seq<Blaze>, waiting: set<nat>, next: set<nat>) {
    && (forall x :: x in Trail(v0, log) <==> Burned(log, x) || x in waiting || x in next)
    && (forall x :: x in waiting ==> x !in next && !Burned(log, x)) && forall x :: x in next ==> !Burned(log, x)
  }

  ghost predicate InTurn(v0: nat, log: seq<Blaze>, waiting: set<nat>, next: set<nat>, r: nat) {
    && (forall i :: 0 <= i < |log| ==> log[i].round <= r)
    && (forall i, x :: 0 <= i < |log| && x in log[i].picked && x in waiting ==> log[i].round + 1 == r)
    && (forall i, x :: 0 <= i < |log| && x in log[i].picked && x in next ==> log[i].round == r)
    && (v0 in waiting ==> r == 0) && v0 !in next
  }

  lemma TrailMore(v0: nat, log: seq<Blaze>, b: Blaze)
    ensures Trail(v0, log + [b]) == Trail(v0, log) + b.picked
    ensures forall i :: 0 <= i <= |log| ==> (log + [b])[..i] == log[..i]
  {
    assert (log + [b])[..|log|] == log;
  }

  lemma TrailKeepsStart(v0: nat, log: seq<Blaze>)
    ensures v0 in Trail(v0, log)
    decreases |log|
  {
    if log != [] { TrailKeepsStart(v0, log[..|log| - 1]); }
  }

  /** One more vertex burns. */
  lemma RagesOn(N: seq<seq<nat>>, n: nat, draws: (nat, nat) -> nat, v0: nat, log: seq<Blaze>, waiting: set<nat>, next: set<nat>, b: Blaze)
    requires Raging(N, n, draws, v0, log, waiting, next, b.round) && b.v in waiting && Burns(N, n, draws, Trail(v0, log), b)
    ensures Raging(N, n, draws, v0, log + [b], waiting - {b.v}, next + (set x | x in b.picked), b.round)
    ensures Trail(v0, log + [b]) == Trail(v0, log) + b.picked
  {
    hide Distinct, Rounds, AllInFire, InTurn, Burns;
    TrailMore(v0, log, b);
    var more := log + [b];
    assert log[..|log|] == log;
    forall i | 0 <= i < |more| ensures Burns(N, n, draws, Trail(v0, more[..i]), more[i]) {
      assert more[..i] == log[..i];
    }
    FreshlyLit(N, n, draws, Trail(v0, log), b);
    RoundsOn(v0, log, waiting, next, b);
    AllStillInFire(v0, log, waiting, next, b);
    StillInTurn(v0, log, waiting, next, b);
  }

  lemma FreshlyLit(N: seq<seq<nat>>, n: nat, draws: (nat, nat) -> nat, walked: seq<nat>, b: Blaze)
    requires Burns(N, n, draws, walked, b)
    ensures forall x :: x in b.picked ==> x !in walked
  {
  }

  lemma AllStillInFire(v0: nat, log: seq<Blaze>, waiting: set<nat>, next: set<nat>, b: Blaze)
    requires AllInFire(v0, log, waiting, next) && b.v in waiting && forall x :: x in b.picked ==> x !in Trail(v0, log)
    ensures AllInFire(v0, log + [b], waiting - {b.v}, next + (set x | x in b.picked))
  {
    hide Trail, Burned;
    TrailMore(v0, log, b);
    BurnedMore(log, b);
  }

  lemma StillInTurn(v0: nat, log: seq<Blaze>, waiting: set<nat>, next: set<nat>, b: Blaze)
    requires AllInFire(v0, log, waiting, next) && InTurn(v0, log, waiting, next, b.round)
    requires b.v in waiting && forall x :: x in b.picked ==> x !in Trail(v0, log)
    ensures InTurn(v0, log + [b], waiting - {b.v}, next + (set x | x in b.picked), b.round)
  {
    hide Burned;
    TrailKeepsStart(v0, log);
    CaughtSince(v0, log);
  }

  lemma BurnedMore(log: seq<Blaze>, b: Blaze)
    ensures forall x :: Burned(log + [b], x) <==> Burned(log, x) || x == b.v
  {
    var more := log + [b];
    forall x ensures Burned(more, x) <==> Burned(log, x) || x == b.v {
      if Burned(log, x) {
        var i :| 0 <= i < |log| && log[i].v == x;
        assert more[i].v == x;
      }
      assert more[|log|] == b;
    }
  }

  /** What caught fire is on the trail. */
  lemma {:induction false} CaughtSince(v0: nat, log: seq<Blaze>)
    ensures forall i, x :: 0 <= i < |log| && x in log[i].picked ==> x in Trail(v0, log)
    decreases |log|
  {
    if log != [] {
      var front := log[..|log| - 1];
      CaughtSince(v0, front);
      forall i, x | 0 <= i < |log| && x in log[i].picked ensures x in Trail(v0, log) {
        if i < |front| { assert front[i] == log[i]; }
      }
    }
  }

  lemma RoundsOn(v0: nat, log: seq<Blaze>, waiting: set<nat>, next: set<nat>, b: Blaze)
    requires AllInFire(v0, log, waiting, next) && InTurn(v0, log, waiting, next, b.round) && Rounds(v0, log)
    requires b.v in waiting && forall x :: x in b.picked ==> x !in Trail(v0, log)
    ensures Rounds(v0, log + [b])
  {
    forall i | 0 <= i < |log| ensures log[i].v != b.v && log[i].v !in b.picked {
      assert Burned(log, log[i].v);
    }
    hide Trail, Burned, AllInFire;
    var more := log + [b];
    assert forall i :: 0 <= i < |log| ==> more[i] == log[i];
  }

  /** The next round begins. */
  lemma NextRound(N: seq<seq<nat>>, n: nat, draws: (nat, nat) -> nat, v0: nat, log: seq<Blaze>, next: set<nat>, r: nat)
    requires Raging(N, n, draws, v0, log, {}, next, r)
    ensures Raging(N, n, draws, v0, log, next, {}, r + 1)
    ensures next == {} ==> BurntOut(N, n, draws, v0, log)
  {
    hide Course, Rounds, Burned, Trail;
  }

  lemma RageBegins(N: seq<seq<nat>>, n: nat, draws: (nat, nat) -> nat, v0: nat)
    ensures Raging(N, n, draws, v0, [], {v0}, {}, 0) && Trail(v0, []) == [v0]
  {
  }

  /** A fire in the old graph is one in the graph with a later vertex. */
  lemma BurntOutKept(G: seq<seq<nat>>, m: nat, W: seq<nat>, N: seq<seq<nat>>, n: nat, draws: (nat, nat) -> nat, v0: nat, log: seq<Blaze>)
    requires Grafted(G, m, W, N) && n <= m && BurntOut(G, n, draws, v0, log)
    ensures BurntOut(N, n, draws, v0, log)
  {
    hide Rounds, Burned, Trail, Distinct;
    forall i | 0 <= i < |log| ensures Burns(N, n, draws, Trail(v0, log[..i]), log[i]) {
      var walked := Trail(v0, log[..i]);
      assert Burns(G, n, draws, walked, log[i]);
      assert Unburnt(N, n, log[i].v, walked) == Unburnt(G, n, log[i].v, walked);
    }
  }

  lemma Ignited(G: seq<seq<nat>>, n: nat, v0: nat)
    requires v0 < n <= |G|
    ensures Fire(G, n, v0, [v0], {v0})
  {
    assert Joins(G, [v0], v0, v0);
  }

  /** Fire spreads along an edge to a vertex that is not burnt. */
  lemma Spreads(G: seq<seq<nat>>, n: nat, v0: nat, walked: seq<nat>, burnt: set<nat>, v: nat, x: nat)
    requires Listed(G, n) && Fire(G, n, v0, walked, burnt) && v in burnt && x in G[v] && x !in burnt
    ensures Fire(G, n, v0, walked + [x], burnt + {x})
  {
    DistinctAppend(walked, x);
    forall y | y in burnt ensures Within(G, burnt + {x}, v0, y) {
      var p :| Joins(G, p, v0, y) && forall i :: 0 <= i < |p| ==> p[i] in burnt;
    }
    var p :| Joins(G, p, v0, v) && forall i :: 0 <= i < |p| ==> p[i] in burnt;
    assert Edge(G, v, x);
    WalkOn(G, p, x);
    assert Joins(G, p + [x], v0, x);
  }

  lemma WalkOn(N: seq<seq<nat>>, p: seq<nat>, x: nat)
    requires Walk(N, p) && Edge(N, p[|p| - 1], x) && x < |N|
    ensures Walk(N, p + [x])
  {
  }

  lemma WalkFrom(N: seq<seq<nat>>, x: nat, p: seq<nat>)
    requires Walk(N, p) && Edge(N, x, p[0])
    ensures Walk(N, [x] + p)
  {
    var q := [x] + p;
    forall i | 0 < i < |q| ensures Edge(N, q[i - 1], q[i]) {
      if i > 1 { assert q[i - 1] == p[i - 2] && q[i] == p[i - 1] && Edge(N, p[i - 2], p[i - 1]); }
    }
  }

  /** `W` joined to the graph as its vertex `n`. */
  ghost predicate Grafted(G: seq<seq<nat>>, n: nat, W: seq<nat>, N: seq<seq<nat>>) {
    && |N| == |G| && n < |G| && N[n] == W
    && forall u :: 0 <= u < |G| && u != n ==> N[u] == if u in W then G[u] + [n] else G[u]
  }

  /** Joining a vertex to some old ones, both ways, adds no loop and no one-way edge. */
  lemma GraftListed(G: seq<seq<nat>>, n: nat, W: seq<nat>, N: seq<seq<nat>>)
    requires Listed(G, n) && Grafted(G, n, W, N) && Distinct(W) && forall x :: x in W ==> x < n
    ensures Listed(N, n + 1)
    ensures LoopFree(N, n + 1) <==> LoopFree(G, n)
    ensures Symmetric(N, n + 1) <==> Symmetric(G, n)
  {
    forall u | 0 <= u < n ensures Distinct(N[u]) && (forall v :: v in N[u] <==> v in G[u] || (v == n && u in W)) && n !in G[u] {
      if n in G[u] { assert false; }
      DistinctAppend(G[u], n);
    }
    if Symmetric(N, n + 1) {
      forall u, v | 0 <= u < n && 0 <= v < n ensures v in G[u] <==> u in G[v] {
        assert v in N[u] <==> u in N[v];
      }
    }
    if LoopFree(N, n + 1) {
      forall u | 0 <= u < n ensures u !in G[u] { assert u !in N[u]; }
    }
  }

  lemma GraftConnected(G: seq<seq<nat>>, n: nat, W: seq<nat>, N: seq<seq<nat>>)
    requires Listed(G, n) && Connected(G, n) && Grafted(G, n, W, N) && W != [] && W[0] < n
    ensures Connected(N, n + 1)
  {
    forall u, v | 0 <= u < n + 1 && 0 <= v < n + 1 ensures Linked(N, u, v) {
      if u == n && v == n {
        assert Joins(N, [n], n, n);
      } else if u == n {
        assert Linked(G, W[0], v);
        var p :| Joins(G, p, W[0], v);
        WalkKept(G, n, W, N, p);
        assert Edge(N, n, W[0]);
        WalkFrom(N, n, p);
        assert Joins(N, [n] + p, n, v);
      } else if v == n {
        assert Linked(G, u, W[0]);
        var p :| Joins(G, p, u, W[0]);
        WalkKept(G, n, W, N, p);
        assert Edge(N, W[0], n);
        WalkOn(N, p, n);
        assert Joins(N, p + [n], u, n);
      } else {
        assert Linked(G, u, v);
        var p :| Joins(G, p, u, v);
        WalkKept(G, n, W, N, p);
        assert Joins(N, p, u, v);
      }
    }
  }

  /** Walks in the old graph are walks in the new one. */
  lemma WalkKept(G: seq<seq<nat>>, n: nat, W: seq<nat>, N: seq<seq<nat>>, p: seq<nat>)
    requires Listed(G, n) && Grafted(G, n, W, N) && Walk(G, p)
    ensures Walk(N, p)
  {
    forall i | 0 < i < |p| ensures Edge(N, p[i - 1], p[i]) {
      assert Edge(G, p[i - 1], p[i]);
    }
  }

  /** The neighbours of `v` that were there before it. */
  ghost function Older(N: seq<seq<nat>>, v: nat): set<nat>
    requires v < |N|
  {
    set x | x in N[v] && x < v
  }

  /** The older neighbours of `v` are what a fire started at `p` burns: `p` and vertices
      linked to it through others of them, as many as were drawn for each. */
  ghost predicate BurntFrom(N: seq<seq<nat>>, v: nat, p: int, draws: (nat, nat) -> nat)
    requires v < |N|
  {
    && 0 <= p < v && p in Older(N, v)
    && (forall x :: x in Older(N, v) ==> Within(N, Older(N, v), p, x))
    && exists log :: FireOf(N, v, p, draws, log)
  }

  /** The list of `v` begins with the trail of this fire, in its order. */
  ghost predicate FireOf(N: seq<seq<nat>>, v: nat, p: nat, draws: (nat, nat) -> nat, log: seq<Blaze>)
    requires v < |N|
  {
    BurntOut(N, v, draws, p, log) && Trail(p, log) <= N[v]
  }

  /** `N` has grown from the graph `seed` by `n - |seed|` fires, started at the parents: it
      is without loops, symmetric, and connected, as `seed` is. */
  ghost predicate Grown(seed: seq<seq<nat>>, N: seq<seq<nat>>, parents: seq<int>, n: nat, draws: (nat, nat) -> nat) {
    && |seed| <= n <= |N| == |parents|
    && Listed(N, n)
    && (LoopFree(N, n) <==> LoopFree(seed, |seed|)) && (Symmetric(N, n) <==> Symmetric(seed, |seed|))
    && (Connected(seed, |seed|) ==> Connected(N, n))
    && (forall u, v :: 0 <= u < |seed| && 0 <= v < |seed| ==> (v in N[u] <==> v in seed[u]))
    && (forall v :: 0 <= v < |seed| ==> parents[v] == v)
    && forall v :: |seed| <= v < n ==> BurntFrom(N, v, parents[v], draws)
  }

  lemma WithinKept(G: seq<seq<nat>>, n: nat, W: seq<nat>, N: seq<seq<nat>>, s: set<nat>, u: nat, v: nat)
    requires Listed(G, n) && Grafted(G, n, W, N) && Within(G, s, u, v)
    ensures Within(N, s, u, v)
  {
    var p :| Joins(G, p, u, v) && forall i :: 0 <= i < |p| ==> p[i] in s;
    WalkKept(G, n, W, N, p);
    assert Joins(N, p, u, v);
  }

  lemma OlderKept(G: seq<seq<nat>>, n: nat, W: seq<nat>, N: seq<seq<nat>>, v: nat, p: int, draws: (nat, nat) -> nat)
    requires Listed(G, n) && Grafted(G, n, W, N) && v < n && BurntFrom(G, v, p, draws)
    ensures BurntFrom(N, v, p, draws)
  {
    hide BurntOut, Trail;
    var log :| FireOf(G, v, p, draws, log);
    BurntOutKept(G, n, W, N, v, draws, p, log);
    assert FireOf(N, v, p, draws, log);
    assert Older(N, v) == Older(G, v);
    forall x | x in Older(N, v) ensures Within(N, Older(N, v), p, x) {
      WithinKept(G, n, W, N, Older(G, v), p, x);
    }
  }

  lemma BurntGrafted(G: seq<seq<nat>>, n: nat, W: seq<nat>, N: seq<seq<nat>>, v0: nat, burnt: set<nat>, draws: (nat, nat) -> nat, log: seq<Blaze>)
    requires Listed(G, n) && Grafted(G, n, W, N) && Fire(G, n, v0, W, burnt)
    requires BurntOut(G, n, draws, v0, log) && W == Trail(v0, log)
    ensures BurntFrom(N, n, v0, draws)
  {
    hide BurntOut, Trail;
    BurntOutKept(G, n, W, N, n, draws, v0, log);
    assert FireOf(N, n, v0, draws, log);
    assert Older(N, n) == burnt;
    assert W[0] in W;
    forall x | x in burnt ensures Within(N, burnt, v0, x) {
      WithinKept(G, n, W, N, burnt, v0, x);
    }
  }

  /** One more vertex, joined to what the fire started at `v0` burns. */
  lemma GrowsOn(seed: seq<seq<nat>>, G: seq<seq<nat>>, parents: seq<int>, n: nat, v0: nat, burnt: set<nat>, N: seq<seq<nat>>, draws: (nat, nat) -> nat, log: seq<Blaze>)
    requires BurntOut(G, n, draws, v0, log) && n < |N| && N[n] == Trail(v0, log)
    requires Grown(seed, G, parents, n, draws) && n < |G| == |N| && Fire(G, n, v0, N[n], burnt)
    requires Grafted(G, n, N[n], N)
    ensures Grown(seed, N, parents[n := v0], n + 1, draws)
  {
    hide BurntFrom, Connected, Within, LoopFree, Symmetric, BurntOut, Trail;
    assert N[n][0] in N[n];
    GraftListed(G, n, N[n], N);
    if Connected(G, n) { GraftConnected(G, n, N[n], N); }
    forall v | |seed| <= v < n ensures BurntFrom(N, v, parents[v], draws) {
      OlderKept(G, n, N[n], N, v, parents[v], draws);
    }
    BurntGrafted(G, n, N[n], N, v0, burnt, draws, log);
  }

  /** The elements in a random order. */
  method Shuffle(s: seq<nat>) returns (r: seq<nat>)
    ensures multiset(r) == multiset(s)
  {
    r := s;
    var i := |s|;
    while i > 1
      invariant 0 <= i <= |s| && |r| == |s| && multiset(r) == multiset(s)
    {
      i := i - 1;
      var j: nat :| j <= i;
      SwapPermutes(r, i, j);
      r := Swapped(r, i, j);
    }
  }

  ghost function Alive(s: seq<nat>, burnt: set<nat>): set<nat> { set x | x in s && x !in burnt }

  class Generator {
    var neighbors: seq<seq<nat>>
    var parents: seq<int>

    /** The neighbours of `v` that are not burnt. */
    method Survivors(v: nat, burnt: set<nat>) returns (alive: seq<nat>)
      requires v < |neighbors| && Distinct(neighbors[v])
      ensures Distinct(alive) && forall x :: x in alive <==> x in neighbors[v] && x !in burnt
      ensures |alive| == |Alive(neighbors[v], burnt)|
    {
      alive := [];
      var k := 0;
      while k < |neighbors[v]|
        invariant 0 <= k <= |neighbors[v]| && Distinct(alive)
        invariant forall x :: x in alive <==> x in neighbors[v][..k] && x !in burnt
      {
        var j := neighbors[v][k];
        assert j !in neighbors[v][..k];
        if j !in burnt {
          DistinctAppend(alive, j);
          alive := alive + [j];
        }
        assert neighbors[v][..k + 1] == neighbors[v][..k] + [j];
        k := k + 1;
      }
      assert neighbors[v][..k] == neighbors[v];
      DistinctSize(alive, Alive(neighbors[v], burnt));
    }

    /** Burns some of the survivors around `v`, as many as are drawn. */
    method Ignite(newV: nat, v: nat, y: nat, burnt0: set<nat>, toburn0: set<nat>, ghost G: seq<seq<nat>>, ghost v0: nat)
      returns (burnt: set<nat>, toburn: set<nat>, ghost picked: seq<nat>)
      requires newV < |G| == |neighbors| && Listed(G, newV) && neighbors == G[newV := neighbors[newV]]
      requires Fire(G, newV, v0, neighbors[newV], burnt0) && v in burnt0 && toburn0 <= burnt0
      modifies this`neighbors
      ensures |neighbors| == |G| && neighbors == G[newV := neighbors[newV]]
      ensures Fire(G, newV, v0, neighbors[newV], burnt) && burnt0 <= burnt && toburn <= burnt
      ensures burnt == burnt0 + (set x | x in picked) && toburn == toburn0 + (set x | x in picked)
      ensures neighbors[newV] == old(neighbors[newV]) + picked
      ensures Distinct(picked) && forall x :: x in picked ==> x in G[v] && x !in burnt0
      ensures |picked| == if y < |Alive(G[v], burnt0)| then y else |Alive(G[v], burnt0)|
    {
      picked := [];
      burnt, toburn := burnt0, toburn0;
      var alive := Survivors(v, burnt);
      if |alive| > 0 {
        var shuffled := Shuffle(alive);
        DistinctByMultiset(alive, shuffled);
        SameMembers(shuffled, alive);
        var newEdges := if y < |shuffled| then y else |shuffled|;
        ghost var walked := neighbors[newV];
        var i := 0;
        while i < newEdges
          invariant 0 <= i <= newEdges <= |shuffled|
          invariant |neighbors| == |G| && neighbors == G[newV := neighbors[newV]]
          invariant Fire(G, newV, v0, neighbors[newV], burnt) && burnt0 <= burnt
          invariant picked == shuffled[..i] && neighbors[newV] == walked + picked
          invariant burnt == burnt0 + (set x | x in picked) && toburn == toburn0 + (set x | x in picked)
        {
          var x := shuffled[i];
          assert x in alive && x in G[v] && x !in burnt;
          Spreads(G, newV, v0, neighbors[newV], burnt, v, x);
          picked := picked + [x];
          toburn := toburn + {x};
          burnt := burnt + {x};
          neighbors := neighbors[newV := neighbors[newV] + [x]];
          i := i + 1;
        }
      }
    }

    /** The fire for the new vertex, started at `v0`: it ends, and its burnt vertices are the
        neighbours of the new vertex. */
    method Burn(newV: nat, v0: nat, draws: (nat, nat) -> nat) returns (ghost burnt: set<nat>, ghost log: seq<Blaze>)
      requires newV < |neighbors| && v0 < newV && Listed(neighbors, newV)
      modifies this`neighbors
      ensures |neighbors| == |old(neighbors)| && neighbors == old(neighbors)[newV := neighbors[newV]]
      ensures Fire(old(neighbors), newV, v0, neighbors[newV], burnt)
      ensures BurntOut(old(neighbors), newV, draws, v0, log) && neighbors[newV] == Trail(v0, log)
    {
      hide Raging, BurntOut;
      log := [];
      ghost var r := 0;
      ghost var G := neighbors;
      neighbors := neighbors[newV := neighbors[newV] + [v0]];
      var toburn, all := {v0}, {v0};
      Ignited(G, newV, v0);
      RageBegins(G, newV, draws, v0);
      while |toburn| > 0
        invariant |neighbors| == |G| && neighbors == G[newV := neighbors[newV]]
        invariant Fire(G, newV, v0, neighbors[newV], all) && toburn <= all
        invariant Raging(G, newV, draws, v0, log, toburn, {}, r) && neighbors[newV] == Trail(v0, log)
        invariant toburn == {} ==> BurntOut(G, newV, draws, v0, log)
        decreases newV - |all|, |toburn|
      {
        ghost var before := all;
        all, toburn, log := BurnOn(newV, all, toburn, draws, G, v0, log, r);
        NextRound(G, newV, draws, v0, log, toburn, r);
        r := r + 1;
        if toburn != {} {
          SubsetSize(before + toburn, all);
          RangeBound(all, newV);
        }
      }
      burnt := all;
    }

    /** One round: every burning vertex spreads the fire. */
    method BurnOn(newV: nat, burnt0: set<nat>, toburn0: set<nat>, draws: (nat, nat) -> nat,
                  ghost G: seq<seq<nat>>, ghost v0: nat, ghost log0: seq<Blaze>, ghost r: nat)
      returns (burnt: set<nat>, toburn: set<nat>, ghost log: seq<Blaze>)
      requires newV < |G| == |neighbors| && Listed(G, newV) && neighbors == G[newV := neighbors[newV]]
      requires Fire(G, newV, v0, neighbors[newV], burnt0) && toburn0 <= burnt0
      requires Raging(G, newV, draws, v0, log0, toburn0, {}, r) && neighbors[newV] == Trail(v0, log0)
      modifies this`neighbors
      ensures |neighbors| == |G| && neighbors == G[newV := neighbors[newV]]
      ensures Fire(G, newV, v0, neighbors[newV], burnt) && burnt0 <= burnt && toburn == burnt - burnt0
      ensures Raging(G, newV, draws, v0, log, {}, toburn, r) && neighbors[newV] == Trail(v0, log)
    {
      hide Fire, Listed, Raging, Burns;
      var burning := toburn0;
      burnt, toburn := burnt0, {};
      log := log0;
      while burning != {}
        invariant |neighbors| == |G| && neighbors == G[newV := neighbors[newV]]
        invariant Fire(G, newV, v0, neighbors[newV], burnt) && burnt0 <= burnt && burning <= burnt && toburn == burnt - burnt0
        invariant Raging(G, newV, draws, v0, log, burning, toburn, r) && neighbors[newV] == Trail(v0, log)
        decreases burning
      {
        var v :| v in burning;
        ghost var walked, all := neighbors[newV], burnt;
        ghost var picked: seq<nat>;
        burnt, toburn, picked := Ignite(newV, v, draws(newV, v), burnt, toburn, G, v0);
        BurnsAs(G, newV, draws, v0, walked, all, Blaze(v, r, picked));
        RagesOn(G, newV, draws, v0, log, burning, toburn - (set x | x in picked), Blaze(v, r, picked));
        log := log + [Blaze(v, r, picked)];
        burning := burning - {v};
      }
    }

    /** Makes the new edges symmetric. */
    method Symmetrize(newV: nat, ghost G: seq<seq<nat>>)
      requires newV < |neighbors| == |G| && neighbors == G[newV := neighbors[newV]]
      requires Distinct(neighbors[newV]) && forall x :: x in neighbors[newV] ==> x < newV
      modifies this`neighbors
      ensures |neighbors| == |G| && neighbors[newV] == old(neighbors[newV]) && Grafted(G, newV, neighbors[newV], neighbors)
    {
      ghost var W := neighbors[newV];
      var i := 0;
      while i < |neighbors[newV]|
        invariant |neighbors| == |G| && neighbors[newV] == W && 0 <= i <= |W|
        invariant forall u :: 0 <= u < |G| && u != newV ==> neighbors[u] == if u in W[..i] then G[u] + [newV] else G[u]
      {
        var v := neighbors[newV][i];
        assert v in W && v !in W[..i];
        assert W[..i + 1] == W[..i] + [v];
        neighbors := neighbors[v := neighbors[v] + [newV]];
        i := i + 1;
      }
      assert W[..i] == W;
    }

    /** Grows the graph `seed` to `targetSize` vertices by one fire for each new
        vertex.  A target below the seed's size, and an empty seed to be grown, are errors. */
    method FromSeed(seed: seq<seq<nat>>, targetSize: nat, starts: nat -> nat, draws: (nat, nat) -> nat) returns (ok: bool)
      requires Listed(seed, |seed|) && forall n :: n > 0 ==> starts(n) < n
      modifies this
      ensures ok <==> |seed| <= targetSize && (seed == [] ==> targetSize == 0)
      ensures ok ==> |neighbors| == targetSize && Grown(seed, neighbors, parents, targetSize, draws)
      ensures ok ==> |parents| == targetSize && forall v :: |seed| <= v < targetSize ==> parents[v] == starts(v)
    {
      hide BurntOut, Trail, Grown, Listed, Fire, Grafted;
      if targetSize < |seed| {
        return false;
      }
      var graphSize := |seed|;
      parents := seq(targetSize, i => if i < |seed| then i else -1);
      neighbors := seed + seq(targetSize - graphSize, _ => []);
      Planted(seed, neighbors, parents, draws);
      while graphSize < targetSize
        invariant |seed| <= graphSize <= targetSize == |neighbors| && (seed == [] ==> graphSize == 0)
        invariant Grown(seed, neighbors, parents, graphSize, draws)
        invariant |parents| == targetSize && forall v :: |seed| <= v < graphSize ==> parents[v] == starts(v)
      {
        if graphSize == 0 {
          return false;
        }
        var parent := starts(graphSize);
        ghost var G := neighbors;
        GrownFacts(seed, G, parents, graphSize, draws);
        ghost var burnt: set<nat>, log: seq<Blaze>;
        burnt, log := Burn(graphSize, parent, draws);
        FireFacts(G, graphSize, parent, neighbors[graphSize], burnt);
        Symmetrize(graphSize, G);
        GrowsOn(seed, G, parents, graphSize, parent, burnt, neighbors, draws, log);
        parents := parents[graphSize := parent];
        graphSize := graphSize + 1;
      }
      return true;
    }
  }

  /** The vertices burnt so far are those walked. */
  lemma BurnsAs(G: seq<seq<nat>>, n: nat, draws: (nat, nat) -> nat, v0: nat, walked: seq<nat>, burnt: set<nat>, b: Blaze)
    requires Listed(G, n) && Fire(G, n, v0, walked, burnt) && b.v in burnt && Distinct(b.picked)
    requires b.v < |G| && forall x :: x in b.picked ==> x in G[b.v] && x !in burnt
    requires |b.picked| == if draws(n, b.v) < |Alive(G[b.v], burnt)| then draws(n, b.v) else |Alive(G[b.v], burnt)|
    ensures Burns(G, n, draws, walked, b)
  {
    assert Unburnt(G, n, b.v, walked) == Alive(G[b.v], burnt);
  }

  lemma GrownFacts(seed: seq<seq<nat>>, N: seq<seq<nat>>, parents: seq<int>, n: nat, draws: (nat, nat) -> nat)
    requires Grown(seed, N, parents, n, draws)
    ensures Listed(N, n) && |N| == |parents|
  {
  }

  lemma FireFacts(G: seq<seq<nat>>, n: nat, v0: nat, walked: seq<nat>, burnt: set<nat>)
    requires Fire(G, n, v0, walked, burnt)
    ensures Distinct(walked) && forall x :: x in walked ==> x < n
  {
  }

  /** Empty lists put behind the seed leave it the graph it was. */
  lemma Planted(seed: seq<seq<nat>>, N: seq<seq<nat>>, parents: seq<int>, draws: (nat, nat) -> nat)
    requires Listed(seed, |seed|) && |seed| <= |N| == |parents|
    requires N == seed + seq(|N| - |seed|, _ => [])
    requires forall i :: 0 <= i < |seed| ==> parents[i] == i
    ensures Grown(seed, N, parents, |seed|, draws)
  {
    assert forall u :: 0 <= u < |seed| ==> N[u] == seed[u];
    SameLists(seed, N);
    if Connected(seed, |seed|) {
      forall u, v | 0 <= u < |seed| && 0 <= v < |seed| ensures Linked(N, u, v) {
        assert Linked(seed, u, v);
        var p :| Joins(seed, p, u, v);
        forall i | 0 < i < |p| ensures Edge(N, p[i - 1], p[i]) {
          assert Edge(seed, p[i - 1], p[i]);
        }
        assert Joins(N, p, u, v);
      }
    }
  }

  lemma SameLists(seed: seq<seq<nat>>, N: seq<seq<nat>>)
    requires |seed| <= |N| && forall u :: 0 <= u < |seed| ==> N[u] == seed[u]
    ensures LoopFree(N, |seed|) <==> LoopFree(seed, |seed|)
    ensures Symmetric(N, |seed|) <==> Symmetric(seed, |seed|)
  {
    if Symmetric(N, |seed|) {
      forall u, v | 0 <= u < |seed| && 0 <= v < |seed| ensures v in seed[u] <==> u in seed[v] {
        assert v in N[u] <==> u in N[v];
      }
    }
    if LoopFree(N, |seed|) {
      forall u | 0 <= u < |seed| ensures u !in seed[u] { assert u !in N[u]; }
    }
  }
}
