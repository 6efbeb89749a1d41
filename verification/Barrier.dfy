/** The spin barrier on one shared word
    (updown/basimruntime/src/basimupdown.cpp:3131-3162).  Participants 0 to N-1 take turns
    in any order; every read and every write of `status` is a step of its own. */
module Barrier {

  /** The line a participant is about to execute: the first spin, the write that arrives,
      the test for the last one, its write, the second spin, and the write that leaves. */
  datatype Line = Wait | Arrive | Test | Reset | Hold | Leave

  /** `gen` counts the uses of the barrier a participant has completed. */
  datatype State = State(status: nat, at: seq<Line>, gen: seq<nat>)
  {
    predicate Formed(n: nat) { n > 0 && |at| == |gen| == n }

    function Move(i: nat, l: Line): State
      requires i < |at|
    {
      this.(at := at[i := l])
    }
  }

  function Init(n: nat): State
    requires n > 0
  {
    State(0, seq(n, _ => Wait), seq(n, _ => 0))
  }

  /** The next read or write of participant `i`; a spin that reads another value changes nothing. */
  function Step(s: State, n: nat, i: nat): (t: State)
    requires s.Formed(n) && i < n
    ensures t.Formed(n)
  {
    match s.at[i]
    case Wait => if s.status == i then s.Move(i, Arrive) else s
    case Arrive => s.Move(i, Test).(status := i + 1)
    case Test => s.Move(i, if s.status == n then Reset else Hold)
    case Reset => s.Move(i, Hold).(status := n - 1)
    case Hold => if s.status == i then s.Move(i, Leave) else s
    case Leave => s.Move(i, Wait).(status := if i > 0 then i - 1 else s.status, gen := s.gen[i := s.gen[i] + 1])
  }

  /** The state after the participants of `turns` have taken one step each, in this order. */
  function Run(s: State, n: nat, turns: seq<nat>): (t: State)
    requires s.Formed(n) && forall k :: 0 <= k < |turns| ==> turns[k] < n
    ensures t.Formed(n)
    decreases |turns|
  {
    if turns == [] then s else Step(Run(s, n, turns[..|turns| - 1]), n, turns[|turns| - 1])
  }

  /** The turn is not one in which a participant other than the last reads N at the test. */
  predicate Timely(s: State, n: nat, i: nat)
    requires s.Formed(n) && i < n
  {
    s.at[i] == Test && i < n - 1 ==> s.status != n
  }

  ghost predicate TimelyRun(s: State, n: nat, turns: seq<nat>)
    requires s.Formed(n) && forall k :: 0 <= k < |turns| ==> turns[k] < n
    decreases |turns|
  {
    turns == [] || (TimelyRun(s, n, turns[..|turns| - 1]) && Timely(Run(s, n, turns[..|turns| - 1]), n, turns[|turns| - 1]))
  }

  /** Has participant `j` arrived in round `r`?  Has it left? */
  predicate Arrived(s: State, n: nat, j: nat, r: nat)
    requires s.Formed(n) && j < n
  {
    s.gen[j] > r || (s.gen[j] == r && s.at[j] != Wait && s.at[j] != Arrive)
  }

  predicate Left(s: State, n: nat, j: nat, r: nat)
    requires s.Formed(n) && j < n
  {
    s.gen[j] > r || (s.gen[j] == r && s.at[j] == Leave)
  }

  /** Nobody has left a use of the barrier at which somebody has not arrived. */
  ghost predicate Safe(s: State, n: nat)
    requires s.Formed(n)
  {
    forall q: nat, i, j :: 0 <= i < n && 0 <= j < n && Left(s, n, i, q) ==> Arrived(s, n, j, q)
  }

  /** Round `r` counts up: participants below `k` have arrived, none above. */
  predicate Up(s: State, n: nat, r: nat, k: nat)
    requires s.Formed(n)
  {
    && k <= n && s.status == k && (forall j :: 0 <= j < n ==> s.gen[j] == r)
    && (forall j :: 0 <= j < n && j != n - 1 && j < k ==> s.at[j] == Test || s.at[j] == Hold)
    && (forall j :: k < j < n ==> s.at[j] == Wait)
    && (k < n ==> s.at[k] == Wait || s.at[k] == Arrive)
    && (k == n ==> s.at[n - 1] == Test || s.at[n - 1] == Reset)
  }

  /** Round `r` counts down: participants above `k` have left, none below. */
  predicate Down(s: State, n: nat, r: nat, k: nat)
    requires s.Formed(n)
  {
    && k < n && s.status == k
    && (forall j :: 0 <= j <= k ==> s.gen[j] == r)
    && (forall j :: k < j < n ==> s.gen[j] == r + 1 && s.at[j] == Wait)
    && (forall j :: 0 <= j < k ==> s.at[j] == Test || s.at[j] == Hold)
    && (s.at[k] == Test || s.at[k] == Hold || s.at[k] == Leave)
  }

  ghost predicate InRound(s: State, n: nat, r: nat)
    requires s.Formed(n)
  {
    exists k :: Up(s, n, r, k) || Down(s, n, r, k)
  }

  /** A timely turn stays in the round or opens the next one. */
  lemma RoundKept(s: State, n: nat, r: nat, i: nat)
    requires s.Formed(n) && i < n && InRound(s, n, r) && Timely(s, n, i)
    ensures InRound(Step(s, n, i), n, r) || InRound(Step(s, n, i), n, r + 1)
  {
    var k: nat :| Up(s, n, r, k) || Down(s, n, r, k);
    if Up(s, n, r, k) { UpKept(s, n, r, k, i); } else { DownKept(s, n, r, k, i); }
  }

  lemma UpKept(s: State, n: nat, r: nat, k: nat, i: nat)
    requires s.Formed(n) && i < n && Up(s, n, r, k) && Timely(s, n, i)
    ensures InRound(Step(s, n, i), n, r)
  {
    var t := Step(s, n, i);
    if k < n {
      assert Up(t, n, r, k) || Up(t, n, r, k + 1);
    } else {
      assert Up(t, n, r, k) || Down(t, n, r, n - 1);
    }
  }

  lemma DownKept(s: State, n: nat, r: nat, k: nat, i: nat)
    requires s.Formed(n) && i < n && Down(s, n, r, k) && Timely(s, n, i)
    ensures InRound(Step(s, n, i), n, r) || InRound(Step(s, n, i), n, r + 1)
  {
    var t := Step(s, n, i);
    if k > 0 {
      assert Down(t, n, r, k) || Down(t, n, r, k - 1);
    } else {
      assert Down(t, n, r, k) || Up(t, n, r + 1, 0);
    }
  }

  lemma {:induction false} TimelyRunKeepsRounds(n: nat, turns: seq<nat>) returns (r: nat)
    requires n > 0 && forall k :: 0 <= k < |turns| ==> turns[k] < n
    requires TimelyRun(Init(n), n, turns)
    ensures InRound(Run(Init(n), n, turns), n, r)
    decreases |turns|
  {
    if turns == [] {
      r := 0;
      assert Up(Init(n), n, 0, 0);
    } else {
      r := TimelyRunKeepsRounds(n, turns[..|turns| - 1]);
      RoundKept(Run(Init(n), n, turns[..|turns| - 1]), n, r, turns[|turns| - 1]);
      if !InRound(Run(Init(n), n, turns), n, r) { r := r + 1; }
    }
  }

  /** In every round: the generations differ by at most one, nobody has left a use of the
      barrier at which somebody has not arrived, and `status` is 0 whenever all are outside. */
  lemma RoundMeans(s: State, n: nat, r: nat)
    requires s.Formed(n) && InRound(s, n, r)
    ensures forall j :: 0 <= j < n ==> r <= s.gen[j] <= r + 1
    ensures Safe(s, n)
    ensures (forall j :: 0 <= j < n ==> s.at[j] == Wait) ==> s.status == 0
  {
    var k: nat :| Up(s, n, r, k) || Down(s, n, r, k);
    if Up(s, n, r, k) && k > 0 { assert s.at[0] != Wait; }
    if Down(s, n, r, k) { assert s.at[k] != Wait; }
  }

  /** The barrier is safe and reusable in every run without an untimely test. */
  lemma Reusable(n: nat, turns: seq<nat>)
    requires n > 0 && (forall k :: 0 <= k < |turns| ==> turns[k] < n) && TimelyRun(Init(n), n, turns)
    ensures var s := Run(Init(n), n, turns);
      && (forall i, j :: 0 <= i < n && 0 <= j < n ==> s.gen[i] <= s.gen[j] + 1)
      && Safe(s, n)
      && ((forall j :: 0 <= j < n ==> s.at[j] == Wait) ==> s.status == 0)
      && exists i :: 0 <= i < n && Timely(s, n, i) && Step(s, n, i) != s
  {
    hide Run, TimelyRun, InRound, Safe, Step;
    var r := TimelyRunKeepsRounds(n, turns);
    var s := Run(Init(n), n, turns);
    RoundMeans(s, n, r);
    var i := SomeMoves(s, n, r);
  }

  /** In every round some participant can make a timely move. */
  lemma SomeMoves(s: State, n: nat, r: nat) returns (i: nat)
    requires s.Formed(n) && InRound(s, n, r)
    ensures i < n && Timely(s, n, i) && Step(s, n, i) != s
  {
    var k: nat :| Up(s, n, r, k) || Down(s, n, r, k);
    i := if k == n then n - 1 else k;
    assert Step(s, n, i).at[i] != s.at[i];
  }

  /** A participant other than the last that reads N at the test writes N - 1 late.  From
      there the last one passes the barrier twice while this one still holds: turns after
      which two generations lie between them. */
  function LateTurns(s: State, n: nat, i: nat): (turns: seq<nat>)
    requires s.Formed(n) && n > 1 && i < n - 1
    ensures forall k :: 0 <= k < |turns| ==> turns[k] < n
  {
    LateStart(s, n, i) + LateRest(n, i)
  }

  function LateStart(s: State, n: nat, i: nat): (turns: seq<nat>)
    requires s.Formed(n) && n > 1 && i < n - 1
    ensures forall k :: 0 <= k < |turns| ==> turns[k] < n
  {
    if s.at[n - 1] == Test then [i, n - 1, n - 1] else [i, n - 1]
  }

  function LateRest(n: nat, i: nat): (turns: seq<nat>)
    requires n > 1 && i < n - 1
    ensures forall k :: 0 <= k < |turns| ==> turns[k] < n
  {
    var z := n - 1;
    [z, z] + [i] + [z, z, z, z] + [z, z]
  }

  /** An untimely test is possible only after all have arrived, and then nothing keeps the
      barrier safe for a second use. */
  lemma UntimelyBreaks(s: State, n: nat, r: nat, i: nat)
    requires s.Formed(n) && i < n && InRound(s, n, r) && !Timely(s, n, i)
    ensures n > 1 && i < n - 1
    ensures var t := Run(s, n, LateTurns(s, n, i));
      t.gen[n - 1] == t.gen[i] + 2 && Left(t, n, n - 1, r + 1) && !Arrived(t, n, i, r + 1)
  {
    UntimelyFacts(s, n, r, i);
    Starts(s, n, i);
    Rests(Run(s, n, LateStart(s, n, i)), n, i);
    RunJoin(s, n, LateStart(s, n, i), LateRest(n, i));
  }

  /** Every participant of the first `k` arrives, one after the other. */
  function ArrivalTurns(k: nat): (turns: seq<nat>)
    ensures forall j :: 0 <= j < |turns| ==> turns[j] < k
  {
    if k == 0 then [] else ArrivalTurns(k - 1) + [k - 1, k - 1]
  }

  /** The state these turns lead to: nobody has tested yet. */
  lemma {:induction false} AllArrive(n: nat, k: nat)
    requires 0 < n && k <= n
    ensures TimelyRun(Init(n), n, ArrivalTurns(k))
    ensures Run(Init(n), n, ArrivalTurns(k)) == State(k, seq(n, j => if j < k then Test else Wait), seq(n, _ => 0))
    decreases k
  {
    hide Run, TimelyRun;
    var s := State(k, seq(n, j => if j < k then Test else Wait), seq(n, _ => 0));
    if k == 0 {
      NoTurns(Init(n), n);
      assert s.at == Init(n).at;
    } else {
      AllArrive(n, k - 1);
      var s0 := Run(Init(n), n, ArrivalTurns(k - 1));
      RunTwo(s0, n, k - 1);
      RunJoin(Init(n), n, ArrivalTurns(k - 1), [k - 1, k - 1]);
      assert s.at == s0.at[k - 1 := Test];
    }
  }

  lemma NoTurns(s: State, n: nat)
    requires s.Formed(n)
    ensures Run(s, n, []) == s && TimelyRun(s, n, [])
  {
  }

  /** With two participants or more, some run from the start breaks the second use: a timely
      one up to the point where all have arrived, the untimely test of participant 0, and
      what follows it. */
  lemma SecondUseBreaks(n: nat) returns (turns: seq<nat>)
    requires n > 1
    ensures forall k :: 0 <= k < |turns| ==> turns[k] < n
    ensures |turns| > |ArrivalTurns(n)| && turns[..|ArrivalTurns(n)|] == ArrivalTurns(n)
    ensures TimelyRun(Init(n), n, ArrivalTurns(n)) && turns[|ArrivalTurns(n)|] == 0
    ensures !Timely(Run(Init(n), n, ArrivalTurns(n)), n, 0)
    ensures var t := Run(Init(n), n, turns);
      t.gen[n - 1] == t.gen[0] + 2 && Left(t, n, n - 1, 1) && !Arrived(t, n, 0, 1)
  {
    hide Run, TimelyRun;
    AllArrive(n, n);
    var s := Run(Init(n), n, ArrivalTurns(n));
    assert Up(s, n, 0, n);
    UntimelyBreaks(s, n, 0, 0);
    RunJoin(Init(n), n, ArrivalTurns(n), LateTurns(s, n, 0));
    turns := ArrivalTurns(n) + LateTurns(s, n, 0);
  }

  /** The barrier is safe for every use under every interleaving only for a single participant. */
  lemma SafeIffSingle(n: nat)
    requires n > 0
    ensures (forall turns: seq<nat> | (forall k :: 0 <= k < |turns| ==> turns[k] < n) :: Safe(Run(Init(n), n, turns), n)) <==> n == 1
  {
    if n == 1 {
      forall turns: seq<nat> | forall k :: 0 <= k < |turns| ==> turns[k] < n
        ensures Safe(Run(Init(n), n, turns), n)
      {
        SingleIsTimely(turns);
        Reusable(n, turns);
      }
    } else {
      var turns := SecondUseBreaks(n);
      assert !Safe(Run(Init(n), n, turns), n);
    }
  }

  lemma {:induction false} SingleIsTimely(turns: seq<nat>)
    requires forall k :: 0 <= k < |turns| ==> turns[k] < 1
    ensures TimelyRun(Init(1), 1, turns)
    decreases |turns|
  {
    if turns != [] { SingleIsTimely(turns[..|turns| - 1]); }
  }

  lemma UntimelyFacts(s: State, n: nat, r: nat, i: nat)
    requires s.Formed(n) && i < n && InRound(s, n, r) && !Timely(s, n, i)
    ensures i < n - 1 && s.at[i] == Test && s.status == n && (s.at[n - 1] == Test || s.at[n - 1] == Reset)
    ensures s.gen[i] == s.gen[n - 1] == r
  {
    var k: nat :| Up(s, n, r, k) || Down(s, n, r, k);
    assert Up(s, n, r, n);
  }

  lemma Starts(s: State, n: nat, i: nat)
    requires s.Formed(n) && i < n - 1 && s.at[i] == Test && s.status == n && (s.at[n - 1] == Test || s.at[n - 1] == Reset)
    ensures var t := Run(s, n, LateStart(s, n, i));
      t.status == n - 1 && t.at[n - 1] == Hold && t.at[i] == Reset && t.gen == s.gen
  {
    hide Run, TimelyRun, Timely;
    var z := n - 1;
    var s1 := Step(s, n, i);
    RunOne(s, n, i);
    if s.at[z] == Test {
      RunJoin(s, n, [i], [z, z]);
      RunTwo(s1, n, z);
      assert [i] + [z, z] == [i, z, z];
    } else {
      RunJoin(s, n, [i], [z]);
      RunOne(s1, n, z);
      assert [i] + [z] == [i, z];
    }
  }

  lemma Rests(s: State, n: nat, i: nat)
    requires s.Formed(n) && i < n - 1 && s.at[i] == Reset && s.status == n - 1 && s.at[n - 1] == Hold
    ensures var t := Run(s, n, LateRest(n, i));
      t.gen == s.gen[n - 1 := s.gen[n - 1] + 2] && t.at[i] == Hold
  {
    hide Run, TimelyRun, Timely;
    var z := n - 1;
    var out := s.Move(z, Wait).(status := z - 1, gen := s.gen[z := s.gen[z] + 1]);
    GoOut(s, n, z);
    RunTwo(s, n, z);
    var late := Step(out, n, i);
    assert late.status == z && late.at[z] == Wait && late.at[i] == Hold && late.gen == out.gen;
    RunJoin(s, n, [z, z], [i]);
    RunOne(out, n, i);
    GoIn(late, n);
    RunJoin(s, n, [z, z] + [i], [z, z, z, z]);
    RunFour(late, n, z);
    GoOut(late.Move(z, Hold), n, z);
    RunJoin(s, n, [z, z] + [i] + [z, z, z, z], [z, z]);
    RunTwo(late.Move(z, Hold), n, z);
  }

  lemma GoOut(s: State, n: nat, z: nat)
    requires s.Formed(n) && 0 < z < n && s.at[z] == Hold && s.status == z
    ensures Step(Step(s, n, z), n, z) == s.Move(z, Wait).(status := z - 1, gen := s.gen[z := s.gen[z] + 1])
  {
  }

  lemma GoIn(s: State, n: nat)
    requires s.Formed(n) && s.at[n - 1] == Wait && s.status == n - 1
    ensures Step(Step(Step(Step(s, n, n - 1), n, n - 1), n, n - 1), n, n - 1) == s.Move(n - 1, Hold)
  {
  }

  lemma {:induction false} RunJoin(s: State, n: nat, a: seq<nat>, b: seq<nat>)
    requires s.Formed(n) && (forall k :: 0 <= k < |a| ==> a[k] < n) && (forall k :: 0 <= k < |b| ==> b[k] < n)
    ensures Run(s, n, a + b) == Run(Run(s, n, a), n, b)
    ensures TimelyRun(s, n, a + b) <==> TimelyRun(s, n, a) && TimelyRun(Run(s, n, a), n, b)
    decreases |b|
  {
    if b != [] {
      RunJoin(s, n, a, b[..|b| - 1]);
      assert (a + b)[..|a + b| - 1] == a + b[..|b| - 1];
    } else {
      assert a + b == a;
    }
  }

  lemma RunMore(s: State, n: nat, turns: seq<nat>, i: nat)
    requires s.Formed(n) && i < n && forall k :: 0 <= k < |turns| ==> turns[k] < n
    ensures Run(s, n, turns + [i]) == Step(Run(s, n, turns), n, i)
    ensures TimelyRun(s, n, turns + [i]) <==> TimelyRun(s, n, turns) && Timely(Run(s, n, turns), n, i)
  {
    assert (turns + [i])[..|turns + [i]| - 1] == turns;
  }

  lemma RunOne(s: State, n: nat, i: nat)
    requires s.Formed(n) && i < n
    ensures Run(s, n, [i]) == Step(s, n, i)
    ensures TimelyRun(s, n, [i]) <==> Timely(s, n, i)
  {
    hide Run, TimelyRun;
    NoTurns(s, n);
    RunMore(s, n, [], i);
    assert [] + [i] == [i];
  }

  lemma RunTwo(s: State, n: nat, i: nat)
    requires s.Formed(n) && i < n
    ensures Run(s, n, [i, i]) == Step(Step(s, n, i), n, i)
    ensures TimelyRun(s, n, [i, i]) <==> Timely(s, n, i) && Timely(Step(s, n, i), n, i)
  {
    hide Run, TimelyRun, Timely;
    RunOne(s, n, i);
    RunMore(s, n, [i], i);
    assert [i] + [i] == [i, i];
  }

  lemma RunThree(s: State, n: nat, i: nat)
    requires s.Formed(n) && i < n
    ensures Run(s, n, [i, i, i]) == Step(Step(Step(s, n, i), n, i), n, i)
    ensures TimelyRun(s, n, [i, i, i]) <==>
      Timely(s, n, i) && Timely(Step(s, n, i), n, i) && Timely(Step(Step(s, n, i), n, i), n, i)
  {
    hide Run, TimelyRun, Timely;
    RunTwo(s, n, i);
    RunMore(s, n, [i, i], i);
    assert [i, i] + [i] == [i, i, i];
  }

  lemma RunFour(s: State, n: nat, i: nat)
    requires s.Formed(n) && i < n
    ensures Run(s, n, [i, i, i, i]) == Step(Step(Step(Step(s, n, i), n, i), n, i), n, i)
  {
    hide Run, TimelyRun, Timely;
    RunThree(s, n, i);
    RunMore(s, n, [i, i, i], i);
    assert [i, i, i] + [i] == [i, i, i, i];
  }

  /** Write, test and second write as one step. */
  function AtomicStep(s: State, n: nat, i: nat): (t: State)
    requires s.Formed(n) && i < n
    ensures t.Formed(n)
  {
    if s.at[i] == Arrive then s.Move(i, Hold).(status := if i + 1 == n then n - 1 else i + 1)
    else Step(s, n, i)
  }

  predicate Quiet(s: State, n: nat)
    requires s.Formed(n)
  {
    forall j :: 0 <= j < n ==> s.at[j] != Test && s.at[j] != Reset
  }

  /** The turns that one atomic step stands for. */
  function AtomicTurns(s: State, n: nat, i: nat): (turns: seq<nat>)
    requires s.Formed(n) && i < n
    ensures forall k :: 0 <= k < |turns| ==> turns[k] < n
  {
    if s.at[i] != Arrive then [i] else if i + 1 == n then [i, i, i] else [i, i]
  }

  /** In atomic steps every turn is timely, rounds are kept, and exactly one participant
      can do anything but spin. */
  lemma AtomicRounds(s: State, n: nat, r: nat, i: nat)
    requires s.Formed(n) && i < n && InRound(s, n, r) && Quiet(s, n)
    ensures Run(s, n, AtomicTurns(s, n, i)) == AtomicStep(s, n, i) && TimelyRun(s, n, AtomicTurns(s, n, i))
    ensures Quiet(AtomicStep(s, n, i), n)
    ensures InRound(AtomicStep(s, n, i), n, r) || InRound(AtomicStep(s, n, i), n, r + 1)
  {
    hide Up, Down;
    var s1 := Step(s, n, i);
    RunOne(s, n, i);
    if s.at[i] == Arrive {
      hide InRound;
      RoundKept(s, n, r, i);
      ArriveInRound(s, n, r, i);
      RunTwo(s, n, i);
      RoundKept(s1, n, r, i);
      if i + 1 == n {
        RunThree(s, n, i);
        RoundKept(Step(s1, n, i), n, r, i);
      }
    } else {
      RoundKept(s, n, r, i);
    }
  }

  /** Arriving does not end a round, nor does the last one's test. */
  lemma ArriveInRound(s: State, n: nat, r: nat, i: nat)
    requires s.Formed(n) && i < n && InRound(s, n, r) && s.at[i] == Arrive
    ensures InRound(Step(s, n, i), n, r) && Timely(Step(s, n, i), n, i)
    ensures InRound(Step(Step(s, n, i), n, i), n, r)
  {
    hide Down;
    var k: nat :| Up(s, n, r, k) || Down(s, n, r, k);
    ArriveIsUp(s, n, r, k, i);
    UpKept(s, n, r, k, i);
    var t := Step(s, n, i);
    assert Up(t, n, r, k + 1);
    UpKept(t, n, r, k + 1, i);
  }

  lemma ArriveIsUp(s: State, n: nat, r: nat, k: nat, i: nat)
    requires s.Formed(n) && i < n && (Up(s, n, r, k) || Down(s, n, r, k)) && s.at[i] == Arrive
    ensures Up(s, n, r, k) && i == k
  {
  }

  lemma OneEnabled(s: State, n: nat, r: nat) returns (i: nat)
    requires s.Formed(n) && InRound(s, n, r) && Quiet(s, n)
    ensures i < n && forall j :: 0 <= j < n ==> (AtomicStep(s, n, j) != s <==> j == i)
  {
    var k: nat :| Up(s, n, r, k) || Down(s, n, r, k);
    i := k;
    assert AtomicStep(s, n, i).at[i] != s.at[i];
  }

  /** The state after a run whose steps are atomic. */
  function AtomicRun(s: State, n: nat, turns: seq<nat>): (t: State)
    requires s.Formed(n) && forall k :: 0 <= k < |turns| ==> turns[k] < n
    ensures t.Formed(n)
    decreases |turns|
  {
    if turns == [] then s else AtomicStep(AtomicRun(s, n, turns[..|turns| - 1]), n, turns[|turns| - 1])
  }

  /** Every atomic run is a run of single steps without an untimely test. */
  lemma {:induction false} AtomicRunIsTimely(n: nat, turns: seq<nat>) returns (fine: seq<nat>, r: nat)
    requires n > 0 && forall k :: 0 <= k < |turns| ==> turns[k] < n
    ensures forall k :: 0 <= k < |fine| ==> fine[k] < n
    ensures TimelyRun(Init(n), n, fine) && Run(Init(n), n, fine) == AtomicRun(Init(n), n, turns)
    ensures InRound(AtomicRun(Init(n), n, turns), n, r) && Quiet(AtomicRun(Init(n), n, turns), n)
    decreases |turns|
  {
    hide Run, TimelyRun, AtomicStep, AtomicTurns, Down;
    if turns == [] {
      fine, r := [], 0;
      NoTurns(Init(n), n);
      assert Up(Init(n), n, 0, 0);
    } else {
      var i := turns[|turns| - 1];
      fine, r := AtomicRunIsTimely(n, turns[..|turns| - 1]);
      var s := AtomicRun(Init(n), n, turns[..|turns| - 1]);
      AtomicRounds(s, n, r, i);
      RunJoin(Init(n), n, fine, AtomicTurns(s, n, i));
      fine := fine + AtomicTurns(s, n, i);
      if !InRound(AtomicStep(s, n, i), n, r) { r := r + 1; }
    }
  }

  /** With write, test and write in one step the barrier is safe for any number of uses,
      and in every state exactly one participant can do anything but spin. */
  lemma AtomicReusable(n: nat, turns: seq<nat>) returns (i: nat)
    requires n > 0 && forall k :: 0 <= k < |turns| ==> turns[k] < n
    ensures var s := AtomicRun(Init(n), n, turns);
      && (forall i, j :: 0 <= i < n && 0 <= j < n ==> s.gen[i] <= s.gen[j] + 1)
      && Safe(s, n)
      && ((forall j :: 0 <= j < n ==> s.at[j] == Wait) ==> s.status == 0)
      && i < n && forall j :: 0 <= j < n ==> (AtomicStep(s, n, j) != s <==> j == i)
  {
    hide Run, TimelyRun, AtomicRun, AtomicStep, InRound, Quiet, Safe;
    var fine, r := AtomicRunIsTimely(n, turns);
    Reusable(n, fine);
    i := OneEnabled(AtomicRun(Init(n), n, turns), n, r);
  }

  /** One use only: a participant that has been through the barrier stays outside. */
  function StepOnce(s: State, n: nat, i: nat): (t: State)
    requires s.Formed(n) && i < n
    ensures t.Formed(n)
  {
    if s.gen[i] > 0 then s else Step(s, n, i)
  }

  function RunOnce(s: State, n: nat, turns: seq<nat>): (t: State)
    requires s.Formed(n) && forall k :: 0 <= k < |turns| ==> turns[k] < n
    ensures t.Formed(n)
    decreases |turns|
  {
    if turns == [] then s else StepOnce(RunOnce(s, n, turns[..|turns| - 1]), n, turns[|turns| - 1])
  }

  /** Not all have arrived: the count is below N, and nobody is past the test. */
  predicate Gathering(s: State, n: nat, k: nat)
    requires s.Formed(n)
  {
    && k < n && s.status == k && (forall j :: 0 <= j < n ==> s.gen[j] == 0)
    && (forall j :: 0 <= j < k ==> s.at[j] == Test || s.at[j] == Hold)
    && (s.at[k] == Wait || s.at[k] == Arrive)
    && forall j :: k < j < n ==> s.at[j] == Wait
  }

  predicate AllArrived(s: State, n: nat)
    requires s.Formed(n)
  {
    forall j :: 0 <= j < n ==> Arrived(s, n, j, 0)
  }

  lemma OnceKept(s: State, n: nat, i: nat)
    requires s.Formed(n) && i < n && (AllArrived(s, n) || exists k: nat :: Gathering(s, n, k))
    ensures AllArrived(StepOnce(s, n, i), n) || exists k: nat :: Gathering(StepOnce(s, n, i), n, k)
  {
    var t := StepOnce(s, n, i);
    if !AllArrived(s, n) {
      var k: nat :| Gathering(s, n, k);
      if i == k && s.at[k] == Arrive && k + 1 == n {
        assert AllArrived(t, n);
      } else {
        assert Gathering(t, n, k) || (k + 1 < n && Gathering(t, n, k + 1));
      }
    } else {
      forall j | 0 <= j < n ensures Arrived(t, n, j, 0) {
        assert Arrived(s, n, j, 0);
      }
    }
  }

  /** A single use is safe under every interleaving of the reads and writes: when somebody
      leaves, everybody has arrived. */
  lemma {:induction false} SafeOnce(n: nat, turns: seq<nat>)
    requires n > 0 && forall k :: 0 <= k < |turns| ==> turns[k] < n
    ensures var s := RunOnce(Init(n), n, turns);
      && (AllArrived(s, n) || exists k: nat :: Gathering(s, n, k))
      && forall i, j :: 0 <= i < n && 0 <= j < n && Left(s, n, i, 0) ==> Arrived(s, n, j, 0)
    decreases |turns|
  {
    if turns == [] {
      assert Gathering(Init(n), n, 0);
    } else {
      SafeOnce(n, turns[..|turns| - 1]);
      OnceKept(RunOnce(Init(n), n, turns[..|turns| - 1]), n, turns[|turns| - 1]);
    }
  }
}
