/** The limit on what a node sends in one tick: every drainer of the node loads the shared
    byte count before each message and adds the message afterwards
    (updown/basimruntime/src/basimupdown.cpp:687-714, 1079-1106, 1496-1536). */
module Throttle {
  import opened Seqs

  /** The longest message: nine words and a header of two. */
  const LONGEST: nat := 88

  /** One drainer alone: it sends the longest prefix of its queue before each message of
      which there was room for a longest one.  A limit of zero is none. */
  method Drain(queue: seq<nat>, limit: nat, out0: nat) returns (sent: nat, out: nat)
    ensures sent <= |queue| && out == out0 + Total(queue[..sent])
    ensures limit > 0 ==> forall k :: 0 <= k < sent ==> out0 + Total(queue[..k]) + 88 < limit
    ensures sent == |queue| || (limit > 0 && out + 88 >= limit)
    ensures out0 < limit && (forall m :: m in queue ==> m <= 88) ==> out < limit
  {
    sent, out := 0, out0;
    while true
      invariant sent <= |queue| && out == out0 + Total(queue[..sent])
      invariant limit > 0 ==> forall k :: 0 <= k < sent ==> out0 + Total(queue[..k]) + LONGEST < limit
      invariant out0 < limit && (forall m :: m in queue ==> m <= LONGEST) ==> out < limit
      decreases |queue| - sent
    {
      if limit > 0 && out + LONGEST >= limit {
        return;
      }
      if sent == |queue| {
        return;
      }
      assert queue[..sent + 1][..sent] == queue[..sent];
      assert queue[sent] in queue;
      out := out + queue[sent];
      sent := sent + 1;
    }
  }

  function Total(s: seq<nat>): nat {
    if s == [] then 0 else Total(s[..|s| - 1]) + s[|s| - 1]
  }

  /** The count, and the drainers that have loaded it and may still add to it. */
  datatype State = State(out: nat, cleared: set<nat>)

  datatype Step = Load(who: nat) | Add(who: nat, bytes: nat) | Stop(who: nat)

  /** What the `drainers` of the node can do: pass the test, send a message, find no more. */
  predicate Enabled(s: State, t: Step, limit: nat, drainers: nat) {
    && t.who < drainers
    && match t
       case Load(i) => i !in s.cleared && s.out + LONGEST < limit
       case Add(i, bytes) => i in s.cleared && bytes <= LONGEST
       case Stop(i) => i in s.cleared
  }

  function After(s: State, t: Step): State {
    match t
    case Load(i) => s.(cleared := s.cleared + {i})
    case Add(i, bytes) => State(s.out + bytes, s.cleared - {i})
    case Stop(i) => s.(cleared := s.cleared - {i})
  }

  /** `steps`, in whatever interleaving, lead from `s` to `t`. */
  ghost predicate Runs(s: State, steps: seq<Step>, t: State, limit: nat, drainers: nat)
    decreases |steps|
  {
    if steps == [] then s == t
    else Enabled(s, steps[0], limit, drainers) && Runs(After(s, steps[0]), steps[1..], t, limit, drainers)
  }

  /** Room is set aside for everyone cleared, except that all but one may be too many. */
  ghost predicate Inv(s: State, limit: nat, drainers: nat) {
    && (forall i :: i in s.cleared ==> i < drainers)
    && s.out + LONGEST * |s.cleared| < limit + LONGEST * (drainers - 1)
    && (limit <= LONGEST ==> s.out == 0 && s.cleared == {})
  }

  lemma Kept(s: State, t: Step, limit: nat, drainers: nat)
    requires Inv(s, limit, drainers) && Enabled(s, t, limit, drainers)
    ensures Inv(After(s, t), limit, drainers)
  {
    if t.Load? {
      assert s.cleared <= Range(drainers) - {t.who};
      SubsetSize(s.cleared, Range(drainers) - {t.who});
    }
  }

  lemma {:induction false} RunKept(s: State, steps: seq<Step>, t: State, limit: nat, drainers: nat)
    requires Inv(s, limit, drainers) && Runs(s, steps, t, limit, drainers)
    ensures Inv(t, limit, drainers)
    decreases |steps|
  {
    if steps != [] {
      Kept(s, steps[0], limit, drainers);
      RunKept(After(s, steps[0]), steps[1..], t, limit, drainers);
    }
  }

  /** However the drainers of a node interleave in one tick, they overshoot the limit by
      less than one longest message for each drainer but one; with one drainer, not at all;
      and below the length of one message nothing is sent. */
  lemma Bounded(steps: seq<Step>, t: State, limit: nat, drainers: nat)
    requires limit > 0 && drainers > 0 && Runs(State(0, {}), steps, t, limit, drainers)
    ensures t.out < limit + 88 * (drainers - 1)
    ensures limit <= 88 ==> t.out == 0
  {
    RunKept(State(0, {}), steps, t, limit, drainers);
  }

  /** The bound is met: when all test first, all send. */
  lemma Attained(drainers: nat) returns (steps: seq<Step>, t: State)
    requires drainers > 0
    ensures Runs(State(0, {}), steps, t, 88 + 1, drainers)
    ensures t.out == 88 + 1 + 88 * (drainers - 1) - 1
  {
    steps := LoadRest(0, drainers);
    t := State(LONGEST * drainers, {});
    assert Range(0) == {};
  }

  lemma Onward(s: State, x: Step, rest: seq<Step>, t: State, limit: nat, drainers: nat)
    requires Enabled(s, x, limit, drainers) && Runs(After(s, x), rest, t, limit, drainers)
    ensures Runs(s, [x] + rest, t, limit, drainers)
  {
    assert ([x] + rest)[1..] == rest;
  }

  lemma LoadRest(j: nat, drainers: nat) returns (steps: seq<Step>)
    requires j <= drainers
    ensures Runs(State(0, Range(j)), steps, State(LONGEST * drainers, {}), LONGEST + 1, drainers)
    decreases drainers - j
  {
    hide Range, Runs;
    if j == drainers {
      steps := AddRest(0, drainers);
      assert Range(drainers) - Range(0) == Range(drainers);
    } else {
      var rest := LoadRest(j + 1, drainers);
      steps := [Load(j)] + rest;
      assert Range(j) + {j} == Range(j + 1);
      Onward(State(0, Range(j)), Load(j), rest, State(LONGEST * drainers, {}), LONGEST + 1, drainers);
    }
  }

  lemma AddRest(j: nat, drainers: nat) returns (steps: seq<Step>)
    requires j <= drainers
    ensures Runs(State(LONGEST * j, Range(drainers) - Range(j)), steps, State(LONGEST * drainers, {}), LONGEST + 1, drainers)
    decreases drainers - j
  {
    hide Range, Runs;
    var s := State(LONGEST * j, Range(drainers) - Range(j));
    if j == drainers {
      steps := [];
      assert s == State(LONGEST * drainers, {});
      Still(s, LONGEST + 1, drainers);
    } else {
      var rest := AddRest(j + 1, drainers);
      steps := [Add(j, LONGEST)] + rest;
      assert s.cleared - {j} == Range(drainers) - Range(j + 1);
      Onward(s, Add(j, LONGEST), rest, State(LONGEST * drainers, {}), LONGEST + 1, drainers);
    }
  }

  lemma Still(s: State, limit: nat, drainers: nat)
    ensures Runs(s, [], s, limit, drainers)
  {
  }
}
