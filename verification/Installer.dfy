/** How a translation reaches every UpDown of the machine and how the replies come back
    (updown/libraries/dramalloc/dramalloc_linkable.py:57-89, 102-113, 133-138, 170-205;
    updown/libraries/UDMapShuffleReduce/Macro.py:128-155).  Each handler runs up to its
    yield in one step; messages arrive in any order. */
module Installer {
  import opened Bits
  import opened Seqs

  const UDS: nat := 32
  const LOG2_LANES: nat := 6
  const LOG2_UDS: nat := 5

  /** Lane 0 of UpDown `u` of node `j`: the node's first lane and `u` strides. */
  function Nwid(j: nat, u: nat): nat { j * 2048 + u * 64 }

  /** Broadcasts and replies.  A reply names its sender, which its handler does not see. */
  datatype Msg = Start | ToNode(j: nat) | ToUD(j: nat, u: nat) | FromUD(j: nat, u: nat) | FromNode(j: nat)

  /** A thread waiting for `children` replies. */
  datatype Thread = Absent | Live(children: int) | Ended

  datatype State = State(msgs: multiset<Msg>, top: Thread, nodes: seq<Thread>, installed: multiset<nat>, notified: nat)

  /** What a broadcast sends: to the first `k` nodes, to the first `k` UpDowns of a node. */
  function NodeBurst(k: nat): multiset<Msg> {
    if k == 0 then multiset{} else NodeBurst(k - 1) + multiset{ToNode(k - 1)}
  }

  function UDBurst(j: nat, k: nat): multiset<Msg> {
    if k == 0 then multiset{} else UDBurst(j, k - 1) + multiset{ToUD(j, k - 1)}
  }

  function Begin(n: nat): State {
    State(multiset{Start}, Absent, seq(n, _ => Absent), multiset{}, 0)
  }

  predicate Addressed(m: Msg, n: nat) {
    match m
    case Start => true
    case ToNode(j) => j < n
    case ToUD(j, u) => j < n && u < UDS
    case FromUD(j, u) => j < n && u < UDS
    case FromNode(j) => j < n
  }

  /** The messages its handler sends. */
  function Sent(s: State, m: Msg): multiset<Msg>
    requires Addressed(m, |s.nodes|)
  {
    match m
    case Start => NodeBurst(|s.nodes|)
    case ToNode(j) => UDBurst(j, UDS)
    case ToUD(j, u) => multiset{FromUD(j, u)}
    case FromUD(j, _) => if s.nodes[j] == Live(1) then multiset{FromNode(j)} else multiset{}
    case FromNode(_) => multiset{}
  }

  /** A thread that counts one reply: it ends with the last one. */
  function Fewer(t: Thread): Thread {
    match t
    case Live(k) => if k - 1 != 0 then Live(k - 1) else Ended
    case _ => t
  }

  /** The state after the handler of message `m`. */
  function After(s: State, m: Msg): State
    requires m in s.msgs && Addressed(m, |s.nodes|)
  {
    var t := s.(msgs := s.msgs - multiset{m} + Sent(s, m));
    match m
    case Start => t.(top := Live(|s.nodes|))
    case ToNode(j) => t.(nodes := s.nodes[j := Live(UDS)])
    case ToUD(j, u) => t.(installed := s.installed + multiset{Nwid(j, u)})
    case FromUD(j, _) => t.(nodes := s.nodes[j := Fewer(s.nodes[j])])
    case FromNode(_) => t.(top := Fewer(s.top), notified := s.notified + if s.top == Live(1) then 1 else 0)
  }

  /** Whether message `x` is among those sent. */
  predicate Sends(s: State, m: Msg, x: Msg)
    requires Addressed(m, |s.nodes|)
  {
    match m
    case Start => x.ToNode? && x.j < |s.nodes|
    case ToNode(j) => x.ToUD? && x.j == j && x.u < UDS
    case ToUD(j, u) => x == FromUD(j, u)
    case FromUD(j, _) => s.nodes[j] == Live(1) && x == FromNode(j)
    case FromNode(_) => false
  }

  /** How often each message is in flight afterwards. */
  lemma Counts(s: State, m: Msg)
    requires m in s.msgs && Addressed(m, |s.nodes|)
    ensures forall x :: After(s, m).msgs[x] == s.msgs[x] - (if x == m then 1 else 0) + if Sends(s, m, x) then 1 else 0
  {
    forall x ensures Sent(s, m)[x] == if Sends(s, m, x) then 1 else 0 {
      NodeBurstIs(|s.nodes|, x);
      if m.ToNode? { UDBurstIs(m.j, UDS, x); }
    }
  }

  lemma {:induction false} NodeBurstIs(k: nat, m: Msg)
    ensures NodeBurst(k)[m] == if m.ToNode? && m.j < k then 1 else 0
  {
    if k > 0 { NodeBurstIs(k - 1, m); }
  }

  lemma {:induction false} UDBurstIs(j: nat, k: nat, m: Msg)
    ensures UDBurst(j, k)[m] == if m.ToUD? && m.j == j && m.u < k then 1 else 0
  {
    if k > 0 { UDBurstIs(j, k - 1, m); }
  }

  /** Lane addresses of distinct UpDowns are distinct. */
  lemma NwidInjective(j: nat, u: nat, i: nat, v: nat)
    requires u < UDS && v < UDS && Nwid(j, u) == Nwid(i, v)
    ensures j == i && u == v
  {
  }

  /** All that concerns one node: its thread, the messages to and from it and its UpDowns,
      and how often each of those has installed the entry. */
  datatype View = View(thread: Thread, toNode: nat, fromNode: nat, toUD: seq<nat>, fromUD: seq<nat>, installed: seq<nat>)
  {
    predicate Formed() { |toUD| == |fromUD| == |installed| == UDS }

    /** The children whose replies the node has not counted. */
    ghost function Unreturned(): set<nat>
      requires Formed()
    {
      set u | u in Range(|toUD|) && toUD[u] + fromUD[u] > 0
    }

    /** Before, during and after the broadcast of the node. */
    ghost predicate Inv() {
      && Formed()
      && match thread
         case Absent => toNode == 1 && fromNode == 0 && forall u :: 0 <= u < UDS ==> toUD[u] == fromUD[u] == installed[u] == 0
         case Live(k) =>
           && toNode == 0 && fromNode == 0 && k == |Unreturned()| && k > 0
           && forall u :: 0 <= u < UDS ==> toUD[u] + fromUD[u] <= 1 && installed[u] + toUD[u] == 1
         case Ended =>
           && toNode == 0 && fromNode <= 1
           && forall u :: 0 <= u < UDS ==> toUD[u] == fromUD[u] == 0 && installed[u] == 1
    }

    predicate Counted() { thread == Ended && fromNode == 0 }
  }

  function ViewOf(s: State, j: nat): (v: View)
    requires j < |s.nodes|
    ensures v.Formed()
  {
    View(s.nodes[j], s.msgs[ToNode(j)], s.msgs[FromNode(j)],
         seq(UDS, u requires 0 <= u => s.msgs[ToUD(j, u)]), seq(UDS, u requires 0 <= u => s.msgs[FromUD(j, u)]),
         seq(UDS, u requires 0 <= u => s.installed[Nwid(j, u)]))
  }

  /** The nodes whose replies the top thread has not counted. */
  ghost function Open(s: State): set<nat> {
    set j | j in Range(|s.nodes|) && !ViewOf(s, j).Counted()
  }

  ghost predicate TopInv(s: State) {
    if Open(s) == {} then s.top == Ended && s.notified == 1
    else s.top == Live(|Open(s)|) && s.notified == 0
  }

  ghost predicate AllAddressed(s: State) {
    && |s.nodes| > 0
    && (forall m :: m in s.msgs ==> Addressed(m, |s.nodes|))
    && forall x :: x in s.installed ==> exists j, u :: 0 <= j < |s.nodes| && 0 <= u < UDS && x == Nwid(j, u)
  }

  ghost predicate Inv(s: State) {
    && AllAddressed(s)
    && if s.top == Absent then s == Begin(|s.nodes|)
       else s.msgs[Start] == 0 && (forall j :: 0 <= j < |s.nodes| ==> ViewOf(s, j).Inv()) && TopInv(s)
  }

  /** Handlers at a node leave the other nodes alone. */
  lemma OthersSame(s: State, m: Msg, i: nat)
    requires m in s.msgs && Addressed(m, |s.nodes|) && m != Start && i < |s.nodes| && i != m.j
    ensures ViewOf(After(s, m), i) == ViewOf(s, i)
  {
    hide Nwid, Sent, Range, After;
    MessagesElsewhere(s, m, i);
    InstalledElsewhere(s, m, i);
    SameView(s, After(s, m), i);
  }

  lemma MessagesElsewhere(s: State, m: Msg, i: nat)
    requires m in s.msgs && Addressed(m, |s.nodes|) && m != Start && i < |s.nodes| && i != m.j
    ensures var t := After(s, m); |t.nodes| == |s.nodes| && t.nodes[i] == s.nodes[i]
    ensures forall x: Msg :: x != Start && x.j == i ==> After(s, m).msgs[x] == s.msgs[x]
  {
    hide Sent, Nwid;
    Counts(s, m);
  }

  lemma InstalledElsewhere(s: State, m: Msg, i: nat)
    requires m in s.msgs && Addressed(m, |s.nodes|) && m != Start && i != m.j
    ensures forall u :: 0 <= u < UDS ==> After(s, m).installed[Nwid(i, u)] == s.installed[Nwid(i, u)]
  {
    hide Sent, Nwid;
    if m.ToUD? {
      forall u | 0 <= u < UDS ensures Nwid(i, u) != Nwid(m.j, m.u) {
        if Nwid(i, u) == Nwid(m.j, m.u) { NwidInjective(i, u, m.j, m.u); }
      }
    }
  }

  /** A view depends on what concerns its node. */
  lemma SameView(s: State, t: State, i: nat)
    requires i < |s.nodes| && |t.nodes| == |s.nodes| && t.nodes[i] == s.nodes[i]
    requires forall x: Msg :: x != Start && x.j == i ==> t.msgs[x] == s.msgs[x]
    requires forall u :: 0 <= u < UDS ==> t.installed[Nwid(i, u)] == s.installed[Nwid(i, u)]
    ensures ViewOf(t, i) == ViewOf(s, i)
  {
    hide Nwid;
  }

  /** What the handlers at a node do to its view. */
  function Spreading(v: View): View
    requires v.Formed() && v.toNode >= 1
  {
    v.(thread := Live(UDS), toNode := v.toNode - 1, toUD := seq(UDS, u requires 0 <= u < UDS => v.toUD[u] + 1))
  }

  function Installing(v: View, u: nat): View
    requires v.Formed() && u < UDS && v.toUD[u] >= 1
  {
    v.(toUD := v.toUD[u := v.toUD[u] - 1], fromUD := v.fromUD[u := v.fromUD[u] + 1], installed := v.installed[u := v.installed[u] + 1])
  }

  function Counting(v: View, u: nat): View
    requires v.Formed() && u < UDS && v.fromUD[u] >= 1
  {
    v.(thread := Fewer(v.thread), fromUD := v.fromUD[u := v.fromUD[u] - 1], fromNode := v.fromNode + if v.thread == Live(1) then 1 else 0)
  }

  lemma ToNodeView(s: State, j: nat)
    requires ToNode(j) in s.msgs && j < |s.nodes|
    ensures var v := ViewOf(s, j);
      v.toNode >= 1 && ViewOf(After(s, ToNode(j)), j) == Spreading(v)
  {
    hide Nwid, Sent, Range;
    Counts(s, ToNode(j));
  }

  lemma ToUDView(s: State, j: nat, u: nat)
    requires ToUD(j, u) in s.msgs && j < |s.nodes| && u < UDS
    ensures var v := ViewOf(s, j);
      v.toUD[u] >= 1 &&
      ViewOf(After(s, ToUD(j, u)), j) ==
        Installing(v, u)
  {
    hide Nwid, Sent, Range, After;
    Counts(s, ToUD(j, u));
    InstalledAt(s, j, u);
    var v, w := ViewOf(s, j), ViewOf(After(s, ToUD(j, u)), j);
    assert v.toUD[u] == s.msgs[ToUD(j, u)] >= 1;
    OneChanged(v.toUD, w.toUD, u);
    OneChanged(v.fromUD, w.fromUD, u);
    OneChanged(v.installed, w.installed, u);
  }

  lemma InstalledAt(s: State, j: nat, u: nat)
    requires ToUD(j, u) in s.msgs && j < |s.nodes| && u < UDS
    ensures After(s, ToUD(j, u)).nodes == s.nodes
    ensures forall i :: 0 <= i < UDS ==>
      After(s, ToUD(j, u)).installed[Nwid(j, i)] == s.installed[Nwid(j, i)] + if i == u then 1 else 0
  {
    hide Nwid, Sent;
    forall i | 0 <= i < UDS ensures i != u ==> Nwid(j, i) != Nwid(j, u) {
      if i != u && Nwid(j, i) == Nwid(j, u) { NwidInjective(j, i, j, u); }
    }
  }

  lemma OneChanged<T>(a: seq<T>, b: seq<T>, k: nat)
    requires |a| == |b| && k < |a| && forall i :: 0 <= i < |a| && i != k ==> b[i] == a[i]
    ensures b == a[k := b[k]]
  {
  }

  lemma FromUDView(s: State, j: nat, u: nat)
    requires FromUD(j, u) in s.msgs && j < |s.nodes| && u < UDS
    ensures var v := ViewOf(s, j);
      v.fromUD[u] >= 1 &&
      ViewOf(After(s, FromUD(j, u)), j) ==
        Counting(v, u)
  {
    hide Nwid, Sent, Range;
    Counts(s, FromUD(j, u));
  }

  lemma FromNodeView(s: State, j: nat)
    requires FromNode(j) in s.msgs && j < |s.nodes|
    ensures var v := ViewOf(s, j); v.fromNode >= 1 && ViewOf(After(s, FromNode(j)), j) == v.(fromNode := v.fromNode - 1)
  {
    hide Nwid, Sent, Range;
    Counts(s, FromNode(j));
  }

  lemma ToNodeKept(v: View)
    requires v.Inv() && v.toNode >= 1
    ensures Spreading(v).Inv() && !Spreading(v).Counted()
    ensures !v.Counted()
  {
    hide Range;
    var w := Spreading(v);
    assert w.Unreturned() == Range(|v.toUD|);
  }

  lemma ToUDKept(v: View, u: nat)
    requires v.Inv() && u < UDS && v.toUD[u] >= 1
    ensures v.thread.Live?
    ensures Installing(v, u).Inv() && !Installing(v, u).Counted()
    ensures !v.Counted()
  {
    hide Range;
    var w := Installing(v, u);
    assert w.Unreturned() == v.Unreturned();
  }

  lemma FromUDKept(v: View, u: nat)
    requires v.Inv() && u < UDS && v.fromUD[u] >= 1
    ensures v.thread.Live?
    ensures Counting(v, u).Inv()
    ensures !v.Counted() && !Counting(v, u).Counted()
  {
    hide Range;
    var w := Counting(v, u);
    assert u in v.Unreturned();
    assert w.Unreturned() == v.Unreturned() - {u};
    if v.thread == Live(1) {
      forall i | 0 <= i < UDS ensures w.toUD[i] + w.fromUD[i] == 0 {
        assert i in Range(|v.toUD|) && i !in w.Unreturned();
      }
    }
  }

  /** Every handler keeps the invariant. */
  lemma Kept(s: State, m: Msg)
    requires Inv(s) && m in s.msgs
    ensures Addressed(m, |s.nodes|) && Inv(After(s, m))
  {
    hide Range, Nwid, Sent, View.Inv, ViewOf;
    if m == Start {
      StartKept(s);
    } else {
      Started(s, m);
      AddressedKept(s, m);
      Counts(s, m);
      HandlerKept(s, m);
      forall i | 0 <= i < |s.nodes| && i != m.j ensures ViewOf(After(s, m), i) == ViewOf(s, i) { OthersSame(s, m, i); }
      TopKept(s, m);
    }
  }

  lemma StartKept(s: State)
    requires Inv(s) && Start in s.msgs
    ensures Inv(After(s, Start))
  {
    hide Range, Sent, View.Inv, ViewOf, Open;
    assert s == Begin(|s.nodes|);
    var n := |s.nodes|;
    StartAddressed(n);
    forall j | 0 <= j < n ensures ViewOf(After(s, Start), j).Inv() { StartView(n, j); }
    StartOpen(n);
  }

  lemma StartAddressed(n: nat)
    requires n > 0
    ensures var s := Begin(n); Start in s.msgs && AllAddressed(After(s, Start)) && After(s, Start).msgs[Start] == 0
  {
    hide Sent;
    var s := Begin(n);
    assert s.msgs[Start] == 1;
    Counts(s, Start);
    forall m | m in After(s, Start).msgs ensures Addressed(m, n) {
      assert After(s, Start).msgs[m] > 0;
    }
  }

  lemma StartView(n: nat, j: nat)
    requires j < n
    ensures var s := Begin(n); Start in s.msgs
    ensures var v := ViewOf(After(Begin(n), Start), j); v.Inv() && !v.Counted()
  {
    hide Sent, Range;
    assert Begin(n).msgs[Start] == 1;
    Counts(Begin(n), Start);
  }

  lemma StartOpen(n: nat)
    requires n > 0
    ensures Start in Begin(n).msgs && TopInv(After(Begin(n), Start))
  {
    hide Sent, Range, ViewOf, View.Inv, View.Counted;
    assert Begin(n).msgs[Start] == 1;
    var t := After(Begin(n), Start);
    forall j | 0 <= j < n ensures !ViewOf(t, j).Counted() { StartView(n, j); }
    assert Open(t) == Range(n);
    InRange(0, n);
  }

  lemma Started(s: State, m: Msg)
    requires Inv(s) && m in s.msgs && m != Start
    ensures s.top != Absent && Addressed(m, |s.nodes|) && ViewOf(s, m.j).Inv() && TopInv(s) && s.msgs[Start] == 0
  {
  }

  lemma AddressedKept(s: State, m: Msg)
    requires AllAddressed(s) && m in s.msgs
    ensures AllAddressed(After(s, m))
  {
    hide Range, Sent;
    Counts(s, m);
    var t := After(s, m);
    forall x | x in t.msgs ensures Addressed(x, |s.nodes|) {
      assert t.msgs[x] > 0;
    }
    if m.ToUD? {
      forall x | x in t.installed ensures exists j, u :: 0 <= j < |t.nodes| && 0 <= u < UDS && x == Nwid(j, u) {
        if x !in s.installed { assert x == Nwid(m.j, m.u); }
      }
    }
  }

  /** The handler keeps the invariant of its own node, which is counted after the reply of
      the node has been, and not before. */
  lemma HandlerKept(s: State, m: Msg)
    requires m in s.msgs && m != Start && Addressed(m, |s.nodes|) && ViewOf(s, m.j).Inv()
    ensures ViewOf(After(s, m), m.j).Inv() && !ViewOf(s, m.j).Counted()
    ensures ViewOf(After(s, m), m.j).Counted() <==> m.FromNode?
  {
    hide Range, Nwid, Sent, View.Inv, View.Counted, ViewOf, Spreading, Installing, Counting, After;
    match m
    case ToNode(j) => ToNodeView(s, j); ToNodeKept(ViewOf(s, j));
    case ToUD(j, u) => ToUDView(s, j, u); ToUDKept(ViewOf(s, j), u);
    case FromUD(j, u) => FromUDView(s, j, u); FromUDKept(ViewOf(s, j), u);
    case FromNode(j) => FromNodeView(s, j); FromNodeKept(ViewOf(s, j));
  }

  lemma FromNodeKept(v: View)
    requires v.Inv() && v.fromNode >= 1
    ensures v.(fromNode := v.fromNode - 1).Inv()
    ensures !v.Counted() && v.(fromNode := v.fromNode - 1).Counted()
  {
    hide Range;
    assert v.(fromNode := v.fromNode - 1).Unreturned() == v.Unreturned();
  }

  lemma TopKept(s: State, m: Msg)
    requires m in s.msgs && m != Start && Addressed(m, |s.nodes|) && TopInv(s) && !ViewOf(s, m.j).Counted()
    requires forall i :: 0 <= i < |s.nodes| && i != m.j ==> ViewOf(After(s, m), i) == ViewOf(s, i)
    requires ViewOf(After(s, m), m.j).Counted() <==> m.FromNode?
    ensures TopInv(After(s, m)) && After(s, m).top != Absent
  {
    hide Range, Nwid, Sent, ViewOf, View.Counted, Open;
    OpenAfter(s, m);
    if m.FromNode? {
      var t := After(s, m);
      assert |Open(t)| == |Open(s)| - 1;
      assert Open(t) == {} <==> |Open(t)| == 0;
    }
  }

  /** The node whose reply arrives at the top is no longer open. */
  lemma OpenAfter(s: State, m: Msg)
    requires m in s.msgs && m != Start && Addressed(m, |s.nodes|) && !ViewOf(s, m.j).Counted()
    requires forall i :: 0 <= i < |s.nodes| && i != m.j ==> ViewOf(After(s, m), i) == ViewOf(s, i)
    requires ViewOf(After(s, m), m.j).Counted() <==> m.FromNode?
    ensures m.j in Open(s) && Open(After(s, m)) == if m.FromNode? then Open(s) - {m.j} else Open(s)
  {
    hide Range, Nwid, Sent, ViewOf, View.Counted;
    InRange(m.j, |s.nodes|);
    assert |After(s, m).nodes| == |s.nodes|;
  }

  lemma InRange(j: nat, n: nat)
    requires j < n
    ensures j in Range(n)
  {
  }

  /** The user is told at most once, and exactly when nothing is in flight any more; then
      every UpDown has installed the entry, each once, and nothing else has. */
  lemma NotifiedWhenDone(s: State)
    requires Inv(s)
    ensures s.notified <= 1
    ensures s.notified == 1 <==> s.msgs == multiset{}
    ensures s.notified == 1 ==> (forall j, u :: 0 <= j < |s.nodes| && 0 <= u < UDS ==> s.installed[Nwid(j, u)] == 1)
    ensures forall x :: x in s.installed ==> exists j, u :: 0 <= j < |s.nodes| && 0 <= u < UDS && x == Nwid(j, u)
  {
    hide Range, Nwid;
    if s.notified == 1 {
      assert s.top != Absent && Open(s) == {};
      forall j | 0 <= j < |s.nodes| ensures ViewOf(s, j).Counted() && ViewOf(s, j).Inv() {
        assert j in Range(|s.nodes|) && j !in Open(s);
      }
      forall m ensures m !in s.msgs {
        if m in s.msgs && m != Start {
          NoneAt(s, m);
        }
      }
      forall j, u | 0 <= j < |s.nodes| && 0 <= u < UDS ensures s.installed[Nwid(j, u)] == 1 {
        assert ViewOf(s, j).installed[u] == s.installed[Nwid(j, u)];
      }
    }
    if s.msgs == multiset{} {
      assert s.top != Absent by { assert Begin(|s.nodes|).msgs[Start] == 1; }
      forall j | 0 <= j < |s.nodes| ensures ViewOf(s, j).Counted() { SilentNode(s, j); }
    }
  }

  lemma NoneAt(s: State, m: Msg)
    requires m in s.msgs && m != Start && Addressed(m, |s.nodes|)
    ensures !(ViewOf(s, m.j).Counted() && ViewOf(s, m.j).Inv())
  {
    hide Range, Nwid;
    var v := ViewOf(s, m.j);
    if m.ToUD? { assert v.toUD[m.u] == s.msgs[m]; }
    if m.FromUD? { assert v.fromUD[m.u] == s.msgs[m]; }
  }

  lemma SilentNode(s: State, j: nat)
    requires j < |s.nodes| && ViewOf(s, j).Inv() && s.msgs == multiset{}
    ensures ViewOf(s, j).Counted()
  {
    hide Range, Nwid;
    var v := ViewOf(s, j);
    forall u | u in Range(|v.toUD|) ensures u !in v.Unreturned() {
      assert v.toUD[u] == s.msgs[ToUD(j, u)] && v.fromUD[u] == s.msgs[FromUD(j, u)];
    }
    assert v.Unreturned() == {};
  }

  /** The deliveries that are still to come, from a node and in all. */
  function NodeWork(v: View): int {
    match v.thread
    case Absent => 66
    case Live(_) => 1 + 2 * SumOf(v.toUD) + SumOf(v.fromUD)
    case Ended => v.fromNode
  }

  function SumOf(s: seq<nat>): nat {
    if s == [] then 0 else SumOf(s[..|s| - 1]) + s[|s| - 1]
  }

  function WorkBelow(s: State, k: nat): int
    requires k <= |s.nodes|
  {
    if k == 0 then 0 else WorkBelow(s, k - 1) + NodeWork(ViewOf(s, k - 1))
  }

  function Work(s: State): int {
    if s.top == Absent then 1 + 66 * |s.nodes| else WorkBelow(s, |s.nodes|)
  }

  lemma {:induction false} SumChanged(s: seq<nat>, u: nat, x: nat)
    requires u < |s|
    ensures SumOf(s[u := x]) == SumOf(s) - s[u] + x
  {
    var t := s[u := x];
    if u == |s| - 1 {
      assert t[..u] == s[..u];
    } else {
      SumChanged(s[..|s| - 1], u, x);
      assert t[..|s| - 1] == s[..|s| - 1][u := x];
    }
  }

  lemma {:induction false} SumConstant(s: seq<nat>, c: nat)
    requires forall i :: 0 <= i < |s| ==> s[i] == c
    ensures SumOf(s) == c * |s|
  {
    if s != [] {
      SumConstant(s[..|s| - 1], c);
      assert c * |s| == c * (|s| - 1) + c;
    }
  }

  /** Each handler does one delivery's work at its node. */
  lemma HandlerWork(s: State, m: Msg)
    requires m in s.msgs && m != Start && Addressed(m, |s.nodes|) && ViewOf(s, m.j).Inv()
    ensures NodeWork(ViewOf(After(s, m), m.j)) == NodeWork(ViewOf(s, m.j)) - 1
  {
    hide Range, Nwid, Sent, View.Inv, NodeWork, ViewOf, Spreading, Installing, Counting, After;
    var v := ViewOf(s, m.j);
    match m
    case ToNode(j) => ToNodeView(s, j); SpreadingWork(v);
    case ToUD(j, u) => ToUDView(s, j, u); InstallingWork(v, u);
    case FromUD(j, u) => FromUDView(s, j, u); CountingWork(v, u);
    case FromNode(j) => FromNodeView(s, j); LastWork(v);
  }

  lemma SpreadingWork(v: View)
    requires v.Inv() && v.toNode >= 1
    ensures NodeWork(Spreading(v)) == NodeWork(v) - 1
  {
    hide SumOf, Range;
    SumConstant(Spreading(v).toUD, 1);
    SumConstant(v.fromUD, 0);
  }

  lemma InstallingWork(v: View, u: nat)
    requires v.Inv() && u < UDS && v.toUD[u] >= 1
    ensures NodeWork(Installing(v, u)) == NodeWork(v) - 1
  {
    hide SumOf, Range;
    ToUDKept(v, u);
    SumChanged(v.toUD, u, v.toUD[u] - 1);
    SumChanged(v.fromUD, u, v.fromUD[u] + 1);
  }

  lemma CountingWork(v: View, u: nat)
    requires v.Inv() && u < UDS && v.fromUD[u] >= 1
    ensures NodeWork(Counting(v, u)) == NodeWork(v) - 1
  {
    hide SumOf, Range;
    FromUDKept(v, u);
    SumChanged(v.fromUD, u, v.fromUD[u] - 1);
    if v.thread == Live(1) { LastReply(v, u); }
  }

  lemma LastWork(v: View)
    requires v.Inv() && v.fromNode >= 1
    ensures NodeWork(v.(fromNode := v.fromNode - 1)) == NodeWork(v) - 1
  {
    hide Range;
  }

  /** When one reply is left, it is the only message. */
  lemma LastReply(v: View, u: nat)
    requires v.Inv() && v.thread == Live(1) && u < UDS && v.fromUD[u] >= 1
    ensures SumOf(v.toUD) == 0 && SumOf(v.fromUD) == 1
  {
    hide Range, SumOf;
    assert u in v.Unreturned();
    assert |v.Unreturned() - {u}| == 0;
    forall i | 0 <= i < UDS && i != u ensures v.toUD[i] == v.fromUD[i] == 0 {
      assert i in Range(|v.toUD|) && i !in v.Unreturned() - {u};
    }
    SumConstant(v.toUD, 0);
    SumChanged(v.fromUD, u, 0);
    SumConstant(v.fromUD[u := 0], 0);
  }

  lemma {:induction false} WorkChanged(s: State, t: State, j: nat, k: nat, d: int)
    requires k <= |s.nodes| == |t.nodes| && j < |s.nodes|
    requires forall i :: 0 <= i < |s.nodes| && i != j ==> ViewOf(t, i) == ViewOf(s, i)
    requires NodeWork(ViewOf(t, j)) == NodeWork(ViewOf(s, j)) + d
    ensures WorkBelow(t, k) == WorkBelow(s, k) + if j < k then d else 0
  {
    hide NodeWork, ViewOf;
    if k > 0 { WorkChanged(s, t, j, k - 1, d); }
  }

  lemma {:induction false} WorkAtStart(s: State, k: nat)
    requires k <= |s.nodes| && forall i :: 0 <= i < |s.nodes| ==> s.nodes[i] == Absent
    ensures WorkBelow(s, k) == 66 * k
  {
    if k > 0 { WorkAtStart(s, k - 1); }
  }

  /** Every delivery brings the end one step nearer. */
  lemma WorkFalls(s: State, m: Msg)
    requires Inv(s) && m in s.msgs
    ensures Addressed(m, |s.nodes|) && Work(After(s, m)) == Work(s) - 1
  {
    hide Range, Nwid, Sent, ViewOf, NodeWork;
    if m == Start {
      WorkAtStart(After(s, m), |s.nodes|);
    } else {
      Started(s, m);
      HandlerWork(s, m);
      forall i | 0 <= i < |s.nodes| && i != m.j ensures ViewOf(After(s, m), i) == ViewOf(s, i) { OthersSame(s, m, i); }
      TopStays(s, m);
      WorkChanged(s, After(s, m), m.j, |s.nodes|, -1);
    }
  }

  lemma TopStays(s: State, m: Msg)
    requires m in s.msgs && m != Start && Addressed(m, |s.nodes|) && s.top != Absent
    ensures After(s, m).top != Absent
  {
  }

  /** `ms` can be delivered one after the other, leading from `s` to `t`. */
  ghost predicate Delivers(s: State, ms: seq<Msg>, t: State)
    decreases |ms|
  {
    if ms == [] then s == t
    else ms[0] in s.msgs && Addressed(ms[0], |s.nodes|) && Delivers(After(s, ms[0]), ms[1..], t)
  }

  lemma {:induction false} RunKept(s: State, ms: seq<Msg>, t: State)
    requires Inv(s) && Delivers(s, ms, t)
    ensures Inv(t) && |t.nodes| == |s.nodes| && Work(t) == Work(s) - |ms|
    decreases |ms|
  {
    hide Inv, After, Work;
    if ms != [] {
      Kept(s, ms[0]);
      WorkFalls(s, ms[0]);
      NodesStay(s, ms[0]);
      RunKept(After(s, ms[0]), ms[1..], t);
    }
  }

  lemma NodesStay(s: State, m: Msg)
    requires m in s.msgs && Addressed(m, |s.nodes|)
    ensures |After(s, m).nodes| == |s.nodes|
  {
  }

  /** In whatever order the messages of a machine with `n` nodes arrive: the user is told
      exactly at the end, after 1 + 66 * n deliveries, when every UpDown has installed the
      entry exactly once. */
  lemma InstalledEverywhere(n: nat, ms: seq<Msg>, t: State)
    requires n > 0 && Delivers(Begin(n), ms, t)
    ensures |ms| <= 1 + 66 * n && t.notified <= 1
    ensures t.notified == 1 <==> |ms| == 1 + 66 * n
    ensures t.notified == 1 <==> t.msgs == multiset{}
    ensures t.notified == 1 ==> |t.nodes| == n && forall j, u :: 0 <= j < n && 0 <= u < UDS ==> t.installed[Nwid(j, u)] == 1
  {
    hide Nwid, Inv, Work, Delivers;
    BeginWork(n);
    RunKept(Begin(n), ms, t);
    NotifiedWhenDone(t);
    NoWorkIff(t);
  }

  lemma BeginWork(n: nat)
    requires n > 0
    ensures Inv(Begin(n)) && Work(Begin(n)) == 1 + 66 * n
  {
    hide Nwid, ViewOf;
  }

  /** The user is told when no work is left. */
  lemma NoWorkIff(s: State)
    requires Inv(s)
    ensures Work(s) >= 0 && (Work(s) == 0 <==> s.notified == 1)
  {
    hide Range, Nwid, ViewOf, View.Inv, View.Counted;
    WorkLeft(s, |s.nodes|);
    OpenIff(s);
  }

  lemma OpenIff(s: State)
    ensures Open(s) == {} <==> forall j :: 0 <= j < |s.nodes| ==> ViewOf(s, j).Counted()
  {
    hide ViewOf, View.Counted;
    forall j | 0 <= j < |s.nodes| ensures j in Open(s) <==> !ViewOf(s, j).Counted() { InRange(j, |s.nodes|); }
  }

  /** There is work left as long as something is in flight. */
  lemma {:induction false} WorkLeft(s: State, k: nat)
    requires Inv(s) && k <= |s.nodes|
    ensures s.top != Absent ==> WorkBelow(s, k) >= 0
    ensures s.top != Absent ==> (WorkBelow(s, k) == 0 <==> forall j :: 0 <= j < k ==> ViewOf(s, j).Counted())
  {
    hide Range, Nwid, ViewOf;
    if k > 0 { WorkLeft(s, k - 1); }
  }

  /** The loop of `broadcast`: the destinations, a stride apart.  It tests after sending, so
      a broadcast to none sends one. */
  method Broadcast(x0: nat, numDst: nat, log2Stride: nat) returns (sent: seq<nat>)
    ensures |sent| == if numDst == 0 then 1 else numDst
    ensures forall c :: 0 <= c < |sent| ==> sent[c] == x0 + Up(c, log2Stride)
  {
    var counter := 0;
    sent := [x0 + Up(counter, log2Stride)];
    counter := counter + 1;
    while counter < numDst
      invariant |sent| == counter && (counter <= numDst || (numDst == 0 && counter == 1))
      invariant forall c :: 0 <= c < counter ==> sent[c] == x0 + Up(c, log2Stride)
    {
      sent := sent + [x0 + Up(counter, log2Stride)];
      counter := counter + 1;
    }
  }

  /** The strides of the two broadcasts are those of the lane addresses. */
  lemma StridesMatch(j: nat, u: nat)
    ensures Nwid(j, 0) == Up(j, LOG2_LANES + LOG2_UDS)
    ensures Nwid(j, u) == Nwid(j, 0) + Up(u, LOG2_LANES)
  {
    UpIs(j, LOG2_LANES + LOG2_UDS);
    UpIs(u, LOG2_LANES);
    SmallPowers();
    assert Pow2(6) == 64;
    Pow2Add(6, 5);
    assert Pow2(5) == 32;
  }
}
