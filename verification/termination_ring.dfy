/**
  The termination examples: every handler run counts its node down and, while the count is
  positive, sends one message to the next node of the ring.  In the collective example every
  node sends the first message, in the rooted example only node 0 does.
 */
module TerminationRing {
  import opened Arithmetic

  /** The counter of every node, and the number of messages on their way to it. */
  datatype State = State(num: seq<int>, inflight: seq<nat>)

  ghost predicate WellFormed(s: State) { |s.num| == |s.inflight| > 0 }

  function Next(i: nat, n: nat): (j: nat)
    requires i < n
    ensures j < n
  {
    (i + 1) % n
  }

  /** The handler on node i. */
  ghost function Handle(s: State, i: nat): State
    requires WellFormed(s) && i < |s.num| && s.inflight[i] > 0
  {
    var num := s.num[i] - 1;
    var taken := s.inflight[i := s.inflight[i] - 1];
    var j := Next(i, |s.num|);
    State(s.num[i := num], if num > 0 then taken[j := taken[j] + 1] else taken)
  }

  /** The nodes, changed in place. */
  class Nodes {
    var num: seq<int>
    var inflight: seq<nat>

    ghost function View(): State
      reads this
    {
      State(num, inflight)
    }

    method TestHandler(i: nat)
      requires WellFormed(View()) && i < |num| && inflight[i] > 0
      modifies this
      ensures View() == Handle(old(View()), i)
    {
      inflight := inflight[i := inflight[i] - 1];
      num := num[i := num[i] - 1];
      if num[i] > 0 {
        var j := Next(i, |num|);
        inflight := inflight[j := inflight[j] + 1];
      }
    }
  }

  // ---------------------------------------------------------------- runs

  /** The start: all counters at k, and first[i] messages on their way to node i. */
  ghost function Start(k: nat, first: seq<nat>): State {
    State(seq(|first|, _ => k), first)
  }

  /** At most one first message for each node, and at least one in all. */
  ghost predicate FirstMessages(first: seq<nat>) {
    (forall i | 0 <= i < |first| :: first[i] <= 1) && exists i | 0 <= i < |first| :: first[i] == 1
  }

  /** A schedule: the nodes in the order in which they handle a message. */
  ghost predicate Runnable(k: nat, first: seq<nat>, evs: seq<nat>)
    requires |first| > 0
    decreases |evs|, 0
  {
    evs == [] || (Runnable(k, first, Before(evs)) && Enabled(Run(k, first, Before(evs)), Last(evs)))
  }

  ghost function Run(k: nat, first: seq<nat>, evs: seq<nat>): (s: State)
    requires |first| > 0 && Runnable(k, first, evs)
    ensures WellFormed(s) && |s.num| == |first|
    decreases |evs|, 1
  {
    if evs == [] then Start(k, first) else Handle(Run(k, first, Before(evs)), Last(evs))
  }

  ghost predicate Enabled(s: State, i: nat) { WellFormed(s) && i < |s.num| && s.inflight[i] > 0 }

  ghost function Before(evs: seq<nat>): seq<nat>
    requires evs != []
  {
    evs[..|evs| - 1]
  }

  ghost function Last(evs: seq<nat>): nat
    requires evs != []
  {
    evs[|evs| - 1]
  }

  ghost predicate Quiescent(s: State) { forall i | 0 <= i < |s.inflight| :: s.inflight[i] == 0 }

  // ---------------------------------------------------------------- what every run keeps

  /** The number of messages that a node has sent after r runs of its handler. */
  ghost function Sent(k: nat, r: int): int { if r < k then r else k - 1 }

  /** What a node handled and what is on its way to it is what it was sent. */
  ghost predicate Balanced(s: State, k: nat, first: seq<nat>) {
    && WellFormed(s) && |s.num| == |first|
    && (forall i | 0 <= i < |first| :: s.num[i] <= k)
    && (forall i | 0 <= i < |first| :: var j := Next(i, |first|);
          k - s.num[j] + s.inflight[j] == first[j] + Sent(k, k - s.num[i]))
  }

  lemma NextIs(i: nat, n: nat)
    requires i < n
    ensures Next(i, n) == if i == n - 1 then 0 else i + 1
  {
  }

  /** Every node is next to exactly one node. */
  lemma NextOnto(j: nat, n: nat) returns (i: nat)
    requires j < n
    ensures i < n && Next(i, n) == j
  {
    i := if j == 0 then n - 1 else j - 1;
    NextIs(i, n);
  }

  lemma NextOne(i: nat, j: nat, n: nat)
    requires i < n && j < n && Next(i, n) == Next(j, n)
    ensures i == j
  {
    NextIs(i, n);
    NextIs(j, n);
  }

  lemma HandleKeeps(s: State, i: nat, k: nat, first: seq<nat>)
    requires k > 0 && Balanced(s, k, first) && Enabled(s, i)
    ensures Balanced(Handle(s, i), k, first)
  {
    var t, n := Handle(s, i), |first|;
    forall a | 0 <= a < n
      ensures var j := Next(a, n); k - t.num[j] + t.inflight[j] == first[j] + Sent(k, k - t.num[a])
    {
      if Next(a, n) == Next(i, n) { NextOne(a, i, n); }
    }
  }

  lemma {:induction false} RunKeeps(k: nat, first: seq<nat>, evs: seq<nat>)
    requires k > 0 && |first| > 0 && Runnable(k, first, evs)
    ensures Balanced(Run(k, first, evs), k, first)
  {
    if evs != [] {
      RunKeeps(k, first, Before(evs));
      HandleKeeps(Run(k, first, Before(evs)), Last(evs), k, first);
    }
  }

  // ---------------------------------------------------------------- counting handler runs

  lemma {:induction false} SumUpdate(s: seq<int>, i: nat, x: int)
    requires i < |s|
    ensures Sum(s[i := x]) == Sum(s) - s[i] + x
  {
    var n := |s| - 1;
    if i == n {
      assert s[i := x][..n] == s[..n];
    } else {
      SumUpdate(s[..n], i, x);
      assert s[i := x][..n] == s[..n][i := x];
    }
  }

  lemma {:induction false} SumConst(n: nat, c: int)
    ensures Sum(seq(n, _ => c)) == n * c
  {
    if n > 0 {
      SumConst(n - 1, c);
      assert seq(n, _ => c)[..n - 1] == seq(n - 1, _ => c);
    }
  }

  lemma {:induction false} SumBound(a: seq<int>, first: seq<nat>)
    requires |a| == |first| && forall i | 0 <= i < |a| :: a[i] + first[i] >= 1
    ensures Sum(a) >= |a| - Sum(first)
    ensures (forall i | 0 <= i < |a| :: a[i] + first[i] == 1) ==> Sum(a) == |a| - Sum(first)
  {
    if a != [] { SumBound(a[..|a| - 1], first[..|a| - 1]); }
  }

  lemma {:induction false} RunCount(k: nat, first: seq<nat>, evs: seq<nat>)
    requires |first| > 0 && Runnable(k, first, evs)
    ensures |evs| == |first| * k - Sum(Run(k, first, evs).num)
  {
    if evs == [] {
      SumConst(|first|, k);
    } else {
      RunCount(k, first, Before(evs));
      var s := Run(k, first, Before(evs));
      SumUpdate(s.num, Last(evs), s.num[Last(evs)] - 1);
    }
  }

  // ---------------------------------------------------------------- results

  lemma NeverNegative(s: State, k: nat, first: seq<nat>, j: nat)
    requires k > 0 && Balanced(s, k, first) && j < |first|
    ensures s.num[j] + first[j] >= 1
  {
    var i := NextOnto(j, |first|);
  }

  /** Every run ends: it has no more than so many handler runs, and no counter drops below 0. */
  lemma RunsEnd(k: nat, first: seq<nat>, evs: seq<nat>)
    requires k > 0 && FirstMessages(first) && Runnable(k, first, evs)
    ensures |evs| <= (k - 1) * |first| + Sum(first)
    ensures forall i | 0 <= i < |first| :: Run(k, first, evs).num[i] >= 0
  {
    var s := Run(k, first, evs);
    RunKeeps(k, first, evs);
    forall i | 0 <= i < |first| ensures s.num[i] + first[i] >= 1 { NeverNegative(s, k, first, i); }
    SumBound(s.num, first);
    RunCount(k, first, evs);
  }

  /** The node d steps further round the ring. */
  ghost function Along(p: nat, d: nat, n: nat): (i: nat)
    requires p < n && d < n
    ensures i < n
  {
    if p + d < n then p + d else p + d - n
  }

  /** Going round the ring from node p, no node has sent less than p. */
  lemma {:induction false} SentGrows(s: State, k: nat, first: seq<nat>, p: nat, d: nat)
    requires k > 0 && Balanced(s, k, first) && Quiescent(s) && p < |first| && d < |first|
    ensures Sent(k, k - s.num[Along(p, d, |first|)]) >= Sent(k, k - s.num[p])
  {
    var n := |first|;
    if d > 0 {
      SentGrows(s, k, first, p, d - 1);
      NextIs(Along(p, d - 1, n), n);
      assert Next(Along(p, d - 1, n), n) == Along(p, d, n);
    }
  }

  /** When no message is left, every node has sent as much as it can. */
  lemma AllSent(s: State, k: nat, first: seq<nat>, i: nat)
    requires k > 0 && Balanced(s, k, first) && Quiescent(s) && FirstMessages(first) && i < |first|
    ensures Sent(k, k - s.num[i]) == k - 1
  {
    var n := |first|;
    var p: nat :| p < n && first[p] == 1;
    var before := NextOnto(p, n);
    SentGrows(s, k, first, p, Distance(p, before, n));
    assert Sent(k, k - s.num[p]) == k - 1;
    SentGrows(s, k, first, p, Distance(p, i, n));
  }

  ghost function Distance(p: nat, i: nat, n: nat): (d: nat)
    requires p < n && i < n
    ensures d < n && Along(p, d, n) == i
  {
    if i >= p then i - p else i + n - p
  }

  /** A run that is over has counted every node down, whatever the schedule. */
  lemma ExactRuns(k: nat, first: seq<nat>, evs: seq<nat>)
    requires k > 0 && FirstMessages(first) && Runnable(k, first, evs) && Quiescent(Run(k, first, evs))
    ensures |evs| == (k - 1) * |first| + Sum(first)
    ensures forall i | 0 <= i < |first| :: Run(k, first, evs).num[i] + first[i] == 1
  {
    var s := Run(k, first, evs);
    RunKeeps(k, first, evs);
    forall j | 0 <= j < |first| ensures s.num[j] + first[j] == 1 {
      var i := NextOnto(j, |first|);
      AllSent(s, k, first, i);
    }
    SumBound(s.num, first);
    RunCount(k, first, evs);
  }

  /** The collective example: every node sends a first message. */
  lemma CollectiveRuns(k: nat, n: nat, evs: seq<nat>)
    requires k > 0 && n > 0
    requires var first: seq<nat> := seq(n, _ => 1); Runnable(k, first, evs) && Quiescent(Run(k, first, evs))
    ensures |evs| == k * n
    ensures var first: seq<nat> := seq(n, _ => 1); forall i | 0 <= i < n :: Run(k, first, evs).num[i] == 0
  {
    var first: seq<nat> := seq(n, _ => 1);
    assert first[0] == 1;
    ExactRuns(k, first, evs);
    SumConst(n, 1);
    assert first == seq(n, _ => 1 as int);
  }

  /** The rooted example: only node 0 sends a first message, to node 1. */
  lemma RootedRuns(k: nat, n: nat, evs: seq<nat>)
    requires k > 0 && n > 1
    requires var first: seq<nat> := Rooted(n); Runnable(k, first, evs) && Quiescent(Run(k, first, evs))
    ensures |evs| == (k - 1) * n + 1
    ensures forall i | 0 <= i < n :: Run(k, Rooted(n), evs).num[i] == if i == 1 then 0 else 1
  {
    assert Rooted(n)[1] == 1;
    ExactRuns(k, Rooted(n), evs);
    SumRooted(n);
  }

  ghost function Rooted(n: nat): (first: seq<nat>)
    ensures |first| == n
  {
    seq(n, i => if i == 1 then 1 else 0)
  }

  lemma {:induction false} SumRooted(n: nat)
    requires n > 1
    ensures Sum(Rooted(n)) == 1
  {
    assert Rooted(n)[..n - 1] == Rooted(n - 1);
    if n > 2 {
      SumRooted(n - 1);
    } else {
      assert Rooted(1)[..0] == [] && Sum(Rooted(1)) == 0;
    }
  }
}
