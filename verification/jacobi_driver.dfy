/**
  The loop that drives the solvers: every node runs epochs until it has been told that the
  work is done.
 */
module JacobiDriver {
  import opened JacobiGrid
  import opened JacobiProtocol
  import opened JacobiRefinement
  import opened JacobiEpochs
  import opened JacobiNorm
  import opened JacobiSchedules
  import opened JacobiSolver

  const DEFAULT_TOL: real := 0.01

  /** What checkCompleteCB decides, on an element that has iterated iter times. */
  predicate Complete(maxIter: nat, iter: nat, normRes: real) {
    iter > maxIter || normRes < DEFAULT_TOL
  }

  lemma {:induction false} PrefixRunnable(p: Problem, s: System, evss: seq<seq<Event>>, k: nat)
    requires p.WellFormed() && EpochsRunnable(p, s, evss) && k <= |evss|
    ensures EpochsRunnable(p, s, evss[..k])
    decreases k
  {
    if k > 0 {
      PrefixRunnable(p, NextEpoch(Run(p, s, evss[0])), evss[1..], k - 1);
      assert evss[..k][0] == evss[0] && evss[..k][1..] == evss[1..][..k - 1];
    }
  }

  /** The collection after k epochs. */
  ghost function After(p: Problem, start: Field, evss: seq<seq<Event>>, k: nat): System
    requires p.WellFormed() && EpochsRunnable(p, InitSystem(p, start), evss) && k <= |evss|
  {
    PrefixRunnable(p, InitSystem(p, start), evss, k);
    RunEpochs(p, InitSystem(p, start), evss[..k])
  }

  /** The callback gets the maximum of the norms that the elements computed in epoch k. */
  ghost predicate Reported(p: Problem, t: System, norms: Index -> real, normRes: real) {
    IsReduced(p, norms, normRes) && forall e | p.InRange(e) :: IsBlockNorm(p, t.elems(e).told, norms(e))
  }

  /** The state after k epochs is one between epochs; so the element that gets the norm has iterated k times. */
  lemma {:induction false} AfterBetween(p: Problem, s: System, j: nat, evss: seq<seq<Event>>)
    requires Between(p, s, j) && EpochsRunnable(p, s, evss)
    ensures Between(p, RunEpochs(p, s, evss), j + |evss|)
    decreases |evss|
  {
    if evss != [] {
      EpochComputes(p, s, j, evss[0]);
      AfterBetween(p, NextEpoch(Run(p, s, evss[0])), j + 1, evss[1..]);
    }
  }

  lemma AfterCounts(p: Problem, start: Field, evss: seq<seq<Event>>, k: nat)
    requires p.Consistent() && p.n > 0 && EpochsRunnable(p, InitSystem(p, start), evss) && k <= |evss|
    ensures Between(p, After(p, start, evss, k), k)
  {
    InitIsBetween(p, start);
    PrefixRunnable(p, InitSystem(p, start), evss, k);
    AfterBetween(p, InitSystem(p, start), 0, evss[..k]);
  }

  /** The norm of the collection after k epochs is below the tolerance. */
  ghost predicate Converged(p: Problem, start: Field, evss: seq<seq<Event>>, k: nat)
    requires p.WellFormed() && EpochsRunnable(p, InitSystem(p, start), evss) && k <= |evss|
  {
    forall m | IsNorm(p, Gather(p, After(p, start, evss, k)), m) :: m < DEFAULT_TOL
  }

  lemma NormUnique(p: Problem, u: Field, m: real, m': real)
    requires IsNorm(p, u, m) && IsNorm(p, u, m')
    ensures m == m'
  {
  }

  lemma ConvergedIff(p: Problem, start: Field, evss: seq<seq<Event>>, k: nat, norms: Index -> real, normRes: real)
    requires p.Consistent() && p.n > 0 && EpochsRunnable(p, InitSystem(p, start), evss) && k <= |evss|
    requires Reported(p, After(p, start, evss, k), norms, normRes)
    ensures Converged(p, start, evss, k) <==> normRes < DEFAULT_TOL
  {
    var t := After(p, start, evss, k);
    ReducedIsNorm(p, t, norms, normRes);
    forall m | IsNorm(p, Gather(p, t), m) ensures m == normRes { NormUnique(p, Gather(p, t), m, normRes); }
  }

  /** The nodes that handle the broadcast of an epoch, in any order. */
  ghost predicate ReachesAll(order: seq<nat>, numNodes: nat) {
    (forall i | 0 <= i < |order| :: order[i] < numNodes) && forall n: nat | n < numNodes :: n in order
  }

  /** All nodes are told that the work is done, in the order in which the broadcast reaches them. */
  method Broadcast(finished: array<bool>, order: seq<nat>)
    requires ReachesAll(order, finished.Length)
    modifies finished
    ensures forall n | 0 <= n < finished.Length :: finished[n]
  {
    for i := 0 to |order|
      invariant forall j | 0 <= j < i :: finished[order[j]]
    {
      finished[order[i]] := true;
    }
    forall n: nat | n < finished.Length ensures finished[n] {
      assert n in order;
    }
  }

  /** The nodes that have not been told to stop take part in another epoch. */
  method TakePart(finished: array<bool>, taken: array<nat>)
    requires finished.Length == taken.Length
    modifies taken
    ensures forall n | 0 <= n < taken.Length :: taken[n] == old(taken[n]) + if finished[n] then 0 else 1
  {
    for n := 0 to taken.Length
      invariant forall i | 0 <= i < n :: taken[i] == old(taken[i]) + if finished[i] then 0 else 1
      invariant forall i | n <= i < taken.Length :: taken[i] == old(taken[i])
    {
      if !finished[n] { taken[n] := taken[n] + 1; }
    }
  }

  /**
    The loop that every node runs, over any schedules of the epochs.  All nodes leave after the same
    epoch: the first one after which the norm of the collection is below the tolerance, or the one
    after the maximum.  If the schedules are on time, the collection then holds as many Jacobi
    sweeps of the initial guess.
   */
  method Drive(numNodes: nat, maxIter: nat, normRes: nat -> real, order: nat -> seq<nat>,
               ghost p: Problem, ghost start: Field, ghost evss: seq<seq<Event>>, ghost norms: nat -> Index -> real)
    returns (left: seq<nat>)
    requires numNodes > 0 && (forall k :: ReachesAll(order(k), numNodes))
    requires p.Consistent() && p.n > 0 && |evss| == maxIter + 1 && EpochsRunnable(p, InitSystem(p, start), evss)
    requires forall k | 1 <= k <= maxIter + 1 :: Reported(p, After(p, start, evss, k), norms(k), normRes(k))
    ensures |left| == numNodes && forall n | 0 <= n < numNodes :: left[n] == left[0]
    ensures 1 <= left[0] <= maxIter + 1 && (left[0] == maxIter + 1 || Converged(p, start, evss, left[0]))
    ensures forall k | 1 <= k < left[0] :: !Converged(p, start, evss, k)
    ensures (forall evs | evs in evss :: AllOnTime(p, evs)) ==>
              SameField(Gather(p, After(p, start, evss, left[0])), p.JacobiPow(Clipped(p, start), left[0]))
  {
    left := DriveNodes(numNodes, maxIter, normRes, order);
    StopsRight(maxIter, normRes, p, start, evss, norms, left[0]);
    DriveComputes(p, start, evss, left[0]);
  }

  lemma StopsRight(maxIter: nat, normRes: nat -> real, p: Problem, start: Field, evss: seq<seq<Event>>,
                   norms: nat -> Index -> real, k: nat)
    requires p.Consistent() && p.n > 0 && |evss| == maxIter + 1 && EpochsRunnable(p, InitSystem(p, start), evss)
    requires forall j | 1 <= j <= maxIter + 1 :: Reported(p, After(p, start, evss, j), norms(j), normRes(j))
    requires 1 <= k <= maxIter + 1 && Complete(maxIter, k, normRes(k))
    requires forall j | 1 <= j < k :: !Complete(maxIter, j, normRes(j))
    ensures k == maxIter + 1 || Converged(p, start, evss, k)
    ensures forall j | 1 <= j < k :: !Converged(p, start, evss, j)
  {
    ConvergedIff(p, start, evss, k, norms(k), normRes(k));
    forall j | 1 <= j < k ensures !Converged(p, start, evss, j) {
      ConvergedIff(p, start, evss, j, norms(j), normRes(j));
      assert !Complete(maxIter, j, normRes(j));
    }
  }

  /** The nodes' side of the loop: how many epochs each of them takes part in. */
  method DriveNodes(numNodes: nat, maxIter: nat, normRes: nat -> real, order: nat -> seq<nat>) returns (left: seq<nat>)
    requires numNodes > 0 && (forall k :: ReachesAll(order(k), numNodes))
    ensures |left| == numNodes && forall n | 0 <= n < numNodes :: left[n] == left[0]
    ensures 1 <= left[0] <= maxIter + 1 && Complete(maxIter, left[0], normRes(left[0]))
    ensures forall k | 1 <= k < left[0] :: !Complete(maxIter, k, normRes(k))
  {
    var finished, taken := new bool[numNodes](_ => false), new nat[numNodes](_ => 0);
    var iter := 0;
    while exists n | 0 <= n < numNodes :: !finished[n]
      invariant forall n | 0 <= n < numNodes :: finished[n] == finished[0] && taken[n] == iter
      invariant !finished[0] ==> iter <= maxIter
      invariant finished[0] ==> 1 <= iter <= maxIter + 1 && Complete(maxIter, iter, normRes(iter))
      invariant forall k | 1 <= k < iter || (k == iter >= 1 && !finished[0]) :: !Complete(maxIter, k, normRes(k))
      decreases maxIter + 1 - iter, if finished[0] then 0 else 1
    {
      TakePart(finished, taken);
      iter := iter + 1;
      if Complete(maxIter, iter, normRes(iter)) { Broadcast(finished, order(iter)); }
    }
    left := taken[..];
  }

  lemma DriveComputes(p: Problem, start: Field, evss: seq<seq<Event>>, k: nat)
    requires p.Consistent() && p.n > 0 && EpochsRunnable(p, InitSystem(p, start), evss) && k <= |evss|
    ensures (forall evs | evs in evss :: AllOnTime(p, evs)) ==>
              SameField(Gather(p, After(p, start, evss, k)), p.JacobiPow(Clipped(p, start), k))
  {
    if forall evs | evs in evss :: AllOnTime(p, evs) {
      PrefixRunnable(p, InitSystem(p, start), evss, k);
      SolverComputes(p, start, evss[..k]);
    }
  }
}
