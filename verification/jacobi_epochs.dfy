/**
  Whole runs of the solvers: what one epoch computes under every schedule, when that is
  exactly a Jacobi step, and what any number of epochs compute.
 */
module JacobiEpochs {
  import opened JacobiGrid
  import opened JacobiProtocol
  import opened JacobiCounting
  import opened JacobiRefinement

  /** The state between two epochs: counters ready, boundary layers zero. */
  ghost predicate Between(p: Problem, s: System, k: nat) {
    && p.Consistent() && p.n > 0 && EpochStart(p, s, k)
    && forall e | p.InRange(e) :: HoldsBoundary(p, e, s.elems(e).told)
  }

  ghost function NextEpoch(s: System): System {
    s.(started := {}, late := {})
  }

  ghost predicate SameField(u: Field, v: Field) {
    forall g :: u(g) == v(g)
  }

  /** Each element holds its part of the global array. */
  lemma GatherAt(p: Problem, s: System, e: Index, c: Index)
    requires p.n > 0 && p.InRange(e) && p.Inner(c)
    ensures Gather(p, s)(p.Global(e, c)) == s.elems(e).told(c)
  {
    InnerIsInterior(p, e, c);
    OwnerOfGlobal(p, e, c);
  }

  lemma EpochStartRefined(p: Problem, s: System, k: nat)
    requires Between(p, s, k)
    ensures Refined(p, s, Gather(p, s), k)
  {
    EpochStartCounted(p, s, k);
    forall e | p.InRange(e)
      ensures ElemOk(p, s, Gather(p, s), k, e) && LateOk(p, s, k, e)
    {
      forall c | p.Inner(c) ensures s.elems(e).told(c) == Gather(p, s)(p.Global(e, c)) {
        GatherAt(p, s, e, c);
      }
      assert Got(p, s, e) == {};
    }
  }

  lemma StepKeepsRefined(p: Problem, s: System, u: Field, k: nat, ev: Event)
    requires Refined(p, s, u, k) && Enabled(p, s, ev)
    ensures Refined(p, Step(p, s, ev), u, k)
  {
    StepKeepsCount(p, s, k, ev);
    match ev
    case DoIter(e) => StartKeepsValues(p, s, u, k, e);
    case Deliver(x, y) => DeliverKeepsValues(p, s, u, k, x, y);
  }

  lemma {:induction false} RunKeepsRefined(p: Problem, s: System, u: Field, k: nat, evs: seq<Event>)
    requires Refined(p, s, u, k) && Runnable(p, s, evs)
    ensures Refined(p, Run(p, s, evs), u, k)
    decreases |evs|
  {
    if evs != [] {
      StepKeepsRefined(p, s, u, k, evs[0]);
      RunKeepsRefined(p, Step(p, s, evs[0]), u, k, evs[1..]);
    }
  }

  /** No two neighbours. */
  ghost predicate Independent(p: Problem, es: set<Index>) {
    forall e, f | e in es && f in es :: f !in Nbrs(p, e)
  }

  /**
    One epoch, any schedule: the elements together compute one sweep of the global array,
    in which the late elements show their new values.  No two neighbours are late.
   */
  lemma EpochComputes(p: Problem, s: System, k: nat, evs: seq<Event>)
    requires Between(p, s, k) && Runnable(p, s, evs) && Quiescent(p, Run(p, s, evs))
    ensures var t := Run(p, s, evs);
            && SameField(Gather(p, t), MixedSweep(p, Gather(p, s), t.late))
            && Independent(p, t.late)
            && Between(p, NextEpoch(t), k + 1)
  {
    var t, u := Run(p, s, evs), Gather(p, s);
    EpochStartRefined(p, s, k);
    RunKeepsRefined(p, s, u, k, evs);
    EachSweepsOnce(p, s, k, evs);
    forall g ensures Gather(p, t)(g) == MixedSweep(p, u, t.late)(g) {
      if p.Interior(g) {
        InteriorIsOwned(p, g);
        assert NextEpoch(t).elems(p.Owner(g)).iter == k + 1;
        FinalValue(p, t, u, k, p.Owner(g), p.Local(g));
      }
    }
    forall e, f | e in t.late && f in t.late ensures f !in Nbrs(p, e) {
      assert LateOk(p, t, k, e);
    }
    forall e | p.InRange(e) ensures HoldsBoundary(p, e, t.elems(e).told) {
      assert ElemOk(p, t, u, k, e);
    }
  }

  lemma FinalValue(p: Problem, t: System, u: Field, k: nat, e: Index, c: Index)
    requires p.WellFormed() && Valued(p, t, u, k) && p.InRange(e) && p.Inner(c) && t.elems(e).iter == k + 1
    ensures t.elems(e).told(c) == MixedSweep(p, u, t.late)(p.Global(e, c))
  {
    assert ElemOk(p, t, u, k, e);
    assert HoldsNew(p, u, t.late, e, t.elems(e).told);
  }

  /** In every reachable state the ghost layers at the ends of the range are exactly zero. */
  lemma BoundaryStaysZero(p: Problem, s: System, k: nat, evs: seq<Event>, e: Index)
    requires Between(p, s, k) && Runnable(p, s, evs) && p.InRange(e)
    ensures HoldsBoundary(p, e, Run(p, s, evs).elems(e).told)
  {
    EpochStartRefined(p, s, k);
    RunKeepsRefined(p, s, Gather(p, s), k, evs);
    assert ElemOk(p, Run(p, s, evs), Gather(p, s), k, e);
  }

  // ---------------------------------------------------------------- which elements are late

  /** The element handles its doIter before its last face. */
  ghost predicate OnTime(evs: seq<Event>, e: Index) {
    exists i, j | 0 <= i < j < |evs| :: evs[i] == DoIter(e) && evs[j].Deliver? && evs[j].to == e
  }

  ghost predicate HasDelivery(evs: seq<Event>, e: Index) {
    exists j | 0 <= j < |evs| :: evs[j].Deliver? && evs[j].to == e
  }

  /** Once an element has started, it is settled whether it is late. */
  lemma {:induction false} LateSettled(p: Problem, s: System, evs: seq<Event>, e: Index)
    requires p.WellFormed() && Runnable(p, s, evs) && e in s.started
    ensures e in Run(p, s, evs).late <==> e in s.late
    decreases |evs|
  {
    if evs != [] {
      LateSettled(p, Step(p, s, evs[0]), evs[1..], e);
    }
  }

  /** An element that a face is still to reach has not swept yet. */
  lemma {:induction false} AwaitsFace(p: Problem, s: System, k: nat, evs: seq<Event>, e: Index)
    requires Counted(p, s, k) && Runnable(p, s, evs) && p.InRange(e)
    ensures HasDelivery(evs, e) ==> s.elems(e).iter == k && Nbrs(p, e) != {}
    ensures !HasDelivery(evs, e) && !Alone(p.num) ==> Run(p, s, evs).elems(e) == s.elems(e)
    decreases |evs|
  {
    if evs != [] {
      var t := Step(p, s, evs[0]);
      StepKeepsCount(p, s, k, evs[0]);
      AwaitsFace(p, t, k, evs[1..], e);
      SplitDelivery(evs, e);
      match evs[0]
      case DoIter(f) => StartLeaves(p, s, f, e);
      case Deliver(x, y) =>
        if y == e { WasWaiting(p, s, k, x, y); } else { DeliverLeaves(p, s, x, y, e); }
    }
  }

  /** A doIter leaves an element alone that has neighbours. */
  lemma StartLeaves(p: Problem, s: System, f: Index, e: Index)
    requires p.Consistent() && Enabled(p, s, DoIter(f)) && p.InRange(e)
    ensures Nbrs(p, e) != {} || !Alone(p.num) ==> Step(p, s, DoIter(f)).elems(e) == s.elems(e)
  {
    StartFrame(p, s, f);
    AloneHasNoNbrs(p, e);
  }

  lemma DeliverLeaves(p: Problem, s: System, x: Index, y: Index, e: Index)
    requires p.WellFormed() && Enabled(p, s, Deliver(x, y)) && y != e
    ensures Step(p, s, Deliver(x, y)).elems(e) == s.elems(e)
  {
  }

  lemma WasWaiting(p: Problem, s: System, k: nat, x: Index, y: Index)
    requires Counted(p, s, k) && Enabled(p, s, Deliver(x, y))
    ensures s.elems(y).iter == k && Nbrs(p, y) != {}
  {
    assert MsgOk(p, s, s.inflight[Find(s.inflight, x, y)]) && CountOk(p, s, k, y);
    StillWaiting(p, s, k, x, y);
  }

  lemma SplitDelivery(evs: seq<Event>, e: Index)
    requires evs != []
    ensures HasDelivery(evs, e) <==> (evs[0].Deliver? && evs[0].to == e) || HasDelivery(evs[1..], e)
  {
    if HasDelivery(evs[1..], e) {
      var j :| 0 <= j < |evs| - 1 && evs[1..][j].Deliver? && evs[1..][j].to == e;
      assert evs[j + 1].Deliver? && evs[j + 1].to == e;
    }
    if HasDelivery(evs, e) {
      var j :| 0 <= j < |evs| && evs[j].Deliver? && evs[j].to == e;
      if j > 0 { assert evs[1..][j - 1] == evs[j]; }
    }
  }

  lemma {:induction false} RunSplit(p: Problem, s: System, evs: seq<Event>, i: nat)
    requires p.WellFormed() && Runnable(p, s, evs) && i <= |evs|
    ensures Runnable(p, s, evs[..i]) && Runnable(p, Run(p, s, evs[..i]), evs[i..])
    ensures Run(p, s, evs) == Run(p, Run(p, s, evs[..i]), evs[i..])
    decreases |evs|
  {
    if i == 0 {
      assert evs[..0] == [] && evs[0..] == evs;
    } else {
      RunSplit(p, Step(p, s, evs[0]), evs[1..], i - 1);
      assert evs[..i][0] == evs[0] && evs[..i][1..] == evs[1..][..i - 1];
      assert evs[1..][i - 1..] == evs[i..];
    }
  }

  /** An element that has started handled its doIter at some point of the schedule, once. */
  lemma {:induction false} StartedAt(p: Problem, s: System, evs: seq<Event>, e: Index) returns (i: nat)
    requires p.WellFormed() && Runnable(p, s, evs) && e !in s.started && e in Run(p, s, evs).started
    ensures i < |evs| && evs[i] == DoIter(e)
    decreases |evs|
  {
    if evs[0] == DoIter(e) {
      i := 0;
    } else {
      assert e !in Step(p, s, evs[0]).started;
      i := StartedAt(p, Step(p, s, evs[0]), evs[1..], e);
      i := i + 1;
    }
  }

  /** The elements that handled doIter after their last face are exactly the late ones. */
  lemma LateIffNotOnTime(p: Problem, s: System, k: nat, evs: seq<Event>, e: Index)
    requires Between(p, s, k) && Runnable(p, s, evs) && Quiescent(p, Run(p, s, evs)) && p.InRange(e)
    ensures e in Run(p, s, evs).late <==> Nbrs(p, e) != {} && !OnTime(evs, e)
  {
    var i := StartedAt(p, s, evs, e);
    RunSplit(p, s, evs, i);
    var mid, post := Run(p, s, evs[..i]), evs[i + 1..];
    EpochStartRefined(p, s, k);
    RunKeepsRefined(p, s, Gather(p, s), k, evs[..i]);
    assert evs[i..][0] == DoIter(e) && evs[i..][1..] == post;
    var after := Step(p, mid, DoIter(e));
    StepKeepsCount(p, mid, k, DoIter(e));
    StartFrame(p, mid, e);
    LateSettled(p, after, post, e);
    AwaitsFace(p, after, k, post, e);
    EachSweepsOnce(p, s, k, evs);
    assert NextEpoch(Run(p, s, evs)).elems(e).iter == k + 1;
    assert LateOk(p, mid, k, e) && CountOk(p, mid, k, e);
    AloneHasNoNbrs(p, e);
    OnTimeAfter(p, s, evs, e, i);
  }

  /** The doIter at position i is the only one, so being on time is a matter of what follows it. */
  lemma OnTimeAfter(p: Problem, s: System, evs: seq<Event>, e: Index, i: nat)
    requires p.WellFormed() && Runnable(p, s, evs) && i < |evs| && evs[i] == DoIter(e)
    ensures OnTime(evs, e) <==> HasDelivery(evs[i + 1..], e)
  {
    var post := evs[i + 1..];
    if HasDelivery(post, e) {
      var j :| 0 <= j < |post| && post[j].Deliver? && post[j].to == e;
      assert evs[i + 1 + j] == post[j];
    }
    if OnTime(evs, e) {
      var i', j :| 0 <= i' < j < |evs| && evs[i'] == DoIter(e) && evs[j].Deliver? && evs[j].to == e;
      StartedOnce(p, s, evs, e, i, i');
      assert post[j - i - 1] == evs[j];
    }
  }

  lemma StartedOnce(p: Problem, s: System, evs: seq<Event>, e: Index, i: nat, j: nat)
    requires p.WellFormed() && Runnable(p, s, evs) && i < |evs| && j < |evs| && evs[i] == evs[j] == DoIter(e)
    ensures i == j
  {
    if i < j {
      StartedEarlier(p, s, evs, e, i, j);
    } else if j < i {
      StartedEarlier(p, s, evs, e, j, i);
    }
  }

  lemma {:induction false} StartedEarlier(p: Problem, s: System, evs: seq<Event>, e: Index, i: nat, j: nat)
    requires p.WellFormed() && Runnable(p, s, evs) && i < j < |evs| && evs[i] == DoIter(e)
    ensures evs[j] != DoIter(e)
    decreases |evs|
  {
    var t := Step(p, s, evs[0]);
    if i > 0 {
      StartedEarlier(p, t, evs[1..], e, i - 1, j - 1);
    } else {
      StartFrame(p, s, e);
      NeverAgain(p, t, evs[1..], e, j - 1);
    }
  }

  /** An element handles doIter only once in an epoch. */
  lemma {:induction false} NeverAgain(p: Problem, s: System, evs: seq<Event>, e: Index, j: nat)
    requires p.WellFormed() && Runnable(p, s, evs) && e in s.started && j < |evs|
    ensures evs[j] != DoIter(e)
    decreases |evs|
  {
    if j > 0 {
      assert e in Step(p, s, evs[0]).started;
      NeverAgain(p, Step(p, s, evs[0]), evs[1..], e, j - 1);
    }
  }

  /** Every element handles its doIter before its last face. */
  ghost predicate AllOnTime(p: Problem, evs: seq<Event>) {
    forall e | p.InRange(e) :: Nbrs(p, e) == {} || OnTime(evs, e)
  }

  /** One epoch of an on-time schedule is exactly one Jacobi step of the single global array. */
  lemma OnTimeEpochIsJacobi(p: Problem, s: System, k: nat, evs: seq<Event>)
    requires Between(p, s, k) && Runnable(p, s, evs) && Quiescent(p, Run(p, s, evs)) && AllOnTime(p, evs)
    ensures var t := Run(p, s, evs);
            SameField(Gather(p, NextEpoch(t)), p.Jacobi(Gather(p, s))) && Between(p, NextEpoch(t), k + 1)
  {
    var t, u := Run(p, s, evs), Gather(p, s);
    EpochComputes(p, s, k, evs);
    EpochStartRefined(p, s, k);
    RunKeepsRefined(p, s, u, k, evs);
    assert t.late == {} by {
      forall e | e in t.late ensures false {
        LateIffNotOnTime(p, s, k, evs, e);
      }
    }
    forall g ensures Gather(p, t)(g) == p.Jacobi(u)(g) {
      NoneLate(p, u, g);
    }
  }

  // ---------------------------------------------------------------- any number of epochs

  /** The schedules of consecutive epochs, each run to its end. */
  ghost predicate EpochsRunnable(p: Problem, s: System, evss: seq<seq<Event>>)
    requires p.WellFormed()
    decreases |evss|
  {
    evss == [] ||
    (&& Runnable(p, s, evss[0]) && Quiescent(p, Run(p, s, evss[0]))
     && EpochsRunnable(p, NextEpoch(Run(p, s, evss[0])), evss[1..]))
  }

  ghost function RunEpochs(p: Problem, s: System, evss: seq<seq<Event>>): System
    requires p.WellFormed() && EpochsRunnable(p, s, evss)
    decreases |evss|
  {
    if evss == [] then s else RunEpochs(p, NextEpoch(Run(p, s, evss[0])), evss[1..])
  }

  lemma SameTrans(u: Field, v: Field, w: Field)
    requires SameField(u, v) && SameField(v, w)
    ensures SameField(u, w)
  {
  }

  lemma JacobiCong(p: Problem, u: Field, v: Field)
    requires |p.dims| > 0 && SameField(u, v)
    ensures SameField(p.Jacobi(u), p.Jacobi(v))
  {
    forall g ensures p.Jacobi(u)(g) == p.Jacobi(v)(g) {
      NbrSumCong(u, g, v, g, |g|);
    }
  }

  lemma {:induction false} JacobiPowCong(p: Problem, u: Field, v: Field, k: nat)
    requires |p.dims| > 0 && SameField(u, v)
    ensures SameField(p.JacobiPow(u, k), p.JacobiPow(v, k))
  {
    if k > 0 {
      JacobiPowCong(p, u, v, k - 1);
      JacobiCong(p, p.JacobiPow(u, k - 1), p.JacobiPow(v, k - 1));
    }
  }

  lemma {:induction false} JacobiPowShift(p: Problem, u: Field, k: nat)
    requires |p.dims| > 0
    ensures SameField(p.JacobiPow(p.Jacobi(u), k), p.JacobiPow(u, k + 1))
  {
    if k > 0 {
      JacobiPowShift(p, u, k - 1);
      JacobiCong(p, p.JacobiPow(p.Jacobi(u), k - 1), p.JacobiPow(u, k));
    }
  }

  /**
    The refinement theorem: for every grid of objects, block size, right-hand side and
    starting values, any number of on-time epochs leave the elements with as many
    Jacobi sweeps of the single global array.
   */
  lemma {:induction false} EpochsAreJacobi(p: Problem, s: System, k: nat, evss: seq<seq<Event>>)
    requires Between(p, s, k) && EpochsRunnable(p, s, evss)
    requires forall evs | evs in evss :: AllOnTime(p, evs)
    ensures SameField(Gather(p, RunEpochs(p, s, evss)), p.JacobiPow(Gather(p, s), |evss|))
    ensures Between(p, RunEpochs(p, s, evss), k + |evss|)
    decreases |evss|
  {
    if evss != [] {
      var t := NextEpoch(Run(p, s, evss[0]));
      var u, m := Gather(p, s), |evss| - 1;
      OnTimeEpochIsJacobi(p, s, k, evss[0]);
      EpochsAreJacobi(p, t, k + 1, evss[1..]);
      JacobiPowCong(p, Gather(p, t), p.Jacobi(u), m);
      JacobiPowShift(p, u, m);
      SameTrans(p.JacobiPow(Gather(p, t), m), p.JacobiPow(p.Jacobi(u), m), p.JacobiPow(u, |evss|));
      SameTrans(Gather(p, RunEpochs(p, s, evss)), p.JacobiPow(Gather(p, t), m), p.JacobiPow(u, |evss|));
    }
  }
}
