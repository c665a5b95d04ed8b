/**
  The refinement needs its condition: a schedule computes Jacobi steps for all starting
  values if and only if every element handles doIter before its last face.
 */
module JacobiRace {
  import opened Arithmetic
  import opened JacobiGrid
  import opened JacobiProtocol
  import opened JacobiCounting
  import opened JacobiRefinement
  import opened JacobiEpochs

  // ---------------------------------------------------------------- control does not depend on the values

  ghost predicate SameControl(p: Problem, s: System, t: System) {
    && s.started == t.started && s.late == t.late
    && (forall x, y :: Flying(s.inflight, x, y) <==> Flying(t.inflight, x, y))
    && forall e | p.InRange(e) :: SameCounters(s.elems(e), t.elems(e))
  }

  ghost predicate SameCounters(x: Elem, y: Elem) {
    x.msgReceived == y.msgReceived && x.totalReceive == y.totalReceive && x.iter == y.iter
  }

  lemma FlyingAfterStart(p: Problem, s: System, e: Index, x: Index, y: Index)
    requires p.Consistent() && Enabled(p, s, DoIter(e)) && !Alone(p.num)
    ensures Flying(Step(p, s, DoIter(e)).inflight, x, y) <==> Flying(s.inflight, x, y) || (x == e && y in Nbrs(p, e))
  {
    var t, ms := Step(p, s, DoIter(e)), Faces(p, e, s.elems(e).told);
    FacesReachNbrs(p, e, s.elems(e).told);
    assert t.inflight == s.inflight + ms;
    if x == e && y in Nbrs(p, e) {
      var m :| m in ms && m.to == y;
      assert m in t.inflight && m.from == x;
    }
    if Flying(s.inflight, x, y) {
      var m :| m in s.inflight && m.from == x && m.to == y;
      assert m in t.inflight;
    }
  }

  lemma StartSameControl(p: Problem, s: System, t: System, e: Index)
    requires p.Consistent() && SameControl(p, s, t) && Enabled(p, s, DoIter(e))
    ensures SameControl(p, Step(p, s, DoIter(e)), Step(p, t, DoIter(e)))
  {
    var s', t' := Step(p, s, DoIter(e)), Step(p, t, DoIter(e));
    StartFrame(p, s, e);
    StartFrame(p, t, e);
    forall x, y ensures Flying(s'.inflight, x, y) <==> Flying(t'.inflight, x, y) {
      if !Alone(p.num) {
        FlyingAfterStart(p, s, e, x, y);
        FlyingAfterStart(p, t, e, x, y);
      }
    }
  }

  lemma DeliverSameControl(p: Problem, s: System, t: System, x: Index, y: Index)
    requires p.WellFormed() && Distinct(s.inflight) && Distinct(t.inflight)
    requires SameControl(p, s, t) && Enabled(p, s, Deliver(x, y))
    requires SameCounters(Step(p, s, Deliver(x, y)).elems(y), Step(p, t, Deliver(x, y)).elems(y))
    ensures SameControl(p, Step(p, s, Deliver(x, y)), Step(p, t, Deliver(x, y)))
  {
    var s', t' := Step(p, s, Deliver(x, y)), Step(p, t, Deliver(x, y));
    DeliverFrame(p, s, x, y);
    DeliverFrame(p, t, x, y);
    assert SameCounters(s.elems(y), t.elems(y));
    forall v, w ensures Flying(s'.inflight, v, w) <==> Flying(t'.inflight, v, w) {
      assert Flying(s.inflight, v, w) <==> Flying(t.inflight, v, w);
    }
    forall e | p.InRange(e) ensures SameCounters(s'.elems(e), t'.elems(e)) {
      assert SameCounters(s.elems(e), t.elems(e));
    }
  }

  lemma ReceiverSameCounters(p: Problem, s: System, t: System, k: nat, x: Index, y: Index)
    requires Counted(p, s, k) && Counted(p, t, k) && Enabled(p, s, Deliver(x, y)) && Enabled(p, t, Deliver(x, y))
    requires SameCounters(s.elems(y), t.elems(y))
    ensures SameCounters(Step(p, s, Deliver(x, y)).elems(y), Step(p, t, Deliver(x, y)).elems(y))
  {
    var f := Delivered(p, s, x, y);
    var g := Delivered(p, t, x, y);
    assert MsgOk(p, s, s.inflight[Find(s.inflight, x, y)]);
    ExchangeCount(p, y, s.elems(y), x, f);
    ExchangeCount(p, y, t.elems(y), x, g);
  }

  lemma Delivered(p: Problem, s: System, x: Index, y: Index) returns (f: Field)
    requires p.WellFormed() && Enabled(p, s, Deliver(x, y))
    ensures Step(p, s, Deliver(x, y)).elems(y) == Exchange(p, y, s.elems(y), x, f)
  {
    f := s.inflight[Find(s.inflight, x, y)].val;
  }

  lemma StepSameControl(p: Problem, s: System, t: System, k: nat, ev: Event)
    requires Counted(p, s, k) && Counted(p, t, k) && SameControl(p, s, t) && Enabled(p, s, ev)
    ensures Enabled(p, t, ev) && SameControl(p, Step(p, s, ev), Step(p, t, ev))
  {
    match ev
    case DoIter(e) => StartSameControl(p, s, t, e);
    case Deliver(x, y) =>
      ReceiverSameCounters(p, s, t, k, x, y);
      DeliverSameControl(p, s, t, x, y);
  }

  /** A schedule possible for some values is possible for all, and the same elements are late. */
  lemma {:induction false} RunSameControl(p: Problem, s: System, t: System, k: nat, evs: seq<Event>)
    requires Counted(p, s, k) && Counted(p, t, k) && SameControl(p, s, t) && Runnable(p, s, evs)
    ensures Runnable(p, t, evs) && SameControl(p, Run(p, s, evs), Run(p, t, evs))
    decreases |evs|
  {
    if evs != [] {
      StepSameControl(p, s, t, k, evs[0]);
      StepKeepsCount(p, s, k, evs[0]);
      StepKeepsCount(p, t, k, evs[0]);
      RunSameControl(p, Step(p, s, evs[0]), Step(p, t, evs[0]), k, evs[1..]);
    }
  }

  /** The same epoch with other values. */
  ghost function WithValues(p: Problem, s: System, u: Field): System {
    s.(elems := (e: Index) => s.elems(e).(told := (c: Index) => if |c| == |e| then u(p.Global(e, c)) else 0.0))
  }

  lemma WithValuesBetween(p: Problem, s: System, k: nat, u: Field)
    requires Between(p, s, k) && ZeroOutside(p, u)
    ensures Between(p, WithValues(p, s, u), k) && SameControl(p, s, WithValues(p, s, u))
    ensures SameField(Gather(p, WithValues(p, s, u)), u)
  {
    var t := WithValues(p, s, u);
    forall e | p.InRange(e) ensures HoldsBoundary(p, e, t.elems(e).told) {
      forall a, up, c | 0 <= a < |e| && p.InBox(c) && c[a] == Ghost(p, up) && !p.InRange(Shift(e, a, up))
        ensures t.elems(e).told(c) == 0.0
      {
        BeyondTheEnd(p, e, c, a, up);
      }
    }
    forall g ensures Gather(p, t)(g) == u(g) {
      if p.Interior(g) { InteriorIsOwned(p, g); }
    }
  }

  lemma BeyondTheEnd(p: Problem, e: Index, c: Index, a: nat, up: bool)
    requires p.InRange(e) && a < |e| && p.InBox(c) && c[a] == Ghost(p, up) && !p.InRange(Shift(e, a, up))
    ensures !p.Interior(p.Global(e, c))
  {
    ShiftInRange(p, e, a, up);
    var g := p.Global(e, c)[a];
    assert g == p.n * e[a] + c[a];
    if up {
      assert p.n * p.dims[a] == p.n * (e[a] + 1) == p.n * e[a] + p.n;
    } else {
      assert e[a] == 0 && p.n * e[a] == 0;
    }
  }

  // ---------------------------------------------------------------- a value that travels twice

  /** A move to a neighbour changes the parity of a cell. */
  lemma {:induction false} SumShift(c: Index, a: nat, up: bool)
    requires a < |c|
    ensures Sum(Shift(c, a, up)) == Sum(c) + if up then 1 else -1
  {
    var m := |c| - 1;
    if a < m {
      SumShift(c[..m], a, up);
      assert Shift(c, a, up)[..m] == Shift(c[..m], a, up);
    } else {
      assert Shift(c, a, up)[..m] == c[..m];
    }
  }

  /** One at a single cell, zero elsewhere. */
  function Spike(x: Index): Field {
    (g: Index) => if g == x then 1.0 else 0.0
  }

  lemma {:induction false} NbrSumZero(u: Field, c: Index, k: nat)
    requires k <= |c| && forall a, up | 0 <= a < |c| :: u(Shift(c, a, up)) == 0.0
    ensures NbrSum(u, c, k) == 0.0
  {
    if k > 0 { NbrSumZero(u, c, k - 1); }
  }

  lemma {:induction false} NbrSumSpike(c: Index, b: nat, v: bool, k: nat)
    requires k <= |c| && b < |c|
    ensures NbrSum(Spike(Shift(c, b, v)), c, k) == if b < k then 1.0 else 0.0
  {
    if k > 0 {
      NbrSumSpike(c, b, v, k - 1);
      assert Shift(c, k - 1, true)[k - 1] != Shift(c, k - 1, false)[k - 1];
      if b != k - 1 {
        ShiftsDiffer(c, b, v, k - 1, true);
        ShiftsDiffer(c, b, v, k - 1, false);
      }
    }
  }

  /** A Jacobi step moves a spike to the other parity: it vanishes where it was and two cells away. */
  lemma SpikeMoves(p: Problem, x: Index, h: Index)
    requires |p.dims| > 0 && (forall g :: p.rhs(g) == 0.0) && |x| == |h| && -2 <= Sum(x) - Sum(h) <= 2 &&
             Sum(x) != Sum(h) + 1 && Sum(x) != Sum(h) - 1
    ensures p.Jacobi(Spike(x))(h) == 0.0
  {
    forall a, up | 0 <= a < |h| ensures Spike(x)(Shift(h, a, up)) == 0.0 {
      SumShift(h, a, up);
    }
    NbrSumZero(Spike(x), h, |h|);
  }

  /** An element sees nothing of a spike in a late element: neither there nor two cells away. */
  lemma SpikeUnseen(p: Problem, late: set<Index>, f: Index, x: Index, h: Index)
    requires p.WellFormed() && p.n > 0 && (forall g :: p.rhs(g) == 0.0) && |x| == |h|
    requires -2 <= Sum(x) - Sum(h) <= 2 && Sum(x) != Sum(h) + 1 && Sum(x) != Sum(h) - 1
    requires p.Owner(x) in late && p.Owner(x) != f
    ensures Seen(p, Spike(x), late, f)(h) == 0.0
  {
    SpikeMoves(p, x, h);
    SeenOrShown(p, Spike(x), late, f, h);
    if h == x { SeenOrShown(p, Spike(x), late, f, x); }
  }

  lemma SeenOrShown(p: Problem, u: Field, late: set<Index>, f: Index, h: Index)
    requires p.WellFormed() && p.n > 0
    ensures Seen(p, u, late, f)(h) == if p.Owner(h) != f && p.Owner(h) in late then p.Jacobi(u)(h) else u(h)
  {
    var o := p.Owner(h);
    assert Seen(p, u, late, f)(h) == if o != f then Shown(p, u, late, o, h) else u(h);
    assert o in late ==> Shown(p, u, late, o, h) == p.Jacobi(u)(h);
    assert o !in late ==> Shown(p, u, late, o, h) == u(h);
  }

  /** Cell q of an element next to a spike in a late element: the spike does not arrive. */
  lemma SpikeLost(p: Problem, late: set<Index>, q: Index, b: nat, v: bool)
    requires p.WellFormed() && p.n > 0 && (forall g :: p.rhs(g) == 0.0) && b < |q| && p.Interior(q)
    requires p.Owner(Shift(q, b, v)) in late && p.Owner(Shift(q, b, v)) != p.Owner(q)
    ensures MixedSweep(p, Spike(Shift(q, b, v)), late)(q) == 0.0
  {
    var seen := Seen(p, Spike(Shift(q, b, v)), late, p.Owner(q));
    forall a, up | 0 <= a < |q| ensures seen(Shift(q, a, up)) == 0.0 {
      SumShift(q, a, up);
      SumShift(q, b, v);
      SpikeUnseen(p, late, p.Owner(q), Shift(q, b, v), Shift(q, a, up));
    }
    NbrSumZero(seen, q, |q|);
  }

  /** In a Jacobi step it does. */
  lemma SpikeArrives(p: Problem, q: Index, b: nat, v: bool)
    requires p.WellFormed() && (forall g :: p.rhs(g) == 0.0) && b < |q| && p.Interior(q)
    ensures p.Jacobi(Spike(Shift(q, b, v)))(q) != 0.0
  {
    NbrSumSpike(q, b, v, |q|);
  }

  /** A cell next to a late element, on the far side of the face they share. */
  lemma CellNextToLate(p: Problem, e: Index, f: Index) returns (q: Index, b: nat, v: bool)
    requires p.WellFormed() && p.n > 0 && p.InRange(e) && f in Nbrs(p, e)
    ensures b < |q| == |p.dims| && p.Interior(q) && p.Owner(q) == f != e
    ensures p.Owner(Shift(q, b, v)) == e && p.Interior(Shift(q, b, v))
  {
    var a, up := NbrSide(p, e, f);
    NbrsSymmetric(p, e, f);
    var d := seq(|e|, i requires 0 <= i < |e| => if i == a then (if up then 1 else p.n) else 1);
    q, b, v := p.Global(f, d), a, !up;
    assert p.Inner(d);
    OwnerOfGlobal(p, f, d);
    InnerIsInterior(p, f, d);
    var c := Shift(d, a, !up);
    GlobalShift(p, f, d, a, !up);
    assert FaceCell(p, c, a, !up);
    OwnerOfFace(p, f, c, a, !up);
    GlobalAcross(p, f, c, a, !up);
    InnerIsInterior(p, e, c[a := if !up then 1 else p.n]);
  }

  // ---------------------------------------------------------------- the exact condition

  /** Whatever the values at the start of the epoch, this schedule performs one Jacobi step on them. */
  ghost predicate AlwaysJacobi(p: Problem, s: System, evs: seq<Event>)
    requires p.WellFormed()
  {
    forall u | ZeroOutside(p, u) ::
      && Runnable(p, WithValues(p, s, u), evs)
      && SameField(Gather(p, Run(p, WithValues(p, s, u), evs)), p.Jacobi(u))
  }

  lemma OtherValues(p: Problem, s: System, k: nat, evs: seq<Event>, u: Field)
    requires Between(p, s, k) && Runnable(p, s, evs) && Quiescent(p, Run(p, s, evs)) && ZeroOutside(p, u)
    ensures var t := WithValues(p, s, u);
            Between(p, t, k) && Runnable(p, t, evs) && Quiescent(p, Run(p, t, evs)) &&
              Run(p, t, evs).late == Run(p, s, evs).late
  {
    var t := WithValues(p, s, u);
    WithValuesBetween(p, s, k, u);
    EpochStartCounted(p, s, k);
    EpochStartCounted(p, t, k);
    RunSameControl(p, s, t, k, evs);
    var ms := Run(p, t, evs).inflight;
    assert ms == [] by {
      if ms != [] { assert Flying(ms, ms[0].from, ms[0].to); }
    }
  }

  lemma MixedCong(p: Problem, u: Field, v: Field, late: set<Index>, g: Index)
    requires p.WellFormed() && p.n > 0 && SameField(u, v)
    ensures MixedSweep(p, u, late)(g) == MixedSweep(p, v, late)(g)
  {
    JacobiCong(p, u, v);
    var x, y := Seen(p, u, late, p.Owner(g)), Seen(p, v, late, p.Owner(g));
    forall h ensures x(h) == y(h) {
      assert u(h) == v(h) && p.Jacobi(u)(h) == p.Jacobi(v)(h);
    }
    NbrSumCong(x, g, y, g, |g|);
  }

  lemma LateHasNbr(p: Problem, s: System, k: nat, evs: seq<Event>, e: Index) returns (f: Index)
    requires Between(p, s, k) && Runnable(p, s, evs) && e in Run(p, s, evs).late
    ensures p.InRange(e) && f in Nbrs(p, e)
  {
    EpochStartRefined(p, s, k);
    RunKeepsRefined(p, s, Gather(p, s), k, evs);
    assert LateOk(p, Run(p, s, evs), k, e);
    f :| f in Nbrs(p, e);
  }

  /** A late element spoils some starting values. */
  lemma LateBreaks(p: Problem, s: System, k: nat, evs: seq<Event>, e: Index)
    requires Between(p, s, k) && Runnable(p, s, evs) && Quiescent(p, Run(p, s, evs))
    requires (forall g :: p.rhs(g) == 0.0) && e in Run(p, s, evs).late
    ensures !AlwaysJacobi(p, s, evs)
  {
    var f := LateHasNbr(p, s, k, evs, e);
    var q, b, v := CellNextToLate(p, e, f);
    var u := Spike(Shift(q, b, v));
    var t := WithValues(p, s, u);
    OtherValues(p, s, k, evs, u);
    var r := Run(p, t, evs);
    assert Gather(p, r)(q) == 0.0 by {
      WithValuesBetween(p, s, k, u);
      EpochComputes(p, t, k, evs);
      MixedCong(p, Gather(p, t), u, r.late, q);
      SpikeLost(p, r.late, q, b, v);
    }
    SpikeArrives(p, q, b, v);
  }

  /**
    The exact condition: with the zero right-hand side of the solvers, a schedule performs a Jacobi
    step on all starting values if and only if every element handles doIter before its last face.
   */
  lemma JacobiIffOnTime(p: Problem, s: System, k: nat, evs: seq<Event>)
    requires Between(p, s, k) && Runnable(p, s, evs) && Quiescent(p, Run(p, s, evs))
    requires forall g :: p.rhs(g) == 0.0
    ensures AlwaysJacobi(p, s, evs) <==> AllOnTime(p, evs)
  {
    if AllOnTime(p, evs) {
      forall u | ZeroOutside(p, u)
        ensures Runnable(p, WithValues(p, s, u), evs)
        ensures SameField(Gather(p, Run(p, WithValues(p, s, u), evs)), p.Jacobi(u))
      {
        var t := WithValues(p, s, u);
        OtherValues(p, s, k, evs, u);
        WithValuesBetween(p, s, k, u);
        OnTimeEpochIsJacobi(p, t, k, evs);
        JacobiCong(p, Gather(p, t), u);
      }
    } else {
      var e :| p.InRange(e) && Nbrs(p, e) != {} && !OnTime(evs, e);
      LateIffNotOnTime(p, s, k, evs, e);
      LateBreaks(p, s, k, evs, e);
    }
  }
}
