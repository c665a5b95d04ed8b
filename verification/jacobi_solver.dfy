/**
  The solvers from their initialisation on: what they compute when the elements know the
  true extents of the collection, and that nothing else will do.
 */
module JacobiSolver {
  import opened Arithmetic
  import opened JacobiGrid
  import opened JacobiProtocol
  import opened JacobiCounting
  import opened JacobiRefinement
  import opened JacobiEpochs
  import opened JacobiRace
  import opened JacobiSchedules
  import opened JacobiExtent

  // ---------------------------------------------------------------- true extents

  /** The initial guess with the boundary condition around it. */
  ghost function Clipped(p: Problem, start: Field): Field {
    (g: Index) => if p.Interior(g) then start(g) else 0.0
  }

  lemma InitGathers(p: Problem, start: Field)
    requires p.Consistent() && p.n > 0
    ensures Between(p, InitSystem(p, start), 0) && SameField(Gather(p, InitSystem(p, start)), Clipped(p, start))
  {
    InitIsBetween(p, start);
  }

  /**
    From init to the result: any number of on-time epochs turn the initial guess into as many
    Jacobi sweeps of it on the single global array.
   */
  lemma SolverComputes(p: Problem, start: Field, evss: seq<seq<Event>>)
    requires p.Consistent() && p.n > 0 && EpochsRunnable(p, InitSystem(p, start), evss)
    requires forall evs | evs in evss :: AllOnTime(p, evs)
    ensures SameField(Gather(p, RunEpochs(p, InitSystem(p, start), evss)), p.JacobiPow(Clipped(p, start), |evss|))
  {
    var s := InitSystem(p, start);
    InitGathers(p, start);
    EpochsAreJacobi(p, s, 0, evss);
    JacobiPowCong(p, Gather(p, s), Clipped(p, start), |evss|);
    SameTrans(Gather(p, RunEpochs(p, s, evss)), p.JacobiPow(Gather(p, s), |evss|),
      p.JacobiPow(Clipped(p, start), |evss|));
  }

  // ---------------------------------------------------------------- elements that believe to be alone

  /** Every started element has swept its own block once, the others are as they were, and nothing was sent. */
  ghost predicate Solo(p: Problem, s: System, t: System)
    requires p.WellFormed()
  {
    && t.inflight == [] && (forall e | e in t.started :: p.InRange(e))
    && forall e | p.InRange(e) :: t.elems(e) == if e in t.started then DoIteration(p, e, s.elems(e)) else s.elems(e)
  }

  lemma SoloStep(p: Problem, s: System, t: System, ev: Event)
    requires p.WellFormed() && Alone(p.num) && Solo(p, s, t) && Enabled(p, t, ev)
    ensures Solo(p, s, Step(p, t, ev))
  {
    match ev
    case DoIter(e) => StartFrame(p, t, e);
    case Deliver(x, y) =>
  }

  lemma {:induction false} SoloRun(p: Problem, s: System, t: System, evs: seq<Event>)
    requires p.WellFormed() && Alone(p.num) && Solo(p, s, t) && Runnable(p, t, evs)
    ensures Solo(p, s, Run(p, t, evs))
    decreases |evs|
  {
    if evs != [] {
      SoloStep(p, s, t, evs[0]);
      SoloRun(p, s, Step(p, t, evs[0]), evs[1..]);
    }
  }

  lemma {:induction false} SoloStarts(p: Problem, all: set<Index>, s: System, t: System) returns (evs: seq<Event>)
    requires p.WellFormed() && Alone(p.num) && Solo(p, s, t) && forall e :: e in all <==> p.InRange(e)
    ensures Runnable(p, t, evs) && forall e | p.InRange(e) :: e in Run(p, t, evs).started
    decreases all - t.started
  {
    if e :| e in all && e !in t.started {
      SoloStep(p, s, t, DoIter(e));
      StartFrame(p, t, e);
      var rest := SoloStarts(p, all, s, Step(p, t, DoIter(e)));
      evs := [DoIter(e)] + rest;
      assert evs[1..] == rest;
    } else {
      evs := [];
    }
  }

  // ---------------------------------------------------------------- who sweeps

  ghost predicate AllSwept(p: Problem, t: System, k: nat) { forall e | p.InRange(e) :: t.elems(e).iter == k + 1 }

  lemma SoloStart(p: Problem, s: System, k: nat)
    requires p.WellFormed() && EpochStart(p, s, k)
    ensures Solo(p, s, s)
  {
  }

  /** With true extents, or with elements that believe to be alone, a finished epoch is one sweep of every element. */
  lemma FinishedSweeps(p: Problem, s: System, k: nat, evs: seq<Event>)
    requires p.WellFormed() && (p.num == p.dims || Alone(p.num)) && EpochStart(p, s, k)
    requires Runnable(p, s, evs) && Quiescent(p, Run(p, s, evs))
    ensures AllSwept(p, Run(p, s, evs), k)
  {
    var t := Run(p, s, evs);
    if p.num == p.dims {
      EachSweepsOnce(p, s, k, evs);
      assert forall e | p.InRange(e) :: t.(started := {}, late := {}).elems(e).iter == k + 1;
    } else {
      SoloStart(p, s, k);
      SoloRun(p, s, s, evs);
    }
  }

  lemma SweepingRun(p: Problem, s: System, k: nat) returns (evs: seq<Event>)
    requires p.WellFormed() && (p.num == p.dims || Alone(p.num)) && EpochStart(p, s, k)
    ensures Runnable(p, s, evs) && AllSwept(p, Run(p, s, evs), k)
  {
    AllElements(p);
    if p.num == p.dims {
      EpochStartCounted(p, s, k);
      evs := StartAll(p, Elements(p.dims), s, k);
    } else {
      SoloStart(p, s, k);
      evs := SoloStarts(p, Elements(p.dims), s, s);
      SoloRun(p, s, s, evs);
    }
    FinishedSweeps(p, s, k, evs);
  }

  /** The run is possible, and every element sweeps in it. */
  ghost predicate Sweeps(p: Problem, s: System, k: nat, evs: seq<Event>)
    requires p.WellFormed()
  {
    Runnable(p, s, evs) && AllSwept(p, Run(p, s, evs), k)
  }

  /**
    Some run of an epoch lets every element sweep if and only if the extents are true or the
    elements believe to be alone.
   */
  lemma AllSweepIff(p: Problem, s: System, k: nat)
    requires p.WellFormed() && EpochStart(p, s, k)
    ensures (exists evs :: Sweeps(p, s, k, evs)) <==> p.num == p.dims || Alone(p.num)
  {
    if p.num == p.dims || Alone(p.num) {
      var evs := SweepingRun(p, s, k);
      assert Sweeps(p, s, k, evs);
    } else {
      forall evs | Runnable(p, s, evs) ensures !Sweeps(p, s, k, evs) {
        WrongExtentsNeverSweep(p, s, k, evs);
        assert p.InRange(Stuck(p));
      }
    }
  }

  // ---------------------------------------------------------------- an element that does not sweep keeps its unknowns

  lemma StepKeepsUnknowns(p: Problem, s: System, ev: Event, e: Index, c: Index)
    requires p.WellFormed() && Enabled(p, s, ev) && p.InRange(e) && p.Inner(c)
    ensures var x, y := s.elems(e), Step(p, s, ev).elems(e);
              y.iter >= x.iter && (y.iter == x.iter ==> y.told(c) == x.told(c))
  {
    match ev
    case DoIter(f) => StartFrame(p, s, f);
    case Deliver(x, y) =>
      if y == e {
        var m := s.inflight[Find(s.inflight, x, y)];
        assert Step(p, s, ev).elems(e) == Exchange(p, y, s.elems(y), x, m.val);
        ExchangeKeepsUnknowns(p, y, s.elems(y), x, m.val, c);
      }
  }

  lemma ExchangeKeepsUnknowns(p: Problem, e: Index, z: Elem, from: Index, val: Field, c: Index)
    requires p.WellFormed() && |e| == |from| == |p.dims| && p.Inner(c)
    ensures var y := Exchange(p, e, z, from, val); y.iter >= z.iter && (y.iter == z.iter ==> y.told(c) == z.told(c))
  {
    var a := FirstDiff(e, from, 0);
    if a < |e| { assert 1 <= c[a] <= p.n; }
  }

  lemma {:induction false} RunKeepsUnknowns(p: Problem, s: System, evs: seq<Event>, e: Index, c: Index)
    requires p.WellFormed() && Runnable(p, s, evs) && p.InRange(e) && p.Inner(c)
    ensures var x, y := s.elems(e), Run(p, s, evs).elems(e);
              y.iter >= x.iter && (y.iter == x.iter ==> y.told(c) == x.told(c))
    decreases |evs|
  {
    if evs != [] {
      StepKeepsUnknowns(p, s, evs[0], e, c);
      RunKeepsUnknowns(p, Step(p, s, evs[0]), evs[1..], e, c);
    }
  }

  // ---------------------------------------------------------------- other extents compute something else

  /** Whatever the initial guess, this schedule performs one Jacobi step on it. */
  ghost predicate StepsFromInit(p: Problem, evs: seq<Event>)
    requires p.WellFormed()
  {
    forall start: Field ::
      && Runnable(p, InitSystem(p, start), evs)
      && SameField(Gather(p, Run(p, InitSystem(p, start), evs)), p.Jacobi(Clipped(p, start)))
  }

  lemma InitSameControl(p: Problem, u: Field, v: Field)
    requires p.Consistent()
    ensures SameControl(p, InitSystem(p, u), InitSystem(p, v))
  {
  }

  /** A finished on-time schedule does it, if the extents are true. */
  lemma OnTimeSteps(p: Problem, u: Field, evs: seq<Event>)
    requires p.Consistent() && p.n > 0
    requires Runnable(p, InitSystem(p, u), evs) && Quiescent(p, Run(p, InitSystem(p, u), evs)) && AllOnTime(p, evs)
    ensures StepsFromInit(p, evs)
  {
    InitGathers(p, u);
    var r := InitSystem(p, u);
    EpochStartCounted(p, r, 0);
    forall start: Field
      ensures Runnable(p, InitSystem(p, start), evs)
      ensures SameField(Gather(p, Run(p, InitSystem(p, start), evs)), p.Jacobi(Clipped(p, start)))
    {
      var s := InitSystem(p, start);
      InitGathers(p, start);
      EpochStartCounted(p, s, 0);
      InitSameControl(p, u, start);
      RunSameControl(p, r, s, 0, evs);
      NothingFlies(p, Run(p, s, evs));
      OnTimeEpochIsJacobi(p, s, 0, evs);
      JacobiCong(p, Gather(p, s), Clipped(p, start));
    }
  }

  lemma NothingFlies(p: Problem, t: System)
    requires forall x, y :: !Flying(t.inflight, x, y)
    ensures t.inflight == []
  {
    var ms := t.inflight;
    if ms != [] { assert Flying(ms, ms[0].from, ms[0].to); }
  }

  /** A cell whose coordinates are all v. */
  function Flat(p: Problem, v: int): (c: Index)
    ensures |c| == |p.dims| && forall a | 0 <= a < |c| :: c[a] == v
  {
    seq(|p.dims|, _ => v)
  }

  /** A spike in an element that never sweeps stays where it is, but a Jacobi step moves it. */
  lemma StuckSpoils(p: Problem, evs: seq<Event>)
    requires p.WellFormed() && p.n > 0 && (forall g :: p.rhs(g) == 0.0) && p.num != p.dims && !Alone(p.num)
    ensures !StepsFromInit(p, evs)
  {
    var e, c := Stuck(p), Flat(p, 1);
    assert p.Inner(c);
    var x := p.Global(e, c);
    var s := InitSystem(p, Spike(x));
    InitStart(p, Spike(x));
    if Runnable(p, s, evs) {
      WrongExtentsNeverSweep(p, s, 0, evs);
      RunKeepsUnknowns(p, s, evs, e, c);
      InitValue(p, Spike(x), e, c);
      GatherAt(p, Run(p, s, evs), e, c);
      InnerIsInterior(p, e, c);
      ClippedSpike(p, x);
      SpikeLeaves(p, x);
    }
  }

  lemma InitStart(p: Problem, start: Field)
    requires p.WellFormed()
    ensures EpochStart(p, InitSystem(p, start), 0)
  {
  }

  lemma InitValue(p: Problem, start: Field, e: Index, c: Index)
    requires p.WellFormed() && p.InRange(e) && p.Inner(c)
    ensures InitSystem(p, start).elems(e).told(c) == start(p.Global(e, c))
  {
    assert !ZeroedByInit(p, e, c);
  }

  lemma ClippedSpike(p: Problem, x: Index)
    requires p.WellFormed() && p.Interior(x)
    ensures forall g :: p.Jacobi(Clipped(p, Spike(x)))(g) == p.Jacobi(Spike(x))(g)
  {
    assert SameField(Clipped(p, Spike(x)), Spike(x));
    JacobiCong(p, Clipped(p, Spike(x)), Spike(x));
  }

  lemma SpikeLeaves(p: Problem, x: Index)
    requires p.WellFormed() && (forall g :: p.rhs(g) == 0.0) && |x| == |p.dims|
    ensures p.Jacobi(Spike(x))(x) == 0.0
  {
    SpikeMoves(p, x, x);
  }

  /** The ghost layer that the first element zeroes hides a spike in its neighbour, also from the sweep. */
  lemma SoloSpoils(p: Problem, evs: seq<Event>)
    requires p.WellFormed() && p.n > 0 && (forall g :: p.rhs(g) == 0.0) && p.num != p.dims && Alone(p.num)
    ensures !StepsFromInit(p, evs)
  {
    var a :| 0 <= a < |p.dims| && p.num[a] != p.dims[a];
    var e, c := Flat(p, 0), Flat(p, 1)[a := p.n];
    assert p.Inner(c) && p.InRange(e) && p.Global(e, c) == c;
    var x := Shift(c, a, true);
    var s := InitSystem(p, Spike(x));
    InitStart(p, Spike(x));
    SoloStart(p, s, 0);
    if Runnable(p, s, evs) {
      SoloRun(p, s, s, evs);
      SpikeHidden(p, e, c, a);
      InnerIsInterior(p, e, c);
      GatherAt(p, Run(p, s, evs), e, c);
      NextBlock(p, c, a);
      ClippedSpike(p, x);
      SpikeArrives(p, c, a, true);
    }
  }

  lemma NextBlock(p: Problem, c: Index, a: nat)
    requires p.WellFormed() && p.n > 0 && a < |p.dims| && p.dims[a] >= 2 && c == Flat(p, 1)[a := p.n]
    ensures p.Interior(Shift(c, a, true))
  {
    var x := Shift(c, a, true);
    forall i | 0 <= i < |x| ensures 1 <= x[i] <= p.n * p.dims[i] {
      if i == a { MulMono(p.n, 2, p.dims[i]); } else { MulMono(p.n, 1, p.dims[i]); }
    }
  }

  lemma SpikeHidden(p: Problem, e: Index, c: Index, a: nat)
    requires p.WellFormed() && p.n > 0 && (forall g :: p.rhs(g) == 0.0) && Alone(p.num)
    requires a < |p.dims| && e == Flat(p, 0) && c == Flat(p, 1)[a := p.n] && p.Inner(c)
    ensures var z := InitSystem(p, Spike(Shift(c, a, true))).elems(e);
              z.told(c) == 0.0 && DoIteration(p, e, z).told(c) == 0.0
  {
    var x := Shift(c, a, true);
    var z := InitSystem(p, Spike(x)).elems(e);
    forall d: Index | |d| == |c| ensures z.told(d) == 0.0 {
      assert p.Global(e, d) == d;
      if d == x {
        assert d[a] == p.n + 1 && e[a] == 0 && p.num[a] == 1;
        assert ZeroedByInit(p, e, d);
      }
    }
    NbrSumZero(z.told, c, |c|);
    assert DoIteration(p, e, z).told(c) == p.Relax(p.rhs(p.Global(e, c)), 0.0);
  }

  /**
    Some schedule performs a Jacobi step on every initial guess if and only if the elements were
    told the true extents.
   */
  lemma JacobiStepsIff(p: Problem)
    requires p.WellFormed() && p.n > 0 && forall g :: p.rhs(g) == 0.0
    ensures (exists evs :: StepsFromInit(p, evs)) <==> p.num == p.dims
  {
    if p.num == p.dims {
      var u := Spike([]);
      InitGathers(p, u);
      var evs := OnTimeExists(p, InitSystem(p, u), 0);
      OnTimeSteps(p, u, evs);
    } else {
      forall evs ensures !StepsFromInit(p, evs) {
        if Alone(p.num) { SoloSpoils(p, evs); } else { StuckSpoils(p, evs); }
      }
    }
  }

  // ---------------------------------------------------------------- the three-dimensional solver

  /**
    Every element can sweep in an epoch exactly with as many objects along z as along y, or with a
    single object along x and y.
   */
  lemma Sweeps3DIff(nx: nat, ny: nat, nz: nat, n: nat, rhs: Field, s: System, k: nat)
    requires nx > 0 && ny > 0 && nz > 0 && EpochStart(Problem3D(nx, ny, nz, n, rhs), s, k)
    ensures var p := Problem3D(nx, ny, nz, n, rhs);
            p.WellFormed() && ((exists evs :: Sweeps(p, s, k, evs)) <==> nz == ny || nx * ny <= 1)
  {
    var p := Problem3D(nx, ny, nz, n, rhs);
    Extents3D(nx, ny, nz, n, rhs);
    AllSweepIff(p, s, k);
  }

  lemma Extents3D(nx: nat, ny: nat, nz: nat, n: nat, rhs: Field)
    requires nx > 0 && ny > 0 && nz > 0
    ensures var p := Problem3D(nx, ny, nz, n, rhs);
            p.WellFormed() && (p.num == p.dims <==> nz == ny) && (Alone(p.num) <==> nx * ny <= 1)
  {
    var p := Problem3D(nx, ny, nz, n, rhs);
    assert p.num[0] == nx && p.num[1] == ny && p.num[2] == ny && p.dims[2] == nz;
    if nx * ny <= 1 {
      MulMono(nx, 1, ny);
      MulMono(ny, 1, nx);
    }
  }

  /**
    It performs Jacobi steps exactly with as many objects along z as along y; a single object along
    x and y does not help.
   */
  lemma Jacobi3DIff(nx: nat, ny: nat, nz: nat, n: nat, rhs: Field)
    requires nx > 0 && ny > 0 && nz > 0 && n > 0 && forall g :: rhs(g) == 0.0
    ensures var p := Problem3D(nx, ny, nz, n, rhs);
            p.WellFormed() && ((exists evs :: StepsFromInit(p, evs)) <==> nz == ny)
  {
    Extents3D(nx, ny, nz, n, rhs);
    JacobiStepsIff(Problem3D(nx, ny, nz, n, rhs));
  }
}
