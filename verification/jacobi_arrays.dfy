/**
  A whole collection of one-dimensional elements, on its arrays: under every schedule its
  arrays and messages are those of the protocol.
 */
module JacobiArrays {
  import opened JacobiGrid
  import opened JacobiProtocol
  import opened JacobiCounting
  import opened JacobiRefinement
  import opened JacobiEpochs
  import opened JacobiSchedules
  import opened JacobiSolver
  import opened Jacobi1D

  /** A value in flight. */
  datatype Sent = Sent(from: Index, halo: Halo)

  /** The values in flight are the messages of the protocol. */
  ghost predicate SameFlight(hs: seq<Sent>, ms: seq<Msg>) {
    && |hs| == |ms|
    && forall q | 0 <= q < |hs| ::
      hs[q].from == ms[q].from && hs[q].halo.to == ms[q].to && hs[q].halo.val == ms[q].val([])
  }

  /** The elements once one of them has handled doIter. */
  ghost function Started(p: Problem, elems: Index -> Elem, e: Index): Index -> Elem
    requires p.WellFormed() && |e| == |p.dims|
  {
    if Alone(p.num) then Update(elems, e, DoIteration(p, e, elems(e))) else elems
  }

  /** What an element sends when it handles doIter. */
  ghost function FacesOf(p: Problem, e: Index, told: Field): seq<Msg>
    requires |e| == |p.num| == |p.dims|
  {
    if Alone(p.num) then [] else Faces(p, e, told)
  }

  /** The elements are different objects with arrays of their own. */
  ghost predicate Apart(objs: seq<LinearPb1DJacobi>)
    reads objs
  {
    forall i, j | 0 <= i < |objs| && 0 <= j < |objs| && i != j :: objs[i] != objs[j] && OwnArrays(objs[i], objs[j])
  }

  /** The arrays that o changes are not those of q. */
  ghost predicate OwnArrays(o: LinearPb1DJacobi, q: LinearPb1DJacobi)
    reads o, q
  {
    && o.tcur != q.tcur && o.tcur != q.told && o.tcur != q.rhs
    && o.told != q.tcur && o.told != q.told && o.told != q.rhs
  }

  /** Every element holds its part of the protocol's state. */
  ghost predicate HoldAll(objs: seq<LinearPb1DJacobi>, p: Problem, elems: Index -> Elem)
    reads objs, set i | 0 <= i < |objs| :: objs[i].told, set i | 0 <= i < |objs| :: objs[i].rhs
  {
    forall i | 0 <= i < |objs| :: objs[i].x == i && objs[i].Holds(p, elems([i]))
  }

  /** All elements but element i. */
  ghost predicate OthersHold(objs: seq<LinearPb1DJacobi>, i: nat, p: Problem, elems: Index -> Elem)
    reads objs, set j | 0 <= j < |objs| :: objs[j].told, set j | 0 <= j < |objs| :: objs[j].rhs
  {
    forall j | 0 <= j < |objs| && j != i :: objs[j].x == j && objs[j].Holds(p, elems([j]))
  }

  lemma AllHold(objs: seq<LinearPb1DJacobi>, i: nat, p: Problem, before: Index -> Elem, after: Index -> Elem)
    requires i < |objs| && objs[i].x == i && objs[i].Holds(p, after([i])) && OthersHold(objs, i, p, before)
    requires forall j: int | j != i :: after([j]) == before([j])
    ensures HoldAll(objs, p, after)
  {
  }

  method MakeOne(i: nat, nobjs: nat, nrow: nat, itMax: nat, start: int -> real, ghost p: Problem)
    returns (one: LinearPb1DJacobi)
    requires |p.dims| == 1 && p.num == [nobjs] && p.n == nrow && (forall g :: p.rhs(g) == 0.0)
    ensures fresh(one) && fresh(one.tcur) && fresh(one.told) && fresh(one.rhs)
    ensures one.x == i && one.Holds(p, InitSystem(p, OnCells(start)).elems([i]))
  {
    one := new LinearPb1DJacobi(i);
    one.Init(nobjs, nrow, itMax, start, p);
  }

  /** Construct the next element. */
  method AddOne(objs: seq<LinearPb1DJacobi>, nobjs: nat, nrow: nat, itMax: nat, start: int -> real, ghost p: Problem)
    returns (more: seq<LinearPb1DJacobi>)
    requires |p.dims| == 1 && p.num == [nobjs] && p.n == nrow && (forall g :: p.rhs(g) == 0.0)
    requires Apart(objs) && HoldAll(objs, p, InitSystem(p, OnCells(start)).elems)
    ensures |more| == |objs| + 1 && more[..|objs|] == objs && Apart(more)
    ensures HoldAll(more, p, InitSystem(p, OnCells(start)).elems)
    ensures
      var one := more[|objs|];
      fresh(one) && fresh(one.tcur) && fresh(one.told) && fresh(one.rhs)
  {
    var one := MakeOne(|objs|, nobjs, nrow, itMax, start, p);
    ApartMore(objs, one);
    HoldMore(objs, one, p, InitSystem(p, OnCells(start)).elems);
    more := objs + [one];
  }

  lemma ApartMore(objs: seq<LinearPb1DJacobi>, one: LinearPb1DJacobi)
    requires Apart(objs) && one !in objs
    requires forall o | o in objs :: OwnArrays(o, one) && OwnArrays(one, o)
    ensures Apart(objs + [one])
  {
    var more := objs + [one];
    assert forall i | 0 <= i < |objs| :: more[i] == objs[i] && objs[i] in objs;
  }

  lemma HoldMore(objs: seq<LinearPb1DJacobi>, one: LinearPb1DJacobi, p: Problem, elems: Index -> Elem)
    requires HoldAll(objs, p, elems) && one.x == |objs| && one.Holds(p, elems([|objs|]))
    ensures HoldAll(objs + [one], p, elems)
  {
  }

  class Collection {
    const objs: seq<LinearPb1DJacobi>
    var inflight: seq<Sent>

    ghost predicate Simulates(p: Problem, s: System)
      reads this, objs, set i | 0 <= i < |objs| :: objs[i].told, set i | 0 <= i < |objs| :: objs[i].rhs
    {
      p.WellFormed() && p.dims == [|objs|] && HoldAll(objs, p, s.elems) && SameFlight(inflight, s.inflight)
    }

    /** Construct the elements and initialise each. */
    constructor (nobjs: nat, nrow: nat, itMax: nat, start: int -> real, ghost p: Problem)
      requires p.Consistent() && p.dims == [nobjs] && p.n == nrow && (forall g :: p.rhs(g) == 0.0)
      ensures Apart(objs) && Simulates(p, InitSystem(p, OnCells(start)))
      ensures fresh(objs) && forall i | 0 <= i < |objs| :: fresh(objs[i].tcur) && fresh(objs[i].told)
    {
      var all: seq<LinearPb1DJacobi> := [];
      for i := 0 to nobjs
        invariant |all| == i && fresh(all)
        invariant Apart(all) && HoldAll(all, p, InitSystem(p, OnCells(start)).elems)
        invariant forall j | 0 <= j < i :: fresh(all[j].tcur) && fresh(all[j].told) && fresh(all[j].rhs)
      {
        all := AddOne(all, nobjs, nrow, itMax, start, p);
      }
      objs, inflight := all, [];
    }

    /** doIter on one element; the others are not touched. */
    method StartOne(i: nat, ghost p: Problem, ghost elems: Index -> Elem) returns (sent: seq<Halo>)
      requires Apart(objs) && p.WellFormed() && |p.dims| == 1 && i < |objs| && HoldAll(objs, p, elems)
      modifies objs[i], objs[i].tcur, objs[i].told
      ensures Apart(objs) && objs[i].tcur == old(objs[i].tcur) && objs[i].told == old(objs[i].told)
      ensures HoldAll(objs, p, Started(p, elems, [i])) && Matches(sent, FacesOf(p, [i], elems([i]).told))
    {
      UpdatesOne(elems, i, DoIteration(p, [i], elems([i])));
      sent := StartElement(i, p, elems);
      AllHold(objs, i, p, elems, Started(p, elems, [i]));
    }

    method StartElement(i: nat, ghost p: Problem, ghost elems: Index -> Elem) returns (sent: seq<Halo>)
      requires Apart(objs) && p.WellFormed() && |p.dims| == 1 && i < |objs| && HoldAll(objs, p, elems)
      modifies objs[i], objs[i].tcur, objs[i].told
      ensures Apart(objs) && objs[i].tcur == old(objs[i].tcur) && objs[i].told == old(objs[i].told)
      ensures OthersHold(objs, i, p, elems) && objs[i].x == i
      ensures objs[i].Holds(p, if Alone(p.num) then DoIteration(p, [i], elems([i])) else elems([i]))
      ensures Matches(sent, FacesOf(p, [i], elems([i]).told))
    {
      OthersApart(i);
      var norm;
      sent, norm := objs[i].DoIter(p, elems([i]));
    }

    /** A value for one element; the others are not touched. */
    method ReceiveOne(y: nat, from: int, val: real, ghost p: Problem, ghost elems: Index -> Elem, ghost f: Field)
      requires Apart(objs) && p.WellFormed() && |p.dims| == 1 && y < |objs| && HoldAll(objs, p, elems) && val == f([])
      modifies objs[y], objs[y].tcur, objs[y].told
      ensures Apart(objs) && objs[y].tcur == old(objs[y].tcur) && objs[y].told == old(objs[y].told)
      ensures HoldAll(objs, p, Update(elems, [y], Exchange(p, [y], elems([y]), [from], f)))
    {
      OthersApart(y);
      UpdatesOne(elems, y, Exchange(p, [y], elems([y]), [from], f));
      var norm := objs[y].Exchange(from, val, p, elems([y]), f);
    }

    /** Put what an element sent in flight. */
    method AddFlights(i: nat, sent: seq<Halo>, ghost p: Problem, ghost told: Field, ghost ms: seq<Msg>)
      requires |p.num| == |p.dims| == 1 && SameFlight(inflight, ms) && Matches(sent, FacesOf(p, [i], told))
      modifies this`inflight
      ensures SameFlight(inflight, ms + FacesOf(p, [i], told))
    {
      var more := seq(|sent|, q requires 0 <= q < |sent| => Sent([i], sent[q]));
      FlightsMore(p, [i], told, sent, more, inflight, ms);
      inflight := inflight + more;
    }

    /** Handle doIter. */
    method HandleDoIter(i: nat, ghost p: Problem, ghost s: System)
      requires Apart(objs) && Simulates(p, s) && i < |objs| && Enabled(p, s, DoIter([i]))
      modifies this`inflight, objs[i], objs[i].tcur, objs[i].told
      ensures Apart(objs) && Simulates(p, Step(p, s, DoIter([i])))
      ensures objs[i].tcur == old(objs[i].tcur) && objs[i].told == old(objs[i].told)
    {
      StepStarts(p, s, [i]);
      var sent := StartOne(i, p, s.elems);
      AddFlights(i, sent, p, s.elems([i]).told, s.inflight);
    }

    /** The place of the value that is on its way from x to y. */
    method FindFlight(x: int, y: int) returns (q: nat)
      requires exists i | 0 <= i < |inflight| :: inflight[i].from == [x] && inflight[i].halo.to == [y]
      ensures q < |inflight| && inflight[q].from == [x] && inflight[q].halo.to == [y]
    {
      q := 0;
      while inflight[q].from != [x] || inflight[q].halo.to != [y]
        invariant q < |inflight|
        invariant exists i | q <= i < |inflight| :: inflight[i].from == [x] && inflight[i].halo.to == [y]
        decreases |inflight| - q
      {
        q := q + 1;
      }
    }

    /** Take the value from x to y out of flight. */
    method TakeFlight(x: int, y: int, ghost ms: seq<Msg>) returns (val: real)
      requires SameFlight(inflight, ms) && Distinct(ms) && Flying(ms, [x], [y])
      modifies this`inflight
      ensures
        var i := Find(ms, [x], [y]);
        val == ms[i].val([]) && SameFlight(inflight, ms[..i] + ms[i + 1..])
    {
      FlightExists(inflight, ms, x, y);
      var q := FindFlight(x, y);
      OnlyFlight(ms, q, Find(ms, [x], [y]));
      FlightsLess(inflight, ms, q);
      val := inflight[q].halo.val;
      inflight := inflight[..q] + inflight[q + 1..];
    }

    /** Handle exchange. */
    method HandleDeliver(x: int, y: nat, ghost p: Problem, ghost s: System)
      requires Apart(objs) && Simulates(p, s) && y < |objs| && Enabled(p, s, Deliver([x], [y])) && Distinct(s.inflight)
      modifies this`inflight, objs[y], objs[y].tcur, objs[y].told
      ensures Apart(objs) && Simulates(p, Step(p, s, Deliver([x], [y])))
      ensures objs[y].tcur == old(objs[y].tcur) && objs[y].told == old(objs[y].told)
    {
      ghost var i := StepDelivers(p, s, [x], [y]);
      var val := TakeFlight(x, y, s.inflight);
      ReceiveOne(y, x, val, p, s.elems, s.inflight[i].val);
    }

    /** Handle one message. */
    method Handle(ev: Event, ghost p: Problem, ghost s: System)
      requires Apart(objs) && Simulates(p, s) && Enabled(p, s, ev) && Distinct(s.inflight)
      modifies this`inflight, objs, set i | 0 <= i < |objs| :: objs[i].tcur, set i | 0 <= i < |objs| :: objs[i].told
      ensures Apart(objs) && Simulates(p, Step(p, s, ev))
      ensures forall i | 0 <= i < |objs| :: objs[i].tcur == old(objs[i].tcur) && objs[i].told == old(objs[i].told)
    {
      match ev
      case DoIter(e) =>
        OneAxis(p, e);
        OthersApart(e[0]);
        HandleDoIter(e[0], p, s);
      case Deliver(x, y) =>
        OneAxis(p, x);
        OneAxis(p, y);
        OthersApart(y[0]);
        HandleDeliver(x[0], y[0], p, s);
    }

    /**
      Run a schedule on the arrays: whatever the order of the handlers, the arrays, counters and
      messages are those that the protocol reaches.
     */
    method RunSchedule(evs: seq<Event>, ghost p: Problem, ghost s: System, ghost k: nat)
      requires Apart(objs) && Simulates(p, s) && Counted(p, s, k) && Runnable(p, s, evs)
      modifies this`inflight, objs, set i | 0 <= i < |objs| :: objs[i].tcur, set i | 0 <= i < |objs| :: objs[i].told
      ensures Apart(objs) && Simulates(p, Run(p, s, evs))
      ensures forall i | 0 <= i < |objs| :: objs[i].tcur == old(objs[i].tcur) && objs[i].told == old(objs[i].told)
    {
      ghost var t := s;
      for n := 0 to |evs|
        invariant Apart(objs) && Simulates(p, t) && Counted(p, t, k)
        invariant Runnable(p, t, evs[n..]) && Run(p, t, evs[n..]) == Run(p, s, evs)
        invariant forall i | 0 <= i < |objs| :: objs[i].tcur == old(objs[i].tcur) && objs[i].told == old(objs[i].told)
      {
        t := HandleNext(evs, n, p, t, k);
      }
    }

    /** The next message of a schedule. */
    method HandleNext(evs: seq<Event>, n: nat, ghost p: Problem, ghost s: System, ghost k: nat)
      returns (ghost t: System)
      requires Apart(objs) && Simulates(p, s) && Counted(p, s, k) && n < |evs| && Runnable(p, s, evs[n..])
      modifies this`inflight, objs, set i | 0 <= i < |objs| :: objs[i].tcur, set i | 0 <= i < |objs| :: objs[i].told
      ensures Apart(objs) && Simulates(p, t) && Counted(p, t, k)
      ensures Runnable(p, t, evs[n + 1..]) && Run(p, t, evs[n + 1..]) == Run(p, s, evs[n..])
      ensures forall i | 0 <= i < |objs| :: objs[i].tcur == old(objs[i].tcur) && objs[i].told == old(objs[i].told)
    {
      assert evs[n..][0] == evs[n] && evs[n..][1..] == evs[n + 1..];
      StepKeepsCount(p, s, k, evs[n]);
      Handle(evs[n], p, s);
      t := Step(p, s, evs[n]);
    }

    /** Run any number of epochs on the arrays. */
    method Iterate(evss: seq<seq<Event>>, ghost p: Problem, ghost s: System, ghost k: nat)
      requires Apart(objs) && Simulates(p, s) && Between(p, s, k) && EpochsRunnable(p, s, evss)
      modifies this`inflight, objs, set i | 0 <= i < |objs| :: objs[i].tcur, set i | 0 <= i < |objs| :: objs[i].told
      ensures Apart(objs) && Simulates(p, RunEpochs(p, s, evss))
    {
      ghost var t := s;
      for n := 0 to |evss|
        invariant Apart(objs) && Simulates(p, t) && Between(p, t, k + n)
        invariant EpochsRunnable(p, t, evss[n..]) && RunEpochs(p, t, evss[n..]) == RunEpochs(p, s, evss)
        invariant forall i | 0 <= i < |objs| :: objs[i].tcur == old(objs[i].tcur) && objs[i].told == old(objs[i].told)
      {
        assert evss[n..][0] == evss[n] && evss[n..][1..] == evss[n + 1..];
        EpochStartCounted(p, t, k + n);
        RunSchedule(evss[n], p, t, k + n);
        EpochComputes(p, t, k + n, evss[n]);
        t := NextEpoch(Run(p, t, evss[n]));
      }
    }

    method IterateFromStart(evss: seq<seq<Event>>, ghost p: Problem, ghost start: Field)
      requires Apart(objs) && p.Consistent() && p.n > 0 && Simulates(p, InitSystem(p, start))
      requires EpochsRunnable(p, InitSystem(p, start), evss)
      modifies this`inflight, objs, set i | 0 <= i < |objs| :: objs[i].tcur, set i | 0 <= i < |objs| :: objs[i].told
      ensures
        var t := RunEpochs(p, InitSystem(p, start), evss);
        && Simulates(p, t)
        && ((forall evs | evs in evss :: AllOnTime(p, evs)) ==>
              SameField(Gather(p, t), p.JacobiPow(Clipped(p, start), |evss|)))
    {
      InitIsBetween(p, start);
      Iterate(evss, p, InitSystem(p, start), 0);
      if forall evs | evs in evss :: AllOnTime(p, evs) {
        SolverComputes(p, start, evss);
      }
    }

    /** Put side by side, the elements' arrays are the global array v. */
    ghost predicate Reads(nobjs: nat, nrow: nat, v: Field)
      reads objs, set i | 0 <= i < |objs| :: objs[i].told
    {
      && |objs| == nobjs
      && (forall i | 0 <= i < nobjs :: objs[i].told.Length == nrow + 2)
      && forall i, r | 0 <= i < nobjs && 1 <= r <= nrow :: objs[i].told[r] == v([nrow * i + r])
    }

    lemma ReadsOff(p: Problem, s: System, v: Field)
      requires Simulates(p, s) && p.n > 0 && SameField(Gather(p, s), v)
      ensures Reads(p.dims[0], p.n, v)
    {
      forall i, r | 0 <= i < |objs| && 1 <= r <= p.n ensures objs[i].told[r] == v([p.n * i + r]) {
        GatherAt(p, s, [i], [r]);
        assert p.Global([i], [r]) == [p.n * i + r];
      }
    }

    /** Arrays of different elements are different. */
    lemma OthersApart(i: nat)
      requires Apart(objs) && i < |objs|
      ensures forall j | 0 <= j < |objs| && j != i ::
        && objs[j] != objs[i]
        && objs[j].told != objs[i].told && objs[j].told != objs[i].tcur
        && objs[j].rhs != objs[i].told && objs[j].rhs != objs[i].tcur
    {
    }
  }

  /**
    The one-dimensional solver from its initialisation on: after any number of epochs under any
    schedules the arrays of the elements, put side by side, are the global array that the protocol
    reaches; when the epochs were on time, that is as many Jacobi sweeps of the initial guess.
   */
  method Solve(nobjs: nat, nrow: nat, itMax: nat, start: int -> real, evss: seq<seq<Event>>, ghost p: Problem)
    returns (c: Collection)
    requires p.Consistent() && p.dims == [nobjs] && p.n == nrow > 0 && (forall g :: p.rhs(g) == 0.0)
    requires EpochsRunnable(p, InitSystem(p, OnCells(start)), evss)
    ensures c.Reads(nobjs, nrow, Gather(p, RunEpochs(p, InitSystem(p, OnCells(start)), evss)))
    ensures (forall evs | evs in evss :: AllOnTime(p, evs)) ==>
              c.Reads(nobjs, nrow, p.JacobiPow(Clipped(p, OnCells(start)), |evss|))
  {
    c := new Collection(nobjs, nrow, itMax, start, p);
    c.IterateFromStart(evss, p, OnCells(start));
    ghost var t := RunEpochs(p, InitSystem(p, OnCells(start)), evss);
    c.ReadsOff(p, t, Gather(p, t));
    if forall evs | evs in evss :: AllOnTime(p, evs) {
      c.ReadsOff(p, t, p.JacobiPow(Clipped(p, OnCells(start)), |evss|));
    }
  }

  lemma UpdatesOne(elems: Index -> Elem, i: int, x: Elem)
    ensures Update(elems, [i], x)([i]) == x && forall j: int | j != i :: Update(elems, [i], x)([j]) == elems([j])
  {
    assert forall j: int :: [j] == [i] ==> [j][0] == [i][0];
  }

  lemma OneAxis(p: Problem, e: Index)
    requires |p.dims| == 1 && p.InRange(e)
    ensures e == [e[0]] && 0 <= e[0] < p.dims[0]
  {
  }

  lemma StepStarts(p: Problem, s: System, e: Index)
    requires p.WellFormed() && Enabled(p, s, DoIter(e))
    ensures Step(p, s, DoIter(e)).elems == Started(p, s.elems, e)
    ensures Step(p, s, DoIter(e)).inflight == s.inflight + FacesOf(p, e, s.elems(e).told)
  {
  }

  lemma StepDelivers(p: Problem, s: System, x: Index, y: Index) returns (i: nat)
    requires p.WellFormed() && Enabled(p, s, Deliver(x, y))
    ensures i == Find(s.inflight, x, y) && i < |s.inflight|
    ensures Step(p, s, Deliver(x, y)).elems == Update(s.elems, y, Exchange(p, y, s.elems(y), x, s.inflight[i].val))
    ensures Step(p, s, Deliver(x, y)).inflight == s.inflight[..i] + s.inflight[i + 1..]
  {
    i := Find(s.inflight, x, y);
  }

  lemma FacesFrom(p: Problem, e: Index, told: Field)
    requires |e| == |p.num| == |p.dims|
    ensures forall m | m in FacesOf(p, e, told) :: m.from == e
  {
    forall m | m in FacesOf(p, e, told) ensures m.from == e { var a, up := FaceSide(p, e, told, m); }
  }

  lemma OnlyFlight(ms: seq<Msg>, i: nat, j: nat)
    requires Distinct(ms) && i < |ms| && j < |ms| && ms[i].from == ms[j].from && ms[i].to == ms[j].to
    ensures i == j
  {
  }

  lemma FlightsMore(p: Problem, e: Index, told: Field, sent: seq<Halo>, more: seq<Sent>, hs: seq<Sent>, ms: seq<Msg>)
    requires |e| == |p.num| == |p.dims| && SameFlight(hs, ms) && Matches(sent, FacesOf(p, e, told))
    requires |more| == |sent| && forall q | 0 <= q < |sent| :: more[q] == Sent(e, sent[q])
    ensures SameFlight(hs + more, ms + FacesOf(p, e, told))
  {
    FacesFrom(p, e, told);
    var fs := FacesOf(p, e, told);
    assert forall q | 0 <= q < |fs| :: fs[q] in fs;
  }

  lemma FlightExists(hs: seq<Sent>, ms: seq<Msg>, x: int, y: int)
    requires SameFlight(hs, ms) && Flying(ms, [x], [y])
    ensures exists i | 0 <= i < |hs| :: hs[i].from == [x] && hs[i].halo.to == [y]
  {
    var i := Find(ms, [x], [y]);
    assert hs[i].from == [x];
  }

  lemma FlightsLess(hs: seq<Sent>, ms: seq<Msg>, q: nat)
    requires SameFlight(hs, ms) && q < |hs|
    ensures SameFlight(hs[..q] + hs[q + 1..], ms[..q] + ms[q + 1..])
  {
  }
}
