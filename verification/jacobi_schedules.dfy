/**
  Epochs begin well, never get stuck, and end; and on-time schedules exist.
 */
module JacobiSchedules {
  import opened JacobiGrid
  import opened JacobiProtocol
  import opened JacobiCounting
  import opened JacobiRefinement
  import opened JacobiEpochs

  // ---------------------------------------------------------------- the state init leaves behind

  /** The cell lies in a ghost layer that init sets to the boundary value. */
  predicate ZeroedByInit(p: Problem, e: Index, c: Index)
    requires |e| == |c| == |p.num|
  {
    exists a | 0 <= a < |c| :: (e[a] == 0 && c[a] == 0) || (p.num[a] == e[a] + 1 && c[a] == p.n + 1)
  }

  /** One element after init; start gives the initial guess on global cells. */
  ghost function InitElem(p: Problem, e: Index, start: Field): Elem
    requires |e| == |p.num|
  {
    Elem((c: Index) => if |c| != |e| || ZeroedByInit(p, e, c) then 0.0 else start(p.Global(e, c)),
         0, Expected(p, e, |e|), 0)
  }

  ghost function InitSystem(p: Problem, start: Field): System {
    System((e: Index) => if |e| == |p.num| then InitElem(p, e, start) else Elem(start, 0, 0, 0), [], {}, {})
  }

  /** After init the elements hold the initial guess on the unknowns and the boundary condition around them. */
  lemma InitIsBetween(p: Problem, start: Field)
    requires p.Consistent() && p.n > 0
    ensures Between(p, InitSystem(p, start), 0)
    ensures forall g | p.Interior(g) :: Gather(p, InitSystem(p, start))(g) == start(g)
  {
    var s := InitSystem(p, start);
    forall e | p.InRange(e) ensures HoldsBoundary(p, e, s.elems(e).told) {
      forall a, up, c | 0 <= a < |e| && p.InBox(c) && c[a] == Ghost(p, up) && !p.InRange(Shift(e, a, up))
        ensures s.elems(e).told(c) == 0.0
      {
        ShiftInRange(p, e, a, up);
        assert ZeroedByInit(p, e, c);
      }
    }
    forall g | p.Interior(g) ensures Gather(p, s)(g) == start(g) {
      InteriorIsOwned(p, g);
      assert !ZeroedByInit(p, p.Owner(g), p.Local(g));
    }
  }

  // ---------------------------------------------------------------- progress and length

  /** An epoch that is not over can go on. */
  lemma Progress(p: Problem, s: System, k: nat) returns (ev: Event)
    requires Counted(p, s, k) && !Quiescent(p, s)
    ensures Enabled(p, s, ev)
  {
    if s.inflight != [] {
      var m := s.inflight[0];
      assert MsgOk(p, s, m);
      ev := Deliver(m.from, m.to);
    } else {
      var e :| p.InRange(e) && e !in s.started;
      ev := DoIter(e);
    }
  }

  ghost function Times(d: nat, n: nat): nat { d * n }

  /** What is left to do in an epoch: the faces in flight, and for each element to start its doIter and faces. */
  ghost function Left(p: Problem, all: set<Index>, s: System): nat {
    |s.inflight| + Times(2 * |p.dims| + 1, |all - s.started|)
  }

  lemma StartDecreases(p: Problem, all: set<Index>, s: System, e: Index)
    requires p.WellFormed() && (forall e :: e in all <==> p.InRange(e)) && Enabled(p, s, DoIter(e))
    ensures Left(p, all, Step(p, s, DoIter(e))) < Left(p, all, s)
  {
    StartSize(p, s, e);
    LeftFalls(p, all, s, Step(p, s, DoIter(e)), e);
  }

  lemma LeftFalls(p: Problem, all: set<Index>, s: System, t: System, e: Index)
    requires e in all && e !in s.started && t.started == s.started + {e}
    requires |t.inflight| <= |s.inflight| + 2 * |p.dims|
    ensures Left(p, all, t) < Left(p, all, s)
  {
    OneFewer(all, s.started, e, 2 * |p.dims| + 1);
  }

  /** doIter puts at most two faces per axis in flight. */
  lemma StartSize(p: Problem, s: System, e: Index)
    requires p.WellFormed() && Enabled(p, s, DoIter(e))
    ensures |Step(p, s, DoIter(e)).inflight| <= |s.inflight| + 2 * |p.dims|
    ensures Step(p, s, DoIter(e)).started == s.started + {e}
  {
    StartFrame(p, s, e);
    FacesDistinct(p, e, s.elems(e).told);
  }

  lemma OneFewer(all: set<Index>, started: set<Index>, e: Index, d: nat)
    requires e in all && e !in started
    ensures Times(d, |all - (started + {e})|) + d == Times(d, |all - started|)
  {
    var rest := all - started;
    assert all - (started + {e}) == rest - {e};
    var n := |rest| - 1;
    assert |rest - {e}| == n;
    assert d * (n + 1) == d * n + d;
  }

  lemma DeliverDecreases(p: Problem, all: set<Index>, s: System, x: Index, y: Index)
    requires p.WellFormed() && Enabled(p, s, Deliver(x, y))
    ensures Left(p, all, Step(p, s, Deliver(x, y))) < Left(p, all, s)
  {
  }

  lemma StepDecreases(p: Problem, all: set<Index>, s: System, ev: Event)
    requires p.WellFormed() && (forall e :: e in all <==> p.InRange(e)) && Enabled(p, s, ev)
    ensures Left(p, all, Step(p, s, ev)) < Left(p, all, s)
  {
    match ev
    case DoIter(e) => StartDecreases(p, all, s, e);
    case Deliver(x, y) => DeliverDecreases(p, all, s, x, y);
  }

  lemma {:induction false} RunUsesUp(p: Problem, all: set<Index>, s: System, evs: seq<Event>)
    requires p.WellFormed() && (forall e :: e in all <==> p.InRange(e)) && Runnable(p, s, evs)
    ensures |evs| <= Left(p, all, s)
    decreases |evs|
  {
    if evs != [] {
      StepDecreases(p, all, s, evs[0]);
      RunUsesUp(p, all, Step(p, s, evs[0]), evs[1..]);
    }
  }

  /** No epoch goes on for ever: its length is bounded by the size of the collection. */
  lemma EpochBounded(p: Problem, s: System, k: nat, evs: seq<Event>)
    requires p.WellFormed() && EpochStart(p, s, k) && Runnable(p, s, evs)
    ensures |evs| <= Times(2 * |p.dims| + 1, |Elements(p.dims)|)
  {
    AllElements(p);
    UsesUpAll(p, Elements(p.dims), s, evs);
  }

  lemma {:induction false} UsesUpAll(p: Problem, all: set<Index>, s: System, evs: seq<Event>)
    requires p.WellFormed() && (forall e :: e in all <==> p.InRange(e)) && Runnable(p, s, evs)
    requires s.inflight == [] && s.started == {}
    ensures |evs| <= Times(2 * |p.dims| + 1, |all|)
  {
    RunUsesUp(p, all, s, evs);
    LeftAtStart(p, all, s);
  }

  lemma LeftAtStart(p: Problem, all: set<Index>, s: System)
    requires s.inflight == [] && s.started == {}
    ensures Left(p, all, s) == Times(2 * |p.dims| + 1, |all|)
  {
    assert all - s.started == all;
  }

  // ---------------------------------------------------------------- an on-time schedule

  /** Deliver everything that is in flight. */
  lemma {:induction false} DeliverAll(p: Problem, s: System, k: nat) returns (evs: seq<Event>)
    requires Counted(p, s, k) && s.late == {} && forall e | p.InRange(e) :: e in s.started
    ensures Runnable(p, s, evs) && Quiescent(p, Run(p, s, evs)) && Run(p, s, evs).late == {}
    decreases |s.inflight|
  {
    if s.inflight == [] {
      evs := [];
    } else {
      var ev := Deliver(s.inflight[0].from, s.inflight[0].to);
      assert MsgOk(p, s, s.inflight[0]);
      StepKeepsCount(p, s, k, ev);
      DeliverDecreases(p, {}, s, ev.from, ev.to);
      var t := Step(p, s, ev);
      assert t.started == s.started && t.late == {};
      var rest := DeliverAll(p, t, k);
      evs := [ev] + rest;
      assert evs[1..] == rest;
    }
  }

  /** Start everything first, and deliver everything then. */
  lemma {:induction false} StartAll(p: Problem, all: set<Index>, s: System, k: nat) returns (evs: seq<Event>)
    requires Counted(p, s, k) && (forall e :: e in all <==> p.InRange(e)) && s.late == {}
    ensures Runnable(p, s, evs) && Quiescent(p, Run(p, s, evs)) && Run(p, s, evs).late == {}
    decreases all - s.started
  {
    if e :| e in all && e !in s.started {
      var t := Step(p, s, DoIter(e));
      StepKeepsCount(p, s, k, DoIter(e));
      var rest := StartAll(p, all, t, k);
      evs := [DoIter(e)] + rest;
      assert evs[1..] == rest;
    } else {
      evs := DeliverAll(p, s, k);
    }
  }

  /** Every epoch has a schedule that is on time and runs to its end. */
  lemma OnTimeExists(p: Problem, s: System, k: nat) returns (evs: seq<Event>)
    requires Between(p, s, k)
    ensures Runnable(p, s, evs) && Quiescent(p, Run(p, s, evs)) && AllOnTime(p, evs)
  {
    EpochStartCounted(p, s, k);
    AllElements(p);
    evs := StartAll(p, Elements(p.dims), s, k);
    forall e | p.InRange(e) ensures Nbrs(p, e) == {} || OnTime(evs, e) {
      LateIffNotOnTime(p, s, k, evs, e);
    }
  }

  // ---------------------------------------------------------------- a schedule that is not on time

  /** The schedule c is a, which leads to t, followed by b. */
  lemma {:induction false} RunAppend(p: Problem, s: System, a: seq<Event>, t: System, b: seq<Event>, c: seq<Event>)
    requires p.WellFormed() && Runnable(p, s, a) && Run(p, s, a) == t && Runnable(p, t, b) && c == a + b
    ensures Runnable(p, s, c) && Run(p, s, c) == Run(p, t, b)
    decreases |a|
  {
    if a == [] {
      assert c == b;
    } else {
      TailOf(a, b, c);
      RunAppend(p, Step(p, s, a[0]), a[1..], t, b, c[1..]);
    }
  }

  lemma TailOf(a: seq<Event>, b: seq<Event>, c: seq<Event>)
    requires a != [] && c == a + b
    ensures c[0] == a[0] && c[1..] == a[1..] + b
  {
  }

  lemma StartNext(p: Problem, s: System, k: nat, e: Index) returns (t: System)
    requires Counted(p, s, k) && p.InRange(e) && e !in s.started
    ensures t == Step(p, s, DoIter(e)) && Counted(p, t, k) && t.started == s.started + {e}
  {
    t := Step(p, s, DoIter(e));
    StepKeepsCount(p, s, k, DoIter(e));
    StartFrame(p, s, e);
  }

  lemma RunAfter(p: Problem, s: System, ev: Event, t: System, rest: seq<Event>) returns (evs: seq<Event>)
    requires p.WellFormed() && Enabled(p, s, ev) && t == Step(p, s, ev) && Runnable(p, t, rest)
    ensures evs == [ev] + rest && Runnable(p, s, evs) && Run(p, s, evs) == Run(p, t, rest)
  {
    evs := [ev] + rest;
    assert evs[1..] == rest;
  }

  lemma {:induction false} StartSet(p: Problem, todo: set<Index>, s: System, k: nat) returns (evs: seq<Event>)
    requires Counted(p, s, k) && s.started <= todo && forall e | e in todo :: p.InRange(e)
    ensures Runnable(p, s, evs) && Run(p, s, evs).started == todo
    decreases todo - s.started
  {
    if e :| e in todo && e !in s.started {
      var t := StartNext(p, s, k, e);
      var rest := StartSet(p, todo, t, k);
      evs := RunAfter(p, s, DoIter(e), t, rest);
    } else {
      evs := [];
    }
  }

  lemma {:induction false} DeliverRest(p: Problem, s: System, k: nat) returns (evs: seq<Event>)
    requires Counted(p, s, k)
    ensures Runnable(p, s, evs) && Run(p, s, evs).inflight == [] && Run(p, s, evs).started == s.started
    decreases |s.inflight|
  {
    if s.inflight == [] {
      evs := [];
    } else {
      var ev := Deliver(s.inflight[0].from, s.inflight[0].to);
      assert MsgOk(p, s, s.inflight[0]);
      StepKeepsCount(p, s, k, ev);
      DeliverDecreases(p, {}, s, ev.from, ev.to);
      var rest := DeliverRest(p, Step(p, s, ev), k);
      evs := [ev] + rest;
      assert evs[1..] == rest;
    }
  }

  /** An element that has not started, after all others have and all faces have arrived, is late. */
  lemma LeftBehind(p: Problem, s: System, k: nat, evs: seq<Event>, e: Index)
    requires Between(p, s, k) && Runnable(p, s, evs) && p.InRange(e) && Nbrs(p, e) != {}
    requires
      var t := Run(p, s, evs);
      t.inflight == [] && e !in t.started && forall f | p.InRange(f) && f != e :: f in t.started
    ensures e in Run(p, s, evs).late
  {
    var t := Run(p, s, evs);
    EpochStartRefined(p, s, k);
    RunKeepsRefined(p, s, Gather(p, s), k, evs);
    assert LateOk(p, t, k, e) && CountOk(p, t, k, e);
    GotFromOthers(p, t, e);
  }

  lemma GotFromOthers(p: Problem, t: System, e: Index)
    requires p.InRange(e) && t.inflight == [] && forall f | p.InRange(f) && f != e :: f in t.started
    ensures Got(p, t, e) == Nbrs(p, e)
  {
    forall f | f in Nbrs(p, e) ensures f in t.started { NbrsSymmetric(p, e, f); }
  }

  /** Every collection in which some element has a neighbour has a schedule that is not on time. */
  lemma LateExists(p: Problem, s: System, k: nat, e: Index) returns (evs: seq<Event>)
    requires Between(p, s, k) && p.InRange(e) && Nbrs(p, e) != {}
    ensures Runnable(p, s, evs) && Quiescent(p, Run(p, s, evs)) && !AllOnTime(p, evs)
  {
    AllElements(p);
    var all := Elements(p.dims);
    EpochStartCounted(p, s, k);
    var a := StartSet(p, all - {e}, s, k);
    RunKeepsCount(p, s, k, a);
    var b := DeliverRest(p, Run(p, s, a), k);
    RunAppend(p, s, a, Run(p, s, a), b, a + b);
    var t := Run(p, s, a + b);
    LeftBehind(p, s, k, a + b, e);
    RunKeepsCount(p, s, k, a + b);
    StepKeepsCount(p, t, k, DoIter(e));
    StartFrame(p, t, e);
    var last := Step(p, t, DoIter(e));
    var d := DeliverRest(p, last, k);
    assert ([DoIter(e)] + d)[1..] == d;
    evs := a + b + ([DoIter(e)] + d);
    RunAppend(p, s, a + b, t, [DoIter(e)] + d, evs);
    LateSettled(p, last, d, e);
    LateIffNotOnTime(p, s, k, evs, e);
  }
}
