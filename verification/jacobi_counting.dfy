/**
  Counting: under every schedule, each element sweeps exactly once per epoch.
 */
module JacobiCounting {
  import opened Arithmetic
  import opened JacobiGrid
  import opened JacobiProtocol

  /** The neighbours whose face has reached e. */
  ghost function Got(p: Problem, s: System, e: Index): set<Index> {
    set f | f in Nbrs(p, e) && f in s.started && !Flying(s.inflight, f, e)
  }

  /** msgReceived counts the faces that have arrived, and wraps to 0 with the sweep. */
  ghost predicate CountOk(p: Problem, s: System, k: nat, e: Index) {
    var x, all, got := s.elems(e), |Nbrs(p, e)|, |Got(p, s, e)|;
    && x.totalReceive == all
    && (if all == 0 then x.msgReceived == 0 && x.iter == k + (if e in s.started then 1 else 0)
        else if got == all then x.msgReceived == 0 && x.iter == k + 1
        else x.msgReceived == got && x.iter == k)
  }

  /** Every message in flight goes from an element that has started to one of its neighbours. */
  ghost predicate MsgOk(p: Problem, s: System, m: Msg) {
    p.InRange(m.to) && p.InRange(m.from) && m.from in Nbrs(p, m.to) && m.from in s.started
  }

  /** At most one message in flight from any element to any other. */
  ghost predicate Distinct(ms: seq<Msg>) {
    forall i, j | 0 <= i < j < |ms| :: ms[i].from != ms[j].from || ms[i].to != ms[j].to
  }

  ghost predicate Counted(p: Problem, s: System, k: nat) {
    && p.Consistent()
    && (forall e | e in s.started :: p.InRange(e))
    && (forall m | m in s.inflight :: MsgOk(p, s, m))
    && Distinct(s.inflight)
    && (forall e | p.InRange(e) :: CountOk(p, s, k, e))
  }

  // ---------------------------------------------------------------- what doIter sends

  ghost function Face(p: Problem, e: Index, told: Field, a: nat, up: bool): Msg
    requires a < |e| == |p.dims|
  {
    Msg(e, Shift(e, a, up), Pack(p, told, a, up))
  }

  lemma {:induction false} SideFaceAxis(p: Problem, e: Index, told: Field, up: bool, k: nat, m: Msg) returns (a: nat)
    requires k <= |e| == |p.num| == |p.dims| && m in SideFaces(p, e, told, up, k)
    ensures a < k && Sends(p, e, a, up) && m == Face(p, e, told, a, up)
  {
    if m in SideMsg(p, e, told, k - 1, up) {
      a := k - 1;
    } else {
      a := SideFaceAxis(p, e, told, up, k - 1, m);
    }
  }

  lemma {:induction false} SideFaceSent(p: Problem, e: Index, told: Field, k: nat, a: nat, up: bool)
    requires a < k <= |e| == |p.num| == |p.dims| && Sends(p, e, a, up)
    ensures Face(p, e, told, a, up) in SideFaces(p, e, told, up, k)
  {
    if a < k - 1 {
      SideFaceSent(p, e, told, k - 1, a, up);
    } else {
      assert Face(p, e, told, a, up) == SideMsg(p, e, told, a, up)[0];
    }
  }

  lemma {:induction false} SideFacesDistinct(p: Problem, e: Index, told: Field, up: bool, k: nat)
    requires k <= |e| == |p.num| == |p.dims|
    ensures Distinct(SideFaces(p, e, told, up, k)) && |SideFaces(p, e, told, up, k)| <= k
  {
    if k > 0 {
      var a := k - 1;
      SideFacesDistinct(p, e, told, up, a);
      var ms, one := SideFaces(p, e, told, up, a), SideMsg(p, e, told, a, up);
      forall m | m in ms
        ensures |m.to| == |e| && m.to[a] == e[a]
      {
        var b := SideFaceAxis(p, e, told, up, a, m);
      }
      assert forall m | m in one :: |m.to| == |e| && m.to[a] != e[a];
      DistinctAppend(ms, one);
    }
  }

  /** Every message doIter sends is a face of the block, for a side on which there is a neighbour. */
  lemma FaceSide(p: Problem, e: Index, told: Field, m: Msg) returns (a: nat, up: bool)
    requires |e| == |p.num| == |p.dims| && m in Faces(p, e, told)
    ensures a < |e| && Sends(p, e, a, up) && m == Face(p, e, told, a, up)
  {
    up := m !in SideFaces(p, e, told, false, |e|);
    a := SideFaceAxis(p, e, told, up, |e|, m);
  }

  lemma FaceSent(p: Problem, e: Index, told: Field, a: nat, up: bool)
    requires a < |e| == |p.num| == |p.dims| && Sends(p, e, a, up)
    ensures Face(p, e, told, a, up) in Faces(p, e, told)
  {
    SideFaceSent(p, e, told, |e|, a, up);
  }

  lemma FacesDistinct(p: Problem, e: Index, told: Field)
    requires |e| == |p.num| == |p.dims|
    ensures Distinct(Faces(p, e, told)) && |Faces(p, e, told)| <= 2 * |e|
  {
    var lo, hi := SideFaces(p, e, told, false, |e|), SideFaces(p, e, told, true, |e|);
    SideFacesDistinct(p, e, told, false, |e|);
    SideFacesDistinct(p, e, told, true, |e|);
    forall x, y | x in lo && y in hi ensures x.to != y.to {
      var a := SideFaceAxis(p, e, told, false, |e|, x);
      var b := SideFaceAxis(p, e, told, true, |e|, y);
      assert x.to[a] < e[a] <= y.to[a];
    }
    DistinctAppend(lo, hi);
  }

  lemma DistinctAppend(xs: seq<Msg>, ys: seq<Msg>)
    requires Distinct(xs) && Distinct(ys)
    requires forall x, y | x in xs && y in ys :: x.from != y.from || x.to != y.to
    ensures Distinct(xs + ys)
  {
    forall i, j | 0 <= i < j < |xs + ys|
      ensures (xs + ys)[i].from != (xs + ys)[j].from || (xs + ys)[i].to != (xs + ys)[j].to
    {
      if i < |xs| <= j {
        assert xs[i] in xs && ys[j - |xs|] in ys;
      }
    }
  }

  /** An element that handles doIter sends one face to each of its neighbours, and nothing else. */
  lemma FacesReachNbrs(p: Problem, e: Index, told: Field)
    requires p.Consistent() && p.InRange(e)
    ensures forall m | m in Faces(p, e, told) :: m.from == e && m.to in Nbrs(p, e)
    ensures forall f | f in Nbrs(p, e) :: exists m :: m in Faces(p, e, told) && m.to == f
    ensures Distinct(Faces(p, e, told))
  {
    FacesDistinct(p, e, told);
    forall m | m in Faces(p, e, told)
      ensures m.from == e && m.to in Nbrs(p, e)
    {
      var a, up := FaceSide(p, e, told, m);
      assert p.num[a] == p.dims[a];
      ShiftInRange(p, e, a, up);
      SideNbr(p, e, a, up);
    }
    forall f | f in Nbrs(p, e)
      ensures exists m :: m in Faces(p, e, told) && m.to == f
    {
      var a, up := NbrSide(p, e, f);
      assert p.num[a] == p.dims[a];
      ShiftInRange(p, e, a, up);
      FaceSent(p, e, told, a, up);
      assert Face(p, e, told, a, up).to == f;
    }
  }

  /** The guard of the single-object case is exact. */
  lemma AloneHasNoNbrs(p: Problem, e: Index)
    requires p.Consistent() && p.InRange(e)
    ensures Alone(p.num) <==> Nbrs(p, e) == {}
  {
    if Alone(p.num) {
      forall f | f in Nbrs(p, e) ensures false {
        var a, up := NbrSide(p, e, f);
      }
    } else {
      var a :| 0 <= a < |p.num| && p.num[a] > 1;
      var up := e[a] == 0;
      ShiftInRange(p, e, a, up);
      SideNbr(p, e, a, up);
      assert Shift(e, a, up) in Nbrs(p, e);
    }
  }

  // ---------------------------------------------------------------- every event keeps the count

  lemma GotAfterStart(p: Problem, s: System, e: Index, f: Index)
    requires p.Consistent() && p.InRange(e) && p.InRange(f) && e !in s.started
    requires !Alone(p.num)
    ensures Got(p, Step(p, s, DoIter(e)), f) == Got(p, s, f)
  {
    var t := Step(p, s, DoIter(e));
    var ms := Faces(p, e, s.elems(e).told);
    FacesReachNbrs(p, e, s.elems(e).told);
    assert t.inflight == s.inflight + ms;
    forall g | g in Nbrs(p, f)
      ensures (g in t.started && !Flying(t.inflight, g, f)) <==> (g in s.started && !Flying(s.inflight, g, f))
    {
      if g == e {
        NbrsSymmetric(p, f, e);
        var m :| m in ms && m.to == f;
        assert m in t.inflight;
      } else {
        assert forall m | m in ms :: m.from != g;
        assert forall m: Msg | m.from == g :: m in t.inflight <==> m in s.inflight;
      }
    }
  }

  /** Handling doIter leaves every counter alone, except that a lone element sweeps. */
  lemma StartFrame(p: Problem, s: System, e: Index)
    requires p.WellFormed() && Enabled(p, s, DoIter(e))
    ensures var t := Step(p, s, DoIter(e));
            && t.started == s.started + {e} && t.late == s.late
            && (forall f | f != e || !Alone(p.num) :: t.elems(f) == s.elems(f))
            && (Alone(p.num) ==> t.inflight == s.inflight && t.elems(e) == DoIteration(p, e, s.elems(e)))
            && (!Alone(p.num) ==> t.inflight == s.inflight + Faces(p, e, s.elems(e).told))
  {
  }

  lemma {:induction false} StartKeepsCount(p: Problem, s: System, k: nat, e: Index)
    requires Counted(p, s, k) && Enabled(p, s, DoIter(e))
    ensures Counted(p, Step(p, s, DoIter(e)), k)
  {
    var t := Step(p, s, DoIter(e));
    StartFrame(p, s, e);
    if Alone(p.num) {
      forall m | m in t.inflight ensures MsgOk(p, t, m) {
        assert MsgOk(p, s, m);
      }
    } else {
      StartKeepsMsgs(p, s, k, e);
    }
    forall f | p.InRange(f) ensures CountOk(p, t, k, f) {
      StartKeepsOne(p, s, k, e, f);
    }
  }

  lemma {:induction false} StartKeepsOne(p: Problem, s: System, k: nat, e: Index, f: Index)
    requires p.Consistent() && Enabled(p, s, DoIter(e)) && p.InRange(f) && CountOk(p, s, k, f)
    ensures CountOk(p, Step(p, s, DoIter(e)), k, f)
  {
    StartFrame(p, s, e);
    AloneHasNoNbrs(p, f);
    if !Alone(p.num) { GotAfterStart(p, s, e, f); }
  }

  lemma StartKeepsMsgs(p: Problem, s: System, k: nat, e: Index)
    requires Counted(p, s, k) && Enabled(p, s, DoIter(e)) && !Alone(p.num)
    ensures var t := Step(p, s, DoIter(e)); Distinct(t.inflight) && forall m | m in t.inflight :: MsgOk(p, t, m)
  {
    var t := Step(p, s, DoIter(e));
    var ms := Faces(p, e, s.elems(e).told);
    FacesReachNbrs(p, e, s.elems(e).told);
    forall m | m in t.inflight ensures MsgOk(p, t, m) {
      if m in s.inflight {
        assert MsgOk(p, s, m);
      } else {
        assert m in ms;
        NbrsSymmetric(p, e, m.to);
      }
    }
    assert forall m | m in s.inflight :: MsgOk(p, s, m) && m.from != e;
    DistinctAppend(s.inflight, ms);
  }

  /** Taking one message out of the bag. */
  lemma RemoveMsg(ms: seq<Msg>, i: nat)
    requires i < |ms| && Distinct(ms)
    ensures var rest := ms[..i] + ms[i + 1..];
            && Distinct(rest)
            && (forall m :: m in rest ==> m in ms)
            && (forall x, y :: Flying(rest, x, y) <==> Flying(ms, x, y) && !(x == ms[i].from && y == ms[i].to))
  {
    var rest := ms[..i] + ms[i + 1..];
    forall m | m in ms
      ensures m in rest <==> !(m.from == ms[i].from && m.to == ms[i].to)
    {
      var j :| 0 <= j < |ms| && ms[j] == m;
      if j < i {
        assert rest[j] == m;
      } else if j > i {
        assert rest[j - 1] == m;
      }
    }
    forall x, y
      ensures Flying(rest, x, y) <==> Flying(ms, x, y) && !(x == ms[i].from && y == ms[i].to)
    {
      if Flying(ms, x, y) {
        var m :| m in ms && m.from == x && m.to == y;
      }
    }
  }

  /** A delivery changes the receiver and takes the one message away. */
  lemma DeliverFrame(p: Problem, s: System, x: Index, y: Index)
    requires p.WellFormed() && Distinct(s.inflight) && Enabled(p, s, Deliver(x, y))
    ensures var t, m := Step(p, s, Deliver(x, y)), s.inflight[Find(s.inflight, x, y)];
            && t.started == s.started
            && (forall f | f != y :: t.elems(f) == s.elems(f))
            && t.elems(y) == Exchange(p, y, s.elems(y), x, m.val)
            && t.late == (if t.elems(y).iter != s.elems(y).iter && y !in s.started then s.late + {y} else s.late)
            && m in s.inflight && m.from == x && m.to == y
            && Distinct(t.inflight)
            && (forall q :: q in t.inflight ==> q in s.inflight)
            && (forall v, w :: Flying(t.inflight, v, w) <==> Flying(s.inflight, v, w) && !(v == x && w == y))
  {
    RemoveMsg(s.inflight, Find(s.inflight, x, y));
  }

  lemma ExchangeCount(p: Problem, e: Index, z: Elem, from: Index, val: Field)
    requires |p.dims| > 0 && |e| == |p.dims| && from in Nbrs(p, e)
    ensures |from| == |e|
    ensures var r := Exchange(p, e, z, from, val);
            && r.totalReceive == z.totalReceive
            && (if z.msgReceived + 1 == z.totalReceive then r.msgReceived == 0 && r.iter == z.iter + 1
                else r.msgReceived == z.msgReceived + 1 && r.iter == z.iter)
  {
    var a, up := NbrSide(p, e, from);
  }

  lemma GotAfterDeliver(p: Problem, s: System, t: System, x: Index, y: Index, f: Index)
    requires t.started == s.started && x in s.started && x in Nbrs(p, y) && Flying(s.inflight, x, y)
    requires forall v, w :: Flying(t.inflight, v, w) <==> Flying(s.inflight, v, w) && !(v == x && w == y)
    ensures Got(p, t, f) == if f == y then Got(p, s, f) + {x} else Got(p, s, f)
    ensures f == y ==> x !in Got(p, s, f)
  {
  }

  lemma DeliverKeepsCount(p: Problem, s: System, k: nat, x: Index, y: Index)
    requires Counted(p, s, k) && Enabled(p, s, Deliver(x, y))
    ensures Counted(p, Step(p, s, Deliver(x, y)), k)
  {
    var t := Step(p, s, Deliver(x, y));
    DeliverFrame(p, s, x, y);
    assert MsgOk(p, s, s.inflight[Find(s.inflight, x, y)]);
    forall m | m in t.inflight ensures MsgOk(p, t, m) {
      assert MsgOk(p, s, m);
    }
    forall f | p.InRange(f) ensures CountOk(p, t, k, f) {
      assert CountOk(p, s, k, f);
      GotAfterDeliver(p, s, t, x, y, f);
      if f == y {
        ReceiveCount(p, s, t, k, x, y);
      }
    }
  }

  /** The receiver: one more face, and the sweep if it was the last. */
  lemma ReceiveCount(p: Problem, s: System, t: System, k: nat, x: Index, y: Index)
    requires |p.dims| > 0 && |y| == |p.dims| == |x| && CountOk(p, s, k, y) && x in Nbrs(p, y)
    requires Got(p, t, y) == Got(p, s, y) + {x} && x !in Got(p, s, y)
    requires exists val :: t.elems(y) == Exchange(p, y, s.elems(y), x, val)
    ensures CountOk(p, t, k, y)
  {
    var val :| t.elems(y) == Exchange(p, y, s.elems(y), x, val);
    ExchangeCount(p, y, s.elems(y), x, val);
    assert |Got(p, t, y)| == |Got(p, s, y)| + 1;
    SubsetCard(Got(p, t, y), Nbrs(p, y));
  }

  /** An element that a face has not reached has not swept; it will if this is the last face. */
  lemma StillWaiting(p: Problem, s: System, k: nat, x: Index, y: Index)
    requires CountOk(p, s, k, y) && x in Nbrs(p, y) && x !in Got(p, s, y)
    ensures s.elems(y).iter == k
    ensures s.elems(y).msgReceived + 1 == s.elems(y).totalReceive <==> Got(p, s, y) + {x} == Nbrs(p, y)
  {
    SubsetCard(Got(p, s, y), Nbrs(p, y));
    SubsetCard(Got(p, s, y) + {x}, Nbrs(p, y));
  }

  // ---------------------------------------------------------------- whole epochs

  lemma EpochStartCounted(p: Problem, s: System, k: nat)
    requires p.Consistent() && EpochStart(p, s, k)
    ensures Counted(p, s, k)
  {
    forall e | p.InRange(e) ensures CountOk(p, s, k, e) {
      ExpectedIsDegree(p, e, |e|);
    }
  }

  lemma StepKeepsCount(p: Problem, s: System, k: nat, ev: Event)
    requires Counted(p, s, k) && Enabled(p, s, ev)
    ensures Counted(p, Step(p, s, ev), k)
  {
    match ev
    case DoIter(e) => StartKeepsCount(p, s, k, e);
    case Deliver(x, y) => DeliverKeepsCount(p, s, k, x, y);
  }

  lemma {:induction false} RunKeepsCount(p: Problem, s: System, k: nat, evs: seq<Event>)
    requires Counted(p, s, k) && Runnable(p, s, evs)
    ensures Counted(p, Run(p, s, evs), k)
    decreases |evs|
  {
    if evs != [] {
      StepKeepsCount(p, s, k, evs[0]);
      RunKeepsCount(p, Step(p, s, evs[0]), k, evs[1..]);
    }
  }

  /**
    In every reachable state of an epoch, an element has swept at most once, and
    has received fewer faces than it waits for unless it waits for none.
   */
  lemma SweepsAtMostOnce(p: Problem, s: System, k: nat, evs: seq<Event>, e: Index)
    requires p.Consistent() && EpochStart(p, s, k) && Runnable(p, s, evs) && p.InRange(e)
    ensures var x := Run(p, s, evs).elems(e);
            && k <= x.iter <= k + 1
            && x.totalReceive == |Nbrs(p, e)|
            && (x.totalReceive > 0 ==> x.msgReceived < x.totalReceive)
  {
    EpochStartCounted(p, s, k);
    RunKeepsCount(p, s, k, evs);
    var t := Run(p, s, evs);
    assert CountOk(p, t, k, e);
    SubsetCard(Got(p, t, e), Nbrs(p, e));
  }

  /** When the epoch is over, every element has swept exactly once, and is ready for the next epoch. */
  lemma EachSweepsOnce(p: Problem, s: System, k: nat, evs: seq<Event>)
    requires p.Consistent() && EpochStart(p, s, k) && Runnable(p, s, evs) && Quiescent(p, Run(p, s, evs))
    ensures EpochStart(p, Run(p, s, evs).(started := {}, late := {}), k + 1)
  {
    EpochStartCounted(p, s, k);
    RunKeepsCount(p, s, k, evs);
    var t := Run(p, s, evs);
    forall e | p.InRange(e)
      ensures t.elems(e).msgReceived == 0 && t.elems(e).iter == k + 1
      ensures t.elems(e).totalReceive == Expected(p, e, |e|)
    {
      ExpectedIsDegree(p, e, |e|);
      assert CountOk(p, t, k, e);
      AllArrived(p, t, e);
    }
  }

  lemma AllArrived(p: Problem, t: System, e: Index)
    requires Quiescent(p, t) && p.InRange(e)
    ensures Got(p, t, e) == Nbrs(p, e)
  {
    forall f | f in Nbrs(p, e) ensures f in Got(p, t, e) {
      NbrsSymmetric(p, e, f);
    }
  }
}
