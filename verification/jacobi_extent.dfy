/**
  The elements must know the true extents of the collection: if they were told any others,
  some element waits for more faces than anyone sends it, and never sweeps, unless they were told
  that there is one object along every axis: then nothing is sent, and each sweeps by itself.  The
  three-dimensional solver tells them the extent along y in place of the one along z.
 */
module JacobiExtent {
  import opened Arithmetic
  import opened JacobiGrid
  import opened JacobiProtocol
  import opened JacobiCounting

  /** The element on side (a, up) of e exists and sends its face there. */
  ghost predicate SentFrom(p: Problem, e: Index, a: nat, up: bool)
    requires p.WellFormed() && a < |e| == |p.dims|
  {
    p.InRange(Shift(e, a, up)) && Sends(p, Shift(e, a, up), a, !up)
  }

  ghost function SenderSet(p: Problem, e: Index, a: nat, up: bool): set<Index>
    requires p.WellFormed() && a < |e| == |p.dims|
  {
    if SentFrom(p, e, a, up) then {Shift(e, a, up)} else {}
  }

  /** The elements that send e a face along the first k axes. */
  ghost function SendersUpTo(p: Problem, e: Index, k: nat): set<Index>
    requires p.WellFormed() && k <= |e| == |p.dims|
  {
    if k == 0 then {} else SendersUpTo(p, e, k - 1) + SenderSet(p, e, k - 1, false) + SenderSet(p, e, k - 1, true)
  }

  lemma {:induction false} InSenders(p: Problem, e: Index, k: nat, f: Index)
    requires p.WellFormed() && k <= |e| == |p.dims|
    ensures f in SendersUpTo(p, e, k) <==> exists a, up | 0 <= a < k :: f == Shift(e, a, up) && SentFrom(p, e, a, up)
  {
    if k > 0 { InSenders(p, e, k - 1, f); }
  }

  lemma SenderIsNbr(p: Problem, e: Index, f: Index)
    requires p.WellFormed() && |e| == |p.dims| && f in SendersUpTo(p, e, |e|)
    ensures f in Nbrs(p, e)
  {
    InSenders(p, e, |e|, f);
    InNbrsUpTo(p, e, |e|, f);
  }

  /** An element just beyond, or at the end of, the extent it was told. */
  function Stuck(p: Problem): (e: Index)
    requires p.WellFormed()
    ensures p.InRange(e)
  {
    seq(|p.dims|, a requires 0 <= a < |p.dims| => if p.num[a] < p.dims[a] then p.num[a] else p.dims[a] - 1)
  }

  lemma SumBound<T>(x: set<T>, y: set<T>, z: set<T>)
    ensures |x + y + z| <= |x| + |y| + |z|
  {
    assert x + y == x + (y - x) && x + y + z == (x + y) + (z - (x + y));
    assert y == (y - x) + (x * y) && z == (z - (x + y)) + (z * (x + y));
  }

  /** Along axis a, e is sent no more faces than it waits for, and fewer if it was told a wrong extent. */
  ghost predicate ShortOnAxis(p: Problem, e: Index, a: nat)
    requires p.WellFormed() && a < |e| == |p.dims|
  {
    |SenderSet(p, e, a, false)| + |SenderSet(p, e, a, true)| + (if p.num[a] != p.dims[a] then 1 else 0)
    <= (if e[a] == 0 then 0 else 1) + (if p.num[a] == e[a] + 1 then 0 else 1)
  }

  lemma StuckOnAxis(p: Problem, a: nat)
    requires p.WellFormed() && a < |p.dims|
    ensures ShortOnAxis(p, Stuck(p), a)
  {
    var e := Stuck(p);
    ShiftInRange(p, e, a, false);
    ShiftInRange(p, e, a, true);
  }

  lemma SendersOnAxis(p: Problem, e: Index, a: nat)
    requires p.WellFormed() && a < |e| == |p.dims|
    ensures |SendersUpTo(p, e, a + 1)| <= |SendersUpTo(p, e, a)| + |SenderSet(p, e, a, false)| +
              |SenderSet(p, e, a, true)|
  {
    SumBound(SendersUpTo(p, e, a), SenderSet(p, e, a, false), SenderSet(p, e, a, true));
  }

  /** Along each axis the stuck element is sent no more than it waits for, and less on an axis with a wrong extent. */
  lemma {:induction false} StuckDeficit(p: Problem, k: nat)
    requires p.WellFormed() && k <= |p.dims|
    ensures |SendersUpTo(p, Stuck(p), k)| + Wrong(p, k) <= Expected(p, Stuck(p), k)
  {
    var e := Stuck(p);
    forall a | 0 <= a < k ensures Surplus(p, e, a) <= Surplus(p, e, a + 1) {
      StuckOnAxis(p, a);
      AxisDeficit(p, e, a);
    }
    NeverFalls((a: nat) => if a <= k then Surplus(p, e, a) else Surplus(p, e, k), k);
  }

  /** How many more faces e waits for along the first k axes than it is sent, and than axes are wrong. */
  ghost function Surplus(p: Problem, e: Index, k: nat): int
    requires p.WellFormed() && k <= |e| == |p.dims|
  {
    Expected(p, e, k) - |SendersUpTo(p, e, k)| - Wrong(p, k)
  }

  lemma {:induction false} NeverFalls(f: nat -> int, k: nat)
    requires forall a | 0 <= a < k :: f(a) <= f(a + 1)
    ensures f(0) <= f(k)
  {
    if k > 0 { NeverFalls(f, k - 1); }
  }

  lemma AxisDeficit(p: Problem, e: Index, a: nat)
    requires p.WellFormed() && a < |e| == |p.dims| && ShortOnAxis(p, e, a)
    ensures Surplus(p, e, a) <= Surplus(p, e, a + 1)
  {
    SendersOnAxis(p, e, a);
  }

  /** The number of axes with a wrong extent, among the first k. */
  ghost function Wrong(p: Problem, k: nat): nat
    requires p.WellFormed() && k <= |p.dims|
  {
    if k == 0 then 0 else Wrong(p, k - 1) + if p.num[k - 1] != p.dims[k - 1] then 1 else 0
  }

  lemma {:induction false} SomeWrong(p: Problem, k: nat, a: nat)
    requires p.WellFormed() && a < k <= |p.dims| && p.num[a] != p.dims[a]
    ensures Wrong(p, k) > 0
  {
    if a < k - 1 { SomeWrong(p, k - 1, a); }
  }

  /** With a wrong extent on some axis, the stuck element is sent less than it waits for. */
  lemma StuckWaits(p: Problem)
    requires p.WellFormed() && p.num != p.dims
    ensures |SendersUpTo(p, Stuck(p), |p.dims|)| < Expected(p, Stuck(p), |p.dims|)
  {
    var a :| 0 <= a < |p.dims| && p.num[a] != p.dims[a];
    SomeWrong(p, |p.dims|, a);
    StuckDeficit(p, |p.dims|);
  }

  lemma {:induction false} ConsistentSenders(p: Problem, e: Index, k: nat)
    requires p.Consistent() && p.InRange(e) && k <= |e|
    ensures SendersUpTo(p, e, k) == NbrsUpTo(p, e, k)
  {
    if k > 0 {
      var a := k - 1;
      ConsistentSenders(p, e, a);
      assert p.num[a] == p.dims[a];
    }
  }

  /** Every element waits for exactly the faces it is sent if and only if the elements know the true extents. */
  lemma CountsMatchIffConsistent(p: Problem)
    requires p.WellFormed()
    ensures (forall e | p.InRange(e) :: Expected(p, e, |e|) == |SendersUpTo(p, e, |e|)|) <==> p.num == p.dims
  {
    if p.num == p.dims {
      forall e | p.InRange(e) ensures Expected(p, e, |e|) == |SendersUpTo(p, e, |e|)| {
        ConsistentSenders(p, e, |e|);
        ExpectedIsDegree(p, e, |e|);
      }
    } else {
      StuckWaits(p);
      assert p.InRange(Stuck(p));
    }
  }

  // ---------------------------------------------------------------- runs

  ghost function Arrived(p: Problem, s: System, e: Index): set<Index>
    requires p.WellFormed() && |e| == |p.dims|
  {
    set f | f in SendersUpTo(p, e, |e|) && f in s.started && !Flying(s.inflight, f, e)
  }

  /** e has not swept in this epoch, and has counted the faces that arrived. */
  ghost predicate Waits(p: Problem, s: System, k: nat, e: Index)
    requires p.WellFormed() && |e| == |p.dims|
  {
    && s.elems(e).iter == k && s.elems(e).totalReceive == Expected(p, e, |e|)
    && s.elems(e).msgReceived == |Arrived(p, s, e)|
    && Distinct(s.inflight)
    && forall m | m in s.inflight :: m.from in s.started && (m.to == e ==> m.from in SendersUpTo(p, e, |e|))
  }

  lemma FaceToSender(p: Problem, x: Index, told: Field, e: Index, m: Msg)
    requires p.WellFormed() && p.InRange(x) && p.InRange(e) && m in Faces(p, x, told) && m.to == e
    ensures m.from == x && x in SendersUpTo(p, e, |e|)
  {
    var a, up := FaceSide(p, x, told, m);
    assert Shift(e, a, !up) == x;
    InSenders(p, e, |e|, x);
  }

  lemma SenderSends(p: Problem, x: Index, told: Field, e: Index) returns (m: Msg)
    requires p.WellFormed() && p.InRange(x) && p.InRange(e) && x in SendersUpTo(p, e, |e|)
    ensures m in Faces(p, x, told) && m.from == x && m.to == e
  {
    InSenders(p, e, |e|, x);
    var a, up :| 0 <= a < |e| && x == Shift(e, a, up) && SentFrom(p, e, a, up);
    assert Shift(x, a, !up) == e;
    FaceSent(p, x, told, a, !up);
    m := Face(p, x, told, a, !up);
  }

  lemma StartKeepsWaiting(p: Problem, s: System, k: nat, e: Index, x: Index)
    requires p.WellFormed() && !Alone(p.num) && p.InRange(e) && Waits(p, s, k, e) && Enabled(p, s, DoIter(x))
    ensures Waits(p, Step(p, s, DoIter(x)), k, e)
  {
    var t, ms := Step(p, s, DoIter(x)), Faces(p, x, s.elems(x).told);
    StartFrame(p, s, x);
    assert forall m | m in ms :: m.from == x by {
      forall m | m in ms ensures m.from == x { var a, up := FaceSide(p, x, s.elems(x).told, m); }
    }
    FacesDistinct(p, x, s.elems(x).told);
    DistinctAppend(s.inflight, ms);
    forall m | m in t.inflight ensures m.from in t.started && (m.to == e ==> m.from in SendersUpTo(p, e, |e|)) {
      if m in ms && m.to == e { FaceToSender(p, x, s.elems(x).told, e, m); }
    }
    assert Arrived(p, t, e) == Arrived(p, s, e) by {
      forall f | f in SendersUpTo(p, e, |e|)
        ensures (f in t.started && !Flying(t.inflight, f, e)) <==> (f in s.started && !Flying(s.inflight, f, e))
      {
        if f == x {
          var m := SenderSends(p, x, s.elems(x).told, e);
          assert m in t.inflight;
        } else {
          assert forall m: Msg | m.from == f :: m in t.inflight <==> m in s.inflight;
        }
      }
    }
  }

  lemma DeliverKeepsWaiting(p: Problem, s: System, k: nat, e: Index, x: Index, y: Index)
    requires p.WellFormed() && p.InRange(e) && Waits(p, s, k, e) && Enabled(p, s, Deliver(x, y))
    requires |SendersUpTo(p, e, |e|)| < Expected(p, e, |e|)
    ensures Waits(p, Step(p, s, Deliver(x, y)), k, e)
  {
    var t, m := Step(p, s, Deliver(x, y)), s.inflight[Find(s.inflight, x, y)];
    DeliverFrame(p, s, x, y);
    assert m.from in s.started && (m.to == e ==> m.from in SendersUpTo(p, e, |e|));
    ArrivedAfterDeliver(p, s, t, e, x, y);
    if y == e {
      SenderIsNbr(p, e, x);
      ExchangeCount(p, e, s.elems(e), x, m.val);
    }
  }

  lemma ArrivedAfterDeliver(p: Problem, s: System, t: System, e: Index, x: Index, y: Index)
    requires p.WellFormed() && |e| == |p.dims| && t.started == s.started && Flying(s.inflight, x, y) && x in s.started
    requires y == e ==> x in SendersUpTo(p, e, |e|)
    requires forall v, w :: Flying(t.inflight, v, w) <==> Flying(s.inflight, v, w) && !(v == x && w == y)
    ensures |Arrived(p, t, e)| == |Arrived(p, s, e)| + (if y == e then 1 else 0)
    ensures |Arrived(p, t, e)| <= |SendersUpTo(p, e, |e|)|
  {
    assert Arrived(p, t, e) == if y == e then Arrived(p, s, e) + {x} else Arrived(p, s, e);
    SubsetCard(Arrived(p, t, e), SendersUpTo(p, e, |e|));
  }

  lemma {:induction false} RunKeepsWaiting(p: Problem, s: System, k: nat, e: Index, evs: seq<Event>)
    requires p.WellFormed() && !Alone(p.num) && p.InRange(e) && Waits(p, s, k, e) && Runnable(p, s, evs)
    requires |SendersUpTo(p, e, |e|)| < Expected(p, e, |e|)
    ensures Waits(p, Run(p, s, evs), k, e)
    decreases |evs|
  {
    if evs != [] {
      match evs[0] {
        case DoIter(x) => StartKeepsWaiting(p, s, k, e, x);
        case Deliver(x, y) => DeliverKeepsWaiting(p, s, k, e, x, y);
      }
      RunKeepsWaiting(p, Step(p, s, evs[0]), k, e, evs[1..]);
    }
  }

  /** Told any other extents, unless these are all 1, some element never sweeps, in any run of the epoch. */
  lemma WrongExtentsNeverSweep(p: Problem, s: System, k: nat, evs: seq<Event>)
    requires p.WellFormed() && p.num != p.dims && !Alone(p.num)
    requires EpochStart(p, s, k) && Runnable(p, s, evs)
    ensures Run(p, s, evs).elems(Stuck(p)).iter == k
  {
    StuckWaits(p);
    assert Arrived(p, s, Stuck(p)) == {};
    RunKeepsWaiting(p, s, k, Stuck(p), evs);
  }

  /** If the elements each believe they are alone, nothing is ever sent, however many there are. */
  lemma {:induction false} AloneNeverSends(p: Problem, s: System, evs: seq<Event>)
    requires p.WellFormed() && Alone(p.num) && s.inflight == [] && Runnable(p, s, evs)
    ensures Run(p, s, evs).inflight == []
    decreases |evs|
  {
    if evs != [] {
      AloneNeverSends(p, Step(p, s, evs[0]), evs[1..]);
    }
  }

  /** The three-dimensional solver: init copies the extent along y into the one along z. */
  function Problem3D(nx: nat, ny: nat, nz: nat, n: nat, rhs: Field): (p: Problem) {
    Problem([nx, ny, nz], [nx, ny, ny], n, rhs)
  }

  /** It counts right exactly when the grid of objects is as deep as it is wide in y. */
  lemma Counts3D(nx: nat, ny: nat, nz: nat, n: nat, rhs: Field)
    requires nx > 0 && ny > 0 && nz > 0
    ensures var p := Problem3D(nx, ny, nz, n, rhs);
            && p.WellFormed()
            && ((forall e | p.InRange(e) :: Expected(p, e, |e|) == |SendersUpTo(p, e, |e|)|) <==> nz == ny)
  {
    var p := Problem3D(nx, ny, nz, n, rhs);
    assert p.num[2] == ny && p.dims[2] == nz;
    CountsMatchIffConsistent(p);
  }
}
