/**
  The message protocol of the Jacobi solvers.  An epoch broadcasts doIter to every
  element; an element answers by sending its faces to its neighbours, and sweeps when
  the last face it waits for has arrived.  Handlers are atomic, every message is
  delivered once, in any order, and the epoch ends when nothing is left to handle.
 */
module JacobiProtocol {
  import opened JacobiGrid

  /** The state of one collection element. */
  datatype Elem = Elem(told: Field, msgReceived: nat, totalReceive: nat, iter: nat)

  /** A face on its way; val is indexed by the coordinates along the face. */
  datatype Msg = Msg(from: Index, to: Index, val: Field)

  /**
    One epoch in progress.  inflight is a bag: a message may be taken from any position.
    started: the elements that have handled this epoch's doIter.
    late:    history, the elements that swept before they had handled doIter.
   */
  datatype System = System(elems: Index -> Elem, inflight: seq<Msg>, started: set<Index>, late: set<Index>)

  datatype Event = DoIter(e: Index) | Deliver(from: Index, to: Index)

  // ---------------------------------------------------------------- one element

  function Drop(c: Index, a: nat): (t: Index)
    requires a < |c|
  {
    c[..a] + c[a + 1..]
  }

  function Insert(t: Index, a: nat, v: int): (c: Index)
    requires a <= |t|
  {
    t[..a] + [v] + t[a..]
  }

  /** Coordinates along a face, away from the face's own border. */
  predicate InnerFace(p: Problem, t: Index) {
    |t| + 1 == |p.dims| && forall i | 0 <= i < |t| :: 1 <= t[i] <= p.n
  }

  /** The layer of unknowns next to the neighbour on the given side, zero on the border. */
  ghost function Pack(p: Problem, told: Field, a: nat, up: bool): Field
    requires a < |p.dims|
  {
    (t: Index) => if InnerFace(p, t) then told(Insert(t, a, if up then p.n else 1)) else 0.0
  }

  /** The ghost layer coordinate on a side. */
  function Ghost(p: Problem, up: bool): (r: int) { if up then p.n + 1 else 0 }

  /** A received face overwrites the whole ghost layer of its side. */
  ghost function Store(p: Problem, told: Field, a: nat, up: bool, val: Field): Field {
    (c: Index) => if a < |c| && c[a] == Ghost(p, up) then val(Drop(c, a)) else told(c)
  }

  /** The first axis, from a on, on which two indices differ. */
  function FirstDiff(me: Index, from: Index, a: nat): (r: nat)
    requires |me| == |from| && a <= |me|
    ensures a <= r <= |me|
    ensures forall i | a <= i < r :: me[i] == from[i]
    ensures r < |me| ==> me[r] != from[r]
    decreases |me| - a
  {
    if a == |me| || me[a] != from[a] then a else FirstDiff(me, from, a + 1)
  }

  /** The stencil on every unknown of the block; ghost cells are kept. */
  ghost function Sweep(p: Problem, e: Index, told: Field): Field
    requires |p.dims| > 0 && |e| == |p.dims|
  {
    (c: Index) => if p.Inner(c) then p.Relax(p.rhs(p.Global(e, c)), NbrSum(told, c, |c|)) else told(c)
  }

  ghost function DoIteration(p: Problem, e: Index, x: Elem): Elem
    requires |p.dims| > 0 && |e| == |p.dims|
  {
    x.(told := Sweep(p, e, x.told), iter := x.iter + 1)
  }

  /** The ghost layer is filled on the side of the first axis on which sender and receiver differ. */
  ghost function Receive(p: Problem, e: Index, x: Elem, from: Index, val: Field): Elem
    requires |e| == |from|
  {
    var a := FirstDiff(e, from, 0);
    if a == |e| then x
    else x.(told := Store(p, x.told, a, e[a] < from[a], val), msgReceived := x.msgReceived + 1)
  }

  ghost function Exchange(p: Problem, e: Index, x: Elem, from: Index, val: Field): Elem
    requires |p.dims| > 0 && |e| == |from| == |p.dims|
  {
    var y := Receive(p, e, x, from, val);
    if y.msgReceived == y.totalReceive then DoIteration(p, e, y.(msgReceived := 0)) else y
  }

  /** The guard of the single-object case. */
  predicate Alone(num: Index) { forall a | 0 <= a < |num| :: num[a] <= 1 }

  /** The element expects to send a face to, and receive one from, this side. */
  predicate Sends(p: Problem, e: Index, a: nat, up: bool)
    requires a < |e| == |p.num|
  {
    if up then e[a] < p.num[a] - 1 else e[a] > 0
  }

  ghost function SideMsg(p: Problem, e: Index, told: Field, a: nat, up: bool): seq<Msg>
    requires a < |e| == |p.num| == |p.dims|
  {
    if Sends(p, e, a, up) then [Msg(e, Shift(e, a, up), Pack(p, told, a, up))] else []
  }

  /** The faces sent to the lower, or to the upper, neighbours along the first k axes. */
  ghost function SideFaces(p: Problem, e: Index, told: Field, up: bool, k: nat): seq<Msg>
    requires k <= |e| == |p.num| == |p.dims|
  {
    if k == 0 then [] else SideFaces(p, e, told, up, k - 1) + SideMsg(p, e, told, k - 1, up)
  }

  /** What doIter sends: to all lower neighbours, then to all upper ones. */
  ghost function Faces(p: Problem, e: Index, told: Field): seq<Msg>
    requires |e| == |p.num| == |p.dims|
  {
    SideFaces(p, e, told, false, |e|) + SideFaces(p, e, told, true, |e|)
  }

  /** totalReceive as init computes it: two per axis, minus one for each end of the range. */
  function Expected(p: Problem, e: Index, k: nat): (r: nat)
    requires k <= |e| == |p.num|
  {
    if k == 0 then 0
    else Expected(p, e, k - 1) + (if e[k - 1] == 0 then 0 else 1) + (if p.num[k - 1] == e[k - 1] + 1 then 0 else 1)
  }

  // ---------------------------------------------------------------- the collection

  /** A face from x to y is in flight. */
  ghost predicate Flying(ms: seq<Msg>, x: Index, y: Index) {
    exists m :: m in ms && m.from == x && m.to == y
  }

  ghost predicate Enabled(p: Problem, s: System, ev: Event) {
    match ev
    case DoIter(e) => p.InRange(e) && e !in s.started
    case Deliver(x, y) => p.InRange(x) && p.InRange(y) && Flying(s.inflight, x, y)
  }

  ghost function Find(ms: seq<Msg>, x: Index, y: Index): (i: nat)
    requires Flying(ms, x, y)
    ensures i < |ms| && ms[i].from == x && ms[i].to == y
  {
    var m :| m in ms && m.from == x && m.to == y;
    var i :| 0 <= i < |ms| && ms[i] == m;
    i
  }

  ghost function Update(f: Index -> Elem, e: Index, x: Elem): Index -> Elem {
    (i: Index) => if i == e then x else f(i)
  }

  ghost function Step(p: Problem, s: System, ev: Event): System
    requires p.WellFormed() && Enabled(p, s, ev)
  {
    match ev
    case DoIter(e) =>
      if Alone(p.num) then
        s.(started := s.started + {e}, elems := Update(s.elems, e, DoIteration(p, e, s.elems(e))))
      else
        s.(started := s.started + {e}, inflight := s.inflight + Faces(p, e, s.elems(e).told))
    case Deliver(x, y) =>
      var i := Find(s.inflight, x, y);
      var z := Exchange(p, y, s.elems(y), x, s.inflight[i].val);
      System(Update(s.elems, y, z), s.inflight[..i] + s.inflight[i + 1..], s.started,
             if z.iter != s.elems(y).iter && y !in s.started then s.late + {y} else s.late)
  }

  /** A schedule is a sequence of events each of which is possible when its turn comes. */
  ghost predicate Runnable(p: Problem, s: System, evs: seq<Event>)
    requires p.WellFormed()
    decreases |evs|
  {
    evs == [] || (Enabled(p, s, evs[0]) && Runnable(p, Step(p, s, evs[0]), evs[1..]))
  }

  ghost function Run(p: Problem, s: System, evs: seq<Event>): System
    requires p.WellFormed() && Runnable(p, s, evs)
    decreases |evs|
  {
    if evs == [] then s else Run(p, Step(p, s, evs[0]), evs[1..])
  }

  /** The epoch is over: every doIter and every face has been handled. */
  ghost predicate Quiescent(p: Problem, s: System) {
    s.inflight == [] && forall e | p.InRange(e) :: e in s.started
  }

  /** The start of an epoch whose elements have iterated k times. */
  ghost predicate EpochStart(p: Problem, s: System, k: nat) {
    && s.inflight == [] && s.started == {} && s.late == {}
    && forall e | p.InRange(e) ::
         && s.elems(e).msgReceived == 0 && s.elems(e).iter == k
         && |e| == |p.num| && s.elems(e).totalReceive == Expected(p, e, |e|)
  }

  // ---------------------------------------------------------------- neighbours

  /** The elements of the collection next to e along the first k axes. */
  ghost function NbrsUpTo(p: Problem, e: Index, k: nat): set<Index>
    requires k <= |e|
  {
    if k == 0 then {}
    else NbrsUpTo(p, e, k - 1) + SideSet(p, e, k - 1, false) + SideSet(p, e, k - 1, true)
  }

  ghost function SideSet(p: Problem, e: Index, a: nat, up: bool): set<Index>
    requires a < |e|
  {
    if p.InRange(Shift(e, a, up)) then {Shift(e, a, up)} else {}
  }

  ghost function Nbrs(p: Problem, e: Index): set<Index> { NbrsUpTo(p, e, |e|) }

  lemma {:induction false} InNbrsUpTo(p: Problem, e: Index, k: nat, f: Index)
    requires k <= |e|
    ensures f in NbrsUpTo(p, e, k) <==> p.InRange(f) && exists a, up | 0 <= a < k :: f == Shift(e, a, up)
  {
    if k > 0 { InNbrsUpTo(p, e, k - 1, f); }
  }

  /** f is the neighbour of e on side (a, up). */
  lemma NbrSide(p: Problem, e: Index, f: Index) returns (a: nat, up: bool)
    requires f in Nbrs(p, e)
    ensures a < |e| && p.InRange(f) && f == Shift(e, a, up) && e == Shift(f, a, !up)
    ensures FirstDiff(e, f, 0) == a && (e[a] < f[a]) == up
  {
    InNbrsUpTo(p, e, |e|, f);
    a, up :| 0 <= a < |e| && f == Shift(e, a, up);
    assert e[a] != f[a];
    assert e == Shift(f, a, !up);
  }

  lemma SideNbr(p: Problem, e: Index, a: nat, up: bool)
    requires a < |e|
    ensures Shift(e, a, up) in Nbrs(p, e) <==> p.InRange(Shift(e, a, up))
  {
    InNbrsUpTo(p, e, |e|, Shift(e, a, up));
  }

  lemma NbrsSymmetric(p: Problem, e: Index, f: Index)
    requires p.InRange(e) && f in Nbrs(p, e)
    ensures e in Nbrs(p, f) && p.InRange(f) && e != f
  {
    var a, up := NbrSide(p, e, f);
    SideNbr(p, f, a, !up);
  }

  /** A neighbour along axis a is not a neighbour along an earlier axis. */
  lemma NewNbr(p: Problem, e: Index, a: nat, up: bool)
    requires a < |e|
    ensures Shift(e, a, up) !in NbrsUpTo(p, e, a)
  {
    var f := Shift(e, a, up);
    InNbrsUpTo(p, e, a, f);
    assert forall b, v | 0 <= b < a :: Shift(e, b, v)[a] == e[a] != f[a];
  }

  lemma ShiftInRange(p: Problem, e: Index, a: nat, up: bool)
    requires p.InRange(e) && a < |e|
    ensures p.InRange(Shift(e, a, up)) <==> (if up then e[a] + 1 < p.dims[a] else e[a] > 0)
  {
    var f := Shift(e, a, up);
    assert f[a] == if up then e[a] + 1 else e[a] - 1;
    assert forall b | 0 <= b < |e| && b != a :: f[b] == e[b];
  }

  /** One neighbour per axis and side that is not the end of the range. */
  lemma SideCount(p: Problem, e: Index, a: nat, up: bool)
    requires p.InRange(e) && a < |e|
    ensures |SideSet(p, e, a, up)| == if (if up then e[a] + 1 < p.dims[a] else e[a] > 0) then 1 else 0
    ensures NbrsUpTo(p, e, a) !! SideSet(p, e, a, up)
    ensures SideSet(p, e, a, up) !! SideSet(p, e, a, !up)
  {
    ShiftInRange(p, e, a, up);
    NewNbr(p, e, a, up);
    assert Shift(e, a, up)[a] != Shift(e, a, !up)[a];
  }

  lemma DisjointSum<T>(x: set<T>, y: set<T>, z: set<T>)
    requires x !! y && x !! z && y !! z
    ensures |x + y + z| == |x| + |y| + |z|
  {
    assert |x + y| == |x| + |y|;
    assert (x + y) !! z;
  }

  lemma NbrsOnAxis(p: Problem, e: Index, a: nat)
    requires p.InRange(e) && a < |e|
    ensures |NbrsUpTo(p, e, a + 1)| ==
              |NbrsUpTo(p, e, a)| + (if e[a] > 0 then 1 else 0) + (if e[a] + 1 < p.dims[a] then 1 else 0)
  {
    SideCount(p, e, a, false);
    SideCount(p, e, a, true);
    DisjointSum(NbrsUpTo(p, e, a), SideSet(p, e, a, false), SideSet(p, e, a, true));
  }

  /** What init tells an element to wait for is the number of its neighbours. */
  lemma {:induction false} ExpectedIsDegree(p: Problem, e: Index, k: nat)
    requires p.Consistent() && p.InRange(e) && k <= |e|
    ensures Expected(p, e, k) == |NbrsUpTo(p, e, k)|
  {
    if k > 0 {
      var a := k - 1;
      ExpectedIsDegree(p, e, a);
      assert p.num[a] == p.dims[a] && 0 <= e[a] < p.dims[a];
      assert Expected(p, e, k) ==
               Expected(p, e, a) + (if e[a] > 0 then 1 else 0) + (if e[a] + 1 < p.dims[a] then 1 else 0);
      NbrsOnAxis(p, e, a);
    }
  }
}
