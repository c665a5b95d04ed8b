/**
  What an epoch computes.  Whatever the schedule, the elements together perform one
  sweep of the single global array, in which the elements that swept before handling
  doIter hand out their new values instead of their old ones.  Without such elements
  that is exactly one Jacobi step.
 */
module JacobiRefinement {
  import opened Arithmetic
  import opened JacobiGrid
  import opened JacobiProtocol
  import opened JacobiCounting

  /** The global array that the unknowns of all elements make up. */
  ghost function Gather(p: Problem, s: System): Field {
    (g: Index) => if p.n > 0 && p.Interior(g) then s.elems(p.Owner(g)).told(p.Local(g)) else 0.0
  }

  /** The value an element shows its neighbours for one of its cells: the new one if it was late. */
  ghost function Shown(p: Problem, u: Field, late: set<Index>, f: Index, g: Index): real
    requires p.WellFormed()
  {
    if f in late then p.Jacobi(u)(g) else u(g)
  }

  /** What element e sees of the global array if the elements in late show their new values. */
  ghost function Seen(p: Problem, u: Field, late: set<Index>, e: Index): Field
    requires p.WellFormed() && p.n > 0
  {
    (h: Index) => if p.Owner(h) != e then Shown(p, u, late, p.Owner(h), h) else u(h)
  }

  /** One sweep of the global array in which every element uses what it sees. */
  ghost function MixedSweep(p: Problem, u: Field, late: set<Index>): Field
    requires p.WellFormed() && p.n > 0
  {
    (g: Index) =>
      if p.Interior(g) then p.Relax(p.rhs(g), NbrSum(Seen(p, u, late, p.Owner(g)), g, |g|)) else 0.0
  }

  /** A ghost cell on side (a, up) that lies next to an unknown of the block. */
  predicate FaceCell(p: Problem, c: Index, a: nat, up: bool) {
    a < |c| == |p.dims| && c[a] == Ghost(p, up) && forall b | 0 <= b < |c| && b != a :: 1 <= c[b] <= p.n
  }

  // ---------------------------------------------------------------- geometry of blocks

  /** The cells next to an unknown are unknowns of the same block or lie in a face. */
  lemma MoveFromInner(p: Problem, c: Index, a: nat, up: bool)
    requires p.Inner(c) && a < |c|
    ensures p.Inner(Shift(c, a, up)) || FaceCell(p, Shift(c, a, up), a, up)
  {
    var d := Shift(c, a, up);
    assert forall b | 0 <= b < |c| && b != a :: d[b] == c[b];
    assert d[a] == if up then c[a] + 1 else c[a] - 1;
  }

  /** A face cell is an unknown of the neighbour, on its opposite side. */
  lemma GlobalAcross(p: Problem, e: Index, c: Index, a: nat, up: bool)
    requires FaceCell(p, c, a, up) && |e| == |c| && p.n > 0
    ensures var d := c[a := if up then 1 else p.n];
            p.Inner(d) && p.Global(e, c) == p.Global(Shift(e, a, up), d)
  {
    var d := c[a := if up then 1 else p.n];
    var f := Shift(e, a, up);
    assert p.n * f[a] + d[a] == p.n * e[a] + c[a] by {
      assert p.n * (e[a] + 1) == p.n * e[a] + p.n;
      assert p.n * (e[a] - 1) == p.n * e[a] - p.n;
    }
    assert forall b | 0 <= b < |c| && b != a :: d[b] == c[b] && f[b] == e[b];
    assert p.Global(e, c) == p.Global(f, d);
  }

  lemma OwnerOfFace(p: Problem, e: Index, c: Index, a: nat, up: bool)
    requires FaceCell(p, c, a, up) && |e| == |c| && p.n > 0
    ensures p.Owner(p.Global(e, c)) == Shift(e, a, up) != e
  {
    GlobalAcross(p, e, c, a, up);
    OwnerOfGlobal(p, Shift(e, a, up), c[a := if up then 1 else p.n]);
    assert Shift(e, a, up)[a] != e[a];
  }

  /** Beyond the last object there is only boundary. */
  lemma OutsideFace(p: Problem, e: Index, c: Index, a: nat, up: bool)
    requires FaceCell(p, c, a, up) && |e| == |c| && p.n > 0 && !p.InRange(Shift(e, a, up))
    ensures !p.Interior(p.Global(e, c))
  {
    if p.Interior(p.Global(e, c)) {
      InteriorIsOwned(p, p.Global(e, c));
      OwnerOfFace(p, e, c, a, up);
    }
  }

  /** An element sees its own cells as they are, and a face as its neighbour shows it. */
  lemma SeenAt(p: Problem, u: Field, late: set<Index>, e: Index, c: Index)
    requires p.WellFormed() && p.n > 0 && |e| == |p.dims|
    ensures p.Inner(c) ==> Seen(p, u, late, e)(p.Global(e, c)) == u(p.Global(e, c))
    ensures forall a, up | FaceCell(p, c, a, up) ::
              Seen(p, u, late, e)(p.Global(e, c)) ==
              Shown(p, u, late, Shift(e, a, up), p.Global(e, c))
  {
    if p.Inner(c) { OwnerOfGlobal(p, e, c); }
    forall a, up | FaceCell(p, c, a, up)
      ensures Seen(p, u, late, e)(p.Global(e, c)) ==
              Shown(p, u, late, Shift(e, a, up), p.Global(e, c))
    {
      OwnerOfFace(p, e, c, a, up);
    }
  }

  /** A block is swept as the global array is, if it agrees with what its element sees. */
  lemma SweepIsMixed(p: Problem, u: Field, late: set<Index>, e: Index, told: Field, c: Index)
    requires p.WellFormed() && p.n > 0 && p.InRange(e) && p.Inner(c)
    requires forall a, up | 0 <= a < |c| :: told(Shift(c, a, up)) == Seen(p, u, late, e)(p.Global(e, Shift(c, a, up)))
    ensures Sweep(p, e, told)(c) == MixedSweep(p, u, late)(p.Global(e, c))
  {
    var g := p.Global(e, c);
    InnerIsInterior(p, e, c);
    OwnerOfGlobal(p, e, c);
    forall a, up | 0 <= a < |c|
      ensures told(Shift(c, a, up)) == Seen(p, u, late, e)(Shift(g, a, up))
    {
      GlobalShift(p, e, c, a, up);
    }
    NbrSumCong(told, c, Seen(p, u, late, e), g, |c|);
  }

  /** Only the neighbours' lateness matters to an element. */
  lemma MixedDependsOnNbrs(p: Problem, u: Field, l0: set<Index>, l1: set<Index>, e: Index, c: Index)
    requires p.WellFormed() && p.n > 0 && p.InRange(e) && p.Inner(c)
    requires forall f | f in l0 || f in l1 :: p.InRange(f)
    requires forall f | f in Nbrs(p, e) :: f in l0 <==> f in l1
    ensures MixedSweep(p, u, l0)(p.Global(e, c)) == MixedSweep(p, u, l1)(p.Global(e, c))
  {
    var v := (d: Index) => if |d| == |e| then Seen(p, u, l0, e)(p.Global(e, d)) else 0.0;
    forall a, up | 0 <= a < |c|
      ensures v(Shift(c, a, up)) == Seen(p, u, l1, e)(p.Global(e, Shift(c, a, up)))
    {
      MoveFromInner(p, c, a, up);
      SideNbr(p, e, a, up);
      SeenAt(p, u, l0, e, Shift(c, a, up));
      SeenAt(p, u, l1, e, Shift(c, a, up));
    }
    SweepIsMixed(p, u, l0, e, v, c);
    SweepIsMixed(p, u, l1, e, v, c);
  }

  /** If nobody is late, an element sees the global array as it is. */
  lemma NoneLate(p: Problem, u: Field, g: Index)
    requires p.WellFormed() && p.n > 0
    ensures MixedSweep(p, u, {})(g) == p.Jacobi(u)(g)
  {
    var v := Seen(p, u, {}, p.Owner(g));
    forall h ensures v(h) == u(h) {
      assert p.Owner(h) != p.Owner(g) ==> v(h) == Shown(p, u, {}, p.Owner(h), h);
    }
    NbrSumCong(v, g, u, g, |g|);
  }

  /** With no late neighbour an element performs the Jacobi step. */
  lemma MixedIsJacobi(p: Problem, u: Field, late: set<Index>, e: Index, c: Index)
    requires p.WellFormed() && p.n > 0 && p.InRange(e) && p.Inner(c)
    requires forall f | f in late :: p.InRange(f) && f !in Nbrs(p, e)
    ensures MixedSweep(p, u, late)(p.Global(e, c)) == p.Jacobi(u)(p.Global(e, c))
  {
    MixedDependsOnNbrs(p, u, late, {}, e, c);
    NoneLate(p, u, p.Global(e, c));
  }

  // ---------------------------------------------------------------- what holds during an epoch

  /** The unknowns of the block are the element's part of u. */
  ghost predicate HoldsOld(p: Problem, u: Field, e: Index, told: Field)
    requires |e| == |p.dims|
  {
    forall c | p.Inner(c) :: told(c) == u(p.Global(e, c))
  }

  /** The faces from the elements in got have been filled in with what those elements show. */
  ghost predicate HoldsFaces(p: Problem, u: Field, late: set<Index>, e: Index, told: Field, got: set<Index>)
    requires p.WellFormed() && |e| == |p.dims|
  {
    forall a, up, c | FaceCell(p, c, a, up) && Shift(e, a, up) in got ::
      told(c) == Shown(p, u, late, Shift(e, a, up), p.Global(e, c))
  }

  /** The unknowns of the block are the element's part of the sweep. */
  ghost predicate HoldsNew(p: Problem, u: Field, late: set<Index>, e: Index, told: Field)
    requires p.WellFormed() && p.n > 0 && |e| == |p.dims|
  {
    forall c | p.Inner(c) :: told(c) == MixedSweep(p, u, late)(p.Global(e, c))
  }

  /** The ghost layers at the ends of the range hold the boundary condition. */
  ghost predicate HoldsBoundary(p: Problem, e: Index, told: Field)
    requires |e| == |p.dims|
  {
    forall a, up, c | 0 <= a < |e| && p.InBox(c) && c[a] == Ghost(p, up) && !p.InRange(Shift(e, a, up)) ::
      told(c) == 0.0
  }

  ghost predicate ZeroBorder(p: Problem, val: Field) {
    forall t | !InnerFace(p, t) :: val(t) == 0.0
  }

  /** A face on its way to element e carries what its sender shows. */
  ghost predicate Carries(p: Problem, u: Field, late: set<Index>, e: Index, from: Index, val: Field)
    requires p.WellFormed() && |e| == |p.dims|
  {
    forall a, up, c | FaceCell(p, c, a, up) && from == Shift(e, a, up) ::
      val(Drop(c, a)) == Shown(p, u, late, from, p.Global(e, c))
  }

  ghost predicate ElemOk(p: Problem, s: System, u: Field, k: nat, e: Index)
    requires p.WellFormed() && p.n > 0 && |e| == |p.dims|
  {
    var x := s.elems(e);
    && HoldsBoundary(p, e, x.told)
    && (x.iter == k ==> HoldsOld(p, u, e, x.told) && HoldsFaces(p, u, s.late, e, x.told, Got(p, s, e)))
    && (x.iter == k + 1 ==> HoldsNew(p, u, s.late, e, x.told))
  }

  ghost predicate PayloadOk(p: Problem, s: System, u: Field, m: Msg)
    requires p.WellFormed()
  {
    |m.to| == |p.dims| && ZeroBorder(p, m.val) && Carries(p, u, s.late, m.to, m.from, m.val)
  }

  /** Late elements have no late neighbours: all their neighbours had started. */
  ghost predicate LateOk(p: Problem, s: System, k: nat, e: Index) {
    && (s.elems(e).iter == k + 1 && e !in s.started ==> e in s.late)
    && (e in s.late ==> s.elems(e).iter == k + 1 && Nbrs(p, e) != {})
    && (e in s.late ==> forall f | f in Nbrs(p, e) :: f in s.started && f !in s.late)
  }

  ghost predicate Valued(p: Problem, s: System, u: Field, k: nat)
    requires p.WellFormed()
  {
    && p.n > 0 && ZeroOutside(p, u)
    && (forall e | e in s.late :: p.InRange(e))
    && (forall e | p.InRange(e) :: ElemOk(p, s, u, k, e) && LateOk(p, s, k, e))
    && (forall m | m in s.inflight :: PayloadOk(p, s, u, m))
  }

  ghost predicate Refined(p: Problem, s: System, u: Field, k: nat) {
    Counted(p, s, k) && Valued(p, s, u, k)
  }

  // ---------------------------------------------------------------- one block

  lemma InsertDrop(c: Index, a: nat, v: int)
    requires a < |c|
    ensures |Drop(c, a)| == |c| - 1 && Insert(Drop(c, a), a, v) == c[a := v]
  {
  }

  /** A cell of a face, as the face itself indexes it. */
  lemma FaceCellInner(p: Problem, c: Index, a: nat, up: bool)
    requires FaceCell(p, c, a, up)
    ensures InnerFace(p, Drop(c, a))
  {
    var t := Drop(c, a);
    assert forall i | 0 <= i < |t| :: t[i] == c[if i < a then i else i + 1];
  }

  /** Two sides of a block share no face cell. */
  lemma SidesApart(p: Problem, c: Index, a: nat, up: bool, b: nat, v: bool)
    requires FaceCell(p, c, a, up) && b < |c| && (a != b || up != v)
    ensures c[b] != Ghost(p, v)
  {
  }

  /** Storing a face leaves the unknowns alone. */
  lemma StoreKeepsOld(p: Problem, u: Field, e: Index, told: Field, b: nat, v: bool, val: Field)
    requires b < |e| == |p.dims| && HoldsOld(p, u, e, told)
    ensures HoldsOld(p, u, e, Store(p, told, b, v, val))
  {
  }

  /** Storing a face fills in its side and leaves the others alone. */
  lemma StoreFills(p: Problem, u: Field, late: set<Index>, e: Index, told: Field, got: set<Index>, b: nat, v: bool,
      val: Field)
    requires p.WellFormed() && b < |e| == |p.dims|
    requires HoldsFaces(p, u, late, e, told, got) && Carries(p, u, late, e, Shift(e, b, v), val)
    ensures HoldsFaces(p, u, late, e, Store(p, told, b, v, val), got + {Shift(e, b, v)})
  {
    forall a, up, c | FaceCell(p, c, a, up) && Shift(e, a, up) in got + {Shift(e, b, v)}
      ensures Store(p, told, b, v, val)(c) == Shown(p, u, late, Shift(e, a, up), p.Global(e, c))
    {
      if a != b || up != v {
        SidesApart(p, c, a, up, b, v);
        ShiftsDiffer(e, a, up, b, v);
        assert Shift(e, a, up) in got;
      }
    }
  }

  lemma ShiftsDiffer(e: Index, a: nat, up: bool, b: nat, v: bool)
    requires a < |e| && b < |e| && (a != b || up != v)
    ensures Shift(e, a, up) != Shift(e, b, v)
  {
    assert Shift(e, a, up)[a] != Shift(e, b, v)[a];
  }

  /** Storing a face keeps the boundary condition, because faces are zero on their border. */
  lemma StoreKeepsBoundary(p: Problem, e: Index, told: Field, b: nat, v: bool, val: Field)
    requires b < |e| == |p.dims| && p.InRange(Shift(e, b, v))
    requires HoldsBoundary(p, e, told) && ZeroBorder(p, val)
    ensures HoldsBoundary(p, e, Store(p, told, b, v, val))
  {
    forall a, up, c | 0 <= a < |e| && p.InBox(c) && c[a] == Ghost(p, up) && !p.InRange(Shift(e, a, up))
      ensures Store(p, told, b, v, val)(c) == 0.0
    {
      if c[b] == Ghost(p, v) {
        assert a != b;
        var t := Drop(c, b);
        assert t[if a < b then a else a - 1] == c[a];
        assert !InnerFace(p, t);
      }
    }
  }

  /** Faces on different sides may be stored in either order, and the whole block is the same. */
  lemma StoresCommute(p: Problem, told: Field, a: nat, up: bool, x: Field, b: nat, v: bool, y: Field, c: Index)
    requires a < |p.dims| && b < |p.dims| && (a != b || up != v) && p.InBox(c)
    requires ZeroBorder(p, x) && ZeroBorder(p, y)
    ensures Store(p, Store(p, told, a, up, x), b, v, y)(c) == Store(p, Store(p, told, b, v, y), a, up, x)(c)
  {
    if c[a] == Ghost(p, up) && c[b] == Ghost(p, v) {
      assert Drop(c, a)[if b < a then b else b - 1] == c[b];
      assert Drop(c, b)[if a < b then a else a - 1] == c[a];
      assert !InnerFace(p, Drop(c, a)) && !InnerFace(p, Drop(c, b));
    }
  }

  lemma SweepKeepsBoundary(p: Problem, e: Index, told: Field)
    requires p.WellFormed() && |e| == |p.dims| && HoldsBoundary(p, e, told)
    ensures HoldsBoundary(p, e, Sweep(p, e, told))
  {
    forall a, up, c | 0 <= a < |e| && p.InBox(c) && c[a] == Ghost(p, up) && !p.InRange(Shift(e, a, up))
      ensures Sweep(p, e, told)(c) == 0.0
    {
      assert !p.Inner(c);
    }
  }

  /** A block with all its faces filled in is swept as the global array is. */
  lemma FilledSweeps(p: Problem, u: Field, late: set<Index>, e: Index, told: Field)
    requires p.WellFormed() && p.n > 0 && p.InRange(e) && ZeroOutside(p, u)
    requires forall f | f in late :: p.InRange(f)
    requires HoldsOld(p, u, e, told) && HoldsFaces(p, u, late, e, told, Nbrs(p, e)) && HoldsBoundary(p, e, told)
    ensures HoldsNew(p, u, late, e, Sweep(p, e, told))
  {
    forall c | p.Inner(c)
      ensures Sweep(p, e, told)(c) == MixedSweep(p, u, late)(p.Global(e, c))
    {
      forall a, up | 0 <= a < |c|
        ensures told(Shift(c, a, up)) == Seen(p, u, late, e)(p.Global(e, Shift(c, a, up)))
      {
        FilledAround(p, u, late, e, told, c, a, up);
      }
      SweepIsMixed(p, u, late, e, told, c);
    }
  }

  lemma FilledAround(p: Problem, u: Field, late: set<Index>, e: Index, told: Field, c: Index, a: nat, up: bool)
    requires p.WellFormed() && p.n > 0 && p.InRange(e) && ZeroOutside(p, u) && p.Inner(c) && a < |c|
    requires forall f | f in late :: p.InRange(f)
    requires HoldsOld(p, u, e, told) && HoldsFaces(p, u, late, e, told, Nbrs(p, e)) && HoldsBoundary(p, e, told)
    ensures told(Shift(c, a, up)) == Seen(p, u, late, e)(p.Global(e, Shift(c, a, up)))
  {
    var d := Shift(c, a, up);
    MoveFromInner(p, c, a, up);
    SeenAt(p, u, late, e, d);
    if !p.Inner(d) {
      SideNbr(p, e, a, up);
      if !p.InRange(Shift(e, a, up)) {
        OutsideFace(p, e, d, a, up);
        assert p.InBox(d);
      }
    }
  }

  /** An element that becomes late changes nothing for an element that none of its faces reached. */
  lemma NewAfterLate(p: Problem, u: Field, l0: set<Index>, l1: set<Index>, e: Index, told: Field)
    requires p.WellFormed() && p.n > 0 && p.InRange(e) && HoldsNew(p, u, l0, e, told)
    requires forall f | f in l0 || f in l1 :: p.InRange(f)
    requires forall f | f in Nbrs(p, e) :: f in l0 <==> f in l1
    ensures HoldsNew(p, u, l1, e, told)
  {
    forall c | p.Inner(c) ensures told(c) == MixedSweep(p, u, l1)(p.Global(e, c)) {
      MixedDependsOnNbrs(p, u, l0, l1, e, c);
    }
  }

  // ---------------------------------------------------------------- doIter

  /** An element that handles doIter shows its old values, or its new ones if it has swept already. */
  lemma ShownByElem(p: Problem, s: System, u: Field, k: nat, e: Index, d: Index)
    requires Refined(p, s, u, k) && p.InRange(e) && e !in s.started && p.Inner(d)
    ensures s.elems(e).told(d) == Shown(p, u, s.late, e, p.Global(e, d))
  {
    assert CountOk(p, s, k, e) && LateOk(p, s, k, e) && ElemOk(p, s, u, k, e);
    if e in s.late {
      MixedIsJacobi(p, u, s.late, e, d);
    }
  }

  /** The faces doIter sends carry what the element shows. */
  lemma FacePayload(p: Problem, s: System, u: Field, k: nat, e: Index, m: Msg)
    requires Refined(p, s, u, k) && p.InRange(e) && e !in s.started
    requires m in Faces(p, e, s.elems(e).told)
    ensures PayloadOk(p, s, u, m)
  {
    var b, v := FaceSide(p, e, s.elems(e).told, m);
    forall a, up, c | FaceCell(p, c, a, up) && m.from == Shift(m.to, a, up)
      ensures m.val(Drop(c, a)) == Shown(p, u, s.late, m.from, p.Global(m.to, c))
    {
      assert m.to[b] != e[b];
      assert a == b && up == !v;
      FaceCellInner(p, c, a, up);
      var d := c[a := if up then 1 else p.n];
      InsertDrop(c, a, d[a]);
      GlobalAcross(p, m.to, c, a, up);
      ShownByElem(p, s, u, k, e, d);
    }
  }

  lemma StartKeepsValues(p: Problem, s: System, u: Field, k: nat, e: Index)
    requires Refined(p, s, u, k) && Enabled(p, s, DoIter(e))
    ensures Valued(p, Step(p, s, DoIter(e)), u, k)
  {
    var t := Step(p, s, DoIter(e));
    StartFrame(p, s, e);
    forall f | p.InRange(f)
      ensures ElemOk(p, t, u, k, f) && LateOk(p, t, k, f)
    {
      assert ElemOk(p, s, u, k, f) && LateOk(p, s, k, f);
      AloneHasNoNbrs(p, f);
      if !Alone(p.num) {
        GotAfterStart(p, s, e, f);
      } else if f == e {
        assert CountOk(p, s, k, e);
        SweepKeepsBoundary(p, e, s.elems(e).told);
        FilledSweeps(p, u, s.late, e, s.elems(e).told);
      }
    }
    forall m | m in t.inflight ensures PayloadOk(p, t, u, m) {
      if m in s.inflight {
        assert PayloadOk(p, s, u, m);
      } else {
        FacePayload(p, s, u, k, e, m);
      }
    }
  }

  // ---------------------------------------------------------------- delivery of a face

  lemma SweptHasAll(p: Problem, s: System, k: nat, f: Index)
    requires CountOk(p, s, k, f) && s.elems(f).iter == k + 1
    ensures forall g | g in Nbrs(p, f) :: g in s.started
  {
    SubsetCard(Got(p, s, f), Nbrs(p, f));
  }

  /** The other elements, whether or not the receiver became late. */
  lemma OthersKeepValues(p: Problem, s: System, t: System, u: Field, k: nat, y: Index, f: Index)
    requires p.WellFormed() && p.n > 0 && p.InRange(f) && p.InRange(y) && f != y
    requires ElemOk(p, s, u, k, f) && CountOk(p, s, k, f)
    requires forall e | e in s.late :: p.InRange(e)
    requires t.elems(f) == s.elems(f) && Got(p, t, f) == Got(p, s, f)
    requires t.late == s.late || (t.late == s.late + {y} && y !in s.started)
    ensures ElemOk(p, t, u, k, f)
  {
    if s.elems(f).iter == k + 1 {
      SweptHasAll(p, s, k, f);
      NewAfterLate(p, u, s.late, t.late, f, s.elems(f).told);
    } else if s.elems(f).iter == k {
      FacesAfterLate(p, u, s.late, t.late, f, s.elems(f).told, Got(p, s, f));
    }
  }

  lemma FacesAfterLate(p: Problem, u: Field, l0: set<Index>, l1: set<Index>, e: Index, told: Field, got: set<Index>)
    requires p.WellFormed() && |e| == |p.dims| && HoldsFaces(p, u, l0, e, told, got)
    requires forall f | f in got :: f in l0 <==> f in l1
    ensures HoldsFaces(p, u, l1, e, told, got)
  {
  }

  /** The block of a receiver just after the face has been stored. */
  lemma StoredFace(p: Problem, s: System, u: Field, k: nat, m: Msg, b: nat, v: bool)
    requires p.WellFormed() && p.n > 0 && p.InRange(m.to) && p.InRange(m.from)
    requires ElemOk(p, s, u, k, m.to) && PayloadOk(p, s, u, m) && s.elems(m.to).iter == k
    requires b < |m.to| && m.from == Shift(m.to, b, v)
    ensures var told := Store(p, s.elems(m.to).told, b, v, m.val);
            && HoldsOld(p, u, m.to, told) && HoldsBoundary(p, m.to, told)
            && HoldsFaces(p, u, s.late, m.to, told, Got(p, s, m.to) + {m.from})
  {
    var told := s.elems(m.to).told;
    StoreKeepsOld(p, u, m.to, told, b, v, m.val);
    StoreKeepsBoundary(p, m.to, told, b, v, m.val);
    StoreFills(p, u, s.late, m.to, told, Got(p, s, m.to), b, v, m.val);
  }

  /** A receiver that still waits for other faces. */
  lemma WaitingReceiver(p: Problem, s: System, t: System, u: Field, k: nat, m: Msg, b: nat, v: bool)
    requires p.WellFormed() && p.n > 0 && p.InRange(m.to) && p.InRange(m.from)
    requires ElemOk(p, s, u, k, m.to) && PayloadOk(p, s, u, m) && s.elems(m.to).iter == k == t.elems(m.to).iter
    requires b < |m.to| && m.from == Shift(m.to, b, v)
    requires t.late == s.late && Got(p, t, m.to) == Got(p, s, m.to) + {m.from}
    requires t.elems(m.to).told == Store(p, s.elems(m.to).told, b, v, m.val)
    ensures ElemOk(p, t, u, k, m.to)
  {
    StoredFace(p, s, u, k, m, b, v);
  }

  /** A receiver whose last face this was. */
  lemma SweepingReceiver(p: Problem, s: System, t: System, u: Field, k: nat, m: Msg, b: nat, v: bool)
    requires p.WellFormed() && p.n > 0 && p.InRange(m.to) && p.InRange(m.from) && ZeroOutside(p, u)
    requires forall f | f in s.late :: p.InRange(f)
    requires ElemOk(p, s, u, k, m.to) && PayloadOk(p, s, u, m) && s.elems(m.to).iter == k && t.elems(m.to).iter == k + 1
    requires b < |m.to| && m.from == Shift(m.to, b, v)
    requires t.late == s.late || t.late == s.late + {m.to}
    requires Got(p, s, m.to) + {m.from} == Nbrs(p, m.to)
    requires t.elems(m.to).told == Sweep(p, m.to, Store(p, s.elems(m.to).told, b, v, m.val))
    ensures ElemOk(p, t, u, k, m.to)
  {
    var e, told := m.to, Store(p, s.elems(m.to).told, b, v, m.val);
    StoredFace(p, s, u, k, m, b, v);
    SweepKeepsBoundary(p, e, told);
    FilledSweeps(p, u, s.late, e, told);
    assert forall f | f in Nbrs(p, e) :: f != e by {
      forall f | f in Nbrs(p, e) ensures f != e { var a, up := NbrSide(p, e, f); }
    }
    NewAfterLate(p, u, s.late, t.late, e, Sweep(p, e, told));
  }

  /** Of two neighbours, the one that sweeps before its doIter needs the other's, so they are not both late. */
  lemma DeliverKeepsLate(p: Problem, s: System, t: System, k: nat, y: Index, f: Index)
    requires p.InRange(f) && p.InRange(y)
    requires LateOk(p, s, k, f) && forall e | e in Nbrs(p, y) && p.InRange(e) :: LateOk(p, s, k, e)
    requires t.started == s.started && CountOk(p, t, k, y) && CountOk(p, s, k, y)
    requires f != y ==> t.elems(f) == s.elems(f)
    requires s.elems(y).iter == k && Nbrs(p, y) != {}
    requires t.late == if t.elems(y).iter != k && y !in s.started then s.late + {y} else s.late
    ensures LateOk(p, t, k, f)
  {
    if y in t.late && y !in s.late {
      SweptHasAll(p, t, k, y);
      if f == y {
        forall g | g in Nbrs(p, y) ensures g !in t.late {
          NbrsSymmetric(p, y, g);
        }
      }
    }
  }

  /** What handling a face from side (b, v) makes of the block. */
  lemma ExchangeTold(p: Problem, e: Index, z: Elem, b: nat, v: bool, val: Field)
    requires p.WellFormed() && b < |e| == |p.dims|
    ensures var told := Store(p, z.told, b, v, val);
            Exchange(p, e, z, Shift(e, b, v), val).told ==
            if z.msgReceived + 1 == z.totalReceive then Sweep(p, e, told) else told
  {
    assert Shift(e, b, v)[b] != e[b];
    assert FirstDiff(e, Shift(e, b, v), 0) == b;
  }

  /** The receiver was still waiting for this face, and sweeps exactly if it was the last. */
  lemma ReceiverWaited(p: Problem, s: System, k: nat, x: Index, y: Index)
    requires Counted(p, s, k) && Enabled(p, s, Deliver(x, y))
    ensures var t, z := Step(p, s, Deliver(x, y)), s.elems(y);
            && z.iter == k && x in Nbrs(p, y)
            && Got(p, t, y) == Got(p, s, y) + {x}
            && t.elems(y).iter == (if z.msgReceived + 1 == z.totalReceive then k + 1 else k)
            && (z.msgReceived + 1 == z.totalReceive ==> Got(p, s, y) + {x} == Nbrs(p, y))
            && t.late == if t.elems(y).iter != k && y !in s.started then s.late + {y} else s.late
  {
    var t, m := Step(p, s, Deliver(x, y)), s.inflight[Find(s.inflight, x, y)];
    DeliverFrame(p, s, x, y);
    assert MsgOk(p, s, m) && CountOk(p, s, k, y);
    GotAfterDeliver(p, s, t, x, y, y);
    StillWaiting(p, s, k, x, y);
    ExchangeCount(p, y, s.elems(y), x, m.val);
  }

  lemma ReceiverKeepsValues(p: Problem, s: System, t: System, u: Field, k: nat, m: Msg)
    requires p.WellFormed() && p.n > 0 && p.InRange(m.to) && p.InRange(m.from) && ZeroOutside(p, u)
    requires forall f | f in s.late :: p.InRange(f)
    requires ElemOk(p, s, u, k, m.to) && PayloadOk(p, s, u, m) && m.from in Nbrs(p, m.to)
    requires s.elems(m.to).iter == k && t.elems(m.to) == Exchange(p, m.to, s.elems(m.to), m.from, m.val)
    requires Got(p, t, m.to) == Got(p, s, m.to) + {m.from}
    requires t.late == s.late || t.late == s.late + {m.to}
    requires if s.elems(m.to).msgReceived + 1 == s.elems(m.to).totalReceive
             then t.elems(m.to).iter == k + 1 && Got(p, s, m.to) + {m.from} == Nbrs(p, m.to)
             else t.elems(m.to).iter == k && t.late == s.late
    ensures ElemOk(p, t, u, k, m.to)
  {
    var b, v := NbrSide(p, m.to, m.from);
    ExchangeTold(p, m.to, s.elems(m.to), b, v, m.val);
    if t.elems(m.to).iter == k + 1 {
      SweepingReceiver(p, s, t, u, k, m, b, v);
    } else {
      WaitingReceiver(p, s, t, u, k, m, b, v);
    }
  }

  lemma DeliverKeepsValues(p: Problem, s: System, u: Field, k: nat, x: Index, y: Index)
    requires Refined(p, s, u, k) && Enabled(p, s, Deliver(x, y))
    requires Counted(p, Step(p, s, Deliver(x, y)), k)
    ensures Valued(p, Step(p, s, Deliver(x, y)), u, k)
  {
    var t, m := Step(p, s, Deliver(x, y)), s.inflight[Find(s.inflight, x, y)];
    DeliverFrame(p, s, x, y);
    ReceiverWaited(p, s, k, x, y);
    assert MsgOk(p, s, m) && PayloadOk(p, s, u, m) && ElemOk(p, s, u, k, y);
    ReceiverKeepsValues(p, s, t, u, k, m);
    forall f | p.InRange(f)
      ensures ElemOk(p, t, u, k, f) && LateOk(p, t, k, f)
    {
      assert CountOk(p, s, k, f) && CountOk(p, t, k, y) && CountOk(p, s, k, y);
      DeliverKeepsLate(p, s, t, k, y, f);
      if f != y {
        GotAfterDeliver(p, s, t, x, y, f);
        OthersKeepValues(p, s, t, u, k, y, f);
      }
    }
    forall m | m in t.inflight ensures PayloadOk(p, t, u, m) {
      assert PayloadOk(p, s, u, m) && MsgOk(p, s, m);
      PayloadAfterLate(p, s, t, u, m);
    }
  }

  lemma PayloadAfterLate(p: Problem, s: System, t: System, u: Field, m: Msg)
    requires p.WellFormed() && PayloadOk(p, s, u, m)
    requires m.from in s.late <==> m.from in t.late
    ensures PayloadOk(p, t, u, m)
  {
  }
}
