/**
  The stopping criterion: the reduced norm is the norm of the global array, and it never
  grows.
 */
module JacobiNorm {
  import opened JacobiGrid
  import opened JacobiProtocol
  import opened JacobiRefinement
  import opened JacobiEpochs

  function Abs(x: real): (r: real) { if x < 0.0 then -x else x }

  /** m bounds the unknowns of the global array. */
  ghost predicate Bounded(p: Problem, u: Field, m: real) {
    forall g | p.Interior(g) :: Abs(u(g)) <= m
  }

  /** m is the max norm of the unknowns; a max over no unknowns is 0. */
  ghost predicate IsNorm(p: Problem, u: Field, m: real) {
    m >= 0.0 && Bounded(p, u, m) && (m == 0.0 || exists g :: p.Interior(g) && Abs(u(g)) == m)
  }

  /** m is the max norm of one block, as doIteration computes it. */
  ghost predicate IsBlockNorm(p: Problem, told: Field, m: real) {
    && m >= 0.0
    && (forall c | p.Inner(c) :: Abs(told(c)) <= m)
    && (m == 0.0 || exists c :: p.Inner(c) && Abs(told(c)) == m)
  }

  /** m is the result of the max reduction over the collection. */
  ghost predicate IsReduced(p: Problem, norms: Index -> real, m: real) {
    && (forall e | p.InRange(e) :: norms(e) <= m)
    && (exists e :: p.InRange(e) && norms(e) == m)
  }

  /** The reduction of the block norms is the norm of the global array. */
  lemma ReducedIsNorm(p: Problem, s: System, norms: Index -> real, m: real)
    requires p.WellFormed() && p.n > 0 && IsReduced(p, norms, m)
    requires forall e | p.InRange(e) :: IsBlockNorm(p, s.elems(e).told, norms(e))
    ensures IsNorm(p, Gather(p, s), m)
  {
    var u := Gather(p, s);
    forall g | p.Interior(g) ensures Abs(u(g)) <= m {
      InteriorIsOwned(p, g);
      assert IsBlockNorm(p, s.elems(p.Owner(g)).told, norms(p.Owner(g)));
    }
    var e :| p.InRange(e) && norms(e) == m;
    assert IsBlockNorm(p, s.elems(e).told, m);
    if m != 0.0 {
      var c :| p.Inner(c) && Abs(s.elems(e).told(c)) == m;
      GatherAt(p, s, e, c);
      InnerIsInterior(p, e, c);
      assert Abs(u(p.Global(e, c))) == m;
    }
  }

  /** m for each of the 2k neighbours along k axes. */
  ghost function Twice(k: nat, m: real): real {
    if k == 0 then 0.0 else Twice(k - 1, m) + m + m
  }

  lemma {:induction false} TwiceIsProduct(k: nat, m: real)
    ensures Twice(k, m) == m * (2 * k) as real
  {
    if k > 0 {
      TwiceIsProduct(k - 1, m);
      var d := (2 * (k - 1)) as real;
      assert (2 * k) as real == d + 2.0;
      assert m * (d + 2.0) == m * d + m * 2.0;
    }
  }

  lemma {:induction false} NbrSumBound(u: Field, c: Index, k: nat, m: real)
    requires k <= |c| && forall a, up | 0 <= a < |c| :: Abs(u(Shift(c, a, up))) <= m
    ensures -Twice(k, m) <= NbrSum(u, c, k) <= Twice(k, m)
  {
    if k > 0 {
      NbrSumBound(u, c, k - 1, m);
      assert Abs(u(Shift(c, k - 1, false))) <= m && Abs(u(Shift(c, k - 1, true))) <= m;
    }
  }

  /** The stencil averages: its value is no larger than the values around it. */
  lemma StencilBound(p: Problem, u: Field, g: Index, m: real)
    requires p.WellFormed() && |g| == |p.dims| && p.rhs(g) == 0.0
    requires forall a, up | 0 <= a < |g| :: Abs(u(Shift(g, a, up))) <= m
    ensures Abs(p.Relax(p.rhs(g), NbrSum(u, g, |g|))) <= m
  {
    NbrSumBound(u, g, |g|, m);
    RelaxBound(p, p.rhs(g), NbrSum(u, g, |g|), m);
  }

  lemma RelaxBound(p: Problem, r: real, x: real, m: real)
    requires |p.dims| > 0 && -Twice(|p.dims|, m) <= x <= Twice(|p.dims|, m) && r == 0.0
    ensures Abs(p.Relax(r, x)) <= m
  {
    var d := (2 * |p.dims|) as real;
    TwiceIsProduct(|p.dims|, m);
    ScaleBound(d, x, m, 1.0 / d, r);
  }

  lemma ScaleBound(d: real, x: real, m: real, w: real, r: real)
    requires d > 0.0 && -(m * d) <= x <= m * d && w == 1.0 / d && r == 0.0
    ensures Abs(w * (r + x)) <= m
  {
    var q := w * x;
    assert q * d == x by { assert w * d == 1.0; }
    if q > m { MulLess(m, q, d); }
    if q < -m { MulLess(q, -m, d); }
  }

  lemma MulLess(x: real, y: real, d: real)
    requires x < y && d > 0.0
    ensures x * d < y * d
  {
  }

  lemma JacobiBound(p: Problem, u: Field, m: real)
    requires p.WellFormed() && (forall g :: p.rhs(g) == 0.0) && (forall g :: Abs(u(g)) <= m)
    ensures forall g :: Abs(p.Jacobi(u)(g)) <= m
  {
    forall g ensures Abs(p.Jacobi(u)(g)) <= m {
      if p.Interior(g) {
        StencilBound(p, u, g, m);
        assert p.Jacobi(u)(g) == p.Relax(p.rhs(g), NbrSum(u, g, |g|));
      } else {
        assert 0.0 <= Abs(u(g)) <= m;
      }
    }
  }

  /** A sweep does not grow, whoever was late. */
  lemma MixedBound(p: Problem, u: Field, late: set<Index>, m: real)
    requires p.WellFormed() && p.n > 0 && (forall g :: p.rhs(g) == 0.0) && (forall g :: Abs(u(g)) <= m)
    ensures forall g :: Abs(MixedSweep(p, u, late)(g)) <= m
  {
    JacobiBound(p, u, m);
    forall g ensures Abs(MixedSweep(p, u, late)(g)) <= m {
      if p.Interior(g) {
        var v := Seen(p, u, late, p.Owner(g));
        forall h ensures Abs(v(h)) <= m {
          assert Abs(u(h)) <= m && Abs(p.Jacobi(u)(h)) <= m;
          assert p.Owner(h) != p.Owner(g) ==> v(h) == Shown(p, u, late, p.Owner(h), h);
        }
        StencilBound(p, v, g, m);
        assert MixedSweep(p, u, late)(g) == p.Relax(p.rhs(g), NbrSum(v, g, |g|));
      } else {
        assert 0.0 <= Abs(u(g)) <= m;
      }
    }
  }

  /** From one epoch to the next the norm never grows, under every schedule. */
  lemma NormNeverGrows(p: Problem, s: System, k: nat, evs: seq<Event>, m: real, m': real)
    requires Between(p, s, k) && Runnable(p, s, evs) && Quiescent(p, Run(p, s, evs))
    requires forall g :: p.rhs(g) == 0.0
    requires IsNorm(p, Gather(p, s), m) && IsNorm(p, Gather(p, Run(p, s, evs)), m')
    ensures m' <= m
  {
    var u, t := Gather(p, s), Run(p, s, evs);
    EpochComputes(p, s, k, evs);
    forall g ensures Abs(u(g)) <= m { }
    MixedBound(p, u, t.late, m);
    if m' != 0.0 {
      var g :| p.Interior(g) && Abs(Gather(p, t)(g)) == m';
      assert Gather(p, t)(g) == MixedSweep(p, u, t.late)(g);
    }
  }
}
