/**
  The arithmetic side of the block-decomposed Jacobi solvers: cells, fields, the
  stencil, one global sweep, and the way a block of the decomposition sees the
  global grid.  Everything is stated for any number of axes; the solvers use one,
  two and three.
 */
module JacobiGrid {
  import opened Arithmetic

  /** A cell, or a collection element: one integer coordinate per axis. */
  type Index = seq<int>

  /** A value for every cell. */
  type Field = Index -> real

  /**
    dims: how many objects the collection has along each axis;
    num:  how many objects the elements believe there are along each axis;
    n:    rows per object;
    rhs:  the right-hand side, on global cells.
   */
  datatype Problem = Problem(dims: Index, num: Index, n: nat, rhs: Field) {
    predicate WellFormed() {
      && |dims| == |num| > 0
      && (forall a | 0 <= a < |dims| :: dims[a] >= 1 && num[a] >= 1)
    }

    /** The elements were told the true extents of the collection. */
    predicate Consistent() {
      WellFormed() && num == dims
    }

    /** The collection has an element with this index. */
    predicate InRange(e: Index) {
      |e| == |dims| && forall a | 0 <= a < |e| :: 0 <= e[a] < dims[a]
    }

    /** An unknown of the global linear system; the cells around carry the boundary condition. */
    predicate Interior(g: Index) {
      |g| == |dims| && forall a | 0 <= a < |g| :: 1 <= g[a] <= n * dims[a]
    }

    /** The global cell that local cell c of element e stands for. */
    function Global(e: Index, c: Index): (g: Index)
      requires |e| == |c|
    {
      seq(|c|, a requires 0 <= a < |c| => n * e[a] + c[a])
    }

    /** The element whose unknowns include global cell g. */
    function Owner(g: Index): (e: Index)
      requires n > 0
    {
      seq(|g|, a requires 0 <= a < |g| => (g[a] - 1) / n)
    }

    /** Where in its owner's block global cell g lies. */
    function Local(g: Index): (c: Index)
      requires n > 0
    {
      seq(|g|, a requires 0 <= a < |g| => (g[a] - 1) % n + 1)
    }

    /** An unknown of a block, in local coordinates. */
    predicate Inner(c: Index) {
      |c| == |dims| && forall a | 0 <= a < |c| :: 1 <= c[a] <= n
    }

    /** A cell the block stores: its unknowns and one ghost layer around them. */
    predicate InBox(c: Index) {
      |c| == |dims| && forall a | 0 <= a < |c| :: 0 <= c[a] <= n + 1
    }

    /** One row of the Jacobi iteration: the diagonal of the matrix is twice the number of axes. */
    function Relax(rhs: real, sum: real): (r: real)
      requires |dims| > 0
    {
      (1.0 / (2 * |dims|) as real) * (rhs + sum)
    }

    /** One Jacobi step of the whole system on a single array, with zero boundary. */
    ghost function Jacobi(u: Field): Field
      requires |dims| > 0
    {
      (g: Index) => if Interior(g) then Relax(rhs(g), NbrSum(u, g, |g|)) else 0.0
    }

    /** k steps. */
    ghost function JacobiPow(u: Field, k: nat): Field
      requires |dims| > 0
    {
      if k == 0 then u else Jacobi(JacobiPow(u, k - 1))
    }
  }

  /** c moved one cell along axis a. */
  function Shift(c: Index, a: nat, up: bool): (r: Index)
    requires a < |c|
  {
    c[a := if up then c[a] + 1 else c[a] - 1]
  }

  /** The sum of u over the neighbours of c along the first k axes. */
  ghost function NbrSum(u: Field, c: Index, k: nat): real
    requires k <= |c|
  {
    if k == 0 then 0.0
    else NbrSum(u, c, k - 1) + u(Shift(c, k - 1, false)) + u(Shift(c, k - 1, true))
  }

  /** The boundary condition: nothing outside the unknowns. */
  ghost predicate ZeroOutside(p: Problem, u: Field) {
    forall g :: !p.Interior(g) ==> u(g) == 0.0
  }

  /** Two fields agree on every cell the stencil reads at c. */
  ghost predicate SameAround(u: Field, c: Index, v: Field, d: Index) {
    && |c| == |d|
    && forall a, up | 0 <= a < |c| :: u(Shift(c, a, up)) == v(Shift(d, a, up))
  }

  lemma {:induction false} NbrSumCong(u: Field, c: Index, v: Field, d: Index, k: nat)
    requires k <= |c| && SameAround(u, c, v, d)
    ensures NbrSum(u, c, k) == NbrSum(v, d, k)
  {
    if k > 0 {
      NbrSumCong(u, c, v, d, k - 1);
      assert u(Shift(c, k - 1, false)) == v(Shift(d, k - 1, false));
    }
  }

  /** Moving in local coordinates is moving in global coordinates. */
  lemma GlobalShift(p: Problem, e: Index, c: Index, a: nat, up: bool)
    requires |e| == |c| && a < |c|
    ensures p.Global(e, Shift(c, a, up)) == Shift(p.Global(e, c), a, up)
  {
  }

  /** The unknowns of a block are unknowns of the global system. */
  lemma InnerIsInterior(p: Problem, e: Index, c: Index)
    requires p.InRange(e) && p.Inner(c)
    ensures p.Interior(p.Global(e, c))
  {
    forall a | 0 <= a < |c|
      ensures 1 <= p.Global(e, c)[a] <= p.n * p.dims[a]
    {
      BlockBounds(p.n, e[a], c[a], p.dims[a]);
    }
  }

  lemma BlockBounds(n: nat, e: int, c: int, m: int)
    requires 0 <= e < m && 1 <= c <= n
    ensures 1 <= n * e + c <= n * m
  {
    assert n * (e + 1) <= n * m by { MulMono(n, e + 1, m); }
    assert n * (e + 1) == n * e + n;
    assert 0 <= n * e by { MulMono(n, 0, e); }
  }

  /** Division and remainder recover the block and the local coordinate. */
  lemma BlockDigits(n: int, e: int, c: int)
    requires 1 <= c <= n
    ensures (n * e + c - 1) / n == e && (n * e + c - 1) % n == c - 1
  {
    var x := n * e + c - 1;
    assert n * (x / n) + x % n == x;
    var d := x / n - e;
    assert n * d == c - 1 - x % n by { assert n * d == n * (x / n) - n * e; }
    if d >= 1 { MulMono(n, 1, d); } else if d <= -1 { MulMono(n, d, -1); }
  }

  /** Every block owns exactly the global cells of its unknowns. */
  lemma OwnerOfGlobal(p: Problem, e: Index, c: Index)
    requires p.n > 0 && |e| == |c| && p.Inner(c)
    ensures p.Owner(p.Global(e, c)) == e && p.Local(p.Global(e, c)) == c
  {
    forall a | 0 <= a < |c|
      ensures p.Owner(p.Global(e, c))[a] == e[a] && p.Local(p.Global(e, c))[a] == c[a]
    {
      BlockDigits(p.n, e[a], c[a]);
    }
  }

  /** Every unknown of the global system is an unknown of some block. */
  lemma InteriorIsOwned(p: Problem, g: Index)
    requires p.n > 0 && p.Interior(g)
    ensures p.InRange(p.Owner(g)) && p.Inner(p.Local(g)) && p.Global(p.Owner(g), p.Local(g)) == g
  {
    forall a | 0 <= a < |g|
      ensures 0 <= p.Owner(g)[a] < p.dims[a]
      ensures 1 <= p.Local(g)[a] <= p.n
      ensures p.n * p.Owner(g)[a] + p.Local(g)[a] == g[a]
    {
      var x, m := g[a] - 1, p.dims[a];
      assert p.n * (x / p.n) + x % p.n == x;
      if x / p.n >= m { MulMono(p.n, m, x / p.n); }
      if x / p.n < 0 { MulMono(p.n, x / p.n, -1); }
    }
  }

  /** All elements of a collection with the given extents. */
  ghost function Elements(dims: Index): set<Index> {
    if dims == [] then {[]}
    else set e, x | e in Elements(dims[..|dims| - 1]) && 0 <= x < dims[|dims| - 1] :: e + [x]
  }

  lemma {:induction false} InElements(dims: Index, e: Index)
    ensures e in Elements(dims) <==> |e| == |dims| && forall a | 0 <= a < |e| :: 0 <= e[a] < dims[a]
  {
    if dims != [] {
      var n := |dims| - 1;
      if |e| == n + 1 {
        InElements(dims[..n], e[..n]);
        assert e == e[..n] + [e[n]];
        if forall a | 0 <= a < |e| :: 0 <= e[a] < dims[a] {
          assert forall a | 0 <= a < n :: 0 <= e[..n][a] < dims[..n][a];
        }
      }
      if e in Elements(dims) {
        var f, x :| f in Elements(dims[..n]) && 0 <= x < dims[n] && e == f + [x];
        InElements(dims[..n], f);
        assert f == e[..n];
      }
    }
  }

  lemma AllElements(p: Problem)
    ensures forall e :: e in Elements(p.dims) <==> p.InRange(e)
  {
    forall e ensures e in Elements(p.dims) <==> p.InRange(e) { InElements(p.dims, e); }
  }
}
