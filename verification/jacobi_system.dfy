/**
  The linear system that the solvers relax: the diagonal is twice the number of axes, each
  neighbouring cell has the coefficient -1, and the cells around the unknowns are zero.
 */
module JacobiSystem {
  import opened JacobiGrid

  /** Cells that differ by one on one axis. */
  ghost predicate Adjacent(g: Index, h: Index) {
    |g| == |h| && exists a | 0 <= a < |g| :: AdjacentOn(g, h, a)
  }

  ghost predicate AdjacentOn(g: Index, h: Index, a: nat)
    requires |g| == |h| && a < |g|
  {
    (h[a] == g[a] + 1 || h[a] == g[a] - 1) && forall b | 0 <= b < |g| && b != a :: h[b] == g[b]
  }

  ghost predicate NoRepeats(hs: seq<Index>) { forall i, j | 0 <= i < j < |hs| :: hs[i] != hs[j] }

  /** A list of the cells around g, each once, in any order. */
  ghost predicate Around(g: Index, hs: seq<Index>) {
    NoRepeats(hs) && forall h :: h in hs <==> Adjacent(g, h)
  }

  ghost function SumOf(u: Field, hs: seq<Index>): real {
    if hs == [] then 0.0 else SumOf(u, hs[..|hs| - 1]) + u(hs[|hs| - 1])
  }

  /** The equation of unknown g, with hs the cells around it. */
  ghost predicate RowHolds(p: Problem, u: Field, g: Index, hs: seq<Index>) {
    (2 * |p.dims|) as real * u(g) - SumOf(u, hs) == p.rhs(g)
  }

  /** Every unknown's equation holds. */
  ghost predicate Solves(p: Problem, u: Field) {
    forall g, hs | p.Interior(g) && Around(g, hs) :: RowHolds(p, u, g, hs)
  }

  // ---------------------------------------------------------------- sums over lists without repeats

  lemma SumOfMore(u: Field, hs: seq<Index>, h: Index)
    ensures SumOf(u, hs + [h]) == SumOf(u, hs) + u(h)
  {
    assert (hs + [h])[..|hs|] == hs;
  }

  /** A member of a list can be taken out. */
  lemma {:induction false} SumOfSplit(u: Field, hs: seq<Index>, i: nat)
    requires i < |hs|
    ensures SumOf(u, hs) == SumOf(u, hs[..i] + hs[i + 1..]) + u(hs[i])
    decreases |hs|
  {
    var n := |hs| - 1;
    if i == n {
      assert hs[..i] + hs[i + 1..] == hs[..n];
    } else {
      SumOfSplit(u, hs[..n], i);
      var rest := hs[..n][..i] + hs[..n][i + 1..];
      SumOfMore(u, rest, hs[n]);
      SplitApart(hs, i);
    }
  }

  lemma SplitApart(hs: seq<Index>, i: nat)
    requires i < |hs| - 1
    ensures var n := |hs| - 1; hs[..i] + hs[i + 1..] == hs[..n][..i] + hs[..n][i + 1..] + [hs[n]]
  {
    var n := |hs| - 1;
    assert hs[..n][..i] == hs[..i];
    assert hs[i + 1..] == hs[..n][i + 1..] + [hs[n]];
  }

  lemma TakenOut(hs: seq<Index>, i: nat)
    requires i < |hs| && NoRepeats(hs)
    ensures NoRepeats(hs[..i] + hs[i + 1..])
    ensures forall h :: h in hs[..i] + hs[i + 1..] <==> h in hs && h != hs[i]
  {
    var rest := hs[..i] + hs[i + 1..];
    forall h ensures h in rest <==> h in hs && h != hs[i] {
      if h in hs && h != hs[i] {
        var j :| 0 <= j < |hs| && hs[j] == h;
        assert rest[if j < i then j else j - 1] == h;
      }
    }
  }

  lemma FirstIsIn(hs: seq<Index>)
    ensures hs == [] || hs[0] in hs
  {
  }

  /** Lists with the same members have the same sum. */
  lemma {:induction false} SameSum(u: Field, hs: seq<Index>, ks: seq<Index>)
    requires NoRepeats(hs) && NoRepeats(ks) && forall h :: h in hs <==> h in ks
    ensures SumOf(u, hs) == SumOf(u, ks)
    decreases |hs|
  {
    if hs == [] {
      FirstIsIn(ks);
    } else {
      var n := |hs| - 1;
      assert hs[n] in hs;
      var i :| 0 <= i < |ks| && ks[i] == hs[n];
      var front, rest := hs[..n], ks[..i] + ks[i + 1..];
      SumOfSplit(u, ks, i);
      TakenOut(hs, n);
      TakenOut(ks, i);
      assert hs[..n] + hs[n + 1..] == front;
      forall h ensures h in front <==> h in rest {
        assert h in hs <==> h in ks;
      }
      SameSum(u, front, rest);
    }
  }

  // ---------------------------------------------------------------- the cells around a cell

  /** The neighbours along the first k axes. */
  ghost function NbrList(g: Index, k: nat): seq<Index>
    requires k <= |g|
  {
    if k == 0 then [] else NbrList(g, k - 1) + [Shift(g, k - 1, false)] + [Shift(g, k - 1, true)]
  }

  lemma {:induction false} NbrListSum(u: Field, g: Index, k: nat)
    requires k <= |g|
    ensures SumOf(u, NbrList(g, k)) == NbrSum(u, g, k)
  {
    if k > 0 {
      NbrListSum(u, g, k - 1);
      SumOfMore(u, NbrList(g, k - 1), Shift(g, k - 1, false));
      SumOfMore(u, NbrList(g, k - 1) + [Shift(g, k - 1, false)], Shift(g, k - 1, true));
    }
  }

  /** A neighbour along axis a is one of the two shifted cells. */
  lemma ShiftedIff(g: Index, h: Index, a: nat)
    requires |g| == |h| && a < |g|
    ensures AdjacentOn(g, h, a) <==> h == Shift(g, a, false) || h == Shift(g, a, true)
  {
    if AdjacentOn(g, h, a) {
      assert h == Shift(g, a, h[a] == g[a] + 1);
    }
  }

  lemma {:induction false} NbrListAround(g: Index, k: nat)
    requires k <= |g|
    ensures NoRepeats(NbrList(g, k))
    ensures forall h :: h in NbrList(g, k) <==> |h| == |g| && exists a | 0 <= a < k :: AdjacentOn(g, h, a)
  {
    if k > 0 {
      var a := k - 1;
      var list, down, up := NbrList(g, a), Shift(g, a, false), Shift(g, a, true);
      NbrListAround(g, a);
      forall h | h in list ensures h[a] == g[a] {
        var b :| 0 <= b < a && AdjacentOn(g, h, b);
      }
      assert down[a] != g[a] && up[a] != g[a] && down[a] != up[a];
      NoRepeatsMore(list, down);
      NoRepeatsMore(list + [down], up);
      forall h ensures h in NbrList(g, k) <==> |h| == |g| && exists b | 0 <= b < k :: AdjacentOn(g, h, b) {
        OneMoreAxis(g, k, h);
      }
    }
  }

  lemma NoRepeatsMore(hs: seq<Index>, h: Index)
    requires NoRepeats(hs) && h !in hs
    ensures NoRepeats(hs + [h])
  {
  }

  lemma {:induction false} OneMoreAxis(g: Index, k: nat, h: Index)
    requires 0 < k <= |g|
    requires h in NbrList(g, k - 1) <==> |h| == |g| && exists b | 0 <= b < k - 1 :: AdjacentOn(g, h, b)
    ensures h in NbrList(g, k) <==> |h| == |g| && exists b | 0 <= b < k :: AdjacentOn(g, h, b)
  {
    var a := k - 1;
    if |h| == |g| { ShiftedIff(g, h, a); }
    assert h in NbrList(g, k) <==> h in NbrList(g, a) || h == Shift(g, a, false) || h == Shift(g, a, true);
  }

  lemma AroundExists(g: Index) returns (hs: seq<Index>)
    ensures Around(g, hs) && |hs| == 2 * |g|
  {
    hs := NbrList(g, |g|);
    NbrListAround(g, |g|);
    NbrListLength(g, |g|);
  }

  lemma {:induction false} NbrListLength(g: Index, k: nat)
    requires k <= |g|
    ensures |NbrList(g, k)| == 2 * k
  {
    if k > 0 { NbrListLength(g, k - 1); }
  }

  lemma AroundSum(u: Field, g: Index, hs: seq<Index>)
    requires Around(g, hs)
    ensures SumOf(u, hs) == NbrSum(u, g, |g|)
  {
    NbrListAround(g, |g|);
    NbrListSum(u, g, |g|);
    SameSum(u, hs, NbrList(g, |g|));
  }

  // ---------------------------------------------------------------- the step and the system

  /**
    What a Jacobi step computes: at every unknown, the value that solves its equation with the old
    values around it.
   */
  lemma StepSolvesRows(p: Problem, u: Field, g: Index, hs: seq<Index>)
    requires |p.dims| > 0 && p.Interior(g) && Around(g, hs)
    ensures (2 * |p.dims|) as real * p.Jacobi(u)(g) - SumOf(u, hs) == p.rhs(g)
  {
    AroundSum(u, g, hs);
    RelaxSolves(p, p.rhs(g), NbrSum(u, g, |g|));
  }

  lemma RelaxSolves(p: Problem, r: real, sum: real)
    requires |p.dims| > 0
    ensures (2 * |p.dims|) as real * p.Relax(r, sum) == r + sum
  {
    Times((2 * |p.dims|) as real, r + sum);
  }

  lemma Times(d: real, x: real)
    requires d > 0.0
    ensures d * ((1.0 / d) * x) == x
  {
    assert d * (1.0 / d) == 1.0;
    assert d * ((1.0 / d) * x) == (d * (1.0 / d)) * x;
  }

  lemma RowIff(p: Problem, u: Field, g: Index, hs: seq<Index>)
    requires |p.dims| > 0 && p.Interior(g) && Around(g, hs)
    ensures p.Jacobi(u)(g) == u(g) <==> RowHolds(p, u, g, hs)
  {
    StepSolvesRows(p, u, g, hs);
    SameFactorIff((2 * |p.dims|) as real, p.Jacobi(u)(g), u(g));
  }

  /** A field with zero boundary stays as it is exactly when it solves the system. */
  lemma FixedPointIff(p: Problem, u: Field)
    requires |p.dims| > 0 && ZeroOutside(p, u)
    ensures (forall g :: p.Jacobi(u)(g) == u(g)) <==> Solves(p, u)
  {
    if forall g :: p.Jacobi(u)(g) == u(g) {
      forall g, hs | p.Interior(g) && Around(g, hs) ensures RowHolds(p, u, g, hs) {
        RowIff(p, u, g, hs);
      }
    }
    if Solves(p, u) {
      forall g ensures p.Jacobi(u)(g) == u(g) {
        if p.Interior(g) {
          var hs := AroundExists(g);
          RowIff(p, u, g, hs);
        }
      }
    }
  }

  lemma SameFactorIff(d: real, x: real, y: real)
    requires d > 0.0
    ensures x == y <==> d * x == d * y
  {
    if d * x == d * y { SameFactor(d, x, y); }
  }

  lemma SameFactor(d: real, x: real, y: real)
    requires d > 0.0 && d * x == d * y
    ensures x == y
  {
    assert d * (x - y) == 0.0;
  }

  // ---------------------------------------------------------------- there is one solution

  /** Both fields solve the system; w is their difference. */
  ghost function Minus(u: Field, v: Field): Field { (g: Index) => u(g) - v(g) }

  /** Every unknown is the mean of the cells around it. */
  ghost predicate IsMean(p: Problem, w: Field) { forall g | p.Interior(g) :: MeanAt(p, w, g) }

  ghost predicate MeanAt(p: Problem, w: Field, g: Index) {
    (2 * |p.dims|) as real * w(g) == NbrSum(w, g, |g|)
  }

  lemma {:induction false} NbrSumMinus(u: Field, v: Field, g: Index, k: nat)
    requires k <= |g|
    ensures NbrSum(Minus(u, v), g, k) == NbrSum(u, g, k) - NbrSum(v, g, k)
  {
    if k > 0 { NbrSumMinus(u, v, g, k - 1); }
  }

  lemma SolutionRow(p: Problem, u: Field, g: Index)
    requires Solves(p, u) && p.Interior(g)
    ensures (2 * |p.dims|) as real * u(g) == p.rhs(g) + NbrSum(u, g, |g|)
  {
    var hs := AroundExists(g);
    assert RowHolds(p, u, g, hs);
    RowSum(p, u, g, hs);
  }

  lemma RowSum(p: Problem, u: Field, g: Index, hs: seq<Index>)
    requires RowHolds(p, u, g, hs) && Around(g, hs)
    ensures (2 * |p.dims|) as real * u(g) == p.rhs(g) + NbrSum(u, g, |g|)
  {
    AroundSum(u, g, hs);
  }

  lemma DifferenceIsMean(p: Problem, u: Field, v: Field)
    requires Solves(p, u) && Solves(p, v)
    ensures IsMean(p, Minus(u, v))
  {
    forall g | p.Interior(g) ensures MeanAt(p, Minus(u, v), g) {
      SolutionRow(p, u, g);
      SolutionRow(p, v, g);
      NbrSumMinus(u, v, g, |g|);
      Distributes((2 * |p.dims|) as real, u(g), v(g));
    }
  }

  lemma Distributes(d: real, x: real, y: real)
    ensures d * (x - y) == d * x - d * y
  {
  }

  /** m added up over the two neighbours along each of k axes. */
  ghost function PerSide(k: nat, m: real): real { if k == 0 then 0.0 else PerSide(k - 1, m) + m + m }

  lemma {:induction false} PerSideIsProduct(k: nat, m: real)
    ensures PerSide(k, m) == (2 * k) as real * m
  {
    if k > 0 {
      PerSideIsProduct(k - 1, m);
      var d := (2 * (k - 1)) as real;
      assert (2 * k) as real == d + 2.0;
      assert (d + 2.0) * m == d * m + 2.0 * m;
    }
  }

  /** If no neighbour is above m, one below it is missing in the sum. */
  lemma {:induction false} SumSlack(w: Field, g: Index, k: nat, m: real)
    requires 0 < k <= |g| && forall a, up | 0 <= a < |g| :: w(Shift(g, a, up)) <= m
    ensures NbrSum(w, g, k) <= PerSide(k, m) - (m - w(Shift(g, 0, true)))
  {
    assert w(Shift(g, k - 1, false)) <= m && w(Shift(g, k - 1, true)) <= m;
    if k > 1 {
      SumSlack(w, g, k - 1, m);
    } else {
      assert NbrSum(w, g, 0) == 0.0 && PerSide(0, m) == 0.0;
    }
  }

  /** Where a mean is largest, the next cell is as large. */
  lemma NextAsLarge(p: Problem, w: Field, g: Index, m: real)
    requires |p.dims| > 0 && MeanAt(p, w, g) && p.Interior(g) && w(g) == m && forall h :: w(h) <= m
    ensures w(Shift(g, 0, true)) == m
  {
    SumSlack(w, g, |g|, m);
    PerSideIsProduct(|g|, m);
    NoSlack((2 * |g|) as real * m, NbrSum(w, g, |g|), m, w(Shift(g, 0, true)));
  }

  lemma NoSlack(product: real, sum: real, m: real, x: real)
    requires product == sum && sum <= product - (m - x) && x <= m
    ensures x == m
  {
  }

  /** So the largest value is one of the boundary. */
  lemma {:induction false} ReachesBoundary(p: Problem, w: Field, g: Index, m: real)
    requires p.WellFormed() && IsMean(p, w) && ZeroOutside(p, w) && w(g) == m && forall h :: w(h) <= m
    ensures m == 0.0
    decreases if p.Interior(g) then p.n * p.dims[0] - g[0] else -1
  {
    if p.Interior(g) {
      NextAsLarge(p, w, g, m);
      ReachesBoundary(p, w, Shift(g, 0, true), m);
    }
  }

  /** A mean with zero boundary is nowhere positive. */
  lemma NowherePositive(p: Problem, w: Field)
    requires p.WellFormed() && IsMean(p, w) && ZeroOutside(p, w)
    ensures forall g :: w(g) <= 0.0
  {
    var all := Unknowns(p);
    AllUnknowns(p);
    if g0 :| w(g0) > 0.0 {
      assert g0 in all;
      var g := Largest(w, all);
      forall h ensures w(h) <= w(g) { }
      ReachesBoundary(p, w, g, w(g));
      assert false;
    }
  }

  lemma {:induction false} Largest(w: Field, s: set<Index>) returns (g: Index)
    requires s != {}
    ensures g in s && forall h | h in s :: w(h) <= w(g)
    decreases s
  {
    g :| g in s;
    if s != {g} {
      var k := Largest(w, s - {g});
      if w(k) > w(g) { g := k; }
    }
  }

  ghost function Unknowns(p: Problem): set<Index> {
    set e | e in Elements(seq(|p.dims|, a requires 0 <= a < |p.dims| => p.n * p.dims[a] + 1)) && p.Interior(e)
  }

  lemma AllUnknowns(p: Problem)
    ensures forall g :: g in Unknowns(p) <==> p.Interior(g)
  {
    var ext := seq(|p.dims|, a requires 0 <= a < |p.dims| => p.n * p.dims[a] + 1);
    forall g ensures g in Unknowns(p) <==> p.Interior(g) { InElements(ext, g); }
  }

  /** The system has at most one solution with zero boundary. */
  lemma OneSolution(p: Problem, u: Field, v: Field)
    requires p.WellFormed() && ZeroOutside(p, u) && ZeroOutside(p, v) && Solves(p, u) && Solves(p, v)
    ensures forall g :: u(g) == v(g)
  {
    DifferenceIsMean(p, u, v);
    DifferenceIsMean(p, v, u);
    NowherePositive(p, Minus(u, v));
    NowherePositive(p, Minus(v, u));
    forall g ensures u(g) == v(g) {
      assert Minus(u, v)(g) <= 0.0 && Minus(v, u)(g) <= 0.0;
    }
  }
}
