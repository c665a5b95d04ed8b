/**
  The element of the one-dimensional solver, whose faces are single values, proved to do on
  its arrays what the element of the protocol does on its block.
 */
module Jacobi1D {
  import opened JacobiGrid
  import opened JacobiProtocol
  import opened JacobiNorm
  import JacobiSchedules
  import opened Common

  /** A value on its way to another element. */
  datatype Halo = Halo(to: Index, val: real)

  class LinearPb1DJacobi {
    const x: int
    var tcur: array<real>
    var told: array<real>
    var rhs: array<real>
    var iter: nat
    var msgReceived: nat
    var totalReceive: nat
    var numObjs: nat
    var numRowsPerObject: nat
    var maxIter: nat

    ghost function Idx(): Index { [x] }

    ghost predicate Shaped()
      reads this
    {
      tcur != told && tcur != rhs && told != rhs && tcur.Length == told.Length == rhs.Length == numRowsPerObject + 2
    }

    /** The arrays and counters are those of element s of problem p. */
    ghost predicate Holds(p: Problem, s: Elem)
      reads this, told, rhs
    {
      && Shaped() && p.n == numRowsPerObject && p.num == [numObjs] && |p.dims| == 1
      && msgReceived == s.msgReceived && totalReceive == s.totalReceive && iter == s.iter
      && (forall i | 0 <= i < told.Length :: told[i] == s.told([i]))
      && (forall i | 0 < i <= numRowsPerObject :: rhs[i] == p.rhs(p.Global(Idx(), [i])))
    }

    constructor (x: int)
      ensures this.x == x && iter == 0 && msgReceived == 0
    {
      this.x := x;
      tcur, told, rhs := new real[0], new real[0], new real[0];
      iter, msgReceived, totalReceive := 0, 0, 0;
      numObjs, numRowsPerObject, maxIter := 1, 1, 8;
    }

    // -------------------------------------------------------------- init

    method CopyBack()
      requires Shaped()
      modifies told
      ensures told[..] == tcur[..]
    {
      for q := 0 to told.Length
        invariant told[..q] == tcur[..q]
      {
        told[q] := tcur[q];
      }
    }

    /** The initial guess, given on global cells. */
    method FillStart(start: int -> real)
      requires Shaped()
      modifies tcur
      ensures forall i | 0 <= i < tcur.Length :: tcur[i] == StartAt(start, numRowsPerObject, x, i)
    {
      var base := numRowsPerObject * x;
      for ii := 0 to tcur.Length
        invariant forall i | 0 <= i < ii :: tcur[i] == StartAt(start, numRowsPerObject, x, i)
      {
        tcur[ii] := start(base + ii);
      }
    }

    /** The boundary values at the ends of the range, from where nothing is expected. */
    method CloseEnds()
      requires Shaped()
      modifies this`totalReceive, tcur
      ensures totalReceive == (if x == 0 then 0 else 1) + (if numObjs == x + 1 then 0 else 1)
      ensures forall i | 0 <= i < tcur.Length ::
                tcur[i] == if (x == 0 && i == 0) || (numObjs == x + 1 && i == numRowsPerObject + 1) then 0.0
                  else old(tcur[i])
    {
      totalReceive := 2;
      if x == 0 {
        tcur[0] := 0.0;
        totalReceive := totalReceive - 1;
      }
      if x == numObjs - 1 {
        tcur[numRowsPerObject + 1] := 0.0;
        totalReceive := totalReceive - 1;
      }
    }

    /** Allocate the arrays and set them to the initial guess and the boundary values. */
    method Start(start: int -> real)
      modifies this`tcur, this`told, this`rhs, this`totalReceive
      ensures fresh(tcur) && fresh(told) && fresh(rhs) && Shaped() && (forall q | 0 <= q < rhs.Length :: rhs[q] == 0.0)
      ensures totalReceive == (if x == 0 then 0 else 1) + (if numObjs == x + 1 then 0 else 1)
      ensures forall i | 0 <= i < told.Length ::
                told[i] == if (x == 0 && i == 0) || (numObjs == x + 1 && i == numRowsPerObject + 1) then 0.0
                  else StartAt(start, numRowsPerObject, x, i)
    {
      tcur := new real[numRowsPerObject + 2](_ => 0.0);
      told := new real[numRowsPerObject + 2](_ => 0.0);
      rhs := new real[numRowsPerObject + 2](_ => 0.0);
      FillStart(start);
      CloseEnds();
      CopyBack();
      assert forall i | 0 <= i < told.Length :: told[i] == told[..][i] == tcur[i];
    }

    method Init(nobjs: nat, nrow: nat, itMax: nat, start: int -> real, ghost p: Problem)
      requires |p.dims| == 1 && p.n == nrow && p.num == [nobjs] && (forall g :: p.rhs(g) == 0.0)
      requires iter == 0 && msgReceived == 0
      modifies this
      ensures fresh(tcur) && fresh(told) && fresh(rhs) && maxIter == itMax
      ensures Holds(p, JacobiSchedules.InitElem(p, Idx(), OnCells(start)))
    {
      numObjs, numRowsPerObject, maxIter := nobjs, nrow, itMax;
      Start(start);
      ghost var s := JacobiSchedules.InitElem(p, Idx(), OnCells(start));
      ExpectedSides(p, x);
      forall i | 0 <= i < told.Length ensures told[i] == s.told([i]) { InitCell(p, x, start, i); }
    }

    // -------------------------------------------------------------- doIteration

    /** The ghost values of told are carried over to tcur, and the unknowns swept. */
    method SweepUnknowns()
      requires Shaped()
      modifies tcur
      ensures forall i | 0 <= i < tcur.Length :: tcur[i] == NewValue(told[..], rhs[..], i)
    {
      var n := numRowsPerObject;
      tcur[0] := told[0];
      tcur[n + 1] := told[n + 1];
      for ii := 1 to n + 1
        invariant tcur[0] == told[0] && tcur[n + 1] == told[n + 1]
        invariant forall i | 0 < i < ii :: tcur[i] == NewValue(told[..], rhs[..], i)
      {
        tcur[ii] := 0.5 * (rhs[ii] + told[ii - 1] + told[ii + 1]);
      }
    }

    /** The sweep, whose result becomes the old iterate. */
    method SweepBlock()
      requires Shaped()
      modifies tcur, told
      ensures tcur[..] == told[..]
      ensures forall i | 0 <= i < told.Length :: told[i] == NewValue(old(told[..]), rhs[..], i)
      ensures RowsSolved(told[..], old(told[..]), rhs[..])
    {
      SweepUnknowns();
      CopyBack();
      assert forall i | 0 <= i < told.Length :: told[i] == told[..][i] == tcur[i];
      NewValuesSolve(told[..], old(told[..]), rhs[..]);
    }

    /** The maximum entry among the unknowns. */
    method MaxNorm() returns (maxNorm: real)
      requires Shaped()
      ensures maxNorm >= 0.0 && forall i | 0 < i <= numRowsPerObject :: Abs(tcur[i]) <= maxNorm
      ensures maxNorm == 0.0 || exists i | 0 < i <= numRowsPerObject :: Abs(tcur[i]) == maxNorm
    {
      maxNorm := 0.0;
      for ii := 1 to tcur.Length - 1
        invariant maxNorm >= 0.0 && forall i | 0 < i < ii :: Abs(tcur[i]) <= maxNorm
        invariant maxNorm == 0.0 || exists i | 0 < i < ii :: Abs(tcur[i]) == maxNorm
      {
        var val := tcur[ii];
        maxNorm := if maxNorm > Abs(val) then maxNorm else Abs(val);
      }
    }

    /** One iteration of the element: its block is swept, and its norm goes into the reduction. */
    method DoIteration(ghost p: Problem, ghost s: Elem) returns (maxNorm: real)
      requires Holds(p, s)
      modifies this`iter, tcur, told
      ensures Holds(p, JacobiProtocol.DoIteration(p, Idx(), s))
      ensures IsBlockNorm(p, JacobiProtocol.DoIteration(p, Idx(), s).told, maxNorm)
      ensures tcur[..] == told[..] && RowsSolved(told[..], old(told[..]), rhs[..])
    {
      ghost var t, f := told[..], rhs[..];
      iter := iter + 1;
      SweepBlock();
      maxNorm := MaxNorm();
      BlockIsSwept(p, Idx(), s.told, t, f, told[..]);
      BlockNorm(p, Sweep(p, Idx(), s.told), told[..], maxNorm);
    }

    // -------------------------------------------------------------- exchange

    /** Receive and treat a value from a neighbouring object; the last one starts the iteration. */
    method Exchange(fromIndex: int, val: real, ghost p: Problem, ghost s: Elem, ghost f: Field)
      returns (norm: Option<real>)
      requires Holds(p, s) && val == f([])
      modifies this`iter, this`msgReceived, tcur, told
      ensures Holds(p, JacobiProtocol.Exchange(p, Idx(), s, [fromIndex], f))
      ensures norm.Some? <==> iter != old(iter)
      ensures norm.Some? ==> IsBlockNorm(p, JacobiProtocol.Exchange(p, Idx(), s, [fromIndex], f).told, norm.value)
    {
      ghost var r := Receive(p, Idx(), s, [fromIndex], f);
      ReceivedValue(p, x, s, fromIndex, f);
      if x > fromIndex {
        told[0] := val;
        msgReceived := msgReceived + 1;
      }
      if x < fromIndex {
        told[numRowsPerObject + 1] := val;
        msgReceived := msgReceived + 1;
      }
      assert Holds(p, r);
      norm := None;
      if msgReceived == totalReceive {
        msgReceived := 0;
        var m := DoIteration(p, r.(msgReceived := 0));
        norm := Some(m);
      }
    }

    // -------------------------------------------------------------- doIter

    /** Handle doIter: iterate at once if the object is alone, otherwise send the end values to the neighbours. */
    method DoIter(ghost p: Problem, ghost s: Elem) returns (sent: seq<Halo>, norm: Option<real>)
      requires p.WellFormed() && Holds(p, s)
      modifies this`iter, tcur, told
      ensures Alone(p.num) ==> sent == [] && Holds(p, JacobiProtocol.DoIteration(p, Idx(), s))
      ensures Alone(p.num) ==> norm.Some? && IsBlockNorm(p, JacobiProtocol.DoIteration(p, Idx(), s).told, norm.value)
      ensures !Alone(p.num) ==> norm.None? && Holds(p, s) && Matches(sent, Faces(p, Idx(), s.told))
    {
      assert p.num[0] == numObjs;
      if numObjs == 1 {
        var m := DoIteration(p, s);
        return [], Some(m);
      }
      norm, sent := None, [];
      if x > 0 { sent := sent + [Halo([x - 1], told[1])]; }
      if x < numObjs - 1 { sent := sent + [Halo([x + 1], told[numRowsPerObject])]; }
      FacesAre(p, x, s.told);
    }
  }

  /** The initial guess for cell i of the block of element x. */
  function StartAt(start: int -> real, n: nat, x: int, i: int): (v: real) { start(n * x + i) }

  ghost function OnCells(start: int -> real): Field { (g: Index) => if |g| == 1 then start(g[0]) else 0.0 }

  /** The new value at a place of the array; the two ends are ghost values. */
  ghost function NewValue(told: seq<real>, rhs: seq<real>, i: int): real
    requires |told| == |rhs| && 0 <= i < |told|
  {
    if 0 < i < |told| - 1 then Row(rhs[i], told[i - 1], told[i + 1]) else told[i]
  }

  lemma BlockIsSwept(p: Problem, e: Index, block: Field, before: seq<real>, rhs: seq<real>, now: seq<real>)
    requires |p.dims| == |e| == 1 && |now| == |before| == |rhs| == p.n + 2
    requires forall i | 0 <= i < |before| :: before[i] == block([i])
    requires forall i | 0 < i <= p.n :: rhs[i] == p.rhs(p.Global(e, [i]))
    requires forall i | 0 <= i < |now| :: now[i] == NewValue(before, rhs, i)
    ensures forall i | 0 <= i < |now| :: now[i] == Sweep(p, e, block)([i])
  {
    forall i | 0 <= i < |now| ensures now[i] == Sweep(p, e, block)([i]) {
      SweepIsRow(p, e, block, i);
    }
  }

  /** Each unknown solves its row of the tridiagonal matrix with the old values beside it; the two ends are kept. */
  ghost predicate RowsSolved(now: seq<real>, before: seq<real>, rhs: seq<real>) {
    && |now| == |before| == |rhs| >= 2 && now[0] == before[0] && now[|now| - 1] == before[|now| - 1]
    && forall i | 0 < i < |now| - 1 :: 2.0 * now[i] - before[i - 1] - before[i + 1] == rhs[i]
  }

  lemma NewValuesSolve(now: seq<real>, before: seq<real>, rhs: seq<real>)
    requires |now| == |before| == |rhs| >= 2
    requires forall i | 0 <= i < |now| :: now[i] == NewValue(before, rhs, i)
    ensures RowsSolved(now, before, rhs)
  {
  }

  /** One row of the three-point stencil. */
  function Row(r: real, west: real, east: real): (v: real) { 0.5 * (r + west + east) }

  lemma ExpectedSides(p: Problem, x: int)
    requires |p.num| == 1
    ensures Expected(p, [x], 1) == (if x == 0 then 0 else 1) + (if p.num[0] == x + 1 then 0 else 1)
  {
  }

  lemma InitCell(p: Problem, x: int, start: int -> real, i: int)
    requires |p.num| == 1
    ensures JacobiSchedules.InitElem(p, [x], OnCells(start)).told([i]) ==
            if (x == 0 && i == 0) || (p.num[0] == x + 1 && i == p.n + 1) then 0.0 else StartAt(start, p.n, x, i)
  {
    var e: Index, c: Index := [x], [i];
    assert e[0] == x && c[0] == i && p.Global(e, c)[0] == p.n * x + i;
    assert JacobiSchedules.ZeroedByInit(p, e, c) <==> ((x == 0 && i == 0) || (p.num[0] == x + 1 && i == p.n + 1));
  }

  lemma SweepIsRow(p: Problem, e: Index, block: Field, i: int)
    requires |p.dims| == |e| == 1
    ensures Sweep(p, e, block)([i]) ==
            if 0 < i <= p.n then Row(p.rhs(p.Global(e, [i])), block([i - 1]), block([i + 1])) else block([i])
  {
    var c: Index := [i];
    assert c[0] == i && (p.Inner(c) <==> 0 < i <= p.n);
    if p.Inner(c) {
      assert Shift(c, 0, false) == [i - 1] && Shift(c, 0, true) == [i + 1];
      assert NbrSum(block, c, 1) == 0.0 + block([i - 1]) + block([i + 1]);
      assert p.Relax(p.rhs(p.Global(e, c)), block([i - 1]) + block([i + 1])) ==
               Row(p.rhs(p.Global(e, c)), block([i - 1]), block([i + 1]));
    }
  }

  lemma BlockNorm(p: Problem, block: Field, a: seq<real>, m: real)
    requires |p.dims| == 1 && |a| == p.n + 2 && m >= 0.0 && forall i | 0 <= i < |a| :: a[i] == block([i])
    requires forall i | 0 < i <= p.n :: Abs(a[i]) <= m
    requires m == 0.0 || exists i | 0 < i <= p.n :: Abs(a[i]) == m
    ensures IsBlockNorm(p, block, m)
  {
    forall c | p.Inner(c) ensures Abs(block(c)) <= m { assert c == [c[0]] && a[c[0]] == block([c[0]]); }
    if m != 0.0 {
      var i :| 0 < i <= p.n && Abs(a[i]) == m;
      assert p.Inner([i]) && Abs(block([i])) == m;
    }
  }

  /** What a received value changes. */
  lemma ReceivedValue(p: Problem, x: int, s: Elem, from: int, f: Field)
    ensures var r := Receive(p, [x], s, [from], f);
            && r.msgReceived == s.msgReceived + (if x != from then 1 else 0) && r.totalReceive == s.totalReceive &&
               r.iter == s.iter
            && forall i :: r.told([i]) ==
                 if (x > from && i == 0) || (x < from && i == p.n + 1) then f([]) else s.told([i])
  {
    var e: Index, g: Index := [x], [from];
    assert e[0] == x && g[0] == from && (FirstDiff(e, g, 0) == 0 <==> x != from);
    var r := Receive(p, e, s, g, f);
    forall i ensures r.told([i]) == if (x > from && i == 0) || (x < from && i == p.n + 1) then f([]) else s.told([i]) {
      var c: Index := [i];
      assert c[0] == i && Drop(c, 0) == [];
    }
  }

  /** The values handed to the runtime are the faces the protocol sends, in the same order. */
  ghost predicate Matches(sent: seq<Halo>, ms: seq<Msg>) {
    |sent| == |ms| && forall q | 0 <= q < |sent| :: sent[q].to == ms[q].to && sent[q].val == ms[q].val([])
  }

  lemma FacesAre(p: Problem, x: int, told: Field)
    requires |p.num| == |p.dims| == 1
    ensures Matches((if x > 0 then [Halo([x - 1], told([1]))] else []) +
              (if x < p.num[0] - 1 then [Halo([x + 1], told([p.n]))] else []),
                    Faces(p, [x], told))
  {
    var e: Index := [x];
    assert Shift(e, 0, false) == [x - 1] && Shift(e, 0, true) == [x + 1];
    forall up ensures SideFaces(p, e, told, up, 1) == SideMsg(p, e, told, 0, up)
      ensures Pack(p, told, 0, up)([]) == told([if up then p.n else 1])
    {
      assert SideFaces(p, e, told, up, 0) == [];
      assert InnerFace(p, []) && Insert([], 0, if up then p.n else 1) == [if up then p.n else 1];
    }
  }
}
