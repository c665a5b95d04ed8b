/**
  The element of the two-dimensional solver, with its flattened arrays, proved to do on
  them what the element of the protocol does on its block.
 */
module Jacobi2D {
  import opened Arithmetic
  import opened JacobiGrid
  import opened JacobiProtocol
  import opened JacobiFlat
  import opened JacobiNorm
  import JacobiSchedules
  import opened Common

  predicate InSquare(ld: nat, i: int, j: int) { 0 <= i < ld && 0 <= j < ld }

  /** The coordinate of a cell on axis a, and along the line it has across that axis. */
  function Axis(a: nat, i: int, j: int): (r: int) { if a == 0 then i else j }

  function Other(a: nat, i: int, j: int): (r: int) { if a == 0 then j else i }

  /** The place of cell r of the line at coordinate g across axis a. */
  function LineAt(ld: nat, a: nat, g: int, r: int): (x: int) { if a == 0 then PlaneAt(ld, g, r) else PlaneAt(ld, r, g) }

  lemma LineCell(ld: nat, a: nat, g: int, r: int)
    requires a < 2 && 0 <= g < ld && 0 <= r < ld
    ensures 0 <= LineAt(ld, a, g, r) < ld * ld
    ensures forall i, j | InSquare(ld, i, j) ::
              PlaneAt(ld, i, j) == LineAt(ld, a, g, r) <==> Axis(a, i, j) == g && Other(a, i, j) == r
  {
    AllPlaneBound(ld);
    if a == 0 { PlaneInjective(ld, g, r); } else { PlaneInjective(ld, r, g); }
  }

  /** Overwrite one line of a block. */
  method SetLine(ld: nat, dst: array<real>, a: nat, g: int, val: seq<real>)
    requires dst.Length == ld * ld && a < 2 && 0 <= g < ld && |val| == ld
    modifies dst
    ensures forall i, j | InSquare(ld, i, j) ::
              && 0 <= PlaneAt(ld, i, j) < dst.Length
              && dst[PlaneAt(ld, i, j)] ==
                   if Axis(a, i, j) == g then val[Other(a, i, j)] else old(dst[PlaneAt(ld, i, j)])
  {
    AllPlaneBound(ld);
    for r := 0 to ld
      invariant forall i, j | InSquare(ld, i, j) ::
                  dst[PlaneAt(ld, i, j)] ==
                    if Axis(a, i, j) == g && Other(a, i, j) < r then val[Other(a, i, j)]
                      else old(dst[PlaneAt(ld, i, j)])
    {
      LineCell(ld, a, g, r);
      dst[LineAt(ld, a, g, r)] := val[r];
    }
  }

  /** Copy one line of a block to another block. */
  method CopyLine(ld: nat, dst: array<real>, src: array<real>, a: nat, g: int)
    requires dst != src && dst.Length == src.Length == ld * ld && a < 2 && 0 <= g < ld
    modifies dst
    ensures forall i, j | InSquare(ld, i, j) ::
              && 0 <= PlaneAt(ld, i, j) < dst.Length
              && dst[PlaneAt(ld, i, j)] ==
                   if Axis(a, i, j) == g then src[PlaneAt(ld, i, j)] else old(dst[PlaneAt(ld, i, j)])
  {
    AllPlaneBound(ld);
    for r := 0 to ld
      invariant forall i, j | InSquare(ld, i, j) ::
                  dst[PlaneAt(ld, i, j)] ==
                    if Axis(a, i, j) == g && Other(a, i, j) < r then src[PlaneAt(ld, i, j)]
                      else old(dst[PlaneAt(ld, i, j)])
    {
      LineCell(ld, a, g, r);
      dst[LineAt(ld, a, g, r)] := src[LineAt(ld, a, g, r)];
    }
  }

  /** Copy the inner part of one line of a block into a face that is zero at its ends. */
  method PackLine(ld: nat, src: array<real>, a: nat, g: int) returns (val: seq<real>)
    requires ld >= 2 && src.Length == ld * ld && a < 2 && 0 <= g < ld
    ensures |val| == ld
    ensures forall r | 0 <= r < ld ::
              && 0 <= LineAt(ld, a, g, r) < src.Length
              && val[r] == if 0 < r < ld - 1 then src[LineAt(ld, a, g, r)] else 0.0
  {
    AllPlaneBound(ld);
    val := seq(ld, _ => 0.0);
    for jr := 1 to ld - 1
      invariant |val| == ld
      invariant forall r | 0 <= r < ld :: val[r] == if 0 < r < jr then src[LineAt(ld, a, g, r)] else 0.0
    {
      val := val[jr := src[LineAt(ld, a, g, jr)]];
    }
  }

  ghost predicate IsFace(ld: nat, val: seq<real>, f: Field) {
    |val| == ld && forall r | 0 <= r < ld :: val[r] == f([r])
  }

  class LinearPb2DJacobi {
    const x: int
    const y: int
    var tcur: array<real>
    var told: array<real>
    var rhs: array<real>
    var iter: nat
    var msgReceived: nat
    var totalReceive: nat
    var numObjsX: nat
    var numObjsY: nat
    var numRowsPerObject: nat
    var maxIter: nat

    ghost function Idx(): Index { [x, y] }

    function Ld(): nat reads this { numRowsPerObject + 2 }

    ghost predicate Shaped()
      reads this
    {
      tcur != told && tcur != rhs && told != rhs && tcur.Length == told.Length == rhs.Length == Ld() * Ld()
    }

    /** The arrays and counters are those of element s of problem p. */
    ghost predicate Holds(p: Problem, s: Elem)
      reads this, told, rhs
    {
      && Shaped() && HoldsCounters(p, s)
      && (forall i, j | InSquare(Ld(), i, j) ::
           0 <= PlaneAt(Ld(), i, j) < told.Length && told[PlaneAt(Ld(), i, j)] == s.told([i, j]))
      && HoldsRhs(p)
    }

    ghost predicate HoldsCounters(p: Problem, s: Elem)
      reads this
    {
      && p.n == numRowsPerObject && p.num == [numObjsX, numObjsY] && |p.dims| == 2
      && msgReceived == s.msgReceived && totalReceive == s.totalReceive && iter == s.iter
    }

    ghost predicate HoldsRhs(p: Problem)
      reads this, rhs
      requires Shaped() && |p.dims| == 2
    {
      forall i, j | InSquare(Ld(), i, j) ::
        0 <= PlaneAt(Ld(), i, j) < rhs.Length &&
          (p.Inner([i, j]) ==> rhs[PlaneAt(Ld(), i, j)] == p.rhs(p.Global(Idx(), [i, j])))
    }

    constructor (x: int, y: int)
      ensures this.x == x && this.y == y
      ensures iter == 0 && msgReceived == 0 && numRowsPerObject == 8
    {
      this.x, this.y := x, y;
      tcur, told, rhs := new real[0], new real[0], new real[0];
      iter, msgReceived, totalReceive := 0, 0, 0;
      numObjsX, numObjsY := 1, 1;
      numRowsPerObject, maxIter := 8, 5;
    }

    // -------------------------------------------------------------- init

    /** Fill the block with the initial guess, given on global cells. */
    method FillStart(start: (int, int) -> real)
      requires Shaped()
      modifies tcur
      ensures forall i, j | InSquare(Ld(), i, j) ::
                && 0 <= PlaneAt(Ld(), i, j) < tcur.Length
                && tcur[PlaneAt(Ld(), i, j)] == StartAt(start, numRowsPerObject, x, y, i, j)
    {
      var n, ld := numRowsPerObject, numRowsPerObject + 2;
      var gx, gy := n * x, n * y;
      AllPlaneBound(ld);
      for iy := 0 to ld
        invariant forall i, j | InSquare(ld, i, j) && Filled(0, iy, i, j) ::
                    tcur[PlaneAt(ld, i, j)] == StartAt(start, n, x, y, i, j)
      {
        for ix := 0 to ld
          invariant forall i, j | InSquare(ld, i, j) && Filled(ix, iy, i, j) ::
                      tcur[PlaneAt(ld, i, j)] == StartAt(start, n, x, y, i, j)
        {
          PlaneInjective(ld, ix, iy);
          assert StartAt(start, n, x, y, ix, iy) == start(gx + ix, gy + iy) && InSquare(ld, ix, iy);
          tcur[PlaneAt(ld, ix, iy)] := start(gx + ix, gy + iy);
        }
      }
    }

    /** Set a ghost line to the boundary value if it lies at an end of the range, and expect no face from there. */
    method CloseSide(a: nat, up: bool, atEnd: bool)
      requires Shaped() && a < 2 && totalReceive > 0
      modifies this`totalReceive, tcur
      ensures totalReceive == old(totalReceive) - (if atEnd then 1 else 0)
      ensures forall i, j | InSquare(Ld(), i, j) ::
                && 0 <= PlaneAt(Ld(), i, j) < tcur.Length
                && tcur[PlaneAt(Ld(), i, j)] ==
                   if atEnd && Axis(a, i, j) == (if up then numRowsPerObject + 1 else 0) then 0.0
                     else old(tcur[PlaneAt(Ld(), i, j)])
    {
      var ld := numRowsPerObject + 2;
      AllPlaneBound(ld);
      if atEnd {
        SetLine(ld, tcur, a, if up then ld - 1 else 0, seq(ld, _ => 0.0));
        totalReceive := totalReceive - 1;
      }
    }

    /** All four sides. */
    method CloseSides()
      requires Shaped()
      modifies this`totalReceive, tcur
      ensures totalReceive ==
                (if x == 0 then 0 else 1) + (if numObjsX == x + 1 then 0 else 1)
                + (if y == 0 then 0 else 1) + (if numObjsY == y + 1 then 0 else 1)
      ensures forall i, j | InSquare(Ld(), i, j) ::
                && 0 <= PlaneAt(Ld(), i, j) < tcur.Length
                && tcur[PlaneAt(Ld(), i, j)] == if Closed(i, j) then 0.0 else old(tcur[PlaneAt(Ld(), i, j)])
    {
      totalReceive := 4;
      CloseSide(0, false, x == 0);
      CloseSide(1, false, y == 0);
      CloseSide(0, true, numObjsX == x + 1);
      CloseSide(1, true, numObjsY == y + 1);
    }

    ghost predicate Closed(i: int, j: int)
      reads this
    {
      var hi := numRowsPerObject + 1;
      (x == 0 && i == 0) || (y == 0 && j == 0) || (numObjsX == x + 1 && i == hi) || (numObjsY == y + 1 && j == hi)
    }

    /** The new iterate becomes the old one. */
    method CopyBack()
      requires Shaped()
      modifies told
      ensures told[..] == tcur[..]
    {
      for q := 0 to told.Length
        invariant told[..q] == tcur[..q]
      {
        told[q] := tcur[q];
      }
    }

    /** Allocate the arrays and set them to the initial guess and the boundary values. */
    method Start(start: (int, int) -> real)
      modifies this`tcur, this`told, this`rhs, this`totalReceive
      ensures fresh(tcur) && fresh(told) && fresh(rhs) && Shaped() && (forall q | 0 <= q < rhs.Length :: rhs[q] == 0.0)
      ensures totalReceive ==
                (if x == 0 then 0 else 1) + (if numObjsX == x + 1 then 0 else 1)
                + (if y == 0 then 0 else 1) + (if numObjsY == y + 1 then 0 else 1)
      ensures forall i, j | InSquare(Ld(), i, j) ::
                && 0 <= PlaneAt(Ld(), i, j) < told.Length
                && told[PlaneAt(Ld(), i, j)] ==
                     if Closed(i, j) then 0.0 else StartAt(start, numRowsPerObject, x, y, i, j)
    {
      var ld := numRowsPerObject + 2;
      tcur := new real[ld * ld](_ => 0.0);
      told := new real[ld * ld](_ => 0.0);
      rhs := new real[ld * ld](_ => 0.0);
      FillStart(start);
      CloseSides();
      CopyBack();
      assert told[..] == tcur[..];
    }

    method Init(numXObjs: nat, numYObjs: nat, numIter: nat, start: (int, int) -> real, ghost p: Problem)
      requires |p.dims| == 2 && p.n == numRowsPerObject && p.num == [numXObjs, numYObjs] &&
               (forall g :: p.rhs(g) == 0.0)
      requires iter == 0 && msgReceived == 0
      modifies this
      ensures fresh(tcur) && fresh(told) && fresh(rhs)
      ensures numObjsX == numXObjs && numObjsY == numYObjs && maxIter == numIter
      ensures Holds(p, JacobiSchedules.InitElem(p, Idx(), OnCells(start)))
    {
      numObjsX, numObjsY := numXObjs, numYObjs;
      maxIter := numIter;
      Start(start);
      ghost var ld := Ld();
      ghost var s := JacobiSchedules.InitElem(p, Idx(), OnCells(start));
      ExpectedSides(p, x, y);
      forall i, j | InSquare(ld, i, j) ensures told[PlaneAt(ld, i, j)] == s.told([i, j]) {
        InitCell(p, x, y, start, i, j);
      }
    }

    // -------------------------------------------------------------- doIteration

    ghost predicate Inside(i: int, j: int)
      reads this
    {
      1 <= i <= numRowsPerObject && 1 <= j <= numRowsPerObject
    }

    /** The four ghost lines of told are carried over to tcur. */
    method CopyGhosts()
      requires Shaped()
      modifies tcur
      ensures forall i, j | InSquare(Ld(), i, j) ::
                0 <= PlaneAt(Ld(), i, j) < tcur.Length &&
                  (!Inside(i, j) ==> tcur[PlaneAt(Ld(), i, j)] == told[PlaneAt(Ld(), i, j)])
    {
      var ld := numRowsPerObject + 2;
      CopyLine(ld, tcur, told, 1, 0);
      CopyLine(ld, tcur, told, 1, ld - 1);
      CopyLine(ld, tcur, told, 0, 0);
      CopyLine(ld, tcur, told, 0, ld - 1);
    }

    /** The stencil on one unknown. */
    method UpdateNode(ix: int, iy: int)
      requires Shaped() && Inside(ix, iy)
      modifies tcur
      ensures tcur.Length == old(tcur.Length) && 0 <= PlaneAt(Ld(), ix, iy) < tcur.Length
      ensures tcur[..] == old(tcur[..])[PlaneAt(Ld(), ix, iy) := Stencil(Ld(), told[..], rhs[..], ix, iy)]
    {
      var ldx := numRowsPerObject + 2;
      var node := ix + iy * ldx;
      StencilPlaces(ldx, ix, iy);
      tcur[node] := 0.25 * (rhs[node] + told[node - 1] + told[node + 1] + told[node - ldx] + told[node + ldx]);
    }

    /** The stencil on every unknown, from told into tcur. */
    method SweepUnknowns()
      requires Shaped()
      modifies tcur
      ensures forall i, j | InSquare(Ld(), i, j) ::
                && 0 <= PlaneAt(Ld(), i, j) < tcur.Length
                && tcur[PlaneAt(Ld(), i, j)] ==
                     if Inside(i, j) then Stencil(Ld(), told[..], rhs[..], i, j) else old(tcur[PlaneAt(Ld(), i, j)])
    {
      var n, ld := numRowsPerObject, numRowsPerObject + 2;
      ghost var t, f := told[..], rhs[..];
      AllPlaneBound(ld);
      for iy := 1 to n + 1
        invariant forall i, j | InSquare(ld, i, j) ::
                    tcur[PlaneAt(ld, i, j)] ==
                      if Swept(n, 1, iy, i, j) then Stencil(ld, t, f, i, j) else old(tcur[PlaneAt(ld, i, j)])
      {
        for ix := 1 to n + 1
          invariant forall i, j | InSquare(ld, i, j) ::
                      tcur[PlaneAt(ld, i, j)] ==
                        if Swept(n, ix, iy, i, j) then Stencil(ld, t, f, i, j) else old(tcur[PlaneAt(ld, i, j)])
        {
          PlaneInjective(ld, ix, iy);
          UpdateNode(ix, iy);
        }
      }
    }

    /** The maximum entry among the unknowns; ghost entries may be out of date and do not count. */
    method MaxNorm() returns (maxNorm: real)
      requires Shaped()
      ensures maxNorm >= 0.0
      ensures forall i, j | Inside(i, j) ::
                0 <= PlaneAt(Ld(), i, j) < tcur.Length && Abs(tcur[PlaneAt(Ld(), i, j)]) <= maxNorm
      ensures maxNorm == 0.0 || exists i, j :: Inside(i, j) && Abs(tcur[PlaneAt(Ld(), i, j)]) == maxNorm
    {
      var n, ld := numRowsPerObject, numRowsPerObject + 2;
      AllPlaneBound(ld);
      maxNorm := 0.0;
      for iy := 1 to n + 1
        invariant maxNorm >= 0.0
        invariant forall i, j | Swept(n, 1, iy, i, j) :: Abs(tcur[PlaneAt(ld, i, j)]) <= maxNorm
        invariant maxNorm == 0.0 || exists i, j :: Inside(i, j) && Abs(tcur[PlaneAt(ld, i, j)]) == maxNorm
      {
        for ix := 1 to n + 1
          invariant maxNorm >= 0.0
          invariant forall i, j | Swept(n, ix, iy, i, j) :: Abs(tcur[PlaneAt(ld, i, j)]) <= maxNorm
          invariant maxNorm == 0.0 || exists i, j :: Inside(i, j) && Abs(tcur[PlaneAt(ld, i, j)]) == maxNorm
        {
          assert Inside(ix, iy) && InSquare(ld, ix, iy);
          var val := tcur[PlaneAt(ld, ix, iy)];
          maxNorm := if maxNorm > Abs(val) then maxNorm else Abs(val);
        }
      }
    }

    /** The ghost lines are kept, the unknowns swept, and the result becomes the old iterate. */
    method SweepBlock()
      requires Shaped()
      modifies tcur, told
      ensures tcur[..] == told[..]
      ensures forall i, j | InSquare(Ld(), i, j) ::
                && 0 <= PlaneAt(Ld(), i, j) < tcur.Length
                && told[PlaneAt(Ld(), i, j)] ==
                     if Inside(i, j) then Stencil(Ld(), old(told[..]), rhs[..], i, j)
                       else old(told[PlaneAt(Ld(), i, j)])
      ensures RowsSolved(Ld(), told[..], old(told[..]), rhs[..])
    {
      CopyGhosts();
      SweepUnknowns();
      CopyBack();
      StencilsSolve(Ld(), told[..], old(told[..]), rhs[..]);
    }

    /** One iteration of the element: its block is swept, and its norm goes into the reduction. */
    method DoIteration(ghost p: Problem, ghost s: Elem) returns (maxNorm: real)
      requires Holds(p, s)
      modifies this`iter, tcur, told
      ensures Holds(p, JacobiProtocol.DoIteration(p, Idx(), s))
      ensures IsBlockNorm(p, JacobiProtocol.DoIteration(p, Idx(), s).told, maxNorm)
      ensures tcur[..] == told[..] && RowsSolved(Ld(), told[..], old(told[..]), rhs[..])
    {
      ghost var t, f := told[..], rhs[..];
      SweepBlock();
      iter := iter + 1;
      maxNorm := MaxNorm();
      BlockIsSwept(p, Idx(), s.told, Ld(), t, f, told[..]);
      BlockNorm(p, Sweep(p, Idx(), s.told), Ld(), told[..], maxNorm);
    }

    // -------------------------------------------------------------- exchange

    /** A face from side (a, up) fills the ghost line there and is counted. */
    method ReceiveLine(a: nat, up: bool, val: seq<real>, ghost p: Problem, ghost s: Elem, ghost f: Field)
      requires Holds(p, s) && a < 2 && IsFace(Ld(), val, f)
      modifies this`msgReceived, told
      ensures Holds(p, s.(told := Store(p, s.told, a, up, f), msgReceived := s.msgReceived + 1))
    {
      var ld := numRowsPerObject + 2;
      SetLine(ld, told, a, if up then numRowsPerObject + 1 else 0, val);
      msgReceived := msgReceived + 1;
      forall i, j | InSquare(ld, i, j)
        ensures 0 <= PlaneAt(ld, i, j) < told.Length && told[PlaneAt(ld, i, j)] == Store(p, s.told, a, up, f)([i, j])
      {
        LineOfCell(a, i, j);
      }
    }

    /** Receive and treat a face from a neighbouring object; the last one starts the iteration. */
    method Exchange(fx: int, fy: int, val: seq<real>, ghost p: Problem, ghost s: Elem, ghost f: Field)
      returns (norm: Option<real>)
      requires Holds(p, s) && IsFace(Ld(), val, f)
      modifies this`iter, this`msgReceived, tcur, told
      ensures Holds(p, JacobiProtocol.Exchange(p, Idx(), s, [fx, fy], f))
      ensures norm.Some? <==> iter != old(iter)
      ensures norm.Some? ==> IsBlockNorm(p, JacobiProtocol.Exchange(p, Idx(), s, [fx, fy], f).told, norm.value)
    {
      SideOfSender(x, y, fx, fy);
      ghost var r := Receive(p, Idx(), s, [fx, fy], f);
      if x > fx {
        ReceiveLine(0, false, val, p, s, f);
      } else if x < fx {
        ReceiveLine(0, true, val, p, s, f);
      } else if y > fy {
        ReceiveLine(1, false, val, p, s, f);
      } else if y < fy {
        ReceiveLine(1, true, val, p, s, f);
      }
      assert Holds(p, r);
      norm := None;
      if msgReceived == totalReceive {
        msgReceived := 0;
        var m := DoIteration(p, r.(msgReceived := 0));
        norm := Some(m);
      }
    }

    // -------------------------------------------------------------- doIter

    /** The line of unknowns next to a neighbour, packed for sending. */
    method SendSide(a: nat, up: bool, to: Index, goes: bool, ghost p: Problem, ghost s: Elem) returns (sent: seq<Halo>)
      requires Holds(p, s) && a < 2 && to == Shift(Idx(), a, up) && goes == Sends(p, Idx(), a, up)
      ensures Matches(Ld(), sent, SideMsg(p, Idx(), s.told, a, up))
    {
      sent := [];
      if goes {
        var ld := numRowsPerObject + 2;
        var tcopy := PackLine(ld, told, a, if up then ld - 2 else 1);
        forall r | 0 <= r < ld ensures tcopy[r] == Pack(p, s.told, a, up)([r]) {
          PackedCell(p, s.told, ld, told[..], a, up, r);
        }
        sent := [Halo(to, tcopy)];
      }
    }

    /** One face to each lower, or each upper, neighbour. */
    method SendSides(up: bool, ghost p: Problem, ghost s: Elem) returns (sent: seq<Halo>)
      requires Holds(p, s)
      ensures Matches(Ld(), sent, SideFaces(p, Idx(), s.told, up, 2))
    {
      SidesOf(p, x, y);
      var d := if up then 1 else -1;
      var s0 := SendSide(0, up, [x + d, y], if up then x < numObjsX - 1 else x > 0, p, s);
      var s1 := SendSide(1, up, [x, y + d], if up then y < numObjsY - 1 else y > 0, p, s);
      MatchSides(p, Idx(), s.told, Ld(), up, s0, s1);
      sent := s0 + s1;
    }

    /** One face to each neighbour, lower neighbours first. */
    method SendFaces(ghost p: Problem, ghost s: Elem) returns (sent: seq<Halo>)
      requires Holds(p, s)
      ensures Matches(Ld(), sent, Faces(p, Idx(), s.told))
    {
      var lower := SendSides(false, p, s);
      var upper := SendSides(true, p, s);
      sent := lower + upper;
    }

    /** Handle doIter: iterate at once if the object is alone, otherwise send the faces to all neighbours. */
    method DoIter(ghost p: Problem, ghost s: Elem) returns (sent: seq<Halo>, norm: Option<real>)
      requires p.WellFormed() && Holds(p, s)
      modifies this`iter, tcur, told
      ensures Alone(p.num) ==> sent == [] && Holds(p, JacobiProtocol.DoIteration(p, Idx(), s))
      ensures Alone(p.num) ==> norm.Some? && IsBlockNorm(p, JacobiProtocol.DoIteration(p, Idx(), s).told, norm.value)
      ensures !Alone(p.num) ==> norm.None? && Holds(p, s) && Matches(Ld(), sent, Faces(p, Idx(), s.told))
    {
      AloneGuard(p, numObjsX, numObjsY);
      if numObjsX * numObjsY <= 1 {
        var m := DoIteration(p, s);
        sent, norm := [], Some(m);
      } else {
        sent := SendFaces(p, s);
        norm := None;
      }
    }
  }

  /** The initial guess for cell (i, j) of the block of element (x, y). */
  function StartAt(start: (int, int) -> real, n: nat, x: int, y: int, i: int, j: int): (v: real) {
    start(n * x + i, n * y + j)
  }

  /** The initial guess as a field. */
  ghost function OnCells(start: (int, int) -> real): Field { (g: Index) => if |g| == 2 then start(g[0], g[1]) else 0.0 }

  /** The cell comes before (ix, iy) in the order of the loops. */
  ghost predicate Filled(ix: int, iy: int, i: int, j: int) { j < iy || (j == iy && i < ix) }

  lemma ExpectedSides(p: Problem, x: int, y: int)
    requires |p.num| == 2
    ensures Expected(p, [x, y], 2) ==
            (if x == 0 then 0 else 1) + (if p.num[0] == x + 1 then 0 else 1) + (if y == 0 then 0 else 1) +
              (if p.num[1] == y + 1 then 0 else 1)
  {
    var e: Index := [x, y];
    assert Expected(p, e, 1) == (if x == 0 then 0 else 1) + (if p.num[0] == x + 1 then 0 else 1);
  }

  lemma InitCell(p: Problem, x: int, y: int, start: (int, int) -> real, i: int, j: int)
    requires |p.num| == 2
    ensures JacobiSchedules.InitElem(p, [x, y], OnCells(start)).told([i, j]) ==
            if (x == 0 && i == 0) || (y == 0 && j == 0)
               || (p.num[0] == x + 1 && i == p.n + 1) || (p.num[1] == y + 1 && j == p.n + 1)
            then 0.0 else StartAt(start, p.n, x, y, i, j)
  {
    var e: Index, c: Index := [x, y], [i, j];
    assert e[0] == x && e[1] == y && c[0] == i && c[1] == j;
    var g := p.Global(e, c);
    assert g[0] == p.n * x + i && g[1] == p.n * y + j;
    assert JacobiSchedules.ZeroedByInit(p, e, c) <==>
           ((x == 0 && i == 0) || (y == 0 && j == 0)
            || (p.num[0] == x + 1 && i == p.n + 1) || (p.num[1] == y + 1 && j == p.n + 1));
  }

  /** The faces handed to the runtime are those the protocol sends, in the same order. */
  ghost predicate Matches(ld: nat, sent: seq<Halo>, ms: seq<Msg>) {
    && |sent| == |ms|
    && forall q | 0 <= q < |sent| :: sent[q].to == ms[q].to && IsFace(ld, sent[q].val, ms[q].val)
  }

  lemma MatchSides(p: Problem, e: Index, told: Field, ld: nat, up: bool, s0: seq<Halo>, s1: seq<Halo>)
    requires |e| == |p.num| == |p.dims| == 2
    requires Matches(ld, s0, SideMsg(p, e, told, 0, up)) && Matches(ld, s1, SideMsg(p, e, told, 1, up))
    ensures Matches(ld, s0 + s1, SideFaces(p, e, told, up, 2))
  {
    assert SideFaces(p, e, told, up, 0) == [];
    assert SideFaces(p, e, told, up, 1) == SideMsg(p, e, told, 0, up);
  }

  /** The neighbour of an element on each side, and when there is one. */
  lemma SidesOf(p: Problem, x: int, y: int)
    requires |p.num| == |p.dims| == 2
    ensures var e: Index := [x, y];
            && Shift(e, 0, false) == [x - 1, y] && Shift(e, 0, true) == [x + 1, y]
            && Shift(e, 1, false) == [x, y - 1] && Shift(e, 1, true) == [x, y + 1]
            && Sends(p, e, 0, false) == (x > 0) && Sends(p, e, 0, true) == (x < p.num[0] - 1)
            && Sends(p, e, 1, false) == (y > 0) && Sends(p, e, 1, true) == (y < p.num[1] - 1)
  {
  }

  lemma AloneGuard(p: Problem, nx: nat, ny: nat)
    requires p.WellFormed() && p.num == [nx, ny]
    ensures Alone(p.num) <==> nx * ny <= 1
  {
    assert p.num[0] == nx && p.num[1] == ny;
    if nx >= 2 {
      MulMono(nx, 1, ny);
    } else {
      assert nx * ny == ny;
    }
  }

  lemma LineOfCell(a: nat, i: int, j: int)
    requires a < 2
    ensures var c: Index := [i, j]; c[a] == Axis(a, i, j) && Drop(c, a) == [Other(a, i, j)]
  {
  }

  lemma PackedCell(p: Problem, block: Field, ld: nat, told: seq<real>, a: nat, up: bool, r: int)
    requires |p.dims| == 2 && ld == p.n + 2 && IsBlock(ld, told, block) && a < 2 && 0 <= r < ld
    ensures 0 <= LineAt(ld, a, if up then ld - 2 else 1, r) < |told|
    ensures Pack(p, block, a, up)([r]) ==
              if 0 < r < ld - 1 then told[LineAt(ld, a, if up then ld - 2 else 1, r)] else 0.0
  {
    var g := if up then ld - 2 else 1;
    var c: Index := [r];
    LineCell(ld, a, g, r);
    assert c[0] == r;
    assert InnerFace(p, c) <==> 0 < r < ld - 1;
    if InnerFace(p, c) {
      var d := Insert(c, a, if up then p.n else 1);
      assert d == if a == 0 then [g, r] else [r, g];
      assert InSquare(ld, d[0], d[1]);
    }
  }

  /** Which side a sender is on. */
  lemma SideOfSender(x: int, y: int, fx: int, fy: int)
    ensures FirstDiff([x, y], [fx, fy], 0) == if x != fx then 0 else if y != fy then 1 else 2
  {
    var e: Index, f: Index := [x, y], [fx, fy];
    assert e[0] == x && f[0] == fx && e[1] == y && f[1] == fy;
    var d := FirstDiff(e, f, 0);
    assert d > 0 ==> e[0] == f[0];
    assert d > 1 ==> e[1] == f[1];
  }

  /** The block, as a flattened array. */
  ghost predicate IsBlock(ld: nat, a: seq<real>, block: Field) {
    && |a| == ld * ld
    && forall i, j | InSquare(ld, i, j) :: 0 <= PlaneAt(ld, i, j) < |a| && a[PlaneAt(ld, i, j)] == block([i, j])
  }

  lemma BlockIsSwept(p: Problem, e: Index, block: Field, ld: nat, told: seq<real>, rhs: seq<real>, swept: seq<real>)
    requires |p.dims| == |e| == 2 && ld == p.n + 2 && |rhs| == ld * ld == |swept| && IsBlock(ld, told, block)
    requires forall i, j | InSquare(ld, i, j) ::
               0 <= PlaneAt(ld, i, j) < |rhs| &&
                 (p.Inner([i, j]) ==> rhs[PlaneAt(ld, i, j)] == p.rhs(p.Global(e, [i, j])))
    requires forall i, j | InSquare(ld, i, j) ::
               swept[PlaneAt(ld, i, j)] ==
                 if 1 <= i <= p.n && 1 <= j <= p.n then Stencil(ld, told, rhs, i, j) else told[PlaneAt(ld, i, j)]
    ensures IsBlock(ld, swept, Sweep(p, e, block))
  {
    forall i, j | InSquare(ld, i, j) ensures swept[PlaneAt(ld, i, j)] == Sweep(p, e, block)([i, j]) {
      InnerCell(p, i, j);
      if p.Inner([i, j]) {
        StencilIsSweep(p, e, block, ld, told, rhs, i, j);
      } else {
        GhostKept(p, e, block, [i, j]);
      }
    }
  }

  lemma InnerCell(p: Problem, i: int, j: int)
    requires |p.dims| == 2
    ensures p.Inner([i, j]) <==> 1 <= i <= p.n && 1 <= j <= p.n
  {
    var c: Index := [i, j];
    assert c[0] == i && c[1] == j;
  }

  lemma GhostKept(p: Problem, e: Index, block: Field, c: Index)
    requires |p.dims| == |e| == 2 && !p.Inner(c)
    ensures Sweep(p, e, block)(c) == block(c)
  {
  }

  lemma BlockNorm(p: Problem, block: Field, ld: nat, a: seq<real>, m: real)
    requires |p.dims| == 2 && ld == p.n + 2 && IsBlock(ld, a, block) && m >= 0.0
    requires forall i, j | 1 <= i <= p.n && 1 <= j <= p.n ::
               0 <= PlaneAt(ld, i, j) < |a| && Abs(a[PlaneAt(ld, i, j)]) <= m
    requires m == 0.0 || exists i, j :: (1 <= i <= p.n && 1 <= j <= p.n) && Abs(a[PlaneAt(ld, i, j)]) == m
    ensures IsBlockNorm(p, block, m)
  {
    forall c | p.Inner(c) ensures Abs(block(c)) <= m {
      assert c == [c[0], c[1]] && InSquare(ld, c[0], c[1]);
    }
    if m != 0.0 {
      var i, j :| (1 <= i <= p.n && 1 <= j <= p.n) && Abs(a[PlaneAt(ld, i, j)]) == m;
      assert InSquare(ld, i, j);
      assert p.Inner([i, j]) && Abs(block([i, j])) == m;
    }
  }

  /** The four neighbours of a cell. */
  lemma NbrSum2(u: Field, i: int, j: int)
    ensures NbrSum(u, [i, j], 2) == u([i - 1, j]) + u([i + 1, j]) + u([i, j - 1]) + u([i, j + 1])
  {
    var c: Index := [i, j];
    assert Shift(c, 0, false) == [i - 1, j] && Shift(c, 0, true) == [i + 1, j];
    assert Shift(c, 1, false) == [i, j - 1] && Shift(c, 1, true) == [i, j + 1];
    assert NbrSum(u, c, 2) == NbrSum(u, c, 1) + u([i, j - 1]) + u([i, j + 1]);
    assert NbrSum(u, c, 1) == 0.0 + u([i - 1, j]) + u([i + 1, j]);
  }

  lemma StencilOfBlock(ld: nat, told: seq<real>, rhs: seq<real>, block: Field, i: int, j: int)
    requires IsBlock(ld, told, block) && |rhs| == |told| && 1 <= i < ld - 1 && 1 <= j < ld - 1
    ensures 0 <= PlaneAt(ld, i, j) < |rhs|
    ensures Stencil(ld, told, rhs, i, j) ==
            Row(rhs[PlaneAt(ld, i, j)], block([i - 1, j]), block([i + 1, j]), block([i, j - 1]), block([i, j + 1]))
  {
    StencilPlaces(ld, i, j);
    assert InSquare(ld, i - 1, j) && InSquare(ld, i + 1, j) && InSquare(ld, i, j - 1) && InSquare(ld, i, j + 1);
  }

  lemma RelaxIsRow(p: Problem, r: real, a: real, b: real, c: real, d: real)
    requires |p.dims| == 2
    ensures p.Relax(r, a + b + c + d) == Row(r, a, b, c, d)
  {
  }

  /** The stencil of the problem, written out. */
  lemma SweepIsRow(p: Problem, e: Index, block: Field, i: int, j: int)
    requires |p.dims| == |e| == 2 && p.Inner([i, j])
    ensures Sweep(p, e, block)([i, j]) ==
            Row(p.rhs(p.Global(e, [i, j])), block([i - 1, j]), block([i + 1, j]), block([i, j - 1]), block([i, j + 1]))
  {
    NbrSum2(block, i, j);
    RelaxIsRow(p, p.rhs(p.Global(e, [i, j])), block([i - 1, j]), block([i + 1, j]), block([i, j - 1]),
      block([i, j + 1]));
  }

  /** The stencil on the flattened arrays is the stencil of the problem. */
  lemma StencilIsSweep(p: Problem, e: Index, block: Field, ld: nat, told: seq<real>, rhs: seq<real>, i: int, j: int)
    requires |p.dims| == |e| == 2 && ld == p.n + 2 && |rhs| == |told| && IsBlock(ld, told, block)
    requires 1 <= i <= p.n && 1 <= j <= p.n
    requires 0 <= PlaneAt(ld, i, j) < |rhs| && rhs[PlaneAt(ld, i, j)] == p.rhs(p.Global(e, [i, j]))
    ensures Stencil(ld, told, rhs, i, j) == Sweep(p, e, block)([i, j])
  {
    InnerCell(p, i, j);
    StencilOfBlock(ld, told, rhs, block, i, j);
    SweepIsRow(p, e, block, i, j);
  }

  /** The new value of one unknown, read off the flattened arrays. */
  ghost function Stencil(ld: nat, told: seq<real>, rhs: seq<real>, i: int, j: int): real
    requires |told| == |rhs| == ld * ld && 1 <= i < ld - 1 && 1 <= j < ld - 1
  {
    StencilPlaces(ld, i, j);
    var node := PlaneAt(ld, i, j);
    Row(rhs[node], told[node - 1], told[node + 1], told[node - ld], told[node + ld])
  }

  /**
    Each unknown solves its row of the five-point matrix with the old values around it, on the flattened
    arrays; the cells around the unknowns are kept.
   */
  ghost predicate RowsSolved(ld: nat, now: seq<real>, before: seq<real>, rhs: seq<real>) {
    && |now| == |before| == |rhs| == ld * ld
    && (forall i, j | InSquare(ld, i, j) && !Within(ld, i, j) ::
          0 <= PlaneAt(ld, i, j) < |now| && now[PlaneAt(ld, i, j)] == before[PlaneAt(ld, i, j)])
    && forall i, j | Within(ld, i, j) :: RowSolved(ld, now, before, rhs, PlaneAt(ld, i, j))
  }

  predicate Within(ld: nat, i: int, j: int) { 1 <= i < ld - 1 && 1 <= j < ld - 1 }

  ghost predicate RowSolved(ld: nat, now: seq<real>, before: seq<real>, rhs: seq<real>, node: int)
    requires |now| == |before| == |rhs|
  {
    && 0 < ld <= node < |now| - ld
    && 4.0 * now[node] - before[node - 1] - before[node + 1] - before[node - ld] - before[node + ld] == rhs[node]
  }

  lemma StencilsSolve(ld: nat, now: seq<real>, before: seq<real>, rhs: seq<real>)
    requires |now| == |before| == |rhs| == ld * ld
    requires forall i, j | InSquare(ld, i, j) ::
               && 0 <= PlaneAt(ld, i, j) < |now|
               && now[PlaneAt(ld, i, j)] ==
                    if Within(ld, i, j) then Stencil(ld, before, rhs, i, j) else before[PlaneAt(ld, i, j)]
    ensures RowsSolved(ld, now, before, rhs)
  {
    forall i, j | Within(ld, i, j) ensures RowSolved(ld, now, before, rhs, PlaneAt(ld, i, j)) {
      assert InSquare(ld, i, j);
      StencilPlaces(ld, i, j);
    }
  }

  /** One row of the five-point stencil. */
  function Row(r: real, west: real, east: real, south: real, north: real): (v: real) {
    0.25 * (r + west + east + south + north)
  }

  /** The places of the cells around a cell, all of them in the block. */
  lemma StencilPlaces(ld: nat, i: int, j: int)
    requires 1 <= i < ld - 1 && 1 <= j < ld - 1
    ensures var node, m := PlaneAt(ld, i, j), ld * ld;
            && 0 <= node < m && 0 <= node - 1 && node + 1 < m && 0 <= node - ld && node + ld < m
            && PlaneAt(ld, i - 1, j) == node - 1 && PlaneAt(ld, i + 1, j) == node + 1
            && PlaneAt(ld, i, j - 1) == node - ld && PlaneAt(ld, i, j + 1) == node + ld
  {
    assert (j - 1) * ld == j * ld - ld && (j + 1) * ld == j * ld + ld;
    RowBound(ld, i, j);
    RowBound(ld, i - 1, j);
    RowBound(ld, i + 1, j);
    RowBound(ld, i, j - 1);
    RowBound(ld, i, j + 1);
  }

  /** The unknown comes before (ix, iy) in the order of the loops. */
  ghost predicate Swept(n: nat, ix: int, iy: int, i: int, j: int) {
    1 <= i <= n && 1 <= j <= n && (j < iy || (j == iy && i < ix))
  }
}
