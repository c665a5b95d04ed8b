/**
  The element of the three-dimensional solver, with its flattened arrays, proved to do
  on them what the element of the protocol does on its block.
 */
module Jacobi3D {
  import opened Arithmetic
  import opened JacobiGrid
  import opened JacobiProtocol
  import opened JacobiFlat
  import opened JacobiNorm
  import JacobiSchedules
  import opened Common

  ghost predicate IsFace(ld: nat, val: seq<real>, f: Field) {
    && |val| == ld * ld
    && forall r, t | 0 <= r < ld && 0 <= t < ld :: 0 <= PlaneAt(ld, r, t) < |val| && val[PlaneAt(ld, r, t)] == f([r, t])
  }

  class LinearPb3DJacobi {
    const x: int
    const y: int
    const z: int
    var tcur: array<real>
    var told: array<real>
    var rhs: array<real>
    var iter: nat
    var msgReceived: nat
    var totalReceive: nat
    var numObjsX: nat
    var numObjsY: nat
    var numObjsZ: nat
    var numRowsPerObject: nat
    var maxIter: nat

    ghost function Idx(): Index { [x, y, z] }

    function Ld(): nat reads this { numRowsPerObject + 2 }

    ghost predicate Shaped()
      reads this
    {
      && tcur != told && tcur != rhs && told != rhs
      && tcur.Length == told.Length == rhs.Length == Ld() * Ld() * Ld()
    }

    /** The arrays and counters are those of element s of problem p. */
    ghost predicate Holds(p: Problem, s: Elem)
      reads this, told, rhs
    {
      && Shaped() && HoldsCounters(p, s)
      && (forall i, j, k | InCube(Ld(), i, j, k) ::
            0 <= At(Ld(), i, j, k) < told.Length && told[At(Ld(), i, j, k)] == s.told([i, j, k]))
      && HoldsRhs(p)
    }

    ghost predicate HoldsCounters(p: Problem, s: Elem)
      reads this
    {
      && p.n == numRowsPerObject && p.num == [numObjsX, numObjsY, numObjsZ] && |p.dims| == 3
      && msgReceived == s.msgReceived && totalReceive == s.totalReceive && iter == s.iter
    }

    ghost predicate HoldsRhs(p: Problem)
      reads this, rhs
      requires Shaped() && |p.dims| == 3
    {
      forall i, j, k | InCube(Ld(), i, j, k) ::
        0 <= At(Ld(), i, j, k) < rhs.Length &&
          (p.Inner([i, j, k]) ==> rhs[At(Ld(), i, j, k)] == p.rhs(p.Global(Idx(), [i, j, k])))
    }

    constructor (x: int, y: int, z: int)
      ensures this.x == x && this.y == y && this.z == z
      ensures iter == 0 && msgReceived == 0 && numRowsPerObject == 64
    {
      this.x, this.y, this.z := x, y, z;
      tcur, told, rhs := new real[0], new real[0], new real[0];
      iter, msgReceived, totalReceive := 0, 0, 0;
      numObjsX, numObjsY, numObjsZ := 1, 1, 1;
      numRowsPerObject, maxIter := 64, 5;
    }

    // -------------------------------------------------------------- init

    /** Fill the block with the initial guess, given on global cells. */
    method FillStart(start: (int, int, int) -> real)
      requires Shaped()
      modifies tcur
      ensures forall i, j, k | InCube(Ld(), i, j, k) ::
                && 0 <= At(Ld(), i, j, k) < tcur.Length
                && tcur[At(Ld(), i, j, k)] == StartAt(start, numRowsPerObject, x, y, z, i, j, k)
    {
      var n, ld := numRowsPerObject, numRowsPerObject + 2;
      var gx, gy, gz := n * x, n * y, n * z;
      AllBound(ld);
      for iz := 0 to ld
        invariant forall i, j, k | InCube(ld, i, j, k) && Filled(0, 0, iz, i, j, k) ::
                    tcur[At(ld, i, j, k)] == StartAt(start, n, x, y, z, i, j, k)
      {
        for iy := 0 to ld
          invariant forall i, j, k | InCube(ld, i, j, k) && Filled(0, iy, iz, i, j, k) ::
                      tcur[At(ld, i, j, k)] == StartAt(start, n, x, y, z, i, j, k)
        {
          for ix := 0 to ld
            invariant forall i, j, k | InCube(ld, i, j, k) && Filled(ix, iy, iz, i, j, k) ::
                        tcur[At(ld, i, j, k)] == StartAt(start, n, x, y, z, i, j, k)
          {
            AtCell(ld, ix, iy, iz);
            tcur[ix + iy * ld + iz * ld * ld] := start(gx + ix, gy + iy, gz + iz);
          }
        }
      }
    }

    /** Set a ghost layer to the boundary value if it lies at an end of the range, and expect no face from there. */
    method CloseSide(a: nat, up: bool, atEnd: bool)
      requires Shaped() && a < 3 && totalReceive > 0
      modifies this`totalReceive, tcur
      ensures totalReceive == old(totalReceive) - (if atEnd then 1 else 0)
      ensures forall i, j, k | InCube(Ld(), i, j, k) ::
                && 0 <= At(Ld(), i, j, k) < tcur.Length
                && tcur[At(Ld(), i, j, k)] ==
                   if atEnd && Across(a, i, j, k) == (if up then numRowsPerObject + 1 else 0) then 0.0
                     else old(tcur[At(Ld(), i, j, k)])
    {
      var ld := numRowsPerObject + 2;
      AllBound(ld);
      if atEnd {
        var zeros := seq(ld * ld, _ => 0.0);
        SetLayer(ld, tcur, a, if up then ld - 1 else 0, zeros);
        totalReceive := totalReceive - 1;
      }
    }

    /** All six sides. */
    method CloseSides()
      requires Shaped()
      modifies this`totalReceive, tcur
      ensures totalReceive ==
                (if x == 0 then 0 else 1) + (if numObjsX == x + 1 then 0 else 1)
                + (if y == 0 then 0 else 1) + (if numObjsY == y + 1 then 0 else 1)
                + (if z == 0 then 0 else 1) + (if numObjsZ == z + 1 then 0 else 1)
      ensures forall i, j, k | InCube(Ld(), i, j, k) ::
                && 0 <= At(Ld(), i, j, k) < tcur.Length
                && tcur[At(Ld(), i, j, k)] == if Closed(i, j, k) then 0.0 else old(tcur[At(Ld(), i, j, k)])
    {
      totalReceive := 6;
      CloseSide(0, false, x == 0);
      CloseSide(1, false, y == 0);
      CloseSide(2, false, z == 0);
      CloseSide(0, true, numObjsX == x + 1);
      CloseSide(1, true, numObjsY == y + 1);
      CloseSide(2, true, numObjsZ == z + 1);
    }

    ghost predicate Closed(i: int, j: int, k: int)
      reads this
    {
      var hi := numRowsPerObject + 1;
      || (x == 0 && i == 0) || (y == 0 && j == 0) || (z == 0 && k == 0)
      || (numObjsX == x + 1 && i == hi) || (numObjsY == y + 1 && j == hi) || (numObjsZ == z + 1 && k == hi)
    }

    /** The new iterate becomes the old one. */
    method CopyBack()
      requires Shaped()
      modifies told
      ensures told[..] == tcur[..]
    {
      for q := 0 to told.Length
        invariant told[..q] == tcur[..q]
      {
        told[q] := tcur[q];
      }
    }

    /** Allocate the arrays and set them to the initial guess and the boundary values. */
    method Start(start: (int, int, int) -> real)
      modifies this`tcur, this`told, this`rhs, this`totalReceive
      ensures fresh(tcur) && fresh(told) && fresh(rhs) && Shaped() && (forall q | 0 <= q < rhs.Length :: rhs[q] == 0.0)
      ensures totalReceive ==
                (if x == 0 then 0 else 1) + (if numObjsX == x + 1 then 0 else 1)
                + (if y == 0 then 0 else 1) + (if numObjsY == y + 1 then 0 else 1)
                + (if z == 0 then 0 else 1) + (if numObjsZ == z + 1 then 0 else 1)
      ensures forall i, j, k | InCube(Ld(), i, j, k) ::
                && 0 <= At(Ld(), i, j, k) < told.Length
                && told[At(Ld(), i, j, k)] ==
                   if Closed(i, j, k) then 0.0 else StartAt(start, numRowsPerObject, x, y, z, i, j, k)
    {
      var ld := numRowsPerObject + 2;
      tcur := new real[ld * ld * ld](_ => 0.0);
      told := new real[ld * ld * ld](_ => 0.0);
      rhs := new real[ld * ld * ld](_ => 0.0);
      FillStart(start);
      CloseSides();
      CopyBack();
      assert told[..] == tcur[..];
    }

    /** Initialise the element; the number of objects along z in the message is not used. */
    method Init(numXObjs: nat, numYObjs: nat, numZObjs: nat, numIter: nat, start: (int, int, int) -> real,
        ghost p: Problem)
      requires |p.dims| == 3 && p.n == numRowsPerObject && p.num == [numXObjs, numYObjs, numYObjs] &&
               (forall g :: p.rhs(g) == 0.0)
      requires iter == 0 && msgReceived == 0
      modifies this
      ensures fresh(tcur) && fresh(told) && fresh(rhs)
      ensures numObjsX == numXObjs && numObjsY == numYObjs && numObjsZ == numYObjs && maxIter == numIter
      ensures Holds(p, JacobiSchedules.InitElem(p, Idx(), OnCells(start)))
    {
      numObjsX, numObjsY, numObjsZ := numXObjs, numYObjs, numYObjs;
      maxIter := numIter;
      Start(start);
      ghost var ld := Ld();
      ghost var s := JacobiSchedules.InitElem(p, Idx(), OnCells(start));
      ExpectedSides(p, x, y, z);
      forall i, j, k | InCube(ld, i, j, k) ensures told[At(ld, i, j, k)] == s.told([i, j, k]) {
        InitCell(p, x, y, z, start, i, j, k);
      }
    }

    // -------------------------------------------------------------- doIteration

    ghost predicate Inside(i: int, j: int, k: int)
      reads this
    {
      1 <= i <= numRowsPerObject && 1 <= j <= numRowsPerObject && 1 <= k <= numRowsPerObject
    }

    /** The six ghost layers of told are carried over to tcur. */
    method CopyGhosts()
      requires Shaped()
      modifies tcur
      ensures forall i, j, k | InCube(Ld(), i, j, k) ::
                0 <= At(Ld(), i, j, k) < tcur.Length &&
                  (!Inside(i, j, k) ==> tcur[At(Ld(), i, j, k)] == told[At(Ld(), i, j, k)])
    {
      var ld := numRowsPerObject + 2;
      CopyLayer(ld, tcur, told, 2, 0);
      CopyLayer(ld, tcur, told, 2, ld - 1);
      CopyLayer(ld, tcur, told, 1, 0);
      CopyLayer(ld, tcur, told, 1, ld - 1);
      CopyLayer(ld, tcur, told, 0, 0);
      CopyLayer(ld, tcur, told, 0, ld - 1);
    }

    /** The stencil on one unknown. */
    method UpdateNode(ix: int, iy: int, iz: int)
      requires Shaped() && Inside(ix, iy, iz)
      modifies tcur
      ensures tcur.Length == old(tcur.Length) && 0 <= At(Ld(), ix, iy, iz) < tcur.Length
      ensures tcur[..] == old(tcur[..])[At(Ld(), ix, iy, iz) := Stencil(Ld(), told[..], rhs[..], ix, iy, iz)]
    {
      var ldx, ldy := numRowsPerObject + 2, numRowsPerObject + 2;
      var node := ix + iy * ldx + iz * ldx * ldy;
      StencilPlaces(ldx, ix, iy, iz);
      tcur[node] := (1.0 / 6.0) * (rhs[node]
                                   + told[node - 1] + told[node + 1]
                                   + told[node - ldx] + told[node + ldx]
                                   + told[node - ldx * ldy] + told[node + ldx * ldy]);
    }

    /** The stencil on every unknown, from told into tcur. */
    method SweepUnknowns()
      requires Shaped()
      modifies tcur
      ensures forall i, j, k | InCube(Ld(), i, j, k) ::
                && 0 <= At(Ld(), i, j, k) < tcur.Length
                && tcur[At(Ld(), i, j, k)] ==
                   if Inside(i, j, k) then Stencil(Ld(), told[..], rhs[..], i, j, k) else old(tcur[At(Ld(), i, j, k)])
    {
      var n, ld := numRowsPerObject, numRowsPerObject + 2;
      ghost var t, f := told[..], rhs[..];
      AllBound(ld);
      for iz := 1 to n + 1
        invariant forall i, j, k | InCube(ld, i, j, k) ::
                    tcur[At(ld, i, j, k)] ==
                      if Swept(n, 1, 1, iz, i, j, k) then Stencil(ld, t, f, i, j, k) else old(tcur[At(ld, i, j, k)])
      {
        for iy := 1 to n + 1
          invariant forall i, j, k | InCube(ld, i, j, k) ::
                      tcur[At(ld, i, j, k)] ==
                        if Swept(n, 1, iy, iz, i, j, k) then Stencil(ld, t, f, i, j, k) else old(tcur[At(ld, i, j, k)])
        {
          for ix := 1 to n + 1
            invariant forall i, j, k | InCube(ld, i, j, k) ::
                        tcur[At(ld, i, j, k)] ==
                          if Swept(n, ix, iy, iz, i, j, k) then Stencil(ld, t, f, i, j, k)
                            else old(tcur[At(ld, i, j, k)])
          {
            AtCell(ld, ix, iy, iz);
            UpdateNode(ix, iy, iz);
          }
        }
      }
    }

    /** The maximum entry among the unknowns; ghost entries may be out of date and do not count. */
    method MaxNorm() returns (maxNorm: real)
      requires Shaped()
      ensures maxNorm >= 0.0
      ensures forall i, j, k | Inside(i, j, k) ::
                0 <= At(Ld(), i, j, k) < tcur.Length && Abs(tcur[At(Ld(), i, j, k)]) <= maxNorm
      ensures maxNorm == 0.0 || exists i, j, k :: Inside(i, j, k) && Abs(tcur[At(Ld(), i, j, k)]) == maxNorm
    {
      var n, ld := numRowsPerObject, numRowsPerObject + 2;
      AllBound(ld);
      maxNorm := 0.0;
      for iz := 1 to n + 1
        invariant maxNorm >= 0.0
        invariant forall i, j, k | Swept(n, 1, 1, iz, i, j, k) :: Abs(tcur[At(ld, i, j, k)]) <= maxNorm
        invariant maxNorm == 0.0 || exists i, j, k :: Inside(i, j, k) && Abs(tcur[At(ld, i, j, k)]) == maxNorm
      {
        for iy := 1 to n + 1
          invariant maxNorm >= 0.0
          invariant forall i, j, k | Swept(n, 1, iy, iz, i, j, k) :: Abs(tcur[At(ld, i, j, k)]) <= maxNorm
          invariant maxNorm == 0.0 || exists i, j, k :: Inside(i, j, k) && Abs(tcur[At(ld, i, j, k)]) == maxNorm
        {
          for ix := 1 to n + 1
            invariant maxNorm >= 0.0
            invariant forall i, j, k | Swept(n, ix, iy, iz, i, j, k) :: Abs(tcur[At(ld, i, j, k)]) <= maxNorm
            invariant maxNorm == 0.0 || exists i, j, k :: Inside(i, j, k) && Abs(tcur[At(ld, i, j, k)]) == maxNorm
          {
            assert Inside(ix, iy, iz) && InCube(ld, ix, iy, iz);
            var val := tcur[At(ld, ix, iy, iz)];
            maxNorm := if maxNorm > Abs(val) then maxNorm else Abs(val);
          }
        }
      }
    }

    /** The ghost layers are kept, the unknowns swept, and the result becomes the old iterate. */
    method SweepBlock()
      requires Shaped()
      modifies tcur, told
      ensures tcur[..] == told[..]
      ensures forall i, j, k | InCube(Ld(), i, j, k) ::
                && 0 <= At(Ld(), i, j, k) < tcur.Length
                && told[At(Ld(), i, j, k)] ==
                   if Inside(i, j, k) then Stencil(Ld(), old(told[..]), rhs[..], i, j, k)
                     else old(told[At(Ld(), i, j, k)])
      ensures RowsSolved(Ld(), told[..], old(told[..]), rhs[..])
    {
      CopyGhosts();
      SweepUnknowns();
      CopyBack();
      StencilsSolve(Ld(), told[..], old(told[..]), rhs[..]);
    }

    /** One iteration of the element: its block is swept, and its norm goes into the reduction. */
    method DoIteration(ghost p: Problem, ghost s: Elem) returns (maxNorm: real)
      requires Holds(p, s)
      modifies this`iter, tcur, told
      ensures Holds(p, JacobiProtocol.DoIteration(p, Idx(), s))
      ensures IsBlockNorm(p, JacobiProtocol.DoIteration(p, Idx(), s).told, maxNorm)
      ensures tcur[..] == told[..] && RowsSolved(Ld(), told[..], old(told[..]), rhs[..])
    {
      ghost var t, f := told[..], rhs[..];
      SweepBlock();
      iter := iter + 1;
      maxNorm := MaxNorm();
      BlockIsSwept(p, Idx(), s.told, Ld(), t, f, told[..]);
      BlockNorm(p, Sweep(p, Idx(), s.told), Ld(), told[..], maxNorm);
    }

    // -------------------------------------------------------------- exchange

    /** A face from side (a, up) fills the ghost layer there and is counted. */
    method ReceiveLayer(a: nat, up: bool, val: seq<real>, ghost p: Problem, ghost s: Elem, ghost f: Field)
      requires Holds(p, s) && a < 3 && IsFace(Ld(), val, f)
      modifies this`msgReceived, told
      ensures Holds(p, s.(told := Store(p, s.told, a, up, f), msgReceived := s.msgReceived + 1))
    {
      var ld := numRowsPerObject + 2;
      SetLayer(ld, told, a, if up then numRowsPerObject + 1 else 0, val);
      msgReceived := msgReceived + 1;
      forall i, j, k | InCube(ld, i, j, k)
        ensures 0 <= At(ld, i, j, k) < told.Length && told[At(ld, i, j, k)] == Store(p, s.told, a, up, f)([i, j, k])
      {
        LayerOfCell(a, i, j, k);
      }
    }

    /** Receive and treat a face from a neighbouring object; the last one starts the iteration. */
    method Exchange(fx: int, fy: int, fz: int, val: seq<real>, ghost p: Problem, ghost s: Elem, ghost f: Field)
      returns (norm: Option<real>)
      requires Holds(p, s) && IsFace(Ld(), val, f)
      modifies this`iter, this`msgReceived, tcur, told
      ensures Holds(p, JacobiProtocol.Exchange(p, Idx(), s, [fx, fy, fz], f))
      ensures norm.Some? <==> iter != old(iter)
      ensures norm.Some? ==> IsBlockNorm(p, JacobiProtocol.Exchange(p, Idx(), s, [fx, fy, fz], f).told, norm.value)
    {
      ReceiveFrom(fx, fy, fz, val, p, s, f);
      ghost var r := Receive(p, Idx(), s, [fx, fy, fz], f);
      norm := None;
      if msgReceived == totalReceive {
        msgReceived := 0;
        var m := DoIteration(p, r.(msgReceived := 0));
        norm := Some(m);
      }
    }

    /** Store a face on the side that it comes from. */
    method ReceiveFrom(fx: int, fy: int, fz: int, val: seq<real>, ghost p: Problem, ghost s: Elem, ghost f: Field)
      requires Holds(p, s) && IsFace(Ld(), val, f)
      modifies this`msgReceived, told
      ensures Holds(p, Receive(p, Idx(), s, [fx, fy, fz], f))
    {
      SideOfSender(x, y, z, fx, fy, fz);
      if x > fx {
        ReceiveLayer(0, false, val, p, s, f);
      } else if x < fx {
        ReceiveLayer(0, true, val, p, s, f);
      } else if y > fy {
        ReceiveLayer(1, false, val, p, s, f);
      } else if y < fy {
        ReceiveLayer(1, true, val, p, s, f);
      } else if z > fz {
        ReceiveLayer(2, false, val, p, s, f);
      } else if z < fz {
        ReceiveLayer(2, true, val, p, s, f);
      }
    }

    // -------------------------------------------------------------- doIter

    /** The layer of unknowns next to a neighbour, packed for sending. */
    method SendSide(a: nat, up: bool, to: Index, goes: bool, ghost p: Problem, ghost s: Elem) returns (sent: seq<Halo>)
      requires Holds(p, s) && a < 3 && to == Shift(Idx(), a, up) && goes == Sends(p, Idx(), a, up)
      ensures Matches(Ld(), sent, SideMsg(p, Idx(), s.told, a, up))
    {
      sent := [];
      if goes {
        var ld := numRowsPerObject + 2;
        var g := if up then ld - 2 else 1;
        var tcopy := PackLayer(ld, told, a, g);
        forall r, t | 0 <= r < ld && 0 <= t < ld
          ensures 0 <= PlaneAt(ld, r, t) < |tcopy| && tcopy[PlaneAt(ld, r, t)] == Pack(p, s.told, a, up)([r, t])
        {
          PackedCell(p, s.told, ld, told[..], a, up, r, t);
        }
        sent := [Halo(to, tcopy)];
      }
    }

    /** One face to each lower, or each upper, neighbour. */
    method SendSides(up: bool, ghost p: Problem, ghost s: Elem) returns (sent: seq<Halo>)
      requires Holds(p, s)
      ensures Matches(Ld(), sent, SideFaces(p, Idx(), s.told, up, 3))
    {
      SidesOf(p, x, y, z);
      var d := if up then 1 else -1;
      var s0 := SendSide(0, up, [x + d, y, z], if up then x < numObjsX - 1 else x > 0, p, s);
      var s1 := SendSide(1, up, [x, y + d, z], if up then y < numObjsY - 1 else y > 0, p, s);
      var s2 := SendSide(2, up, [x, y, z + d], if up then z < numObjsZ - 1 else z > 0, p, s);
      MatchSides(p, Idx(), s.told, Ld(), up, s0, s1, s2);
      sent := s0 + s1 + s2;
    }

    /** One face to each neighbour, lower neighbours first. */
    method SendFaces(ghost p: Problem, ghost s: Elem) returns (sent: seq<Halo>)
      requires Holds(p, s)
      ensures Matches(Ld(), sent, Faces(p, Idx(), s.told))
    {
      var lower := SendSides(false, p, s);
      var upper := SendSides(true, p, s);
      sent := lower + upper;
    }

    /** Handle doIter: iterate at once if the object is alone, otherwise send the faces to all neighbours. */
    method DoIter(ghost p: Problem, ghost s: Elem) returns (sent: seq<Halo>, norm: Option<real>)
      requires p.WellFormed() && Holds(p, s) && numObjsZ == numObjsY
      modifies this`iter, tcur, told
      ensures Alone(p.num) ==> sent == [] && Holds(p, JacobiProtocol.DoIteration(p, Idx(), s))
      ensures Alone(p.num) ==> norm.Some? && IsBlockNorm(p, JacobiProtocol.DoIteration(p, Idx(), s).told, norm.value)
      ensures !Alone(p.num) ==> norm.None? && Holds(p, s) && Matches(Ld(), sent, Faces(p, Idx(), s.told))
    {
      AloneGuard(p, numObjsX, numObjsY);
      if numObjsX * numObjsY <= 1 {
        var m := DoIteration(p, s);
        sent, norm := [], Some(m);
      } else {
        sent := SendFaces(p, s);
        norm := None;
      }
    }
  }

  /** The initial guess for cell (i, j, k) of the block of element (x, y, z). */
  function StartAt(start: (int, int, int) -> real, n: nat, x: int, y: int, z: int, i: int, j: int, k: int): (v: real) {
    start(n * x + i, n * y + j, n * z + k)
  }

  /** The initial guess as a field. */
  ghost function OnCells(start: (int, int, int) -> real): Field {
    (g: Index) => if |g| == 3 then start(g[0], g[1], g[2]) else 0.0
  }

  /** The cell comes before (ix, iy, iz) in the order of the loops. */
  ghost predicate Filled(ix: int, iy: int, iz: int, i: int, j: int, k: int) {
    k < iz || (k == iz && (j < iy || (j == iy && i < ix)))
  }

  lemma ExpectedSides(p: Problem, x: int, y: int, z: int)
    requires |p.num| == 3
    ensures Expected(p, [x, y, z], 3) ==
            (if x == 0 then 0 else 1) + (if p.num[0] == x + 1 then 0 else 1) + (if y == 0 then 0 else 1)
            + (if p.num[1] == y + 1 then 0 else 1) + (if z == 0 then 0 else 1) + (if p.num[2] == z + 1 then 0 else 1)
  {
    var e: Index := [x, y, z];
    assert Expected(p, e, 1) == (if x == 0 then 0 else 1) + (if p.num[0] == x + 1 then 0 else 1);
    assert Expected(p, e, 2) == Expected(p, e, 1) + (if y == 0 then 0 else 1) + (if p.num[1] == y + 1 then 0 else 1);
  }

  lemma InitCell(p: Problem, x: int, y: int, z: int, start: (int, int, int) -> real, i: int, j: int, k: int)
    requires |p.num| == 3
    ensures JacobiSchedules.InitElem(p, [x, y, z], OnCells(start)).told([i, j, k]) ==
            if || (x == 0 && i == 0) || (y == 0 && j == 0) || (z == 0 && k == 0)
               || (p.num[0] == x + 1 && i == p.n + 1) || (p.num[1] == y + 1 && j == p.n + 1)
               || (p.num[2] == z + 1 && k == p.n + 1)
            then 0.0 else StartAt(start, p.n, x, y, z, i, j, k)
  {
    var e: Index, c: Index := [x, y, z], [i, j, k];
    assert e[0] == x && e[1] == y && e[2] == z && c[0] == i && c[1] == j && c[2] == k;
    var g := p.Global(e, c);
    assert g[0] == p.n * x + i && g[1] == p.n * y + j && g[2] == p.n * z + k;
    assert JacobiSchedules.ZeroedByInit(p, e, c) <==>
           (|| (x == 0 && i == 0) || (y == 0 && j == 0) || (z == 0 && k == 0)
            || (p.num[0] == x + 1 && i == p.n + 1) || (p.num[1] == y + 1 && j == p.n + 1)
            || (p.num[2] == z + 1 && k == p.n + 1));
  }

  /** The faces handed to the runtime are those the protocol sends, in the same order. */
  ghost predicate Matches(ld: nat, sent: seq<Halo>, ms: seq<Msg>) {
    && |sent| == |ms|
    && forall q | 0 <= q < |sent| :: sent[q].to == ms[q].to && IsFace(ld, sent[q].val, ms[q].val)
  }

  lemma MatchSides(p: Problem, e: Index, told: Field, ld: nat, up: bool, s0: seq<Halo>, s1: seq<Halo>, s2: seq<Halo>)
    requires |e| == |p.num| == |p.dims| == 3
    requires Matches(ld, s0, SideMsg(p, e, told, 0, up))
    requires Matches(ld, s1, SideMsg(p, e, told, 1, up))
    requires Matches(ld, s2, SideMsg(p, e, told, 2, up))
    ensures Matches(ld, s0 + s1 + s2, SideFaces(p, e, told, up, 3))
  {
    assert SideFaces(p, e, told, up, 0) == [];
    assert SideFaces(p, e, told, up, 1) == SideMsg(p, e, told, 0, up);
    assert SideFaces(p, e, told, up, 2) == SideFaces(p, e, told, up, 1) + SideMsg(p, e, told, 1, up);
  }

  /** The neighbour of an element on each side, and when there is one. */
  lemma SidesOf(p: Problem, x: int, y: int, z: int)
    requires |p.num| == |p.dims| == 3
    ensures var e: Index := [x, y, z];
            && Shift(e, 0, false) == [x - 1, y, z] && Shift(e, 0, true) == [x + 1, y, z]
            && Shift(e, 1, false) == [x, y - 1, z] && Shift(e, 1, true) == [x, y + 1, z]
            && Shift(e, 2, false) == [x, y, z - 1] && Shift(e, 2, true) == [x, y, z + 1]
            && Sends(p, e, 0, false) == (x > 0) && Sends(p, e, 0, true) == (x < p.num[0] - 1)
            && Sends(p, e, 1, false) == (y > 0) && Sends(p, e, 1, true) == (y < p.num[1] - 1)
            && Sends(p, e, 2, false) == (z > 0) && Sends(p, e, 2, true) == (z < p.num[2] - 1)
  {
  }

  /** The guard tests only two extents; with the third a copy of the second, it tests them all. */
  lemma AloneGuard(p: Problem, nx: nat, ny: nat)
    requires p.WellFormed() && p.num == [nx, ny, ny]
    ensures Alone(p.num) <==> nx * ny <= 1
  {
    assert p.num[0] == nx && p.num[1] == ny && p.num[2] == ny;
    if nx >= 2 {
      MulMono(nx, 1, ny);
    } else {
      assert nx * ny == ny;
    }
  }

  lemma LayerOfCell(a: nat, i: int, j: int, k: int)
    requires a < 3
    ensures var c: Index := [i, j, k];
            c[a] == Across(a, i, j, k) && Drop(c, a) == [Along(a, i, j, k).0, Along(a, i, j, k).1]
  {
  }

  lemma PackedCell(p: Problem, block: Field, ld: nat, told: seq<real>, a: nat, up: bool, r: int, t: int)
    requires |p.dims| == 3 && ld == p.n + 2 && IsBlock(ld, told, block) && a < 3 && 0 <= r < ld && 0 <= t < ld
    ensures 0 <= LayerAt(ld, a, if up then ld - 2 else 1, r, t) < |told|
    ensures Pack(p, block, a, up)([r, t]) ==
            if 0 < r < ld - 1 && 0 < t < ld - 1 then told[LayerAt(ld, a, if up then ld - 2 else 1, r, t)] else 0.0
  {
    var g := if up then ld - 2 else 1;
    var c: Index := [r, t];
    LayerCell(ld, a, g, r, t);
    assert c[0] == r && c[1] == t;
    assert InnerFace(p, c) <==> 0 < r < ld - 1 && 0 < t < ld - 1;
    if InnerFace(p, c) {
      var d := Insert(c, a, if up then p.n else 1);
      assert d == if a == 0 then [g, r, t] else if a == 1 then [r, g, t] else [r, t, g];
      assert InCube(ld, d[0], d[1], d[2]);
    }
  }

  /** Which side a sender is on. */
  lemma SideOfSender(x: int, y: int, z: int, fx: int, fy: int, fz: int)
    ensures FirstDiff([x, y, z], [fx, fy, fz], 0) ==
              if x != fx then 0 else if y != fy then 1 else if z != fz then 2 else 3
  {
    var e: Index, f: Index := [x, y, z], [fx, fy, fz];
    assert e[0] == x && f[0] == fx && e[1] == y && f[1] == fy && e[2] == z && f[2] == fz;
    var d := FirstDiff(e, f, 0);
    assert d > 0 ==> e[0] == f[0];
    assert d > 1 ==> e[1] == f[1];
    assert d > 2 ==> e[2] == f[2];
  }

  /** The block, as a flattened array. */
  ghost predicate IsBlock(ld: nat, a: seq<real>, block: Field) {
    && |a| == ld * ld * ld
    && forall i, j, k | InCube(ld, i, j, k) :: 0 <= At(ld, i, j, k) < |a| && a[At(ld, i, j, k)] == block([i, j, k])
  }

  lemma BlockIsSwept(p: Problem, e: Index, block: Field, ld: nat, told: seq<real>, rhs: seq<real>, swept: seq<real>)
    requires |p.dims| == |e| == 3 && ld == p.n + 2 && |rhs| == ld * ld * ld == |swept| && IsBlock(ld, told, block)
    requires forall i, j, k | InCube(ld, i, j, k) ::
               0 <= At(ld, i, j, k) < |rhs| &&
                 (p.Inner([i, j, k]) ==> rhs[At(ld, i, j, k)] == p.rhs(p.Global(e, [i, j, k])))
    requires forall i, j, k | InCube(ld, i, j, k) ::
               swept[At(ld, i, j, k)] ==
                 if 1 <= i <= p.n && 1 <= j <= p.n && 1 <= k <= p.n then Stencil(ld, told, rhs, i, j, k)
                   else told[At(ld, i, j, k)]
    ensures IsBlock(ld, swept, Sweep(p, e, block))
  {
    forall i, j, k | InCube(ld, i, j, k)
      ensures swept[At(ld, i, j, k)] == Sweep(p, e, block)([i, j, k])
    {
      InnerCell(p, i, j, k);
      if p.Inner([i, j, k]) {
        StencilIsSweep(p, e, block, ld, told, rhs, i, j, k);
      } else {
        GhostKept(p, e, block, [i, j, k]);
      }
    }
  }

  lemma InnerCell(p: Problem, i: int, j: int, k: int)
    requires |p.dims| == 3
    ensures p.Inner([i, j, k]) <==> 1 <= i <= p.n && 1 <= j <= p.n && 1 <= k <= p.n
  {
    var c: Index := [i, j, k];
    assert c[0] == i && c[1] == j && c[2] == k;
  }

  lemma GhostKept(p: Problem, e: Index, block: Field, c: Index)
    requires |p.dims| == |e| == 3 && !p.Inner(c)
    ensures Sweep(p, e, block)(c) == block(c)
  {
  }

  lemma BlockNorm(p: Problem, block: Field, ld: nat, a: seq<real>, m: real)
    requires |p.dims| == 3 && ld == p.n + 2 && IsBlock(ld, a, block) && m >= 0.0
    requires forall i, j, k | 1 <= i <= p.n && 1 <= j <= p.n && 1 <= k <= p.n ::
               0 <= At(ld, i, j, k) < |a| && Abs(a[At(ld, i, j, k)]) <= m
    requires m == 0.0 || exists i, j, k ::
               (1 <= i <= p.n && 1 <= j <= p.n && 1 <= k <= p.n) && Abs(a[At(ld, i, j, k)]) == m
    ensures IsBlockNorm(p, block, m)
  {
    forall c | p.Inner(c) ensures Abs(block(c)) <= m {
      assert c == [c[0], c[1], c[2]] && InCube(ld, c[0], c[1], c[2]);
    }
    if m != 0.0 {
      var i, j, k :| (1 <= i <= p.n && 1 <= j <= p.n && 1 <= k <= p.n) && Abs(a[At(ld, i, j, k)]) == m;
      assert InCube(ld, i, j, k);
      assert p.Inner([i, j, k]) && Abs(block([i, j, k])) == m;
    }
  }

  /** The six neighbours of a cell. */
  lemma NbrSum3(u: Field, i: int, j: int, k: int)
    ensures NbrSum(u, [i, j, k], 3) ==
            u([i - 1, j, k]) + u([i + 1, j, k]) + u([i, j - 1, k]) + u([i, j + 1, k]) + u([i, j, k - 1]) +
              u([i, j, k + 1])
  {
    var c: Index := [i, j, k];
    assert Shift(c, 0, false) == [i - 1, j, k] && Shift(c, 0, true) == [i + 1, j, k];
    assert Shift(c, 1, false) == [i, j - 1, k] && Shift(c, 1, true) == [i, j + 1, k];
    assert Shift(c, 2, false) == [i, j, k - 1] && Shift(c, 2, true) == [i, j, k + 1];
    assert NbrSum(u, c, 3) == NbrSum(u, c, 2) + u([i, j, k - 1]) + u([i, j, k + 1]);
    assert NbrSum(u, c, 2) == NbrSum(u, c, 1) + u([i, j - 1, k]) + u([i, j + 1, k]);
    assert NbrSum(u, c, 1) == 0.0 + u([i - 1, j, k]) + u([i + 1, j, k]);
  }

  lemma StencilOfBlock(ld: nat, told: seq<real>, rhs: seq<real>, block: Field, i: int, j: int, k: int)
    requires IsBlock(ld, told, block) && |rhs| == |told| && 1 <= i < ld - 1 && 1 <= j < ld - 1 && 1 <= k < ld - 1
    ensures 0 <= At(ld, i, j, k) < |rhs|
    ensures Stencil(ld, told, rhs, i, j, k) ==
            Row(rhs[At(ld, i, j, k)], block([i - 1, j, k]), block([i + 1, j, k]), block([i, j - 1, k]),
                block([i, j + 1, k]), block([i, j, k - 1]), block([i, j, k + 1]))
  {
    StencilPlaces(ld, i, j, k);
    AtNeighbours(ld, i, j, k);
    assert InCube(ld, i - 1, j, k) && InCube(ld, i + 1, j, k) && InCube(ld, i, j - 1, k)
        && InCube(ld, i, j + 1, k) && InCube(ld, i, j, k - 1) && InCube(ld, i, j, k + 1);
  }

  lemma RelaxIsRow(p: Problem, r: real, sum: real, a: real, b: real, c: real, d: real, e: real, f: real)
    requires |p.dims| == 3 && sum == a + b + c + d + e + f
    ensures p.Relax(r, sum) == Row(r, a, b, c, d, e, f)
  {
  }

  lemma SweepAt(p: Problem, e: Index, block: Field, c: Index)
    requires |p.dims| == |e| == 3 && p.Inner(c)
    ensures Sweep(p, e, block)(c) == p.Relax(p.rhs(p.Global(e, c)), NbrSum(block, c, 3))
  {
  }

  /** The stencil of the problem, written out. */
  lemma {:induction false} SweepIsRow(p: Problem, e: Index, block: Field, i: int, j: int, k: int)
    requires |p.dims| == |e| == 3 && p.Inner([i, j, k])
    ensures Sweep(p, e, block)([i, j, k]) ==
            Row(p.rhs(p.Global(e, [i, j, k])), block([i - 1, j, k]), block([i + 1, j, k]), block([i, j - 1, k]),
                block([i, j + 1, k]), block([i, j, k - 1]), block([i, j, k + 1]))
  {
    NbrSum3(block, i, j, k);
    SweepAt(p, e, block, [i, j, k]);
    RelaxIsRow(p, p.rhs(p.Global(e, [i, j, k])), NbrSum(block, [i, j, k], 3), block([i - 1, j, k]),
               block([i + 1, j, k]), block([i, j - 1, k]), block([i, j + 1, k]), block([i, j, k - 1]),
               block([i, j, k + 1]));
  }

  /** The stencil on the flattened arrays is the stencil of the problem. */
  lemma StencilIsSweep(p: Problem, e: Index, block: Field, ld: nat, told: seq<real>, rhs: seq<real>, i: int, j: int,
      k: int)
    requires |p.dims| == |e| == 3 && ld == p.n + 2 && |rhs| == |told| && IsBlock(ld, told, block)
    requires 1 <= i <= p.n && 1 <= j <= p.n && 1 <= k <= p.n
    requires 0 <= At(ld, i, j, k) < |rhs| && rhs[At(ld, i, j, k)] == p.rhs(p.Global(e, [i, j, k]))
    ensures Stencil(ld, told, rhs, i, j, k) == Sweep(p, e, block)([i, j, k])
  {
    assert p.Inner([i, j, k]);
    StencilOfBlock(ld, told, rhs, block, i, j, k);
    SweepIsRow(p, e, block, i, j, k);
  }

  /** The new value of one unknown, read off the flattened arrays. */
  ghost function Stencil(ld: nat, told: seq<real>, rhs: seq<real>, i: int, j: int, k: int): real
    requires |told| == |rhs| == ld * ld * ld && 1 <= i < ld - 1 && 1 <= j < ld - 1 && 1 <= k < ld - 1
  {
    StencilPlaces(ld, i, j, k);
    var node := At(ld, i, j, k);
    Row(rhs[node], told[node - 1], told[node + 1], told[node - ld], told[node + ld], told[node - ld * ld],
      told[node + ld * ld])
  }

  /**
    Each unknown solves its row of the seven-point matrix with the old values around it, on the flattened
    arrays; the cells around the unknowns are kept.
   */
  ghost predicate RowsSolved(ld: nat, now: seq<real>, before: seq<real>, rhs: seq<real>) {
    && |now| == |before| == |rhs| == ld * ld * ld
    && (forall i, j, k | InCube(ld, i, j, k) && !Within(ld, i, j, k) ::
          0 <= At(ld, i, j, k) < |now| && now[At(ld, i, j, k)] == before[At(ld, i, j, k)])
    && forall i, j, k | Within(ld, i, j, k) :: RowSolved(ld, ld * ld, now, before, rhs, At(ld, i, j, k))
  }

  predicate Within(ld: nat, i: int, j: int, k: int) { 1 <= i < ld - 1 && 1 <= j < ld - 1 && 1 <= k < ld - 1 }

  ghost predicate RowSolved(ld: nat, sq: nat, now: seq<real>, before: seq<real>, rhs: seq<real>, node: int)
    requires |now| == |before| == |rhs|
  {
    && 0 < ld <= sq <= node < |now| - sq
    && 6.0 * now[node] - before[node - 1] - before[node + 1] - before[node - ld] - before[node + ld]
       - before[node - sq] - before[node + sq] == rhs[node]
  }

  lemma StencilsSolve(ld: nat, now: seq<real>, before: seq<real>, rhs: seq<real>)
    requires |now| == |before| == |rhs| == ld * ld * ld
    requires forall i, j, k | InCube(ld, i, j, k) ::
               && 0 <= At(ld, i, j, k) < |now|
               && now[At(ld, i, j, k)] ==
                    if Within(ld, i, j, k) then Stencil(ld, before, rhs, i, j, k) else before[At(ld, i, j, k)]
    ensures RowsSolved(ld, now, before, rhs)
  {
    forall i, j, k | Within(ld, i, j, k) ensures RowSolved(ld, ld * ld, now, before, rhs, At(ld, i, j, k)) {
      assert InCube(ld, i, j, k);
      StencilPlaces(ld, i, j, k);
    }
  }

  /** One row of the seven-point stencil. */
  function Row(r: real, west: real, east: real, south: real, north: real, below: real, above: real): (v: real) {
    (1.0 / 6.0) * (r + west + east + south + north + below + above)
  }

  /** All places the stencil reads are places of the block. */
  lemma StencilPlaces(ld: nat, i: int, j: int, k: int)
    requires 1 <= i < ld - 1 && 1 <= j < ld - 1 && 1 <= k < ld - 1
    ensures var node, m := At(ld, i, j, k), ld * ld * ld;
            && 0 <= node < m && 0 <= node - 1 && node + 1 < m
            && 0 <= node - ld && node + ld < m && 0 <= node - ld * ld && node + ld * ld < m
  {
    AtNeighbours(ld, i, j, k);
    AtBound(ld, i, j, k);
    AtBound(ld, i - 1, j, k);
    AtBound(ld, i + 1, j, k);
    AtBound(ld, i, j - 1, k);
    AtBound(ld, i, j + 1, k);
    AtBound(ld, i, j, k - 1);
    AtBound(ld, i, j, k + 1);
  }

  /** The unknown comes before (ix, iy, iz) in the order of the loops. */
  ghost predicate Swept(n: nat, ix: int, iy: int, iz: int, i: int, j: int, k: int) {
    && 1 <= i <= n && 1 <= j <= n && 1 <= k <= n
    && (k < iz || (k == iz && (j < iy || (j == iy && i < ix))))
  }
}
