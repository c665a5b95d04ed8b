/**
  The flattened arrays of the solvers: cell (i, j, k) of a block with leading dimension ld
  is stored at i + j * ld + k * ld * ld.
 */
module JacobiFlat {
  import opened Arithmetic

  /** A face on its way to another element. */
  datatype Halo = Halo(to: seq<int>, val: seq<real>)

  /** i, j, k are coordinates of a block that stores ld cells along each axis. */
  predicate InCube(ld: nat, i: int, j: int, k: int) {
    0 <= i < ld && 0 <= j < ld && 0 <= k < ld
  }

  function At(ld: nat, i: int, j: int, k: int): (r: int) { i + j * ld + k * ld * ld }

  /** A two-digit number in base ld. */
  lemma RowBound(ld: nat, i: int, j: int)
    requires 0 <= i < ld && 0 <= j < ld
    ensures 0 <= i + j * ld < ld * ld
  {
    MulMono(ld, j, ld - 1);
    MulMono(ld, 0, j);
    assert (ld - 1) * ld == ld * ld - ld;
  }

  lemma AtBound(ld: nat, i: int, j: int, k: int)
    requires InCube(ld, i, j, k)
    ensures 0 <= At(ld, i, j, k) < ld * ld * ld
  {
    RowBound(ld, i, j);
    var sq := ld * ld;
    assert k * ld * ld == k * sq by { Assoc(k, ld); }
    MulMono(sq, k, ld - 1);
    MulMono(sq, 0, k);
    assert (ld - 1) * sq == ld * sq - sq;
    assert ld * sq == ld * ld * ld by { Assoc(ld, ld); }
  }

  lemma Assoc(k: int, ld: int)
    ensures k * ld * ld == k * (ld * ld)
  {
  }

  /** No two cells share a place. */
  lemma AtInjective(ld: nat, i: int, j: int, k: int, i': int, j': int, k': int)
    requires InCube(ld, i, j, k) && InCube(ld, i', j', k') && At(ld, i, j, k) == At(ld, i', j', k')
    ensures i == i' && j == j' && k == k'
  {
    RowBound(ld, i, j);
    RowBound(ld, i', j');
    Assoc(k, ld);
    Assoc(k', ld);
    SameDigits(ld * ld, k, i + j * ld, k', i' + j' * ld);
    SameDigits(ld, j, i, j', i');
  }

  /** The places of the cells around a cell. */
  lemma AtNeighbours(ld: nat, i: int, j: int, k: int)
    ensures At(ld, i - 1, j, k) == At(ld, i, j, k) - 1 && At(ld, i + 1, j, k) == At(ld, i, j, k) + 1
    ensures At(ld, i, j - 1, k) == At(ld, i, j, k) - ld && At(ld, i, j + 1, k) == At(ld, i, j, k) + ld
    ensures At(ld, i, j, k - 1) == At(ld, i, j, k) - ld * ld && At(ld, i, j, k + 1) == At(ld, i, j, k) + ld * ld
  {
    assert (j - 1) * ld == j * ld - ld && (j + 1) * ld == j * ld + ld;
    Assoc(k, ld);
    Assoc(k - 1, ld);
    Assoc(k + 1, ld);
    var sq := ld * ld;
    assert (k - 1) * sq == k * sq - sq && (k + 1) * sq == k * sq + sq;
  }

  /** All cells of the block have a place, and no other cell has the place of this one. */
  lemma AtCell(ld: nat, i: int, j: int, k: int)
    requires InCube(ld, i, j, k)
    ensures 0 <= At(ld, i, j, k) < ld * ld * ld
    ensures forall i', j', k' | InCube(ld, i', j', k') && At(ld, i', j', k') == At(ld, i, j, k) ::
              i' == i && j' == j && k' == k
  {
    AtBound(ld, i, j, k);
    forall i', j', k' | InCube(ld, i', j', k') && At(ld, i', j', k') == At(ld, i, j, k)
      ensures i' == i && j' == j && k' == k
    {
      AtInjective(ld, i', j', k', i, j, k);
    }
  }

  lemma AllBound(ld: nat)
    ensures forall i, j, k | InCube(ld, i, j, k) :: 0 <= At(ld, i, j, k) < ld * ld * ld
  {
    forall i, j, k | InCube(ld, i, j, k) ensures 0 <= At(ld, i, j, k) < ld * ld * ld {
      AtBound(ld, i, j, k);
    }
  }

  // ---------------------------------------------------------------- layers across an axis

  /** The coordinates of a cell along the layer it has across axis a, lower axis first. */
  function Along(a: nat, i: int, j: int, k: int): (rt: (int, int)) {
    if a == 0 then (j, k) else if a == 1 then (i, k) else (i, j)
  }

  /** The coordinate of a cell on axis a. */
  function Across(a: nat, i: int, j: int, k: int): (g: int) {
    if a == 0 then i else if a == 1 then j else k
  }

  /** The place of cell (r, t) of the layer at coordinate g across axis a. */
  function LayerAt(ld: nat, a: nat, g: int, r: int, t: int): (x: int) {
    if a == 0 then At(ld, g, r, t) else if a == 1 then At(ld, r, g, t) else At(ld, r, t, g)
  }

  /** The place of cell (r, t) in a face that is sent on its own. */
  function PlaneAt(ld: nat, r: int, t: int): (x: int) { r + t * ld }

  /** What a cell holds after (r, t) of the layer, row by row, has been overwritten up to a point. */
  ghost predicate Written(ld: nat, a: nat, g: int, r: int, t: int, i: int, j: int, k: int) {
    var rt := Along(a, i, j, k);
    Across(a, i, j, k) == g && (rt.1 < t || (rt.1 == t && rt.0 < r))
  }

  /** The face element that cell (i, j, k) of the layer across axis a takes. */
  function FaceAt(ld: nat, a: nat, i: int, j: int, k: int): (x: int) {
    PlaneAt(ld, Along(a, i, j, k).0, Along(a, i, j, k).1)
  }

  /** Overwrite one layer of a block with a face. */
  method SetLayer(ld: nat, dst: array<real>, a: nat, g: int, val: seq<real>)
    requires dst.Length == ld * ld * ld && a < 3 && 0 <= g < ld && |val| == ld * ld
    modifies dst
    ensures forall i, j, k | InCube(ld, i, j, k) ::
              && 0 <= At(ld, i, j, k) < dst.Length
              && 0 <= FaceAt(ld, a, i, j, k) < |val|
              && dst[At(ld, i, j, k)] ==
                 if Across(a, i, j, k) == g then val[FaceAt(ld, a, i, j, k)] else old(dst[At(ld, i, j, k)])
  {
    AllBound(ld);
    AllPlaneBound(ld);
    for t := 0 to ld
      invariant forall i, j, k | InCube(ld, i, j, k) ::
                  dst[At(ld, i, j, k)] ==
                    if Written(ld, a, g, 0, t, i, j, k) then val[FaceAt(ld, a, i, j, k)] else old(dst[At(ld, i, j, k)])
    {
      for r := 0 to ld
        invariant forall i, j, k | InCube(ld, i, j, k) ::
                    dst[At(ld, i, j, k)] ==
                      if Written(ld, a, g, r, t, i, j, k) then val[FaceAt(ld, a, i, j, k)]
                        else old(dst[At(ld, i, j, k)])
      {
        LayerCell(ld, a, g, r, t);
        dst[LayerAt(ld, a, g, r, t)] := val[PlaneAt(ld, r, t)];
      }
    }
  }

  lemma AllPlaneBound(ld: nat)
    ensures forall r, t | 0 <= r < ld && 0 <= t < ld :: 0 <= PlaneAt(ld, r, t) < ld * ld
  {
    forall r, t | 0 <= r < ld && 0 <= t < ld ensures 0 <= PlaneAt(ld, r, t) < ld * ld {
      RowBound(ld, r, t);
    }
  }

  /** Only cell (r, t) of the layer has its place. */
  lemma LayerCell(ld: nat, a: nat, g: int, r: int, t: int)
    requires a < 3 && 0 <= g < ld && 0 <= r < ld && 0 <= t < ld
    ensures 0 <= LayerAt(ld, a, g, r, t) < ld * ld * ld && 0 <= PlaneAt(ld, r, t) < ld * ld
    ensures forall i, j, k | InCube(ld, i, j, k) ::
              At(ld, i, j, k) == LayerAt(ld, a, g, r, t) <==> Across(a, i, j, k) == g && Along(a, i, j, k) == (r, t)
  {
    RowBound(ld, r, t);
    if a == 0 { AtCell(ld, g, r, t); } else if a == 1 { AtCell(ld, r, g, t); } else { AtCell(ld, r, t, g); }
  }

  /** Copy one layer of a block to another block. */
  method CopyLayer(ld: nat, dst: array<real>, src: array<real>, a: nat, g: int)
    requires dst != src && dst.Length == src.Length == ld * ld * ld && a < 3 && 0 <= g < ld
    modifies dst
    ensures forall i, j, k | InCube(ld, i, j, k) ::
              && 0 <= At(ld, i, j, k) < dst.Length
              && dst[At(ld, i, j, k)] ==
                   if Across(a, i, j, k) == g then src[At(ld, i, j, k)] else old(dst[At(ld, i, j, k)])
  {
    AllBound(ld);
    for t := 0 to ld
      invariant forall i, j, k | InCube(ld, i, j, k) ::
                  dst[At(ld, i, j, k)] ==
                    if Written(ld, a, g, 0, t, i, j, k) then src[At(ld, i, j, k)] else old(dst[At(ld, i, j, k)])
    {
      for r := 0 to ld
        invariant forall i, j, k | InCube(ld, i, j, k) ::
                    dst[At(ld, i, j, k)] ==
                      if Written(ld, a, g, r, t, i, j, k) then src[At(ld, i, j, k)] else old(dst[At(ld, i, j, k)])
      {
        LayerCell(ld, a, g, r, t);
        dst[LayerAt(ld, a, g, r, t)] := src[LayerAt(ld, a, g, r, t)];
      }
    }
  }

  /** Copy the inner part of one layer of a block into a face that is zero on its border. */
  method PackLayer(ld: nat, src: array<real>, a: nat, g: int) returns (val: seq<real>)
    requires ld >= 2 && src.Length == ld * ld * ld && a < 3 && 0 <= g < ld
    ensures |val| == ld * ld
    ensures forall r, t | 0 <= r < ld && 0 <= t < ld ::
              && 0 <= PlaneAt(ld, r, t) < |val| && 0 <= LayerAt(ld, a, g, r, t) < src.Length
              && val[PlaneAt(ld, r, t)] ==
                   if 0 < r < ld - 1 && 0 < t < ld - 1 then src[LayerAt(ld, a, g, r, t)] else 0.0
  {
    AllPlaneBound(ld);
    AllLayerBound(ld, a, g);
    var tcopy := new real[ld * ld](_ => 0.0);
    for jt := 1 to ld - 1
      invariant forall r, t | 0 <= r < ld && 0 <= t < ld ::
                  tcopy[PlaneAt(ld, r, t)] == if 0 < r < ld - 1 && 0 < t < jt then src[LayerAt(ld, a, g, r, t)] else 0.0
    {
      for jr := 1 to ld - 1
        invariant forall r, t | 0 <= r < ld && 0 <= t < ld ::
                    tcopy[PlaneAt(ld, r, t)] ==
                    if 0 < r < ld - 1 && 0 < t && (t < jt || (t == jt && r < jr)) then src[LayerAt(ld, a, g, r, t)]
                      else 0.0
      {
        PlaneInjective(ld, jr, jt);
        tcopy[PlaneAt(ld, jr, jt)] := src[LayerAt(ld, a, g, jr, jt)];
      }
    }
    val := tcopy[..];
  }

  lemma AllLayerBound(ld: nat, a: nat, g: int)
    requires a < 3 && 0 <= g < ld
    ensures forall r, t | 0 <= r < ld && 0 <= t < ld :: 0 <= LayerAt(ld, a, g, r, t) < ld * ld * ld
  {
    AllBound(ld);
    forall r, t | 0 <= r < ld && 0 <= t < ld ensures 0 <= LayerAt(ld, a, g, r, t) < ld * ld * ld {
      LayerCell(ld, a, g, r, t);
    }
  }

  lemma PlaneInjective(ld: nat, r: int, t: int)
    requires 0 <= r < ld && 0 <= t < ld
    ensures forall r', t' | 0 <= r' < ld && 0 <= t' < ld && PlaneAt(ld, r', t') == PlaneAt(ld, r, t) ::
              r' == r && t' == t
  {
    forall r', t' | 0 <= r' < ld && 0 <= t' < ld && PlaneAt(ld, r', t') == PlaneAt(ld, r, t)
      ensures r' == r && t' == t
    {
      SameDigits(ld, t', r', t, r);
    }
  }
}
