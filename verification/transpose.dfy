/**
  The block gather of the transpose example: each solver node collects its blocks of the
  collection, the local ones directly and the others by request, and then runs its kernel.
 */
module Transpose {
  import opened Arithmetic

  /** Every block of the collection holds the global indices of its elements. */
  function Value(block: nat, j: nat, blockSize: nat): (r: real) { (block * blockSize + j) as real }

  ghost predicate IsBlock(payload: seq<real>, block: nat, blockSize: nat) {
    |payload| == blockSize && forall j | 0 <= j < blockSize :: payload[j] == Value(block, j, blockSize)
  }

  /** The data that a block of the collection is set up with. */
  method Initialize(block: nat, blockSize: nat) returns (data: seq<real>)
    ensures IsBlock(data, block, blockSize)
    ensures |data| == blockSize && forall j | 0 <= j < blockSize :: data[j] == (block * blockSize + j) as real
  {
    data := [];
    for j := 0 to blockSize
      invariant |data| == j && forall i | 0 <= i < j :: data[i] == Value(block, i, blockSize)
    {
      data := data + [Value(block, j, blockSize)];
    }
  }

  // ---------------------------------------------------------------- which blocks a node needs

  function Needed(pieces: nat, subSize: nat): (n: nat)
    requires subSize > 0
  {
    pieces / subSize
  }

  /** The i-th block of a node. */
  function BlockId(pieces: nat, subSize: nat, rank: nat, i: nat): (b: nat)
    requires subSize > 0
  {
    rank * Needed(pieces, subSize) + i
  }

  ghost predicate Assigned(pieces: nat, subSize: nat, b: nat, rank: nat, i: nat)
    requires subSize > 0
  {
    rank < subSize && i < Needed(pieces, subSize) && BlockId(pieces, subSize, rank, i) == b
  }

  ghost predicate HasNode(pieces: nat, subSize: nat, b: nat)
    requires subSize > 0
  {
    exists rank: nat, i: nat :: Assigned(pieces, subSize, b, rank, i)
  }

  lemma Below(n: nat, size: nat, rank: nat, i: nat)
    requires rank < size && i < n
    ensures rank * n + i < size * n
  {
    MulMono(n, rank + 1, size);
  }

  /** Only blocks of the collection are asked for. */
  lemma BlocksExist(pieces: nat, subSize: nat, b: nat, rank: nat, i: nat)
    requires subSize > 0 && Assigned(pieces, subSize, b, rank, i)
    ensures b < pieces
  {
    var n := Needed(pieces, subSize);
    Below(n, subSize, rank, i);
    assert subSize * n <= pieces;
  }

  /** No block is assigned twice. */
  lemma AssignedOnce(pieces: nat, subSize: nat, b: nat, rank: nat, i: nat, rank': nat, i': nat)
    requires subSize > 0 && Assigned(pieces, subSize, b, rank, i) && Assigned(pieces, subSize, b, rank', i')
    ensures rank == rank' && i == i'
  {
    SameDigits(Needed(pieces, subSize), rank, i, rank', i');
  }

  /** Every block is assigned exactly when the group size divides the number of blocks. */
  lemma PartitionIff(pieces: nat, subSize: nat)
    requires subSize > 0
    ensures (forall b | 0 <= b < pieces :: HasNode(pieces, subSize, b)) <==> pieces % subSize == 0
  {
    var n := Needed(pieces, subSize);
    assert pieces == subSize * n + pieces % subSize;
    if pieces % subSize == 0 {
      forall b | 0 <= b < pieces ensures HasNode(pieces, subSize, b) {
        var rank, i := Owner(b, n, subSize);
        assert Assigned(pieces, subSize, b, rank, i);
      }
    } else {
      var b := subSize * n;
      forall rank: nat, i: nat ensures !Assigned(pieces, subSize, b, rank, i) {
        if rank < subSize && i < n { Below(n, subSize, rank, i); }
      }
      assert !HasNode(pieces, subSize, b);
    }
  }

  lemma Owner(b: nat, n: nat, size: nat) returns (rank: nat, i: nat)
    requires b < size * n
    ensures rank < size && i < n && b == rank * n + i
  {
    assert n > 0;
    rank, i := b / n, b % n;
    if rank >= size { MulMono(n, size, rank); }
  }

  // ---------------------------------------------------------------- a solver node

  function Offset(i: nat, blockSize: nat): (r: nat) { i * blockSize }

  /** The places of different blocks do not overlap, and none leaves the buffer. */
  lemma OffsetsApart(i: nat, k: nat, blockSize: nat)
    requires i < k
    ensures Offset(i, blockSize) + blockSize <= Offset(k, blockSize)
  {
    MulMono(blockSize, i + 1, k);
  }

  /** What belongs at place x of a buffer that starts at block first. */
  function Want(first: nat, blockSize: nat, x: nat): (r: real) { (first * blockSize + x) as real }

  lemma ValueIsWanted(first: nat, i: nat, blockSize: nat, j: nat)
    ensures Value(first + i, j, blockSize) == Want(first, blockSize, Offset(i, blockSize) + j)
  {
    assert (first + i) * blockSize == first * blockSize + i * blockSize;
  }

  class SubSolveInfo {
    const pieces: nat
    const subSize: nat
    const rank: nat
    const blockSize: nat
    const needed: nat
    const data: array<real>
    /** The first block of the node. */
    ghost const first: nat
    var have: nat
    /** The blocks that are in place, and how often the kernel has run. */
    ghost var filled: set<nat>
    ghost var kernels: nat

    constructor (pieces: nat, subSize: nat, rank: nat, blockSize: nat)
      requires rank < subSize
      ensures Placed() && Valid() && filled == {} && kernels == 0 && fresh(data)
      ensures this.pieces == pieces && this.subSize == subSize && this.rank == rank && this.blockSize == blockSize
    {
      this.pieces, this.subSize, this.rank, this.blockSize := pieces, subSize, rank, blockSize;
      needed := pieces / subSize;
      first := rank * (pieces / subSize);
      have, filled, kernels := 0, {}, 0;
      data := new real[Offset(pieces / subSize, blockSize)];
    }

    /** The node is one of its group, and needs its share of the pieces. */
    ghost predicate Placed() { rank < subSize && needed == pieces / subSize && first == rank * needed }

    ghost predicate InPlace(i: nat)
      reads data
    {
      Offset(i, blockSize) + blockSize <= data.Length
      && forall x | Offset(i, blockSize) <= x < Offset(i, blockSize) + blockSize ::
           data[x] == Want(first, blockSize, x)
    }

    ghost predicate Valid()
      reads this, data
    {
      && data.Length == Offset(needed, blockSize) && have == |filled|
      && forall i | i in filled :: i < needed && InPlace(i)
    }

    /** Copy a block to its place. */
    method CopyBlock(i: nat, payload: seq<real>)
      requires data.Length == Offset(needed, blockSize) && i < needed && IsBlock(payload, first + i, blockSize)
      modifies data
      ensures forall x | 0 <= x < data.Length && !(Offset(i, blockSize) <= x < Offset(i, blockSize) + blockSize) ::
                data[x] == old(data[x])
      ensures InPlace(i)
    {
      var lo := Offset(i, blockSize);
      OffsetsApart(i, needed, blockSize);
      for j := 0 to blockSize
        invariant forall x | 0 <= x < data.Length && !(lo <= x < lo + j) :: data[x] == old(data[x])
        invariant forall x | lo <= x < lo + j :: data[x] == Want(first, blockSize, x)
      {
        ValueIsWanted(first, i, blockSize, j);
        data[lo + j] := payload[j];
      }
    }

    method PutBlock(i: nat, payload: seq<real>)
      requires Valid() && i < needed && i !in filled && IsBlock(payload, first + i, blockSize)
      modifies this`have, this`filled, data
      ensures Valid() && filled == old(filled) + {i}
    {
      CopyBlock(i, payload);
      forall k | k in filled ensures k < needed && InPlace(k) {
        OffsetsApart(k, needed, blockSize);
        if k < i { OffsetsApart(k, i, blockSize); } else { OffsetsApart(i, k, blockSize); }
      }
      have := have + 1;
      filled := filled + {i};
    }

    /** The blocks of the node that are on their way, by their number in the collection. */
    ghost predicate Awaits(block: nat)
      reads this`filled
    {
      first <= block < first + needed && block - first !in filled
    }

    /** The kernel: its checks of the gathered data succeed. */
    method RunKernel() returns (correct: bool)
      requires Placed() && Valid() && have == needed
      modifies this`kernels
      ensures correct && kernels == old(kernels) + 1 && Complete()
    {
      AllFilled(filled, needed);
      correct := true;
      for x := 0 to Offset(have, blockSize)
        invariant correct && kernels == old(kernels)
        invariant forall y | 0 <= y < x :: data[y] == Want(first, blockSize, y)
      {
        ghost var i, j := Owner(x, blockSize, needed);
        assert InPlace(i);
        correct := correct && data[x] == Want(rank * needed, blockSize, x);
      }
      kernels := kernels + 1;
      assert Offset(needed, blockSize) == pieces / subSize * blockSize;
    }

    /** Place x of the buffer holds the value of the node's share at x. */
    ghost predicate Complete()
      reads data
    {
      && subSize > 0 && data.Length == pieces / subSize * blockSize
      && forall x | 0 <= x < data.Length :: data[x] == (rank * (pieces / subSize) * blockSize + x) as real
    }

    /** The blocks of the collection that are in place. */
    ghost function Blocks(): set<nat>
      requires subSize > 0
      reads this`filled
    {
      set i | i in filled :: BlockId(pieces, subSize, rank, i)
    }

    /** The requests are for the blocks assigned to this node that are not local; those that are local are in place. */
    ghost predicate AsksForOwn(local: map<nat, seq<real>>, requests: seq<nat>)
      requires subSize > 0
      reads this`filled
    {
      && (forall b | b in requests :: b < pieces && b !in local && IsMine(b))
      && (forall i: nat | i < pieces / subSize ::
            var b := BlockId(pieces, subSize, rank, i);
            if b in local then i in filled else i !in filled && b in requests)
      && forall i | i in filled :: i < pieces / subSize && BlockId(pieces, subSize, rank, i) in local
    }

    /** The block is assigned to this node. */
    ghost predicate IsMine(b: nat)
      requires subSize > 0
    {
      IsAssigned(pieces, subSize, b, rank)
    }

    lemma OwnBlocks(local: map<nat, seq<real>>, requests: seq<nat>)
      requires Placed() && Asked(needed, local, requests)
      ensures AsksForOwn(local, requests)
    {
      forall b | b in requests ensures b < pieces && b !in local && IsMine(b) {
        var i: nat := b - first;
        assert Assigned(pieces, subSize, b, rank, i);
        BlocksExist(pieces, subSize, b, rank, i);
      }
    }

    /** The requests are for the blocks that are on their way, each once and in order. */
    ghost predicate AsksForMissing(requests: seq<nat>)
      reads this`filled
    {
      && (forall b :: b in requests <==> Awaits(b))
      && forall i, j | 0 <= i < j < |requests| :: requests[i] < requests[j]
    }

    lemma MissingBlocks(local: map<nat, seq<real>>, requests: seq<nat>)
      requires Asked(needed, local, requests)
      ensures AsksForMissing(requests)
    {
    }

    /** What holds between handlers: the kernel has run if and only if all blocks are there. */
    ghost predicate Settled()
      reads this, data
    {
      Placed() && Valid() && kernels == (if have == needed then 1 else 0) && (kernels == 1 ==> Complete())
    }

    /** Take the local blocks and ask for the others. */
    method TakeLocal(local: map<nat, seq<real>>) returns (requests: seq<nat>)
      requires Placed() && Valid() && filled == {}
      requires forall b | b in local :: IsBlock(local[b], b, blockSize)
      modifies this`have, this`filled, data
      ensures Valid()
      ensures AsksForMissing(requests)
      ensures AsksForOwn(local, requests)
    {
      var blockOffset := rank * needed;
      requests := TakeBlocks(blockOffset, local);
      OwnBlocks(local, requests);
      MissingBlocks(local, requests);
    }

    method TakeBlocks(blockOffset: nat, local: map<nat, seq<real>>) returns (requests: seq<nat>)
      requires blockOffset == first && Valid() && filled == {}
      requires forall b | b in local :: IsBlock(local[b], b, blockSize)
      modifies this`have, this`filled, data
      ensures Valid() && Asked(needed, local, requests)
    {
      requests := [];
      for i := 0 to needed
        invariant Valid() && Asked(i, local, requests)
      {
        requests := TakeOrAsk(i, blockOffset, local, requests);
      }
    }

    /** Of the first i blocks of the node the local ones are in place, and the others have been asked for, in order. */
    ghost predicate Asked(i: nat, local: map<nat, seq<real>>, requests: seq<nat>)
      reads this`filled
    {
      AskedSoFar(filled, requests, first, i, local)
    }

    method TakeOrAsk(i: nat, blockOffset: nat, local: map<nat, seq<real>>, requests: seq<nat>)
      returns (more: seq<nat>)
      requires blockOffset == first && Valid() && i < needed && Asked(i, local, requests)
      requires forall b | b in local :: IsBlock(local[b], b, blockSize)
      modifies this`have, this`filled, data
      ensures Valid() && Asked(i + 1, local, more)
    {
      ghost var before := filled;
      var blockId := blockOffset + i;
      NotYet(filled, blockOffset, i, local);
      if blockId in local {
        PutBlock(i, local[blockId]);
        more := requests;
        OneMoreLocal(before, requests, blockOffset, i, local);
      } else {
        more := requests + [blockId];
        OneMoreRequest(before, requests, blockOffset, i, local);
      }
    }

    /** The request to solve: gather, and run the kernel at once if no block is missing. */
    method SubSolveHandler(local: map<nat, seq<real>>) returns (requests: seq<nat>)
      requires Placed() && Valid() && filled == {} && kernels == 0
      requires forall b | b in local :: IsBlock(local[b], b, blockSize)
      modifies this`have, this`filled, this`kernels, data
      ensures Settled()
      ensures AsksForMissing(requests)
      ensures AsksForOwn(local, requests)
    {
      requests := TakeLocal(local);
      if needed == have { var _ := RunKernel(); }
    }

    /** A reply with the data of a block. */
    method SolveDataIncoming(fromIdx: nat, payload: seq<real>)
      requires Settled() && Awaits(fromIdx) && IsBlock(payload, fromIdx, blockSize)
      modifies this`have, this`filled, this`kernels, data
      ensures Settled()
      ensures Blocks() == old(Blocks()) + {fromIdx} && IsMine(fromIdx)
      ensures forall b :: Awaits(b) <==> old(Awaits(b)) && b != fromIdx
    {
      var blockOffset := fromIdx - needed * rank;
      Lacking(filled, needed, blockOffset);
      assert Assigned(pieces, subSize, fromIdx, rank, blockOffset);
      PutBlock(blockOffset, payload);
      if needed == have { var _ := RunKernel(); }
    }
  }

  /** The requests are for the blocks from first on, up to i of them, that are not local, in order. */
  ghost predicate Outstanding(requests: seq<nat>, first: nat, i: nat, local: map<nat, seq<real>>) {
    && (forall b :: b in requests <==> first <= b < first + i && b !in local)
    && forall x, y | 0 <= x < y < |requests| :: requests[x] < requests[y]
  }

  ghost predicate PutSoFar(filled: set<nat>, first: nat, i: nat, local: map<nat, seq<real>>) {
    forall k: nat :: k in filled <==> k < i && first + k in local
  }

  ghost predicate AskedSoFar(filled: set<nat>, requests: seq<nat>, first: nat, i: nat, local: map<nat, seq<real>>) {
    PutSoFar(filled, first, i, local) && Outstanding(requests, first, i, local)
  }

  lemma NotYet(filled: set<nat>, first: nat, i: nat, local: map<nat, seq<real>>)
    requires PutSoFar(filled, first, i, local)
    ensures i !in filled
  {
  }

  lemma OneMoreLocal(filled: set<nat>, requests: seq<nat>, first: nat, i: nat, local: map<nat, seq<real>>)
    requires AskedSoFar(filled, requests, first, i, local) && first + i in local
    ensures AskedSoFar(filled + {i}, requests, first, i + 1, local)
  {
  }

  lemma OneMoreRequest(filled: set<nat>, requests: seq<nat>, first: nat, i: nat, local: map<nat, seq<real>>)
    requires AskedSoFar(filled, requests, first, i, local) && first + i !in local
    ensures AskedSoFar(filled, requests + [first + i], first, i + 1, local)
  {
    assert forall x | 0 <= x < |requests| :: requests[x] in requests;
  }

  ghost function UpTo(n: nat): (r: set<nat>)
    ensures forall k: nat :: k in r <==> k < n
  {
    if n == 0 then {} else UpTo(n - 1) + {n - 1}
  }

  lemma {:induction false} UpToSize(n: nat)
    ensures |UpTo(n)| == n
  {
    if n > 0 {
      UpToSize(n - 1);
    }
  }

  lemma FilledBound(filled: set<nat>, needed: nat)
    requires forall k | k in filled :: k < needed
    ensures |filled| <= needed && (|filled| == needed ==> filled == UpTo(needed))
  {
    UpToSize(needed);
    SubsetCard(filled, UpTo(needed));
  }

  lemma AllFilled(filled: set<nat>, needed: nat)
    requires |filled| == needed && forall k | k in filled :: k < needed
    ensures forall k | 0 <= k < needed :: k in filled
  {
    FilledBound(filled, needed);
  }

  lemma Lacking(filled: set<nat>, needed: nat, i: nat)
    requires i < needed && i !in filled && forall k | k in filled :: k < needed
    ensures |filled| < needed
  {
    FilledBound(filled, needed);
  }

  // ---------------------------------------------------------------- the whole gather

  /** The replies come in any order, one for each request. */
  ghost predicate Answers(replies: seq<nat>, requests: seq<nat>) {
    && (forall b :: b in replies <==> b in requests)
    && (forall i, j | 0 <= i < j < |replies| :: replies[i] != replies[j])
  }

  lemma RestOf(replies: seq<nat>, k: nat)
    requires k < |replies| && forall i, j | 0 <= i < j < |replies| :: replies[i] != replies[j]
    ensures forall b :: b in replies[k + 1..] <==> b in replies[k..] && b != replies[k]
  {
    assert replies[k..] == [replies[k]] + replies[k + 1..];
  }

  /**
    The whole gather: with any blocks local, and the replies to the requests in any order, the kernel
    runs once, with all data in place.
   */
  method Gather(solver: SubSolveInfo, local: map<nat, seq<real>>, order: seq<nat> -> seq<nat>)
    requires solver.Placed() && solver.Valid() && solver.filled == {} && solver.kernels == 0
    requires forall b | b in local :: IsBlock(local[b], b, solver.blockSize)
    requires forall requests :: Answers(order(requests), requests)
    modifies solver`have, solver`filled, solver`kernels, solver.data
    ensures solver.Settled() && solver.kernels == 1 && solver.Complete()
    ensures forall b :: b in solver.Blocks() <==> solver.IsMine(b)
  {
    var requests := solver.SubSolveHandler(local);
    var replies := order(requests);
    assert Answers(replies, requests);
    TakeReplies(solver, replies);
    HasAll(solver);
  }

  /** A node whose kernel has run has exactly the blocks that are assigned to it. */
  lemma HasAll(solver: SubSolveInfo)
    requires solver.Settled() && solver.kernels == 1
    ensures forall b :: b in solver.Blocks() <==> solver.IsMine(b)
  {
    AllFilled(solver.filled, solver.needed);
    forall b ensures b in solver.Blocks() <==> solver.IsMine(b) {
      if b in solver.Blocks() {
        var i :| i in solver.filled && b == BlockId(solver.pieces, solver.subSize, solver.rank, i);
        assert Assigned(solver.pieces, solver.subSize, b, solver.rank, i);
      }
      if solver.IsMine(b) {
        var i: nat :| Assigned(solver.pieces, solver.subSize, b, solver.rank, i);
        assert i in solver.filled;
      }
    }
  }

  /** The nodes of a group, one for each rank, whose kernels have run. */
  ghost predicate AllSolved(solvers: seq<SubSolveInfo>, pieces: nat)
    reads solvers, set r | 0 <= r < |solvers| :: solvers[r].data
  {
    forall r | 0 <= r < |solvers| ::
      && solvers[r].pieces == pieces && solvers[r].subSize == |solvers| && solvers[r].rank == r
      && solvers[r].Settled() && solvers[r].kernels == 1
  }

  /** Block b is in place on exactly one node. */
  ghost predicate OnOneNode(solvers: seq<SubSolveInfo>, b: nat)
    requires forall r | 0 <= r < |solvers| :: solvers[r].subSize > 0
    reads solvers
  {
    exists r | 0 <= r < |solvers| ::
      b in solvers[r].Blocks() && forall q | 0 <= q < |solvers| && q != r :: b !in solvers[q].Blocks()
  }

  /** Over the whole group, each block is gathered exactly once if and only if the group size divides their number. */
  lemma GatheredOnceIff(solvers: seq<SubSolveInfo>, pieces: nat)
    requires |solvers| > 0 && AllSolved(solvers, pieces)
    ensures (forall b | 0 <= b < pieces :: OnOneNode(solvers, b)) <==> pieces % |solvers| == 0
  {
    forall r | 0 <= r < |solvers| ensures forall b :: b in solvers[r].Blocks() <==> solvers[r].IsMine(b) {
      HasAll(solvers[r]);
    }
    forall b | 0 <= b < pieces ensures OnOneNode(solvers, b) <==> HasNode(pieces, |solvers|, b) {
      OneNodeIff(solvers, pieces, b);
    }
    PartitionIff(pieces, |solvers|);
  }

  lemma OneNodeIff(solvers: seq<SubSolveInfo>, pieces: nat, b: nat)
    requires |solvers| > 0 && AllSolved(solvers, pieces)
    requires forall r | 0 <= r < |solvers| :: b in solvers[r].Blocks() <==> solvers[r].IsMine(b)
    ensures OnOneNode(solvers, b) <==> HasNode(pieces, |solvers|, b)
  {
    forall r | 0 <= r < |solvers| ensures b in solvers[r].Blocks() <==> IsAssigned(pieces, |solvers|, b, r) {
    }
    if HasNode(pieces, |solvers|, b) {
      var r := OnlyRank(pieces, |solvers|, b);
      assert b in solvers[r].Blocks();
    }
  }

  /** Node rank is to gather block b. */
  ghost predicate IsAssigned(pieces: nat, subSize: nat, b: nat, rank: nat)
    requires subSize > 0
  {
    exists i: nat :: Assigned(pieces, subSize, b, rank, i)
  }

  lemma OnlyRank(pieces: nat, subSize: nat, b: nat) returns (rank: nat)
    requires subSize > 0 && HasNode(pieces, subSize, b)
    ensures rank < subSize && IsAssigned(pieces, subSize, b, rank)
    ensures forall q: nat | q != rank :: !IsAssigned(pieces, subSize, b, q)
  {
    var r: nat, i: nat :| Assigned(pieces, subSize, b, r, i);
    rank := r;
    forall q: nat | IsAssigned(pieces, subSize, b, q) ensures q == rank {
      var j: nat :| Assigned(pieces, subSize, b, q, j);
      AssignedOnce(pieces, subSize, b, rank, i, q, j);
    }
  }

  /** The replies come in one after the other. */
  method TakeReplies(solver: SubSolveInfo, replies: seq<nat>)
    requires solver.Settled() && forall i, j | 0 <= i < j < |replies| :: replies[i] != replies[j]
    requires forall b :: b in replies <==> solver.Awaits(b)
    modifies solver`have, solver`filled, solver`kernels, solver.data
    ensures solver.Settled() && solver.kernels == 1 && solver.Complete()
  {
    for k := 0 to |replies|
      invariant solver.Settled()
      invariant forall b :: solver.Awaits(b) <==> b in replies[k..]
    {
      var payload := Initialize(replies[k], solver.blockSize);
      RestOf(replies, k);
      assert replies[k] in replies[k..];
      solver.SolveDataIncoming(replies[k], payload);
    }
    NoneAwaited(solver);
  }

  lemma NoneAwaited(solver: SubSolveInfo)
    requires solver.Settled() && forall b :: !solver.Awaits(b)
    ensures solver.kernels == 1
  {
    forall i | 0 <= i < solver.needed ensures i in solver.filled {
      assert !solver.Awaits(solver.first + i);
    }
    assert solver.filled == UpTo(solver.needed);
    UpToSize(solver.needed);
  }
}
