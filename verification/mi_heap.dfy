/**
  Aligned allocation and reallocation.  The heap is a collection of disjoint blocks; which
  block the page allocator hands out for a request is a parameter.
 */
module MiHeap {
  import opened Arithmetic
  import opened MiWords

  type Byte = bv8

  const WORD_SIZE := 8
  const SMALL_SIZE_MAX := 1024
  const MEDIUM_OBJ_SIZE_MAX := 0x2_0000

  // ---------------------------------------------------------------- blocks

  /** A block: its address, the bytes that can be used, and the number of bytes behind them (padding). */
  datatype Block = Block(start: nat, data: seq<Byte>, slack: nat) {
    function End(): nat { start + |data| + slack }
    /** A whole number of words, at addresses other than 0, and the end is an address too. */
    predicate Placed() { start > 0 && |data| + slack > 0 && (|data| + slack) % WORD_SIZE == 0 && End() < WORD }
    predicate Apart(other: Block) { End() <= other.start || other.End() <= start }
    predicate Has(p: nat) { start <= p < End() && p <= start + |data| }
    /** The usable bytes from a pointer into the block on. */
    function From(p: nat): (r: seq<Byte>)
      requires Has(p)
    {
      data[p - start..]
    }
    predicate SameShape(other: Block) { start == other.start && |data| == |other.data| && slack == other.slack }
  }

  predicate AllZero(bytes: seq<Byte>) { forall i | 0 <= i < |bytes| :: bytes[i] == 0 }

  /** What is zero in a free block of a page that is marked zero: its first word holds the link of the free list. */
  predicate ZeroButLink(bytes: seq<Byte>) { forall i | WORD_SIZE <= i < |bytes| :: bytes[i] == 0 }

  function Zeros(n: nat): (r: seq<Byte>)
    ensures |r| == n && AllZero(r)
  {
    seq(n, _ => 0)
  }

  /** Write bytes into a block at a pointer. */
  function Write(b: Block, p: nat, bytes: seq<Byte>): (r: Block)
    requires b.Has(p) && p + |bytes| <= b.start + |b.data|
    ensures r.SameShape(b)
    ensures r.From(p)[..|bytes|] == bytes && r.From(p)[|bytes|..] == b.From(p)[|bytes|..]
  {
    var at := p - b.start;
    var r := b.(data := b.data[..at] + bytes + b.data[at + |bytes|..]);
    assert r.From(p) == bytes + b.data[at + |bytes|..];
    r
  }

  /** Zero the usable bytes; in a page that is marked zero, clearing the link is enough. */
  method BlockZeroInit(b: Block, isZero: bool, size: nat) returns (c: Block)
    requires b.Placed() && |b.data| >= size && (isZero ==> ZeroButLink(b.data))
    ensures c.SameShape(b) && AllZero(c.data)
  {
    if isZero && size > WORD_SIZE {
      c := Write(b, b.start, Zeros(WORD_SIZE));
      assert forall i | 0 <= i < WORD_SIZE :: c.data[i] == c.From(b.start)[..WORD_SIZE][i];
      assert forall i | WORD_SIZE <= i < |c.data| ::
               c.data[i] == c.From(b.start)[WORD_SIZE..][i - WORD_SIZE] == b.data[i];
    } else {
      c := Write(b, b.start, Zeros(|b.data|));
      assert forall i | 0 <= i < |c.data| :: c.data[i] == c.From(b.start)[..|b.data|][i];
    }
  }

  // ---------------------------------------------------------------- how an aligned request is served

  datatype Path = Refused | SmallFree | Regular | OverAllocate

  /** Which way a request takes; free is the address of the first free block of its size, or 0. */
  function PathOf(size: Word, alignment: Word, offset: Word, padding: nat, free: Word): (path: Path) {
    if size > PTRDIFF_MAX || alignment == 0 || !IsPowerOfTwo(alignment) then Refused
    else
      var padsize := size + padding;
      if padsize <= SMALL_SIZE_MAX && free != 0 && BitAnd((free + offset) % WORD, alignment - 1) == 0 then SmallFree
      else if offset == 0 && alignment <= padsize <= MEDIUM_OBJ_SIZE_MAX && BitAnd(padsize, alignment - 1) == 0 then
        Regular
      else OverAllocate
  }

  /** A request that can be served: of at most PTRDIFF_MAX bytes, and aligned to a power of two. */
  ghost predicate Sound(size: nat, alignment: nat) { size <= PTRDIFF_MAX && IsPower(alignment) }

  lemma RefusedIff(size: Word, alignment: Word, offset: Word, padding: nat, free: Word)
    ensures PathOf(size, alignment, offset, padding, free) == Refused <==> !Sound(size, alignment)
  {
    if alignment > 0 { PowerOfTwoIff(alignment); }
  }

  /**
    A request that is served takes the first free block if it is small and that block is aligned already;
    it is asked for as it is if its size class is aligned by itself; and otherwise with room to align it.
   */
  lemma PathIs(size: Word, alignment: Word, offset: Word, padding: nat, free: Word)
    requires PathOf(size, alignment, offset, padding, free) != Refused
    ensures
      var path, padsize := PathOf(size, alignment, offset, padding, free), size + padding;
      var small := padsize <= 1024 && free != 0 && (free + offset) % alignment == 0;
      var regular := offset == 0 && padsize <= 128 * 1024 && alignment <= padsize && padsize % alignment == 0;
      && (path == SmallFree <==> small)
      && (path == Regular <==> !small && regular)
      && (path == OverAllocate <==> !small && !regular)
  {
    MaskedRemainder(free + offset, alignment);
    if size + padding <= MEDIUM_OBJ_SIZE_MAX { SmallMasked(size + padding, alignment); }
  }

  lemma SmallMasked(x: nat, alignment: Word)
    requires alignment > 0 && IsPowerOfTwo(alignment)
    ensures BitAnd(x, alignment - 1) == x % alignment
  {
    var k := LogBelow(alignment);
    MaskIsMod(x, k);
  }

  /** How many bytes are asked for. */
  function Request(path: Path, size: Word, alignment: Word): (r: Word) {
    if path == OverAllocate then (size + alignment + WORD - 1) % WORD else size
  }

  lemma RequestDoesNotWrap(size: Word, alignment: Word, offset: Word, padding: nat, free: Word)
    requires PathOf(size, alignment, offset, padding, free) == OverAllocate
    ensures Request(OverAllocate, size, alignment) == size + alignment - 1
  {
    var k := LogBelow(alignment);
  }

  /** The pointer handed out: the block, or the first place in it at which offset bytes further on is aligned. */
  function Aligned(start: Word, alignment: Word, offset: Word): (p: nat)
    requires alignment > 0
  {
    var adjust := alignment - BitAnd((start + offset) % WORD, alignment - 1);
    if adjust == alignment then start else start + adjust
  }

  /** The address offset bytes behind p is a multiple of the alignment. */
  predicate IsAligned(p: nat, offset: Word, alignment: Word) { alignment > 0 && (p + offset) % WORD % alignment == 0 }

  lemma MaskedRemainder(x: nat, alignment: Word)
    requires alignment > 0 && IsPowerOfTwo(alignment)
    ensures BitAnd(x % WORD, alignment - 1) == x % WORD % alignment == x % alignment
  {
    var k := LogBelow(alignment);
    MaskIsMod(x % WORD, k);
    WrapKeepsRemainder(x, k);
  }

  lemma {:induction false} AlignedIsAligned(start: Word, alignment: Word, offset: Word)
    requires alignment > 0 && IsPowerOfTwo(alignment)
    ensures var p := Aligned(start, alignment, offset);
              IsAligned(p, offset, alignment) && start <= p < start + alignment
  {
    var x, p := start + offset, Aligned(start, alignment, offset);
    MaskedRemainder(x, alignment);
    NextMultiple(x, alignment);
    MaskedRemainder(p + offset, alignment);
  }

  lemma NextMultiple(x: nat, a: nat)
    requires a > 0
    ensures x % a != 0 ==> (x + (a - x % a)) % a == 0
  {
    var q := x / a;
    assert x + (a - x % a) == a * (q + 1);
    ModIs(a * (q + 1), a, q + 1, 0);
  }

  // ---------------------------------------------------------------- the heap

  /** The page allocator's answer: none, or a block and whether its page is known to be zero. */
  datatype Grant = Denied | Granted(block: Block, isZero: bool)

  /** The pointers lie in their blocks, and no two blocks overlap. */
  ghost predicate Disjoint(live: map<nat, Block>) {
    && (forall p | p in live :: live[p].Placed() && live[p].Has(p))
    && (forall p, q | p in live && q in live && p != q :: live[p].Apart(live[q]))
  }

  lemma OtherContents(live: map<nat, Block>, p: nat, b: Block)
    requires Disjoint(live) && p in live && b.SameShape(live[p])
    ensures Disjoint(live[p := b])
  {
  }

  /** The heap: the pointers that were handed out and not freed, each with its block. */
  class Heap {
    var live: map<nat, Block>
    const padding: nat

    constructor (padding: nat)
      ensures Valid() && live == map[] && this.padding == padding
    {
      live := map[];
      this.padding := padding;
    }

    ghost predicate Valid()
      reads this
    {
      Disjoint(live)
    }

    /** A block that is not in use. */
    ghost predicate Fresh(b: Block)
      reads this
    {
      b.Placed() && forall p | p in live :: b.Apart(live[p])
    }

    /** What the page allocator promises for a request of so many bytes. */
    ghost predicate Serves(g: Grant, bytes: nat)
      reads this
    {
      g.Granted? ==> Fresh(g.block) && |g.block.data| >= bytes && (g.isZero ==> ZeroButLink(g.block.data))
    }

    /** For an aligned request: the first free block of a small page, or a size class that is aligned by itself. */
    ghost predicate ServesAligned(g: Grant, size: Word, alignment: Word, offset: Word, free: Word)
      reads this
    {
      var path := PathOf(size, alignment, offset, padding, free);
      && Serves(g, Request(path, size, alignment))
      && (g.Granted? && path == SmallFree ==> g.block.start == free)
      && (g.Granted? && path == Regular ==> g.block.start % alignment == 0)
    }

    /** The pointer is the place in the granted block that the way of the request prescribes. */
    ghost predicate PlacedBy(p: nat, size: Word, alignment: Word, offset: Word, free: Word, g: Grant) {
      && alignment > 0 && g.Granted? && g.block.Placed()
      && p == PointerIn(PathOf(size, alignment, offset, padding, free), g.block.start, alignment, offset)
    }

    /** The bytes that can be used behind a pointer. */
    function Usable(p: nat): (r: seq<Byte>)
      requires p in live && live[p].Has(p)
      reads this
    {
      live[p].From(p)
    }

    /** Hand out a pointer into a fresh block. */
    method HandOut(p: nat, b: Block)
      requires Valid() && Fresh(b) && b.Has(p)
      modifies this
      ensures Valid() && p !in old(live) && live == old(live)[p := b]
    {
      live := live[p := b];
    }

    /** Allocate so that the address offset bytes into the result is aligned. */
    method MallocAligned(size: Word, alignment: Word, offset: Word, zero: bool, free: Word, g: Grant) returns (p: nat)
      requires Valid() && ServesAligned(g, size, alignment, offset, free)
      modifies this
      ensures Valid()
      ensures p == 0 <==> !Sound(size, alignment) || g.Denied?
      ensures p == 0 ==> live == old(live)
      ensures p != 0 ==> p !in old(live) && p in live && live == old(live)[p := live[p]] && live[p].SameShape(g.block)
      ensures p != 0 ==> IsAligned(p, offset, alignment) && |Usable(p)| >= size && (zero ==> AllZero(Usable(p)))
      ensures p != 0 && !zero ==> live[p] == g.block
      ensures p != 0 ==> PlacedBy(p, size, alignment, offset, free, g)
    {
      var path := PathOf(size, alignment, offset, padding, free);
      RefusedIff(size, alignment, offset, padding, free);
      if path.Refused? || g.Denied? { return 0; }
      var b := g.block;
      if zero { b := BlockZeroInit(b, g.isZero, Request(path, size, alignment)); }
      p := PointerIn(path, b.start, alignment, offset);
      PointerFits(path, size, alignment, offset, padding, free, b);
      HandOut(p, b);
    }

    /** Allocate an array of zeros; a size that overflows is refused. */
    method CallocAligned(count: Word, size: Word, alignment: Word, offset: Word, free: Word, g: Grant) returns (p: nat)
      requires Valid() && (count * size <= SIZE_MAX ==> ServesAligned(g, count * size, alignment, offset, free))
      modifies this
      ensures Valid()
      ensures p == 0 <==> !Sound(count * size, alignment) || g.Denied?
      ensures p == 0 ==> live == old(live)
      ensures p != 0 ==> p !in old(live) && p in live && live == old(live)[p := live[p]]
      ensures p != 0 ==> IsAligned(p, offset, alignment) && |Usable(p)| >= count * size && AllZero(Usable(p))
    {
      var overflow, total := CountSizeOverflow(count, size);
      if overflow { return 0; }
      p := MallocAligned(total, alignment, offset, true, free, g);
    }

    method Free(p: nat)
      requires Valid() && p in live
      modifies this
      ensures Valid() && live == old(live) - {p}
    {
      live := live - {p};
    }

    /** Move the contents of p to newp, with zeros behind them if asked for, and free p. */
    method Move(p: nat, newp: nat, newsize: Word, zero: bool, isZero: bool)
      requires Valid() && p in live && newp in live && p != newp && |Usable(newp)| >= newsize
      requires isZero ==> ZeroButLink(live[newp].data)
      modifies this
      ensures Valid()
      ensures live == (old(live) - {p})[newp := Filled(old(live)[newp], newp, old(Usable(p)), newsize, zero, isZero)]
    {
      var b := Fill(live[newp], newp, Usable(p), newsize, zero, isZero);
      Replace(p, newp, b);
    }

    /** Give the block at newp other contents, and free p. */
    method Replace(p: nat, newp: nat, b: Block)
      requires Valid() && p in live && newp in live && p != newp && b.SameShape(live[newp])
      modifies this
      ensures Valid() && live == (old(live) - {p})[newp := b]
    {
      Free(p);
      OtherContents(live, newp, b);
      live := live[newp := b];
    }

    /** realloc without alignment: in place if the block is neither too small nor more than twice as large. */
    method Realloc(p: nat, newsize: Word, zero: bool, g: Grant) returns (r: nat)
      requires Valid() && (p == 0 || p in live) && Serves(g, newsize)
      modifies this
      ensures Valid() && Reallocated(old(live), p, r, newsize)
      ensures r == 0 <==> !StaysInPlace(old(live), p, newsize) && g.Denied?
      ensures r == p != 0 <==> StaysInPlace(old(live), p, newsize)
      ensures r != 0 && zero ==> Zeroed(Before(old(live), p), Usable(r), newsize)
    {
      if p == 0 {
        if g.Denied? { return 0; }
        r := Malloc(newsize, zero, g);
        return;
      }
      var size := |Usable(p)|;
      if newsize <= size && newsize >= size / 2 { return p; }
      if g.Denied? { return 0; }
      r := Relocate(p, newsize, zero, g);
      MovedKeeps(live[r], g.(isZero := false), r, old(Usable(p)), newsize, zero);
    }

    /** To a new block. */
    method Relocate(p: nat, newsize: Word, zero: bool, g: Grant) returns (r: nat)
      requires Valid() && p in live && Serves(g, newsize) && g.Granted?
      modifies this
      ensures Valid() && r != 0 && r !in old(live) && r in live && live == (old(live) - {p})[r := live[r]]
      ensures MovedTo(live[r], g.(isZero := false), r, old(Usable(p)), newsize, zero)
    {
      r := Malloc(newsize, false, g);
      Move(p, r, newsize, zero, false);
    }

    /** Allocate without alignment. */
    method Malloc(size: Word, zero: bool, g: Grant) returns (p: nat)
      requires Valid() && Serves(g, size) && g.Granted?
      modifies this
      ensures Valid() && p != 0 && p !in old(live) && p in live && live == old(live)[p := live[p]]
      ensures |Usable(p)| >= size && (zero ==> AllZero(Usable(p))) && (!zero ==> live[p] == g.block)
    {
      var b := g.block;
      if zero { b := BlockZeroInit(b, g.isZero, size); }
      p := b.start;
      HandOut(p, b);
    }

    /** realloc with alignment: in place if the pointer is aligned and at most half of the block is wasted. */
    method ReallocAlignedAt(p: nat, newsize: Word, alignment: Word, offset: Word, zero: bool, free: Word, g: Grant)
      returns (r: nat)
      requires Valid() && (p == 0 || p in live)
      requires alignment <= WORD_SIZE ==> Serves(g, newsize)
      requires alignment > WORD_SIZE ==> ServesAligned(g, newsize, alignment, offset, free)
      modifies this
      ensures Valid() && Reallocated(old(live), p, r, newsize)
      ensures r == 0 <==> Unserved(old(live), p, newsize, alignment, offset, g)
      ensures r == p != 0 <==> StaysAligned(old(live), p, newsize, alignment, offset)
      ensures r != 0 && zero && ZeroSafe(old(live), p, r, newsize, alignment, g) ==>
                Zeroed(Before(old(live), p), Usable(r), newsize)
      ensures r != 0 && p != 0 && r != p && alignment > WORD_SIZE ==>
                MovedTo(live[r], g, r, Before(old(live), p), newsize, zero)
      ensures r != 0 && r != p && alignment > WORD_SIZE ==> PlacedBy(r, newsize, alignment, offset, free, g)
      ensures r != 0 && alignment > WORD_SIZE ==> IsAligned(r, offset, alignment) && (r == p || IsPowerOfTwo(alignment))
    {
      if alignment <= WORD_SIZE {
        r := Realloc(p, newsize, zero, g);
      } else if p == 0 {
        RefusedIff(newsize, alignment, offset, padding, free);
        r := MallocAligned(newsize, alignment, offset, zero, free, g);
      } else {
        r := ReallocLive(p, newsize, alignment, offset, zero, free, g);
      }
    }

    /** realloc, of a pointer other than NULL, with an alignment above the word size. */
    method ReallocLive(p: nat, newsize: Word, alignment: Word, offset: Word, zero: bool, free: Word, g: Grant)
      returns (r: nat)
      requires Valid() && p in live && alignment > WORD_SIZE && ServesAligned(g, newsize, alignment, offset, free)
      modifies this
      ensures Valid() && Reallocated(old(live), p, r, newsize)
      ensures r == 0 <==> Unserved(old(live), p, newsize, alignment, offset, g)
      ensures r == p <==> StaysAligned(old(live), p, newsize, alignment, offset)
      ensures r != 0 && zero && ZeroSafe(old(live), p, r, newsize, alignment, g) ==>
                Zeroed(Before(old(live), p), Usable(r), newsize)
      ensures r != 0 && r != p ==> MovedTo(live[r], g, r, Before(old(live), p), newsize, zero)
      ensures r != 0 && r != p ==> PlacedBy(r, newsize, alignment, offset, free, g)
      ensures r != 0 ==> IsAligned(r, offset, alignment) && (r == p || IsPowerOfTwo(alignment))
    {
      var size := |Usable(p)|;
      if newsize <= size && newsize >= size - size / 2 && (p + offset) % WORD % alignment == 0 { return p; }
      r := MoveAligned(p, newsize, alignment, offset, zero, free, g);
      if r != 0 { MovedKeeps(live[r], g, r, old(Usable(p)), newsize, zero); }
    }

    /** To a new aligned block, if there is one. */
    method MoveAligned(p: nat, newsize: Word, alignment: Word, offset: Word, zero: bool, free: Word, g: Grant)
      returns (r: nat)
      requires Valid() && p in live && ServesAligned(g, newsize, alignment, offset, free)
      modifies this
      ensures Valid()
      ensures r == 0 <==> !Sound(newsize, alignment) || g.Denied?
      ensures r == 0 ==> live == old(live)
      ensures r != 0 ==> r in live && r !in old(live) && live == (old(live) - {p})[r := live[r]]
      ensures r != 0 ==> MovedTo(live[r], g, r, old(Usable(p)), newsize, zero)
      ensures r != 0 ==> PlacedBy(r, newsize, alignment, offset, free, g)
      ensures r != 0 ==> IsAligned(r, offset, alignment) && IsPowerOfTwo(alignment)
    {
      RefusedIff(newsize, alignment, offset, padding, free);
      r := MallocAligned(newsize, alignment, offset, false, free, g);
      if r != 0 { Move(p, r, newsize, zero, g.isZero); }
    }

    /**
      realloc with alignment at the offset that the old pointer has; the result is aligned exactly
      when the old pointer is.
     */
    method ReallocAligned(p: nat, newsize: Word, alignment: Word, zero: bool, free: Word, g: Grant) returns (r: nat)
      requires Valid() && (p == 0 || p in live)
      requires alignment <= WORD_SIZE ==> Serves(g, newsize)
      requires alignment > WORD_SIZE ==> ServesAligned(g, newsize, alignment, OffsetOf(p, alignment), free)
      modifies this
      ensures Valid() && Reallocated(old(live), p, r, newsize)
      ensures r == 0 <==> Unserved(old(live), p, newsize, alignment, OffsetOf(p, alignment), g)
      ensures r == p != 0 <==> StaysAligned(old(live), p, newsize, alignment, OffsetOf(p, alignment))
      ensures r != 0 && zero && ZeroSafe(old(live), p, r, newsize, alignment, g) ==>
                Zeroed(Before(old(live), p), Usable(r), newsize)
      ensures r != 0 && p != 0 && r != p && alignment > WORD_SIZE ==>
                MovedTo(live[r], g, r, Before(old(live), p), newsize, zero)
      ensures r != 0 && r != p && alignment > WORD_SIZE ==>
                PlacedBy(r, newsize, alignment, OffsetOf(p, alignment), free, g)
      ensures r != 0 && alignment > WORD_SIZE ==> (r % alignment == 0 <==> p % alignment == 0)
    {
      if alignment <= WORD_SIZE {
        r := Realloc(p, newsize, zero, g);
        return;
      }
      var offset := OffsetOf(p, alignment);
      r := ReallocAlignedAt(p, newsize, alignment, offset, zero, free, g);
      if r != 0 && r != p { AlignedAlike(r, p, alignment); }
    }

    /**
      What reallocation promises: a new pointer keeps the old contents as far as they fit, and a
      refusal leaves the old block as it was; no other block changes.
     */
    ghost predicate Reallocated(before: map<nat, Block>, p: nat, r: nat, newsize: Word)
      reads this
    {
      && (r == 0 ==> live == before)
      && (r != 0 ==> r in live && live[r].Has(r) && (r == p || r !in before) && live == (before - {p})[r := live[r]])
      && (r != 0 ==> Kept(Before(before, p), Usable(r), newsize))
    }

    /** NULL is returned: the block cannot stay, and the request for another one is refused or denied. */
    ghost predicate Unserved(before: map<nat, Block>, p: nat, newsize: Word, alignment: Word, offset: Word, g: Grant) {
      && !StaysAligned(before, p, newsize, alignment, offset)
      && (g.Denied? || (alignment > WORD_SIZE && !Sound(newsize, alignment)))
    }

    /** The page was not marked zero, or the bytes that would have to be cleared are not those of the link. */
    ghost predicate ZeroSafe(before: map<nat, Block>, p: nat, r: nat, newsize: Word, alignment: Word, g: Grant)
      requires r in live
      reads this
    {
      p == 0 || alignment <= WORD_SIZE || g.Denied? || !g.isZero
      || LinkCovered(r - live[r].start, |Before(before, p)|, newsize)
    }
  }

  /** The offset that an old pointer has. */
  function OffsetOf(p: nat, alignment: Word): (offset: Word) { if alignment == 0 then 0 else p % alignment }

  /** The usable bytes behind an old pointer; none behind NULL. */
  ghost function Before(live: map<nat, Block>, p: nat): seq<Byte> {
    if p in live && live[p].Has(p) then live[p].From(p) else []
  }

  /** The block is neither too small nor more than twice as large as needed. */
  ghost predicate StaysInPlace(live: map<nat, Block>, p: nat, newsize: nat) {
    p != 0 && newsize <= |Before(live, p)| && newsize >= |Before(live, p)| / 2
  }

  /** With an alignment: at most half of the block is wasted, and the pointer is aligned. */
  ghost predicate StaysAligned(live: map<nat, Block>, p: nat, newsize: nat, alignment: Word, offset: Word) {
    if alignment <= WORD_SIZE then StaysInPlace(live, p, newsize)
    else
      var size := |Before(live, p)|;
      p != 0 && newsize <= size && newsize >= size - size / 2 && IsAligned(p, offset, alignment)
  }

  /** The block that was granted holds the old bytes, as Filled says. */
  ghost predicate MovedTo(b: Block, g: Grant, r: nat, from: seq<Byte>, newsize: nat, zero: bool) {
    && g.Granted? && g.block.Has(r) && r + newsize <= g.block.start + |g.block.data|
    && (g.isZero ==> ZeroButLink(g.block.data)) && b == Filled(g.block, r, from, newsize, zero, g.isZero)
  }

  lemma MovedKeeps(b: Block, g: Grant, r: nat, from: seq<Byte>, newsize: nat, zero: bool)
    requires MovedTo(b, g, r, from, newsize, zero)
    ensures b.SameShape(g.block) && b.Has(r) && Kept(from, b.From(r), newsize)
    ensures zero && (g.isZero ==> LinkCovered(r - b.start, |from|, newsize)) ==> Zeroed(from, b.From(r), newsize)
  {
    FilledKeeps(g.block, r, from, newsize, zero, g.isZero);
  }

  /** The old bytes are kept as far as they fit. */
  ghost predicate Kept(from: seq<Byte>, to: seq<Byte>, newsize: nat) {
    |to| >= newsize && forall i | 0 <= i < |from| && i < newsize :: to[i] == from[i]
  }

  /** The bytes behind the old ones are 0. */
  ghost predicate Zeroed(from: seq<Byte>, to: seq<Byte>, newsize: nat) {
    |to| >= newsize && forall i | |from| <= i < newsize :: to[i] == 0
  }

  /**
    Nothing is added behind the old bytes, or what is added lies behind the first word of the block;
    shift is the pointer's place in it.
   */
  predicate LinkCovered(shift: int, size: nat, newsize: nat) { newsize <= size || shift + size >= WORD_SIZE }

  /** Zeros for the new bytes and the last word before them. */
  function Cleared(b: Block, p: nat, size: nat, newsize: nat): (d: Block)
    requires b.Has(p) && size < newsize && p + newsize <= b.start + |b.data|
    ensures d.SameShape(b)
  {
    var start := if size >= WORD_SIZE then size - WORD_SIZE else 0;
    Write(b, p + start, Zeros(newsize - start))
  }

  lemma {:induction false} ClearedTail(b: Block, p: nat, size: nat, newsize: nat)
    requires b.Has(p) && size < newsize && p + newsize <= b.start + |b.data|
    ensures var d := Cleared(b, p, size, newsize); d.Has(p) && forall i | size <= i < newsize :: d.From(p)[i] == 0
  {
    ZeroTail(b, Cleared(b, p, size, newsize), p, if size >= WORD_SIZE then size - WORD_SIZE else 0, newsize);
  }

  function Copied(d: Block, p: nat, from: seq<Byte>, newsize: nat): (c: Block)
    requires d.Has(p) && p + newsize <= d.start + |d.data|
    ensures c.SameShape(d)
  {
    Write(d, p, from[..if newsize > |from| then |from| else newsize])
  }

  /** The new bytes are cleared unless the page is marked zero, and then the old bytes are copied. */
  function Filled(b: Block, p: nat, from: seq<Byte>, newsize: nat, zero: bool, isZero: bool): (c: Block)
    requires b.Has(p) && p + newsize <= b.start + |b.data|
    ensures c.SameShape(b)
  {
    Copied(if zero && newsize > |from| && !isZero then Cleared(b, p, |from|, newsize) else b, p, from, newsize)
  }

  method Fill(b: Block, p: nat, from: seq<Byte>, newsize: Word, zero: bool, isZero: bool) returns (c: Block)
    requires b.Has(p) && p + newsize <= b.start + |b.data| && (isZero ==> ZeroButLink(b.data))
    ensures c == Filled(b, p, from, newsize, zero, isZero) && c.Has(p) && Kept(from, c.From(p), newsize)
    ensures zero && (isZero ==> LinkCovered(p - b.start, |from|, newsize)) ==> Zeroed(from, c.From(p), newsize)
  {
    c := b;
    if zero && newsize > |from| && !isZero { c := Cleared(b, p, |from|, newsize); }
    c := Copied(c, p, from, newsize);
    FilledKeeps(b, p, from, newsize, zero, isZero);
  }

  lemma FilledKeeps(b: Block, p: nat, from: seq<Byte>, newsize: nat, zero: bool, isZero: bool)
    requires b.Has(p) && p + newsize <= b.start + |b.data| && (isZero ==> ZeroButLink(b.data))
    ensures var c := Filled(b, p, from, newsize, zero, isZero); c.Has(p) && Kept(from, c.From(p), newsize)
    ensures zero && (isZero ==> LinkCovered(p - b.start, |from|, newsize)) ==>
              Zeroed(from, Filled(b, p, from, newsize, zero, isZero).From(p), newsize)
  {
    var d := if zero && newsize > |from| && !isZero then Cleared(b, p, |from|, newsize) else b;
    if zero && newsize > |from| && !isZero { ClearedTail(b, p, |from|, newsize); }
    CopyKeeps(d, Copied(d, p, from, newsize), p, from, newsize);
    if isZero && LinkCovered(p - b.start, |from|, newsize) { BehindLink(b, p, |from|, newsize); }
  }

  lemma BehindLink(b: Block, p: nat, size: nat, newsize: nat)
    requires b.Has(p) && p + newsize <= b.start + |b.data| && ZeroButLink(b.data) &&
             LinkCovered(p - b.start, size, newsize)
    ensures forall i | size <= i < newsize :: b.From(p)[i] == 0
  {
    forall i | size <= i < newsize ensures b.From(p)[i] == 0 {
      assert b.From(p)[i] == b.data[p - b.start + i];
    }
  }

  lemma ZeroTail(a: Block, b: Block, p: nat, start: nat, newsize: nat)
    requires a.Has(p) && start < newsize && p + newsize <= a.start + |a.data| &&
             b == Write(a, p + start, Zeros(newsize - start))
    ensures b.Has(p) && forall i | start <= i < newsize :: b.From(p)[i] == 0
  {
    forall i | start <= i < newsize ensures b.From(p)[i] == 0 {
      assert b.From(p)[i] == b.From(p + start)[..newsize - start][i - start];
    }
  }

  /** The copy changes the old bytes' places and no others. */
  lemma {:induction false} CopyKeeps(d: Block, c: Block, p: nat, from: seq<Byte>, newsize: nat)
    requires d.Has(p) && p + newsize <= d.start + |d.data|
    requires c == Copied(d, p, from, newsize)
    ensures c.Has(p) && Kept(from, c.From(p), newsize)
    ensures forall i | |from| <= i < newsize :: c.From(p)[i] == d.From(p)[i]
  {
    var count := if newsize > |from| then |from| else newsize;
    FrontAndBack(c.From(p), d.From(p), from[..count], newsize);
  }

  lemma FrontAndBack(r: seq<Byte>, s: seq<Byte>, front: seq<Byte>, newsize: nat)
    requires |front| <= |r| == |s| && newsize <= |r| && r[..|front|] == front && r[|front|..] == s[|front|..]
    ensures forall i | 0 <= i < |front| :: r[i] == front[i]
    ensures forall i | |front| <= i < newsize :: r[i] == s[i]
  {
    assert forall i | 0 <= i < |front| :: r[i] == r[..|front|][i];
    assert forall i | |front| <= i < newsize :: r[i] == r[|front|..][i - |front|];
  }

  /** A free block of a page marked zero, with a link that is not zero. */
  function Linked(length: nat): (data: seq<Byte>)
    ensures |data| == length && ZeroButLink(data)
  {
    seq(length, i => if i < WORD_SIZE then 1 else 0)
  }

  /**
    In a page marked zero, growing by reallocation leaves only zeros behind the old bytes, whatever
    the link is, exactly when the bytes that are added lie behind the link.
   */
  lemma ZeroesIff(start: nat, length: nat, slack: nat, p: nat, from: seq<Byte>, newsize: nat)
    requires start <= p < start + length + slack && p + newsize <= start + length
    ensures (forall data: seq<Byte> | |data| == length && ZeroButLink(data) ::
              ZeroesWith(start, data, slack, p, from, newsize))
            <==> LinkCovered(p - start, |from|, newsize)
  {
    forall data: seq<Byte> | |data| == length && ZeroButLink(data) && LinkCovered(p - start, |from|, newsize)
      ensures ZeroesWith(start, data, slack, p, from, newsize)
    {
      var b := Block(start, data, slack);
      CopyKeeps(b, Filled(b, p, from, newsize, true, true), p, from, newsize);
      BehindLink(b, p, |from|, newsize);
    }
    if !LinkCovered(p - start, |from|, newsize) {
      LinkStays(start, length, slack, p, from, newsize);
    }
  }

  lemma LinkStays(start: nat, length: nat, slack: nat, p: nat, from: seq<Byte>, newsize: nat)
    requires start <= p < start + length + slack && p + newsize <= start + length &&
             !LinkCovered(p - start, |from|, newsize)
    ensures !ZeroesWith(start, Linked(length), slack, p, from, newsize)
  {
    var b := Block(start, Linked(length), slack);
    var c := Filled(b, p, from, newsize, true, true);
    CopyKeeps(b, c, p, from, newsize);
    assert c.From(p)[|from|] == b.From(p)[|from|] == Linked(length)[p - start + |from|] == 1;
  }

  ghost predicate ZeroesWith(start: nat, data: seq<Byte>, slack: nat, p: nat, from: seq<Byte>, newsize: nat)
    requires start <= p < start + |data| + slack && p + newsize <= start + |data|
  {
    var b := Block(start, data, slack);
    Zeroed(from, Filled(b, p, from, newsize, true, true).From(p), newsize)
  }

  /** Zeros follow the old bytes in every block that suits the request, in a page marked zero with any link. */
  ghost predicate AlwaysZeroes(newsize: Word, alignment: Word, offset: Word, padding: nat, free: Word, from: seq<Byte>)
    requires alignment > 0
  {
    var path := PathOf(newsize, alignment, offset, padding, free);
    forall b: Block :: Suits(path, newsize, alignment, free, b) && ZeroButLink(b.data) ==>
                         ZeroesIn(b, PointerIn(path, b.start, alignment, offset), from, newsize)
  }

  /** There are addresses enough for a block of the size that is asked for. */
  predicate Room(newsize: Word, alignment: Word, free: Word) {
    newsize + 2 * alignment + WORD_SIZE < WORD && free + newsize + WORD_SIZE < WORD
  }

  /**
    For the caller, who does not know the place of the result in its block: zeros always follow the old bytes
    if nothing is added or the old bytes fill a word, and, as soon as there is room for a block, only then.
   */
  lemma AlwaysZeroesIff(newsize: Word, alignment: Word, offset: Word, padding: nat, free: Word, from: seq<Byte>)
    requires PathOf(newsize, alignment, offset, padding, free) != Refused
    ensures newsize <= |from| || |from| >= WORD_SIZE ==> AlwaysZeroes(newsize, alignment, offset, padding, free, from)
    ensures Room(newsize, alignment, free) && AlwaysZeroes(newsize, alignment, offset, padding, free, from) ==>
              newsize <= |from| || |from| >= WORD_SIZE
  {
    var path := PathOf(newsize, alignment, offset, padding, free);
    if newsize <= |from| || |from| >= WORD_SIZE {
      forall b: Block | Suits(path, newsize, alignment, free, b) && ZeroButLink(b.data)
        ensures ZeroesIn(b, PointerIn(path, b.start, alignment, offset), from, newsize)
      {
        var p := PointerIn(path, b.start, alignment, offset);
        PointerFits(path, newsize, alignment, offset, padding, free, b);
        ZeroesIff(b.start, |b.data|, b.slack, p, from, newsize);
      }
    } else if Room(newsize, alignment, free) {
      var b := SelfAligned(newsize, alignment, offset, padding, free);
      PointerFits(path, newsize, alignment, offset, padding, free, b);
      LinkStays(b.start, |b.data|, b.slack, b.start, from, newsize);
    }
  }

  ghost predicate ZeroesIn(b: Block, p: nat, from: seq<Byte>, newsize: nat) {
    && b.start <= p < b.start + |b.data| + b.slack && p + newsize <= b.start + |b.data|
    && ZeroesWith(b.start, b.data, b.slack, p, from, newsize)
  }

  /** A block, with a link, whose own address is the one that is handed out. */
  lemma SelfAligned(size: Word, alignment: Word, offset: Word, padding: nat, free: Word) returns (b: Block)
    requires PathOf(size, alignment, offset, padding, free) != Refused && size > 0 && Room(size, alignment, free)
    ensures
      var path := PathOf(size, alignment, offset, padding, free);
      && Suits(path, size, alignment, free, b) && b.data == Linked(|b.data|)
      && PointerIn(path, b.start, alignment, offset) == b.start
  {
    var path := PathOf(size, alignment, offset, padding, free);
    var length := if path == OverAllocate then size + alignment - 1 else size;
    var slack := WORD_SIZE - length % WORD_SIZE;
    var start := if path == SmallFree then free else if path == Regular then alignment else Below(alignment, offset);
    b := Block(start, Linked(length), slack);
    WholeWords(length);
    if path == OverAllocate {
      RequestDoesNotWrap(size, alignment, offset, padding, free);
      BelowAligned(alignment, offset);
    }
  }

  /** The first address other than 0 at which offset bytes further on is aligned. */
  function Below(alignment: Word, offset: Word): (r: nat)
    requires alignment > 0
    ensures 0 < r <= alignment
  {
    alignment - offset % alignment
  }

  lemma BelowAligned(alignment: Word, offset: Word)
    requires alignment > 0 && IsPowerOfTwo(alignment)
    ensures Aligned(Below(alignment, offset), alignment, offset) == Below(alignment, offset)
  {
    var r := Below(alignment, offset);
    MaskedRemainder(r + offset, alignment);
    assert (r + offset) % alignment == 0 by { RoundsUp(offset, alignment); }
  }

  lemma RoundsUp(x: nat, a: nat)
    requires a > 0
    ensures (a - x % a + x) % a == 0
  {
    var q := x / a;
    assert a - x % a + x == a * (q + 1);
    ModIs(a * (q + 1), a, q + 1, 0);
  }

  lemma WholeWords(length: nat)
    ensures (length + (WORD_SIZE - length % WORD_SIZE)) % WORD_SIZE == 0
  {
  }

  /**
    An input that fails, on a heap: one byte, zeroed and aligned to 16 at offset 1, is 15 bytes into its block,
    and 1 byte is usable; growing it to 64 zeroed bytes in a page marked zero gives a pointer one byte behind
    the start of its block, and bytes of the link stay.
   */
  method TinyGrowthFails(padding: nat, start: Word, start': Word, free: Word, free': Word)
    returns (heap: Heap, p: nat, r: nat)
    requires start > 0 && start % 16 == 0 && free % 16 == 0 && start + 16 <= start'
    requires start' % 16 == 0 && free' % 16 == 0 && start' + 80 < WORD
    ensures p == start + 15 && r == start' + 1 && r in heap.live && heap.live[r].Has(r)
    ensures !Zeroed([0], heap.Usable(r), 64)
  {
    heap, p := TinyAllocation(padding, start, free);
    ghost var before := heap.live;
    TinyGrowth(start', free', padding);
    Sixteen();
    AlignedTwice(start);
    var g := Granted(Block(start', Linked(80), 0), true);
    r := heap.ReallocAligned(p, 64, 16, true, free', g);
    assert Before(before, p) == [0];
    LinkRemains(heap.live[r], g, r);
  }

  lemma LinkRemains(b: Block, g: Grant, r: nat)
    requires MovedTo(b, g, r, [0], 64, true) && g.isZero && r == g.block.start + 1 && g.block.data == Linked(80)
    ensures b.Has(r) && !Zeroed([0], b.From(r), 64)
  {
    LinkStays(g.block.start, 80, g.block.slack, r, [0], 64);
    assert g.block == Block(g.block.start, Linked(80), g.block.slack);
  }

  method TinyAllocation(padding: nat, start: Word, free: Word) returns (heap: Heap, p: nat)
    requires start > 0 && start % 16 == 0 && free % 16 == 0 && start + 16 < WORD
    ensures fresh(heap) && heap.padding == padding && heap.Valid() && p == start + 15
    ensures heap.live.Keys == {p} && heap.live[p].SameShape(Block(start, Zeros(16), 0)) && heap.Usable(p) == [0]
  {
    heap := new Heap(padding);
    TinyRequest(start, free, padding);
    Sixteen();
    p := heap.MallocAligned(1, 16, 1, true, free, Granted(Block(start, Zeros(16), 0), false));
  }

  lemma AlignedOnce(start: nat)
    requires start % 16 == 0
    ensures (start + 1) % 16 == 1
  {
  }

  lemma AlignedTwice(start: nat)
    requires start % 16 == 0
    ensures (start + 15) % 16 == 15
  {
  }

  lemma {:induction false} TinyRequest(start: Word, free: Word, padding: nat)
    requires start % 16 == 0 && free % 16 == 0
    ensures IsPowerOfTwo(16) && PathOf(1, 16, 1, padding, free) == OverAllocate && Request(OverAllocate, 1, 16) == 16
    ensures Aligned(start, 16, 1) == start + 15
  {
    Sixteen();
    AlignedOnce(start);
    AlignedOnce(free);
    MaskedRemainder(start + 1, 16);
    MaskedRemainder(free + 1, 16);
  }

  lemma {:induction false} TinyGrowth(start: Word, free: Word, padding: nat)
    requires start % 16 == 0 && free % 16 == 0
    ensures PathOf(64, 16, 15, padding, free) == OverAllocate && Request(OverAllocate, 64, 16) == 79
    ensures Aligned(start, 16, 15) == start + 1
  {
    Sixteen();
    AlignedTwice(start);
    AlignedTwice(free);
    MaskedRemainder(start + 15, 16);
    MaskedRemainder(free + 15, 16);
  }

  lemma Sixteen()
    ensures IsPowerOfTwo(16) && Sound(1, 16) && Sound(64, 16)
  {
    PowersPass(4);
    assert Pow2(4) == 16;
  }

  /** Two addresses whose sum is a multiple of the alignment are aligned together. */
  lemma AlignedAlike(r: nat, p: nat, alignment: Word)
    requires alignment > 0 && IsPowerOfTwo(alignment) && IsAligned(r, p % alignment, alignment)
    ensures r % alignment == 0 <==> p % alignment == 0
  {
    var o := p % alignment;
    MaskedRemainder(r + o, alignment);
    SumAligned(r, o, alignment);
  }

  lemma SumAligned(r: nat, o: nat, a: nat)
    requires o < a && (r + o) % a == 0
    ensures r % a == 0 <==> o == 0
  {
    var q, m := (r + o) / a, r / a;
    assert r + o == a * q && r == a * m + r % a;
    if r % a == 0 { OnlyZero(a, q - m); }
  }

  /** The pointer that is handed out for a block. */
  function PointerIn(path: Path, start: Word, alignment: Word, offset: Word): (p: nat)
    requires alignment > 0
  {
    if path == OverAllocate then Aligned(start, alignment, offset) else start
  }

  /** What is promised of the block for a request, by the way that it takes. */
  ghost predicate Suits(path: Path, size: Word, alignment: Word, free: Word, b: Block)
    requires alignment > 0
  {
    && b.Placed() && |b.data| >= Request(path, size, alignment)
    && (path == SmallFree ==> b.start == free)
    && (path == Regular ==> b.start % alignment == 0)
  }

  /** The pointer lies in the block with size bytes behind it, and is aligned. */
  lemma PointerFits(path: Path, size: Word, alignment: Word, offset: Word, padding: nat, free: Word, b: Block)
    requires path == PathOf(size, alignment, offset, padding, free) && path != Refused
    requires Suits(path, size, alignment, free, b)
    ensures
      var p := PointerIn(path, b.start, alignment, offset);
      b.Has(p) && IsAligned(p, offset, alignment) && p + size <= b.start + |b.data|
  {
    match path
    case OverAllocate => OverAllocatedFits(size, alignment, offset, padding, free, b);
    case SmallFree => MaskedRemainder(free + offset, alignment);
    case Regular => SmallMod(b.start, WORD);
  }

  lemma OverAllocatedFits(size: Word, alignment: Word, offset: Word, padding: nat, free: Word, b: Block)
    requires PathOf(size, alignment, offset, padding, free) == OverAllocate
    requires b.Placed() && |b.data| >= Request(OverAllocate, size, alignment)
    ensures
      var p := Aligned(b.start, alignment, offset);
      b.Has(p) && IsAligned(p, offset, alignment) && p + size <= b.start + |b.data|
  {
    RequestDoesNotWrap(size, alignment, offset, padding, free);
    AlignedIsAligned(b.start, alignment, offset);
    if b.slack == 0 { BelowEnd(|b.data|, alignment); }
  }

  /** A whole number of words that holds alignment - 1 bytes holds alignment bytes. */
  lemma BelowEnd(length: nat, alignment: Word)
    requires alignment > 0 && IsPowerOfTwo(alignment) && length >= alignment - 1 && length > 0 &&
             length % WORD_SIZE == 0
    ensures length >= alignment
  {
    var k := LogBelow(alignment);
    if k > 0 { assert alignment == 2 * Pow2(k - 1); }
  }
}
