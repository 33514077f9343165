/**
 * The region-chained bump arena shared by both parser variants.
 *
 * A region is modelled by its high-water mark `size`, its `capacity` and its
 * storage `data` (only the first `capacity` bytes of a region are ever handed
 * out, so `data` has exactly that many bytes). The chain `begin -> ... -> NULL`
 * is the sequence `regions`; `end` is the index of the region the arena
 * currently bumps from, and an arena with no regions has `begin = end = NULL`.
 * An allocation is returned as a `Block`: the region index and the offset of
 * its first byte in that region.
 *
 * Whether `malloc` grants a new region is not visible to the program; it is
 * the parameter `memoryAvailable`.
 */
module ArenaAllocator {
  import opened Wrappers
  import opened Bytes

  const ALIGNMENT: nat := 16
  const REGION_DEFAULT_CAPACITY: nat := 8 * 1024

  datatype Region = Region(size: nat, capacity: nat, data: seq<Byte>)

  datatype Block = Block(region: nat, offset: nat)

  /** ALIGN_UP(bytes, 16): the least multiple of 16 that is at least `bytes`. */
  function AlignUp(bytes: nat): (r: nat)
    ensures r % ALIGNMENT == 0
    ensures bytes <= r < bytes + ALIGNMENT
  {
    ((bytes + ALIGNMENT - 1) / ALIGNMENT) * ALIGNMENT
  }

  /** Capacity given to a new region that must hold a request of `need` bytes. */
  function NewCapacity(need: nat): (c: nat)
    ensures c >= REGION_DEFAULT_CAPACITY && c >= need
    ensures c == need || c == REGION_DEFAULT_CAPACITY
  {
    if REGION_DEFAULT_CAPACITY < need then need else REGION_DEFAULT_CAPACITY
  }

  /** new_region: an empty region; its fresh storage is modelled as zero bytes. */
  function NewRegion(capacity: nat): Region {
    Region(0, capacity, seq(capacity, _ => NUL))
  }

  predicate Fits(r: Region, need: nat) {
    r.size + need <= r.capacity
  }

  /** Every region's mark is aligned and within its capacity. */
  predicate RegionOk(r: Region) {
    && r.size <= r.capacity
    && r.size % ALIGNMENT == 0
    && |r.data| == r.capacity
    && r.capacity >= REGION_DEFAULT_CAPACITY
  }

  /**
   * The arena's invariant: `end` names a region when there is one, and every
   * region after `end` is untouched (its mark is 0).
   */
  predicate ArenaOk(rs: seq<Region>, end: nat) {
    && (rs == [] ==> end == 0)
    && (rs != [] ==> end < |rs|)
    && (forall i :: 0 <= i < |rs| ==> RegionOk(rs[i]))
    && (forall i :: end < i < |rs| ==> rs[i].size == 0)
  }

  /**
   * The walk of arena_alloc: from `e`, move to the next region while the
   * current one cannot take `need` more bytes and is not the tail.
   */
  function Walk(rs: seq<Region>, e: nat, need: nat): (w: nat)
    requires e < |rs|
    ensures e <= w < |rs|
    ensures forall i :: e <= i < w ==> !Fits(rs[i], need)
    ensures Fits(rs[w], need) || w == |rs| - 1
    decreases |rs| - e
  {
    if Fits(rs[e], need) || e == |rs| - 1 then e else Walk(rs, e + 1, need)
  }

  /** The state of an arena after an allocation, and the block it returned. */
  datatype Outcome = Outcome(regions: seq<Region>, end: nat, block: Option<Block>)

  /** Bump region `w` by `need` bytes and hand out the block at its old mark. */
  function Bump(rs: seq<Region>, w: nat, need: nat): Outcome
    requires w < |rs|
  {
    Outcome(rs[w := rs[w].(size := rs[w].size + need)], w, Some(Block(w, rs[w].size)))
  }

  /** arena_alloc as a function of the arena before the call. */
  function Allocate(rs: seq<Region>, end: nat, bytes: nat, memoryAvailable: bool): Outcome
    requires ArenaOk(rs, end)
  {
    var need := AlignUp(bytes);
    if rs == [] then
      if memoryAvailable then Bump([NewRegion(NewCapacity(need))], 0, need)
      else Outcome([], 0, None)
    else
      var w := Walk(rs, end, need);
      if Fits(rs[w], need) then Bump(rs, w, need)
      else if memoryAvailable then Bump(rs + [NewRegion(NewCapacity(need))], |rs|, need)
      else Outcome(rs, w, None)
  }

  /** The bytes `[b.offset, b.offset + n)` of block `b`. */
  function Read(rs: seq<Region>, b: Block, n: nat): seq<Byte>
    requires b.region < |rs| && b.offset + n <= |rs[b.region].data|
  {
    rs[b.region].data[b.offset .. b.offset + n]
  }

  /** memcpy(dst, src, n) between two blocks of the arena. */
  function Copy(rs: seq<Region>, src: Block, dst: Block, n: nat): seq<Region>
    requires src.region < |rs| && src.offset + n <= |rs[src.region].data|
    requires dst.region < |rs| && dst.offset + n <= |rs[dst.region].data|
  {
    var d := rs[dst.region].data;
    rs[dst.region := rs[dst.region].(data := d[..dst.offset] + Read(rs, src, n) + d[dst.offset + n..])]
  }

  /** arena_reset: every mark back to 0; capacities and storage are kept. */
  function Cleared(rs: seq<Region>): (r: seq<Region>)
    ensures |r| == |rs|
  {
    seq(|rs|, i requires 0 <= i < |rs| => rs[i].(size := 0))
  }

  // ---------------------------------------------------------------------
  // Properties of the specification functions
  // ---------------------------------------------------------------------

  /** arena_alloc keeps the arena's invariant. */
  lemma AllocateKeepsInvariant(rs: seq<Region>, end: nat, bytes: nat, memoryAvailable: bool)
    requires ArenaOk(rs, end)
    ensures var o := Allocate(rs, end, bytes, memoryAvailable); ArenaOk(o.regions, o.end)
  {
    var need := AlignUp(bytes);
    var o := Allocate(rs, end, bytes, memoryAvailable);
    if rs != [] {
      var w := Walk(rs, end, need);
      if !Fits(rs[w], need) && memoryAvailable {
        assert w == |rs| - 1;
        assert forall i :: 0 <= i < |rs| ==> o.regions[i] == rs[i];
      }
    }
  }

  /**
   * A successful allocation reserves ALIGN_UP(bytes, 16) bytes at the old
   * mark of the region it returns, and that region becomes the new `end`:
   * the block is 16-aligned and lies within the region's capacity. No other
   * region changes, and no region's capacity or storage changes.
   */
  lemma AllocateBumps(rs: seq<Region>, end: nat, bytes: nat, memoryAvailable: bool)
    requires ArenaOk(rs, end)
    ensures var o := Allocate(rs, end, bytes, memoryAvailable);
      o.block.Some? ==>
        var b := o.block.value;
        && |rs| <= |o.regions| <= |rs| + 1
        && b.region == o.end < |o.regions|
        && b.offset % ALIGNMENT == 0
        && (b.region < |rs| ==> b.offset == rs[b.region].size)
        && (b.region == |rs| ==> b.offset == 0)
        && o.regions[b.region].size == b.offset + AlignUp(bytes) <= o.regions[b.region].capacity
        && (b.region < |rs| ==> o.regions[b.region] == rs[b.region].(size := o.regions[b.region].size))
        && (forall i :: 0 <= i < |rs| && i != b.region ==> o.regions[i] == rs[i])
  {
  }

  /**
   * A block handed out earlier and still below its region's mark stays live,
   * keeps its bytes, and lies entirely before a newly allocated block of the
   * same region: the new block overlaps no live block.
   */
  lemma AllocateFresh(rs: seq<Region>, end: nat, bytes: nat, memoryAvailable: bool, x: Block, n: nat)
    requires ArenaOk(rs, end) && Live(rs, x, n)
    ensures var o := Allocate(rs, end, bytes, memoryAvailable);
      o.block.Some? ==>
        && Live(o.regions, x, n)
        && Read(o.regions, x, n) == Read(rs, x, n)
        && (x.region == o.block.value.region ==> x.offset + n <= o.block.value.offset)
  {
    AllocateBumps(rs, end, bytes, memoryAvailable);
    AllocateKeepsInvariant(rs, end, bytes, memoryAvailable);
  }

  /** No region from `end` to the tail can take `need` more bytes. */
  predicate NoneFits(rs: seq<Region>, end: nat, need: nat) {
    forall i :: end <= i < |rs| ==> !Fits(rs[i], need)
  }

  /**
   * Where arena_alloc puts a request. It walks forward from `end` and uses the
   * first region that fits; it appends a region, at the tail, exactly when no
   * region from `end` onward fits and memory is available. That new region has
   * capacity max(REGION_DEFAULT_CAPACITY, aligned size), so an oversized
   * request gets a region of exactly its aligned size, and the block is at its
   * start. The allocation fails (NULL) exactly when a region is needed and
   * memory is not available; the chain is then unchanged, but `end` has already
   * walked to the tail.
   */
  lemma AllocatePlacement(rs: seq<Region>, end: nat, bytes: nat, memoryAvailable: bool)
    requires ArenaOk(rs, end)
    ensures var o := Allocate(rs, end, bytes, memoryAvailable); var need := AlignUp(bytes);
      && (|o.regions| == |rs| + 1 <==> memoryAvailable && NoneFits(rs, end, need))
      && (|o.regions| == |rs| || |o.regions| == |rs| + 1)
      && (o.block.None? <==> !memoryAvailable && NoneFits(rs, end, need))
      && (o.block.None? ==> o.regions == rs && (rs != [] ==> o.end == |rs| - 1))
      && (o.block.Some? && o.end < |rs| ==>
            && end <= o.end
            && Fits(rs[o.end], need)
            && forall i :: end <= i < o.end ==> !Fits(rs[i], need))
      && (|o.regions| == |rs| + 1 ==>
            && o.block == Some(Block(|rs|, 0))
            && o.regions[|rs|].capacity == (if need > REGION_DEFAULT_CAPACITY then need else REGION_DEFAULT_CAPACITY))
  {
    var need := AlignUp(bytes);
    if rs != [] {
      var w := Walk(rs, end, need);
      if !Fits(rs[w], need) {
        assert NoneFits(rs, end, need);
      } else {
        assert !NoneFits(rs, end, need);
      }
    }
  }

  /** arena_reset keeps the invariant, the chain, and every capacity and storage. */
  lemma ClearedKeepsInvariant(rs: seq<Region>, end: nat)
    requires ArenaOk(rs, end)
    ensures ArenaOk(Cleared(rs), 0)
    ensures forall i :: 0 <= i < |rs| ==>
      Cleared(rs)[i].size == 0 && Cleared(rs)[i].capacity == rs[i].capacity && Cleared(rs)[i].data == rs[i].data
  {
  }

  /**
   * Reuse after arena_reset: a request whose aligned size fits the capacity
   * of some region `k` of the chain needs no new region; it lands at offset 0
   * of the first region (from the start) big enough, which is at or before `k`.
   * In particular a request that fits the first region lands there at offset 0.
   */
  lemma ResetReuses(rs: seq<Region>, end: nat, bytes: nat, memoryAvailable: bool, k: nat)
    requires ArenaOk(rs, end)
    requires k < |rs| && AlignUp(bytes) <= rs[k].capacity
    ensures var o := Allocate(Cleared(rs), 0, bytes, memoryAvailable);
      && |o.regions| == |rs|
      && o.block.Some?
      && o.block.value.region <= k
      && o.block.value.offset == 0
      && (AlignUp(bytes) <= rs[0].capacity ==> o.block == Some(Block(0, 0)))
  {
    var cs := Cleared(rs);
    ClearedKeepsInvariant(rs, end);
    AllocatePlacement(cs, 0, bytes, memoryAvailable);
    assert Fits(cs[k], AlignUp(bytes));
  }

  /** A block of `n` bytes below the mark of its region: allocated and not reset since. */
  predicate Live(rs: seq<Region>, b: Block, n: nat) {
    b.region < |rs| && b.offset + n <= rs[b.region].size
  }

  /**
   * arena_realloc as a function of the arena before the call: a request that
   * does not grow returns the old block and leaves the arena alone; otherwise
   * it allocates `newSize` bytes and copies the `oldSize` bytes of the old
   * block into the start of the new one.
   */
  function Reallocate(rs: seq<Region>, end: nat, src: Block, oldSize: nat, newSize: nat, memoryAvailable: bool): Outcome
    requires ArenaOk(rs, end) && Live(rs, src, oldSize)
  {
    if newSize <= oldSize then Outcome(rs, end, Some(src))
    else
      var o := Allocate(rs, end, newSize, memoryAvailable);
      if o.block.None? then o
      else
        AllocateBumps(rs, end, newSize, memoryAvailable);
        Outcome(Copy(o.regions, src, o.block.value, oldSize), o.end, o.block)
  }

  /**
   * What arena_realloc promises: the invariant holds afterwards; a growing
   * request returns a new block whose first `oldSize` bytes equal the old
   * block's bytes, and the old block (now dead space) keeps its bytes; the
   * result is NULL exactly when the allocation failed.
   */
  lemma ReallocateCopies(rs: seq<Region>, end: nat, src: Block, oldSize: nat, newSize: nat, memoryAvailable: bool)
    requires ArenaOk(rs, end) && Live(rs, src, oldSize)
    ensures var o := Reallocate(rs, end, src, oldSize, newSize, memoryAvailable);
      && ArenaOk(o.regions, o.end)
      && (newSize <= oldSize ==> o == Outcome(rs, end, Some(src)))
      && (newSize > oldSize && o.block.Some? ==>
            && Live(o.regions, o.block.value, newSize)
            && Read(o.regions, o.block.value, oldSize) == Read(rs, src, oldSize)
            && Read(o.regions, src, oldSize) == Read(rs, src, oldSize))
      && (newSize > oldSize ==> (o.block.None? <==> Allocate(rs, end, newSize, memoryAvailable).block.None?))
      && (newSize > oldSize ==>
            o.block == Allocate(rs, end, newSize, memoryAvailable).block && o.end == Allocate(rs, end, newSize, memoryAvailable).end)
  {
    if newSize > oldSize {
      var a := Allocate(rs, end, newSize, memoryAvailable);
      AllocateKeepsInvariant(rs, end, newSize, memoryAvailable);
      AllocateBumps(rs, end, newSize, memoryAvailable);
      if a.block.Some? {
        var dst := a.block.value;
        assert a.regions[src.region].data == rs[src.region].data;
        assert src.region == dst.region ==> src.offset + oldSize <= dst.offset;
        CopyMoves(a.regions, src, dst, oldSize);
      }
    }
  }

  /** Every block live before arena_realloc is live afterwards and keeps its bytes. */
  lemma ReallocateKeepsLive(rs: seq<Region>, end: nat, src: Block, oldSize: nat, newSize: nat, memoryAvailable: bool, x: Block, m: nat)
    requires ArenaOk(rs, end) && Live(rs, src, oldSize) && Live(rs, x, m)
    ensures var o := Reallocate(rs, end, src, oldSize, newSize, memoryAvailable);
      Live(o.regions, x, m) && Read(o.regions, x, m) == Read(rs, x, m)
  {
    if newSize > oldSize {
      var a := Allocate(rs, end, newSize, memoryAvailable);
      AllocateFresh(rs, end, newSize, memoryAvailable, x, m);
      AllocateFresh(rs, end, newSize, memoryAvailable, src, oldSize);
      AllocateBumps(rs, end, newSize, memoryAvailable);
      AllocateKeepsInvariant(rs, end, newSize, memoryAvailable);
      if a.block.Some? {
        var dst := a.block.value;
        assert RegionOk(a.regions[dst.region]) && RegionOk(a.regions[x.region]);
        CopyKeepsOther(a.regions, src, dst, oldSize, x, m);
        assert Reallocate(rs, end, src, oldSize, newSize, memoryAvailable) == Outcome(Copy(a.regions, src, dst, oldSize), a.end, a.block);
      }
    }
  }

  /** A live block before the destination of a copy keeps its bytes. */
  lemma CopyKeepsOther(rs: seq<Region>, src: Block, dst: Block, n: nat, x: Block, m: nat)
    requires src.region < |rs| && src.offset + n <= |rs[src.region].data|
    requires dst.region < |rs| && dst.offset + n <= |rs[dst.region].data|
    requires src.region == dst.region ==> src.offset + n <= dst.offset
    requires Live(rs, x, m) && |rs[x.region].data| == rs[x.region].capacity && rs[x.region].size <= rs[x.region].capacity
    requires x.region == dst.region ==> x.offset + m <= dst.offset
    ensures var c := Copy(rs, src, dst, n); Live(c, x, m) && Read(c, x, m) == Read(rs, x, m)
  {
    CopyMoves(rs, src, dst, n);
    var c := Copy(rs, src, dst, n);
    if x.region == dst.region {
      assert forall k :: x.offset <= k < x.offset + m ==> c[x.region].data[k] == rs[x.region].data[k];
      assert Read(c, x, m) == Read(rs, x, m);
    }
  }

  /**
   * memcpy between two blocks that do not overlap: the destination receives
   * the source's bytes, the source keeps them, no byte outside the
   * destination changes, and no mark, capacity or storage size changes.
   */
  lemma CopyMoves(rs: seq<Region>, src: Block, dst: Block, n: nat)
    requires src.region < |rs| && src.offset + n <= |rs[src.region].data|
    requires dst.region < |rs| && dst.offset + n <= |rs[dst.region].data|
    requires src.region == dst.region ==> src.offset + n <= dst.offset
    ensures var c := Copy(rs, src, dst, n);
      && |c| == |rs|
      && Read(c, dst, n) == Read(rs, src, n)
      && Read(c, src, n) == Read(rs, src, n)
      && (forall i :: 0 <= i < |rs| ==>
           c[i].size == rs[i].size && c[i].capacity == rs[i].capacity && |c[i].data| == |rs[i].data|)
      && (forall i :: 0 <= i < |rs| && i != dst.region ==> c[i] == rs[i])
      && (forall k :: 0 <= k < |rs[dst.region].data| && !(dst.offset <= k < dst.offset + n) ==>
           c[dst.region].data[k] == rs[dst.region].data[k])
  {
    var d := rs[dst.region].data;
    var nd := d[..dst.offset] + Read(rs, src, n) + d[dst.offset + n..];
    assert nd[dst.offset .. dst.offset + n] == Read(rs, src, n);
    if src.region == dst.region {
      assert nd[..dst.offset] == d[..dst.offset];
      assert forall k :: src.offset <= k < src.offset + n ==> nd[k] == d[k];
      assert nd[src.offset .. src.offset + n] == d[src.offset .. src.offset + n];
    }
  }

  // ---------------------------------------------------------------------
  // The arena object
  // ---------------------------------------------------------------------

  class Arena {
    var regions: seq<Region>
    var end: nat

    ghost predicate Valid()
      reads this
    {
      ArenaOk(regions, end)
    }

    /** `Arena a = {0}`: no regions, `begin = end = NULL`. */
    constructor ()
      ensures Valid() && regions == [] && end == 0
    {
      regions := [];
      end := 0;
    }

    /** arena_alloc */
    method Alloc(bytes: nat, memoryAvailable: bool) returns (b: Option<Block>)
      requires Valid()
      modifies this
      ensures Valid()
      ensures Outcome(regions, end, b) == Allocate(old(regions), old(end), bytes, memoryAvailable)
    {
      AllocateKeepsInvariant(regions, end, bytes, memoryAvailable);
      var need := AlignUp(bytes);
      if regions == [] {
        if !memoryAvailable {
          return None;
        }
        regions := [NewRegion(NewCapacity(need))];
        end := 0;
      }
      end := FindRegion(need);
      if regions[end].size + need > regions[end].capacity {
        if !memoryAvailable {
          return None;
        }
        regions := regions + [NewRegion(NewCapacity(need))];
        end := end + 1;
      }
      b := Some(Block(end, regions[end].size));
      regions := regions[end := regions[end].(size := regions[end].size + need)];
    }

    /** The walk of arena_alloc over the chain, from `end`. */
    method FindRegion(need: nat) returns (e: nat)
      requires Valid() && regions != []
      ensures e == Walk(regions, end, need)
    {
      e := end;
      while regions[e].size + need > regions[e].capacity && e + 1 < |regions|
        invariant end <= e < |regions|
        invariant Walk(regions, end, need) == Walk(regions, e, need)
        decreases |regions| - e
      {
        e := e + 1;
      }
    }

    /** arena_realloc of the `oldSize`-byte block `src` to `newSize` bytes */
    method Realloc(src: Block, oldSize: nat, newSize: nat, memoryAvailable: bool) returns (b: Option<Block>)
      requires Valid() && Live(regions, src, oldSize)
      modifies this
      ensures Valid()
      ensures Outcome(regions, end, b) == Reallocate(old(regions), old(end), src, oldSize, newSize, memoryAvailable)
    {
      ReallocateCopies(regions, end, src, oldSize, newSize, memoryAvailable);
      if newSize <= oldSize {
        return Some(src);
      }
      b := Alloc(newSize, memoryAvailable);
      if b.None? {
        return None;
      }
      AllocateBumps(old(regions), old(end), newSize, memoryAvailable);
      regions := Copy(regions, src, b.value, oldSize);
    }

    /** arena_reset */
    method Reset()
      requires Valid()
      modifies this
      ensures Valid()
      ensures regions == Cleared(old(regions)) && end == 0
    {
      ClearedKeepsInvariant(regions, end);
      var i := 0;
      while i < |regions|
        invariant 0 <= i <= |regions| == |old(regions)|
        invariant forall j :: 0 <= j < i ==> regions[j] == old(regions)[j].(size := 0)
        invariant forall j :: i <= j < |regions| ==> regions[j] == old(regions)[j]
      {
        regions := regions[i := regions[i].(size := 0)];
        i := i + 1;
      }
      end := 0;
    }

    /** arena_free: every region released, `begin = end = NULL`. */
    method Free()
      modifies this
      ensures Valid() && regions == [] && end == 0
    {
      while regions != []
        decreases |regions|
      {
        regions := regions[1..];
      }
      end := 0;
    }
  }
}
