/** `SlabAlloc`: working memory for write transactions, placed in ref space after the file. */
module SlabAllocs {
  import opened Sections
  import opened SlabModel
  import opened FreeLists
  import opened SlabSteps
  import opened Translation
  import opened ReadOnlySpace

  const MAX_REF: nat := 0xffff_ffff_ffff_ffff

  datatype FreeSpaceState = Clean | Dirty

  /** `SizeCheckFailed` is the assertion of `allocate_block` that the block holds the request, and
      `RefCheckFailed` that of `do_alloc` that the ref translates to the block. */
  datatype AllocResult = Allocated(ref: nat, addr: Addr) | MaximumFileSizeExceeded | SizeCheckFailed | RefCheckFailed

  /** What becomes of a new slab: `AtZero` is one whose start, at 2^64, wraps to the ref 0. */
  datatype Growth = Behind | Overflow | AtZero

  ghost function AllocatedSize(slabs: seq<Slab>): nat {
    if slabs == [] then 0 else AllocatedSize(slabs[..|slabs| - 1]) + slabs[|slabs| - 1].size
  }

  /** The least multiple of the minimal allocation that holds `size` bytes, and at least one. */
  ghost function Rounded(size: nat): nat {
    if size <= MINIMAL_ALLOC then MINIMAL_ALLOC else (size + MINIMAL_ALLOC - 1) / MINIMAL_ALLOC * MINIMAL_ALLOC
  }

  ghost function SlabSize(size: nat, already: nat): nat {
    var least := if Rounded(size + 16) < already then already else Rounded(size + 16);
    if least > SECTION then SECTION else least
  }

  lemma LeastMultiple(size: nat, n: nat)
    requires n >= 1 && n * MINIMAL_ALLOC >= size && (n == 1 || n * MINIMAL_ALLOC < size + MINIMAL_ALLOC)
    ensures Rounded(size) == n * MINIMAL_ALLOC
  {
    if size > MINIMAL_ALLOC {
      assert (size + MINIMAL_ALLOC - 1) / MINIMAL_ALLOC == n;
    }
  }

  /** A new slab holds the request exactly when the request is at most 2^26 - 16 bytes: of the
      sizes that `do_alloc` admits, only 2^26 - 8 does not fit. */
  lemma SlabHolds(size: nat, already: nat)
    requires size % 8 == 0 && size < SECTION
    ensures MINIMAL_ALLOC <= SlabSize(size, already) <= SECTION
    ensures SlabSize(size, already) - 16 >= size <==> size <= MAX_REQUEST
    ensures size > MAX_REQUEST <==> size == SECTION - 8
  {
    var n := (size + 16 + MINIMAL_ALLOC - 1) / MINIMAL_ALLOC;
    assert n * MINIMAL_ALLOC >= size + 16;
  }

  /** Nor does any block of any slab that is there hold more. */
  lemma BlockHolds(tags: Tags, blocks: Blocks, slabs: seq<Slab>, a: Addr)
    requires Tiled(tags, blocks, slabs) && a in blocks
    ensures blocks[a].size <= MAX_REQUEST
  {
    assert BlockOK(tags, blocks, slabs, a);
    assert SlabOK(blocks, slabs, blocks[a].slab);
  }

  /** Which result a request has, when a free block is suitable and what would become of a new slab. */
  predicate ResultFor(r: AllocResult, size: nat, suitable: bool, g: Growth) {
    && (r.Allocated? <==> size <= MAX_REQUEST && (suitable || g == Behind))
    && (r.MaximumFileSizeExceeded? <==> !suitable && g == Overflow)
    && (r.SizeCheckFailed? <==> size > MAX_REQUEST && g != Overflow)
    && (r.RefCheckFailed? <==> size <= MAX_REQUEST && !suitable && g == AtZero)
  }

  /** The alignment of the start is not checked for overflow, the addition of the size is. */
  ghost function GrowthFor(slabs: seq<Slab>, baseline: nat, size: nat): Growth {
    var start := SectionBase(FileSections(baseline) + |slabs|);
    if start > MAX_REF then AtZero
    else if start + SlabSize(size, AllocatedSize(slabs)) > MAX_REF then Overflow
    else Behind
  }

  /** A block of a slab at the ref 0 has a ref that leads elsewhere. */
  lemma ZeroFails(table: seq<Addr>, addr: Addr)
    requires table != [] && addr !in table
    ensures SectionIndex(8) < |table + [addr]| && Translate(table + [addr], 8) != addr + 8
  {
  }

  /** The slabs, the table and the old tables stay, or one slab and its entry are added and the table
      that was replaced is retained. */
  ghost predicate Extends(slabs: seq<Slab>, table: seq<Addr>, olds: seq<OldTable>, slabs': seq<Slab>, table': seq<Addr>,
                          olds': seq<OldTable>, replaced: OldTable) {
    || (slabs' == slabs && table' == table && olds' == olds)
    || (|slabs'| == |slabs| + 1 && slabs <= slabs' && table' == table + [slabs'[|slabs|].addr]
        && replaced.entries == table && olds' == olds + [replaced])
  }

  /** What a request depends on and changes. */
  datatype Area = Area(blocks: Blocks, slabs: seq<Slab>, table: seq<Addr>, olds: seq<OldTable>)

  /** The result is the right one, and what was there stays. */
  ghost predicate Answers(r: AllocResult, size: nat, before: Area, after: Area, baseline: nat, replaced: OldTable) {
    && ResultFor(r, size, Suitable(before.blocks, Effective(size)),
                 GrowthFor(before.slabs, baseline, Effective(size)))
    && Extends(before.slabs, before.table, before.olds, after.slabs, after.table, after.olds, replaced)
    && (!r.Allocated? ==> Live(after.blocks) == Live(before.blocks))
  }

  /** How the result follows from the growth and the size check. */
  predicate ResultOf(r: AllocResult, g: Growth, checked: bool, size: nat) {
    && (r.Allocated? <==> g == Behind && checked) && (r.MaximumFileSizeExceeded? <==> g == Overflow)
    && (r.SizeCheckFailed? <==> (g == Behind && !checked) || (g == AtZero && Effective(size) > MAX_REQUEST))
    && (r.RefCheckFailed? <==> g == AtZero && Effective(size) <= MAX_REQUEST)
  }

  lemma Answering(r: AllocResult, size: nat, g: Growth, checked: bool, before: Area, after: Area, baseline: nat,
                  replaced: OldTable)
    requires ResultOf(r, g, checked, size) && (!r.Allocated? ==> Live(after.blocks) == Live(before.blocks))
    requires g == if Suitable(before.blocks, Effective(size)) then Behind
                  else GrowthFor(before.slabs, baseline, Effective(size))
    requires g == Behind ==> (checked <==> Effective(size) <= MAX_REQUEST)
    requires Effective(size) > MAX_REQUEST ==> !Suitable(before.blocks, Effective(size))
    requires Extends(before.slabs, before.table, before.olds, after.slabs, after.table, after.olds, replaced)
    ensures Answers(r, size, before, after, baseline, replaced)
  {
  }

  /** A free block has exactly the size, or leaves room for another block. */
  ghost predicate Suitable(blocks: Blocks, size: nat) {
    exists a :: FreeAt(blocks, a) && Enough(blocks[a].size, size)
  }

  predicate Enough(have: nat, size: nat) {
    have == size || have >= size + 8 + 24
  }

  /** With all free blocks in the lists, they tell. */
  lemma SuitableListed(blocks: Blocks, links: Links, blockMap: map<nat, Addr>, rings: Rings, size: nat)
    requires Lists(blocks, links, blockMap, rings, {})
    ensures Suitable(blocks, size) <==> exists q :: q in blockMap && Enough(q, size)
  {
    if a :| FreeAt(blocks, a) && Enough(blocks[a].size, size) {
      assert Listed(blocks, {}, a);
      assert blocks[a].size in blockMap;
    }
    if q :| q in blockMap && Enough(q, size) {
      HeadListed(blocks, links, blockMap, rings, {}, q);
      assert FreeAt(blocks, blockMap[q]);
    }
  }

  lemma NoneTooLarge(tags: Tags, blocks: Blocks, slabs: seq<Slab>, size: nat)
    requires Tiled(tags, blocks, slabs) && size > MAX_REQUEST
    ensures !Suitable(blocks, size)
  {
    forall a | FreeAt(blocks, a) ensures !Enough(blocks[a].size, size) {
      BlockHolds(tags, blocks, slabs, a);
    }
  }

  /** The slabs that stay between transactions: the first, if it is minimal. */
  ghost function MinimalSlabs(slabs: seq<Slab>): seq<Slab> {
    if slabs != [] && slabs[0].size <= MINIMAL_ALLOC then slabs[..1] else []
  }

  lemma {:induction false} SlabSizeAligned(blocks: Blocks, slabs: seq<Slab>, n: nat)
    requires SlabsOK(blocks, slabs) && n <= |slabs|
    ensures AllocatedSize(slabs[..n]) % 8 == 0
  {
    if n > 0 {
      SlabSizeAligned(blocks, slabs, n - 1);
      assert SlabOK(blocks, slabs, n - 1);
      assert slabs[..n][..n - 1] == slabs[..n - 1];
    }
  }

  lemma NewSlabFits(blocks: Blocks, slabs: seq<Slab>, size: nat)
    requires SlabsOK(blocks, slabs) && size % 8 == 0 && size < SECTION
    ensures var n := SlabSize(size, AllocatedSize(slabs));
            40 <= n <= SECTION && n % 8 == 0 && (size <= n - 16 <==> size <= MAX_REQUEST)
  {
    SlabHolds(size, AllocatedSize(slabs));
    SlabSizeAligned(blocks, slabs, |slabs|);
    RoundedAligned(size + 16);
    assert slabs[..|slabs|] == slabs;
  }

  lemma RoundedAligned(size: nat)
    ensures Rounded(size) % 8 == 0
  {
    var n := (size + MINIMAL_ALLOC - 1) / MINIMAL_ALLOC;
    assert n * MINIMAL_ALLOC == 8 * (n * 0x4000);
  }

  lemma FreshSlab(slabs: seq<Slab>, slab: Slab)
    requires forall k :: 0 <= k < |slabs| ==> DisjointSlabs(slabs[k], Slab(0, slab.addr, SECTION))
    requires slab.size <= SECTION
    ensures forall k :: 0 <= k < |slabs| ==> DisjointSlabs(slabs[k], slab)
  {
    forall k | 0 <= k < |slabs| ensures DisjointSlabs(slabs[k], slab) {
      assert DisjointSlabs(slabs[k], Slab(0, slab.addr, SECTION));
    }
  }

  class SlabAlloc {
    /** `BetweenBlocks` and `FreeBlock` records in slab memory. */
    var tags: Tags
    var links: Links
    var blockMap: map<nat, Addr>
    var slabs: seq<Slab>
    var baseline: nat
    /** Addresses of the file mappings, and the translation table. */
    var mappings: seq<Addr>
    var table: seq<Addr>
    var oldMappings: seq<OldMapping>
    var oldTables: seq<OldTable>
    var youngest: nat
    var freeReadOnly: Chunks
    var state: FreeSpaceState
    var commitSize: int
    ghost var blocks: Blocks
    ghost var rings: Rings
    /** Bytes counted in `commitSize` by requests that failed. */
    ghost var lost: nat

    ghost predicate Inv(out: set<Addr>)
      reads this`tags, this`links, this`blockMap, this`blocks, this`rings, this`slabs, this`baseline
    {
      Space(tags, links, blockMap, blocks, rings, slabs, FileSections(baseline), out)
    }

    /** The part of the invariant that is about the file and about ref translation. */
    ghost predicate Mapped()
      reads this`table, this`mappings, this`slabs, this`baseline, this`oldTables, this`oldMappings, this`youngest
    {
      && Layout(table, mappings, slabs, FileSections(baseline))
      && Reclaimable(oldTables, oldMappings, mappings, youngest)
    }

    /** The slab memory is sound: tiled, listed, coalesced and translated. */
    ghost predicate Sound()
      reads this`tags, this`links, this`blockMap, this`blocks, this`rings, this`slabs, this`baseline
      reads this`table, this`mappings, this`oldTables, this`oldMappings, this`youngest
    {
      Inv({}) && Mapped() && Coalesced(blocks, {}) && WasteOK(blocks)
    }

    /** What every operation keeps. */
    ghost predicate Valid()
      reads this
    {
      && Sound() && Canonical(freeReadOnly)
      && commitSize == Wanted(blocks) + lost
      && (state.Clean? ==> Live(blocks) == map[] && commitSize == 0)
    }

    /** `addr` can become the base of a new slab: a section of memory not used by any slab. */
    predicate FreshRegion(addr: Addr)
      reads this`slabs
    {
      forall k :: 0 <= k < |slabs| ==> DisjointSlabs(slabs[k], Slab(0, addr, SECTION))
    }

    // -------------------------------------------------------------- free lists

    /** `remove_freelist_entry`; with the head of a list also `pop_freelist_entry`. */
    method RemoveFreelistEntry(e: Addr, ghost out: set<Addr>)
      requires Inv(out) && Listed(blocks, out, e)
      modifies this`links, this`blockMap, this`rings
      ensures Inv(out + {e})
    {
      RightNeighbour(tags, blocks, slabs, e);
      var size := tags[e - 8].after;
      ghost var rings' := StepRemove(tags, links, blockMap, blocks, rings, slabs, FileSections(baseline), out, e);
      blockMap := UnmapHead(blockMap, size, e, links[e].next);
      links := Unlink(links, e);
      rings := rings';
    }

    /** `push_freelist_entry`, when the slabs of `area` are set up. */
    method PushFreelistEntry(e: Addr, ghost area: seq<Slab>, ghost out: set<Addr>)
      requires Space(tags, links, blockMap, blocks, rings, area, FileSections(baseline), out) && FreeAt(blocks, e) &&
               e in out
      modifies this`links, this`blockMap, this`rings
      ensures Space(tags, links, blockMap, blocks, rings, area, FileSections(baseline), out - {e})
    {
      RightNeighbour(tags, blocks, area, e);
      var size := tags[e - 8].after;
      ghost var rings' := StepPush(tags, links, blockMap, blocks, rings, area, FileSections(baseline), out, e);
      if size in blockMap {
        links := LinkBefore(links, e, blockMap[size]);
      } else {
        links := links[e := links[e].(next := e, prev := e)];
      }
      blockMap := blockMap[size := e];
      rings := rings';
    }

    /** `find` and `find_larger`: the list of blocks of exactly `size`, or else of the least size
        that leaves room for another block, or 0. */
    method FindList(size: nat) returns (key: nat)
      requires size > 0
      ensures key != 0 ==> key in blockMap && (key == size || key >= size + 8 + 24)
      ensures key != size ==> size !in blockMap
      ensures key != size ==> forall q :: q in blockMap && q >= size + 8 + 24 ==> key != 0 && key <= q
    {
      var found, k := LowerBound(blockMap.Keys, size);
      if found && k == size {
        return k;
      }
      while found && k < size + 8 + 24
        invariant found ==> k in blockMap && k > size
        invariant forall q :: q in blockMap && q >= size && (found ==> q < k) ==> q < size + 32
        decreases if found then size + 32 - k else -1
      {
        found, k := LowerBound(blockMap.Keys, k + 1);
      }
      key := if found then k else 0;
    }

    // -------------------------------------------------------------- splitting, merging, marking

    /** Splits a free block in two when the rest can be a block of its own. */
    method BreakBlock(a: Addr, newSize: nat, ghost out: set<Addr>) returns (broken: bool, rest: Addr)
      requires Inv(out) && FreeAt(blocks, a) && a in out
      requires newSize >= 24 && newSize % 8 == 0 && newSize <= blocks[a].size
      modifies this`tags, this`links, this`blocks
      ensures broken <==> old(blocks[a].size) >= newSize + 32
      ensures broken ==>
                rest == a + newSize + 8 && rest !in old(blocks) &&
                blocks == BreakBlocks(old(blocks), a, newSize) && Inv(out + {rest})
      ensures !broken ==> blocks == old(blocks) && Inv(out)
    {
      RightNeighbour(tags, blocks, slabs, a);
      var size := tags[a - 8].after;
      var remaining := size - (newSize + 8);
      broken, rest := remaining >= 24, a + newSize + 8;
      if broken {
        StepBreak(tags, links, blockMap, blocks, rings, slabs, FileSections(baseline), out, a, newSize);
        tags := BreakTags(tags, a, size, newSize);
        links := links[rest := FreeBlock(links[a].ref + newSize + 8, 0, 0)][a := FreeBlock(links[a].ref, 0, 0)];
        blocks := BreakBlocks(blocks, a, newSize);
      }
    }

    /** `merge_blocks`. */
    method MergeWith(f: Addr, l: Addr, ghost out: set<Addr>)
      requires Inv(out) && FreeAt(blocks, f) && FreeAt(blocks, l) && f in out && l in out
      requires l == f + blocks[f].size + 8 && blocks[f].slab == blocks[l].slab
      modifies this`tags, this`blocks
      ensures blocks == MergeBlocks(old(blocks), f, l) && Inv(out - {l})
    {
      RightNeighbour(tags, blocks, slabs, f);
      RightNeighbour(tags, blocks, slabs, l);
      StepMerge(tags, links, blockMap, blocks, rings, slabs, FileSections(baseline), out, f, l);
      var sizeFirst, sizeLast := tags[f - 8].after, tags[l - 8].after;
      tags := MergeTags(tags, f, l, sizeLast, sizeFirst + sizeLast + 8);
      blocks := MergeBlocks(blocks, f, l);
    }

    method MarkAllocated(a: Addr, ghost wanted: nat, ghost out: set<Addr>)
      requires Inv(out) && FreeAt(blocks, a) && a in out
      modifies this`tags, this`blocks
      ensures blocks == old(blocks)[a := old(blocks)[a].(free := false, wanted := wanted)] && Inv(out - {a})
    {
      RightNeighbour(tags, blocks, slabs, a);
      var size := tags[a - 8].after;
      ghost var b := blocks[a].(free := false, wanted := wanted);
      assert BlockOK(tags, blocks, slabs, a);
      StepMark(tags, links, blockMap, blocks, rings, slabs, FileSections(baseline), out, a, b);
      var bb, bb2 := tags[a - 8], tags[a + size];
      tags := tags[a - 8 := Tag(bb.before, 0 - bb.after)][a + size := Tag(0 - bb2.before, bb2.after)];
      blocks := blocks[a := b];
    }

    /** `mark_freed`, whose size checks cannot fail, followed by storing the ref in the block. */
    method MarkFreed(a: Addr, size: nat, ref: nat, ghost out: set<Addr>)
      requires Inv(out) && WasteOK(blocks) && a in blocks && !blocks[a].free && size == Effective(blocks[a].wanted)
      requires blocks[a].slab < |slabs| && ref == RefOf(FileSections(baseline), slabs, blocks[a].slab, a)
      modifies this`tags, this`links, this`blocks
      ensures blocks == old(blocks)[a := old(blocks)[a].(free := true, wanted := 0)] && Inv(out + {a})
    {
      assert BlockOK(tags, blocks, slabs, a);
      var bb := tags[a - 8];
      assert bb.after < 0;
      var allocSize := -bb.after;
      assert size <= allocSize <= size + 24 + 8;
      ghost var b := blocks[a].(free := true, wanted := 0);
      var f := FreeBlock(ref, 0, 0);
      StepFreed(tags, links, blockMap, blocks, rings, slabs, FileSections(baseline), out, a, b, f);
      var bb2 := tags[a + allocSize];
      assert bb2.before < 0 && -bb2.before == allocSize;
      tags := tags[a - 8 := Tag(bb.before, allocSize)][a + allocSize := Tag(allocSize, bb2.after)];
      links := links[a := f];
      blocks := blocks[a := b];
    }

    // -------------------------------------------------------------- slabs

    /** `slab_to_entry` for the slab that follows `before`. */
    method SlabToEntry(ghost before: seq<Slab>, slab: Slab, refStart: nat, ghost out: set<Addr>) returns (e: Addr)
      requires Space(tags, links, blockMap, blocks, rings, before, FileSections(baseline), out)
      requires 40 <= slab.size <= SECTION && slab.size % 8 == 0
      requires forall k :: 0 <= k < |before| ==> DisjointSlabs(before[k], slab)
      requires refStart == (FileSections(baseline) + |before|) * SECTION && slab.refEnd == refStart + slab.size
      modifies this`tags, this`links, this`blocks
      ensures e == slab.addr + 8 && e !in old(blocks) && blocks == old(blocks)[e := WholeSlab(|before|, slab)]
      ensures Space(tags, links, blockMap, blocks, rings, before + [slab], FileSections(baseline), out + {e})
    {
      StepSlab(tags, links, blockMap, blocks, rings, before, FileSections(baseline), out, slab);
      e := slab.addr + 8;
      var blockSize := slab.refEnd - refStart - 2 * 8;
      tags := tags[slab.addr := Tag(0, blockSize)][e + blockSize := Tag(blockSize, 0)];
      links := links[e := FreeBlock(refStart + 8, 0, 0)];
      blocks := blocks[e := WholeSlab(|before|, slab)];
    }

    method GetAllocatedSize() returns (sz: nat)
      ensures sz == AllocatedSize(slabs)
    {
      sz := 0;
      for k := 0 to |slabs|
        invariant sz == AllocatedSize(slabs[..k])
      {
        assert slabs[..k + 1][..k] == slabs[..k];
        sz := sz + slabs[k].size;
      }
      assert slabs[..|slabs|] == slabs;
    }

    /** As much as is allocated already, but at least a multiple of 128 KB that holds the request
        and its tags, and at most one section. */
    method NewSlabSize(size: nat) returns (newSize: nat)
      ensures newSize == SlabSize(size, AllocatedSize(slabs))
    {
      newSize := MINIMAL_ALLOC;
      var n := 1;
      while newSize < size + 2 * 8
        invariant newSize == n * MINIMAL_ALLOC && newSize < size + 16 + MINIMAL_ALLOC +
                  MINIMAL_ALLOC * (if n == 1 then 1 else 0)
      {
        newSize, n := newSize + MINIMAL_ALLOC, n + 1;
      }
      LeastMultiple(size + 16, n);
      var already := GetAllocatedSize();
      if newSize < already {
        newSize := already;
      }
      if newSize > SECTION {
        newSize := SECTION;
      }
    }

    /** `extend_fast_mapping_with_slab`; the new slab is already in `slabs`. */
    method ExtendTable(addr: Addr)
      requires slabs != [] && addr == slabs[|slabs| - 1].addr
      requires Layout(table, mappings, slabs[..|slabs| - 1], FileSections(baseline))
      requires slabs[|slabs| - 1].refEnd == (FileSections(baseline) + |slabs| - 1) * SECTION + slabs[|slabs| - 1].size
      requires Reclaimable(oldTables, oldMappings, mappings, youngest)
      modifies this`table, this`oldTables
      ensures Mapped() && table == old(table) + [addr]
      ensures oldTables == old(oldTables) + [OldTable(youngest, |mappings|, old(table))]
    {
      var old_ := OldTable(youngest, |table| + 1 - |slabs|, table);
      RetireTable(oldTables, oldMappings, mappings, youngest, old_);
      oldTables := oldTables + [old_];
      table := table + [addr];
      assert Bases(slabs) == Bases(slabs[..|slabs| - 1]) + [addr];
    }

    /** Adds a slab and makes one block of it, unless refs would overflow. */
    method GrowSlab(size: nat, addr: Addr) returns (g: Growth, e: Addr)
      requires Inv({}) && Mapped() && Coalesced(blocks, {}) && FreshRegion(addr) && size % 8 == 0 && size < SECTION
      modifies this`tags, this`links, this`blocks, this`slabs, this`table, this`oldTables
      ensures g == GrowthFor(old(slabs), old(baseline), size)
      ensures Extends(old(slabs), old(table), old(oldTables), slabs, table, oldTables,
                      OldTable(youngest, |mappings|, old(table)))
      ensures g != Behind ==> Inv({}) && Mapped() && Coalesced(blocks, {}) && blocks == old(blocks)
      ensures g == Behind ==> Inv({e}) && Mapped() && Coalesced(blocks, {}) && SameLive(old(blocks), blocks)
      ensures g == Behind ==> FreeAt(blocks, e) && (size <= blocks[e].size <==> size <= MAX_REQUEST)
    {
      var ref, newSize;
      g, ref, newSize := PlaceSlab(size);
      e := 0;
      if g == Behind {
        e := AddSlab(Slab(ref + newSize, addr, newSize), ref);
      }
    }

    /** The start and the size of the next slab. */
    method PlaceSlab(size: nat) returns (g: Growth, ref: nat, newSize: nat)
      requires SlabsOK(blocks, slabs) && Layout(table, mappings, slabs, FileSections(baseline))
      requires size % 8 == 0 && size < SECTION
      ensures g == GrowthFor(slabs, baseline, size) && ref == SectionBase(FileSections(baseline) + |slabs|)
      ensures 40 <= newSize <= SECTION && newSize % 8 == 0 && (size <= newSize - 16 <==> size <= MAX_REQUEST)
    {
      newSize := NewSlabSize(size);
      ref := if slabs == [] then baseline else slabs[|slabs| - 1].refEnd;
      ref := AlignToSection(ref);
      NextSlabRef(table, mappings, blocks, slabs, baseline);
      NewSlabFits(blocks, slabs, size);
      g := if ref > MAX_REF then AtZero else if ref + newSize > MAX_REF then Overflow else Behind;
    }

    /** The new slab enters the list of slabs, the translation table and the block structure. */
    method AddSlab(slab: Slab, ref: nat) returns (e: Addr)
      requires Inv({}) && Mapped() && Coalesced(blocks, {}) && FreshRegion(slab.addr)
      requires 40 <= slab.size <= SECTION && slab.size % 8 == 0
      requires ref == SectionBase(FileSections(baseline) + |slabs|) && slab.refEnd == ref + slab.size
      modifies this`tags, this`links, this`blocks, this`slabs, this`table, this`oldTables
      ensures slabs == old(slabs) + [slab] && table == old(table) + [slab.addr]
      ensures oldTables == old(oldTables) + [OldTable(youngest, |mappings|, old(table))]
      ensures Inv({e}) && Mapped() && Coalesced(blocks, {}) && SameLive(old(blocks), blocks)
      ensures FreeAt(blocks, e) && blocks[e].size == slab.size - 16
    {
      ghost var before, b0 := slabs, blocks;
      FreshSlab(slabs, slab);
      CoalescedSlab(tags, blocks, slabs, slab);
      slabs := slabs + [slab];
      assert slabs[..|slabs| - 1] == before;
      ExtendTable(slab.addr);
      e := SlabToEntry(before, slab, ref, {});
      assert {} + {e} == {e};
      LiveAdd(b0, e, WholeSlab(|before|, slab));
    }

    // -------------------------------------------------------------- allocation

    /** A free block of at least `size` bytes, taken out of the lists. There is none exactly when no free
        block is suitable and there is no room for a new slab, and the size check fails exactly for a
        request that no slab can hold. */
    method AllocateBlock(size: nat, addr: Addr) returns (g: Growth, checked: bool, a: Addr)
      requires Inv({}) && Mapped() && Coalesced(blocks, {}) && FreshRegion(addr)
      requires 24 <= size < SECTION && size % 8 == 0
      modifies this`tags, this`links, this`blockMap, this`blocks, this`rings, this`slabs, this`table, this`oldTables
      ensures g == if Suitable(old(blocks), size) then Behind else GrowthFor(old(slabs), old(baseline), size)
      ensures size > MAX_REQUEST ==> !Suitable(old(blocks), size)
      ensures Extends(old(slabs), old(table), old(oldTables), slabs, table, oldTables,
                      OldTable(youngest, |mappings|, old(table)))
      ensures Found(g, checked, a, size, old(blocks)) && (g == Behind ==> (checked <==> size <= MAX_REQUEST))
    {
      var key := FindList(size);
      SuitableListed(blocks, links, blockMap, rings, size);
      if size > MAX_REQUEST {
        NoneTooLarge(tags, blocks, slabs, size);
      }
      if key != 0 {
        a, g, checked := blockMap[key], Behind, true;
        TakeListed(key, a);
        if key == size {
          return;
        }
      } else {
        g, checked, a := GrowChecked(size, addr);
        if g != Behind || !checked {
          return;
        }
      }
      SplitOff(a, size);
    }

    /** Nothing in use changed; if there is a block, it is free, outside the lists and of suitable size. */
    ghost predicate Found(g: Growth, checked: bool, a: Addr, size: nat, b0: Blocks)
      reads this`tags, this`links, this`blockMap, this`blocks, this`rings, this`slabs, this`baseline
      reads this`table, this`mappings, this`oldTables, this`oldMappings, this`youngest
    {
      if g != Behind then Inv({}) && Mapped() && Coalesced(blocks, {}) && blocks == b0
      else SameLive(b0, blocks) && (checked ==> Taken(a, size))
    }

    ghost predicate Taken(a: Addr, size: nat)
      reads this`tags, this`links, this`blockMap, this`blocks, this`rings, this`slabs, this`baseline
      reads this`table, this`mappings, this`oldTables, this`oldMappings, this`youngest
    {
      && Inv({a}) && Mapped() && Coalesced(blocks, {a}) && FreeAt(blocks, a)
      && size <= blocks[a].size < size + 32
    }

    method GrowChecked(size: nat, addr: Addr) returns (g: Growth, checked: bool, a: Addr)
      requires Inv({}) && Mapped() && Coalesced(blocks, {}) && FreshRegion(addr) && size % 8 == 0 && size < SECTION
      modifies this`tags, this`links, this`blocks, this`slabs, this`table, this`oldTables
      ensures g == GrowthFor(old(slabs), old(baseline), size)
      ensures Extends(old(slabs), old(table), old(oldTables), slabs, table, oldTables,
                      OldTable(youngest, |mappings|, old(table)))
      ensures g != Behind ==> Inv({}) && Mapped() && Coalesced(blocks, {}) && blocks == old(blocks)
      ensures g == Behind ==> SameLive(old(blocks), blocks) && (checked <==> size <= MAX_REQUEST)
      ensures g == Behind && checked ==>
                Inv({a}) && Mapped() && Coalesced(blocks, {}) && FreeAt(blocks, a) && size <= blocks[a].size
    {
      g, a := GrowSlab(size, addr);
      checked := false;
      if g == Behind {
        RightNeighbour(tags, blocks, slabs, a);
        checked := tags[a - 8].after >= size;
      }
    }

    method TakeListed(key: nat, a: Addr)
      requires Inv({}) && key in blockMap && a == blockMap[key]
      modifies this`links, this`blockMap, this`rings
      ensures Inv({a}) && FreeAt(blocks, a) && blocks[a].size == key <= MAX_REQUEST
    {
      HeadListed(blocks, links, blockMap, rings, {}, key);
      BlockHolds(tags, blocks, slabs, a);
      RemoveFreelistEntry(a, {});
      assert {} + {a} == {a};
    }

    /** Breaks the block taken and puts the rest back. */
    method SplitOff(a: Addr, size: nat)
      requires Inv({a}) && Coalesced(blocks, {}) && FreeAt(blocks, a) && 24 <= size <= blocks[a].size && size % 8 == 0
      modifies this`tags, this`links, this`blockMap, this`blocks, this`rings
      ensures Inv({a}) && Coalesced(blocks, {a}) && SameLive(old(blocks), blocks)
      ensures FreeAt(blocks, a) && size <= blocks[a].size < size + 32
    {
      ghost var b0 := blocks;
      var broken, rest := BreakBlock(a, size, {a});
      if broken {
        CoalescedBreak(b0, a, size);
        LiveBreak(b0, a, size);
        PushFreelistEntry(rest, slabs, {a} + {rest});
        assert {a} + {rest} - {rest} == {a};
      }
    }

    /** `do_alloc`; `addr` is the memory the system would provide for a new slab. Which of the four
        results there is depends on the size, the free blocks and the room for refs. */
    method Alloc(size: nat, addr: Addr) returns (r: AllocResult)
      requires Valid() && FreshRegion(addr) && 0 < size < SECTION && size % 8 == 0
      modifies this`tags, this`links, this`blockMap, this`blocks, this`rings, this`slabs, this`table, this`oldTables
      modifies this`state, this`commitSize, this`lost
      ensures Answers(r, size, Area(old(blocks), old(slabs), old(table), old(oldTables)),
                      Area(blocks, slabs, table, oldTables), baseline, OldTable(youngest, |mappings|, old(table)))
      ensures !r.SizeCheckFailed? && !r.RefCheckFailed? ==> Valid()
      ensures r.Allocated? ==> lost == old(lost) && Placed(old(blocks), size, r.ref, r.addr)
      ensures r.MaximumFileSizeExceeded? ==> lost == old(lost) + size
    {
      state := Dirty;
      commitSize := commitSize + size;
      r := AllocateAndMark(size, addr);
    }

    lemma DirtyValid()
      requires Sound() && Canonical(freeReadOnly) && commitSize == Wanted(blocks) + lost && state == Dirty
      ensures Valid()
    {
    }

    /** The bytes of the request are counted, but not in use yet. */
    ghost predicate Counted(size: nat)
      reads this`blocks, this`lost, this`freeReadOnly, this`state, this`commitSize
    {
      Canonical(freeReadOnly) && commitSize == Wanted(blocks) + lost + size && state == Dirty
    }

    method AllocateAndMark(size: nat, addr: Addr) returns (r: AllocResult)
      requires Sound() && Counted(size) && FreshRegion(addr) && 0 < size < SECTION && size % 8 == 0
      modifies this`tags, this`links, this`blockMap, this`blocks, this`rings, this`slabs, this`table, this`oldTables,
               this`lost
      ensures Answers(r, size, Area(old(blocks), old(slabs), old(table), old(oldTables)),
                      Area(blocks, slabs, table, oldTables), baseline, OldTable(youngest, |mappings|, old(table)))
      ensures !r.SizeCheckFailed? && !r.RefCheckFailed? ==> Valid()
      ensures r.Allocated? ==> lost == old(lost) && Placed(old(blocks), size, r.ref, r.addr)
      ensures r.MaximumFileSizeExceeded? ==> lost == old(lost) + size
    {
      ghost var before := Area(blocks, slabs, table, oldTables);
      var g, checked, a := AllocateBlock(Effective(size), addr);
      r := Finish(g, checked, a, size, before.blocks);
      Answering(r, size, g, checked, before, Area(blocks, slabs, table, oldTables), baseline,
                OldTable(youngest, |mappings|, before.table));
    }

    /** What follows the search for a block. */
    method Finish(g: Growth, checked: bool, a: Addr, size: nat, ghost b0: Blocks) returns (r: AllocResult)
      requires Canonical(freeReadOnly) && commitSize == Wanted(b0) + lost + size && state == Dirty && WasteOK(b0)
      requires Found(g, checked, a, Effective(size), b0)
      modifies this`tags, this`blocks, this`lost
      ensures ResultOf(r, g, checked, size) && (!r.Allocated? ==> Live(blocks) == Live(b0))
      ensures !r.SizeCheckFailed? && !r.RefCheckFailed? ==> Valid()
      ensures r.Allocated? ==> lost == old(lost) && Placed(b0, size, r.ref, r.addr)
      ensures r.MaximumFileSizeExceeded? ==> lost == old(lost) + size
    {
      if g == Overflow {
        lost := lost + size;
        r := MaximumFileSizeExceeded;
        DirtyValid();
      } else if g == AtZero {
        r := if Effective(size) > MAX_REQUEST then SizeCheckFailed else RefCheckFailed;
      } else if checked {
        var ref := UseBlock(a, size, b0);
        r := Allocated(ref, a);
        DirtyValid();
      } else {
        r := SizeCheckFailed;
      }
    }

    /** A block of suitable size, disjoint from all blocks in use, went into use; nothing else in
        use changed, and the ref translates to the block. */
    ghost predicate Placed(blocks0: Blocks, size: nat, ref: nat, a: Addr)
      reads this`blocks, this`slabs, this`table, this`baseline
    {
      && a !in Live(blocks0) && a in blocks && Live(blocks) == Live(blocks0)[a := blocks[a]]
      && blocks[a].wanted == size && Effective(size) <= blocks[a].size < Effective(size) + 32
      && baseline <= ref && SectionIndex(ref) < |table| && Translate(table, ref) == a
      && blocks[a].slab < |slabs| && ref == RefOf(FileSections(baseline), slabs, blocks[a].slab, a)
    }

    method UseBlock(a: Addr, size: nat, ghost blocks0: Blocks) returns (ref: nat)
      requires Inv({a}) && Mapped() && Coalesced(blocks, {a}) && FreeAt(blocks, a) && SameLive(blocks0, blocks)
      requires Effective(size) <= blocks[a].size < Effective(size) + 32 && WasteOK(blocks0)
      modifies this`tags, this`blocks
      ensures Inv({}) && Mapped() && Coalesced(blocks, {}) && WasteOK(blocks) && Placed(blocks0, size, ref, a)
      ensures Wanted(blocks) == Wanted(blocks0) + size
    {
      ghost var b1 := blocks;
      assert RefOK(links, b1, slabs, FileSections(baseline), a);
      MarkAllocated(a, size, {a});
      assert {a} - {a} == {};
      CoalescedMark(b1, a, blocks[a]);
      LiveMark(blocks0, b1, a, blocks[a]);
      RefTranslates(table, mappings, tags, blocks, slabs, FileSections(baseline), a);
      Aligned(baseline);
      ref := links[a].ref;
    }

    // -------------------------------------------------------------- freeing

    /** First half of `free_block`: merge with the left neighbour if that is free. */
    method MergeLeft(a: Addr) returns (b: Addr)
      requires Inv({a}) && Coalesced(blocks, {a}) && FreeAt(blocks, a)
      modifies this`tags, this`links, this`blockMap, this`blocks, this`rings
      ensures Inv({b}) && Coalesced(blocks, {b}) && FreeAt(blocks, b) && NoFreeLeft(blocks, b) &&
              SameLive(old(blocks), blocks)
    {
      LeftNeighbour(tags, blocks, slabs, a);
      var bb := tags[a - 8];
      if bb.before <= 0 {
        return a;
      }
      b := a - 8 - bb.before;
      ghost var b0 := blocks;
      RemoveFreelistEntry(b, {a});
      MergeWith(b, a, {a} + {b});
      assert {a} + {b} - {a} == {b};
      CoalescedMerge(b0, b, a);
      LeftAfterMerge(b0, b, a);
      LiveMerge(b0, b, a);
    }

    /** Second half of `free_block`: merge with the right neighbour if that is free. */
    method MergeRight(a: Addr)
      requires Inv({a}) && Coalesced(blocks, {a}) && FreeAt(blocks, a) && NoFreeLeft(blocks, a)
      modifies this`tags, this`links, this`blockMap, this`blocks, this`rings
      ensures Inv({a}) && Coalesced(blocks, {}) && FreeAt(blocks, a) && SameLive(old(blocks), blocks)
    {
      RightNeighbour(tags, blocks, slabs, a);
      var size := tags[a - 8].after;
      if tags[a + size].after > 0 {
        var n := a + size + 8;
        ghost var b0 := blocks;
        RemoveFreelistEntry(n, {a});
        MergeWith(a, n, {a} + {n});
        assert {a} + {n} - {n} == {a};
        CoalescedMerge(b0, a, n);
        LeftAfterMerge(b0, a, n);
        RightAfterMerge(b0, a, n);
        LiveMerge(b0, a, n);
      }
      CoalescedDone(blocks, a);
    }

    /** The block is marked free, but not merged or listed yet. */
    method Release(ref: nat, a: Addr, size: nat)
      requires Inv({}) && Coalesced(blocks, {}) && WasteOK(blocks) && a in blocks && !blocks[a].free &&
               blocks[a].wanted == size
      requires blocks[a].slab < |slabs| && ref == RefOf(FileSections(baseline), slabs, blocks[a].slab, a)
      modifies this`tags, this`links, this`blocks
      ensures Inv({a}) && Coalesced(blocks, {a}) && WasteOK(blocks) && FreeAt(blocks, a)
      ensures Live(blocks) == Live(old(blocks)) - {a} && Wanted(old(blocks)) == Wanted(blocks) + size
    {
      ghost var b0 := blocks;
      MarkFreed(a, Effective(size), ref, {});
      assert {} + {a} == {a};
      LiveFreed(b0, a, blocks[a]);
      CoalescedFreed(b0, a, blocks[a]);
    }

    /** The mutable branch of `do_free`. */
    method FreeMutable(ref: nat, a: Addr, size: nat)
      requires Sound() && a in blocks && !blocks[a].free && blocks[a].wanted == size
      requires blocks[a].slab < |slabs| && ref == RefOf(FileSections(baseline), slabs, blocks[a].slab, a)
      modifies this`tags, this`links, this`blockMap, this`blocks, this`rings
      ensures Sound() && Live(blocks) == Live(old(blocks)) - {a} && Wanted(old(blocks)) == Wanted(blocks) + size
    {
      Release(ref, a, size);
      Settle(a);
    }

    /** A free block outside the lists is merged with its neighbours and listed. */
    method Settle(a: Addr)
      requires Inv({a}) && Coalesced(blocks, {a}) && FreeAt(blocks, a)
      modifies this`tags, this`links, this`blockMap, this`blocks, this`rings
      ensures Inv({}) && Coalesced(blocks, {}) && SameLive(old(blocks), blocks)
    {
      var b := MergeLeft(a);
      MergeRight(b);
      PushFreelistEntry(b, slabs, {b});
      assert {b} - {b} == {};
    }

    /** `do_free`; `size` is what the node header at `addr` records. */
    method Free(ref: nat, addr: Addr, size: nat)
      requires Valid()
      requires ref < baseline ==> size > 0 && Fresh(freeReadOnly, ref, size)
      requires ref >= baseline ==>
                 && addr in blocks && !blocks[addr].free && blocks[addr].wanted == size
                 && blocks[addr].slab < |slabs| && ref == RefOf(FileSections(baseline), slabs, blocks[addr].slab, addr)
      modifies this`tags, this`links, this`blockMap, this`blocks, this`rings, this`freeReadOnly, this`state,
               this`commitSize
      ensures Valid()
      ensures ref < baseline ==> blocks == old(blocks) && Freed(old(freeReadOnly), Chunk(ref, size), freeReadOnly)
      ensures ref >= baseline ==> Live(blocks) == Live(old(blocks)) - {addr} && freeReadOnly == old(freeReadOnly)
    {
      assert ref >= baseline ==> state == Dirty by {
        assert ref >= baseline ==> addr in Live(blocks);
      }
      state := Dirty;
      if ref < baseline {
        freeReadOnly := AddChunk(freeReadOnly, ref, size);
      } else {
        commitSize := commitSize - size;
        FreeMutable(ref, addr, size);
      }
      DirtyValid();
    }

    // -------------------------------------------------------------- rebuilding

    /** `rebuild_freelists_from_slab`: every slab becomes one free block. */
    method RebuildFreelists()
      requires Shapes(slabs, FileSections(baseline))
      modifies this`tags, this`links, this`blockMap, this`blocks, this`rings
      ensures Inv({}) && Coalesced(blocks, {}) && WasteOK(blocks) && Live(blocks) == map[] && Wanted(blocks) == 0
    {
      blockMap, blocks, rings := map[], map[], map[];
      EmptySpace(tags, links, FileSections(baseline));
      Aligned(baseline);
      var refStart := AlignToSection(baseline);
      var i := 0;
      while i < |slabs|
        invariant i <= |slabs| && refStart == (FileSections(baseline) + i) * SECTION
        invariant Space(tags, links, blockMap, blocks, rings, slabs[..i], FileSections(baseline), {})
        invariant Coalesced(blocks, {}) && SameLive(map[], blocks)
      {
        RebuildSlab(slabs[..i], slabs[i], refStart);
        assert slabs[..i + 1] == slabs[..i] + [slabs[i]];
        NextSection(FileSections(baseline) + i, slabs[i].size);
        refStart := AlignToSection(slabs[i].refEnd);
        i := i + 1;
      }
      assert slabs[..|slabs|] == slabs;
    }

    method RebuildSlab(ghost area: seq<Slab>, slab: Slab, refStart: nat)
      requires Space(tags, links, blockMap, blocks, rings, area, FileSections(baseline), {}) && Coalesced(blocks, {})
      requires 40 <= slab.size <= SECTION && slab.size % 8 == 0
      requires forall k :: 0 <= k < |area| ==> DisjointSlabs(area[k], slab)
      requires refStart == (FileSections(baseline) + |area|) * SECTION && slab.refEnd == refStart + slab.size
      modifies this`tags, this`links, this`blockMap, this`blocks, this`rings
      ensures Space(tags, links, blockMap, blocks, rings, area + [slab], FileSections(baseline), {}) &&
              Coalesced(blocks, {})
      ensures SameLive(old(blocks), blocks)
    {
      ghost var b0 := blocks;
      CoalescedSlab(tags, blocks, area, slab);
      var e := SlabToEntry(area, slab, refStart, {});
      LiveAdd(b0, e, blocks[e]);
      PushFreelistEntry(e, area + [slab], {} + {e});
      assert {} + {e} - {e} == {};
    }

    /** Everything in the slabs was committed to the file: slabs are released down to a minimal one. */
    method ResetFreeSpaceTracking()
      requires Valid()
      modifies this`tags, this`links, this`blockMap, this`blocks, this`rings, this`slabs, this`table
      modifies this`freeReadOnly, this`state, this`commitSize, this`lost
      ensures Valid() && state.Clean? && Live(blocks) == map[]
      ensures old(state.Clean?) ==> slabs == old(slabs) && blocks == old(blocks)
      ensures old(state.Dirty?) ==>
                && slabs == MinimalSlabs(old(slabs)) && freeReadOnly == map[] && commitSize == 0
    {
      if state.Dirty? {
        ShapesOf(blocks, slabs, FileSections(baseline));
        freeReadOnly, state := map[], Clean;
        commitSize, lost := 0, 0;
        ReleaseAll();
      }
    }

    method ReleaseAll()
      requires Shapes(slabs, FileSections(baseline)) && Mapped()
      modifies this`tags, this`links, this`blockMap, this`blocks, this`rings, this`slabs, this`table
      ensures Sound() && Live(blocks) == map[] && Wanted(blocks) == 0
      ensures slabs == MinimalSlabs(old(slabs))
    {
      ReleaseSlabs();
      RebuildFreelists();
    }

    method ReleaseSlabs()
      requires Shapes(slabs, FileSections(baseline)) && Mapped()
      modifies this`slabs, this`table
      ensures Shapes(slabs, FileSections(baseline)) && Mapped()
      ensures slabs == MinimalSlabs(old(slabs))
    {
      while |slabs| > 1 || (|slabs| == 1 && slabs[0].size > MINIMAL_ALLOC)
        invariant slabs <= old(slabs) && MinimalSlabs(slabs) == MinimalSlabs(old(slabs))
        invariant Shapes(slabs, FileSections(baseline)) && Mapped()
        decreases |slabs|
      {
        ReleaseLast();
      }
    }

    method ReleaseLast()
      requires slabs != [] && Shapes(slabs, FileSections(baseline)) && Mapped()
      modifies this`slabs, this`table
      ensures slabs == old(slabs)[..old(|slabs|) - 1] && Shapes(slabs, FileSections(baseline)) && Mapped()
    {
      var lastSlab := slabs[|slabs| - 1];
      assert table[|table| - 1] == lastSlab.addr;
      ghost var s0 := slabs;
      table := table[..|table| - 1];
      slabs := slabs[..|slabs| - 1];
      assert Bases(s0)[..|slabs|] == Bases(slabs);
    }

    /** `is_all_free`. */
    method IsAllFree() returns (all: bool)
      requires Valid()
      ensures all <==> Live(blocks) == map[]
    {
      for k := 0 to |slabs|
        invariant forall j :: 0 <= j < k ==> Whole(j)
      {
        assert SlabOK(blocks, slabs, k);
        assert BlockOK(tags, blocks, slabs, slabs[k].addr + 8);
        var first := tags[slabs[k].addr];
        LastTag(tags, blocks, slabs, k);
        var last := tags[slabs[k].addr + slabs[k].size - 8];
        if first.after != last.before || slabs[k].size - 8 - 8 != first.after {
          if Live(blocks) == map[] {
            AllFree(tags, blocks, slabs, k);
          }
          return false;
        }
      }
      forall a | a in blocks ensures blocks[a].free {
        assert BlockOK(tags, blocks, slabs, a);
        assert Whole(blocks[a].slab);
        OneBlock(tags, blocks, slabs, a);
      }
      all := true;
    }

    ghost predicate Whole(k: nat)
      reads this`blocks, this`slabs
    {
      k < |slabs| && FreeAt(blocks, slabs[k].addr + 8) && blocks[slabs[k].addr + 8].size == slabs[k].size - 16
    }

    // -------------------------------------------------------------- the file grows

    /** `update_reader_view`: the file was extended to `fileSize`, for which `added` holds the
        addresses of the new mappings; `extended` tells whether the last, partial mapping could be
        extended in place. */
    method UpdateReaderView(fileSize: nat, extended: bool, added: seq<Addr>)
      requires Valid() && state.Clean? && fileSize % 8 == 0
      requires fileSize > baseline ==> |added| == FileSections(fileSize) - KeptMappings(extended)
      modifies this`tags, this`links, this`blockMap, this`blocks, this`rings, this`slabs, this`table
      modifies this`baseline, this`mappings, this`oldMappings, this`oldTables
      ensures Valid() && Live(blocks) == map[] && SameSlabs(old(slabs), slabs)
      ensures baseline == if fileSize > old(baseline) then fileSize else old(baseline)
      ensures fileSize <= old(baseline) ==>
                mappings == old(mappings) && oldMappings == old(oldMappings) && table == old(table) &&
                oldTables == old(oldTables)
      ensures fileSize > old(baseline) ==>
                var ms, kept := old(mappings), old(KeptMappings(extended));
                && mappings == ms[..kept] + added && oldMappings == old(oldMappings) + Replaced(ms, kept, youngest)
                && oldTables == old(oldTables) +
                                Retired(kept < |ms| || |ms| < |mappings|, OldTable(youngest, |ms|, old(table)))
    {
      if fileSize > baseline {
        Advance(fileSize, extended, added);
        CleanValid();
      }
    }

    method Advance(fileSize: nat, extended: bool, added: seq<Addr>)
      requires Sound() && fileSize > baseline
      requires |added| == FileSections(fileSize) - KeptMappings(extended)
      modifies this`tags, this`links, this`blockMap, this`blocks, this`rings, this`slabs, this`table
      modifies this`baseline, this`mappings, this`oldMappings, this`oldTables
      ensures Sound() && Live(blocks) == map[] && Wanted(blocks) == 0
      ensures SameSlabs(old(slabs), slabs) && baseline == fileSize
      ensures var ms, kept := old(mappings), old(KeptMappings(extended));
              && mappings == ms[..kept] + added && oldMappings == old(oldMappings) + Replaced(ms, kept, youngest)
              && oldTables == old(oldTables) +
                              Retired(kept < |ms| || |ms| < |mappings|, OldTable(youngest, |ms|, old(table)))
    {
      var replace, oldNum := LastMapping(extended);
      var displacement := AlignToSection(fileSize) - AlignToSection(baseline);
      ghost var ms, first := mappings, FileSections(baseline);
      ShapesOf(blocks, slabs, first);
      Aligned(baseline);
      Aligned(fileSize);
      GrowMappings(replace, oldNum, fileSize, added);
      Relocate(displacement, first, replace, oldNum, ms);
    }

    /** Whether the last mapping is partial and cannot be extended, and how many mappings stay. */
    method LastMapping(extended: bool) returns (replace: bool, oldNum: nat)
      requires |mappings| == FileSections(baseline)
      ensures oldNum == KeptMappings(extended) && oldNum == |mappings| - (if replace then 1 else 0)
      ensures replace ==> mappings != []
    {
      var oldBase := AlignToSection(baseline);
      replace, oldNum := false, SectionIndex(oldBase);
      Aligned(baseline);
      if baseline < oldBase && !extended {
        replace, oldNum := true, oldNum - 1;
      }
    }

    lemma CleanValid()
      requires Sound() && Canonical(freeReadOnly) && Live(blocks) == map[] && Wanted(blocks) == 0
      requires commitSize == 0 && lost == 0
      ensures Valid()
    {
    }

    /** The new mappings take effect, and the replaced one is retained. */
    method GrowMappings(replace: bool, oldNum: nat, fileSize: nat, added: seq<Addr>)
      requires Mapped() && fileSize > baseline && (replace ==> mappings != [])
      requires oldNum == |mappings| - (if replace then 1 else 0) && |added| == FileSections(fileSize) - oldNum
      modifies this`baseline, this`mappings, this`oldMappings
      ensures baseline == fileSize && |mappings| == FileSections(fileSize) >= |old(mappings)|
      ensures mappings == old(mappings)[..oldNum] + added
      ensures oldMappings == old(oldMappings) + Replaced(old(mappings), oldNum, youngest)
      ensures Reclaimable(oldTables, oldMappings, mappings, youngest)
      ensures TableOK(OldTable(youngest, |old(mappings)|, table), oldMappings, mappings, youngest)
    {
      SectionsMonotone(baseline, fileSize);
      FileGrew(oldTables, oldMappings, mappings, youngest, OldTable(youngest, |mappings|, table), replace, added);
      if replace {
        oldMappings := oldMappings + [OldMapping(youngest, mappings[|mappings| - 1])];
        mappings := mappings[..|mappings| - 1];
      }
      mappings := mappings + added;
      baseline := fileSize;
    }

    /** The slabs move behind the file, and the table follows. */
    method Relocate(displacement: nat, ghost first: nat, replace: bool, oldNum: nat, ghost ms: seq<Addr>)
      requires Shapes(slabs, first) && FileSections(baseline) * SECTION == first * SECTION + displacement
      requires table == ms + Bases(slabs) && oldNum <= |ms| <= |mappings| == FileSections(baseline) &&
               mappings[..oldNum] == ms[..oldNum]
      requires !replace ==> oldNum == |ms|
      requires TableOK(OldTable(youngest, |ms|, table), oldMappings, mappings, youngest)
      requires Reclaimable(oldTables, oldMappings, mappings, youngest)
      modifies this`tags, this`links, this`blockMap, this`blocks, this`rings, this`slabs, this`table, this`oldTables
      ensures Sound() && Live(blocks) == map[] && Wanted(blocks) == 0 && SameSlabs(old(slabs), slabs)
      ensures oldTables == old(oldTables) +
                           Retired(replace || |ms| < |mappings|, OldTable(youngest, |ms|, old(table)))
    {
      Rebase(displacement, first);
      assert Bases(slabs) == Bases(old(slabs));
      RebuildFreelists();
      RebuildTranslations(replace, oldNum, ms);
    }

    /** The number of mappings that stay as they are. */
    function KeptMappings(extended: bool): nat
      reads this`baseline
    {
      Aligned(baseline);
      if baseline < AlignToSection(baseline) && !extended then FileSections(baseline) - 1 else FileSections(baseline)
    }

    /** Slabs move up in ref space by whole sections. */
    method Rebase(displacement: nat, ghost first: nat)
      requires Shapes(slabs, first) && FileSections(baseline) * SECTION == first * SECTION + displacement
      modifies this`slabs
      ensures Shapes(slabs, FileSections(baseline)) && |slabs| == old(|slabs|)
      ensures forall k :: 0 <= k < |slabs| ==> slabs[k] == old(slabs)[k].(refEnd := old(slabs)[k].refEnd + displacement)
    {
      if displacement > 0 {
        var i := 0;
        while i < |slabs|
          invariant i <= |slabs| == old(|slabs|)
          invariant forall k :: 0 <= k < i ==> slabs[k] == old(slabs)[k].(refEnd := old(slabs)[k].refEnd + displacement)
          invariant forall k :: i <= k < |slabs| ==> slabs[k] == old(slabs)[k]
        {
          slabs := slabs[i := slabs[i].(refEnd := slabs[i].refEnd + displacement)];
          i := i + 1;
        }
      }
      ShapesMoved(old(slabs), slabs, first, FileSections(baseline), displacement);
    }

    /** `rebuild_translations`; `ms` are the mappings of the table in use so far. */
    method RebuildTranslations(requiresNew: bool, oldNum: nat, ghost ms: seq<Addr>)
      requires table == ms + Bases(slabs) && oldNum <= |ms| <= |mappings| && mappings[..oldNum] == ms[..oldNum]
      requires !requiresNew ==> oldNum == |ms|
      requires TableOK(OldTable(youngest, |ms|, table), oldMappings, mappings, youngest)
      requires Reclaimable(oldTables, oldMappings, mappings, youngest)
      modifies this`table, this`oldTables
      ensures table == mappings + Bases(slabs) && Reclaimable(oldTables, oldMappings, mappings, youngest)
      ensures oldTables == old(oldTables) +
                           Retired(requiresNew || |ms| < |mappings|, OldTable(youngest, |ms|, old(table)))
    {
      var n, num := |slabs|, |mappings|;
      var start, newTable := oldNum, table;
      if requiresNew || |table| < num + n {
        if |table| > 0 {
          RetireTable(oldTables, oldMappings, mappings, youngest, OldTable(youngest, |table| - n, table));
          oldTables := oldTables + [OldTable(youngest, |table| - n, table)];
        }
        newTable := seq(num + n, i => 0);
        start := 0;
      }
      table := FillTable(newTable, start, mappings, slabs);
    }

    /** The entries of the mappings from `start` on, and of all slabs, are written. */
    static method FillTable(entries: seq<Addr>, start: nat, mappings: seq<Addr>, slabs: seq<Slab>)
      returns (r: seq<Addr>)
      requires |entries| == |mappings| + |slabs| && start <= |mappings| && entries[..start] == mappings[..start]
      ensures r == mappings + Bases(slabs)
    {
      r := entries;
      var i := start;
      while i < |mappings|
        invariant start <= i <= |mappings| && |r| == |entries| && r[..i] == mappings[..i]
      {
        r := r[i := mappings[i]];
        i := i + 1;
      }
      var k := 0;
      while k < |slabs|
        invariant k <= |slabs| && |r| == |entries| && r[..|mappings| + k] == mappings + Bases(slabs)[..k]
      {
        r := r[|mappings| + k := slabs[k].addr];
        k := k + 1;
      }
    }

    // -------------------------------------------------------------- reclamation

    /** `purge_old_mappings`: exactly what was replaced before the oldest live version goes. */
    method PurgeOldMappings(oldestLive: nat, youngestLive: nat)
      requires Valid() && youngest <= youngestLive
      modifies this`oldMappings, this`oldTables, this`youngest
      ensures Valid() && youngest == youngestLive
      ensures forall o :: o in oldMappings <==> o in old(oldMappings) && o.version >= oldestLive
      ensures forall t :: t in oldTables <==> t in old(oldTables) && t.version >= oldestLive
    {
      PurgeSafe(oldTables, oldMappings, mappings, youngest, oldestLive, youngestLive);
      oldMappings := KeepMappings(oldMappings, oldestLive);
      oldTables := KeepTables(oldTables, oldestLive);
      youngest := youngestLive;
    }

    /** An allocator attached to a file of `baseline` bytes, mapped section by section. */
    constructor (baseline: nat, mappings: seq<Addr>, liveVersion: nat)
      requires |mappings| == FileSections(baseline)
      ensures Valid() && this.baseline == baseline && slabs == [] && Live(blocks) == map[] && state.Clean?
      ensures this.mappings == mappings && youngest == liveVersion && oldTables == [] && oldMappings == []
    {
      tags, links, blockMap, slabs := map[], map[], map[], [];
      this.baseline, this.mappings, table := baseline, mappings, mappings;
      oldMappings, oldTables, youngest := [], [], liveVersion;
      freeReadOnly, state, commitSize := map[], Clean, 0;
      blocks, rings, lost := map[], map[], 0;
      new;
      EmptySpace(tags, links, FileSections(baseline));
    }
  }
}
