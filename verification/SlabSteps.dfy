/** Steps of the slab allocator: each write sequence of the allocator keeps the tiling, the free
    lists and the refs stored in free blocks, with the blocks it works on taken `out` of the lists. */
module SlabSteps {
  import opened Sections
  import opened SlabModel
  import opened FreeLists

  /** The ref of an address in slab `k`; `first` is the section of slab 0. */
  function RefOf(first: nat, slabs: seq<Slab>, k: nat, a: Addr): int
    requires k < |slabs|
  {
    (first + k) * SECTION + (a - slabs[k].addr)
  }

  ghost predicate RefOK(links: Links, blocks: Blocks, slabs: seq<Slab>, first: nat, a: Addr)
    requires a in blocks
  {
    a in links && blocks[a].slab < |slabs| && links[a].ref == RefOf(first, slabs, blocks[a].slab, a)
  }

  /** Every free block holds its own ref. */
  ghost predicate RefsOK(links: Links, blocks: Blocks, slabs: seq<Slab>, first: nat) {
    forall a {:trigger RefOK(links, blocks, slabs, first, a)} ::
      a in blocks && blocks[a].free ==> RefOK(links, blocks, slabs, first, a)
  }

  ghost predicate Space(tags: Tags, links: Links, blockMap: map<nat, Addr>, blocks: Blocks, rings: Rings,
                        slabs: seq<Slab>, first: nat, out: set<Addr>)
  {
    && Tiled(tags, blocks, slabs) && RefsOK(links, blocks, slabs, first)
    && Lists(blocks, links, blockMap, rings, out)
  }

  lemma RefsKept(links: Links, links': Links, blocks: Blocks, slabs: seq<Slab>, first: nat)
    requires RefsOK(links, blocks, slabs, first)
    requires forall a :: a in links ==> a in links' && links'[a].ref == links[a].ref
    ensures RefsOK(links', blocks, slabs, first)
  {
    forall a | a in blocks && blocks[a].free ensures RefOK(links', blocks, slabs, first, a) {
      assert RefOK(links, blocks, slabs, first, a);
    }
  }

  lemma StepRemove(tags: Tags, links: Links, blockMap: map<nat, Addr>, blocks: Blocks, rings: Rings,
                   slabs: seq<Slab>, first: nat, out: set<Addr>, e: Addr) returns (rings': Rings)
    requires Space(tags, links, blockMap, blocks, rings, slabs, first, out) && Listed(blocks, out, e)
    ensures e in links && links[e].next in links && links[e].prev in links && blocks[e].size in blockMap
    ensures Space(tags, Unlink(links, e), UnmapHead(blockMap, blocks[e].size, e, links[e].next), blocks, rings',
                  slabs, first, out + {e})
  {
    rings' := RemoveEntry(blocks, links, blockMap, rings, out, e);
    RefsKept(links, Unlink(links, e), blocks, slabs, first);
  }

  lemma StepPush(tags: Tags, links: Links, blockMap: map<nat, Addr>, blocks: Blocks, rings: Rings,
                 slabs: seq<Slab>, first: nat, out: set<Addr>, e: Addr) returns (rings': Rings)
    requires Space(tags, links, blockMap, blocks, rings, slabs, first, out) && e in blocks && blocks[e].free && e in out
    ensures e in links
    ensures blocks[e].size in blockMap ==>
              blockMap[blocks[e].size] in links &&
              links[blockMap[blocks[e].size]].prev in links
    ensures Space(tags, PushLinks(blockMap, links, blocks[e].size, e), PushMap(blockMap, blocks[e].size, e), blocks,
                  rings', slabs, first, out - {e})
  {
    assert RefOK(links, blocks, slabs, first, e);
    rings' := PushEntry(blocks, links, blockMap, rings, out, e);
    RefsKept(links, PushLinks(blockMap, links, blocks[e].size, e), blocks, slabs, first);
  }

  /** `break_block` on a free block outside the lists. */
  lemma StepBreak(tags: Tags, links: Links, blockMap: map<nat, Addr>, blocks: Blocks, rings: Rings,
                  slabs: seq<Slab>, first: nat, out: set<Addr>, a: Addr, newSize: nat)
    requires Space(tags, links, blockMap, blocks, rings, slabs, first, out) && a in blocks && blocks[a].free && a in out
    requires newSize >= 24 && newSize % 8 == 0 && newSize + 8 + 24 <= blocks[a].size
    ensures a in links && a - 8 in tags && a + blocks[a].size in tags && a + newSize + 8 !in blocks
    ensures var rest := a + newSize + 8;
            var links' := links[rest := FreeBlock(links[a].ref + newSize + 8, 0, 0)]
                               [a := FreeBlock(links[a].ref, 0, 0)];
            Space(BreakTags(tags, a, blocks[a].size, newSize), links', blockMap, BreakBlocks(blocks, a, newSize),
                  rings, slabs, first, out + {rest})
  {
    Break(tags, blocks, slabs, a, newSize);
    assert RefOK(links, blocks, slabs, first, a);
    var rest, blocks' := a + newSize + 8, BreakBlocks(blocks, a, newSize);
    var links' := links[rest := FreeBlock(links[a].ref + newSize + 8, 0, 0)][a := FreeBlock(links[a].ref, 0, 0)];
    ChangeOut(blocks, blocks', links, links', blockMap, rings, out, out + {rest});
    forall c | c in blocks' && blocks'[c].free ensures RefOK(links', blocks', slabs, first, c) {
      assert c in blocks ==> RefOK(links, blocks, slabs, first, c);
    }
  }

  /** `mark_allocated`. */
  lemma StepMark(tags: Tags, links: Links, blockMap: map<nat, Addr>, blocks: Blocks, rings: Rings,
                 slabs: seq<Slab>, first: nat, out: set<Addr>, a: Addr, b: Block)
    requires Space(tags, links, blockMap, blocks, rings, slabs, first, out) && a in blocks && a in out
    requires !b.free && b.size == blocks[a].size && b.slab == blocks[a].slab
    ensures a - 8 in tags && a + b.size in tags
    ensures Space(MarkTags(tags, a, b), links, blockMap, blocks[a := b], rings, slabs, first, out - {a})
  {
    Mark(tags, blocks, slabs, a, b);
    var blocks' := blocks[a := b];
    ChangeOut(blocks, blocks', links, links, blockMap, rings, out, out - {a});
    forall c | c in blocks' && blocks'[c].free ensures RefOK(links, blocks', slabs, first, c) {
      assert RefOK(links, blocks, slabs, first, c);
    }
  }

  /** `mark_freed` together with storing the ref in the block. */
  lemma StepFreed(tags: Tags, links: Links, blockMap: map<nat, Addr>, blocks: Blocks, rings: Rings,
                  slabs: seq<Slab>, first: nat, out: set<Addr>, a: Addr, b: Block, f: FreeBlock)
    requires Space(tags, links, blockMap, blocks, rings, slabs, first, out) && a in blocks && !blocks[a].free
    requires b.free && b.size == blocks[a].size && b.slab == blocks[a].slab
    requires b.slab < |slabs| && f.ref == RefOf(first, slabs, b.slab, a)
    ensures a - 8 in tags && a + b.size in tags
    ensures Space(MarkTags(tags, a, b), links[a := f], blockMap, blocks[a := b], rings, slabs, first, out + {a})
  {
    Mark(tags, blocks, slabs, a, b);
    var blocks', links' := blocks[a := b], links[a := f];
    ChangeOut(blocks, blocks', links, links', blockMap, rings, out, out + {a});
    forall c | c in blocks' && blocks'[c].free ensures RefOK(links', blocks', slabs, first, c) {
      assert c != a ==> RefOK(links, blocks, slabs, first, c);
    }
  }

  /** `merge_blocks` on neighbouring free blocks outside the lists. */
  lemma StepMerge(tags: Tags, links: Links, blockMap: map<nat, Addr>, blocks: Blocks, rings: Rings,
                  slabs: seq<Slab>, first: nat, out: set<Addr>, f: Addr, l: Addr)
    requires Space(tags, links, blockMap, blocks, rings, slabs, first, out) && f in blocks && l in blocks &&
             f in out && l in out
    requires blocks[f].free && blocks[l].free && blocks[f].slab == blocks[l].slab && l == f + blocks[f].size + 8
    ensures f - 8 in tags && l + blocks[l].size in tags
    ensures Space(MergeTags(tags, f, l, blocks[l].size, blocks[f].size + blocks[l].size + 8), links, blockMap,
                  MergeBlocks(blocks, f, l), rings, slabs, first, out - {l})
  {
    Merge(tags, blocks, slabs, f, l);
    var blocks' := MergeBlocks(blocks, f, l);
    ChangeOut(blocks, blocks', links, links, blockMap, rings, out, out - {l});
    forall c | c in blocks' && blocks'[c].free ensures RefOK(links, blocks', slabs, first, c) {
      assert RefOK(links, blocks, slabs, first, c);
    }
  }

  /** `slab_to_entry` on a slab that follows the others. */
  lemma StepSlab(tags: Tags, links: Links, blockMap: map<nat, Addr>, blocks: Blocks, rings: Rings,
                 slabs: seq<Slab>, first: nat, out: set<Addr>, s: Slab)
    requires Space(tags, links, blockMap, blocks, rings, slabs, first, out)
    requires 40 <= s.size <= SECTION && s.size % 8 == 0
    requires forall k :: 0 <= k < |slabs| ==> DisjointSlabs(slabs[k], s)
    ensures var e := s.addr + 8;
            var links' := links[e := FreeBlock((first + |slabs|) * SECTION + 8, 0, 0)];
            && e !in blocks
            && Space(SlabTags(tags, s), links', blockMap, blocks[e := WholeSlab(|slabs|, s)], rings, slabs + [s],
                     first, out + {e})
  {
    AddSlab(tags, blocks, slabs, s);
    var e := s.addr + 8;
    var blocks', links', slabs' := blocks[e := WholeSlab(|slabs|, s)],
      links[e := FreeBlock((first + |slabs|) * SECTION + 8, 0, 0)], slabs + [s];
    ChangeOut(blocks, blocks', links, links', blockMap, rings, out, out + {e});
    forall c | c in blocks' && blocks'[c].free ensures RefOK(links', blocks', slabs', first, c) {
      assert c != e ==> RefOK(links, blocks, slabs, first, c);
    }
  }

  // ---------------------------------------------------------------- coalescing

  predicate FreeAt(blocks: Blocks, a: Addr) {
    a in blocks && blocks[a].free
  }

  predicate FreePair(blocks: Blocks, a: Addr) {
    FreeAt(blocks, a) && FreeAt(blocks, a + blocks[a].size + 8)
  }

  /** No two free blocks are neighbours, except that those in `xs` may have free neighbours. */
  ghost predicate Coalesced(blocks: Blocks, xs: set<Addr>) {
    forall a {:trigger FreePair(blocks, a)} :: FreePair(blocks, a) ==> a in xs || a + blocks[a].size + 8 in xs
  }

  ghost predicate NoFreeLeft(blocks: Blocks, a: Addr) {
    forall p {:trigger FreePair(blocks, p)} :: FreePair(blocks, p) ==> p + blocks[p].size + 8 != a
  }

  lemma CoalescedBreak(blocks: Blocks, a: Addr, newSize: nat)
    requires Apart(blocks) && Coalesced(blocks, {}) && FreeAt(blocks, a) && newSize + 8 <= blocks[a].size &&
             a + newSize + 8 !in blocks
    ensures Coalesced(BreakBlocks(blocks, a, newSize), {a})
  {
    var blocks', n := BreakBlocks(blocks, a, newSize), a + newSize + 8;
    forall p | FreePair(blocks', p) ensures p == a || p + blocks'[p].size + 8 == a {
      var p0 := if p == n then a else p;
      assert !FreePair(blocks, p0);
      if p != n && p != a && p + blocks'[p].size + 8 == n {
        ApartAt(blocks, p, a);
      }
    }
  }

  lemma CoalescedSlab(tags: Tags, blocks: Blocks, slabs: seq<Slab>, s: Slab)
    requires Tiled(tags, blocks, slabs) && Coalesced(blocks, {}) && 40 <= s.size
    requires forall k :: 0 <= k < |slabs| ==> DisjointSlabs(slabs[k], s)
    ensures Coalesced(blocks[s.addr + 8 := WholeSlab(|slabs|, s)], {})
  {
    var e, blocks' := s.addr + 8, blocks[s.addr + 8 := WholeSlab(|slabs|, s)];
    forall c | c in blocks ensures c + blocks[c].size + 8 <= s.addr || s.addr + s.size + 8 <= c {
      assert BlockOK(tags, blocks, slabs, c);
      assert DisjointSlabs(slabs[blocks[c].slab], s);
    }
    assert forall p {:trigger FreePair(blocks', p)} :: FreePair(blocks', p) ==> FreePair(blocks, p);
  }

  lemma CoalescedMark(blocks: Blocks, a: Addr, b: Block)
    requires Coalesced(blocks, {a}) && a in blocks && !b.free
    ensures Coalesced(blocks[a := b], {})
  {
    var blocks' := blocks[a := b];
    forall p | FreePair(blocks', p) ensures false {
      assert FreePair(blocks, p);
    }
  }

  lemma CoalescedFreed(blocks: Blocks, a: Addr, b: Block)
    requires Coalesced(blocks, {}) && a in blocks && b.size == blocks[a].size
    ensures Coalesced(blocks[a := b], {a})
  {
    var blocks' := blocks[a := b];
    forall p | FreePair(blocks', p) ensures p == a || p + blocks'[p].size + 8 == a {
      assert !FreePair(blocks, p);
    }
  }

  /** Merging `l` into its left neighbour `f`: what could be uncoalesced is now `f`. */
  lemma CoalescedMerge(blocks: Blocks, f: Addr, l: Addr)
    requires Apart(blocks) && FreeAt(blocks, f) && FreeAt(blocks, l) && l == f + blocks[f].size + 8
    requires Coalesced(blocks, {f}) || Coalesced(blocks, {l})
    ensures Coalesced(MergeBlocks(blocks, f, l), {f})
  {
    var blocks' := MergeBlocks(blocks, f, l);
    forall p | FreePair(blocks', p) ensures p == f || p + blocks'[p].size + 8 == f {
      if p != f {
        assert FreePair(blocks, p);
        ApartAt(blocks, p, l);
      }
    }
  }

  /** Merging with the left neighbour `f` leaves no free block to the left. */
  lemma LeftAfterMerge(blocks: Blocks, f: Addr, l: Addr)
    requires Apart(blocks) && FreeAt(blocks, f) && FreeAt(blocks, l) && l == f + blocks[f].size + 8
    requires Coalesced(blocks, {l}) || NoFreeLeft(blocks, f)
    ensures NoFreeLeft(MergeBlocks(blocks, f, l), f)
  {
    var blocks' := MergeBlocks(blocks, f, l);
    forall p | FreePair(blocks', p) ensures p + blocks'[p].size + 8 != f {
      if p != f && p + blocks'[p].size + 8 == f {
        assert FreePair(blocks, p);
        ApartAt(blocks, p, l);
      }
    }
  }

  lemma CoalescedDone(blocks: Blocks, a: Addr)
    requires Coalesced(blocks, {a}) && NoFreeLeft(blocks, a) && !FreePair(blocks, a)
    ensures Coalesced(blocks, {})
  {
  }

  /** After merging with the right neighbour `l` there is no free block to the right. */
  lemma RightAfterMerge(blocks: Blocks, f: Addr, l: Addr)
    requires Apart(blocks) && FreeAt(blocks, f) && FreeAt(blocks, l) && l == f + blocks[f].size + 8 &&
             Coalesced(blocks, {f})
    ensures !FreePair(MergeBlocks(blocks, f, l), f)
  {
    assert !FreePair(blocks, l);
  }

  // ---------------------------------------------------------------- what the tags tell

  /** `get_prev_block_if_mergeable`: a positive tag leads to the free left neighbour. */
  lemma LeftNeighbour(tags: Tags, blocks: Blocks, slabs: seq<Slab>, a: Addr)
    requires Tiled(tags, blocks, slabs) && FreeAt(blocks, a)
    ensures a - 8 in tags
    ensures tags[a - 8].before > 0 ==>
              var p := a - 8 - tags[a - 8].before;
              FreeAt(blocks, p) && p + blocks[p].size + 8 == a && blocks[p].slab == blocks[a].slab && p != a
    ensures tags[a - 8].before <= 0 ==> NoFreeLeft(blocks, a)
  {
    assert BlockOK(tags, blocks, slabs, a);
    var l := a - 8 - Abs(tags[a - 8].before);
    if tags[a - 8].before > 0 {
      assert BlockOK(tags, blocks, slabs, l);
    } else {
      forall p | FreePair(blocks, p) ensures p + blocks[p].size + 8 != a {
        assert BlockOK(tags, blocks, slabs, p);
      }
    }
  }

  /** `get_next_block_if_mergeable`: a positive tag leads to the free right neighbour. */
  lemma RightNeighbour(tags: Tags, blocks: Blocks, slabs: seq<Slab>, a: Addr)
    requires Tiled(tags, blocks, slabs) && FreeAt(blocks, a)
    ensures var e := a + blocks[a].size;
            && a - 8 in tags && tags[a - 8].after == blocks[a].size && e in tags
            && (tags[e].after > 0 ==> FreePair(blocks, a) && blocks[e + 8].slab == blocks[a].slab)
            && (tags[e].after <= 0 ==> !FreePair(blocks, a))
  {
    assert BlockOK(tags, blocks, slabs, a);
    var n := a + blocks[a].size + 8;
    if n in blocks {
      assert BlockOK(tags, blocks, slabs, n);
      BlockOKSlab(tags, blocks, slabs, a, n);
    }
  }

  lemma BlockOKSlab(tags: Tags, blocks: Blocks, slabs: seq<Slab>, a: Addr, n: Addr)
    requires SlabsOK(blocks, slabs) && a in blocks && n in blocks && n == a + blocks[a].size + 8
    requires BlockOK(tags, blocks, slabs, a) && BlockOK(tags, blocks, slabs, n)
    ensures blocks[n].slab == blocks[a].slab
  {
    var i, j := blocks[a].slab, blocks[n].slab;
    if i != j {
      SlabsApart(blocks, slabs, i, j);
    }
  }

  lemma SlabsApart(blocks: Blocks, slabs: seq<Slab>, i: nat, j: nat)
    requires SlabsOK(blocks, slabs) && i < |slabs| && j < |slabs| && i != j
    ensures DisjointSlabs(slabs[i], slabs[j])
  {
    assert DisjointSlabs(slabs[if i < j then i else j], slabs[if i < j then j else i]);
  }

  // ---------------------------------------------------------------- live blocks

  /** The blocks in use. */
  ghost function Live(blocks: Blocks): Blocks {
    map a | a in blocks && !blocks[a].free :: blocks[a]
  }

  /** The space a request takes up at least. */
  function Effective(size: nat): nat {
    if size < 24 then 24 else size
  }

  /** Every block in use is at most 31 bytes larger than needed. */
  ghost predicate WasteOK(blocks: Blocks) {
    forall a :: a in blocks && !blocks[a].free ==>
      Effective(blocks[a].wanted) <= blocks[a].size < Effective(blocks[a].wanted) + 32
  }

  /** The number of bytes clients asked for in the blocks in use. */
  ghost function Wanted(blocks: Blocks): nat
    decreases |blocks|
  {
    if a :| a in blocks then WantedOf(blocks[a]) + Wanted(blocks - {a}) else 0
  }

  function WantedOf(b: Block): nat {
    if b.free then 0 else b.wanted
  }

  lemma {:induction false} WantedWithout(blocks: Blocks, a: Addr)
    requires a in blocks
    ensures Wanted(blocks) == WantedOf(blocks[a]) + Wanted(blocks - {a})
    decreases |blocks|
  {
    assert blocks.Keys != {};
    var c :| c in blocks && Wanted(blocks) == WantedOf(blocks[c]) + Wanted(blocks - {c});
    if c != a {
      WantedWithout(blocks - {c}, a);
      WantedWithout(blocks - {a}, c);
      assert blocks - {a} - {c} == blocks - {c} - {a};
    }
  }

  lemma WantedUpdate(blocks: Blocks, a: Addr, b: Block)
    ensures Wanted(blocks[a := b]) == WantedOf(b) + Wanted(blocks - {a})
  {
    WantedWithout(blocks[a := b], a);
    assert blocks[a := b] - {a} == blocks - {a};
  }

  /** Only free blocks change: nothing in use changes. */
  ghost predicate SameLive(blocks: Blocks, blocks': Blocks) {
    Live(blocks') == Live(blocks) && Wanted(blocks') == Wanted(blocks) && (WasteOK(blocks) ==> WasteOK(blocks'))
  }

  lemma LiveBreak(blocks: Blocks, a: Addr, newSize: nat)
    requires FreeAt(blocks, a) && newSize + 8 <= blocks[a].size && a + newSize + 8 !in blocks
    ensures SameLive(blocks, BreakBlocks(blocks, a, newSize))
  {
    var b, n := blocks[a], a + newSize + 8;
    var b1, b2 := b.(size := newSize), b.(size := b.size - (newSize + 8));
    WantedWithout(blocks, a);
    WantedUpdate(blocks, a, b1);
    WantedUpdate(blocks[a := b1], n, b2);
    assert blocks[a := b1] - {n} == blocks[a := b1];
  }

  lemma LiveMerge(blocks: Blocks, f: Addr, l: Addr)
    requires FreeAt(blocks, f) && FreeAt(blocks, l) && f != l
    ensures SameLive(blocks, MergeBlocks(blocks, f, l))
  {
    WantedWithout(blocks, l);
    WantedWithout(blocks - {l}, f);
    WantedUpdate(blocks - {l}, f, blocks[f].(size := blocks[f].size + blocks[l].size + 8));
  }

  lemma LiveAdd(blocks: Blocks, a: Addr, b: Block)
    requires a !in blocks && b.free
    ensures SameLive(blocks, blocks[a := b])
  {
    WantedUpdate(blocks, a, b);
    assert blocks - {a} == blocks;
  }

  /** A free block goes into use. */
  lemma LiveMark(blocks0: Blocks, blocks: Blocks, a: Addr, b: Block)
    requires SameLive(blocks0, blocks) && FreeAt(blocks, a) && !b.free
    ensures a !in Live(blocks0) && Live(blocks[a := b]) == Live(blocks0)[a := b]
    ensures Wanted(blocks[a := b]) == Wanted(blocks0) + b.wanted
    ensures WasteOK(blocks0) && Effective(b.wanted) <= b.size < Effective(b.wanted) + 32 ==> WasteOK(blocks[a := b])
  {
    WantedWithout(blocks, a);
    WantedUpdate(blocks, a, b);
    assert a !in Live(blocks);
    assert Live(blocks[a := b]) == Live(blocks)[a := b];
  }

  /** A block in use is given back. */
  lemma LiveFreed(blocks: Blocks, a: Addr, b: Block)
    requires a in blocks && !blocks[a].free && b.free
    ensures Live(blocks[a := b]) == Live(blocks) - {a}
    ensures Wanted(blocks) == Wanted(blocks[a := b]) + blocks[a].wanted
    ensures WasteOK(blocks) ==> WasteOK(blocks[a := b])
  {
    WantedWithout(blocks, a);
    WantedUpdate(blocks, a, b);
  }

  // ---------------------------------------------------------------- tiling

  /** Every byte of a slab belongs to a block, to the tag before a block, or to the tag at its end. */
  lemma {:induction false} Covered(tags: Tags, blocks: Blocks, slabs: seq<Slab>, k: nat, a: Addr, x: Addr)
    returns (c: Addr)
    requires Tiled(tags, blocks, slabs) && k < |slabs| && a in blocks && blocks[a].slab == k
    requires a - 8 <= x < slabs[k].addr + slabs[k].size - 8
    ensures c in blocks && blocks[c].slab == k && c - 8 <= x < c + blocks[c].size
    decreases slabs[k].addr + slabs[k].size - a
  {
    assert BlockOK(tags, blocks, slabs, a);
    if x < a + blocks[a].size {
      c := a;
    } else {
      c := Covered(tags, blocks, slabs, k, a + blocks[a].size + 8, x);
    }
  }

  /** Blocks with the tags before them, and the tag at the end, tile each slab exactly: every byte
      belongs to exactly one of them. */
  lemma ExactTiling(tags: Tags, blocks: Blocks, slabs: seq<Slab>, k: nat, x: Addr)
    requires Tiled(tags, blocks, slabs) && k < |slabs| && slabs[k].addr <= x < slabs[k].addr + slabs[k].size - 8
    ensures exists c :: Holds(blocks, c, x) && blocks[c].slab == k && forall d :: Holds(blocks, d, x) ==> d == c
  {
    assert SlabOK(blocks, slabs, k);
    var c := Covered(tags, blocks, slabs, k, slabs[k].addr + 8, x);
    assert Holds(blocks, c, x);
    forall d | Holds(blocks, d, x) ensures d == c {
      if d != c {
        ApartAt(blocks, c, d);
      }
    }
  }

  ghost predicate Holds(blocks: Blocks, c: Addr, x: Addr) {
    c in blocks && c - 8 <= x < c + blocks[c].size
  }

  /** Once everything is freed, each slab is one free block. */
  lemma AllFree(tags: Tags, blocks: Blocks, slabs: seq<Slab>, k: nat)
    requires Tiled(tags, blocks, slabs) && Coalesced(blocks, {}) && Live(blocks) == map[] && k < |slabs|
    ensures var a := slabs[k].addr + 8;
            FreeAt(blocks, a) && blocks[a].slab == k && blocks[a].size == slabs[k].size - 16
    ensures forall c :: c in blocks && blocks[c].slab == k ==> c == slabs[k].addr + 8
  {
    assert SlabOK(blocks, slabs, k);
    var a := slabs[k].addr + 8;
    AllAreFree(blocks, a);
    assert BlockOK(tags, blocks, slabs, a);
    var n := a + blocks[a].size + 8;
    assert !FreePair(blocks, a);
    if n in blocks {
      AllAreFree(blocks, n);
    }
    forall c | c in blocks && blocks[c].slab == k ensures c == a {
      assert BlockOK(tags, blocks, slabs, c);
      if c != a {
        ApartAt(blocks, a, c);
      }
    }
  }

  lemma AllAreFree(blocks: Blocks, a: Addr)
    requires Live(blocks) == map[] && a in blocks
    ensures FreeAt(blocks, a)
  {
    assert a !in Live(blocks);
  }

  // ---------------------------------------------------------------- slabs without their blocks

  /** What holds of the slabs themselves, whatever is in them. */
  ghost predicate Shapes(slabs: seq<Slab>, first: nat) {
    && (forall k :: 0 <= k < |slabs| ==>
          40 <= slabs[k].size <= SECTION && slabs[k].size % 8 == 0 &&
          slabs[k].refEnd == (first + k) * SECTION + slabs[k].size)
    && (forall j, k :: 0 <= j < k < |slabs| ==> DisjointSlabs(slabs[j], slabs[k]))
  }

  lemma ShapesOf(blocks: Blocks, slabs: seq<Slab>, first: nat)
    requires SlabsOK(blocks, slabs) && forall k :: 0 <= k < |slabs| ==>
             slabs[k].refEnd == (first + k) * SECTION + slabs[k].size
    ensures Shapes(slabs, first)
  {
    forall k | 0 <= k < |slabs| ensures 40 <= slabs[k].size <= SECTION && slabs[k].size % 8 == 0 {
      assert SlabOK(blocks, slabs, k);
    }
  }

  lemma ShapesMoved(slabs: seq<Slab>, slabs': seq<Slab>, first: nat, first': nat, d: nat)
    requires Shapes(slabs, first) && first' * SECTION == first * SECTION + d && |slabs'| == |slabs|
    requires forall k :: 0 <= k < |slabs| ==> slabs'[k] == slabs[k].(refEnd := slabs[k].refEnd + d)
    ensures Shapes(slabs', first')
  {
    forall k | 0 <= k < |slabs| ensures slabs'[k].refEnd == (first' + k) * SECTION + slabs'[k].size {
      assert (first' + k) * SECTION == first' * SECTION + k * SECTION;
      assert (first + k) * SECTION == first * SECTION + k * SECTION;
    }
    forall j, k | 0 <= j < k < |slabs| ensures DisjointSlabs(slabs'[j], slabs'[k]) {
      assert DisjointSlabs(slabs[j], slabs[k]);
    }
  }

  lemma EmptySpace(tags: Tags, links: Links, first: nat)
    ensures Space(tags, links, map[], map[], map[], [], first, {}) && Coalesced(map[], {})
    ensures Live(map[]) == map[] && Wanted(map[]) == 0 && WasteOK(map[])
  {
  }

  /** A slab whose first block spans it has no other block. */
  lemma OneBlock(tags: Tags, blocks: Blocks, slabs: seq<Slab>, a: Addr)
    requires Tiled(tags, blocks, slabs) && a in blocks && blocks[a].slab < |slabs|
    requires var s := slabs[blocks[a].slab];
             && s.addr + 8 in blocks && blocks[s.addr + 8].free && blocks[s.addr + 8].size == s.size - 16
    ensures blocks[a].free
  {
    assert BlockOK(tags, blocks, slabs, a);
    var c := slabs[blocks[a].slab].addr + 8;
    if a != c {
      ApartAt(blocks, a, c);
    }
  }

  /** The tag at the end of a slab. */
  lemma LastTag(tags: Tags, blocks: Blocks, slabs: seq<Slab>, k: nat)
    requires Tiled(tags, blocks, slabs) && k < |slabs|
    ensures slabs[k].addr + slabs[k].size - 8 in tags
  {
    assert SlabOK(blocks, slabs, k);
    var c := Covered(tags, blocks, slabs, k, slabs[k].addr + 8, slabs[k].addr + slabs[k].size - 9);
    assert BlockOK(tags, blocks, slabs, c);
  }
}
