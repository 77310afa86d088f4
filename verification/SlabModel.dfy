/** The slab area of the allocator as a map of blocks, and the boundary tags that describe it.
    A block at address `a` has the tag before it at `a - 8` and the tag after it at `a + size`. */
module SlabModel {
  import opened Sections

  type Addr = int

  /** `BetweenBlocks`: sizes of the neighbouring blocks, negated when in use, 0 at a slab end. */
  datatype Tag = Tag(before: int, after: int)

  datatype Slab = Slab(refEnd: nat, addr: Addr, size: nat)

  /** A block of slab `slab`; `wanted` is the size the client of an allocated block asked for. */
  datatype Block = Block(slab: nat, size: nat, free: bool, wanted: nat)

  type Tags = map<Addr, Tag>
  type Blocks = map<Addr, Block>

  const MINIMAL_ALLOC: nat := 0x2_0000
  const MAX_REQUEST: nat := SECTION - 16

  function Signed(b: Block): int {
    if b.free then b.size else -(b.size as int)
  }

  function Abs(x: int): nat {
    if x < 0 then -x else x
  }

  /** The block that ends at the tag before `a`, as that tag tells. */
  ghost predicate HasLeft(tags: Tags, blocks: Blocks, a: Addr, slab: nat) {
    a - 8 in tags &&
    var l := a - 8 - Abs(tags[a - 8].before);
    l in blocks && blocks[l].slab == slab && l + blocks[l].size == a - 8
  }

  ghost predicate InSlab(slabs: seq<Slab>, a: Addr, b: Block) {
    && b.slab < |slabs| && b.size >= 24 && b.size % 8 == 0
    && slabs[b.slab].addr + 8 <= a && a + b.size + 8 <= slabs[b.slab].addr + slabs[b.slab].size
  }

  /** Both tags of a block agree with it, and the neighbours they lead to are blocks, or the block
      touches the end of its slab and the tag there says so. */
  ghost predicate BlockOK(tags: Tags, blocks: Blocks, slabs: seq<Slab>, a: Addr)
    requires a in blocks
  {
    var b := blocks[a];
    InSlab(slabs, a, b) &&
    var s, e := slabs[b.slab], a + b.size;
    && a - 8 in tags && tags[a - 8].after == Signed(b)
    && e in tags && tags[e].before == Signed(b)
    && (if a - 8 == s.addr then tags[a - 8].before == 0 else HasLeft(tags, blocks, a, b.slab))
    && (if e + 8 == s.addr + s.size then tags[e].after == 0 else e + 8 in blocks && blocks[e + 8].slab == b.slab)
  }

  /** Two blocks with room for a tag between them. */
  predicate Sep(a: Addr, b: Block, c: Addr, d: Block) {
    a + b.size + 8 <= c || c + d.size + 8 <= a
  }

  ghost predicate Apart(blocks: Blocks) {
    forall a, c {:trigger Sep(a, blocks[a], c, blocks[c])} ::
      a in blocks && c in blocks && a != c ==> Sep(a, blocks[a], c, blocks[c])
  }

  lemma ApartAt(blocks: Blocks, a: Addr, c: Addr)
    requires Apart(blocks) && a in blocks && c in blocks && a != c
    ensures Sep(a, blocks[a], c, blocks[c])
  {
  }

  ghost predicate SlabOK(blocks: Blocks, slabs: seq<Slab>, k: nat)
    requires k < |slabs|
  {
    && 40 <= slabs[k].size <= SECTION && slabs[k].size % 8 == 0
    && slabs[k].addr + 8 in blocks && blocks[slabs[k].addr + 8].slab == k
  }

  predicate DisjointSlabs(s: Slab, t: Slab) {
    s.addr + s.size <= t.addr || t.addr + t.size <= s.addr
  }

  ghost predicate SlabsOK(blocks: Blocks, slabs: seq<Slab>) {
    && (forall k {:trigger SlabOK(blocks, slabs, k)} :: 0 <= k < |slabs| ==> SlabOK(blocks, slabs, k))
    && (forall j, k :: 0 <= j < k < |slabs| ==> DisjointSlabs(slabs[j], slabs[k]))
  }

  ghost predicate BlocksOK(tags: Tags, blocks: Blocks, slabs: seq<Slab>) {
    forall a {:trigger BlockOK(tags, blocks, slabs, a)} :: a in blocks ==> BlockOK(tags, blocks, slabs, a)
  }

  /** Blocks and tags tile every slab. */
  ghost predicate Tiled(tags: Tags, blocks: Blocks, slabs: seq<Slab>) {
    Apart(blocks) && SlabsOK(blocks, slabs) && BlocksOK(tags, blocks, slabs)
  }

  // ---------------------------------------------------------------- marking

  /** The writes of `mark_allocated` and `mark_freed`. */
  function MarkTags(tags: Tags, a: Addr, b: Block): Tags
    requires a - 8 in tags && a + b.size in tags
  {
    tags[a - 8 := Tag(tags[a - 8].before, Signed(b))][a + b.size := Tag(Signed(b), tags[a + b.size].after)]
  }

  lemma Mark(tags: Tags, blocks: Blocks, slabs: seq<Slab>, a: Addr, b: Block)
    requires Tiled(tags, blocks, slabs) && a in blocks && b.size == blocks[a].size && b.slab == blocks[a].slab
    ensures a - 8 in tags && a + b.size in tags && Tiled(MarkTags(tags, a, b), blocks[a := b], slabs)
  {
    assert BlockOK(tags, blocks, slabs, a);
    MarkApart(blocks, a, b);
    SlabsKept(blocks, blocks[a := b], slabs);
    MarkBlocks(tags, blocks, slabs, a, b);
  }

  lemma MarkApart(blocks: Blocks, a: Addr, b: Block)
    requires Apart(blocks) && a in blocks && b.size == blocks[a].size
    ensures Apart(blocks[a := b])
  {
    var blocks' := blocks[a := b];
    forall c, d | c in blocks' && d in blocks' && c != d ensures Sep(c, blocks'[c], d, blocks'[d]) {
      assert Sep(c, blocks[c], d, blocks[d]);
    }
  }

  lemma MarkBlocks(tags: Tags, blocks: Blocks, slabs: seq<Slab>, a: Addr, b: Block)
    requires Apart(blocks) && BlocksOK(tags, blocks, slabs)
    requires a in blocks && b.size == blocks[a].size && b.slab == blocks[a].slab && a - 8 in tags && a + b.size in tags
    ensures BlocksOK(MarkTags(tags, a, b), blocks[a := b], slabs)
  {
    var tags', blocks' := MarkTags(tags, a, b), blocks[a := b];
    forall c | c in blocks' ensures BlockOK(tags', blocks', slabs, c) {
      assert BlockOK(tags, blocks, slabs, a) && BlockOK(tags, blocks, slabs, c);
      assert a != c ==> Sep(a, blocks[a], c, blocks[c]);
      MarkOne(tags, blocks, slabs, a, b, c);
    }
  }

  lemma MarkOne(tags: Tags, blocks: Blocks, slabs: seq<Slab>, a: Addr, b: Block, c: Addr)
    requires a in blocks && b.size == blocks[a].size && b.slab == blocks[a].slab
    requires c in blocks && (c != a ==> Sep(a, blocks[a], c, blocks[c]))
    requires BlockOK(tags, blocks, slabs, a) && BlockOK(tags, blocks, slabs, c)
    ensures BlockOK(MarkTags(tags, a, b), blocks[a := b], slabs, c)
  {
  }

  /** The first block of every slab stays where it is. */
  lemma SlabsKept(blocks: Blocks, blocks': Blocks, slabs: seq<Slab>)
    requires SlabsOK(blocks, slabs)
    requires forall k :: 0 <= k < |slabs| && slabs[k].addr + 8 in blocks ==>
               slabs[k].addr + 8 in blocks' && blocks'[slabs[k].addr + 8].slab == blocks[slabs[k].addr + 8].slab
    ensures SlabsOK(blocks', slabs)
  {
    forall k | 0 <= k < |slabs| ensures SlabOK(blocks', slabs, k) {
      assert SlabOK(blocks, slabs, k);
    }
  }

  // ---------------------------------------------------------------- splitting

  /** The tag writes of `break_block` on a free block of size `size`. */
  function BreakTags(tags: Tags, a: Addr, size: nat, newSize: nat): Tags
    requires a - 8 in tags && a + size in tags && newSize + 8 <= size
  {
    var rest := size - (newSize + 8);
    tags[a + size := Tag(rest, tags[a + size].after)][a - 8 := Tag(tags[a - 8].before, newSize)]
        [a + newSize := Tag(newSize, rest)]
  }

  function BreakBlocks(blocks: Blocks, a: Addr, newSize: nat): Blocks
    requires a in blocks && newSize + 8 <= blocks[a].size
  {
    var b := blocks[a];
    blocks[a := b.(size := newSize)][a + newSize + 8 := b.(size := b.size - (newSize + 8))]
  }

  lemma Break(tags: Tags, blocks: Blocks, slabs: seq<Slab>, a: Addr, newSize: nat)
    requires Tiled(tags, blocks, slabs) && a in blocks && blocks[a].free
    requires newSize >= 24 && newSize % 8 == 0 && newSize + 8 + 24 <= blocks[a].size
    ensures a - 8 in tags && a + blocks[a].size in tags
    ensures Tiled(BreakTags(tags, a, blocks[a].size, newSize), BreakBlocks(blocks, a, newSize), slabs)
    ensures a + newSize + 8 !in blocks
  {
    assert BlockOK(tags, blocks, slabs, a);
    BreakApart(blocks, a, newSize);
    SlabsKept(blocks, BreakBlocks(blocks, a, newSize), slabs);
    BreakAll(tags, blocks, slabs, a, newSize);
  }

  lemma BreakApart(blocks: Blocks, a: Addr, newSize: nat)
    requires Apart(blocks) && a in blocks && newSize + 8 <= blocks[a].size
    ensures a + newSize + 8 !in blocks && Apart(BreakBlocks(blocks, a, newSize))
  {
    var blocks', n := BreakBlocks(blocks, a, newSize), a + newSize + 8;
    if n in blocks {
      ApartAt(blocks, a, n);
    }
    forall c, d | c in blocks' && d in blocks' && c != d ensures Sep(c, blocks'[c], d, blocks'[d]) {
      var c0, d0 := if c == n then a else c, if d == n then a else d;
      if c0 != d0 {
        assert Sep(c0, blocks[c0], d0, blocks[d0]);
      }
    }
  }

  lemma BreakAll(tags: Tags, blocks: Blocks, slabs: seq<Slab>, a: Addr, newSize: nat)
    requires Apart(blocks) && BlocksOK(tags, blocks, slabs) && a in blocks && blocks[a].free
    requires newSize >= 24 && newSize % 8 == 0 && newSize + 8 + 24 <= blocks[a].size && a + newSize + 8 !in blocks
    requires a - 8 in tags && a + blocks[a].size in tags
    ensures BlocksOK(BreakTags(tags, a, blocks[a].size, newSize), BreakBlocks(blocks, a, newSize), slabs)
  {
    var tags', blocks' := BreakTags(tags, a, blocks[a].size, newSize), BreakBlocks(blocks, a, newSize);
    assert BlockOK(tags, blocks, slabs, a);
    BreakBoth(tags, blocks, slabs, a, newSize);
    forall c | c in blocks' ensures BlockOK(tags', blocks', slabs, c) {
      if c in blocks && c != a {
        assert BlockOK(tags, blocks, slabs, c) && Sep(a, blocks[a], c, blocks[c]);
        BreakOther(tags, blocks, slabs, a, newSize, c);
      }
    }
  }

  lemma BreakOther(tags: Tags, blocks: Blocks, slabs: seq<Slab>, a: Addr, newSize: nat, c: Addr)
    requires a in blocks && blocks[a].free && newSize >= 24 && newSize % 8 == 0 && newSize + 8 + 24 <= blocks[a].size
    requires c in blocks && c != a && Sep(a, blocks[a], c, blocks[c]) && a + newSize + 8 !in blocks
    requires BlockOK(tags, blocks, slabs, a) && BlockOK(tags, blocks, slabs, c)
    ensures BlockOK(BreakTags(tags, a, blocks[a].size, newSize), BreakBlocks(blocks, a, newSize), slabs, c)
  {
  }

  lemma BreakBoth(tags: Tags, blocks: Blocks, slabs: seq<Slab>, a: Addr, newSize: nat)
    requires a in blocks && blocks[a].free && newSize >= 24 && newSize % 8 == 0 && newSize + 8 + 24 <= blocks[a].size
    requires BlockOK(tags, blocks, slabs, a) && a + newSize + 8 !in blocks
    ensures BlockOK(BreakTags(tags, a, blocks[a].size, newSize), BreakBlocks(blocks, a, newSize), slabs, a)
    ensures BlockOK(BreakTags(tags, a, blocks[a].size, newSize), BreakBlocks(blocks, a, newSize), slabs,
                    a + newSize + 8)
  {
  }

  // ---------------------------------------------------------------- merging

  /** The tag writes of `merge_blocks`; the tag between the two blocks is left as it is. */
  function MergeTags(tags: Tags, f: Addr, l: Addr, sizeLast: nat, newSize: nat): Tags
    requires f - 8 in tags && l + sizeLast in tags
  {
    tags[f - 8 := Tag(tags[f - 8].before, newSize)][l + sizeLast := Tag(newSize, tags[l + sizeLast].after)]
  }

  function MergeBlocks(blocks: Blocks, f: Addr, l: Addr): Blocks
    requires f in blocks && l in blocks
  {
    (blocks - {l})[f := blocks[f].(size := blocks[f].size + blocks[l].size + 8)]
  }

  lemma Merge(tags: Tags, blocks: Blocks, slabs: seq<Slab>, f: Addr, l: Addr)
    requires Tiled(tags, blocks, slabs) && f in blocks && l in blocks && l == f + blocks[f].size + 8
    requires blocks[f].free && blocks[l].free && blocks[f].slab == blocks[l].slab
    ensures f - 8 in tags && l + blocks[l].size in tags
    ensures Tiled(MergeTags(tags, f, l, blocks[l].size, blocks[f].size + blocks[l].size + 8),
                  MergeBlocks(blocks, f, l), slabs)
  {
    assert BlockOK(tags, blocks, slabs, f) && BlockOK(tags, blocks, slabs, l);
    MergeApart(blocks, f, l);
    MergeSlabs(tags, blocks, slabs, f, l);
    MergeAll(tags, blocks, slabs, f, l);
  }

  lemma MergeApart(blocks: Blocks, f: Addr, l: Addr)
    requires Apart(blocks) && f in blocks && l in blocks && l == f + blocks[f].size + 8
    ensures Apart(MergeBlocks(blocks, f, l))
  {
    var blocks' := MergeBlocks(blocks, f, l);
    forall c, d | c in blocks' && d in blocks' && c != d ensures Sep(c, blocks'[c], d, blocks'[d]) {
      assert Sep(c, blocks[c], d, blocks[d]);
      assert Sep(l, blocks[l], d, blocks[d]);
      assert Sep(l, blocks[l], c, blocks[c]);
    }
  }

  lemma MergeSlabs(tags: Tags, blocks: Blocks, slabs: seq<Slab>, f: Addr, l: Addr)
    requires SlabsOK(blocks, slabs) && f in blocks && l in blocks && l == f + blocks[f].size + 8
    requires blocks[f].slab == blocks[l].slab && InSlab(slabs, f, blocks[f])
    ensures SlabsOK(MergeBlocks(blocks, f, l), slabs)
  {
    forall k | 0 <= k < |slabs| ensures slabs[k].addr + 8 != l {
      assert SlabOK(blocks, slabs, k);
    }
    SlabsKept(blocks, MergeBlocks(blocks, f, l), slabs);
  }

  lemma MergeAll(tags: Tags, blocks: Blocks, slabs: seq<Slab>, f: Addr, l: Addr)
    requires Apart(blocks) && BlocksOK(tags, blocks, slabs) && f in blocks && l in blocks && l == f + blocks[f].size + 8
    requires blocks[f].free && blocks[l].free && blocks[f].slab == blocks[l].slab
    requires f - 8 in tags && l + blocks[l].size in tags
    ensures BlocksOK(MergeTags(tags, f, l, blocks[l].size, blocks[f].size + blocks[l].size + 8),
                     MergeBlocks(blocks, f, l), slabs)
  {
    var tags' := MergeTags(tags, f, l, blocks[l].size, blocks[f].size + blocks[l].size + 8);
    var blocks' := MergeBlocks(blocks, f, l);
    forall c | c in blocks' ensures BlockOK(tags', blocks', slabs, c) {
      assert BlockOK(tags, blocks, slabs, f) && BlockOK(tags, blocks, slabs, l) && BlockOK(tags, blocks, slabs, c);
      assert c != f ==> Sep(f, blocks[f], c, blocks[c]);
      assert Sep(l, blocks[l], c, blocks[c]);
      MergeOne(tags, blocks, slabs, f, l, c);
    }
  }

  lemma MergeOne(tags: Tags, blocks: Blocks, slabs: seq<Slab>, f: Addr, l: Addr, c: Addr)
    requires f in blocks && l in blocks && l == f + blocks[f].size + 8
    requires blocks[f].free && blocks[l].free && blocks[f].slab == blocks[l].slab
    requires c in blocks && c != l && Sep(l, blocks[l], c, blocks[c]) && (c != f ==> Sep(f, blocks[f], c, blocks[c]))
    requires BlockOK(tags, blocks, slabs, f) && BlockOK(tags, blocks, slabs, l) && BlockOK(tags, blocks, slabs, c)
    ensures BlockOK(MergeTags(tags, f, l, blocks[l].size, blocks[f].size + blocks[l].size + 8),
                    MergeBlocks(blocks, f, l), slabs, c)
  {
  }

  // ---------------------------------------------------------------- a new slab

  /** The tag writes of `slab_to_entry`. */
  function SlabTags(tags: Tags, s: Slab): Tags
    requires s.size >= 16
  {
    var size := s.size - 16;
    tags[s.addr := Tag(0, size)][s.addr + s.size - 8 := Tag(size, 0)]
  }

  function WholeSlab(k: nat, s: Slab): Block
    requires s.size >= 16
  {
    Block(k, s.size - 16, true, 0)
  }

  lemma AddSlab(tags: Tags, blocks: Blocks, slabs: seq<Slab>, s: Slab)
    requires Tiled(tags, blocks, slabs) && 40 <= s.size <= SECTION && s.size % 8 == 0
    requires forall k :: 0 <= k < |slabs| ==> DisjointSlabs(slabs[k], s)
    ensures Tiled(SlabTags(tags, s), blocks[s.addr + 8 := WholeSlab(|slabs|, s)], slabs + [s])
    ensures s.addr + 8 !in blocks
  {
    var n, b := s.addr + 8, WholeSlab(|slabs|, s);
    forall c | c in blocks ensures c != n && Sep(c, blocks[c], n, b) {
      BesideSlab(tags, blocks, slabs, s, c);
    }
    AddApart(blocks, n, b);
    AddBlocks(tags, blocks, slabs, s);
    AddSlabs(blocks, slabs, s);
  }

  lemma AddSlabs(blocks: Blocks, slabs: seq<Slab>, s: Slab)
    requires SlabsOK(blocks, slabs) && 40 <= s.size <= SECTION && s.size % 8 == 0 && s.addr + 8 !in blocks
    requires forall k :: 0 <= k < |slabs| ==> DisjointSlabs(slabs[k], s)
    ensures SlabsOK(blocks[s.addr + 8 := WholeSlab(|slabs|, s)], slabs + [s])
  {
    var blocks', slabs' := blocks[s.addr + 8 := WholeSlab(|slabs|, s)], slabs + [s];
    forall k | 0 <= k < |slabs'| ensures SlabOK(blocks', slabs', k) {
      assert k < |slabs| ==> SlabOK(blocks, slabs, k);
    }
  }

  lemma AddApart(blocks: Blocks, n: Addr, b: Block)
    requires Apart(blocks) && forall c :: c in blocks ==> c != n && Sep(c, blocks[c], n, b)
    ensures Apart(blocks[n := b])
  {
    var blocks' := blocks[n := b];
    forall c, d | c in blocks' && d in blocks' && c != d ensures Sep(c, blocks'[c], d, blocks'[d]) {
      if c in blocks && d in blocks {
        assert Sep(c, blocks[c], d, blocks[d]);
      }
    }
  }

  lemma AddBlocks(tags: Tags, blocks: Blocks, slabs: seq<Slab>, s: Slab)
    requires BlocksOK(tags, blocks, slabs) && 40 <= s.size && s.size % 8 == 0 && s.addr + 8 !in blocks
    requires forall k :: 0 <= k < |slabs| ==> DisjointSlabs(slabs[k], s)
    ensures BlocksOK(SlabTags(tags, s), blocks[s.addr + 8 := WholeSlab(|slabs|, s)], slabs + [s])
  {
    var tags', blocks', slabs' := SlabTags(tags, s), blocks[s.addr + 8 := WholeSlab(|slabs|, s)], slabs + [s];
    forall c | c in blocks' ensures BlockOK(tags', blocks', slabs', c) {
      if c in blocks {
        BesideSlab(tags, blocks, slabs, s, c);
      }
    }
  }

  lemma BesideSlab(tags: Tags, blocks: Blocks, slabs: seq<Slab>, s: Slab, c: Addr)
    requires BlocksOK(tags, blocks, slabs) && c in blocks && 40 <= s.size
    requires forall k :: 0 <= k < |slabs| ==> DisjointSlabs(slabs[k], s)
    ensures BlockOK(tags, blocks, slabs, c) && s.addr + 8 != c
    ensures DisjointSlabs(slabs[blocks[c].slab], s) && Sep(c, blocks[c], s.addr + 8, WholeSlab(|slabs|, s))
    ensures s.addr + 8 !in blocks ==>
            BlockOK(SlabTags(tags, s), blocks[s.addr + 8 := WholeSlab(|slabs|, s)], slabs + [s], c)
  {
    assert BlockOK(tags, blocks, slabs, c);
    assert DisjointSlabs(slabs[blocks[c].slab], s);
  }
}
