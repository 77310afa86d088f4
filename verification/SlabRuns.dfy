/** Whole runs of the slab allocator: what a client was given stays where it is until the client gives
    it up, and what a reader may still use is retained. */
module SlabRuns {
  import opened Sections
  import opened SlabModel
  import opened SlabSteps
  import opened Translation
  import opened ReadOnlySpace
  import opened SlabAllocs

  /** A request, a release, the end of a transaction, growth of the file, or the end of versions. `addr`,
      `extended` and `added` are what the system provides. */
  datatype Op =
    | AllocOp(size: nat, addr: Addr)
    | FreeOp(ref: nat)
    | FreeFileOp(ref: nat, size: nat)
    | ResetOp
    | GrowOp(fileSize: nat, extended: bool, added: seq<Addr>)
    | PurgeOp(oldest: nat, youngest: nat)

  /** `Aborted` is a failed check of the allocator, `Skipped` an operation that its callers may not ask
      for in this state. */
  datatype Outcome = Done | Given(ref: nat, addr: Addr) | NoRoom | Aborted | Skipped

  /** What a client was given for a ref. */
  datatype Held = Held(addr: Addr, size: nat)

  function HeldAfter(held: map<nat, Held>, op: Op, o: Outcome): map<nat, Held> {
    if op.AllocOp? && o.Given? then held[o.ref := Held(o.addr, op.size)]
    else if op.FreeOp? && o.Done? then held - {op.ref}
    else if op.ResetOp? && o.Done? then map[]
    else held
  }

  // ---------------------------------------------------------------- what is held

  /** The ref is that of a block in use, of the right size. */
  ghost predicate HeldOK(blocks: Blocks, slabs: seq<Slab>, first: nat, ref: nat, h: Held) {
    && h.addr in Live(blocks) && Live(blocks)[h.addr].wanted == h.size && Live(blocks)[h.addr].slab < |slabs|
    && ref == RefOf(first, slabs, Live(blocks)[h.addr].slab, h.addr)
  }

  /** The blocks in use are exactly those that are held. */
  ghost predicate Serves(blocks: Blocks, slabs: seq<Slab>, first: nat, held: map<nat, Held>) {
    && (forall r :: r in held ==> HeldOK(blocks, slabs, first, r, held[r]))
    && (forall a :: a in Live(blocks) ==> exists r :: r in held && held[r].addr == a)
  }

  lemma ServesNothing(blocks: Blocks, slabs: seq<Slab>, first: nat, held: map<nat, Held>)
    requires Serves(blocks, slabs, first, held)
    ensures Live(blocks) == map[] <==> held == map[]
  {
    if held == map[] {
      assert forall a :: a !in Live(blocks);
    }
    if Live(blocks) == map[] {
      forall r ensures r !in held {
        if r in held {
          HeldInUse(blocks, slabs, first, held, r);
        }
      }
    }
  }

  lemma HeldInUse(blocks: Blocks, slabs: seq<Slab>, first: nat, held: map<nat, Held>, r: nat)
    requires Serves(blocks, slabs, first, held) && r in held
    ensures held[r].addr in Live(blocks)
  {
    assert HeldOK(blocks, slabs, first, r, held[r]);
  }

  /** Refs of blocks in use stay valid when a slab is added. */
  lemma ServesGiven(blocks: Blocks, slabs: seq<Slab>, blocks': Blocks, slabs': seq<Slab>, first: nat,
                    held: map<nat, Held>, ref: nat, h: Held)
    requires Serves(blocks, slabs, first, held) && slabs <= slabs' && ref !in held
    requires h.addr in blocks' && Live(blocks') == Live(blocks)[h.addr := blocks'[h.addr]]
    requires HeldOK(blocks', slabs', first, ref, h) && h.addr !in Live(blocks)
    ensures Serves(blocks', slabs', first, held[ref := h])
  {
    var held' := held[ref := h];
    forall r | r in held' ensures HeldOK(blocks', slabs', first, r, held'[r]) {
      if r != ref {
        assert HeldOK(blocks, slabs, first, r, held[r]);
      }
    }
    forall a | a in Live(blocks') ensures exists r :: r in held' && held'[r].addr == a {
      if a == h.addr {
        assert held'[ref].addr == a;
      } else {
        var r :| r in held && held[r].addr == a;
        assert held'[r].addr == a;
      }
    }
  }

  /** What `Serves` says of the refs, with more slabs. */
  lemma HeldStay(blocks: Blocks, slabs: seq<Slab>, slabs': seq<Slab>, first: nat, held: map<nat, Held>)
    requires Serves(blocks, slabs, first, held) && slabs <= slabs'
    ensures forall r :: r in held ==> held[r].addr in Live(blocks) && Live(blocks)[held[r].addr].slab < |slabs'|
    ensures forall r :: r in held ==> r == RefOf(first, slabs', Live(blocks)[held[r].addr].slab, held[r].addr)
  {
    forall r | r in held
      ensures && held[r].addr in Live(blocks) && Live(blocks)[held[r].addr].slab < |slabs'|
              && r == RefOf(first, slabs', Live(blocks)[held[r].addr].slab, held[r].addr)
    {
      assert HeldOK(blocks, slabs, first, r, held[r]);
    }
  }

  lemma ServesSame(blocks: Blocks, slabs: seq<Slab>, blocks': Blocks, slabs': seq<Slab>, first: nat,
                   held: map<nat, Held>)
    requires Serves(blocks, slabs, first, held) && slabs <= slabs' && Live(blocks') == Live(blocks)
    ensures Serves(blocks', slabs', first, held)
  {
    forall r | r in held ensures HeldOK(blocks', slabs', first, r, held[r]) {
      assert HeldOK(blocks, slabs, first, r, held[r]);
    }
  }

  lemma ServesFreed(blocks: Blocks, blocks': Blocks, slabs: seq<Slab>, first: nat, held: map<nat, Held>, ref: nat)
    requires Serves(blocks, slabs, first, held) && ref in held && Live(blocks') == Live(blocks) - {held[ref].addr}
    ensures Serves(blocks', slabs, first, held - {ref})
  {
    assert HeldOK(blocks, slabs, first, ref, held[ref]);
    forall r | r in held && r != ref ensures HeldOK(blocks', slabs, first, r, held[r]) {
      assert HeldOK(blocks, slabs, first, r, held[r]);
    }
    forall a | a in Live(blocks') ensures exists r :: r in held - {ref} && (held - {ref})[r].addr == a {
      var r :| r in held && held[r].addr == a;
      assert (held - {ref})[r].addr == a;
    }
  }

  // ---------------------------------------------------------------- what is retained

  /** Every table that was replaced at or after the oldest live version is retained. */
  ghost predicate Keeps(olds: seq<OldTable>, replaced: seq<OldTable>, oldest: nat) {
    forall t :: t in replaced && t.version >= oldest ==> t in olds
  }

  /** The table `t.entries` is no longer in use, `table'` is. */
  function Replacement(t: OldTable, table': seq<Addr>): seq<OldTable> {
    if t.entries == table' || t.entries == [] then [] else [t]
  }

  lemma KeepsMore(olds: seq<OldTable>, olds': seq<OldTable>, replaced: seq<OldTable>, oldest: nat, t: OldTable,
                  table': seq<Addr>)
    requires Keeps(olds, replaced, oldest) && olds <= olds'
    requires t.entries == table' || t.entries == [] || t in olds'
    ensures Keeps(olds', replaced + Replacement(t, table'), oldest)
  {
  }

  /** No recorded chunk of the file overlaps the bytes. */
  predicate Untouched(chunks: Chunks, ref: nat, size: nat) {
    forall q :: q in chunks ==> q + chunks[q] <= ref || ref + size <= q
  }

  lemma UntouchedFresh(chunks: Chunks, ref: nat, size: nat)
    requires Untouched(chunks, ref, size)
    ensures Fresh(chunks, ref, size)
  {
  }

  // ---------------------------------------------------------------- histories

  /** An outcome that an operation can have: only a request is answered by a ref, and by a new one. */
  predicate Happens(held: map<nat, Held>, op: Op, o: Outcome) {
    match o
    case Given(ref, _) => op.AllocOp? && ref !in held
    case NoRoom => op.AllocOp?
    case Aborted => op.AllocOp?
    case Done => !op.AllocOp?
    case Skipped => true
  }

  /** What is held after the operations had these outcomes. */
  ghost function HeldAtEnd(held: map<nat, Held>, ops: seq<Op>, outs: seq<Outcome>): map<nat, Held>
    requires |ops| == |outs|
    decreases |ops|
  {
    if ops == [] then held
    else
      var n := |ops| - 1;
      HeldAfter(HeldAtEnd(held, ops[..n], outs[..n]), ops[n], outs[n])
  }

  ghost predicate History(held: map<nat, Held>, ops: seq<Op>, outs: seq<Outcome>)
    decreases |ops|
  {
    |ops| == |outs| &&
    (ops == [] ||
     var n := |ops| - 1;
     History(held, ops[..n], outs[..n]) && Happens(HeldAtEnd(held, ops[..n], outs[..n]), ops[n], outs[n]))
  }

  lemma OneMoreOp(held: map<nat, Held>, ops: seq<Op>, outs: seq<Outcome>, o: Outcome)
    requires |outs| < |ops| && History(held, ops[..|outs|], outs)
    requires Happens(HeldAtEnd(held, ops[..|outs|], outs), ops[|outs|], o)
    ensures var n := |outs|;
            && History(held, ops[..n + 1], outs + [o])
            && HeldAtEnd(held, ops[..n + 1], outs + [o]) == HeldAfter(HeldAtEnd(held, ops[..n], outs), ops[n], o)
  {
    var n := |outs|;
    assert ops[..n + 1][..n] == ops[..n] && (outs + [o])[..n] == outs;
  }

  /** The ref is given up: released, or the transaction ends. */
  predicate GivenUp(op: Op, o: Outcome, ref: nat) {
    o.Done? && (op.ResetOp? || op == FreeOp(ref))
  }

  /** Operation `i` was answered by a ref that was not given up later. */
  ghost predicate StillHeld(ops: seq<Op>, outs: seq<Outcome>, i: nat)
    requires |ops| == |outs|
  {
    i < |ops| && outs[i].Given? && forall j :: i < j < |ops| ==> !GivenUp(ops[j], outs[j], outs[i].ref)
  }

  /** What was given for a ref is held until the ref is given up. */
  lemma {:induction false} HeldUntil(held: map<nat, Held>, ops: seq<Op>, outs: seq<Outcome>, i: nat)
    requires History(held, ops, outs) && StillHeld(ops, outs, i)
    ensures ops[i].AllocOp?
    ensures var h := HeldAtEnd(held, ops, outs);
            outs[i].ref in h && h[outs[i].ref] == Held(outs[i].addr, ops[i].size)
    decreases |ops|
  {
    var n := |ops| - 1;
    if i < n {
      HeldUntil(held, ops[..n], outs[..n], i);
      assert !GivenUp(ops[n], outs[n], outs[i].ref);
    }
  }

  class Client {
    const alloc: SlabAlloc
    var held: map<nat, Held>
    /** Every table that was ever replaced, and the oldest version still live. */
    ghost var replaced: seq<OldTable>
    ghost var oldest: nat

    ghost predicate Valid()
      reads this, alloc
    {
      && alloc.Valid() && Serves(alloc.blocks, alloc.slabs, FileSections(alloc.baseline), held)
      && Keeps(alloc.oldTables, replaced, oldest)
    }

    /** The table in use, as it would be retired. */
    ghost function InUse(): OldTable
      reads alloc
    {
      OldTable(alloc.youngest, |alloc.mappings|, alloc.table)
    }

    constructor (alloc: SlabAlloc)
      requires alloc.Valid() && Live(alloc.blocks) == map[]
      ensures Valid() && this.alloc == alloc && held == map[] && replaced == [] && oldest == 0
    {
      this.alloc, held, replaced, oldest := alloc, map[], [], 0;
    }

    // -------------------------------------------------------------- single operations

    /** A ref that is given out is not held already. */
    lemma NewRef(ref: nat, addr: Addr, live: Blocks)
      requires alloc.Valid() && addr in alloc.blocks && addr !in live
      requires Live(alloc.blocks) == live[addr := alloc.blocks[addr]]
      requires SectionIndex(ref) < |alloc.table| && Translate(alloc.table, ref) == addr
      requires forall r :: r in held ==> held[r].addr in live && live[held[r].addr].slab < |alloc.slabs|
      requires forall r :: r in held ==>
                 r == RefOf(FileSections(alloc.baseline), alloc.slabs, live[held[r].addr].slab, held[r].addr)
      ensures ref !in held
    {
      if ref in held {
        var a := held[ref].addr;
        assert a in Live(alloc.blocks);
        RefTranslates(alloc.table, alloc.mappings, alloc.tags, alloc.blocks, alloc.slabs,
                      FileSections(alloc.baseline), a);
      }
    }

    method Alloc(size: nat, addr: Addr) returns (o: Outcome)
      requires Valid() && alloc.FreshRegion(addr) && 0 < size < SECTION && size % 8 == 0
      modifies this`held, this`replaced, alloc
      ensures !o.Aborted? ==> Valid()
      ensures o.Given? || o.NoRoom? || o.Aborted?
      ensures held == HeldAfter(old(held), AllocOp(size, addr), o) && (o.Given? ==> o.ref !in old(held))
      ensures replaced == old(replaced) + Replacement(old(InUse()), alloc.table)
    {
      ghost var before := Area(alloc.blocks, alloc.slabs, alloc.table, alloc.oldTables);
      ghost var t := InUse();
      var r := alloc.Alloc(size, addr);
      Extended(before, t);
      replaced := replaced + Replacement(t, alloc.table);
      o := Note(r, size, before);
    }

    /** The client takes note of the answer. */
    method Note(r: AllocResult, size: nat, ghost before: Area) returns (o: Outcome)
      requires !r.SizeCheckFailed? && !r.RefCheckFailed? ==> alloc.Valid()
      requires r.Allocated? ==> alloc.Placed(before.blocks, size, r.ref, r.addr)
      requires r.MaximumFileSizeExceeded? ==> Live(alloc.blocks) == Live(before.blocks)
      requires before.slabs <= alloc.slabs && Keeps(alloc.oldTables, replaced, oldest)
      requires Serves(before.blocks, before.slabs, FileSections(alloc.baseline), held)
      modifies this`held
      ensures !o.Aborted? ==> Valid()
      ensures o == match r
                   case Allocated(ref, a) => Given(ref, a)
                   case MaximumFileSizeExceeded => NoRoom
                   case _ => Aborted
      ensures held == if o.Given? then old(held)[o.ref := Held(o.addr, size)] else old(held)
      ensures o.Given? ==> o.ref !in old(held)
    {
      match r
      case Allocated(ref, a) =>
        GivenServes(before, ref, a, size);
        held, o := held[ref := Held(a, size)], Given(ref, a);
      case MaximumFileSizeExceeded =>
        ServesSame(before.blocks, before.slabs, alloc.blocks, alloc.slabs, FileSections(alloc.baseline), held);
        o := NoRoom;
      case _ =>
        o := Aborted;
    }

    /** The slabs that were there stay, and a table that was replaced is retained. */
    lemma Extended(before: Area, t: OldTable)
      requires Keeps(before.olds, replaced, oldest) && t.entries == before.table
      requires Extends(before.slabs, before.table, before.olds, alloc.slabs, alloc.table, alloc.oldTables, t)
      ensures before.slabs <= alloc.slabs && Keeps(alloc.oldTables, replaced + Replacement(t, alloc.table), oldest)
    {
      KeepsMore(before.olds, alloc.oldTables, replaced, oldest, t, alloc.table);
    }

    lemma GivenServes(before: Area, ref: nat, a: Addr, size: nat)
      requires alloc.Valid() && before.slabs <= alloc.slabs && alloc.Placed(before.blocks, size, ref, a)
      requires Serves(before.blocks, before.slabs, FileSections(alloc.baseline), held)
      ensures ref !in held
      ensures Serves(alloc.blocks, alloc.slabs, FileSections(alloc.baseline), held[ref := Held(a, size)])
    {
      var first := FileSections(alloc.baseline);
      HeldStay(before.blocks, before.slabs, alloc.slabs, first, held);
      NewRef(ref, a, Live(before.blocks));
      assert a in Live(alloc.blocks) && Live(alloc.blocks)[a] == alloc.blocks[a];
      ServesGiven(before.blocks, before.slabs, alloc.blocks, alloc.slabs, first, held, ref, Held(a, size));
    }

    method Free(ref: nat)
      requires Valid() && ref in held
      modifies this`held, alloc
      ensures Valid() && held == HeldAfter(old(held), FreeOp(ref), Done) && alloc.table == old(alloc.table)
    {
      ghost var b0, first := alloc.blocks, FileSections(alloc.baseline);
      assert HeldOK(b0, alloc.slabs, first, ref, held[ref]);
      BehindFile(ref);
      alloc.Free(ref, held[ref].addr, held[ref].size);
      ServesFreed(b0, alloc.blocks, alloc.slabs, first, held, ref);
      held := held - {ref};
    }

    lemma BehindFile(ref: nat)
      requires Valid() && ref in held
      ensures ref >= alloc.baseline
    {
      assert HeldOK(alloc.blocks, alloc.slabs, FileSections(alloc.baseline), ref, held[ref]);
      RefTranslates(alloc.table, alloc.mappings, alloc.tags, alloc.blocks, alloc.slabs,
                    FileSections(alloc.baseline), held[ref].addr);
      Aligned(alloc.baseline);
    }

    method Reset()
      requires Valid()
      modifies this`held, alloc
      ensures Valid() && held == map[]
    {
      alloc.ResetFreeSpaceTracking();
      held := map[];
    }

    method Grow(fileSize: nat, extended: bool, added: seq<Addr>)
      requires Valid() && alloc.state.Clean? && fileSize % 8 == 0
      requires fileSize > alloc.baseline ==> |added| == FileSections(fileSize) - alloc.KeptMappings(extended)
      modifies this`replaced, alloc
      ensures Valid() && held == old(held)
      ensures replaced == old(replaced) + Replacement(old(InUse()), alloc.table)
    {
      ghost var olds, t := alloc.oldTables, InUse();
      ServesNothing(alloc.blocks, alloc.slabs, FileSections(alloc.baseline), held);
      alloc.UpdateReaderView(fileSize, extended, added);
      KeepsMore(olds, alloc.oldTables, replaced, oldest, t, alloc.table);
      replaced := replaced + Replacement(t, alloc.table);
    }

    method Purge(oldestLive: nat, youngestLive: nat)
      requires Valid() && alloc.youngest <= youngestLive
      modifies this`oldest, alloc
      ensures Valid() && alloc.table == old(alloc.table)
      ensures oldest == if oldestLive > old(oldest) then oldestLive else old(oldest)
    {
      alloc.PurgeOldMappings(oldestLive, youngestLive);
      oldest := if oldestLive > oldest then oldestLive else oldest;
    }

    // -------------------------------------------------------------- runs

    /** The operation may be asked for: what `do_alloc`, `do_free`, `update_reader_view` and
        `purge_old_mappings` demand of their callers. */
    predicate Applicable(op: Op)
      reads this, alloc
    {
      match op
      case AllocOp(size, addr) => 0 < size < SECTION && size % 8 == 0 && alloc.FreshRegion(addr)
      case FreeOp(ref) => ref in held
      case FreeFileOp(ref, size) => ref < alloc.baseline && size > 0 && Untouched(alloc.freeReadOnly, ref, size)
      case ResetOp => true
      case GrowOp(fileSize, extended, added) =>
        && alloc.state.Clean? && fileSize % 8 == 0
        && (fileSize > alloc.baseline ==> FileSections(fileSize) == |added| + alloc.KeptMappings(extended))
      case PurgeOp(_, youngest) => alloc.youngest <= youngest
    }

    /** One operation of a run. Refs are given out and given up as the outcome says, every table that goes
        out of use is recorded, and the rest stays. */
    method Perform(op: Op) returns (o: Outcome)
      requires Valid()
      modifies this, alloc
      ensures !o.Aborted? ==> Valid()
      ensures Happens(old(held), op, o) && held == HeldAfter(old(held), op, o)
      ensures o.Skipped? <==> !old(Applicable(op))
      ensures replaced == old(replaced) + if op.ResetOp? then [] else Replacement(old(InUse()), alloc.table)
      ensures oldest == if op.PurgeOp? && o.Done? && op.oldest > old(oldest) then op.oldest else old(oldest)
    {
      assert replaced + [] == replaced;
      if !Applicable(op) {
        return Skipped;
      }
      match op
      case AllocOp(size, addr) =>
        o := Alloc(size, addr);
      case FreeOp(ref) =>
        Free(ref);
        o := Done;
      case FreeFileOp(ref, size) =>
        FreeFile(ref, size);
        o := Done;
      case ResetOp =>
        Reset();
        o := Done;
      case GrowOp(fileSize, extended, added) =>
        Grow(fileSize, extended, added);
        o := Done;
      case PurgeOp(oldestLive, youngestLive) =>
        Purge(oldestLive, youngestLive);
        o := Done;
    }

    method FreeFile(ref: nat, size: nat)
      requires Valid() && ref < alloc.baseline && size > 0 && Untouched(alloc.freeReadOnly, ref, size)
      modifies alloc
      ensures Valid() && alloc.table == old(alloc.table)
    {
      UntouchedFresh(alloc.freeReadOnly, ref, size);
      alloc.Free(ref, 0, size);
    }

    /** Any sequence of operations, up to the first that aborts: every ref that was given out, and not given
        up since, translates to the address that was given out with it. */
    method Run(ops: seq<Op>) returns (outs: seq<Outcome>)
      requires Valid()
      modifies this, alloc
      ensures |outs| <= |ops| && History(old(held), ops[..|outs|], outs)
      ensures held == HeldAtEnd(old(held), ops[..|outs|], outs)
      ensures Aborted !in outs ==> |outs| == |ops| && Valid()
      ensures Aborted !in outs ==>
                forall i {:trigger StillHeld(ops, outs, i)} :: 0 <= i < |ops| && StillHeld(ops, outs, i) ==>
                  SectionIndex(outs[i].ref) < |alloc.table| && Translate(alloc.table, outs[i].ref) == outs[i].addr
      ensures old(replaced) <= replaced && old(oldest) <= oldest
    {
      outs := [];
      ghost var h0 := held;
      while |outs| < |ops|
        invariant |outs| <= |ops| && Aborted !in outs && Valid()
        invariant History(h0, ops[..|outs|], outs) && held == HeldAtEnd(h0, ops[..|outs|], outs)
        invariant old(replaced) <= replaced && old(oldest) <= oldest
      {
        var i := |outs|;
        var o := Perform(ops[i]);
        OneMoreOp(h0, ops, outs, o);
        outs := outs + [o];
        if o.Aborted? {
          return;
        }
      }
      assert ops[..|outs|] == ops;
      forall i | 0 <= i < |ops| && StillHeld(ops, outs, i)
        ensures SectionIndex(outs[i].ref) < |alloc.table| && Translate(alloc.table, outs[i].ref) == outs[i].addr
      {
        HeldUntil(h0, ops, outs, i);
        Translates(outs[i].ref);
      }
    }

    // -------------------------------------------------------------- what a valid state promises

    /** Every ref that is held translates to the address given with it, where the block is. */
    lemma Translates(ref: nat)
      requires Valid() && ref in held
      ensures SectionIndex(ref) < |alloc.table| && Translate(alloc.table, ref) == held[ref].addr
      ensures held[ref].addr in alloc.blocks && alloc.blocks[held[ref].addr].size >= held[ref].size
    {
      assert HeldOK(alloc.blocks, alloc.slabs, FileSections(alloc.baseline), ref, held[ref]);
      RefTranslates(alloc.table, alloc.mappings, alloc.tags, alloc.blocks, alloc.slabs,
                    FileSections(alloc.baseline), held[ref].addr);
    }

    /** What is held for two refs does not overlap. */
    lemma Disjoint(r: nat, q: nat)
      requires Valid() && r in held && q in held && r != q
      ensures held[r].addr + held[r].size <= held[q].addr || held[q].addr + held[q].size <= held[r].addr
    {
      Translates(r);
      Translates(q);
      assert HeldOK(alloc.blocks, alloc.slabs, FileSections(alloc.baseline), r, held[r]);
      assert HeldOK(alloc.blocks, alloc.slabs, FileSections(alloc.baseline), q, held[q]);
      ApartAt(alloc.blocks, held[r].addr, held[q].addr);
    }

    /** A replaced table that a live version may use is there, and so is every mapping it leads to. */
    lemma Usable(t: OldTable, i: nat)
      requires Valid() && t in replaced && t.version >= oldest && i < t.count
      ensures t in alloc.oldTables && i < |t.entries|
      ensures t.entries[i] in alloc.mappings || Retained(alloc.oldMappings, t.entries[i], t.version)
    {
      assert TableOK(t, alloc.oldMappings, alloc.mappings, alloc.youngest);
    }
  }
}
