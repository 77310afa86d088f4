/** Refs and sections: the translation table that leads from a ref to an address, and the old
    tables and mappings that are retained for readers of older versions. */
module Translation {
  import opened Sections
  import opened SlabModel
  import opened SlabSteps

  datatype OldMapping = OldMapping(version: nat, addr: Addr)

  /** A replaced table; its first `count` entries belong to file sections. */
  datatype OldTable = OldTable(version: nat, count: nat, entries: seq<Addr>)

  // ---------------------------------------------------------------- the table

  ghost predicate Layout(table: seq<Addr>, mappings: seq<Addr>, slabs: seq<Slab>, first: nat) {
    && |mappings| == first && table == mappings + Bases(slabs)
    && forall k :: 0 <= k < |slabs| ==> slabs[k].refEnd == (first + k) * SECTION + slabs[k].size
  }

  function Bases(slabs: seq<Slab>): (r: seq<Addr>)
    ensures |r| == |slabs| && forall k :: 0 <= k < |slabs| ==> r[k] == slabs[k].addr
  {
    seq(|slabs|, k requires 0 <= k < |slabs| => slabs[k].addr)
  }

  /** `translate` for refs that need no cross-over mapping, as all refs of slabs. */
  function Translate(table: seq<Addr>, ref: nat): Addr
    requires SectionIndex(ref) < |table|
  {
    table[SectionIndex(ref)] + (ref - SectionBase(SectionIndex(ref)))
  }

  /** A block's ref lies in the section of its slab and translates to the block's address. */
  lemma RefTranslates(table: seq<Addr>, mappings: seq<Addr>, tags: Tags, blocks: Blocks, slabs: seq<Slab>, first: nat,
                      a: Addr)
    requires Layout(table, mappings, slabs, first) && Tiled(tags, blocks, slabs) && a in blocks
    ensures blocks[a].slab < |slabs|
    ensures var ref := RefOf(first, slabs, blocks[a].slab, a);
            && ref >= first * SECTION && SectionIndex(ref) == first + blocks[a].slab < |table|
            && ref + blocks[a].size < slabs[blocks[a].slab].refEnd
            && Translate(table, ref) == a
  {
    assert BlockOK(tags, blocks, slabs, a);
    var k := blocks[a].slab;
    assert SlabOK(blocks, slabs, k);
    DivUnique(first + k, a - slabs[k].addr);
    assert (first + k) * SECTION == first * SECTION + k * SECTION;
  }

  /** Where `grow_slab` places the next slab: at the start of the section after the last one. */
  lemma NextSlabRef(table: seq<Addr>, mappings: seq<Addr>, blocks: Blocks, slabs: seq<Slab>, baseline: nat)
    requires Layout(table, mappings, slabs, FileSections(baseline)) && SlabsOK(blocks, slabs)
    ensures AlignToSection(if slabs == [] then baseline else slabs[|slabs| - 1].refEnd)
            == SectionBase(FileSections(baseline) + |slabs|)
  {
    Aligned(baseline);
    if slabs != [] {
      var k := |slabs| - 1;
      assert SlabOK(blocks, slabs, k);
      NextSection(FileSections(baseline) + k, slabs[k].size);
    }
  }

  // ---------------------------------------------------------------- retained tables and mappings

  ghost predicate Retained(oldMappings: seq<OldMapping>, addr: Addr, version: nat) {
    exists o :: o in oldMappings && o.addr == addr && o.version >= version
  }

  ghost predicate TableOK(t: OldTable, oldMappings: seq<OldMapping>, mappings: seq<Addr>, youngest: nat) {
    && t.version <= youngest && t.count <= |t.entries|
    && forall i {:trigger t.entries[i]} :: 0 <= i < t.count ==>
       t.entries[i] in mappings || Retained(oldMappings, t.entries[i], t.version)
  }

  /** Every file entry of a retained table points to a mapping that is current, or is retained for
      at least as long as the table. */
  ghost predicate Reclaimable(oldTables: seq<OldTable>, oldMappings: seq<OldMapping>, mappings: seq<Addr>,
                              youngest: nat) {
    && (forall t {:trigger TableOK(t, oldMappings, mappings, youngest)} :: t in oldTables ==>
        TableOK(t, oldMappings, mappings, youngest))
    && (forall o :: o in oldMappings ==> o.version <= youngest)
  }

  /** The mapping that is replaced when only `kept` mappings stay: the last one, or none. */
  function Replaced(mappings: seq<Addr>, kept: nat, youngest: nat): seq<OldMapping> {
    if kept < |mappings| then [OldMapping(youngest, mappings[kept])] else []
  }

  /** The table that is retired, if it is replaced and there is one. */
  function Retired(replaced: bool, t: OldTable): seq<OldTable> {
    if replaced && t.entries != [] then [t] else []
  }

  /** The slabs are the same, possibly elsewhere in ref space. */
  ghost predicate SameSlabs(slabs: seq<Slab>, slabs': seq<Slab>) {
    |slabs'| == |slabs| && forall k :: 0 <= k < |slabs| ==> slabs'[k] == slabs[k].(refEnd := slabs'[k].refEnd)
  }

  /** A table that mirrors the current mappings is replaced. */
  lemma RetireTable(oldTables: seq<OldTable>, oldMappings: seq<OldMapping>, mappings: seq<Addr>, youngest: nat,
                    t: OldTable)
    requires Reclaimable(oldTables, oldMappings, mappings, youngest) && TableOK(t, oldMappings, mappings, youngest)
    ensures Reclaimable(oldTables + [t], oldMappings, mappings, youngest)
  {
  }

  /** The last mapping is replaced: tables that use it are older than its stamp. */
  lemma RetireMapping(oldTables: seq<OldTable>, oldMappings: seq<OldMapping>, mappings: seq<Addr>, youngest: nat)
    requires Reclaimable(oldTables, oldMappings, mappings, youngest) && mappings != []
    ensures var n := |mappings| - 1;
            Reclaimable(oldTables, oldMappings + [OldMapping(youngest, mappings[n])], mappings[..n], youngest)
  {
    var n := |mappings| - 1;
    forall t | t in oldTables ensures TableOK(t, oldMappings + [OldMapping(youngest, mappings[n])], mappings[..n],
                                              youngest) {
      assert TableOK(t, oldMappings, mappings, youngest);
      MappingRetired(t, oldMappings, mappings, youngest);
    }
  }

  lemma MappingRetired(t: OldTable, oldMappings: seq<OldMapping>, mappings: seq<Addr>, youngest: nat)
    requires mappings != [] && TableOK(t, oldMappings, mappings, youngest)
    ensures var n := |mappings| - 1;
            TableOK(t, oldMappings + [OldMapping(youngest, mappings[n])], mappings[..n], youngest)
  {
    var n := |mappings| - 1;
    var olds := oldMappings + [OldMapping(youngest, mappings[n])];
    forall i | 0 <= i < t.count ensures t.entries[i] in mappings[..n] || Retained(olds, t.entries[i], t.version) {
      var x := t.entries[i];
      if Retained(oldMappings, x, t.version) {
        var o :| o in oldMappings && o.addr == x && o.version >= t.version;
        assert o in olds;
      } else if x !in mappings[..n] {
        assert mappings == mappings[..n] + [mappings[n]];
        assert olds[|oldMappings|] in olds;
      }
    }
  }

  lemma MoreMappings(oldTables: seq<OldTable>, oldMappings: seq<OldMapping>, mappings: seq<Addr>, added: seq<Addr>,
                     youngest: nat)
    requires Reclaimable(oldTables, oldMappings, mappings, youngest)
    ensures Reclaimable(oldTables, oldMappings, mappings + added, youngest)
  {
    forall t | t in oldTables ensures TableOK(t, oldMappings, mappings + added, youngest) {
      assert TableOK(t, oldMappings, mappings, youngest);
    }
  }

  lemma DropTable(oldTables: seq<OldTable>, t: OldTable, oldMappings: seq<OldMapping>, mappings: seq<Addr>,
                  youngest: nat)
    requires Reclaimable(oldTables + [t], oldMappings, mappings, youngest)
    ensures Reclaimable(oldTables, oldMappings, mappings, youngest) && TableOK(t, oldMappings, mappings, youngest)
  {
    assert (oldTables + [t])[|oldTables|] == t;
    forall u | u in oldTables ensures TableOK(u, oldMappings, mappings, youngest) {
      assert u in oldTables + [t];
    }
  }

  /** The file grew: the last mapping was possibly replaced, and mappings were added. The table
      `t` in use so far may be retired afterwards as well as before. */
  lemma FileGrew(oldTables: seq<OldTable>, oldMappings: seq<OldMapping>, mappings: seq<Addr>, youngest: nat,
                 t: OldTable, replace: bool, added: seq<Addr>)
    requires Reclaimable(oldTables, oldMappings, mappings, youngest) && TableOK(t, oldMappings, mappings, youngest)
    requires replace ==> mappings != []
    ensures var olds := if replace then oldMappings + [OldMapping(youngest, mappings[|mappings| - 1])] else oldMappings;
            var kept := if replace then mappings[..|mappings| - 1] else mappings;
            Reclaimable(oldTables, olds, kept + added, youngest) && TableOK(t, olds, kept + added, youngest)
  {
    RetireTable(oldTables, oldMappings, mappings, youngest, t);
    var olds := if replace then oldMappings + [OldMapping(youngest, mappings[|mappings| - 1])] else oldMappings;
    var kept := if replace then mappings[..|mappings| - 1] else mappings;
    if replace {
      RetireMapping(oldTables + [t], oldMappings, mappings, youngest);
    }
    MoreMappings(oldTables + [t], olds, kept, added, youngest);
    DropTable(oldTables, t, olds, kept + added, youngest);
  }

  // ---------------------------------------------------------------- purging

  /** What `purge_old_mappings` retains. */
  function KeepMappings(olds: seq<OldMapping>, oldest: nat): (r: seq<OldMapping>)
    ensures forall o :: o in r <==> o in olds && o.version >= oldest
  {
    if olds == [] then []
    else if olds[0].version < oldest then KeepMappings(olds[1..], oldest)
    else [olds[0]] + KeepMappings(olds[1..], oldest)
  }

  function KeepTables(olds: seq<OldTable>, oldest: nat): (r: seq<OldTable>)
    ensures forall t :: t in r <==> t in olds && t.version >= oldest
  {
    if olds == [] then []
    else if olds[0].version < oldest then KeepTables(olds[1..], oldest)
    else [olds[0]] + KeepTables(olds[1..], oldest)
  }

  /** Purging never takes a mapping from under a table that is retained. */
  lemma PurgeSafe(oldTables: seq<OldTable>, oldMappings: seq<OldMapping>, mappings: seq<Addr>, youngest: nat,
                  oldest: nat, youngest': nat)
    requires Reclaimable(oldTables, oldMappings, mappings, youngest) && youngest <= youngest'
    ensures Reclaimable(KeepTables(oldTables, oldest), KeepMappings(oldMappings, oldest), mappings, youngest')
  {
    var olds := KeepMappings(oldMappings, oldest);
    forall t | t in KeepTables(oldTables, oldest) ensures TableOK(t, olds, mappings, youngest') {
      assert TableOK(t, oldMappings, mappings, youngest);
      forall i | 0 <= i < t.count && t.entries[i] !in mappings ensures Retained(olds, t.entries[i], t.version) {
        var o :| o in oldMappings && o.addr == t.entries[i] && o.version >= t.version;
        assert o in olds;
      }
    }
  }
}
