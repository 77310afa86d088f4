/** The free lists of the slab allocator: for every size in use, a circular doubly linked list
    threaded through the free blocks of that size, found through a map from size to its head. */
module FreeLists {
  import opened SlabModel

  /** A `FreeBlock` as it lies in memory; a null pointer is 0. */
  datatype FreeBlock = FreeBlock(ref: nat, prev: Addr, next: Addr)

  type Links = map<Addr, FreeBlock>
  type Rings = map<nat, seq<Addr>>

  function Succ(i: nat, n: nat): nat
    requires i < n
  {
    if i + 1 == n then 0 else i + 1
  }

  ghost predicate LinkOK(links: Links, ring: seq<Addr>, i: nat)
    requires i < |ring|
  {
    && ring[i] in links && ring[Succ(i, |ring|)] in links
    && links[ring[i]].next == ring[Succ(i, |ring|)] && links[ring[Succ(i, |ring|)]].prev == ring[i]
  }

  ghost predicate Distinct(ring: seq<Addr>) {
    forall i, j :: 0 <= i < j < |ring| ==> ring[i] != ring[j]
  }

  /** The nodes of `ring`, and no others, are linked in a circle in this order. */
  ghost predicate Ring(links: Links, ring: seq<Addr>) {
    && ring != [] && Distinct(ring)
    && forall i {:trigger LinkOK(links, ring, i)} :: 0 <= i < |ring| ==> LinkOK(links, ring, i)
  }

  /** `FreeBlock::unlink`. */
  function Unlink(links: Links, e: Addr): Links
    requires e in links && links[e].next in links && links[e].prev in links
  {
    var next, prev := links[e].next, links[e].prev;
    var l1 := links[next := links[next].(prev := prev)];
    var l2 := l1[prev := l1[prev].(next := next)];
    l2[e := l2[e].(prev := 0, next := 0)]
  }

  /** Linking `e` in before the head `h` of a list. */
  function LinkBefore(links: Links, e: Addr, h: Addr): Links
    requires e in links && h in links && links[h].prev in links
  {
    var last := links[h].prev;
    var l1 := links[e := links[e].(next := h, prev := last)];
    var l2 := l1[last := l1[last].(next := e)];
    l2[h := l2[h].(prev := e)]
  }

  function Without(ring: seq<Addr>, i: nat): seq<Addr>
    requires i < |ring|
  {
    ring[..i] + ring[i + 1..]
  }

  lemma LinkAt(links: Links, ring: seq<Addr>, i: nat)
    requires Ring(links, ring) && i < |ring|
    ensures ring[i] in links && links[ring[i]].next == ring[Succ(i, |ring|)] && links[ring[i]].next in links
    ensures links[ring[i]].prev == ring[if i == 0 then |ring| - 1 else i - 1] && links[ring[i]].prev in links
  {
    var p := if i == 0 then |ring| - 1 else i - 1;
    assert LinkOK(links, ring, i) && LinkOK(links, ring, p);
  }

  lemma UnlinkRing(links: Links, ring: seq<Addr>, i: nat)
    requires Ring(links, ring) && i < |ring| && |ring| > 1
    ensures ring[i] in links && links[ring[i]].next in links && links[ring[i]].prev in links
    ensures Ring(Unlink(links, ring[i]), Without(ring, i))
  {
    LinkAt(links, ring, i);
    var links', ring' := Unlink(links, ring[i]), Without(ring, i);
    forall j | 0 <= j < |ring'| ensures LinkOK(links', ring', j) {
      var j0 := if j < i then j else j + 1;
      LinkAt(links, ring, j0);
      LinkAt(links, ring, Succ(j0, |ring|));
    }
  }

  lemma PushRing(links: Links, ring: seq<Addr>, e: Addr)
    requires Ring(links, ring) && e !in ring && e in links
    ensures ring[0] in links && links[ring[0]].prev in links
    ensures Ring(LinkBefore(links, e, ring[0]), [e] + ring)
  {
    LinkAt(links, ring, 0);
    var links', ring' := LinkBefore(links, e, ring[0]), [e] + ring;
    forall j | 0 <= j < |ring'| ensures LinkOK(links', ring', j) {
      if j > 0 {
        LinkAt(links, ring, j - 1);
        LinkAt(links, ring, Succ(j - 1, |ring|));
      }
    }
  }

  lemma RingFrame(links: Links, links': Links, ring: seq<Addr>)
    requires Ring(links, ring) && forall x :: x in ring && x in links ==> x in links' && links'[x] == links[x]
    ensures Ring(links', ring)
  {
    forall i | 0 <= i < |ring| ensures LinkOK(links', ring, i) {
      assert LinkOK(links, ring, i);
    }
  }

  // ---------------------------------------------------------------- all lists

  ghost predicate Listed(blocks: Blocks, out: set<Addr>, a: Addr) {
    a in blocks && blocks[a].free && a !in out
  }

  ghost predicate ListOK(blocks: Blocks, links: Links, head: Addr, ring: seq<Addr>, size: nat, out: set<Addr>) {
    && Ring(links, ring) && head == ring[0]
    && forall x :: x in ring ==> Listed(blocks, out, x) && blocks[x].size == size
  }

  /** The free blocks, except those in `out`, are exactly the nodes of the lists of their sizes. */
  ghost predicate Lists(blocks: Blocks, links: Links, blockMap: map<nat, Addr>, rings: Rings, out: set<Addr>) {
    && rings.Keys == blockMap.Keys
    && (forall s {:trigger rings[s]} :: s in rings ==> ListOK(blocks, links, blockMap[s], rings[s], s, out))
    && (forall a {:trigger Listed(blocks, out, a)} :: Listed(blocks, out, a) ==>
        blocks[a].size in rings && a in rings[blocks[a].size])
  }

  /** The head found under a size is a free block of that size. */
  lemma HeadListed(blocks: Blocks, links: Links, blockMap: map<nat, Addr>, rings: Rings, out: set<Addr>, size: nat)
    requires Lists(blocks, links, blockMap, rings, out) && size in blockMap
    ensures Listed(blocks, out, blockMap[size]) && blocks[blockMap[size]].size == size
  {
    assert ListOK(blocks, links, blockMap[size], rings[size], size, out);
  }

  /** What `remove_freelist_entry` and `pop_freelist_entry` do to the size map. */
  function UnmapHead(blockMap: map<nat, Addr>, size: nat, e: Addr, next: Addr): map<nat, Addr>
    requires size in blockMap
  {
    if blockMap[size] != e then blockMap else if next == e then blockMap - {size} else blockMap[size := next]
  }

  /** Removing any entry from its list leaves exact lists of the other free blocks. */
  lemma RemoveEntry(blocks: Blocks, links: Links, blockMap: map<nat, Addr>, rings: Rings, out: set<Addr>, e: Addr)
    returns (rings': Rings)
    requires Lists(blocks, links, blockMap, rings, out) && Listed(blocks, out, e)
    ensures e in links && links[e].next in links && links[e].prev in links && blocks[e].size in blockMap
    ensures Lists(blocks, Unlink(links, e), UnmapHead(blockMap, blocks[e].size, e, links[e].next), rings', out + {e})
  {
    var s := blocks[e].size;
    var ring := rings[s];
    assert ListOK(blocks, links, blockMap[s], ring, s, out);
    var i :| 0 <= i < |ring| && ring[i] == e;
    LinkAt(links, ring, i);
    var links', map' := Unlink(links, e), UnmapHead(blockMap, s, e, links[e].next);
    rings' := if |ring| == 1 then rings - {s} else rings[s := Without(ring, i)];
    HeadAfter(ring, i);
    if |ring| > 1 {
      UnlinkRing(links, ring, i);
      LessOne(blocks, links', ring, i, s, out, map'[s]);
    }
    forall t | t in rings' && t != s ensures ListOK(blocks, links', map'[t], rings'[t], t, out + {e}) {
      OtherList(blocks, links, links', ring, blockMap[t], rings[t], s, t, out, out + {e});
    }
    forall a | Listed(blocks, out + {e}, a) ensures blocks[a].size in rings' && a in rings'[blocks[a].size] {
      assert Listed(blocks, out, a);
      if blocks[a].size == s {
        StillIn(ring, i, a);
      }
    }
  }

  lemma HeadAfter(ring: seq<Addr>, i: nat)
    requires Distinct(ring) && i < |ring|
    ensures |ring| > 1 ==> (if ring[0] != ring[i] then ring[0] else ring[Succ(i, |ring|)]) == Without(ring, i)[0]
    ensures |ring| > 1 <==> ring[Succ(i, |ring|)] != ring[i]
  {
  }

  lemma LessOne(blocks: Blocks, links: Links, ring: seq<Addr>, i: nat, s: nat, out: set<Addr>, head: Addr)
    requires i < |ring| && |ring| > 1 && Distinct(ring) && Ring(links, Without(ring, i)) && head == Without(ring, i)[0]
    requires forall x :: x in ring ==> Listed(blocks, out, x) && blocks[x].size == s
    ensures ListOK(blocks, links, head, Without(ring, i), s, out + {ring[i]})
  {
    forall x | x in Without(ring, i) ensures Listed(blocks, out + {ring[i]}, x) && blocks[x].size == s {
      assert x in ring && x != ring[i];
    }
  }

  lemma StillIn(ring: seq<Addr>, i: nat, a: Addr)
    requires i < |ring| && a in ring && a != ring[i]
    ensures a in Without(ring, i) && |ring| > 1
  {
    var j :| 0 <= j < |ring| && ring[j] == a;
    assert Without(ring, i)[if j < i then j else j - 1] == a;
  }

  /** Lists of other sizes are untouched when only nodes of `ring`, and nodes in `out'`, change. */
  lemma OtherList(blocks: Blocks, links: Links, links': Links, ring: seq<Addr>, head: Addr, other: seq<Addr>,
                  s: nat, t: nat, out: set<Addr>, out': set<Addr>)
    requires ListOK(blocks, links, head, other, t, out) && s != t
    requires forall x :: x in ring ==> x in blocks && blocks[x].size == s
    requires forall x :: x in links && x !in ring && x !in out ==> x in links' && links'[x] == links[x]
    requires forall x :: x in out' ==> x in out || x in ring
    ensures ListOK(blocks, links', head, other, t, out')
  {
    forall x | x in other ensures x !in ring && x !in out && x !in out' && Listed(blocks, out', x) &&
      blocks[x].size == t {
      assert Listed(blocks, out, x);
    }
    RingFrame(links, links', other);
  }

  /** What `push_freelist_entry` does to the size map and the links. */
  function PushMap(blockMap: map<nat, Addr>, size: nat, e: Addr): map<nat, Addr> {
    blockMap[size := e]
  }

  ghost function PushLinks(blockMap: map<nat, Addr>, links: Links, size: nat, e: Addr): Links
    requires e in links && (size in blockMap ==> blockMap[size] in links && links[blockMap[size]].prev in links)
  {
    if size in blockMap then LinkBefore(links, e, blockMap[size]) else links[e := links[e].(next := e, prev := e)]
  }

  lemma PushEntry(blocks: Blocks, links: Links, blockMap: map<nat, Addr>, rings: Rings, out: set<Addr>, e: Addr)
    returns (rings': Rings)
    requires Lists(blocks, links, blockMap, rings, out) && e in blocks && blocks[e].free && e in out && e in links
    ensures blocks[e].size in blockMap ==>
              blockMap[blocks[e].size] in links &&
              links[blockMap[blocks[e].size]].prev in links
    ensures Lists(blocks, PushLinks(blockMap, links, blocks[e].size, e), PushMap(blockMap, blocks[e].size, e), rings',
                  out - {e})
  {
    var s, map' := blocks[e].size, PushMap(blockMap, blocks[e].size, e);
    var ring := if s in rings then rings[s] else [];
    if s in rings {
      assert ListOK(blocks, links, blockMap[s], ring, s, out);
      assert forall x :: x in ring ==> x !in out;
      PushRing(links, ring, e);
      LinkAt(links, ring, 0);
    }
    var links' := PushLinks(blockMap, links, s, e);
    rings' := rings[s := [e] + ring];
    if s !in rings {
      assert LinkOK(links', [e], 0);
    }
    assert ListOK(blocks, links', e, [e] + ring, s, out - {e}) by {
      forall x | x in [e] + ring ensures Listed(blocks, out - {e}, x) && blocks[x].size == s {
        assert x == e || x in ring;
      }
    }
    forall t | t in rings' && t != s ensures ListOK(blocks, links', map'[t], rings'[t], t, out - {e}) {
      OtherList(blocks, links, links', ring, blockMap[t], rings[t], s, t, out, out - {e});
    }
    forall a | Listed(blocks, out - {e}, a) ensures blocks[a].size in rings' && a in rings'[blocks[a].size] {
      assert a != e ==> Listed(blocks, out, a);
    }
  }

  /** Blocks outside the lists may change freely. */
  lemma ChangeOut(blocks: Blocks, blocks': Blocks, links: Links, links': Links, blockMap: map<nat, Addr>,
                  rings: Rings, out: set<Addr>, out': set<Addr>)
    requires Lists(blocks, links, blockMap, rings, out)
    requires forall a :: Listed(blocks, out, a) ==> Listed(blocks', out', a) && blocks'[a] == blocks[a]
    requires forall a :: Listed(blocks', out', a) ==> Listed(blocks, out, a)
    requires forall a :: Listed(blocks, out, a) && a in links ==> a in links' && links'[a] == links[a]
    ensures Lists(blocks', links', blockMap, rings, out')
  {
    forall s | s in rings ensures ListOK(blocks', links', blockMap[s], rings[s], s, out') {
      assert ListOK(blocks, links, blockMap[s], rings[s], s, out);
      RingFrame(links, links', rings[s]);
    }
  }
}
