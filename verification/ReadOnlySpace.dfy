/** Freed space in the read-only part of the file, kept as a map from ref to size, and the search
    for a position in a free chunk that crosses no section boundary. */
module ReadOnlySpace {
  import opened Sections

  type Chunks = map<nat, nat>

  datatype Chunk = Chunk(ref: nat, size: nat)

  predicate InChunk(ref: nat, size: nat, x: nat) {
    ref <= x < ref + size
  }

  /** Byte `x` is recorded as free. */
  ghost predicate Covered(chunks: Chunks, x: nat) {
    exists r :: r in chunks && InChunk(r, chunks[r], x)
  }

  /** Disjoint intervals that never touch. */
  ghost predicate Canonical(chunks: Chunks) {
    && (forall r :: r in chunks ==> chunks[r] > 0)
    && (forall r, q :: r in chunks && q in chunks && r < q ==> r + chunks[r] < q)
  }

  /** No byte of the chunk is recorded yet, as it is in use. */
  ghost predicate Fresh(chunks: Chunks, ref: nat, size: nat) {
    forall x :: InChunk(ref, size, x) ==> !Covered(chunks, x)
  }

  /** `lower_bound` of an ordered map. */
  method LowerBound(keys: set<nat>, x: nat) returns (found: bool, k: nat)
    ensures found ==> k in keys && x <= k && forall q :: q in keys && x <= q ==> k <= q
    ensures !found ==> forall q :: q in keys ==> q < x
  {
    found, k := false, 0;
    var rest := keys;
    while rest != {}
      invariant rest <= keys
      invariant found ==> k in keys && x <= k && forall q :: q in keys && q !in rest && x <= q ==> k <= q
      invariant !found ==> forall q :: q in keys && q !in rest ==> q < x
      decreases |rest|
    {
      var q :| q in rest;
      rest := rest - {q};
      if x <= q && (!found || q < k) {
        found, k := true, q;
      }
    }
  }

  /** The element before `lower_bound`. */
  method LastBefore(keys: set<nat>, x: nat) returns (found: bool, k: nat)
    ensures found ==> k in keys && k < x && forall q :: q in keys && q < x ==> q <= k
    ensures !found ==> forall q :: q in keys ==> x <= q
  {
    found, k := false, 0;
    var rest := keys;
    while rest != {}
      invariant rest <= keys
      invariant found ==> k in keys && k < x && forall q :: q in keys && q !in rest && q < x ==> q <= k
      invariant !found ==> forall q :: q in keys && q !in rest ==> x <= q
      decreases |rest|
    {
      var q :| q in rest;
      rest := rest - {q};
      if q < x && (!found || k < q) {
        found, k := true, q;
      }
    }
  }

  /** The read-only branch of `do_free`: the chunk is joined with the neighbours it touches. */
  method AddChunk(chunks: Chunks, ref: nat, size: nat) returns (r: Chunks)
    requires Canonical(chunks) && size > 0 && Fresh(chunks, ref, size)
    ensures Freed(chunks, Chunk(ref, size), r)
  {
    r := chunks;
    var sz := size;
    var found, next := LowerBound(chunks.Keys, ref);
    if found {
      NotInside(chunks, ref, size, next);
      if ref + size == next {
        sz := size + chunks[next];
        r := chunks - {next};
      }
    }
    var before, prev := LastBefore(r.Keys, ref);
    if before {
      NotInside(chunks, ref, size, prev);
    }
    if before && prev + r[prev] == ref {
      r := r[prev := r[prev] + sz];
      Joined(chunks, ref, size, r, prev);
    } else {
      forall q | q in chunks ensures q + chunks[q] != ref {
        assert q < ref ==> q in r && q <= prev;
      }
      r := r[ref := sz];
      Joined(chunks, ref, size, r, ref);
    }
  }

  /** `r` is canonical and records exactly the bytes of `chunks` and of `c`. */
  ghost predicate Freed(chunks: Chunks, c: Chunk, r: Chunks) {
    Canonical(r) && forall x: nat :: Covered(r, x) <==> Covered(chunks, x) || InChunk(c.ref, c.size, x)
  }

  /** A recorded chunk lies wholly before or wholly after a fresh one. */
  lemma NotInside(chunks: Chunks, ref: nat, size: nat, q: nat)
    requires Canonical(chunks) && q in chunks && size > 0 && Fresh(chunks, ref, size)
    ensures ref + size <= q || q + chunks[q] <= ref
  {
    if q < ref + size && ref < q + chunks[q] {
      var x := if ref <= q then q else ref;
      assert InChunk(q, chunks[q], x) && InChunk(ref, size, x);
    }
  }

  /** `r` replaces the chunk `[ref, e)` and the neighbours it touches by one chunk at `a`. */
  ghost predicate Replaces(chunks: Chunks, ref: nat, e: nat, r: Chunks, a: nat) {
    && a in r && (a == ref || (a in chunks && a + chunks[a] == ref))
    && (a == ref ==> forall q :: q in chunks ==> q + chunks[q] != ref)
    && r[a] == (if e in chunks then e + chunks[e] else e) - a
    && r.Keys == (chunks.Keys - {e}) + {a}
    && (forall q :: q in r && q != a ==> r[q] == chunks[q])
  }

  lemma Joined(chunks: Chunks, ref: nat, size: nat, r: Chunks, a: nat)
    requires Canonical(chunks) && size > 0 && Fresh(chunks, ref, size) && Replaces(chunks, ref, ref + size, r, a)
    ensures Freed(chunks, Chunk(ref, size), r)
  {
    forall q | q in chunks ensures ref + size <= q || q + chunks[q] <= ref {
      NotInside(chunks, ref, size, q);
    }
    JoinedCanonical(chunks, ref, size, r, a);
    JoinedCovers(chunks, ref, size, r, a);
  }

  lemma JoinedCanonical(chunks: Chunks, ref: nat, size: nat, r: Chunks, a: nat)
    requires Canonical(chunks) && size > 0 && Replaces(chunks, ref, ref + size, r, a)
    requires forall q :: q in chunks ==> ref + size <= q || q + chunks[q] <= ref
    ensures Canonical(r)
  {
  }

  lemma JoinedCovers(chunks: Chunks, ref: nat, size: nat, r: Chunks, a: nat)
    requires size > 0 && Replaces(chunks, ref, ref + size, r, a)
    requires forall q :: q in chunks ==> ref + size <= q || q + chunks[q] <= ref
    ensures forall x: nat :: Covered(r, x) <==> Covered(chunks, x) || InChunk(ref, size, x)
  {
    forall x: nat ensures Covered(r, x) <==> Covered(chunks, x) || InChunk(ref, size, x) {
      if Covered(r, x) {
        var q :| q in r && InChunk(q, r[q], x);
        JoinedOnly(chunks, ref, size, r, a, q, x);
      }
      if Covered(chunks, x) {
        var q :| q in chunks && InChunk(q, chunks[q], x);
        JoinedAll(chunks, ref, size, r, a, q, x);
      }
      if InChunk(ref, size, x) {
        Covers(r, a, x);
      }
    }
  }

  lemma JoinedOnly(chunks: Chunks, ref: nat, size: nat, r: Chunks, a: nat, q: nat, x: nat)
    requires Replaces(chunks, ref, ref + size, r, a) && q in r && InChunk(q, r[q], x)
    ensures Covered(chunks, x) || InChunk(ref, size, x)
  {
    if q != a {
      Covers(chunks, q, x);
    } else if x < ref {
      Covers(chunks, a, x);
    } else if ref + size <= x {
      Covers(chunks, ref + size, x);
    }
  }

  lemma JoinedAll(chunks: Chunks, ref: nat, size: nat, r: Chunks, a: nat, q: nat, x: nat)
    requires Replaces(chunks, ref, ref + size, r, a) && q in chunks && InChunk(q, chunks[q], x)
    requires ref + size <= q || q + chunks[q] <= ref
    ensures Covered(r, x)
  {
    Covers(r, if q == ref + size then a else q, x);
  }

  // ---------------------------------------------------------------- the order of frees does not matter

  /** A map of disjoint, never touching intervals is determined by the bytes it covers. */
  lemma CanonicalUnique(c: Chunks, d: Chunks)
    requires Canonical(c) && Canonical(d) && forall x: nat :: Covered(c, x) <==> Covered(d, x)
    ensures c == d
  {
    forall r | r in c ensures r in d && d[r] == c[r] {
      SameStart(c, d, r);
      SameEnd(c, d, r);
      SameEnd(d, c, r);
    }
    forall r | r in d ensures r in c {
      SameStart(d, c, r);
    }
    assert c.Keys == d.Keys;
  }

  lemma SameStart(c: Chunks, d: Chunks, r: nat)
    requires Canonical(c) && Canonical(d) && r in c && forall x: nat :: Covered(c, x) <==> Covered(d, x)
    ensures r in d
  {
    Covers(c, r, r);
    Gaps(c, r);
    var q :| q in d && InChunk(q, d[q], r);
    if q < r {
      CoversBefore(d, q, r);
    }
  }

  lemma CoversBefore(c: Chunks, q: nat, x: nat)
    requires q in c && InChunk(q, c[q], x) && q < x
    ensures Covered(c, x - 1)
  {
    Covers(c, q, x - 1);
  }

  lemma SameEnd(c: Chunks, d: Chunks, r: nat)
    requires Canonical(c) && Canonical(d) && r in c && r in d && forall x: nat :: Covered(c, x) <==> Covered(d, x)
    ensures c[r] <= d[r]
  {
    var x: nat := r + d[r];
    Gaps(d, r);
    if x < r + c[r] {
      Covers(c, r, x);
    }
  }

  lemma Covers(c: Chunks, r: nat, x: nat)
    requires r in c && InChunk(r, c[r], x)
    ensures Covered(c, x)
  {
  }

  /** The bytes next to a chunk are not covered. */
  lemma Gaps(c: Chunks, r: nat)
    requires Canonical(c) && r in c
    ensures (r > 0 ==> !Covered(c, r - 1)) && !Covered(c, r + c[r])
  {
  }

  /** `d` results from freeing the chunks of `frees` one after the other. */
  ghost predicate Run(c: Chunks, frees: seq<Chunk>, d: Chunks)
    decreases |frees|
  {
    if frees == [] then d == c
    else
      var init, last := frees[..|frees| - 1], frees[|frees| - 1];
      exists mid :: Run(c, init, mid) && Freed(mid, last, d)
  }

  ghost predicate FreedByte(frees: seq<Chunk>, x: nat) {
    exists f :: f in frees && InChunk(f.ref, f.size, x)
  }

  lemma {:induction false} RunCovers(c: Chunks, frees: seq<Chunk>, d: Chunks)
    requires Canonical(c) && Run(c, frees, d)
    ensures Canonical(d) && forall x: nat :: Covered(d, x) <==> Covered(c, x) || FreedByte(frees, x)
    decreases |frees|
  {
    if frees != [] {
      var init, last := frees[..|frees| - 1], frees[|frees| - 1];
      var mid :| Run(c, init, mid) && Freed(mid, last, d);
      RunCovers(c, init, mid);
      forall x: nat ensures FreedByte(frees, x) <==> FreedByte(init, x) || InChunk(last.ref, last.size, x) {
        assert frees == init + [last];
        if FreedByte(init, x) {
          var f :| f in init && InChunk(f.ref, f.size, x);
          assert f in frees;
        }
        assert last in frees;
      }
    }
  }

  /** The same chunks freed in any two orders leave the same map. */
  lemma OrderIrrelevant(c: Chunks, frees: seq<Chunk>, frees': seq<Chunk>, d: Chunks, d': Chunks)
    requires Canonical(c) && Run(c, frees, d) && Run(c, frees', d') && multiset(frees) == multiset(frees')
    ensures d == d'
  {
    RunCovers(c, frees, d);
    RunCovers(c, frees', d');
    forall x: nat ensures FreedByte(frees, x) <==> FreedByte(frees', x) {
      assert forall f :: f in frees <==> f in multiset(frees);
      assert forall f :: f in frees' <==> f in multiset(frees');
    }
    CanonicalUnique(d, d');
  }

  // ---------------------------------------------------------------- positions within one section

  /** `size` bytes from `pos` on lie in one section. */
  predicate InOneSection(pos: nat, size: nat) {
    pos + size <= UpperBoundary(pos)
  }

  /** The least position in the chunk at which the request crosses no section boundary, or 0. */
  method FindSectionInRange(startPos: nat, chunkSize: nat, size: nat) returns (pos: nat)
    ensures pos == 0 && startPos > 0 ==>
              forall q: nat :: startPos <= q && q + size <= startPos + chunkSize ==> !InOneSection(q, size)
    ensures pos != 0 ==> startPos <= pos && pos + size <= startPos + chunkSize && InOneSection(pos, size)
    ensures pos != 0 ==> forall q: nat :: startPos <= q < pos ==> !InOneSection(q, size)
  {
    var end := startPos + chunkSize;
    pos := startPos;
    while pos + size <= end
      invariant startPos <= pos && forall q: nat :: startPos <= q < pos ==> !InOneSection(q, size)
      decreases end - pos
    {
      var boundary := UpperBoundary(pos);
      if pos + size <= boundary {
        return;
      }
      forall q: nat | pos <= q < boundary ensures !InOneSection(q, size) {
        SameSection(pos, q);
      }
      pos := boundary;
    }
    pos := 0;
  }

  lemma SameSection(pos: nat, q: nat)
    requires pos <= q < UpperBoundary(pos)
    ensures UpperBoundary(q) == UpperBoundary(pos)
  {
    assert SectionIndex(q) == SectionIndex(pos);
  }
}
