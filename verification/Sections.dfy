/** Ref space is divided into sections of 64 MB; the slabs follow the sections of the file. */
module Sections {
  const SECTION: nat := 0x400_0000

  function SectionIndex(pos: nat): nat {
    pos / SECTION
  }

  function SectionBase(index: nat): nat {
    index * SECTION
  }

  function UpperBoundary(pos: nat): nat {
    SectionBase(1 + SectionIndex(pos))
  }

  predicate MatchesBoundary(pos: nat) {
    pos == SectionBase(SectionIndex(pos))
  }

  function AlignToSection(size: nat): nat {
    if MatchesBoundary(size) then size else UpperBoundary(size)
  }

  /** The number of sections the file occupies, which is the section of the first slab. */
  function FileSections(baseline: nat): nat {
    SectionIndex(AlignToSection(baseline))
  }

  lemma DivUnique(q: nat, r: nat)
    requires r < SECTION
    ensures (q * SECTION + r) / SECTION == q && (q * SECTION + r) % SECTION == r
  {
  }

  lemma Aligned(pos: nat)
    ensures AlignToSection(pos) == FileSections(pos) * SECTION
    ensures pos <= AlignToSection(pos) < pos + SECTION
  {
    DivUnique(SectionIndex(pos), 0);
    DivUnique(SectionIndex(pos) + 1, 0);
  }

  /** The slab after one that starts section `q` starts the next section. */
  lemma NextSection(q: nat, size: nat)
    requires 0 < size <= SECTION
    ensures AlignToSection(q * SECTION + size) == (q + 1) * SECTION
  {
    if size == SECTION {
      DivUnique(q + 1, 0);
    } else {
      DivUnique(q, size);
    }
  }

  lemma SectionsMonotone(a: nat, b: nat)
    requires a <= b
    ensures FileSections(a) <= FileSections(b)
  {
    Aligned(a);
    Aligned(b);
  }
}
