/** The B+-tree itself: nodes in memory are updated in place, the root ref is replaced when the
    tree grows or shrinks, and one leaf is cached together with the index range it covers. */
module BPlusTrees {
  import opened TreeModel
  import opened TreeMemory
  import opened TreeSteps
  import opened Words

  /** First index whose offset exceeds `n` (`ArrayUnsigned::upper_bound`). */
  method UpperBound(offsets: seq<nat>, n: nat) returns (i: nat)
    requires forall a, b :: 0 <= a <= b < |offsets| ==> offsets[a] <= offsets[b]
    ensures i <= |offsets|
    ensures forall j :: 0 <= j < i ==> offsets[j] <= n
    ensures forall j :: i <= j < |offsets| ==> n < offsets[j]
  {
    var low, high := 0, |offsets|;
    while low < high
      invariant 0 <= low <= high <= |offsets|
      invariant forall j :: 0 <= j < low ==> offsets[j] <= n
      invariant forall j :: high <= j < |offsets| ==> n < offsets[j]
    {
      var mid := (low + high) / 2;
      if n < offsets[mid] {
        high := mid;
      } else {
        low := mid + 1;
      }
    }
    i := low;
  }

  /** `ArrayUnsigned::adjust(begin, end, diff)` up to the end of the array. */
  method Adjust(offsets: seq<nat>, from: nat, d: int) returns (r: seq<nat>)
    requires forall j :: from <= j < |offsets| ==> offsets[j] + d >= 0
    ensures r == AdjustFrom(offsets, from, d)
  {
    r := offsets;
    var i := from;
    while i < |offsets|
      invariant from <= i && |r| == |offsets|
      invariant forall j :: 0 <= j < |r| ==> r[j] == if from <= j < i then offsets[j] + d else offsets[j]
    {
      r := r[i := r[i] + d];
      i := i + 1;
    }
  }

  method InsertOffset(offsets: seq<nat>, i: nat, splitOffset: nat) returns (r: seq<nat>)
    requires i <= |offsets|
    ensures r == WithSibling(offsets, i, splitOffset)
  {
    r := offsets[..i] + [ChildStart(offsets, i) + splitOffset] + offsets[i..];
    r := Adjust(r, i + 1, 1);
  }

  /** Where the last child starts, and the form of the node that takes over from it. */
  method LastStart<T>(form: Form, i: nat, ghost kids: seq<Node<T>>) returns (start: nat, form': Form)
    requires i < |kids| && (form.General? ==> OffsetsOK(form.offsets, kids)) &&
             (form.Compact? ==> CompactOK(form.elemsPerChild, kids))
    ensures start == Off(kids, i) && form' == if form.General? then General([]) else form
  {
    if form.General? {
      start, form' := ChildStart(form.offsets, i), General([]);
    } else {
      start, form' := i * form.elemsPerChild, form;
      CompactOff(form.elemsPerChild, kids, i);
    }
  }

  /** The offsets that a compact node implies. */
  method Multiples(per: nat, num: nat) returns (offsets: seq<nat>)
    ensures |offsets| == num && forall i :: 0 <= i < num ==> offsets[i] == (i + 1) * per
  {
    offsets := [];
    var offs := 0;
    while |offsets| < num
      invariant |offsets| <= num && offs == |offsets| * per
      invariant forall i :: 0 <= i < |offsets| ==> offsets[i] == (i + 1) * per
    {
      offs := offs + per;
      offsets := offsets + [offs];
    }
  }

  /** The search of one leaf, which starts at index `start` of the tree. */
  method LeafFind<T(==)>(elems: seq<T>, value: T, start: nat) returns (n: nat)
    requires start + |elems| < NPOS
    ensures FirstAt(elems, value, start, n)
  {
    var i := 0;
    while i < |elems|
      invariant i <= |elems| && value !in elems[..i]
    {
      if elems[i] == value {
        return i + start;
      }
      i := i + 1;
    }
    n := NPOS;
  }

  lemma OffsetsSorted<T>(offsets: seq<nat>, kids: seq<Node<T>>)
    requires OffsetsOK(offsets, kids)
    ensures forall a, b :: 0 <= a <= b < |offsets| ==> offsets[a] <= offsets[b]
  {
    forall a, b | 0 <= a <= b < |offsets| ensures offsets[a] <= offsets[b] {
      OffMonotone(kids, a + 1, b + 1);
    }
  }

  lemma RangeStep<T>(s: seq<T>, out: seq<T>, n: nat, pos: nat, elems: seq<T>, k: nat, c: nat)
    requires n <= pos && k <= pos && k + c <= |elems| && pos - k + |elems| <= |s|
    requires out == s[n..pos] && elems == s[pos - k..pos - k + |elems|]
    ensures out + elems[k..k + c] == s[n..pos + c]
  {
    var x, y := elems[k..k + c], s[pos..pos + c];
    forall j | 0 <= j < c ensures x[j] == y[j] {
      assert elems[k + j] == s[pos - k + (k + j)];
    }
    assert x == y;
  }

  lemma NodesBefore(i: nat, groups: nat, max: NodeMax, per: nat, group: nat)
    requires i == groups * max && group == max * per
    ensures i * per == groups * group
  {
  }

  class BPlusTree<T(==)> {
    const max: NodeMax
    var mem: Mem<T>
    var nextRef: Ref
    var root: Ref
    var size: nat
    var cachedLeaf: Ref
    var cachedBegin: nat
    var cachedEnd: nat
    ghost var height: nat

    /** Allocated refs are non-zero and below the next ref to hand out. */
    ghost predicate RefsOK()
      reads this`mem, this`nextRef
    {
      0 < nextRef && forall r :: r in mem ==> 0 < r < nextRef
    }

    ghost predicate CacheIn(r: Ref, h: nat, start: nat)
      reads this`mem, this`cachedLeaf, this`cachedBegin, this`cachedEnd
    {
      Cached(mem, r, h, start, cachedLeaf, cachedBegin, cachedEnd)
    }

    // -------------------------------------------------------------- cache bounds

    method InvalidateLeafCache()
      modifies this`cachedBegin, this`cachedEnd
      ensures cachedBegin == NPOS && cachedEnd == NPOS
    {
      cachedBegin := NPOS;
      cachedEnd := NPOS;
    }

    predicate InCachedLeaf(n: nat)
      reads this`cachedBegin, this`cachedEnd
    {
      cachedBegin <= n < cachedEnd
    }

    /** `adjust_leaf_bounds`, modulo 2^64: an invalid cache stays invalid for every index, and a valid
        one keeps the exact range of its leaf, which had `len` elements. */
    method AdjustLeafBounds(incr: int, ghost len: nat)
      modifies this`cachedEnd
      ensures cachedBegin == NPOS ==> forall n: nat :: n < NPOS ==> !InCachedLeaf(n)
      ensures old(cachedEnd) == cachedBegin + len && len + incr >= 0 && cachedBegin + len + incr < WORD ==>
                cachedEnd == cachedBegin + len + incr
    {
      cachedEnd := (cachedEnd + incr) % WORD;
    }

    method CacheLeaf(leaf: Ref, offset: nat)
      requires leaf in mem && mem[leaf].LeafRec?
      modifies this`cachedLeaf, this`cachedBegin, this`cachedEnd
      ensures cachedLeaf == leaf && cachedBegin == offset && cachedEnd == offset + |mem[leaf].elems|
    {
      cachedLeaf := leaf;
      cachedBegin := offset;
      cachedEnd := offset + |mem[leaf].elems|;
    }

    method Create(rec: NodeRec<T>) returns (r: Ref)
      requires RefsOK()
      modifies this`mem, this`nextRef
      ensures RefsOK() && r !in old(mem) && r != 0 && mem == old(mem)[r := rec]
    {
      r := nextRef;
      mem := mem[r := rec];
      nextRef := nextRef + 1;
    }

    method Write(r: Ref, rec: NodeRec<T>)
      requires RefsOK() && r in mem
      modifies this`mem
      ensures RefsOK() && mem == old(mem)[r := rec]
    {
      mem := mem[r := rec];
    }

    // -------------------------------------------------------------- leaf insertion

    /** `BPlusTreeLeaf::bptree_insert`. */
    method LeafInsert(r: Ref, n: nat, v: T) returns (sib: Ref, st: Split)
      requires RefsOK() && Rep(mem, r, 0) && |mem[r].elems| <= max && |mem[r].elems| < NPOS
      modifies this`mem, this`nextRef, this`cachedBegin, this`cachedEnd
      ensures RefsOK() && InsertDone(max, old(mem), mem, {r}, r, sib, 0, Leaf(old(mem[r].elems)), n, v, st)
      ensures cachedBegin == if |old(mem)[r].elems| == max && n < max then NPOS else old(cachedBegin)
      ensures old(cachedEnd) == old(cachedBegin) + |old(mem)[r].elems| < NPOS && cachedBegin != NPOS ==>
                cachedEnd == cachedBegin + |mem[r].elems|
    {
      var elems := mem[r].elems;
      var ndx := if n > |elems| then |elems| else n;
      if |elems| < max {
        Write(r, LeafRec(elems[..ndx] + [v] + elems[ndx..]));
        AdjustLeafBounds(1, |elems|);
        sib, st := 0, Split(0, 0);
        LeafRoom(max, elems, n, v, st);
        return;
      }
      sib := Create(LeafRec([]));
      if ndx == |elems| {
        Write(sib, LeafRec([v]));
        st := Split(ndx, |elems| + 1);
        LeafSplitEnd(max, elems, n, v);
      } else {
        Write(sib, LeafRec(elems[ndx..]));
        Write(r, LeafRec(elems[..ndx] + [v]));
        st := Split(ndx + 1, |elems| + 1);
        InvalidateLeafCache();
        LeafSplitMiddle(max, elems, n, v);
      }
      RepOne(mem, sib, 0);
    }

    // -------------------------------------------------------------- inner nodes: form and moves

    /** Lazily turns a compact node into a general one. */
    method EnsureOffsets(r: Ref, ghost h: nat)
      requires RefsOK() && h > 0 && Rep(mem, r, h) && WF(max, Abs(mem, r, h), h)
      modifies this`mem
      ensures RefsOK() && Rep(mem, r, h) && WF(max, Abs(mem, r, h), h)
      ensures mem[r].form.General? && mem == old(mem)[r := old(mem)[r].(form := mem[r].form)]
      ensures FP(mem, r, h) == old(FP(mem, r, h))
      ensures AbsAll(mem, mem[r].refs, h - 1) == old(AbsAll(mem, mem[r].refs, h - 1))
      ensures Local(old(mem), mem, old(FP(mem, r, h)), FP(mem, r, h))
      ensures old(mem[r].form.General?) ==> mem == old(mem)
    {
      FPInMem(mem, r, h);
      var rec := mem[r];
      if rec.form.Compact? {
        var offsets := Multiples(rec.form.elemsPerChild, |rec.refs| - 1);
        EnsureOffsetsWF(max, Abs(mem, r, h), h, offsets);
        WriteInner(mem, r, General(offsets), rec.refs, rec.size, h);
        mem := mem[r := rec.(form := General(offsets))];
      }
    }

    /** `BPlusTreeInner::move`: children from `ndx` on go to `dst`; an offset of zero, that of the
        first child of `dst`, is not stored. The size of `this` is stripped off. */
    method MoveChildren(src: Ref, dst: Ref, ndx: nat, adj: int)
      requires src in mem && dst in mem && src != dst && mem[src].InnerRec? && mem[dst].InnerRec?
      requires mem[src].form.General? && mem[dst].form.General?
      requires |mem[src].form.offsets| == |mem[src].refs| - 1 && ndx <= |mem[src].refs|
      requires forall i :: ndx <= i < |mem[src].refs| ==> ChildStart(mem[src].form.offsets, i) >= adj
      requires RefsOK()
      modifies this`mem
      ensures RefsOK()
      ensures var s, d := old(mem)[src], old(mem)[dst];
              mem == old(mem)[dst := InnerRec(General(d.form.offsets +
                                                      MovedOffsets(s.form.offsets, ndx, |s.refs|, adj)),
                                              d.refs + s.refs[ndx..], d.size)]
                             [src := InnerRec(General(if ndx > 0 then s.form.offsets[..ndx - 1] else s.form.offsets),
                                              s.refs[..ndx], 0)]
    {
      var s, d := mem[src], mem[dst];
      var offsets := s.form.offsets;
      ghost var m0 := mem;
      var i := ndx;
      assert d.refs + s.refs[ndx..ndx] == d.refs;
      while i < |s.refs|
        invariant ndx <= i <= |s.refs| && RefsOK() && MovedUpTo(m0, mem, s, dst, ndx, i, adj)
      {
        MovedOne(m0, mem, s, dst, ndx, i, adj);
        AddBpNodeRef(dst, s.refs[i], ChildStart(offsets, i) - adj);
        i := i + 1;
      }
      assert s.refs[ndx..|s.refs|] == s.refs[ndx..];
      assert mem[dst].form.offsets + [] == mem[dst].form.offsets;
      Write(src, InnerRec(General(if ndx > 0 then offsets[..ndx - 1] else offsets), s.refs[..ndx], 0));
    }

    /** `add_bp_node_ref` on a general node. */
    method AddBpNodeRef(dst: Ref, x: Ref, offset: nat)
      requires RefsOK() && dst in mem && mem[dst].InnerRec? && mem[dst].form.General?
      modifies this`mem
      ensures RefsOK()
      ensures var d := old(mem[dst]);
              mem == old(mem)[dst := InnerRec(General(d.form.offsets + if offset != 0 then [offset] else []),
                                              d.refs + [x], d.size)]
    {
      var d := mem[dst];
      assert d.form.offsets + [] == d.form.offsets;
      Write(dst, InnerRec(if offset != 0 then General(d.form.offsets + [offset]) else d.form, d.refs + [x], d.size));
    }

    // -------------------------------------------------------------- inner insertion

    /** `BPlusTreeInner::insert_bp_node`: child `i` of the node that was `t0` is now `c` and has a
        new right sibling `s` at `x`. */
    method InsertBpNode(r: Ref, ghost h: nat, i: nat, x: Ref, st: Split,
                        ghost t0: Node<T>, ghost c: Node<T>, ghost s: Node<T>, ghost n: nat, ghost k: nat, ghost v: T)
      returns (sib: Ref, st': Split)
      requires RefsOK() && ChildSplit(max, mem, r, h, i, x, st, t0, c, s, n, k, v)
      modifies this`mem, this`nextRef
      ensures RefsOK()
      ensures InsertDone(max, old(mem), mem, old(FP(mem, r, h) + FP(mem, x, h - 1)), r, sib, h, t0, n, v, st')
      ensures KeepsPrefix(old(mem), mem, r, i)
    {
      if |mem[r].refs| < max {
        sib, st' := 0, st;
        AddChild(r, h, i, x, st, t0, c, s, n, k, v);
      } else if i + 1 == |mem[r].refs| {
        sib, st' := SplitAfterLast(r, h, i, x, st, t0, c, s, n, k, v);
      } else {
        sib, st' := SplitAfterMiddle(r, h, i, x, st, t0, c, s, n, k, v);
      }
    }

    method AddChild(r: Ref, ghost h: nat, i: nat, x: Ref, st: Split,
                    ghost t0: Node<T>, ghost c: Node<T>, ghost s: Node<T>, ghost n: nat, ghost k: nat, ghost v: T)
      requires RefsOK() && ChildSplit(max, mem, r, h, i, x, st, t0, c, s, n, k, v) && |mem[r].refs| < max
      modifies this`mem
      ensures RefsOK()
      ensures InsertDone(max, old(mem), mem, old(FP(mem, r, h) + FP(mem, x, h - 1)), r, 0, h, t0, n, v, st)
      ensures KeepsPrefix(old(mem), mem, r, i)
    {
      var rec := mem[r];
      var form := rec.form;
      if form.General? {
        var offsets := InsertOffset(form.offsets, i, st.offset);
        form := General(offsets);
      }
      SiblingFits(max, mem, r, h, i, x, st, t0, c, s, n, k, v, form);
      Write(r, InnerRec(form, rec.refs[..i + 1] + [x] + rec.refs[i + 1..], rec.size + 1));
    }

    method SplitAfterLast(r: Ref, ghost h: nat, i: nat, x: Ref, st: Split,
                          ghost t0: Node<T>, ghost c: Node<T>, ghost s: Node<T>, ghost n: nat, ghost k: nat, ghost v: T)
      returns (sib: Ref, st': Split)
      requires RefsOK() && ChildSplit(max, mem, r, h, i, x, st, t0, c, s, n, k, v)
      requires |mem[r].refs| == max == i + 1
      modifies this`mem, this`nextRef
      ensures RefsOK()
      ensures InsertDone(max, old(mem), mem, old(FP(mem, r, h) + FP(mem, x, h - 1)), r, sib, h, t0, n, v, st')
      ensures KeepsPrefix(old(mem), mem, r, i)
    {
      var rec := mem[r];
      var start, form := LastStart(rec.form, i, t0.kids);
      st' := Split(start + st.offset, start + st.size);
      ghost var m0 := mem;
      sib := StartNode(r, form, x, start + st.offset, st.size - st.offset);
      SplitAtLast(max, m0, r, h, i, x, st, t0, c, s, n, k, v, start, sib);
    }

    /** The writes of the first split case: `x` is alone in a new node, and `r` has a new size. */
    method StartNode(r: Ref, form: Form, x: Ref, size: nat, size': nat) returns (sib: Ref)
      requires RefsOK() && r in mem && mem[r].InnerRec?
      modifies this`mem, this`nextRef
      ensures RefsOK() && sib !in old(mem) && sib != 0
      ensures var rec := old(mem[r]);
              mem == old(mem)[r := InnerRec(rec.form, rec.refs, size)][sib := InnerRec(form, [x], size')]
    {
      sib := Create(InnerRec(form, [x], size'));
      Write(r, mem[r].(size := size));
    }

    method SplitAfterMiddle(r: Ref, ghost h: nat, i: nat, x: Ref, st: Split,
                            ghost t0: Node<T>, ghost c: Node<T>, ghost s: Node<T>, ghost n: nat, ghost k: nat,
                            ghost v: T)
      returns (sib: Ref, st': Split)
      requires RefsOK() && ChildSplit(max, mem, r, h, i, x, st, t0, c, s, n, k, v)
      requires |mem[r].refs| == max && i + 1 < max
      modifies this`mem, this`nextRef
      ensures RefsOK()
      ensures InsertDone(max, old(mem), mem, old(FP(mem, r, h) + FP(mem, x, h - 1)), r, sib, h, t0, n, v, st')
      ensures KeepsPrefix(old(mem), mem, r, i)
    {
      MiddleBounds(max, mem, r, h, i, x, st, t0, c, s, n, k, v);
      ghost var m0 := mem;
      var start := ChildStart(mem[r].form.offsets, i);
      st' := Split(start + st.size, mem[r].size + 1);
      sib := CutNode(r, i, x, start + st.offset, st');
      MiddleMoves(max, m0, r, h, i, x, st, t0, c, s, n, k, v, sib);
      CutKeepsPrefix(m0, r, i, x, mem[r], sib, mem[sib]);
    }

    /** The writes of the second split case: the children after `i` move to a new node, and `x`
        takes their place. */
    method CutNode(r: Ref, i: nat, x: Ref, offset: nat, st: Split) returns (sib: Ref)
      requires RefsOK() && r in mem && mem[r].InnerRec? && mem[r].form.General?
      requires |mem[r].form.offsets| == |mem[r].refs| - 1 && i + 1 < |mem[r].refs| && 1 <= st.offset <= st.size
      requires forall j :: i + 1 <= j < |mem[r].refs| ==> ChildStart(mem[r].form.offsets, j) >= st.offset - 1
      modifies this`mem, this`nextRef
      ensures RefsOK() && sib !in old(mem) && sib != 0
      ensures var rec := old(mem[r]);
              var moved := MovedOffsets(rec.form.offsets, i + 1, |rec.refs|, st.offset - 1);
              mem == old(mem)[r := InnerRec(General(rec.form.offsets[..i] + [offset]), rec.refs[..i + 1] + [x],
                                            st.offset)]
                             [sib := InnerRec(General(moved), rec.refs[i + 1..], st.size - st.offset)]
    {
      ghost var rec := mem[r];
      sib := Create(InnerRec(General([]), [], 0));
      MoveChildren(r, sib, i + 1, st.offset - 1);
      Write(r, InnerRec(General(mem[r].form.offsets + [offset]), mem[r].refs + [x], st.offset));
      Write(sib, mem[sib].(size := st.size - st.offset));
      ghost var moved := MovedOffsets(rec.form.offsets, i + 1, |rec.refs|, st.offset - 1);
      assert [] + moved == moved && [] + rec.refs[i + 1..] == rec.refs[i + 1..];
    }

    /** Chooses the child for position `n`, converting the node to general form unless appending.
        The position inside the child is `k`. */
    method ChooseChild(r: Ref, ghost h: nat, n: nat) returns (i: nat, childOffset: nat, k: nat)
      requires RefsOK() && h > 0 && Good(max, mem, r, h)
      requires |Content(Abs(mem, r, h))| < NPOS && n <= NPOS
      modifies this`mem
      ensures RefsOK() && Chosen(max, old(mem), mem, r, h, n, i, childOffset, k)
    {
      if n != NPOS {
        EnsureOffsets(r, h);
        var offsets := mem[r].form.offsets;
        ghost var kids := Abs(mem, r, h).kids;
        OffsetsSorted(offsets, kids);
        i := UpperBound(offsets, n);
        childOffset := ChildStart(offsets, i);
        SelectedRoutes(offsets, kids, n, i);
        k := n - childOffset;
      } else {
        FPInMem(mem, r, h);
        i := |mem[r].refs| - 1;
        k := NPOS;
        if mem[r].form.General? {
          childOffset := ChildStart(mem[r].form.offsets, i);
        } else {
          childOffset := i * mem[r].form.elemsPerChild;
          CompactOff(mem[r].form.elemsPerChild, Abs(mem, r, h).kids, i);
        }
      }
    }

    /** `BPlusTreeInner::bptree_insert`. */
    method InnerInsert(r: Ref, ghost h: nat, n: nat, v: T, myOffset: nat) returns (sib: Ref, st: Split)
      requires RefsOK() && h > 0 && Good(max, mem, r, h)
      requires myOffset + |Content(Abs(mem, r, h))| < NPOS && n <= NPOS
      modifies this`mem, this`nextRef, this`cachedLeaf, this`cachedBegin, this`cachedEnd
      ensures RefsOK()
      ensures InsertDone(max, old(mem), mem, old(FP(mem, r, h)), r, sib, h, old(Abs(mem, r, h)), n, v, st)
      ensures CacheIn(r, h, myOffset)
      decreases h, 0
    {
      ghost var m0 := mem;
      var i, childOffset, k := ChooseChild(r, h, n);
      ghost var m1 := mem;
      ChosenChild(max, m0, m1, r, h, n, i, childOffset, k);
      var c := mem[r].refs[i];
      var x, st1 := ChildInsert(c, h - 1, k, v, childOffset + myOffset);
      ghost var m2, leaf, begin, end := mem, cachedLeaf, cachedBegin, cachedEnd;
      assert Cached(m2, c, h - 1, childOffset + myOffset, leaf, begin, end);
      ChildDone(max, m0, m1, m2, r, h, n, i, childOffset, k, v, c, x, st1);
      sib, st := AfterChildInsert(r, h, i, x, st1, Abs(m1, r, h), n, k, v);
      NodeDone(max, m0, m1, m2, mem, r, h, n, i, childOffset, k, v, x, sib, st);
      BelowCache(max, m1, m2, mem, r, h, i, x, Abs(m1, r, h), n, k, v, st1, c, childOffset, myOffset, leaf, begin, end);
    }

    method ChildInsert(c: Ref, ghost h: nat, k: nat, v: T, offset: nat) returns (x: Ref, st: Split)
      requires RefsOK() && Good(max, mem, c, h)
      requires offset + |Content(Abs(mem, c, h))| < NPOS && k <= NPOS
      modifies this`mem, this`nextRef, this`cachedLeaf, this`cachedBegin, this`cachedEnd
      ensures RefsOK()
      ensures InsertDone(max, old(mem), mem, old(FP(mem, c, h)), c, x, h, old(Abs(mem, c, h)), k, v, st)
      ensures CacheIn(c, h, offset)
      decreases h, 1
    {
      if mem[c].LeafRec? {
        CacheLeaf(c, offset);
        x, st := LeafInsert(c, k, v);
      } else {
        x, st := InnerInsert(c, h, k, v, offset);
      }
    }

    method AfterChildInsert(r: Ref, ghost h: nat, i: nat, x: Ref, st1: Split, ghost t1: Node<T>, ghost n: nat,
                            ghost k: nat, ghost v: T)
      returns (sib: Ref, st: Split)
      requires RefsOK() && Below(max, mem, r, h, i, x, t1, n, k, v, st1)
      modifies this`mem, this`nextRef
      ensures RefsOK()
      ensures InsertDone(max, old(mem), mem, old(FP(mem, r, h) + FPs(mem, Sibs(x), h - 1)), r, sib, h, t1, n, v, st)
      ensures KeepsPrefix(old(mem), mem, r, i)
    {
      if x == 0 {
        sib, st := 0, st1;
        CountOne(r, h, i, t1, n, k, v, st);
      } else {
        BelowSplit(max, mem, r, h, i, x, t1, n, k, v, st1);
        sib, st := InsertBpNode(r, h, i, x, st1, t1, Abs(mem, mem[r].refs[i], h - 1), Abs(mem, x, h - 1), n, k, v);
      }
    }

    /** The child absorbed the element: the size and the later offsets go up by one. */
    method CountOne(r: Ref, ghost h: nat, i: nat, ghost t1: Node<T>, ghost n: nat, ghost k: nat, ghost v: T,
                    ghost st: Split)
      requires RefsOK() && Below(max, mem, r, h, i, 0, t1, n, k, v, st)
      modifies this`mem
      ensures RefsOK()
      ensures InsertDone(max, old(mem), mem, old(FP(mem, r, h) + FPs(mem, [], h - 1)), r, 0, h, t1, n, v, st)
      ensures KeepsPrefix(old(mem), mem, r, i)
    {
      var rec := mem[r];
      var form := rec.form;
      if form.General? {
        var offsets := Adjust(form.offsets, i, 1);
        form := General(offsets);
      }
      ChildGrew(max, mem, r, h, i, t1, n, k, v, form, st);
      Write(r, InnerRec(form, rec.refs, rec.size + 1));
    }

    // -------------------------------------------------------------- erasure

    /** `Array::destroy_deep`: frees a node and everything below it. */
    method DestroyDeep(r: Ref, ghost h: nat)
      requires RefsOK() && Rep(mem, r, h)
      modifies this`mem
      ensures RefsOK() && mem == old(mem) - old(FP(mem, r, h))
      decreases h, 0
    {
      if mem[r].InnerRec? {
        DestroyChildren(mem[r].refs, h - 1);
      }
      mem := mem - {r};
    }

    method DestroyChildren(refs: seq<Ref>, ghost h: nat)
      requires RefsOK() && RepAll(mem, refs, h)
      modifies this`mem
      ensures RefsOK() && mem == old(mem) - old(FPs(mem, refs, h))
      decreases h, 1
    {
      ghost var m0, gone := mem, {};
      var i := 0;
      while i < |refs|
        invariant i <= |refs| && RefsOK() && RepAll(mem, refs[i..], h)
        invariant mem == m0 - gone && gone + FPs(mem, refs[i..], h) == FPs(m0, refs, h)
      {
        ghost var m1 := mem;
        gone := gone + FP(mem, refs[i], h);
        assert refs[i..][1..] == refs[i + 1..];
        DestroyDeep(refs[i], h);
        FPsInMem(m1, refs[i + 1..], h);
        FrameAll(m1, mem, refs[i + 1..], h);
        i := i + 1;
      }
    }

    /** `erase_and_destroy_bp_node`: drops child `ndx` and its offset, and frees it. */
    method EraseAndDestroyBpNode(r: Ref, ndx: nat, ghost h: nat)
      requires RefsOK() && r in mem && mem[r].InnerRec? && mem[r].form.General?
      requires ndx < |mem[r].refs| && |mem[r].form.offsets| == |mem[r].refs| - 1
      requires Rep(mem, mem[r].refs[ndx], h) && r !in FP(mem, mem[r].refs[ndx], h)
      modifies this`mem
      ensures RefsOK()
      ensures var rec := old(mem[r]);
              mem == old(mem)[r := InnerRec(General(WithoutChild(rec.form.offsets, ndx)),
                                            rec.refs[..ndx] + rec.refs[ndx + 1..], rec.size)]
                     - old(FP(mem, mem[r].refs[ndx], h))
    {
      var rec := mem[r];
      var c := rec.refs[ndx];
      var offsets := rec.form.offsets;
      if |offsets| != 0 {
        if ndx < |offsets| {
          offsets := offsets[..ndx] + offsets[ndx + 1..];
        } else {
          offsets := offsets[..|offsets| - 1];
        }
      }
      ghost var m0 := mem;
      Write(r, InnerRec(General(offsets), rec.refs[..ndx] + rec.refs[ndx + 1..], rec.size));
      Frame(m0, mem, c, h);
      DestroyDeep(c, h);
    }

    /** `BPlusTreeInner::bptree_erase`: the result is the number of children left, 0 if the node
        has become empty and is to be destroyed by the caller. */
    method InnerErase(r: Ref, ghost h: nat, n: nat, myOffset: nat) returns (sz: nat)
      requires RefsOK() && h > 0 && Good(max, mem, r, h)
      requires n < |Content(Abs(mem, r, h))| && myOffset + |Content(Abs(mem, r, h))| < NPOS
      modifies this`mem, this`cachedLeaf, this`cachedBegin, this`cachedEnd
      ensures RefsOK()
      ensures EraseDone(max, old(mem), mem, r, h, old(Abs(mem, r, h)), n, sz)
      ensures sz == SizeAfterErase(max, old(Abs(mem, r, h)), n)
      ensures if sz == 0 then cachedBegin == NPOS else CacheIn(r, h, myOffset)
      ensures sz == 1 && old(|mem[r].refs|) >= 2 ==> LoneChild(mem, r, h, cachedBegin)
      decreases h, 1
    {
      ghost var m0 := mem;
      var i, childOffset, c, childSize;
      ghost var k, m1;
      i, childOffset, c, childSize, k, m1 := EraseBelow(r, h, n, myOffset);
      ghost var m2 := mem;
      sz := AfterChildErase(r, h, i, c, childSize, childOffset, myOffset, Abs(m1, r, h), n, k);
      ErasedUp(max, m0, m1, m2, mem, r, h, n, i, childOffset, k, c, childSize, sz);
    }

    /** The child that holds the element is chosen, and the element erased below it. */
    method EraseBelow(r: Ref, ghost h: nat, n: nat, myOffset: nat)
      returns (i: nat, childOffset: nat, c: Ref, childSize: nat, ghost k: nat, ghost m1: Mem<T>)
      requires RefsOK() && h > 0 && Good(max, mem, r, h)
      requires n < |Content(Abs(mem, r, h))| && myOffset + |Content(Abs(mem, r, h))| < NPOS
      modifies this`mem, this`cachedLeaf, this`cachedBegin, this`cachedEnd
      ensures RefsOK() && ErasedHalf(max, old(mem), m1, mem, r, h, n, i, childOffset, k, c, childSize)
      ensures if childSize == 0 then cachedBegin == NPOS
              else Cached(mem, c, h - 1, childOffset + myOffset, cachedLeaf, cachedBegin, cachedEnd)
      decreases h, 0
    {
      ghost var m0 := mem;
      var pos;
      i, childOffset, pos := ChooseChild(r, h, n);
      k, m1 := pos, mem;
      ChosenChild(max, m0, m1, r, h, n, i, childOffset, k);
      ChosenErase(max, m0, m1, r, h, n, i, childOffset, k);
      c := mem[r].refs[i];
      childSize := ChildErase(c, h - 1, pos, childOffset + myOffset);
      ChildErased(max, m0, m1, mem, r, h, n, i, childOffset, k, c, childSize);
    }

    method ChildErase(c: Ref, ghost h: nat, k: nat, offset: nat) returns (sz: nat)
      requires RefsOK() && Good(max, mem, c, h)
      requires k < |Content(Abs(mem, c, h))| && offset + |Content(Abs(mem, c, h))| < NPOS
      modifies this`mem, this`cachedLeaf, this`cachedBegin, this`cachedEnd
      ensures RefsOK()
      ensures EraseDone(max, old(mem), mem, c, h, old(Abs(mem, c, h)), k, sz)
      ensures sz == SizeAfterErase(max, old(Abs(mem, c, h)), k)
      ensures if sz == 0 then cachedBegin == NPOS else CacheIn(c, h, offset)
      decreases h, 2
    {
      if mem[c].LeafRec? {
        CacheLeaf(c, offset);
        var elems := mem[c].elems;
        Write(c, LeafRec(elems[..k] + elems[k + 1..]));
        sz := |mem[c].elems|;
        if sz == 0 {
          InvalidateLeafCache();
        } else {
          AdjustLeafBounds(-1, |elems|);
        }
      } else {
        sz := InnerErase(c, h, k, offset);
      }
    }

    method AfterChildErase(r: Ref, ghost h: nat, i: nat, c: Ref, childSize: nat, childOffset: nat, myOffset: nat,
                           ghost t1: Node<T>, ghost n: nat, ghost k: nat) returns (sz: nat)
      requires RefsOK() && ErasedBelow(max, mem, r, h, i, t1, n, k, childSize)
      requires c == mem[r].refs[i] && childOffset == Off(t1.kids, i)
      requires childSize > 0 && h > 1 ==> mem[c].form.General?
      requires if childSize == 0 then cachedBegin == NPOS
               else Cached(mem, c, h - 1, childOffset + myOffset, cachedLeaf, cachedBegin, cachedEnd)
      modifies this`mem, this`cachedBegin, this`cachedEnd
      ensures RefsOK()
      ensures EraseDone(max, old(mem), mem, r, h, t1, n, sz) && sz == NodesAfter(max, t1.kids, i, childSize)
      ensures if sz == 0 then cachedBegin == NPOS else CacheIn(r, h, myOffset)
      ensures sz == 1 && old(|mem[r].refs|) >= 2 ==> LoneChild(mem, r, h, cachedBegin)
    {
      ErasedBelowOff(max, mem, r, h, i, t1, n, k, childSize);
      if childSize == 0 {
        sz := EmptyChild(r, h, i, t1, n, k);
      } else {
        sz := SmallerChild(r, h, i, c, childSize, childOffset, myOffset, t1, n, k);
      }
    }

    /** Child `i` has become empty: it is destroyed, unless it was the only one. */
    method EmptyChild(r: Ref, ghost h: nat, i: nat, ghost t1: Node<T>, ghost n: nat, ghost k: nat) returns (sz: nat)
      requires RefsOK() && ErasedBelow(max, mem, r, h, i, t1, n, k, 0)
      requires |mem[r].refs| == |t1.kids| == |t1.form.offsets| + 1 && r !in FP(mem, mem[r].refs[i], h - 1)
      modifies this`mem
      ensures RefsOK()
      ensures EraseDone(max, old(mem), mem, r, h, t1, n, sz) && sz == |t1.kids| - 1
    {
      ghost var m := mem;
      OnlyChildEmpty(max, m, r, h, i, t1, n, k);
      var rec := mem[r];
      var offsets := Adjust(rec.form.offsets, i, -1);
      Write(r, InnerRec(General(offsets), rec.refs, rec.size - 1));
      if |rec.refs| == 1 {
        return 0;
      }
      Frame(m, mem, rec.refs[i], h - 1);
      EraseAndDestroyBpNode(r, i, h - 1);
      sz := |rec.refs| - 1;
      assert mem == m[r := InnerRec(General(WithoutChild(offsets, i)), rec.refs[..i] + rec.refs[i + 1..], rec.size - 1)]
                    - FP(m, rec.refs[i], h - 1);
      ChildRemoved(max, m, r, h, i, t1, n, k, General(WithoutChild(offsets, i)));
    }

    method SmallerChild(r: Ref, ghost h: nat, i: nat, c: Ref, childSize: nat, ghost off: nat, ghost start: nat,
                        ghost t1: Node<T>, ghost n: nat, ghost k: nat) returns (sz: nat)
      requires RefsOK() && ErasedBelow(max, mem, r, h, i, t1, n, k, childSize) && childSize > 0
      requires c == mem[r].refs[i] && off == Off(AbsAll(mem, mem[r].refs, h - 1), i) && (h > 1 ==> mem[c].form.General?)
      requires Cached(mem, c, h - 1, off + start, cachedLeaf, cachedBegin, cachedEnd)
      requires |mem[r].refs| == |t1.kids| == |t1.form.offsets| + 1
      modifies this`mem, this`cachedBegin, this`cachedEnd
      ensures RefsOK()
      ensures EraseDone(max, old(mem), mem, r, h, t1, n, sz) && sz > 0 && sz == NodesAfter(max, t1.kids, i, childSize)
      ensures CacheIn(r, h, start)
      ensures sz == 1 && old(|mem[r].refs|) >= 2 ==> LoneChild(mem, r, h, cachedBegin)
    {
      ghost var m := mem;
      ChildShrank(max, m, r, h, i, t1, n, k, childSize);
      var rec := mem[r];
      var offsets := Adjust(rec.form.offsets, i, -1);
      Write(r, InnerRec(General(offsets), rec.refs, rec.size - 1));
      ghost var m1 := mem;
      ShrunkFrom(max, m, m1, r, h, i, c, childSize, off, start, cachedLeaf, cachedBegin, cachedEnd);
      var num := |rec.refs|;
      if childSize < max / 2 && i < num - 1 {
        NextInMemory(max, m, m1, r, h, i, t1, n, k, childSize);
        sz := MergeIfSmall(r, h, i, c, childSize, off, start);
        SettledDone(max, m, m1, mem, r, h, t1, n, num, sz);
      } else {
        sz := num;
        CacheOfChild(m1, r, h, i, c, off, start, cachedLeaf, cachedBegin, cachedEnd);
      }
    }

    /** Merges child `i` with the next one if both fit comfortably into one node. */
    method MergeIfSmall(r: Ref, ghost h: nat, i: nat, c: Ref, childSize: nat, ghost off: nat, ghost start: nat)
      returns (sz: nat)
      requires RefsOK() && Shrunk(max, mem, r, h, i, c, childSize, off, start, cachedLeaf, cachedBegin, cachedEnd)
      requires i + 1 < |mem[r].refs|
      modifies this`mem, this`cachedBegin, this`cachedEnd
      ensures RefsOK() && Settled(max, old(mem), mem, r, h, sz)
      ensures sz == old(|mem[r].refs|) - if SmallWithNext(max, old(mem), r, i, childSize) then 1 else 0
      ensures CacheIn(r, h, start)
      ensures sz == 1 ==> LoneChild(mem, r, h, cachedBegin)
    {
      var sib := mem[r].refs[i + 1];
      TwoChildren(max, mem, r, h, i);
      sz := |mem[r].refs|;
      FPInMem(mem, r, h);
      if mem[c].LeafRec? {
        if |mem[sib].elems| + childSize < max * 3 / 4 {
          MergeLeafInto(r, i, c, sib, h);
          sz := sz - 1;
        } else {
          CacheOfChild(mem, r, h, i, c, off, start, cachedLeaf, cachedBegin, cachedEnd);
        }
      } else {
        if |mem[sib].refs| + childSize < max * 3 / 4 {
          MergeInnerInto(r, h, i, c, sib, childSize, off, start);
          sz := sz - 1;
        } else {
          CacheOfChild(mem, r, h, i, c, off, start, cachedLeaf, cachedBegin, cachedEnd);
        }
      }
    }

    method MergeLeafInto(r: Ref, i: nat, a: Ref, b: Ref, ghost h: nat)
      requires RefsOK() && h == 1 && Good(max, mem, r, h) && mem[r].form.General? && i + 1 < |mem[r].refs|
      requires a == mem[r].refs[i] && b == mem[r].refs[i + 1] && Good(max, mem, a, 0) && Good(max, mem, b, 0)
      requires a != b && r != a && r != b && |mem[a].elems| + |mem[b].elems| <= max
      modifies this`mem, this`cachedBegin, this`cachedEnd
      ensures RefsOK() && Settled(max, old(mem), mem, r, h, old(|mem[r].refs|) - 1)
      ensures CacheIn(r, h, 0)
      ensures cachedBegin == NPOS
    {
      ghost var m := mem;
      JoinLeaves(max, m, a, b);
      WriteLeafMerge(r, i, a, b);
      InvalidateLeafCache();
      MergedIn(max, m, r, h, i, LeafRec(m[a].elems + m[b].elems), LeafRec([]), mem);
    }

    method WriteLeafMerge(r: Ref, i: nat, a: Ref, b: Ref)
      requires RefsOK() && r in mem && mem[r].InnerRec? && mem[r].form.General? && i + 1 < |mem[r].refs|
      requires |mem[r].form.offsets| == |mem[r].refs| - 1 && a != b && r != a && r != b && b == mem[r].refs[i + 1]
      requires a in mem && mem[a].LeafRec? && b in mem && mem[b].LeafRec?
      modifies this`mem
      ensures RefsOK()
      ensures var m := old(mem);
              mem == m[a := LeafRec(m[a].elems + m[b].elems)][b := LeafRec([])]
                      [r := InnerRec(General(MergedOffsets(m[r].form.offsets, i)),
                                     m[r].refs[..i + 1] + m[r].refs[i + 2..], m[r].size)]
                     - {b}
    {
      var offsets := mem[r].form.offsets;
      if i + 1 < |offsets| {
        Write(r, mem[r].(form := General(offsets[i := offsets[i + 1]])));
      }
      var elems := mem[b].elems;
      Write(a, LeafRec(mem[a].elems + elems));
      Write(b, LeafRec([]));
      EraseAndDestroyBpNode(r, i + 1, 0);
    }

    method MergeInnerInto(r: Ref, ghost h: nat, i: nat, a: Ref, b: Ref, ghost sz: nat, ghost off: nat, ghost start: nat)
      requires RefsOK() && h > 1 && Shrunk(max, mem, r, h, i, a, sz, off, start, cachedLeaf, cachedBegin, cachedEnd)
      requires i + 1 < |mem[r].refs| && b == mem[r].refs[i + 1]
      requires Good(max, mem, a, h - 1) && Good(max, mem, b, h - 1) && |mem[a].refs| + |mem[b].refs| <= max
      modifies this`mem
      ensures RefsOK() && Settled(max, old(mem), mem, r, h, old(|mem[r].refs|) - 1)
      ensures CacheIn(r, h, start)
      ensures old(|mem[r].refs|) == 2 ==> LoneChild(mem, r, h, cachedBegin)
    {
      ghost var m := mem;
      PrepareMerge(r, h, i, a, b, sz, off, start);
      ghost var m1 := mem;
      ReadyWritable(max, m, m1, r, h, i, a, b, off, start, cachedLeaf, cachedBegin, cachedEnd);
      WriteMerge(r, i, a, b, h - 1);
      ReadyMerged(max, m, m1, mem, r, h, i, a, b, off, start, cachedLeaf, cachedBegin, cachedEnd);
      if |m[r].refs| == 2 {
        MergedLone(max, m, m1, r, h, i, a, b, off, start, cachedLeaf, cachedBegin, cachedEnd);
      }
    }

    method PrepareMerge(r: Ref, ghost h: nat, i: nat, a: Ref, b: Ref, ghost sz: nat, ghost off: nat, ghost start: nat)
      requires RefsOK() && h > 1 && Shrunk(max, mem, r, h, i, a, sz, off, start, cachedLeaf, cachedBegin, cachedEnd)
      requires i + 1 < |mem[r].refs| && b == mem[r].refs[i + 1]
      requires Good(max, mem, a, h - 1) && Good(max, mem, b, h - 1) && |mem[a].refs| + |mem[b].refs| <= max
      modifies this`mem
      ensures RefsOK() && MergeReady(max, old(mem), mem, r, h, i, a, b, off, start, cachedLeaf, cachedBegin, cachedEnd)
    {
      ghost var m := mem;
      EnsureOffsets(a, h - 1);
      assert mem == m;
      EnsureOffsets(b, h - 1);
      MakeReady(max, m, mem, r, h, i, a, b, sz, off, start, cachedLeaf, cachedBegin, cachedEnd);
    }

    /** The writes of an inner merge. */
    method WriteMerge(r: Ref, i: nat, a: Ref, b: Ref, ghost h: nat)
      requires RefsOK() && h > 0 && MergeWritable(mem, r, i, a, b)
      modifies this`mem
      ensures RefsOK() && mem == MergedMem(old(mem), r, i, a, b)
    {
      var offsets := mem[r].form.offsets;
      var adj := ChildStart(offsets, i) - offsets[i];
      if i + 1 < |offsets| {
        Write(r, mem[r].(form := General(offsets[i := offsets[i + 1]])));
      }
      var sizeA, sizeB := mem[a].size, mem[b].size;
      MoveChildren(b, a, 0, adj);
      Write(a, mem[a].(size := sizeA + sizeB));
      EraseAndDestroyBpNode(r, i + 1, h);
    }

    // -------------------------------------------------------------- access

    /** `BPlusTreeInner::bptree_access`: finds, and caches, the leaf that holds element `n`. */
    method InnerAccess(r: Ref, ghost h: nat, n: nat, myOffset: nat) returns (leaf: Ref, k: nat)
      requires h > 0 && Good(max, mem, r, h)
      requires n < |Content(Abs(mem, r, h))| && myOffset + |Content(Abs(mem, r, h))| < NPOS
      modifies this`cachedLeaf, this`cachedBegin, this`cachedEnd
      ensures CacheIn(r, h, myOffset) && cachedLeaf == leaf && leaf in mem && mem[leaf].LeafRec?
      ensures cachedBegin != NPOS && cachedBegin + k == myOffset + n && k < |mem[leaf].elems|
      decreases h
    {
      var i, childOffset;
      if mem[r].form.General? {
        var offsets := mem[r].form.offsets;
        OffsetsSorted(offsets, Abs(mem, r, h).kids);
        i := UpperBound(offsets, n);
        childOffset := ChildStart(offsets, i);
        SelectedRoutes(offsets, Abs(mem, r, h).kids, n, i);
      } else {
        CompactRoutes(max, Abs(mem, r, h), h, n);
        i := n / mem[r].form.elemsPerChild;
        childOffset := i * mem[r].form.elemsPerChild;
      }
      AccessChild(max, mem, r, h, n, i, childOffset);
      var c := mem[r].refs[i];
      if mem[c].LeafRec? {
        CacheLeaf(c, childOffset + myOffset);
        leaf, k := c, n - childOffset;
      } else {
        leaf, k := InnerAccess(c, h - 1, n - childOffset, childOffset + myOffset);
      }
      CacheOfChild(mem, r, h, i, c, childOffset, myOffset, cachedLeaf, cachedBegin, cachedEnd);
    }

    /** `bptree_traverse` with the callback of `find_first`: leaves are visited, and cached, in
        order until one holds `value`. */
    method InnerFind(r: Ref, ghost h: nat, value: T, myOffset: nat) returns (n: nat)
      requires h > 0 && Good(max, mem, r, h) && myOffset + |Content(Abs(mem, r, h))| < NPOS
      modifies this`cachedLeaf, this`cachedBegin, this`cachedEnd
      ensures CacheIn(r, h, myOffset) && FirstAt(Content(Abs(mem, r, h)), value, myOffset, n)
      decreases h
    {
      ghost var s, kids := Content(Abs(mem, r, h)), Abs(mem, r, h).kids;
      var i := 0;
      while i < |mem[r].refs|
        invariant i <= |mem[r].refs| && Off(kids, i) <= |s| && value !in s[..Off(kids, i)]
        invariant i > 0 ==> CacheIn(r, h, myOffset)
      {
        VisitChild(max, mem, r, h, i);
        var childOffset := match mem[r].form
                           case General(offsets) => ChildStart(offsets, i)
                           case Compact(per) => i * per;
        var c := mem[r].refs[i];
        n := ChildFind(r, h, c, i, value, childOffset, myOffset);
        FirstAtStretch(s, value, myOffset, childOffset, Off(kids, i + 1), n);
        if n != NPOS {
          return;
        }
        i := i + 1;
      }
      FlatSplit(kids, i - 1);
      assert s[..|s|] == s;
      n := NPOS;
    }

    method ChildFind(ghost r: Ref, ghost h: nat, c: Ref, ghost i: nat, value: T, childOffset: nat, myOffset: nat)
      returns (n: nat)
      requires h > 0 && Good(max, mem, c, h - 1) && myOffset + childOffset + |Content(Abs(mem, c, h - 1))| < NPOS
      requires Rep(mem, r, h) && i < |mem[r].refs| && c == mem[r].refs[i] && childOffset == Off(Abs(mem, r, h).kids, i)
      modifies this`cachedLeaf, this`cachedBegin, this`cachedEnd
      ensures CacheIn(r, h, myOffset) && FirstAt(Content(Abs(mem, c, h - 1)), value, myOffset + childOffset, n)
      decreases h, 0
    {
      if mem[c].LeafRec? {
        CacheLeaf(c, childOffset + myOffset);
        n := LeafFind(mem[c].elems, value, childOffset + myOffset);
      } else {
        n := InnerFind(c, h - 1, value, childOffset + myOffset);
      }
      CacheOfChild(mem, r, h, i, c, childOffset, myOffset, cachedLeaf, cachedBegin, cachedEnd);
    }

    // -------------------------------------------------------------- the tree

    /** What every operation keeps: memory holds exactly the nodes of one well-formed tree, the
        stored size is its element count, and the leaf cache is invalid or exact. */
    ghost predicate Valid()
      reads this
    {
      && RefsOK() && Whole(max, mem, root, height)
      && size == |Content(Abs(mem, root, height))| < NPOS
      && if height == 0 then cachedBegin == NPOS else CacheIn(root, height, 0)
    }

    ghost function Tree(): Node<T>
      requires Valid()
      reads this
    {
      Abs(mem, root, height)
    }

    ghost function Contents(): seq<T>
      requires Valid()
      reads this
    {
      Content(Tree())
    }

    /** `BPlusTreeBase::create`. */
    constructor (max: NodeMax)
      ensures Valid() && this.max == max && Contents() == [] && IsCompact(Tree())
    {
      this.max := max;
      mem, nextRef, root := map[1 := LeafRec([])], 2, 1;
      size, height := 0, 0;
      cachedLeaf, cachedBegin, cachedEnd := 0, NPOS, NPOS;
    }

    /** `BPlusTree::insert`; any position beyond the end appends. */
    method Insert(n: nat, v: T)
      requires Valid() && n <= NPOS && size + 1 < NPOS
      modifies this
      ensures Valid() && Contents() == InsertAt(old(Contents()), n, v)
      ensures (n == old(size) || n == NPOS) && old(IsCompact(Tree())) ==> IsCompact(Tree())
    {
      var pos := if n == size then NPOS else n;
      ghost var m0 := mem;
      var sib, st := RootInsert(pos, v);
      if sib == 0 {
        InsertedWhole(max, m0, mem, root, height, pos, v, st);
      } else {
        GrowTree(sib, st, m0, pos, v);
      }
      size := size + 1;
    }

    method Add(v: T)
      requires Valid() && size + 1 < NPOS
      modifies this
      ensures Valid() && Contents() == old(Contents()) + [v]
      ensures old(IsCompact(Tree())) ==> IsCompact(Tree())
    {
      Insert(NPOS, v);
    }

    method RootInsert(pos: nat, v: T) returns (sib: Ref, st: Split)
      requires Valid() && pos <= NPOS && size + 1 < NPOS
      modifies this`mem, this`nextRef, this`cachedLeaf, this`cachedBegin, this`cachedEnd
      ensures RefsOK() && InsertDone(max, old(mem), mem, old(FP(mem, root, height)), root, sib, height, old(Tree()),
                                     pos, v, st)
      ensures if height == 0 then cachedBegin == NPOS else CacheIn(root, height, 0)
    {
      if mem[root].LeafRec? {
        sib, st := LeafInsert(root, pos, v);
      } else {
        sib, st := InnerInsert(root, height, pos, v, 0);
      }
    }

    /** The second half of `BPlusTreeBase::bptree_insert`: the root was split. */
    method GrowTree(sib: Ref, st: Split, ghost m0: Mem<T>, pos: nat, ghost v: T)
      requires RefsOK() && sib != 0 && Whole(max, m0, root, height)
      requires InsertDone(max, m0, mem, FP(m0, root, height), root, sib, height, Abs(m0, root, height), pos, v, st)
      requires if height == 0 then cachedBegin == NPOS else CacheIn(root, height, 0)
      modifies this`mem, this`nextRef, this`root, this`height
      ensures RefsOK() && Whole(max, mem, root, height) && height > 0
      ensures Content(Abs(mem, root, height)) == InsertAt(Content(Abs(m0, old(root), old(height))), pos, v)
      ensures CacheIn(root, height, 0)
      ensures pos == NPOS && IsCompact(Abs(m0, old(root), old(height))) ==> IsCompact(Abs(mem, root, height))
    {
      ghost var m1, r, h := mem, root, height;
      var compactForm := pos == NPOS && (mem[root].LeafRec? || mem[root].form.Compact?);
      var form := if compactForm then Compact(st.offset) else General([st.offset]);
      PutRoot(form, sib, st.size);
      GrownWhole(max, m0, m1, r, sib, h, pos, v, st, form, root);
      CacheUnderNewRoot(m1, mem, r, root, h, cachedLeaf, cachedBegin, cachedEnd);
    }

    /** A new root over the old one and its sibling. */
    method PutRoot(form: Form, sib: Ref, total: nat)
      requires RefsOK()
      modifies this`mem, this`nextRef, this`root, this`height
      ensures RefsOK() && root !in old(mem) && height == old(height) + 1
      ensures mem == old(mem)[root := InnerRec(form, [old(root), sib], total)]
    {
      root := Create(InnerRec(form, [root, sib], total));
      height := height + 1;
    }

    /** `BPlusTree::erase`. */
    method Erase(n: nat)
      requires Valid() && n < size
      modifies this
      ensures Valid() && Contents() == EraseAt(old(Contents()), n)
    {
      if mem[root].LeafRec? {
        var elems := mem[root].elems;
        Write(root, LeafRec(elems[..n] + elems[n + 1..]));
      } else {
        ghost var m0 := mem;
        var rootSize := InnerErase(root, height, n, 0);
        ErasedWhole(max, m0, mem, root, height, n, rootSize, cachedLeaf, cachedBegin, cachedEnd);
        CollapseRoot(rootSize);
      }
      size := size - 1;
    }

    /** The loop of `BPlusTreeBase::bptree_erase`: a root with a single child gives way to it. */
    method CollapseRoot(rootSize: nat)
      requires RefsOK() && Collapsing(max, mem, root, height, rootSize, cachedLeaf, cachedBegin, cachedEnd)
      modifies this`mem, this`root, this`height
      ensures RefsOK() && Whole(max, mem, root, height)
      ensures Content(Abs(mem, root, height)) == old(Content(Abs(mem, root, height)))
      ensures if height == 0 then cachedBegin == NPOS else CacheIn(root, height, 0)
    {
      var sz: nat := rootSize;
      while mem[root].InnerRec? && sz == 1
        invariant RefsOK() && Collapsing(max, mem, root, height, sz, cachedLeaf, cachedBegin, cachedEnd)
        invariant Content(Abs(mem, root, height)) == old(Content(Abs(mem, root, height)))
        decreases height
      {
        CollapseStep(max, mem, root, height, cachedLeaf, cachedBegin, cachedEnd);
        var orig := root;
        root := mem[orig].refs[0];
        height := height - 1;
        // the only child slot of the old root was cleared, so nothing below it is freed
        mem := mem - {orig};
        sz := if mem[root].LeafRec? then |mem[root].elems| else |mem[root].refs|;
      }
    }

    // -------------------------------------------------------------- reading

    /** Fast path: the cached leaf; slow path: a descent that caches the leaf it finds. */
    method Get(n: nat) returns (v: T)
      requires Valid() && n < size
      modifies this`cachedLeaf, this`cachedBegin, this`cachedEnd
      ensures Valid() && Contents() == old(Contents()) && v == Contents()[n]
    {
      if InCachedLeaf(n) {
        CachedElement(mem, root, height, cachedLeaf, cachedBegin, cachedEnd, n);
        v := mem[cachedLeaf].elems[n - cachedBegin];
      } else {
        v := GetUncached(n);
      }
    }

    method GetUncached(n: nat) returns (v: T)
      requires Valid() && n < size
      modifies this`cachedLeaf, this`cachedBegin, this`cachedEnd
      ensures Valid() && Contents() == old(Contents()) && v == Contents()[n]
    {
      var leaf, k := Access(n);
      v := mem[leaf].elems[k];
    }

    /** `bptree_access` at the root: the leaf at `leaf` holds the elements from `n - k` on. */
    method Access(n: nat) returns (leaf: Ref, k: nat)
      requires Valid() && n < size
      modifies this`cachedLeaf, this`cachedBegin, this`cachedEnd
      ensures Valid() && Contents() == old(Contents()) && leaf in mem && mem[leaf].LeafRec? &&
              k < |mem[leaf].elems| && k <= n
      ensures n - k + |mem[leaf].elems| <= size
      ensures mem[leaf].elems == Contents()[n - k..n - k + |mem[leaf].elems|]
      ensures LeafAt(mem, root, height, leaf, n - k)
      ensures height > 0 ==> cachedLeaf == leaf && cachedBegin == n - k
    {
      if mem[root].LeafRec? {
        leaf, k := root, n;
      } else {
        leaf, k := InnerAccess(root, height, n, 0);
        CachedElement(mem, root, height, cachedLeaf, cachedBegin, cachedEnd, n);
      }
    }

    /** One descent per touched leaf. */
    method GetRange(n: nat, count: nat) returns (out: seq<T>)
      requires Valid() && n + count <= size
      modifies this`cachedLeaf, this`cachedBegin, this`cachedEnd
      ensures Valid() && Contents() == old(Contents()) && out == Contents()[n..n + count]
    {
      out := [];
      ghost var s := Contents();
      var pos: nat, left: nat := n, count;
      while left > 0
        invariant Valid() && Contents() == s && n <= pos && pos + left == n + count
        invariant out == s[n..pos]
        decreases left
      {
        var leaf, k := Access(pos);
        var avail := |mem[leaf].elems| - k;
        var copied := if left < avail then left else avail;
        RangeStep(s, out, n, pos, mem[leaf].elems, k, copied);
        out := out + mem[leaf].elems[k..k + copied];
        pos := pos + copied;
        left := left - copied;
      }
    }

    method FindFirst(value: T) returns (n: nat)
      requires Valid()
      modifies this`cachedLeaf, this`cachedBegin, this`cachedEnd
      ensures Valid() && Contents() == old(Contents()) && FirstAt(Contents(), value, 0, n)
    {
      if mem[root].LeafRec? {
        n := LeafFind(mem[root].elems, value, 0);
      } else {
        n := InnerFind(root, height, value, 0);
      }
    }

    method Set(n: nat, value: T)
      requires Valid() && n < size
      modifies this`mem, this`cachedLeaf, this`cachedBegin, this`cachedEnd
      ensures Valid() && Contents() == old(Contents())[n := value] && IsCompact(Tree()) == old(IsCompact(Tree()))
    {
      var leaf, k := Access(n);
      ghost var m0 := mem;
      var elems := mem[leaf].elems[k := value];
      Write(leaf, LeafRec(elems));
      if height > 0 {
        SetWhole(max, m0, root, height, leaf, n, k, value);
      }
    }

    method Clear()
      requires Valid()
      modifies this
      ensures Valid() && Contents() == [] && IsCompact(Tree())
    {
      if mem[root].LeafRec? {
        Write(root, LeafRec([]));
      } else {
        DestroyDeep(root, height);
        InvalidateLeafCache();
        root := Create(LeafRec([]));
        height := 0;
      }
      size := 0;
    }

    // -------------------------------------------------------------- bulk building

    /** Appends `values`, assembling an empty tree bottom-up when they exceed one leaf. */
    method AddFrom(values: seq<T>)
      requires Valid() && size + |values| < NPOS
      modifies this
      ensures Valid() && Contents() == old(Contents()) + values
      ensures old(IsCompact(Tree())) ==> IsCompact(Tree())
    {
      if size != 0 || |values| <= max {
        var j := 0;
        while j < |values|
          invariant j <= |values| && Valid() && Contents() == old(Contents()) + values[..j]
          invariant old(IsCompact(Tree())) ==> IsCompact(Tree())
        {
          Add(values[j]);
          assert values[..j + 1] == values[..j] + [values[j]];
          j := j + 1;
        }
        assert values[..|values|] == values;
      } else {
        CompactEmpty(max, Tree(), height);
        var leaves := CreateLeaves(values);
        BulkAdoptLeaves(leaves, |values|, values);
      }
    }

    method CreateLeaves(values: seq<T>) returns (leaves: seq<Ref>)
      requires RefsOK() && height == 0 && Whole(max, mem, root, 0) && |values| > 0
      modifies this`mem, this`nextRef
      ensures RefsOK() && |leaves| > 0 && RepAll(mem, leaves, 0) && root !in FPs(mem, leaves, 0)
      ensures mem.Keys == {root} + FPs(mem, leaves, 0) && mem[root] == old(mem[root])
      ensures Level(max, AbsAll(mem, leaves, 0), 0) && Flat(AbsAll(mem, leaves, 0)) == values
    {
      leaves := [];
      var offset := 0;
      ghost var m0 := mem;
      while offset < |values|
        invariant offset <= |values| && RefsOK() && root in mem && mem[root] == m0[root]
        invariant LeafRow(max, mem, root, leaves, values[..offset], offset < |values|)
        invariant offset > 0 ==> |leaves| > 0
      {
        var n := if |values| - offset < max then |values| - offset else max;
        var leaf := AddLeaf(leaves, values[..offset], values[offset..offset + n], offset + n < |values|);
        assert values[..offset + n] == values[..offset] + values[offset..offset + n];
        leaves := leaves + [leaf];
        offset := offset + n;
      }
      assert values[..|values|] == values;
    }

    method AddLeaf(ghost leaves: seq<Ref>, ghost s: seq<T>, part: seq<T>, ghost more: bool) returns (leaf: Ref)
      requires RefsOK() && root in mem && LeafRow(max, mem, root, leaves, s, true)
      requires 1 <= |part| <= max && (more ==> |part| == max)
      modifies this`mem, this`nextRef
      ensures RefsOK() && root in mem && mem[root] == old(mem[root])
      ensures LeafRow(max, mem, root, leaves + [leaf], s + part, more)
    {
      ghost var m := mem;
      leaf := Create(LeafRec(part));
      LeafAppended(max, m, root, leaves, s, part, leaf, more);
    }

    /** `bulk_adopt_leaves`: groups nodes under compact inner nodes, level by level. */
    method BulkAdoptLeaves(leaves: seq<Ref>, total: nat, ghost s: seq<T>)
      requires RefsOK() && height == 0 && LevelMem(max, mem, root, leaves, 0, s) && total == |s| < NPOS
      modifies this
      ensures Valid() && Contents() == s && IsCompact(Tree())
    {
      var elemsPerChild: nat := max;
      var level := leaves;
      ghost var h := 0;
      assert Pow(max, 1) == max * Pow(max, 0);
      while |level| > 1
        invariant RefsOK() && LevelMem(max, mem, root, level, h, s) && elemsPerChild == Pow(max, h + 1)
        decreases |level|
      {
        level := NextLevel(level, elemsPerChild, total, h, s);
        elemsPerChild := elemsPerChild * max;
        h := h + 1;
      }
      assert level == [level[0]];
      AdoptRoot(level[0], h, total, s);
    }

    method AdoptRoot(r: Ref, ghost h: nat, total: nat, ghost s: seq<T>)
      requires RefsOK() && LevelMem(max, mem, root, [r], h, s) && total == |s| < NPOS
      modifies this
      ensures Valid() && Contents() == s && IsCompact(Tree())
    {
      LevelRoot(max, mem, root, [r], h, s);
      mem := mem - {root};
      root, height, size := r, h, total;
      InvalidateLeafCache();
    }

    method NextLevel(level: seq<Ref>, elemsPerChild: nat, total: nat, ghost h: nat, ghost s: seq<T>)
      returns (next: seq<Ref>)
      requires RefsOK() && LevelMem(max, mem, root, level, h, s) && |level| > 1
      requires elemsPerChild == Pow(max, h + 1) && total == |s|
      modifies this`mem, this`nextRef
      ensures RefsOK() && LevelMem(max, mem, root, next, h + 1, s) && |next| < |level|
    {
      next := [];
      var i := 0;
      GroupStart(max, mem, root, level, h, s);
      assert level[0..] == level;
      while i < |level|
        invariant RefsOK() && GroupedUpTo(max, mem, root, next, level, i, h, s)
        decreases |level| - i
      {
        var y, n := NextGroup(i, level, elemsPerChild, total, next, h, s);
        next := next + [y];
        i := i + n;
      }
      GroupEnd(max, mem, root, next, h, s);
    }

    method NextGroup(i: nat, level: seq<Ref>, elemsPerChild: nat, total: nat, ghost next: seq<Ref>, ghost h: nat,
                     ghost s: seq<T>) returns (y: Ref, n: nat)
      requires RefsOK() && GroupedUpTo(max, mem, root, next, level, i, h, s) && i < |level| && |level| > 1
      requires elemsPerChild == Pow(max, h + 1) && total == |s|
      modifies this`mem, this`nextRef
      ensures n > 0 && RefsOK() && GroupedUpTo(max, mem, root, next + [y], level, i + n, h, s)
    {
      n := if |level| - i < max then |level| - i else max;
      GroupMade(max, i, |next|, |level|, n);
      y := AddGroup(i, level[i..i + n], |level| - i, elemsPerChild, total, next, level[i..], h, s);
      assert level[i..][n..] == level[i + n..];
    }

    /** One inner node over `group`, the first children of the `left` that remain from child `i` on. */
    method AddGroup(i: nat, group: seq<Ref>, left: nat, elemsPerChild: nat, total: nat,
                    ghost next: seq<Ref>, ghost rest: seq<Ref>, ghost h: nat, ghost s: seq<T>) returns (y: Ref)
      requires RefsOK() && Grouping(max, mem, root, next, rest, h, s) && rest != [] && left == |rest|
      requires |group| == (if |rest| < max then |rest| else max) && group == rest[..|group|]
      requires (next == [] ==> |rest| >= 2) && i == |next| * max
      requires elemsPerChild == Pow(max, h + 1) && total == |s|
      modifies this`mem, this`nextRef
      ensures RefsOK() && Grouping(max, mem, root, next + [y], rest[|group|..], h, s)
    {
      var n := |group|;
      RestSize(max, mem, root, next, rest, h, s);
      NodesBefore(i, |next|, max, elemsPerChild, Pow(max, h + 2));
      var subSize := if n < left then n * elemsPerChild else total - i * elemsPerChild;
      ghost var m1 := mem;
      y := Create(InnerRec(Compact(elemsPerChild), group, subSize));
      GroupStep(max, m1, root, next, rest, h, s, n, subSize, y);
    }
  }

  /** Append-only histories leave no trace: trees built by appends, in bulk or by both, that hold
      the same elements are equal node for node. */
  lemma CompactTreesEqual<T>(a: BPlusTree<T>, b: BPlusTree<T>)
    requires a.Valid() && b.Valid() && a.max == b.max && a.Contents() == b.Contents()
    requires IsCompact(a.Tree()) && IsCompact(b.Tree())
    ensures a.Tree() == b.Tree() && a.height == b.height
  {
    CompactTreeUnique(a.max, a.Tree(), a.height, b.Tree(), b.height);
  }
}
