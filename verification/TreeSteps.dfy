/** The steps of insertion and erasure on nodes in memory: which records change, and why the
    result represents the tree that the step on values describes. */
module TreeSteps {
  import opened TreeModel
  import opened TreeMemory
  import opened Words

  function Sibs(sib: Ref): seq<Ref> {
    if sib == 0 then [] else [sib]
  }

  /** Offset of child `i` according to the offsets array. */
  function ChildStart(offsets: seq<nat>, i: nat): nat
    requires i <= |offsets|
  {
    if i > 0 then offsets[i - 1] else 0
  }

  /** The offsets that `move` appends to its destination: those of children `i..sz`, less `adj`;
      a zero, the offset of a first child, is not stored. */
  function MovedOffsets(offsets: seq<nat>, i: nat, sz: nat, adj: int): seq<nat>
    requires sz <= |offsets| + 1
    requires forall j :: i <= j < sz ==> ChildStart(offsets, j) >= adj
    decreases sz - i
  {
    if i >= sz then [] else
      var o := ChildStart(offsets, i) - adj;
      (if o != 0 then [o] else []) + MovedOffsets(offsets, i + 1, sz, adj)
  }

  /** Children `ndx` to `i` of `src` were added to `dst`, with their offsets. */
  ghost predicate MovedUpTo<T>(m0: Mem<T>, m: Mem<T>, src: NodeRec<T>, dst: Ref, ndx: nat, i: nat, adj: int) {
    && src.InnerRec? && src.form.General? && |src.refs| == |src.form.offsets| + 1 && ndx <= i <= |src.refs|
    && (forall j :: ndx <= j < |src.refs| ==> ChildStart(src.form.offsets, j) >= adj)
    && dst in m0 && m0[dst].InnerRec? && m0[dst].form.General? && dst in m && m == m0[dst := m[dst]]
    && m[dst].InnerRec? && m[dst].form.General? && m[dst].size == m0[dst].size
    && m[dst].refs == m0[dst].refs + src.refs[ndx..i]
    && m[dst].form.offsets + MovedOffsets(src.form.offsets, i, |src.refs|, adj)
       == m0[dst].form.offsets + MovedOffsets(src.form.offsets, ndx, |src.refs|, adj)
  }

  lemma MovedOne<T>(m0: Mem<T>, m: Mem<T>, src: NodeRec<T>, dst: Ref, ndx: nat, i: nat, adj: int)
    requires MovedUpTo(m0, m, src, dst, ndx, i, adj) && i < |src.refs|
    ensures var o := ChildStart(src.form.offsets, i) - adj;
            MovedUpTo(m0, m[dst := InnerRec(General(m[dst].form.offsets + if o != 0 then [o] else []),
                                            m[dst].refs + [src.refs[i]], m[dst].size)], src, dst, ndx, i + 1, adj)
  {
    var o := ChildStart(src.form.offsets, i) - adj;
    var more, rest := if o != 0 then [o] else [], MovedOffsets(src.form.offsets, i + 1, |src.refs|, adj);
    assert m[dst].form.offsets + more + rest == m[dst].form.offsets + (more + rest);
    assert src.refs[ndx..i] + [src.refs[i]] == src.refs[ndx..i + 1];
  }

  lemma {:induction false} MovedOffsetsAll(offsets: seq<nat>, i: nat, sz: nat, adj: int)
    requires i <= sz <= |offsets| + 1
    requires forall j :: i <= j < sz ==> ChildStart(offsets, j) > adj
    ensures var moved := MovedOffsets(offsets, i, sz, adj);
            |moved| == sz - i && forall j :: 0 <= j < |moved| ==> moved[j] == ChildStart(offsets, i + j) - adj
    decreases sz - i
  {
    if i < sz {
      MovedOffsetsAll(offsets, i + 1, sz, adj);
      var moved, rest := MovedOffsets(offsets, i, sz, adj), MovedOffsets(offsets, i + 1, sz, adj);
      assert moved == [ChildStart(offsets, i) - adj] + rest;
      forall j | 0 <= j < |moved| ensures moved[j] == ChildStart(offsets, i + j) - adj {
        if j > 0 {
          assert moved[j] == rest[j - 1] == ChildStart(offsets, i + 1 + (j - 1)) - adj;
        }
      }
    }
  }

  lemma {:induction false} LaterStartsLarger<T>(kids: seq<Node<T>>, i: nat, j: nat)
    requires i < j < |kids| && forall k :: 0 <= k < |kids| ==> |Content(kids[k])| >= 1
    ensures Off(kids, i) < Off(kids, j)
  {
    FlatSplit(kids, i);
    OffMonotone(kids, i + 1, j);
  }

  /** Moving the children after `i` away, relative to where child `i + 1` starts, keeps all their
      offsets but the first, which is zero. */
  lemma {:induction false} SplitMoves<T>(offs: seq<nat>, kids: seq<Node<T>>, i: nat)
    requires OffsetsOK(offs, kids) && i + 1 < |kids|
    requires forall k :: 0 <= k < |kids| ==> |Content(kids[k])| >= 1
    ensures var adj := Off(kids, i + 1);
            && adj == Off(kids, i) + |Content(kids[i])|
            && (forall j :: i + 1 <= j < |kids| ==> ChildStart(offs, j) >= adj)
            && var moved := MovedOffsets(offs, i + 1, |kids|, adj);
               |moved| == |kids| - i - 2 && forall j :: 0 <= j < |moved| ==> moved[j] == offs[i + 1 + j] - adj
  {
    FlatSplit(kids, i);
    forall j | i + 2 <= j < |kids| ensures ChildStart(offs, j) > Off(kids, i + 1) {
      LaterStartsLarger(kids, i + 1, j);
    }
    MovedOffsetsAll(offs, i + 2, |kids|, Off(kids, i + 1));
  }

  // ---------------------------------------------------------------- rows

  lemma {:induction false} RowSplit<T>(m: Mem<T>, rs: seq<Ref>, k: nat, h: nat)
    requires RepAll(m, rs, h) && k <= |rs|
    ensures RepAll(m, rs[..k], h) && RepAll(m, rs[k..], h)
    ensures FPs(m, rs[..k], h) !! FPs(m, rs[k..], h) && FPs(m, rs, h) == FPs(m, rs[..k], h) + FPs(m, rs[k..], h)
    ensures AbsAll(m, rs[..k], h) == AbsAll(m, rs, h)[..k] && AbsAll(m, rs[k..], h) == AbsAll(m, rs, h)[k..]
  {
    assert rs == rs[..k] + rs[k..];
    RepConcat(m, rs[..k], rs[k..], h);
  }

  lemma {:induction false} RowAppend<T>(m: Mem<T>, rs: seq<Ref>, x: Ref, h: nat)
    requires RepAll(m, rs, h) && Rep(m, x, h) && FPs(m, rs, h) !! FP(m, x, h)
    ensures RepAll(m, rs + [x], h) && FPs(m, rs + [x], h) == FPs(m, rs, h) + FP(m, x, h)
    ensures AbsAll(m, rs + [x], h) == AbsAll(m, rs, h) + [Abs(m, x, h)]
  {
    RepOne(m, x, h);
    RepConcat(m, rs, [x], h);
  }

  lemma {:induction false} RowInsert<T>(m: Mem<T>, rs: seq<Ref>, k: nat, x: Ref, h: nat)
    requires RepAll(m, rs, h) && k <= |rs| && Rep(m, x, h) && FPs(m, rs, h) !! FP(m, x, h)
    ensures RepAll(m, rs[..k] + [x] + rs[k..], h)
    ensures FPs(m, rs[..k] + [x] + rs[k..], h) == FPs(m, rs, h) + FP(m, x, h)
    ensures AbsAll(m, rs[..k] + [x] + rs[k..], h) == AbsAll(m, rs, h)[..k] + [Abs(m, x, h)] + AbsAll(m, rs, h)[k..]
  {
    RowSplit(m, rs, k, h);
    RowAppend(m, rs[..k], x, h);
    RepConcat(m, rs[..k] + [x], rs[k..], h);
  }

  // ---------------------------------------------------------------- insertion

  /** Inserting into the node at `r`, which stood for `t0` and occupied `fp0`, turned memory `m0`
      into `m1`; `sib` is the new right sibling, or 0. */
  ghost predicate InsertDone<T>(max: NodeMax, m0: Mem<T>, m1: Mem<T>, fp0: set<Ref>, r: Ref, sib: Ref, h: nat,
                                t0: Node<T>, n: nat, v: T, st: Split)
  {
    && Rep(m1, r, h) && RepAll(m1, Sibs(sib), h) && FP(m1, r, h) !! FPs(m1, Sibs(sib), h)
    && Local(m0, m1, fp0, FP(m1, r, h) + FPs(m1, Sibs(sib), h))
    && Inserted(max, h, t0, Abs(m1, r, h), AbsAll(m1, Sibs(sib), h), n, v, st)
  }

  /** The node at `r` still has the record of `t0`, but its child `i` has become `c` and has a new
      right sibling `s` at `x`. */
  ghost predicate ChildSplit<T>(max: NodeMax, m: Mem<T>, r: Ref, h: nat, i: nat, x: Ref, st: Split,
                                t0: Node<T>, c: Node<T>, s: Node<T>, n: nat, k: nat, v: T)
  {
    && h > 0 && Rep(m, r, h) && Rep(m, x, h - 1) && x != 0
    && FP(m, r, h) !! FP(m, x, h - 1) && Abs(m, x, h - 1) == s
    && WF(max, t0, h) && |Flat(t0.kids)| < NPOS && Routed(t0.kids, i, n, k)
    && Inserted(max, h - 1, t0.kids[i], c, [s], k, v, st)
    && (t0.form.Compact? ==> n == NPOS)
    && m[r].form == t0.form && m[r].size == t0.size
    && AbsAll(m, m[r].refs, h - 1) == t0.kids[i := c]
  }

  lemma {:induction false} SiblingFits<T>(max: NodeMax, m: Mem<T>, r: Ref, h: nat, i: nat, x: Ref, st: Split,
                                          t0: Node<T>, c: Node<T>, s: Node<T>, n: nat, k: nat, v: T, form: Form)
    requires ChildSplit(max, m, r, h, i, x, st, t0, c, s, n, k, v) && |m[r].refs| < max
    requires t0.form.Compact? ==> form == t0.form
    requires t0.form.General? ==> form == General(WithSibling(t0.form.offsets, i, st.offset))
    ensures var rs := m[r].refs[..i + 1] + [x] + m[r].refs[i + 1..];
            InsertDone(max, m, m[r := InnerRec(form, rs, m[r].size + 1)], FP(m, r, h) + FP(m, x, h - 1), r, 0, h, t0,
                       n, v, st)
  {
    InsertSibling(max, h, t0, i, c, s, n, k, v, st, form, st);
    GrowRow(m, r, h, i + 1, x, form, m[r].size + 1);
    Splice(t0.kids, i, c, s);
  }

  lemma Splice<A>(kids: seq<A>, i: nat, c: A, s: A)
    requires i < |kids|
    ensures kids[i := c][..i + 1] + [s] == kids[..i] + [c] + [s] && kids[i := c][i + 1..] == kids[i + 1..]
  {
  }

  /** The node `x` joins the row below `r` at position `k`. */
  lemma {:induction false} GrowRow<T>(m: Mem<T>, r: Ref, h: nat, k: nat, x: Ref, form: Form, size: nat)
    requires h > 0 && Rep(m, r, h) && Rep(m, x, h - 1) && FP(m, r, h) !! FP(m, x, h - 1) && k <= |m[r].refs|
    ensures var kids := AbsAll(m, m[r].refs, h - 1);
            var m' := m[r := InnerRec(form, m[r].refs[..k] + [x] + m[r].refs[k..], size)];
            && Rep(m', r, h) && Local(m, m', FP(m, r, h) + FP(m, x, h - 1), FP(m', r, h))
            && Abs(m', r, h) == Inner(form, kids[..k] + [Abs(m, x, h - 1)] + kids[k..], size)
  {
    FPInMem(m, r, h);
    FPInMem(m, x, h - 1);
    RowInsert(m, m[r].refs, k, x, h - 1);
    WriteInner(m, r, form, m[r].refs[..k] + [x] + m[r].refs[k..], size, h);
  }

  /** Writing two inner nodes over two disjoint rows. */
  lemma {:induction false} WriteTwo<T>(m: Mem<T>, r: Ref, r1: NodeRec<T>, y: Ref, r2: NodeRec<T>, h: nat)
    requires h > 0 && r1.InnerRec? && r2.InnerRec? && r != y && y != 0
    requires RepAll(m, r1.refs, h - 1) && RepAll(m, r2.refs, h - 1) && FPs(m, r1.refs, h - 1) !! FPs(m, r2.refs, h - 1)
    requires r !in FPs(m, r1.refs, h - 1) + FPs(m, r2.refs, h - 1) &&
             y !in FPs(m, r1.refs, h - 1) + FPs(m, r2.refs, h - 1)
    ensures var m' := m[r := r1][y := r2];
            && Rep(m', r, h) && RepAll(m', Sibs(y), h)
            && Abs(m', r, h) == Inner(r1.form, AbsAll(m, r1.refs, h - 1), r1.size)
            && AbsAll(m', Sibs(y), h) == [Inner(r2.form, AbsAll(m, r2.refs, h - 1), r2.size)]
            && FP(m', r, h) == {r} + FPs(m, r1.refs, h - 1) && FPs(m', Sibs(y), h) == {y} + FPs(m, r2.refs, h - 1)
  {
    var m1 := m[r := r1];
    var m2 := m1[y := r2];
    WriteInner(m, r, r1.form, r1.refs, r1.size, h);
    Frame(m1, m2, r, h);
    FrameAll(m, m1, r2.refs, h - 1);
    WriteInner(m1, y, r2.form, r2.refs, r2.size, h);
    RepOne(m2, y, h);
  }

  /** The node `x` starts a new node at `y`, and `r` has a new size. */
  lemma {:induction false} NewRight<T>(m: Mem<T>, r: Ref, h: nat, x: Ref, s1: nat, y: Ref, f2: Form, s2: nat)
    requires h > 0 && Rep(m, r, h) && Rep(m, x, h - 1) && FP(m, r, h) !! FP(m, x, h - 1) && y !in m && y != 0
    ensures var m' := m[r := InnerRec(m[r].form, m[r].refs, s1)][y := InnerRec(f2, [x], s2)];
            && Rep(m', r, h) && RepAll(m', Sibs(y), h) && FP(m', r, h) !! FPs(m', Sibs(y), h)
            && Local(m, m', FP(m, r, h) + FP(m, x, h - 1), FP(m', r, h) + FPs(m', Sibs(y), h))
            && Abs(m', r, h) == Inner(m[r].form, AbsAll(m, m[r].refs, h - 1), s1)
            && AbsAll(m', Sibs(y), h) == [Inner(f2, [Abs(m, x, h - 1)], s2)]
  {
    FPInMem(m, r, h);
    FPInMem(m, x, h - 1);
    RepOne(m, x, h - 1);
    WriteTwo(m, r, InnerRec(m[r].form, m[r].refs, s1), y, InnerRec(f2, [x], s2), h);
  }

  lemma {:induction false} SplitAtLast<T>(max: NodeMax, m: Mem<T>, r: Ref, h: nat, i: nat, x: Ref, st: Split,
                                          t0: Node<T>, c: Node<T>, s: Node<T>, n: nat, k: nat, v: T, start: nat, y: Ref)
    requires ChildSplit(max, m, r, h, i, x, st, t0, c, s, n, k, v) && |m[r].refs| == max && i == max - 1
    requires start == Off(t0.kids, i) && y !in m && y != 0
    ensures var form := if t0.form.Compact? then t0.form else General([]);
            var m' := m[r := InnerRec(t0.form, m[r].refs, start + st.offset)]
                       [y := InnerRec(form, [x], st.size - st.offset)];
            InsertDone(max, m, m', FP(m, r, h) + FP(m, x, h - 1), r, y, h, t0, n, v,
                       Split(start + st.offset, start + st.size))
  {
    var form := if t0.form.Compact? then t0.form else General([]);
    InsertSplitLast(max, h, t0, c, s, n, k, v, st, start);
    NewRight(m, r, h, x, start + st.offset, y, form, st.size - st.offset);
  }

  lemma {:induction false} SplitInMiddle<T>(max: NodeMax, m: Mem<T>, r: Ref, h: nat, i: nat, x: Ref, st: Split,
                                            t0: Node<T>, c: Node<T>, s: Node<T>, n: nat, k: nat, v: T,
                                            start: nat, offs1: seq<nat>, offs2: seq<nat>, y: Ref)
    requires ChildSplit(max, m, r, h, i, x, st, t0, c, s, n, k, v) && |m[r].refs| == max && i + 1 < max
    requires t0.form.General? && n != NPOS && y !in m && y != 0
    requires start == Off(t0.kids, i)
    requires offs1 == t0.form.offsets[..i] + [start + st.offset]
    requires |offs2| == max - i - 2
    requires forall j :: 0 <= j < |offs2| ==> offs2[j] == t0.form.offsets[i + 1 + j] - (start + st.size - 1)
    ensures var cut := start + st.size;
            cut <= t0.size + 1 &&
            var m' := m[r := InnerRec(General(offs1), m[r].refs[..i + 1] + [x], cut)]
                       [y := InnerRec(General(offs2), m[r].refs[i + 1..], t0.size + 1 - cut)];
            InsertDone(max, m, m', FP(m, r, h) + FP(m, x, h - 1), r, y, h, t0, n, v, Split(cut, t0.size + 1))
  {
    var cut := start + st.size;
    InsertSplitMiddle(max, h, t0, i, c, s, n, k, v, st, offs1, offs2);
    CutRow(m, r, h, i + 1, x, General(offs1), cut, y, General(offs2), t0.size + 1 - cut);
    Splice(t0.kids, i, c, s);
  }

  lemma {:induction false} MiddleBounds<T>(max: NodeMax, m: Mem<T>, r: Ref, h: nat, i: nat, x: Ref, st: Split,
                                           t0: Node<T>, c: Node<T>, s: Node<T>, n: nat, k: nat, v: T)
    requires ChildSplit(max, m, r, h, i, x, st, t0, c, s, n, k, v) && |m[r].refs| == max && i + 1 < max
    ensures t0.form.General? && |t0.form.offsets| == max - 1
    ensures var cut := ChildStart(t0.form.offsets, i) + st.size;
            && 1 <= cut <= t0.size + 1
            && (forall j :: i + 1 <= j < max ==> ChildStart(t0.form.offsets, j) >= cut - 1)
            && var moved := MovedOffsets(t0.form.offsets, i + 1, max, cut - 1);
               |moved| == max - i - 2 && forall j :: 0 <= j < |moved| ==>
               moved[j] == t0.form.offsets[i + 1 + j] - (cut - 1)
    ensures ChildStart(t0.form.offsets, i) == Off(t0.kids, i)
  {
    NoneEmpty(max, t0.kids, h - 1);
    SplitMoves(t0.form.offsets, t0.kids, i);
    OffMonotone(t0.kids, i + 1, max);
    assert t0.kids[..max] == t0.kids;
  }

  lemma {:induction false} NoneEmpty<T>(max: NodeMax, kids: seq<Node<T>>, h: nat)
    requires forall i :: 0 <= i < |kids| ==> WF(max, kids[i], h)
    ensures forall i :: 0 <= i < |kids| ==> |Content(kids[i])| >= 1
  {
    forall i | 0 <= i < |kids| ensures |Content(kids[i])| >= 1 {
      Capacity(max, kids[i], h);
    }
  }

  /** What `move` and the writes after it make of the two halves. */
  lemma {:induction false} MiddleMoves<T>(max: NodeMax, m: Mem<T>, r: Ref, h: nat, i: nat, x: Ref, st: Split,
                                          t0: Node<T>, c: Node<T>, s: Node<T>, n: nat, k: nat, v: T, y: Ref)
    requires ChildSplit(max, m, r, h, i, x, st, t0, c, s, n, k, v) && |m[r].refs| == max && i + 1 < max
    requires y !in m && y != 0
    ensures t0.form.General? && |t0.form.offsets| == max - 1
    ensures var start := ChildStart(t0.form.offsets, i);
            var cut := start + st.size;
            && 1 <= cut <= t0.size + 1
            && (forall j :: i + 1 <= j < max ==> ChildStart(t0.form.offsets, j) >= cut - 1)
            && var offs1 := t0.form.offsets[..i] + [start + st.offset];
               var offs2 := MovedOffsets(t0.form.offsets, i + 1, max, cut - 1);
               var m' := m[r := InnerRec(General(offs1), m[r].refs[..i + 1] + [x], cut)]
                          [y := InnerRec(General(offs2), m[r].refs[i + 1..], t0.size + 1 - cut)];
               InsertDone(max, m, m', FP(m, r, h) + FP(m, x, h - 1), r, y, h, t0, n, v, Split(cut, t0.size + 1))
  {
    MiddleBounds(max, m, r, h, i, x, st, t0, c, s, n, k, v);
    var start := ChildStart(t0.form.offsets, i);
    var offs2 := MovedOffsets(t0.form.offsets, i + 1, max, start + st.size - 1);
    SplitInMiddle(max, m, r, h, i, x, st, t0, c, s, n, k, v, start, t0.form.offsets[..i] + [start + st.offset], offs2,
                  y);
  }

  lemma {:induction false} RowCut<T>(m: Mem<T>, rs: seq<Ref>, k: nat, x: Ref, h: nat)
    requires RepAll(m, rs, h) && k <= |rs| && Rep(m, x, h) && FPs(m, rs, h) !! FP(m, x, h)
    ensures var a, b := rs[..k] + [x], rs[k..];
            && RepAll(m, a, h) && RepAll(m, b, h) && FPs(m, a, h) !! FPs(m, b, h)
            && FPs(m, a, h) + FPs(m, b, h) == FPs(m, rs, h) + FP(m, x, h)
            && AbsAll(m, a, h) == AbsAll(m, rs, h)[..k] + [Abs(m, x, h)] && AbsAll(m, b, h) == AbsAll(m, rs, h)[k..]
  {
    RowSplit(m, rs, k, h);
    RowAppend(m, rs[..k], x, h);
  }

  /** The row below `r` is cut at `k`: `r` keeps the first part and gets `x`, `y` gets the rest. */
  lemma {:induction false} CutRow<T>(m: Mem<T>, r: Ref, h: nat, k: nat, x: Ref, f1: Form, s1: nat, y: Ref, f2: Form,
                                     s2: nat)
    requires h > 0 && Rep(m, r, h) && Rep(m, x, h - 1) && FP(m, r, h) !! FP(m, x, h - 1)
    requires k <= |m[r].refs| && y !in m && y != 0
    ensures var kids := AbsAll(m, m[r].refs, h - 1);
            var m' := m[r := InnerRec(f1, m[r].refs[..k] + [x], s1)][y := InnerRec(f2, m[r].refs[k..], s2)];
            && Rep(m', r, h) && RepAll(m', Sibs(y), h) && FP(m', r, h) !! FPs(m', Sibs(y), h)
            && Local(m, m', FP(m, r, h) + FP(m, x, h - 1), FP(m', r, h) + FPs(m', Sibs(y), h))
            && Abs(m', r, h) == Inner(f1, kids[..k] + [Abs(m, x, h - 1)], s1)
            && AbsAll(m', Sibs(y), h) == [Inner(f2, kids[k..], s2)]
  {
    var rs := m[r].refs;
    FPInMem(m, r, h);
    FPInMem(m, x, h - 1);
    RowCut(m, rs, k, x, h - 1);
    WriteTwo(m, r, InnerRec(f1, rs[..k] + [x], s1), y, InnerRec(f2, rs[k..], s2), h);
  }

  lemma {:induction false} InsertDoneAfter<T>(max: NodeMax, m0: Mem<T>, m1: Mem<T>, m2: Mem<T>, fp0: set<Ref>,
                                              fp1: set<Ref>,
                                              r: Ref, sib: Ref, h: nat, t0: Node<T>, t1: Node<T>, n: nat, v: T,
                                              st: Split)
    requires Local(m0, m1, fp0, fp1) && InsertDone(max, m1, m2, fp1, r, sib, h, t1, n, v, st)
    requires Content(t0) == Content(t1) && NodeSize(t0) == NodeSize(t1) && (n == NPOS ==> t0 == t1)
    ensures InsertDone(max, m0, m2, fp0, r, sib, h, t0, n, v, st)
  {
    LocalTrans(m0, m1, m2, fp0, fp1, FP(m2, r, h) + FPs(m2, Sibs(sib), h));
  }

  /** Rewriting the record of `r` so that its first `i + 1` children stay in place does not move a
      leaf below child `i`. */
  lemma {:induction false} LeafStays<T>(m1: Mem<T>, m2: Mem<T>, r: Ref, h: nat, i: nat, leaf: Ref, o: int)
    requires h > 0 && Rep(m1, r, h) && Rep(m2, r, h) && i < |m1[r].refs| && i < |m2[r].refs|
    requires m1[r].refs[..i + 1] == m2[r].refs[..i + 1]
    requires forall y :: y in m1 && y != r ==> y in m2 && m2[y] == m1[y]
    requires Rep(m1, m1[r].refs[i], h - 1)
    requires LeafAt(m1, m1[r].refs[i], h - 1, leaf, o - Off(AbsAll(m1, m1[r].refs, h - 1), i))
    ensures LeafAt(m2, r, h, leaf, o) && leaf in m1 && leaf in m2 && m2[leaf] == m1[leaf] && m1[leaf].LeafRec?
  {
    var c, off := m1[r].refs[i], Off(AbsAll(m1, m1[r].refs, h - 1), i);
    PrefixStays(m1, m2, r, h, i);
    Focus(m1, m1[r].refs, i, h - 1);
    RepOne(m1, c, h - 1);
    LeafHolds(m1, [c], h - 1, leaf, o - off);
    LeafFrame(m1, m2, [c], h - 1, leaf, o - off);
    RepOne(m2, c, h - 1);
    LeafUp(m2, r, h, i, leaf, o);
  }

  lemma {:induction false} PrefixStays<T>(m1: Mem<T>, m2: Mem<T>, r: Ref, h: nat, i: nat)
    requires h > 0 && Rep(m1, r, h) && Rep(m2, r, h) && i < |m1[r].refs| && i < |m2[r].refs|
    requires m1[r].refs[..i + 1] == m2[r].refs[..i + 1]
    requires forall y :: y in m1 && y != r ==> y in m2 && m2[y] == m1[y]
    ensures m1[r].refs[i] == m2[r].refs[i]
    ensures Off(AbsAll(m2, m2[r].refs, h - 1), i) == Off(AbsAll(m1, m1[r].refs, h - 1), i)
  {
    var rs1, rs2 := m1[r].refs, m2[r].refs;
    assert rs1[..i + 1][..i] == rs1[..i] && rs2[..i + 1][..i] == rs2[..i];
    assert rs1[..i + 1][i] == rs1[i] && rs2[..i + 1][i] == rs2[i];
    RowSplit(m1, rs1, i, h - 1);
    RowSplit(m2, rs2, i, h - 1);
    FrameAll(m1, m2, rs1[..i], h - 1);
  }

  // ---------------------------------------------------------------- one level of the descent

  ghost predicate Good<T>(max: NodeMax, m: Mem<T>, r: Ref, h: nat) {
    Rep(m, r, h) && WF(max, Abs(m, r, h), h)
  }

  /** The cached leaf, if any, lies in the tree at `r`, whose first element has index `start`, and
      the cached bounds are exactly its index range. */
  ghost predicate Cached<T>(m: Mem<T>, r: Ref, h: nat, start: int, leaf: Ref, begin: nat, end: nat) {
    && Rep(m, r, h)
    && (begin == NPOS ||
        (LeafAt(m, r, h, leaf, begin - start) && leaf in m && m[leaf].LeafRec? && end == begin + |m[leaf].elems|))
  }

  /** The node at `r` was possibly converted to general form, and its child `i`, which starts at
      `off`, was chosen for position `n`. */
  ghost predicate Chosen<T>(max: NodeMax, m0: Mem<T>, m1: Mem<T>, r: Ref, h: nat, n: nat, i: nat, off: nat, k: nat) {
    && h > 0 && Good(max, m0, r, h) && Good(max, m1, r, h)
    && Local(m0, m1, FP(m0, r, h), FP(m1, r, h))
    && Content(Abs(m1, r, h)) == Content(Abs(m0, r, h))
    && |Content(Abs(m1, r, h))| < NPOS
    && (if n == NPOS then m1 == m0 else m1[r].form.General? && m1[r].refs == m0[r].refs)
    && Abs(m1, r, h).kids == Abs(m0, r, h).kids
    && Routed(Abs(m1, r, h).kids, i, n, k) && off == Off(Abs(m1, r, h).kids, i) && k <= NPOS
  }

  lemma {:induction false} ChosenChild<T>(max: NodeMax, m0: Mem<T>, m1: Mem<T>, r: Ref, h: nat, n: nat, i: nat,
                                          off: nat, k: nat)
    requires Chosen(max, m0, m1, r, h, n, i, off, k)
    ensures i < |m1[r].refs| && Good(max, m1, m1[r].refs[i], h - 1)
    ensures Abs(m1, m1[r].refs[i], h - 1) == Abs(m1, r, h).kids[i]
    ensures off + |Content(Abs(m1, m1[r].refs[i], h - 1))| <= |Content(Abs(m0, r, h))|
  {
    Focus(m1, m1[r].refs, i, h - 1);
    FlatSplit(Abs(m1, r, h).kids, i);
  }

  /** Child `i` of `r` is done; `x` is its new sibling, or 0. The record of `r` is still `t1`'s. */
  ghost predicate Below<T>(max: NodeMax, m: Mem<T>, r: Ref, h: nat, i: nat, x: Ref, t1: Node<T>, n: nat, k: nat, v: T,
                           st: Split) {
    && h > 0 && Rep(m, r, h) && RepAll(m, Sibs(x), h - 1) && FP(m, r, h) !! FPs(m, Sibs(x), h - 1)
    && t1.Inner? && m[r].form == t1.form && m[r].size == t1.size && i < |m[r].refs| && Rep(m, m[r].refs[i], h - 1)
    && WF(max, t1, h) && |Flat(t1.kids)| < NPOS && Routed(t1.kids, i, n, k)
    && AbsAll(m, m[r].refs, h - 1) == t1.kids[i := Abs(m, m[r].refs[i], h - 1)]
    && Inserted(max, h - 1, t1.kids[i], Abs(m, m[r].refs[i], h - 1), AbsAll(m, Sibs(x), h - 1), k, v, st)
    && (t1.form.Compact? ==> n == NPOS)
  }

  lemma {:induction false} ChildGrew<T>(max: NodeMax, m: Mem<T>, r: Ref, h: nat, i: nat,
                                        t1: Node<T>, n: nat, k: nat, v: T, form: Form, st: Split)
    requires Below(max, m, r, h, i, 0, t1, n, k, v, st)
    requires t1.form.Compact? ==> form == t1.form
    requires t1.form.General? ==> form == General(AdjustFrom(t1.form.offsets, i, 1))
    ensures InsertDone(max, m, m[r := InnerRec(form, m[r].refs, m[r].size + 1)], FP(m, r, h) + FPs(m, [], h - 1), r,
                       0, h, t1, n, v, st)
  {
    InsertNoSplit(max, h, t1, i, Abs(m, m[r].refs[i], h - 1), n, k, v, form, st);
    FPInMem(m, r, h);
    WriteInner(m, r, form, m[r].refs, m[r].size + 1, h);
  }

  lemma {:induction false} BelowSplit<T>(max: NodeMax, m: Mem<T>, r: Ref, h: nat, i: nat, x: Ref, t1: Node<T>, n: nat,
                                         k: nat, v: T, st: Split)
    requires Below(max, m, r, h, i, x, t1, n, k, v, st) && x != 0
    ensures Rep(m, x, h - 1) && FPs(m, Sibs(x), h - 1) == FP(m, x, h - 1)
    ensures ChildSplit(max, m, r, h, i, x, st, t1, Abs(m, m[r].refs[i], h - 1), Abs(m, x, h - 1), n, k, v)
  {
    RepOne(m, x, h - 1);
  }

  lemma {:induction false} ChildDone<T>(max: NodeMax, m0: Mem<T>, m1: Mem<T>, m2: Mem<T>, r: Ref, h: nat,
                                        n: nat, i: nat, off: nat, k: nat, v: T, c: Ref, x: Ref, st: Split)
    requires Chosen(max, m0, m1, r, h, n, i, off, k) && i < |m1[r].refs| && c == m1[r].refs[i] && Rep(m1, c, h - 1)
    requires InsertDone(max, m1, m2, FP(m1, c, h - 1), c, x, h - 1, Abs(m1, c, h - 1), k, v, st)
    ensures r in m2 && m2[r] == m1[r] && Below(max, m2, r, h, i, x, Abs(m1, r, h), n, k, v, st)
    ensures Local(m0, m2, FP(m0, r, h), FP(m2, r, h) + FPs(m2, Sibs(x), h - 1))
  {
    Focus(m1, m1[r].refs, i, h - 1);
    ChildChanged(m1, m2, r, h, i, Sibs(x));
    LocalTrans(m0, m1, m2, FP(m0, r, h), FP(m1, r, h), FP(m2, r, h) + FPs(m2, Sibs(x), h - 1));
  }

  /** Only the record of `r` and new nodes were written, and the first `i + 1` children stay. */
  ghost predicate KeepsPrefix<T>(m1: Mem<T>, m2: Mem<T>, r: Ref, i: nat) {
    && r in m1 && r in m2 && m1[r].InnerRec? && m2[r].InnerRec? && i < |m1[r].refs| && i < |m2[r].refs|
    && m1[r].refs[..i + 1] == m2[r].refs[..i + 1]
    && forall y :: y in m1 && y != r ==> y in m2 && m2[y] == m1[y]
  }

  lemma CutKeepsPrefix<T>(m: Mem<T>, r: Ref, i: nat, x: Ref, rec: NodeRec<T>, y: Ref, rec': NodeRec<T>)
    requires r in m && m[r].InnerRec? && i < |m[r].refs| && y !in m
    requires rec.InnerRec? && rec.refs == m[r].refs[..i + 1] + [x]
    ensures KeepsPrefix(m, m[r := rec][y := rec'], r, i)
  {
  }

  lemma {:induction false} CacheUp<T>(m1: Mem<T>, m2: Mem<T>, r: Ref, h: nat, i: nat, start: int, leaf: Ref,
                                      begin: nat, end: nat)
    requires h > 0 && Rep(m1, r, h) && Rep(m2, r, h) && KeepsPrefix(m1, m2, r, i)
    requires Cached(m1, m1[r].refs[i], h - 1, start + Off(AbsAll(m1, m1[r].refs, h - 1), i), leaf, begin, end)
    ensures Cached(m2, r, h, start, leaf, begin, end)
  {
    if begin != NPOS {
      LeafStays(m1, m2, r, h, i, leaf, begin - start);
    }
  }

  lemma {:induction false} NodeDone<T>(max: NodeMax, m0: Mem<T>, m1: Mem<T>, m2: Mem<T>, m3: Mem<T>, r: Ref, h: nat,
                                       n: nat, i: nat, off: nat, k: nat, v: T, x: Ref, sib: Ref, st: Split)
    requires Chosen(max, m0, m1, r, h, n, i, off, k)
    requires Local(m0, m2, FP(m0, r, h), FP(m2, r, h) + FPs(m2, Sibs(x), h - 1))
    requires InsertDone(max, m2, m3, FP(m2, r, h) + FPs(m2, Sibs(x), h - 1), r, sib, h, Abs(m1, r, h), n, v, st)
    ensures InsertDone(max, m0, m3, FP(m0, r, h), r, sib, h, Abs(m0, r, h), n, v, st)
  {
    InsertDoneAfter(max, m0, m2, m3, FP(m0, r, h), FP(m2, r, h) + FPs(m2, Sibs(x), h - 1), r, sib, h,
                    Abs(m0, r, h), Abs(m1, r, h), n, v, st);
  }

  lemma {:induction false} BelowCache<T>(max: NodeMax, m1: Mem<T>, m2: Mem<T>, m3: Mem<T>, r: Ref, h: nat, i: nat,
                                         x: Ref, t1: Node<T>, n: nat, k: nat, v: T, st: Split,
                                         c: Ref, off: nat, start: nat, leaf: Ref, begin: nat, end: nat)
    requires Below(max, m2, r, h, i, x, t1, n, k, v, st) && off == Off(t1.kids, i)
    requires Rep(m3, r, h) && KeepsPrefix(m2, m3, r, i) && c == m2[r].refs[i]
    requires Cached(m2, c, h - 1, off + start, leaf, begin, end)
    ensures Cached(m3, r, h, start, leaf, begin, end)
  {
    OffAfterUpdate(t1.kids, i, Abs(m2, m2[r].refs[i], h - 1), i);
    CacheUp(m2, m3, r, h, i, start, leaf, begin, end);
  }

  // ---------------------------------------------------------------- the root grows

  lemma {:induction false} RootGrew<T>(max: NodeMax, m0: Mem<T>, m1: Mem<T>, fp0: set<Ref>, r: Ref, sib: Ref, h: nat,
                                       t0: Node<T>, n: nat, v: T, st: Split, form: Form, y: Ref)
    requires InsertDone(max, m0, m1, fp0, r, sib, h, t0, n, v, st) && sib != 0 && y !in m1
    requires (form == Compact(st.offset) && n == NPOS && IsCompact(t0)) || form == General([st.offset])
    ensures var m2 := m1[y := InnerRec(form, [r, sib], st.size)];
            && Rep(m2, y, h + 1) && WFRoot(max, Abs(m2, y, h + 1), h + 1)
            && Content(Abs(m2, y, h + 1)) == InsertAt(Content(t0), n, v)
            && FP(m2, y, h + 1) == {y} + FP(m1, r, h) + FPs(m1, [sib], h)
  {
    FPInMem(m1, r, h);
    FPsInMem(m1, [sib], h);
    RepOne(m1, sib, h);
    RepOne(m1, r, h);
    RepConcat(m1, [r], [sib], h);
    assert [r] + [sib] == [r, sib];
    WriteInner(m1, y, form, [r, sib], st.size, h + 1);
    GrowRoot(max, h, t0, Abs(m1, r, h), Abs(m1, sib, h), n, v, st, form);
    assert AbsAll(m1, [r, sib], h) == [Abs(m1, r, h), Abs(m1, sib, h)];
  }

  lemma {:induction false} CacheUnderNewRoot<T>(m1: Mem<T>, m2: Mem<T>, r: Ref, y: Ref, h: nat, leaf: Ref, begin: nat,
                                                end: nat)
    requires if h == 0 then begin == NPOS else Cached(m1, r, h, 0, leaf, begin, end)
    requires y !in m1 && Rep(m2, y, h + 1) && y in m2
    requires |m2[y].refs| >= 1 && m2[y].refs[0] == r && m2 == m1[y := m2[y]]
    ensures Cached(m2, y, h + 1, 0, leaf, begin, end)
  {
    if begin != NPOS {
      FPInMem(m1, r, h);
      RepOne(m1, r, h);
      LeafFrame(m1, m2, [r], h, leaf, begin);
      RepOne(m2, r, h);
      LeafUp(m2, y, h + 1, 0, leaf, begin);
    }
  }

  // ---------------------------------------------------------------- erasure

  /** Erasing element `n` below `r`, which stood for `t0`. A result size of 0 says that nothing is
      left of it, and the caller has to destroy it. */
  ghost predicate EraseDone<T>(max: NodeMax, m0: Mem<T>, m1: Mem<T>, r: Ref, h: nat, t0: Node<T>, n: nat, sz: nat) {
    && Rep(m1, r, h) && Local(m0, m1, FP(m0, r, h), FP(m1, r, h))
    && if sz == 0 then |Content(t0)| == 1
       else Erased(max, h, t0, Abs(m1, r, h), n) && sz == NodeSize(Abs(m1, r, h)) && (h > 0 ==> m1[r].form.General?)
  }

  /** Child `i` of `r` is done and reported size `sz`. The record of `r` is still `t1`'s. */
  ghost predicate ErasedBelow<T>(max: NodeMax, m: Mem<T>, r: Ref, h: nat, i: nat, t1: Node<T>, n: nat, k: nat,
                                 sz: nat) {
    && h > 0 && Rep(m, r, h) && WF(max, t1, h) && t1.form.General?
    && m[r].form == t1.form && m[r].size == t1.size && i < |m[r].refs| && Rep(m, m[r].refs[i], h - 1)
    && Routed(t1.kids, i, n, k) && n != NPOS && n < |Flat(t1.kids)|
    && AbsAll(m, m[r].refs, h - 1) == t1.kids[i := Abs(m, m[r].refs[i], h - 1)]
    && (if sz == 0 then
          |Content(t1.kids[i])| == 1
        else
          Erased(max, h - 1, t1.kids[i], Abs(m, m[r].refs[i], h - 1), k) && sz == NodeSize(Abs(m, m[r].refs[i], h - 1)))
  }

  lemma {:induction false} ChildErased<T>(max: NodeMax, m0: Mem<T>, m1: Mem<T>, m2: Mem<T>, r: Ref, h: nat,
                                          n: nat, i: nat, off: nat, k: nat, c: Ref, sz: nat)
    requires Chosen(max, m0, m1, r, h, n, i, off, k) && n != NPOS && n < |Content(Abs(m1, r, h))|
    requires i < |m1[r].refs| && c == m1[r].refs[i] && Rep(m1, c, h - 1)
    requires EraseDone(max, m1, m2, c, h - 1, Abs(m1, c, h - 1), k, sz)
    ensures ErasedBelow(max, m2, r, h, i, Abs(m1, r, h), n, k, sz) && m2[r] == m1[r]
    ensures Local(m0, m2, FP(m0, r, h), FP(m2, r, h))
  {
    Focus(m1, m1[r].refs, i, h - 1);
    ChildReplaced(m1, m2, r, h, i, c);
    LocalTrans(m0, m1, m2, FP(m0, r, h), FP(m1, r, h), FP(m2, r, h));
  }

  lemma {:induction false} ChildReplaced<T>(m0: Mem<T>, m1: Mem<T>, r: Ref, h: nat, i: nat, c: Ref)
    requires h > 0 && Rep(m0, r, h) && i < |m0[r].refs| && c == m0[r].refs[i]
    requires Rep(m0, c, h - 1) && Rep(m1, c, h - 1) && Local(m0, m1, FP(m0, c, h - 1), FP(m1, c, h - 1))
    ensures r in m1 && m1[r] == m0[r] && Rep(m1, r, h)
    ensures AbsAll(m1, m1[r].refs, h - 1) == AbsAll(m0, m0[r].refs, h - 1)[i := Abs(m1, c, h - 1)]
    ensures Local(m0, m1, FP(m0, r, h), FP(m1, r, h))
  {
    assert FP(m1, c, h - 1) + FPs(m1, [], h - 1) == FP(m1, c, h - 1);
    ChildChanged(m0, m1, r, h, i, []);
    assert FP(m1, r, h) + FPs(m1, [], h - 1) == FP(m1, r, h);
  }

  lemma {:induction false} ChildShrank<T>(max: NodeMax, m: Mem<T>, r: Ref, h: nat, i: nat, t1: Node<T>, n: nat,
                                          k: nat, sz: nat)
    requires ErasedBelow(max, m, r, h, i, t1, n, k, sz) && sz > 0
    ensures t1.size >= 1 && forall j :: i <= j < |t1.form.offsets| ==> t1.form.offsets[j] >= 1
    ensures EraseDone(max, m, m[r := InnerRec(General(AdjustFrom(t1.form.offsets, i, -1)), m[r].refs, t1.size - 1)],
                      r, h, t1, n, |t1.kids|)
  {
    EraseShrinks(max, h, t1, i, Abs(m, m[r].refs[i], h - 1), n, k);
    FPInMem(m, r, h);
    WriteInner(m, r, General(AdjustFrom(t1.form.offsets, i, -1)), m[r].refs, t1.size - 1, h);
  }

  lemma {:induction false} OnlyChildEmpty<T>(max: NodeMax, m: Mem<T>, r: Ref, h: nat, i: nat, t1: Node<T>, n: nat,
                                             k: nat)
    requires ErasedBelow(max, m, r, h, i, t1, n, k, 0)
    ensures t1.size >= 1 && forall j :: i <= j < |t1.form.offsets| ==> t1.form.offsets[j] >= 1
    ensures |m[r].refs| == 1 ==>
      EraseDone(max, m, m[r := InnerRec(General(AdjustFrom(t1.form.offsets, i, -1)), m[r].refs, t1.size - 1)], r, h,
                t1, n, 0)
  {
    FPInMem(m, r, h);
    AdjustOK(t1.form.offsets, t1.kids, i, Leaf([]));
    FlatSplit(t1.kids, i);
    WriteInner(m, r, General(AdjustFrom(t1.form.offsets, i, -1)), m[r].refs, t1.size - 1, h);
  }

  lemma {:induction false} RowRemove<T>(m: Mem<T>, rs: seq<Ref>, k: nat, h: nat)
    requires RepAll(m, rs, h) && k < |rs|
    ensures Rep(m, rs[k], h) && FP(m, rs[k], h) <= FPs(m, rs, h)
    ensures RepAll(m, rs[..k] + rs[k + 1..], h)
    ensures FPs(m, rs[..k] + rs[k + 1..], h) == FPs(m, rs, h) - FP(m, rs[k], h)
    ensures AbsAll(m, rs[..k] + rs[k + 1..], h) == AbsAll(m, rs, h)[..k] + AbsAll(m, rs, h)[k + 1..]
  {
    Focus(m, rs, k, h);
    RepConcat(m, rs[..k], rs[k + 1..], h);
  }

  /** The row below `r` loses its tree `k`, which is destroyed. */
  lemma {:induction false} DropChild<T>(m: Mem<T>, r: Ref, h: nat, k: nat, form: Form, size: nat)
    requires h > 0 && Rep(m, r, h) && k < |m[r].refs|
    ensures var kids := AbsAll(m, m[r].refs, h - 1);
            var m' := m[r := InnerRec(form, m[r].refs[..k] + m[r].refs[k + 1..], size)] - FP(m, m[r].refs[k], h - 1);
            && Rep(m', r, h) && Local(m, m', FP(m, r, h), FP(m', r, h))
            && Abs(m', r, h) == Inner(form, kids[..k] + kids[k + 1..], size)
  {
    var rs := m[r].refs[..k] + m[r].refs[k + 1..];
    var m1 := m[r := InnerRec(form, rs, size)];
    FPInMem(m, r, h);
    RowRemove(m, m[r].refs, k, h - 1);
    WriteInner(m, r, form, rs, size, h);
    Frame(m1, m1 - FP(m, m[r].refs[k], h - 1), r, h);
  }

  lemma {:induction false} ChildRemoved<T>(max: NodeMax, m: Mem<T>, r: Ref, h: nat, i: nat, t1: Node<T>, n: nat,
                                           k: nat, form: Form)
    requires ErasedBelow(max, m, r, h, i, t1, n, k, 0) && |m[r].refs| >= 2
    requires forall j :: i <= j < |t1.form.offsets| ==> t1.form.offsets[j] >= 1
    requires form == General(WithoutChild(AdjustFrom(t1.form.offsets, i, -1), i)) && t1.size >= 1
    ensures EraseDone(max, m, m[r := InnerRec(form, m[r].refs[..i] + m[r].refs[i + 1..], t1.size - 1)]
                              - FP(m, m[r].refs[i], h - 1),
                      r, h, t1, n, |t1.kids| - 1)
  {
    EraseRemovesChild(max, h, t1, i, n, k);
    DropChild(m, r, h, i, form, t1.size - 1);
    var kids := t1.kids[i := Abs(m, m[r].refs[i], h - 1)];
    assert kids[..i] + kids[i + 1..] == t1.kids[..i] + t1.kids[i + 1..];
  }

  lemma {:induction false} EraseDoneAfter<T>(max: NodeMax, m0: Mem<T>, m1: Mem<T>, m2: Mem<T>, r: Ref, h: nat,
                                             t0: Node<T>, t1: Node<T>, n: nat, sz: nat)
    requires Local(m0, m1, FP(m0, r, h), FP(m1, r, h)) && EraseDone(max, m1, m2, r, h, t1, n, sz)
    requires Content(t0) == Content(t1)
    ensures EraseDone(max, m0, m2, r, h, t0, n, sz)
  {
    LocalTrans(m0, m1, m2, FP(m0, r, h), FP(m1, r, h), FP(m2, r, h));
  }

  // ---------------------------------------------------------------- merging siblings

  /** Trees `a` and `b` became one tree at `a`; `b` is gone. */
  ghost predicate Joined<T>(max: NodeMax, m: Mem<T>, m1: Mem<T>, a: Ref, b: Ref, h: nat) {
    && Rep(m, a, h) && Rep(m, b, h) && Rep(m1, a, h)
    && Local(m, m1, FP(m, a, h) + FP(m, b, h), FP(m1, a, h))
    && WF(max, Abs(m1, a, h), h)
    && Content(Abs(m1, a, h)) == Content(Abs(m, a, h)) + Content(Abs(m, b, h))
  }

  lemma {:induction false} JoinLeaves<T>(max: NodeMax, m: Mem<T>, a: Ref, b: Ref)
    requires Good(max, m, a, 0) && Good(max, m, b, 0) && a != b && |m[a].elems| + |m[b].elems| <= max
    ensures Joined(max, m, m[a := LeafRec(m[a].elems + m[b].elems)] - {b}, a, b, 0)
  {
  }

  lemma {:induction false} JoinNodes<T>(max: NodeMax, m: Mem<T>, a: Ref, b: Ref, h: nat, offs: seq<nat>)
    requires h > 0 && Good(max, m, a, h) && Good(max, m, b, h) && FP(m, a, h) !! FP(m, b, h)
    requires m[a].form.General? && m[b].form.General? && |m[a].refs| + |m[b].refs| <= max
    requires offs == m[a].form.offsets + MovedOffsets(m[b].form.offsets, 0, |m[b].refs|, -(m[a].size as int))
    ensures Joined(max, m, m[a := InnerRec(General(offs), m[a].refs + m[b].refs, m[a].size + m[b].size)] - {b}, a, b, h)
  {
    var ra, rb, ob, sa := m[a].refs, m[b].refs, m[b].form.offsets, m[a].size;
    Capacity(max, Abs(m, a, h), h);
    JoinedOffsets(m[a].form.offsets, ob, sa, |rb|, offs);
    JoinInner(max, h, Abs(m, a, h), Abs(m, b, h), offs);
    FPInMem(m, a, h);
    FPInMem(m, b, h);
    RepConcat(m, ra, rb, h - 1);
    var m1 := m[a := InnerRec(General(offs), ra + rb, m[a].size + m[b].size)];
    WriteInner(m, a, General(offs), ra + rb, m[a].size + m[b].size, h);
    Frame(m1, m1 - {b}, a, h);
  }

  lemma {:induction false} JoinedOffsets(oa: seq<nat>, ob: seq<nat>, sa: nat, nb: nat, offs: seq<nat>)
    requires sa > 0 && nb == |ob| + 1
    requires offs == oa + MovedOffsets(ob, 0, nb, -(sa as int))
    ensures offs == oa + [sa] + seq(|ob|, j requires 0 <= j < |ob| => ob[j] + sa)
  {
    MovedOffsetsAll(ob, 0, nb, -(sa as int));
  }

  /** Two neighbours in the row below `r` were joined, and `r` drops the second. */
  lemma {:induction false} MergeRow<T>(max: NodeMax, m: Mem<T>, m1: Mem<T>, r: Ref, h: nat, i: nat, form: Form)
    requires h > 0 && Good(max, m, r, h) && m[r].form.General? && i + 1 < |m[r].refs|
    requires Joined(max, m, m1, m[r].refs[i], m[r].refs[i + 1], h - 1)
    requires |m[r].form.offsets| == |m[r].refs| - 1 && form == General(MergedOffsets(m[r].form.offsets, i))
    ensures var m2 := m1[r := InnerRec(form, m[r].refs[..i + 1] + m[r].refs[i + 2..], m[r].size)];
            && Good(max, m2, r, h) && Content(Abs(m2, r, h)) == Content(Abs(m, r, h))
            && Local(m, m2, FP(m, r, h), FP(m2, r, h))
            && NodeSize(Abs(m2, r, h)) == |m[r].refs| - 1
            && Rep(m2, m[r].refs[i], h - 1) && Agree(m1, m2, FP(m1, m[r].refs[i], h - 1))
            && Off(AbsAll(m2, m2[r].refs, h - 1), i) == Off(AbsAll(m, m[r].refs, h - 1), i)
  {
    JoinedUnder(m, m1, r, h, i, form);
    var t, c := Abs(m, r, h), Abs(m1, m[r].refs[i], h - 1);
    MergeChildren(max, h, t, i, c);
    assert (t.kids[..i] + [c] + t.kids[i + 2..])[..i] == t.kids[..i];
  }

  lemma {:induction false} JoinedUnder<T>(m: Mem<T>, m1: Mem<T>, r: Ref, h: nat, i: nat, form: Form)
    requires h > 0 && Rep(m, r, h) && i + 1 < |m[r].refs|
    requires var a, b := m[r].refs[i], m[r].refs[i + 1];
             && Rep(m, a, h - 1) && Rep(m, b, h - 1) && Rep(m1, a, h - 1)
             && Local(m, m1, FP(m, a, h - 1) + FP(m, b, h - 1), FP(m1, a, h - 1))
    ensures var kids, a := AbsAll(m, m[r].refs, h - 1), m[r].refs[i];
            var m2 := m1[r := InnerRec(form, m[r].refs[..i + 1] + m[r].refs[i + 2..], m[r].size)];
            && Rep(m2, r, h) && Local(m, m2, FP(m, r, h), FP(m2, r, h))
            && Abs(m2, r, h) == Inner(form, kids[..i] + [Abs(m1, a, h - 1)] + kids[i + 2..], m[r].size)
            && kids[i] == Abs(m, a, h - 1) && kids[i + 1] == Abs(m, m[r].refs[i + 1], h - 1)
            && Rep(m2, a, h - 1) && Agree(m1, m2, FP(m1, a, h - 1))
  {
    var rs := m[r].refs[..i + 1] + m[r].refs[i + 2..];
    JoinedRow(m, m1, m[r].refs, h - 1, i);
    AbsAt(m, m[r].refs, i, h - 1);
    AbsAt(m, m[r].refs, i + 1, h - 1);
    FPInMem(m, r, h);
    WriteInner(m1, r, form, rs, m[r].size, h);
    Frame(m1, m1[r := InnerRec(form, rs, m[r].size)], m[r].refs[i], h - 1);
  }

  lemma {:induction false} AbsAt<T>(m: Mem<T>, rs: seq<Ref>, i: nat, h: nat)
    requires RepAll(m, rs, h) && i < |rs| && Rep(m, rs[i], h)
    ensures AbsAll(m, rs, h)[i] == Abs(m, rs[i], h)
    decreases i
  {
    if i > 0 {
      AbsAt(m, rs[1..], i - 1, h);
    }
  }

  lemma {:induction false} HeadTwo<T>(m: Mem<T>, rs: seq<Ref>, h: nat)
    requires RepAll(m, rs, h) && |rs| >= 2 && Rep(m, rs[0], h) && Rep(m, rs[1], h)
    ensures var q, fp0 := rs[2..], FP(m, rs[0], h) + FP(m, rs[1], h);
            && RepAll(m, q, h) && AbsAll(m, rs, h)[2..] == AbsAll(m, q, h)
            && FPs(m, rs, h) == fp0 + FPs(m, q, h) && fp0 !! FPs(m, q, h)
  {
    assert rs[1..][1..] == rs[2..] && rs[1..][0] == rs[1];
  }

  lemma {:induction false} JoinedHead<T>(m: Mem<T>, m1: Mem<T>, rs: seq<Ref>, h: nat)
    requires RepAll(m, rs, h) && |rs| >= 2 && Rep(m, rs[0], h) && Rep(m, rs[1], h) && Rep(m1, rs[0], h)
    requires Local(m, m1, FP(m, rs[0], h) + FP(m, rs[1], h), FP(m1, rs[0], h))
    ensures var fp0 := FP(m, rs[0], h) + FP(m, rs[1], h);
            && RepAll(m1, [rs[0]] + rs[2..], h)
            && AbsAll(m1, [rs[0]] + rs[2..], h) == [Abs(m1, rs[0], h)] + AbsAll(m, rs, h)[2..]
            && fp0 <= FPs(m, rs, h) && FPs(m1, [rs[0]] + rs[2..], h) == (FPs(m, rs, h) - fp0) + FP(m1, rs[0], h)
  {
    var q := rs[2..];
    HeadTwo(m, rs, h);
    LocalFrame(m, m1, FP(m, rs[0], h) + FP(m, rs[1], h), FP(m1, rs[0], h), q, h);
    RepOne(m1, rs[0], h);
    RepConcat(m1, [rs[0]], q, h);
  }

  lemma {:induction false} JoinedRow<T>(m: Mem<T>, m1: Mem<T>, rs: seq<Ref>, h: nat, i: nat)
    requires RepAll(m, rs, h) && i + 1 < |rs|
    requires Rep(m, rs[i], h) && Rep(m, rs[i + 1], h) && Rep(m1, rs[i], h)
    requires Local(m, m1, FP(m, rs[i], h) + FP(m, rs[i + 1], h), FP(m1, rs[i], h))
    ensures var rs', kids := rs[..i + 1] + rs[i + 2..], AbsAll(m, rs, h);
            var fp0 := FP(m, rs[i], h) + FP(m, rs[i + 1], h);
            && RepAll(m1, rs', h)
            && AbsAll(m1, rs', h) == kids[..i] + [Abs(m1, rs[i], h)] + kids[i + 2..]
            && fp0 <= FPs(m, rs, h) && FPs(m1, rs', h) == (FPs(m, rs, h) - fp0) + FP(m1, rs[i], h)
  {
    var l, q := rs[..i], rs[i..];
    RowSplit(m, rs, i, h);
    JoinedHead(m, m1, q, h);
    LocalFrame(m, m1, FP(m, rs[i], h) + FP(m, rs[i + 1], h), FP(m1, rs[i], h), l, h);
    RepConcat(m1, l, [q[0]] + q[2..], h);
    Regroup(rs, i, rs[i]);
    Regroup(AbsAll(m, rs, h), i, Abs(m1, rs[i], h));
    assert rs[..i] + [rs[i]] == rs[..i + 1];
  }

  lemma Regroup<A>(kids: seq<A>, i: nat, c: A)
    requires i + 2 <= |kids|
    ensures kids[..i] + ([c] + kids[i..][2..]) == kids[..i] + [c] + kids[i + 2..]
  {
    assert kids[i..][2..] == kids[i + 2..];
  }

  lemma {:induction false} CacheFrame<T>(m: Mem<T>, m1: Mem<T>, r: Ref, h: nat, start: int, leaf: Ref, begin: nat,
                                         end: nat)
    requires Cached(m, r, h, start, leaf, begin, end) && Agree(m, m1, FP(m, r, h))
    ensures Cached(m1, r, h, start, leaf, begin, end)
  {
    Frame(m, m1, r, h);
    if begin != NPOS {
      RepOne(m, r, h);
      LeafHolds(m, [r], h, leaf, begin - start);
      LeafFrame(m, m1, [r], h, leaf, begin - start);
      RepOne(m1, r, h);
    }
  }

  /** More children at the end of `a` do not move a leaf below `a`. */
  lemma {:induction false} CacheExtended<T>(m: Mem<T>, m1: Mem<T>, a: Ref, rb: seq<Ref>, h: nat, start: int,
                                            leaf: Ref, begin: nat, end: nat)
    requires h > 0 && Cached(m, a, h, start, leaf, begin, end) && Rep(m1, a, h)
    requires m1[a].refs == m[a].refs + rb && Agree(m, m1, FPs(m, m[a].refs, h - 1))
    ensures Cached(m1, a, h, start, leaf, begin, end)
  {
    if begin != NPOS {
      var ra, o := m[a].refs, begin - start;
      LeafHolds(m, ra, h - 1, leaf, o);
      LeafFrame(m, m1, ra, h - 1, leaf, o);
      RepConcat(m1, ra, rb, h - 1);
      LeafInConcat(m1, ra, rb, h - 1, leaf, o);
    }
  }

  lemma {:induction false} CacheOfChild<T>(m: Mem<T>, r: Ref, h: nat, i: nat, c: Ref, off: nat, start: int, leaf: Ref,
                                           begin: nat, end: nat)
    requires h > 0 && Rep(m, r, h) && i < |m[r].refs| && c == m[r].refs[i] && off == Off(AbsAll(m, m[r].refs, h - 1), i)
    requires Cached(m, c, h - 1, off + start, leaf, begin, end)
    ensures Cached(m, r, h, start, leaf, begin, end)
  {
    if begin != NPOS {
      LeafUp(m, r, h, i, leaf, begin - start);
    }
  }

  lemma {:induction false} Neighbours<T>(m: Mem<T>, rs: seq<Ref>, h: nat, i: nat)
    requires RepAll(m, rs, h) && i + 1 < |rs|
    ensures var a, b := rs[i], rs[i + 1];
            && Rep(m, a, h) && Rep(m, b, h) && FP(m, a, h) !! FP(m, b, h)
            && AbsAll(m, rs, h)[i] == Abs(m, a, h) && AbsAll(m, rs, h)[i + 1] == Abs(m, b, h)
            && FP(m, a, h) + FP(m, b, h) <= FPs(m, rs, h) <= m.Keys
  {
    Focus(m, rs, i, h);
    Focus(m, rs, i + 1, h);
    assert rs[..i + 1] == rs[..i] + [rs[i]];
    RepConcat(m, rs[..i], [rs[i]], h);
    RepOne(m, rs[i], h);
    FPsInMem(m, rs, h);
  }

  /** Neighbours below a well-formed node. */
  lemma {:induction false} TwoChildren<T>(max: NodeMax, m: Mem<T>, r: Ref, h: nat, i: nat)
    requires h > 0 && Good(max, m, r, h) && i + 1 < |m[r].refs|
    ensures var a, b := m[r].refs[i], m[r].refs[i + 1];
            && Good(max, m, a, h - 1) && Good(max, m, b, h - 1)
            && FP(m, a, h - 1) !! FP(m, b, h - 1) && r !in FP(m, a, h - 1) && r !in FP(m, b, h - 1)
            && AbsAll(m, m[r].refs, h - 1)[i] == Abs(m, a, h - 1) &&
               AbsAll(m, m[r].refs, h - 1)[i + 1] == Abs(m, b, h - 1)
            && FP(m, a, h - 1) + FP(m, b, h - 1) <= m.Keys
  {
    var rs := m[r].refs;
    Neighbours(m, rs, h - 1, i);
    var kids := Abs(m, r, h).kids;
    assert WF(max, kids[i], h - 1) && WF(max, kids[i + 1], h - 1);
    assert kids[i] == Abs(m, rs[i], h - 1) && kids[i + 1] == Abs(m, rs[i + 1], h - 1);
  }

  /** Changing only the form of a child of a general node, not its contents, keeps the node. */
  lemma {:induction false} ChildReformed<T>(max: NodeMax, m: Mem<T>, m1: Mem<T>, r: Ref, h: nat, i: nat, c: Ref)
    requires h > 0 && Good(max, m, r, h) && m[r].form.General? && i < |m[r].refs| && c == m[r].refs[i]
    requires Rep(m, c, h - 1) && Good(max, m1, c, h - 1) && Local(m, m1, FP(m, c, h - 1), FP(m1, c, h - 1))
    requires Content(Abs(m1, c, h - 1)) == Content(Abs(m, c, h - 1))
    ensures Good(max, m1, r, h) && m1[r] == m[r] && Content(Abs(m1, r, h)) == Content(Abs(m, r, h))
    ensures Local(m, m1, FP(m, r, h), FP(m1, r, h))
    ensures Off(AbsAll(m1, m1[r].refs, h - 1), i) == Off(AbsAll(m, m[r].refs, h - 1), i)
  {
    ChildReplaced(m, m1, r, h, i, c);
    Focus(m, m[r].refs, i, h - 1);
    SameChild(max, h, Abs(m, r, h), i, Abs(m1, c, h - 1));
  }

  lemma {:induction false} SameChild<T>(max: NodeMax, h: nat, t: Node<T>, i: nat, c: Node<T>)
    requires h > 0 && WF(max, t, h) && t.form.General? && i < |t.kids|
    requires WF(max, c, h - 1) && Content(c) == Content(t.kids[i])
    ensures WF(max, Inner(t.form, t.kids[i := c], t.size), h) && Flat(t.kids[i := c]) == Flat(t.kids)
    ensures Off(t.kids[i := c], i) == Off(t.kids, i)
  {
    var kids := t.kids[i := c];
    assert kids == t.kids[..i] + [c] + t.kids[i + 1..];
    FlatThree(t.kids[..i], c, t.kids[i + 1..]);
    FlatSplit(t.kids, i);
    forall j | 0 <= j < |t.form.offsets| ensures t.form.offsets[j] == Off(kids, j + 1) {
      OffAfterUpdate(t.kids, i, c, j + 1);
    }
    OffAfterUpdate(t.kids, i, c, i);
    MakeGeneral(max, h, t.form.offsets, kids);
  }

  // ---------------------------------------------------------------- erasure, one level

  lemma {:induction false} ChosenErase<T>(max: NodeMax, m0: Mem<T>, m1: Mem<T>, r: Ref, h: nat, n: nat, i: nat,
                                          off: nat, k: nat)
    requires Chosen(max, m0, m1, r, h, n, i, off, k) && n != NPOS && n < |Content(Abs(m1, r, h))|
    ensures i < |m1[r].refs| && Rep(m1, m1[r].refs[i], h - 1) && k < |Content(Abs(m1, m1[r].refs[i], h - 1))|
  {
    Focus(m1, m1[r].refs, i, h - 1);
    EraseRouted(Abs(m1, r, h).kids, i, n, k);
  }

  /** The state of `r` after erasing below it, when it stays: well formed, on general form, its
      child `i` of size `sz` holding the cached leaf, if any. */
  ghost predicate Shrunk<T>(max: NodeMax, m: Mem<T>, r: Ref, h: nat, i: nat, c: Ref, sz: nat, off: nat,
                            start: nat, leaf: Ref, begin: nat, end: nat)
  {
    && h > 0 && Good(max, m, r, h) && m[r].form.General? && i < |m[r].refs| && c == m[r].refs[i]
    && off == Off(AbsAll(m, m[r].refs, h - 1), i)
    && Rep(m, c, h - 1) && sz == NodeSize(Abs(m, c, h - 1)) && (h > 1 ==> m[c].form.General?)
    && Cached(m, c, h - 1, off + start, leaf, begin, end)
  }

  lemma {:induction false} ShrunkFrom<T>(max: NodeMax, m: Mem<T>, m1: Mem<T>, r: Ref, h: nat, i: nat, c: Ref, sz: nat,
                                         off: nat, start: nat, leaf: Ref, begin: nat, end: nat)
    requires h > 0 && Rep(m, r, h) && Good(max, m1, r, h) && m1[r].form.General?
    requires m1 == m[r := InnerRec(m1[r].form, m[r].refs, m1[r].size)]
    requires i < |m[r].refs| && c == m[r].refs[i] && off == Off(AbsAll(m, m[r].refs, h - 1), i)
    requires Rep(m, c, h - 1) && sz == NodeSize(Abs(m, c, h - 1)) && (h > 1 ==> m[c].form.General?)
    requires Cached(m, c, h - 1, off + start, leaf, begin, end)
    ensures Shrunk(max, m1, r, h, i, c, sz, off, start, leaf, begin, end)
  {
    Focus(m, m[r].refs, i, h - 1);
    FrameAll(m, m1, m[r].refs, h - 1);
    Frame(m, m1, c, h - 1);
    CacheFrame(m, m1, c, h - 1, off + start, leaf, begin, end);
  }

  /** Below `r` the child kept its place and its offset. */
  lemma {:induction false} ErasedBelowOff<T>(max: NodeMax, m: Mem<T>, r: Ref, h: nat, i: nat, t1: Node<T>, n: nat,
                                             k: nat, sz: nat)
    requires ErasedBelow(max, m, r, h, i, t1, n, k, sz)
    ensures Off(AbsAll(m, m[r].refs, h - 1), i) == Off(t1.kids, i) && r !in FP(m, m[r].refs[i], h - 1)
    ensures |m[r].refs| == |t1.kids| == |t1.form.offsets| + 1
  {
    OffAfterUpdate(t1.kids, i, Abs(m, m[r].refs[i], h - 1), i);
    Focus(m, m[r].refs, i, h - 1);
  }

  /** Child `i`, which has size `sz`, and the next one fit comfortably into one node. */
  ghost predicate SmallWithNext<T>(max: NodeMax, m: Mem<T>, r: Ref, i: nat, sz: nat) {
    && r in m && m[r].InnerRec? && i + 1 < |m[r].refs| && m[r].refs[i + 1] in m
    && var next := m[m[r].refs[i + 1]];
       (if next.LeafRec? then |next.elems| else |next.refs|) + sz < max * 3 / 4
  }

  /** Whether the next child is small is seen in its record. */
  lemma {:induction false} NextInMemory<T>(max: NodeMax, m: Mem<T>, m1: Mem<T>, r: Ref, h: nat, i: nat, t1: Node<T>,
                                           n: nat, k: nat, sz: nat)
    requires ErasedBelow(max, m, r, h, i, t1, n, k, sz) && i + 1 < |m[r].refs|
    requires r in m1 && m1 == m[r := m1[r]] && m1[r].InnerRec? && m1[r].refs == m[r].refs
    ensures |t1.kids| == |m[r].refs|
    ensures SmallWithNext(max, m1, r, i, sz) <==> NodeSize(t1.kids[i + 1]) + sz < max * 3 / 4
  {
    var rs := m[r].refs;
    Focus(m, rs, i + 1, h - 1);
    AbsAt(m, rs, i + 1, h - 1);
    FPInMem(m, rs[i + 1], h - 1);
  }

  lemma SizeBelow<T>(max: NodeMax, t: Node<T>, i: nat, n: nat, k: nat)
    requires t.Inner? && Routed(t.kids, i, n, k) && n < NPOS
    ensures SizeAfterErase(max, t, n) == NodesAfter(max, t.kids, i, SizeAfterErase(max, t.kids[i], k))
  {
    RouteIs(t.kids, i, n, k);
  }

  /** The size is the right one if the child's was. */
  lemma {:induction false} SizeReported<T>(max: NodeMax, m0: Mem<T>, m1: Mem<T>, r: Ref, h: nat, n: nat, i: nat,
                                           off: nat, k: nat, c: Ref, childSize: nat, sz: nat)
    requires Chosen(max, m0, m1, r, h, n, i, off, k) && n < NPOS
    requires i < |m1[r].refs| && c == m1[r].refs[i] && Rep(m1, c, h - 1)
    requires childSize == SizeAfterErase(max, Abs(m1, c, h - 1), k)
    requires sz == NodesAfter(max, Abs(m1, r, h).kids, i, childSize)
    ensures sz == SizeAfterErase(max, Abs(m0, r, h), n)
  {
    AbsAt(m1, m1[r].refs, i, h - 1);
    SizeBelow(max, Abs(m0, r, h), i, n, k);
  }

  /** Child `i` was chosen and is done; `r` is not yet. */
  ghost predicate ErasedHalf<T>(max: NodeMax, m0: Mem<T>, m1: Mem<T>, m2: Mem<T>, r: Ref, h: nat, n: nat, i: nat,
                                off: nat, k: nat, c: Ref, sz: nat) {
    && Chosen(max, m0, m1, r, h, n, i, off, k) && n < NPOS && i < |m1[r].refs| && c == m1[r].refs[i]
    && Rep(m1, c, h - 1) && sz == SizeAfterErase(max, Abs(m1, c, h - 1), k)
    && ErasedBelow(max, m2, r, h, i, Abs(m1, r, h), n, k, sz) && m2[r] == m1[r]
    && Local(m0, m2, FP(m0, r, h), FP(m2, r, h)) && (sz > 0 && h > 1 ==> m2[c].form.General?)
  }

  lemma {:induction false} ErasedUp<T>(max: NodeMax, m0: Mem<T>, m1: Mem<T>, m2: Mem<T>, m3: Mem<T>, r: Ref, h: nat,
                                       n: nat, i: nat, off: nat, k: nat, c: Ref, childSize: nat, sz: nat)
    requires ErasedHalf(max, m0, m1, m2, r, h, n, i, off, k, c, childSize)
    requires EraseDone(max, m2, m3, r, h, Abs(m1, r, h), n, sz)
    requires sz == NodesAfter(max, Abs(m1, r, h).kids, i, childSize)
    ensures EraseDone(max, m0, m3, r, h, Abs(m0, r, h), n, sz) && sz == SizeAfterErase(max, Abs(m0, r, h), n)
  {
    SizeReported(max, m0, m1, r, h, n, i, off, k, c, childSize, sz);
    EraseDoneAfter(max, m0, m2, m3, r, h, Abs(m0, r, h), Abs(m1, r, h), n, sz);
  }

  /** The node after merging, or not merging, child `i` with its neighbour. */
  ghost predicate Settled<T>(max: NodeMax, m: Mem<T>, m1: Mem<T>, r: Ref, h: nat, sz: nat) {
    && Rep(m, r, h) && Good(max, m1, r, h) && h > 0 && m1[r].form.General?
    && Content(Abs(m1, r, h)) == Content(Abs(m, r, h))
    && Local(m, m1, FP(m, r, h), FP(m1, r, h)) && sz == NodeSize(Abs(m1, r, h)) && sz > 0
  }

  lemma {:induction false} SettledDone<T>(max: NodeMax, m0: Mem<T>, m1: Mem<T>, m2: Mem<T>, r: Ref, h: nat,
                                          t1: Node<T>, n: nat, sz1: nat, sz: nat)
    requires EraseDone(max, m0, m1, r, h, t1, n, sz1) && sz1 > 0 && Settled(max, m1, m2, r, h, sz)
    ensures EraseDone(max, m0, m2, r, h, t1, n, sz)
  {
    LocalTrans(m0, m1, m2, FP(m0, r, h), FP(m1, r, h), FP(m2, r, h));
  }

  /** Merging as it is written: `a` gets everything, `b` is emptied, `r` drops `b` and its offset,
      and `b` is freed. */
  lemma {:induction false} MergedIn<T>(max: NodeMax, m: Mem<T>, r: Ref, h: nat, i: nat, recA: NodeRec<T>,
                                       recB: NodeRec<T>, m2: Mem<T>)
    requires h > 0 && Good(max, m, r, h) && m[r].form.General? && i + 1 < |m[r].refs|
    requires |m[r].form.offsets| == |m[r].refs| - 1
    requires Joined(max, m, m[m[r].refs[i] := recA] - {m[r].refs[i + 1]}, m[r].refs[i], m[r].refs[i + 1], h - 1)
    requires r != m[r].refs[i] && r != m[r].refs[i + 1]
    requires m2 == m[m[r].refs[i] := recA][m[r].refs[i + 1] := recB]
                    [r := InnerRec(General(MergedOffsets(m[r].form.offsets, i)),
                                   m[r].refs[..i + 1] + m[r].refs[i + 2..], m[r].size)]
                   - {m[r].refs[i + 1]}
    ensures Settled(max, m, m2, r, h, |m[r].refs| - 1)
    ensures var m1 := m[m[r].refs[i] := recA] - {m[r].refs[i + 1]};
            m2[r].refs[i] == m[r].refs[i] && Agree(m1, m2, FP(m1, m[r].refs[i], h - 1))
    ensures Off(AbsAll(m2, m2[r].refs, h - 1), i) == Off(AbsAll(m, m[r].refs, h - 1), i)
  {
    var a, b, form := m[r].refs[i], m[r].refs[i + 1], General(MergedOffsets(m[r].form.offsets, i));
    var m1 := m[a := recA] - {b};
    MergeRow(max, m, m1, r, h, i, form);
    assert m2 == m1[r := InnerRec(form, m[r].refs[..i + 1] + m[r].refs[i + 2..], m[r].size)];
  }

  lemma {:induction false} SettledAfter<T>(max: NodeMax, m: Mem<T>, m1: Mem<T>, m2: Mem<T>, r: Ref, h: nat, sz: nat)
    requires Rep(m, r, h) && Rep(m1, r, h) && Local(m, m1, FP(m, r, h), FP(m1, r, h))
    requires Content(Abs(m1, r, h)) == Content(Abs(m, r, h)) && Settled(max, m1, m2, r, h, sz)
    ensures Settled(max, m, m2, r, h, sz)
  {
    LocalTrans(m, m1, m2, FP(m, r, h), FP(m1, r, h), FP(m2, r, h));
  }

  lemma {:induction false} JoinShift<T>(max: NodeMax, m: Mem<T>, r: Ref, h: nat, i: nat, a: Ref)
    requires h > 1 && Good(max, m, r, h) && m[r].form.General? && i + 1 < |m[r].refs|
    requires a == m[r].refs[i] && Rep(m, a, h - 1) && m[a].form.General?
    ensures |m[r].form.offsets| == |m[r].refs| - 1 && m[a].size > 0
    ensures ChildStart(m[r].form.offsets, i) - m[r].form.offsets[i] == -(m[a].size as int)
  {
    TwoChildren(max, m, r, h, i);
    FlatSplit(Abs(m, r, h).kids, i);
    Capacity(max, Abs(m, a, h - 1), h - 1);
  }

  /** Joining two inner children: the adjustment that the code computes from the parent's offsets
      is the size of the first child. */
  lemma {:induction false} JoinBelow<T>(max: NodeMax, m: Mem<T>, r: Ref, h: nat, i: nat, a: Ref, b: Ref)
    requires h > 1 && Good(max, m, r, h) && m[r].form.General? && i + 1 < |m[r].refs|
    requires a == m[r].refs[i] && b == m[r].refs[i + 1] && Rep(m, a, h - 1) && Rep(m, b, h - 1)
    requires m[a].form.General? && m[b].form.General? && |m[a].refs| + |m[b].refs| <= max
    ensures |m[r].form.offsets| == |m[r].refs| - 1 && |m[b].form.offsets| == |m[b].refs| - 1
    ensures var adj := ChildStart(m[r].form.offsets, i) - m[r].form.offsets[i];
            && adj < 0
            && var offs := m[a].form.offsets + MovedOffsets(m[b].form.offsets, 0, |m[b].refs|, adj);
               Joined(max, m, m[a := InnerRec(General(offs), m[a].refs + m[b].refs, m[a].size + m[b].size)] - {b}, a,
                      b, h - 1)
  {
    JoinShift(max, m, r, h, i, a);
    TwoChildren(max, m, r, h, i);
    JoinNodes(max, m, a, b, h - 1,
              m[a].form.offsets + MovedOffsets(m[b].form.offsets, 0, |m[b].refs|, -(m[a].size as int)));
  }

  lemma {:induction false} JoinedCache<T>(m: Mem<T>, m1: Mem<T>, m2: Mem<T>, r: Ref, h: nat, i: nat, a: Ref,
                                          rb: seq<Ref>, off: nat, start: nat, leaf: Ref, begin: nat, end: nat)
    requires h > 1 && Cached(m, a, h - 1, off + start, leaf, begin, end) && Rep(m1, a, h - 1)
    requires m1[a].refs == m[a].refs + rb && Agree(m, m1, FPs(m, m[a].refs, h - 2))
    requires Agree(m1, m2, FP(m1, a, h - 1)) && Rep(m2, r, h) && i < |m2[r].refs| && m2[r].refs[i] == a
    requires off == Off(AbsAll(m2, m2[r].refs, h - 1), i)
    ensures Cached(m2, r, h, start, leaf, begin, end)
  {
    CacheExtended(m, m1, a, rb, h - 1, off + start, leaf, begin, end);
    CacheFrame(m1, m2, a, h - 1, off + start, leaf, begin, end);
    CacheOfChild(m2, r, h, i, a, off, start, leaf, begin, end);
  }

  /** Children `i` and `i + 1` of `r` are inner nodes on general form and fit into one. */
  ghost predicate MergeReady<T>(max: NodeMax, m: Mem<T>, m1: Mem<T>, r: Ref, h: nat, i: nat, a: Ref, b: Ref, off: nat,
                                start: nat, leaf: Ref, begin: nat, end: nat)
  {
    && h > 1 && Rep(m, r, h) && Good(max, m1, r, h) && m1[r].form.General? && m1[r].refs == m[r].refs
    && Local(m, m1, FP(m, r, h), FP(m1, r, h)) && Content(Abs(m1, r, h)) == Content(Abs(m, r, h))
    && i + 1 < |m1[r].refs| && a == m1[r].refs[i] && b == m1[r].refs[i + 1] && Rep(m1, a, h - 1) && Rep(m1, b, h - 1)
    && m1[a].form.General? && m1[b].form.General? && |m1[a].refs| + |m1[b].refs| <= max
    && off == Off(AbsAll(m1, m1[r].refs, h - 1), i)
    && Cached(m1, a, h - 1, off + start, leaf, begin, end)
  }

  lemma {:induction false} MakeReady<T>(max: NodeMax, m: Mem<T>, m1: Mem<T>, r: Ref, h: nat, i: nat, a: Ref, b: Ref,
                                        sz: nat, off: nat, start: nat, leaf: Ref, begin: nat, end: nat)
    requires h > 1 && Shrunk(max, m, r, h, i, a, sz, off, start, leaf, begin, end)
    requires i + 1 < |m[r].refs| && b == m[r].refs[i + 1]
    requires Good(max, m, b, h - 1) && Good(max, m1, b, h - 1) && m1[b].form.General?
    requires m1 == m[b := m[b].(form := m1[b].form)] && Local(m, m1, FP(m, b, h - 1), FP(m1, b, h - 1))
    requires Content(Abs(m1, b, h - 1)) == Content(Abs(m, b, h - 1)) && |m[a].refs| + |m[b].refs| <= max
    ensures MergeReady(max, m, m1, r, h, i, a, b, off, start, leaf, begin, end)
  {
    TwoChildren(max, m, r, h, i);
    ChildReformed(max, m, m1, r, h, i + 1, b);
    ChildReplaced(m, m1, r, h, i + 1, b);
    CacheFrame(m, m1, a, h - 1, off + start, leaf, begin, end);
    var kids := AbsAll(m, m[r].refs, h - 1);
    assert kids[i + 1 := Abs(m1, b, h - 1)][..i] == kids[..i];
  }

  /** Memory after the writes of an inner merge. */
  ghost function MergedMem<T>(m: Mem<T>, r: Ref, i: nat, a: Ref, b: Ref): Mem<T>
    requires MergeWritable(m, r, i, a, b)
  {
    var rr, ra, rb := m[r], m[a], m[b];
    var adj := ChildStart(rr.form.offsets, i) - rr.form.offsets[i];
    m[a := InnerRec(General(ra.form.offsets + MovedOffsets(rb.form.offsets, 0, |rb.refs|, adj)), ra.refs + rb.refs,
                    ra.size + rb.size)]
     [b := InnerRec(General(rb.form.offsets), [], 0)]
     [r := InnerRec(General(MergedOffsets(rr.form.offsets, i)), rr.refs[..i + 1] + rr.refs[i + 2..], rr.size)]
    - {b}
  }

  ghost predicate MergeWritable<T>(m: Mem<T>, r: Ref, i: nat, a: Ref, b: Ref) {
    && r in m && a in m && b in m && r != a && r != b && a != b
    && m[r].InnerRec? && m[a].InnerRec? && m[b].InnerRec?
    && m[r].form.General? && m[a].form.General? && m[b].form.General?
    && i + 1 < |m[r].refs| && a == m[r].refs[i] && b == m[r].refs[i + 1]
    && |m[r].form.offsets| == |m[r].refs| - 1 && |m[b].form.offsets| == |m[b].refs| - 1
    && ChildStart(m[r].form.offsets, i) < m[r].form.offsets[i]
  }

  lemma {:induction false} ReadyWritable<T>(max: NodeMax, m: Mem<T>, m1: Mem<T>, r: Ref, h: nat, i: nat, a: Ref,
                                            b: Ref, off: nat, start: nat, leaf: Ref, begin: nat, end: nat)
    requires MergeReady(max, m, m1, r, h, i, a, b, off, start, leaf, begin, end)
    ensures MergeWritable(m1, r, i, a, b)
  {
    TwoChildren(max, m1, r, h, i);
    JoinBelow(max, m1, r, h, i, a, b);
  }

  lemma {:induction false} ReadyMerged<T>(max: NodeMax, m: Mem<T>, m1: Mem<T>, m2: Mem<T>, r: Ref, h: nat, i: nat,
                                          a: Ref, b: Ref, off: nat, start: nat, leaf: Ref, begin: nat, end: nat)
    requires MergeReady(max, m, m1, r, h, i, a, b, off, start, leaf, begin, end)
    requires MergeWritable(m1, r, i, a, b) && m2 == MergedMem(m1, r, i, a, b)
    ensures Settled(max, m, m2, r, h, |m[r].refs| - 1)
    ensures Cached(m2, r, h, start, leaf, begin, end)
  {
    MergeOutcome(max, m1, r, h, i, a, b);
    SettledAfter(max, m, m1, m2, r, h, |m[r].refs| - 1);
    JoinedCache(m1, JoinedMem(m1, r, i, a, b), m2, r, h, i, a, m1[b].refs, off, start, leaf, begin, end);
  }

  /** Memory after the join, before the parent is written. */
  ghost function JoinedMem<T>(m: Mem<T>, r: Ref, i: nat, a: Ref, b: Ref): Mem<T>
    requires MergeWritable(m, r, i, a, b)
  {
    var adj := ChildStart(m[r].form.offsets, i) - m[r].form.offsets[i];
    m[a := InnerRec(General(m[a].form.offsets + MovedOffsets(m[b].form.offsets, 0, |m[b].refs|, adj)),
                    m[a].refs + m[b].refs, m[a].size + m[b].size)] - {b}
  }

  lemma {:induction false} MergeOutcome<T>(max: NodeMax, m: Mem<T>, r: Ref, h: nat, i: nat, a: Ref, b: Ref)
    requires h > 1 && Good(max, m, r, h) && MergeWritable(m, r, i, a, b) && |m[a].refs| + |m[b].refs| <= max
    requires Rep(m, a, h - 1) && Rep(m, b, h - 1)
    ensures var m1, m2 := JoinedMem(m, r, i, a, b), MergedMem(m, r, i, a, b);
            && Settled(max, m, m2, r, h, |m[r].refs| - 1)
            && Rep(m1, a, h - 1) && m1[a].refs == m[a].refs + m[b].refs && Agree(m, m1, FPs(m, m[a].refs, h - 2))
            && Agree(m1, m2, FP(m1, a, h - 1)) && m2[r].refs[i] == a
            && Off(AbsAll(m2, m2[r].refs, h - 1), i) == Off(AbsAll(m, m[r].refs, h - 1), i)
  {
    JoinBelow(max, m, r, h, i, a, b);
    TwoChildren(max, m, r, h, i);
    MergedIn(max, m, r, h, i, JoinedMem(m, r, i, a, b)[a], InnerRec(General(m[b].form.offsets), [], 0),
             MergedMem(m, r, i, a, b));
  }

  lemma {:induction false} AccessChild<T>(max: NodeMax, m: Mem<T>, r: Ref, h: nat, n: nat, i: nat, off: nat)
    requires h > 0 && Good(max, m, r, h) && n < |Content(Abs(m, r, h))| < NPOS && off <= n
    requires Routed(Abs(m, r, h).kids, i, n, n - off) && off == Off(Abs(m, r, h).kids, i)
    ensures i < |m[r].refs| && Good(max, m, m[r].refs[i], h - 1)
    ensures n - off < |Content(Abs(m, m[r].refs[i], h - 1))|
    ensures off + |Content(Abs(m, m[r].refs[i], h - 1))| <= |Content(Abs(m, r, h))|
  {
    Focus(m, m[r].refs, i, h - 1);
    FlatSplit(Abs(m, r, h).kids, i);
    EraseRouted(Abs(m, r, h).kids, i, n, n - off);
    assert Abs(m, r, h).kids[i] == Abs(m, m[r].refs[i], h - 1);
  }

  /** Child `i` of a node visited in order by `bptree_traverse`. */
  lemma {:induction false} VisitChild<T>(max: NodeMax, m: Mem<T>, r: Ref, h: nat, i: nat)
    requires h > 0 && Good(max, m, r, h) && i < |m[r].refs|
    ensures var c, kids := m[r].refs[i], Abs(m, r, h).kids;
            && Good(max, m, c, h - 1) && kids[i] == Abs(m, c, h - 1)
            && Off(kids, i + 1) == Off(kids, i) + |Content(kids[i])| <= |Content(Abs(m, r, h))|
            && Content(Abs(m, r, h))[Off(kids, i)..Off(kids, i + 1)] == Content(kids[i])
    ensures match m[r].form
            case General(offsets) => i <= |offsets| && ChildStart(offsets, i) == Off(Abs(m, r, h).kids, i)
            case Compact(per) => i * per == Off(Abs(m, r, h).kids, i)
  {
    var kids := Abs(m, r, h).kids;
    Focus(m, m[r].refs, i, h - 1);
    FlatSplit(kids, i);
    if m[r].form.Compact? {
      CompactOff(m[r].form.elemsPerChild, kids, i);
    }
  }

  /** `n` is the index, counted from `start`, of the first `v` in `s`, or NPOS when there is none. */
  ghost predicate FirstAt<T>(s: seq<T>, v: T, start: nat, n: nat) {
    if n == NPOS then v !in s else start <= n < start + |s| && s[n - start] == v && v !in s[..n - start]
  }

  /** Searching `s` stretch by stretch: `s[a..b]` is the first stretch that may hold `v`. */
  lemma FirstAtStretch<T>(s: seq<T>, v: T, start: nat, a: nat, b: nat, n: nat)
    requires a <= b <= |s| && start + |s| < NPOS && v !in s[..a] && FirstAt(s[a..b], v, start + a, n)
    ensures n == NPOS ==> v !in s[..b]
    ensures n != NPOS ==> FirstAt(s, v, start, n)
  {
    assert s[..b] == s[..a] + s[a..b];
    if n != NPOS {
      var k := n - start - a;
      assert s[..n - start] == s[..a] + s[a..b][..k];
    }
  }

  // ---------------------------------------------------------------- one element overwritten

  /** Overwriting a leaf found at `o` by as many elements overwrites that stretch of the contents
      and keeps every node well formed. */
  lemma {:induction false} OverwriteLeaf<T>(max: NodeMax, m: Mem<T>, rs: seq<Ref>, h: nat, leaf: Ref, o: int,
                                            elems: seq<T>)
    requires RepAll(m, rs, h) && LeafIn(m, rs, h, leaf, o)
    requires leaf in m && m[leaf].LeafRec? && |m[leaf].elems| == |elems|
    ensures var m' := m[leaf := LeafRec(elems)];
            && RepAll(m', rs, h) && FPs(m', rs, h) == FPs(m, rs, h) && LeafIn(m', rs, h, leaf, o)
            && Overwritten(AbsAll(m, rs, h), AbsAll(m', rs, h), o, elems)
            && SameShape(max, AbsAll(m, rs, h), AbsAll(m', rs, h), h)
    decreases h, |rs|
  {
    var m' := m[leaf := LeafRec(elems)];
    LeafHolds(m, rs, h, leaf, o);
    var t, ts := Abs(m, rs[0], h), AbsAll(m, rs[1..], h);
    if LeafAt(m, rs[0], h, leaf, o) {
      LeafInHead(m, rs, h, leaf, o);
      FrameAll(m, m', rs[1..], h);
      OverwriteNode(max, m, rs[0], h, leaf, o, elems);
      OverwriteHead(max, t, Abs(m', rs[0], h), ts, o, elems, h);
    } else {
      LeafHolds(m, rs[1..], h, leaf, o - |Content(t)|);
      Frame(m, m', rs[0], h);
      OverwriteLeaf(max, m, rs[1..], h, leaf, o - |Content(t)|, elems);
      OverwriteTail(max, t, ts, AbsAll(m', rs[1..], h), o, elems, h);
    }
    assert AbsAll(m', rs, h) == [Abs(m', rs[0], h)] + AbsAll(m', rs[1..], h);
    assert AbsAll(m, rs, h) == [t] + ts;
  }

  ghost predicate Overwritten<T>(kids: seq<Node<T>>, kids': seq<Node<T>>, o: int, elems: seq<T>) {
    && 0 <= o && o + |elems| <= |Flat(kids)|
    && Flat(kids') == Flat(kids)[..o] + elems + Flat(kids)[o + |elems|..]
  }

  /** The same node sizes throughout, so that well-formedness carries over. */
  ghost predicate SameShape<T>(max: NodeMax, kids: seq<Node<T>>, kids': seq<Node<T>>, h: nat) {
    && |kids'| == |kids|
    && forall i :: 0 <= i < |kids| ==>
         && |Content(kids'[i])| == |Content(kids[i])| && IsCompact(kids'[i]) == IsCompact(kids[i])
         && (WF(max, kids[i], h) ==> WF(max, kids'[i], h))
  }

  lemma {:induction false} SameOffsets<T>(max: NodeMax, kids: seq<Node<T>>, kids': seq<Node<T>>, h: nat, i: nat)
    requires SameShape(max, kids, kids', h) && i <= |kids|
    ensures Off(kids', i) == Off(kids, i)
    decreases i
  {
    if i > 0 {
      SameOffsets(max, kids, kids', h, i - 1);
      FlatSplit(kids, i - 1);
      FlatSplit(kids', i - 1);
    }
  }

  lemma {:induction false} LeafInHead<T>(m: Mem<T>, rs: seq<Ref>, h: nat, leaf: Ref, o: int)
    requires RepAll(m, rs, h) && rs != [] && LeafAt(m, rs[0], h, leaf, o)
    ensures leaf in FP(m, rs[0], h) && leaf !in FPs(m, rs[1..], h)
  {
    if h > 0 {
      LeafHolds(m, m[rs[0]].refs, h - 1, leaf, o);
    }
  }

  lemma {:induction false} OverwriteNode<T>(max: NodeMax, m: Mem<T>, r: Ref, h: nat, leaf: Ref, o: int, elems: seq<T>)
    requires Rep(m, r, h) && LeafAt(m, r, h, leaf, o)
    requires leaf in m && m[leaf].LeafRec? && |m[leaf].elems| == |elems|
    ensures var m' := m[leaf := LeafRec(elems)];
            && Rep(m', r, h) && FP(m', r, h) == FP(m, r, h) && LeafAt(m', r, h, leaf, o)
            && Overwritten([Abs(m, r, h)], [Abs(m', r, h)], o, elems)
            && SameShape(max, [Abs(m, r, h)], [Abs(m', r, h)], h)
    decreases h, 0
  {
    var m' := m[leaf := LeafRec(elems)];
    FlatOne(Abs(m, r, h));
    if h > 0 {
      OverwriteLeaf(max, m, m[r].refs, h - 1, leaf, o, elems);
      FlatOne(Abs(m', r, h));
      KeepsForm(max, Abs(m, r, h), Abs(m', r, h), h);
    } else {
      FlatOne(Abs(m', r, h));
    }
  }

  lemma {:induction false} KeepsForm<T>(max: NodeMax, t: Node<T>, t': Node<T>, h: nat)
    requires h > 0 && t.Inner? && t'.Inner? && t'.form == t.form && t'.size == t.size
    requires SameShape(max, t.kids, t'.kids, h - 1)
    ensures |Content(t')| == |Content(t)| && (WF(max, t, h) ==> WF(max, t', h))
  {
    SameOffsets(max, t.kids, t'.kids, h - 1, |t.kids|);
    assert t.kids[..|t.kids|] == t.kids && t'.kids[..|t.kids|] == t'.kids;
    if WF(max, t, h) && t.form.General? {
      forall i | 0 <= i < |t.form.offsets| ensures t.form.offsets[i] == Off(t'.kids, i + 1) {
        SameOffsets(max, t.kids, t'.kids, h - 1, i + 1);
      }
      assert OffsetsOK(t.form.offsets, t'.kids);
    }
  }

  lemma OverwriteHead<T>(max: NodeMax, t: Node<T>, t': Node<T>, ts: seq<Node<T>>, o: int, elems: seq<T>, h: nat)
    requires Overwritten([t], [t'], o, elems) && SameShape(max, [t], [t'], h)
    ensures Overwritten([t] + ts, [t'] + ts, o, elems) && SameShape(max, [t] + ts, [t'] + ts, h)
  {
    FlatConcat([t], ts);
    FlatConcat([t'], ts);
    assert SameShape(max, ts, ts, h);
    ShapeConcat(max, [t], [t'], ts, ts, h);
  }

  lemma OverwriteTail<T>(max: NodeMax, t: Node<T>, ts: seq<Node<T>>, ts': seq<Node<T>>, o: int, elems: seq<T>, h: nat)
    requires Overwritten(ts, ts', o - |Content(t)|, elems) && SameShape(max, ts, ts', h)
    ensures Overwritten([t] + ts, [t] + ts', o, elems) && SameShape(max, [t] + ts, [t] + ts', h)
  {
    OverwriteRest(t, ts, ts', o, elems);
    assert SameShape(max, [t], [t], h);
    ShapeConcat(max, [t], [t], ts, ts', h);
  }

  lemma OverwriteRest<T>(t: Node<T>, ts: seq<Node<T>>, ts': seq<Node<T>>, o: int, elems: seq<T>)
    requires Overwritten(ts, ts', o - |Content(t)|, elems)
    ensures Overwritten([t] + ts, [t] + ts', o, elems)
  {
    FlatOne(t);
    FlatConcat([t], ts);
    FlatConcat([t], ts');
    OverwriteAfter(Content(t), Flat(ts), o, elems);
  }

  lemma OverwriteAfter<A>(a: seq<A>, b: seq<A>, o: nat, elems: seq<A>)
    requires |a| <= o && o - |a| + |elems| <= |b|
    ensures a + (b[..o - |a|] + elems + b[o - |a| + |elems|..]) == (a + b)[..o] + elems + (a + b)[o + |elems|..]
  {
  }

  lemma ShapeConcat<T>(max: NodeMax, a: seq<Node<T>>, a': seq<Node<T>>, b: seq<Node<T>>, b': seq<Node<T>>, h: nat)
    requires SameShape(max, a, a', h) && SameShape(max, b, b', h)
    ensures SameShape(max, a + b, a' + b', h)
  {
    var kids, kids' := a + b, a' + b';
    forall i | 0 <= i < |kids|
      ensures && |Content(kids'[i])| == |Content(kids[i])| && IsCompact(kids'[i]) == IsCompact(kids[i])
              && (WF(max, kids[i], h) ==> WF(max, kids'[i], h))
    {
      if i < |a| {
        assert kids[i] == a[i] && kids'[i] == a'[i];
      } else {
        assert kids[i] == b[i - |a|] && kids'[i] == b'[i - |a|];
      }
    }
  }

  lemma {:induction false} SetWhole<T>(max: NodeMax, m: Mem<T>, r: Ref, h: nat, leaf: Ref, n: nat, k: nat, v: T)
    requires h > 0 && Whole(max, m, r, h) && k <= n && LeafAt(m, r, h, leaf, n - k)
    requires leaf in m && m[leaf].LeafRec? && k < |m[leaf].elems|
    ensures var m' := m[leaf := LeafRec(m[leaf].elems[k := v])];
            && n < |Content(Abs(m, r, h))|
            && Whole(max, m', r, h) && Content(Abs(m', r, h)) == Content(Abs(m, r, h))[n := v]
            && IsCompact(Abs(m', r, h)) == IsCompact(Abs(m, r, h)) && LeafAt(m', r, h, leaf, n - k)
  {
    var elems, s, o := m[leaf].elems[k := v], Content(Abs(m, r, h)), n - k;
    var m' := m[leaf := LeafRec(elems)];
    LeafHolds(m, m[r].refs, h - 1, leaf, o);
    OverwriteLeaf(max, m, m[r].refs, h - 1, leaf, o, elems);
    KeepsForm(max, Abs(m, r, h), Abs(m', r, h), h);
    Patched(s, o, m[leaf].elems, k, v);
  }

  lemma Patched<A>(s: seq<A>, o: nat, part: seq<A>, k: nat, v: A)
    requires o + |part| <= |s| && s[o..o + |part|] == part && k < |part|
    ensures s[..o] + part[k := v] + s[o + |part|..] == s[o + k := v]
  {
    assert s == s[..o] + part + s[o + |part|..];
  }

  // ---------------------------------------------------------------- the root shrinks

  /** A root left with one child: the leaf cache is invalid, or that child has children to spare,
      so that it will itself stay as the root. */
  ghost predicate LoneChild<T>(m: Mem<T>, r: Ref, h: nat, begin: nat) {
    begin == NPOS ||
    (h > 1 && r in m && m[r].InnerRec? && |m[r].refs| == 1 &&
     m[r].refs[0] in m && m[m[r].refs[0]].InnerRec? && |m[m[r].refs[0]].refs| >= 2)
  }

  lemma {:induction false} MergedLone<T>(max: NodeMax, m: Mem<T>, m1: Mem<T>, r: Ref, h: nat, i: nat, a: Ref, b: Ref,
                                         off: nat, start: nat, leaf: Ref, begin: nat, end: nat)
    requires MergeReady(max, m, m1, r, h, i, a, b, off, start, leaf, begin, end)
    requires MergeWritable(m1, r, i, a, b) && |m[r].refs| == 2
    ensures LoneChild(MergedMem(m1, r, i, a, b), r, h, begin)
  {
    TwoChildren(max, m1, r, h, i);
  }

  lemma {:induction false} LeafInOne<T>(m: Mem<T>, c: Ref, h: nat, leaf: Ref, o: int)
    requires Rep(m, c, h) && RepAll(m, [c], h)
    ensures LeafIn(m, [c], h, leaf, o) <==> LeafAt(m, c, h, leaf, o)
  {
    var rest := [c][1..];
    assert rest == [];
    assert !LeafIn(m, rest, h, leaf, o - |Content(Abs(m, c, h))|);
  }

  lemma {:induction false} Collapse<T>(max: NodeMax, m: Mem<T>, r: Ref, h: nat, leaf: Ref, begin: nat, end: nat)
    requires h > 0 && Good(max, m, r, h) && |m[r].refs| == 1 && Cached(m, r, h, 0, leaf, begin, end)
    ensures var c, m1 := m[r].refs[0], m - {r};
            && Good(max, m1, c, h - 1) && FP(m1, c, h - 1) == FP(m, r, h) - {r}
            && Content(Abs(m1, c, h - 1)) == Content(Abs(m, r, h))
            && Cached(m1, c, h - 1, 0, leaf, begin, end)
            && c in m && m1[c] == m[c] && NodeSize(Abs(m1, c, h - 1)) == if h == 1 then |m[c].elems| else |m[c].refs|
  {
    var c, m1 := m[r].refs[0], m - {r};
    assert m[r].refs == [c];
    RepOne(m, c, h - 1);
    Frame(m, m1, c, h - 1);
    FlatOne(Abs(m, c, h - 1));
    if begin != NPOS {
      LeafInOne(m, c, h - 1, leaf, begin);
      CacheFrame(m, m1, c, h - 1, 0, leaf, begin, end);
    }
  }

  // ---------------------------------------------------------------- the whole tree

  /** Memory holds one well-formed tree and nothing else. */
  ghost predicate Whole<T>(max: NodeMax, m: Mem<T>, r: Ref, h: nat) {
    Rep(m, r, h) && m.Keys == FP(m, r, h) && WFRoot(max, Abs(m, r, h), h)
  }

  lemma {:induction false} InsertedWhole<T>(max: NodeMax, m0: Mem<T>, m1: Mem<T>, r: Ref, h: nat, n: nat, v: T,
                                            st: Split)
    requires Whole(max, m0, r, h) && InsertDone(max, m0, m1, FP(m0, r, h), r, 0, h, Abs(m0, r, h), n, v, st)
    ensures Whole(max, m1, r, h) && Content(Abs(m1, r, h)) == InsertAt(Content(Abs(m0, r, h)), n, v)
    ensures n == NPOS && IsCompact(Abs(m0, r, h)) ==> IsCompact(Abs(m1, r, h))
  {
    assert Content(Abs(m1, r, h)) + [] == Content(Abs(m1, r, h));
  }

  lemma {:induction false} GrownWhole<T>(max: NodeMax, m0: Mem<T>, m1: Mem<T>, r: Ref, sib: Ref, h: nat, n: nat, v: T,
                                         st: Split, form: Form, y: Ref)
    requires Whole(max, m0, r, h) && InsertDone(max, m0, m1, FP(m0, r, h), r, sib, h, Abs(m0, r, h), n, v, st)
    requires sib != 0 && y !in m1
    requires (form == Compact(st.offset) && n == NPOS && IsCompact(Abs(m0, r, h))) || form == General([st.offset])
    ensures var m2 := m1[y := InnerRec(form, [r, sib], st.size)];
            Whole(max, m2, y, h + 1) && Content(Abs(m2, y, h + 1)) == InsertAt(Content(Abs(m0, r, h)), n, v)
  {
    RootGrew(max, m0, m1, FP(m0, r, h), r, sib, h, Abs(m0, r, h), n, v, st, form, y);
  }

  /** The state of the root while it is being collapsed. */
  ghost predicate Collapsing<T>(max: NodeMax, m: Mem<T>, r: Ref, h: nat, sz: nat, leaf: Ref, begin: nat, end: nat) {
    && Good(max, m, r, h) && m.Keys == FP(m, r, h) && sz == NodeSize(Abs(m, r, h))
    && (if h == 0 then begin == NPOS
        else Cached(m, r, h, 0, leaf, begin, end) && (sz == 1 ==> LoneChild(m, r, h, begin)))
  }

  lemma {:induction false} CollapseStep<T>(max: NodeMax, m: Mem<T>, r: Ref, h: nat, leaf: Ref, begin: nat, end: nat)
    requires Collapsing(max, m, r, h, 1, leaf, begin, end) && h > 0
    ensures |m[r].refs| == 1
    ensures var c, m1 := m[r].refs[0], m - {r};
            && c in m1 && c != r && Rep(m1, c, h - 1)
            && Collapsing(max, m1, c, h - 1, NodeSize(Abs(m1, c, h - 1)), leaf, begin, end)
            && Content(Abs(m1, c, h - 1)) == Content(Abs(m, r, h))
  {
    Collapse(max, m, r, h, leaf, begin, end);
  }

  lemma {:induction false} CachedElement<T>(m: Mem<T>, r: Ref, h: nat, leaf: Ref, begin: nat, end: nat, n: nat)
    requires Cached(m, r, h, 0, leaf, begin, end) && begin != NPOS && begin <= n < end
    ensures leaf in m && m[leaf].LeafRec? && n - begin < |m[leaf].elems|
    ensures end <= |Content(Abs(m, r, h))|
    ensures m[leaf].elems == Content(Abs(m, r, h))[begin..end]
  {
    RepOne(m, r, h);
    LeafInOne(m, r, h, leaf, begin);
    LeafHolds(m, [r], h, leaf, begin);
    FlatOne(Abs(m, r, h));
  }

  lemma {:induction false} ErasedWhole<T>(max: NodeMax, m0: Mem<T>, m1: Mem<T>, r: Ref, h: nat, n: nat, sz: nat,
                                          leaf: Ref, begin: nat, end: nat)
    requires h > 0 && Whole(max, m0, r, h) && EraseDone(max, m0, m1, r, h, Abs(m0, r, h), n, sz)
    requires sz != 0 ==> Cached(m1, r, h, 0, leaf, begin, end)
    requires sz == 1 && |m0[r].refs| >= 2 ==> LoneChild(m1, r, h, begin)
    ensures sz != 0 && Collapsing(max, m1, r, h, sz, leaf, begin, end)
    ensures n < |Content(Abs(m0, r, h))| && Content(Abs(m1, r, h)) == EraseAt(Content(Abs(m0, r, h)), n)
  {
    var t := Abs(m0, r, h);
    Capacity(max, t.kids[0], h - 1);
    Capacity(max, t.kids[1], h - 1);
    FlatSplit(t.kids, 0);
    FlatSplit(t.kids[1..], 0);
  }

  // ---------------------------------------------------------------- bulk building

  /** A level of a compact tree under construction: compact nodes of height `h`, all full except
      possibly the last. */
  ghost predicate Level<T>(max: NodeMax, ts: seq<Node<T>>, h: nat) {
    && (forall i :: 0 <= i < |ts| ==> WF(max, ts[i], h))
    && CompactOK(Pow(max, h + 1), ts)
  }

  ghost predicate Full<T>(max: NodeMax, ts: seq<Node<T>>, h: nat) {
    forall i :: 0 <= i < |ts| ==> |Content(ts[i])| == Pow(max, h + 1)
  }

  /** Grouping `n` neighbours under a compact node, as large as `max` unless at the end. */
  lemma {:induction false} GroupNodes<T>(max: NodeMax, ts: seq<Node<T>>, n: nat, h: nat, size: nat)
    requires Level(max, ts, h) && 1 <= n <= |ts| && n <= max && (n < |ts| ==> n == max)
    requires size == if n < |ts| then n * Pow(max, h + 1) else |Flat(ts)|
    ensures var node := Inner(Compact(Pow(max, h + 1)), ts[..n], size);
            && WF(max, node, h + 1) && Content(node) + Flat(ts[n..]) == Flat(ts)
            && (n < |ts| ==> |Content(node)| == Pow(max, h + 2))
            && Level(max, ts[n..], h)
  {
    assert ts == ts[..n] + ts[n..];
    FlatConcat(ts[..n], ts[n..]);
    if n < |ts| {
      FlatUniform(ts[..n], Pow(max, h + 1));
    } else {
      assert ts[..n] == ts && ts[n..] == [];
    }
  }

  lemma {:induction false} LevelAppend<T>(max: NodeMax, ts: seq<Node<T>>, t: Node<T>, h: nat)
    requires Level(max, ts, h) && Full(max, ts, h) && WF(max, t, h) && IsCompact(t)
    ensures Level(max, ts + [t], h) && Flat(ts + [t]) == Flat(ts) + Content(t)
    ensures |Content(t)| == Pow(max, h + 1) ==> Full(max, ts + [t], h)
  {
    FlatThree(ts, t, []);
  }

  /** Memory holds the old root `r` and a row of `level` nodes that together hold `s`. */
  ghost predicate LevelMem<T>(max: NodeMax, m: Mem<T>, r: Ref, level: seq<Ref>, h: nat, s: seq<T>) {
    && RepAll(m, level, h) && r !in FPs(m, level, h) && m.Keys == {r} + FPs(m, level, h)
    && level != [] && Level(max, AbsAll(m, level, h), h) && Flat(AbsAll(m, level, h)) == s
    && (|level| == 1 && h > 0 ==> NodeSize(AbsAll(m, level, h)[0]) >= 2)
  }

  /** Half-way to the next level: the nodes of `next` are done, those of `rest` still wait. */
  ghost predicate Grouping<T>(max: NodeMax, m: Mem<T>, r: Ref, next: seq<Ref>, rest: seq<Ref>, h: nat, s: seq<T>) {
    && RepAll(m, next, h + 1) && RepAll(m, rest, h) && FPs(m, next, h + 1) !! FPs(m, rest, h)
    && r !in FPs(m, next, h + 1) + FPs(m, rest, h) && m.Keys == {r} + FPs(m, next, h + 1) + FPs(m, rest, h)
    && Level(max, AbsAll(m, next, h + 1), h + 1) && Level(max, AbsAll(m, rest, h), h)
    && Flat(AbsAll(m, next, h + 1)) + Flat(AbsAll(m, rest, h)) == s
    && (rest != [] ==> Full(max, AbsAll(m, next, h + 1), h + 1))
    && (next != [] ==> NodeSize(AbsAll(m, next, h + 1)[0]) >= 2)
  }

  /** While leaves are made: those in `leaves` hold `s`, and are all full if there are `more` to come. */
  ghost predicate LeafRow<T>(max: NodeMax, m: Mem<T>, r: Ref, leaves: seq<Ref>, s: seq<T>, more: bool) {
    && RepAll(m, leaves, 0) && r !in FPs(m, leaves, 0) && m.Keys == {r} + FPs(m, leaves, 0)
    && Level(max, AbsAll(m, leaves, 0), 0) && Flat(AbsAll(m, leaves, 0)) == s
    && (more ==> Full(max, AbsAll(m, leaves, 0), 0))
  }

  lemma {:induction false} LeafAppended<T>(max: NodeMax, m: Mem<T>, r: Ref, leaves: seq<Ref>, s: seq<T>, part: seq<T>,
                                           leaf: Ref, more: bool)
    requires LeafRow(max, m, r, leaves, s, true) && leaf !in m && 1 <= |part| <= max && (more ==> |part| == max)
    ensures LeafRow(max, m[leaf := LeafRec(part)], r, leaves + [leaf], s + part, more)
  {
    var m' := m[leaf := LeafRec(part)];
    FrameAll(m, m', leaves, 0);
    RowAppend(m', leaves, leaf, 0);
    LevelAppend(max, AbsAll(m', leaves, 0), Leaf(part), 0);
    assert Pow(max, 1) == max * Pow(max, 0);
  }

  /** While nodes are grouped: `i` of `len` nodes are below the `num` groups made. */
  predicate GroupsMade(max: NodeMax, i: nat, num: nat, len: nat) {
    i <= len && (if i == 0 then num == 0 else 0 < num < i) && (i < len ==> i == num * max)
  }

  /** The first `i` nodes of the level are below those of `next`. */
  ghost predicate GroupedUpTo<T>(max: NodeMax, m: Mem<T>, r: Ref, next: seq<Ref>, level: seq<Ref>, i: nat, h: nat,
                                 s: seq<T>) {
    GroupsMade(max, i, |next|, |level|) && Grouping(max, m, r, next, level[i..], h, s)
  }

  lemma MulSucc(a: nat, b: nat)
    ensures (a + 1) * b == a * b + b
  {
  }

  lemma GroupMade(max: NodeMax, i: nat, num: nat, len: nat, n: nat)
    requires GroupsMade(max, i, num, len) && i < len && len > 1 && n == if len - i < max then len - i else max
    ensures GroupsMade(max, i + n, num + 1, len)
  {
    MulSucc(num, max);
  }

  lemma {:induction false} GroupStart<T>(max: NodeMax, m: Mem<T>, r: Ref, level: seq<Ref>, h: nat, s: seq<T>)
    requires LevelMem(max, m, r, level, h, s)
    ensures Grouping(max, m, r, [], level, h, s)
  {
    assert [] + s == s;
  }

  lemma {:induction false} GroupEnd<T>(max: NodeMax, m: Mem<T>, r: Ref, next: seq<Ref>, h: nat, s: seq<T>)
    requires Grouping(max, m, r, next, [], h, s) && next != []
    ensures LevelMem(max, m, r, next, h + 1, s)
  {
    assert Flat(AbsAll(m, next, h + 1)) + [] == Flat(AbsAll(m, next, h + 1));
  }

  /** The elements before `rest` come in full nodes, so what `rest` holds is the difference. */
  lemma {:induction false} RestSize<T>(max: NodeMax, m: Mem<T>, r: Ref, next: seq<Ref>, rest: seq<Ref>, h: nat,
                                       s: seq<T>)
    requires Grouping(max, m, r, next, rest, h, s) && rest != []
    ensures |Flat(AbsAll(m, rest, h))| == |s| - |next| * Pow(max, h + 2)
  {
    FlatUniform(AbsAll(m, next, h + 1), Pow(max, h + 2));
  }

  lemma {:induction false} GroupStep<T>(max: NodeMax, m: Mem<T>, r: Ref, next: seq<Ref>, rest: seq<Ref>, h: nat,
                                        s: seq<T>, n: nat, size: nat, y: Ref)
    requires Grouping(max, m, r, next, rest, h, s) && y !in m && rest != []
    requires n == (if |rest| < max then |rest| else max) && (next == [] ==> |rest| >= 2)
    requires size == if n < |rest| then n * Pow(max, h + 1) else |Flat(AbsAll(m, rest, h))|
    ensures Grouping(max, m[y := InnerRec(Compact(Pow(max, h + 1)), rest[..n], size)], r, next + [y], rest[n..], h, s)
  {
    var form, ts, rs := Compact(Pow(max, h + 1)), AbsAll(m, next, h + 1), AbsAll(m, rest, h);
    GroupMem(m, next, rest, h, n, form, size, y);
    GroupValues(max, ts, rs, n, h, size);
  }

  lemma {:induction false} GroupValues<T>(max: NodeMax, ts: seq<Node<T>>, rs: seq<Node<T>>, n: nat, h: nat, size: nat)
    requires Level(max, ts, h + 1) && Full(max, ts, h + 1) && Level(max, rs, h) && rs != []
    requires n == (if |rs| < max then |rs| else max)
    requires size == if n < |rs| then n * Pow(max, h + 1) else |Flat(rs)|
    ensures var ts' := ts + [Inner(Compact(Pow(max, h + 1)), rs[..n], size)];
            && Level(max, ts', h + 1) && Level(max, rs[n..], h)
            && Flat(ts') + Flat(rs[n..]) == Flat(ts) + Flat(rs)
            && (n < |rs| ==> Full(max, ts', h + 1))
  {
    var node := Inner(Compact(Pow(max, h + 1)), rs[..n], size);
    GroupNodes(max, rs, n, h, size);
    LevelAppend(max, ts, node, h + 1);
    Assoc(Flat(ts), Content(node), Flat(rs[n..]));
  }

  lemma Assoc<A>(a: seq<A>, b: seq<A>, c: seq<A>)
    ensures (a + b) + c == a + (b + c)
  {
  }

  /** The new node over the first `n` nodes, and the others. */
  lemma {:induction false} GroupNode<T>(m: Mem<T>, rest: seq<Ref>, h: nat, n: nat, form: Form, size: nat, y: Ref)
    requires RepAll(m, rest, h) && n <= |rest| && y !in m
    ensures var m1 := m[y := InnerRec(form, rest[..n], size)];
            && Rep(m1, y, h + 1) && RepAll(m1, rest[n..], h) && FP(m1, y, h + 1) !! FPs(m1, rest[n..], h)
            && Abs(m1, y, h + 1) == Inner(form, AbsAll(m, rest, h)[..n], size)
            && AbsAll(m1, rest[n..], h) == AbsAll(m, rest, h)[n..]
            && FP(m1, y, h + 1) + FPs(m1, rest[n..], h) == FPs(m, rest, h) + {y}
  {
    FPsInMem(m, rest, h);
    RowSplit(m, rest, n, h);
    WriteInner(m, y, form, rest[..n], size, h + 1);
    FrameAll(m, m[y := InnerRec(form, rest[..n], size)], rest[n..], h);
  }

  lemma {:induction false} GroupMem<T>(m: Mem<T>, next: seq<Ref>, rest: seq<Ref>, h: nat, n: nat, form: Form,
                                       size: nat, y: Ref)
    requires RepAll(m, next, h + 1) && RepAll(m, rest, h) && FPs(m, next, h + 1) !! FPs(m, rest, h) && n <= |rest| &&
             y !in m
    ensures var m1 := m[y := InnerRec(form, rest[..n], size)];
            && RepAll(m1, next + [y], h + 1) && RepAll(m1, rest[n..], h)
            && AbsAll(m1, next + [y], h + 1) == AbsAll(m, next, h + 1) + [Inner(form, AbsAll(m, rest, h)[..n], size)]
            && AbsAll(m1, rest[n..], h) == AbsAll(m, rest, h)[n..]
            && FPs(m1, next + [y], h + 1) !! FPs(m1, rest[n..], h)
            && FPs(m1, next + [y], h + 1) + FPs(m1, rest[n..], h) == FPs(m, next, h + 1) + FPs(m, rest, h) + {y}
  {
    var m1 := m[y := InnerRec(form, rest[..n], size)];
    FPsInMem(m, next, h + 1);
    GroupNode(m, rest, h, n, form, size, y);
    FrameAll(m, m1, next, h + 1);
    RowAppend(m1, next, y, h + 1);
  }

  lemma {:induction false} LevelRoot<T>(max: NodeMax, m: Mem<T>, r: Ref, level: seq<Ref>, h: nat, s: seq<T>)
    requires LevelMem(max, m, r, level, h, s) && |level| == 1
    ensures Whole(max, m - {r}, level[0], h) && Content(Abs(m - {r}, level[0], h)) == s &&
            IsCompact(Abs(m - {r}, level[0], h))
  {
    var c := level[0];
    assert level == [c];
    RepOne(m, c, h);
    Frame(m, m - {r}, c, h);
    FlatOne(Abs(m, c, h));
  }
}
