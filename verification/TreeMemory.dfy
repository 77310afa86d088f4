/** B+-tree nodes as they lie in allocator memory: records that refer to each other by ref.
    `Rep` says that a ref is the root of a tree whose nodes are pairwise distinct, `FP` is the set
    of its refs, and `Abs` is the tree value it stands for. */
module TreeMemory {
  import opened TreeModel

  type Ref = nat

  datatype NodeRec<T> =
    | LeafRec(elems: seq<T>)
    | InnerRec(form: Form, refs: seq<Ref>, size: nat)

  type Mem<T> = map<Ref, NodeRec<T>>

  ghost predicate Rep<T>(m: Mem<T>, r: Ref, h: nat)
    decreases h, 0
  {
    && r in m
    && if h == 0 then m[r].LeafRec?
       else m[r].InnerRec? && RepAll(m, m[r].refs, h - 1) && r !in FPs(m, m[r].refs, h - 1)
  }

  /** A row of disjoint trees of height `h`. */
  ghost predicate RepAll<T>(m: Mem<T>, rs: seq<Ref>, h: nat)
    decreases h, |rs|
  {
    rs == [] || (Rep(m, rs[0], h) && RepAll(m, rs[1..], h) && FP(m, rs[0], h) !! FPs(m, rs[1..], h))
  }

  ghost function FP<T>(m: Mem<T>, r: Ref, h: nat): set<Ref>
    decreases h, 0
  {
    if h > 0 && r in m && m[r].InnerRec? then {r} + FPs(m, m[r].refs, h - 1) else {r}
  }

  ghost function FPs<T>(m: Mem<T>, rs: seq<Ref>, h: nat): set<Ref>
    decreases h, |rs|
  {
    if rs == [] then {} else FP(m, rs[0], h) + FPs(m, rs[1..], h)
  }

  ghost function Abs<T>(m: Mem<T>, r: Ref, h: nat): Node<T>
    requires Rep(m, r, h)
    decreases h, 0
  {
    if h == 0 then Leaf(m[r].elems) else Inner(m[r].form, AbsAll(m, m[r].refs, h - 1), m[r].size)
  }

  ghost function AbsAll<T>(m: Mem<T>, rs: seq<Ref>, h: nat): (ts: seq<Node<T>>)
    requires RepAll(m, rs, h)
    ensures |ts| == |rs|
    decreases h, |rs|
  {
    if rs == [] then [] else [Abs(m, rs[0], h)] + AbsAll(m, rs[1..], h)
  }

  // ---------------------------------------------------------------- frames

  ghost predicate Agree<T>(m: Mem<T>, m': Mem<T>, s: set<Ref>) {
    forall x :: x in s && x in m ==> x in m' && m'[x] == m[x]
  }

  lemma {:induction false} FPInMem<T>(m: Mem<T>, r: Ref, h: nat)
    requires Rep(m, r, h)
    ensures FP(m, r, h) <= m.Keys
    decreases h, 0
  {
    if h > 0 {
      FPsInMem(m, m[r].refs, h - 1);
    }
  }

  lemma {:induction false} FPsInMem<T>(m: Mem<T>, rs: seq<Ref>, h: nat)
    requires RepAll(m, rs, h)
    ensures FPs(m, rs, h) <= m.Keys
    decreases h, |rs|
  {
    if rs != [] {
      FPInMem(m, rs[0], h);
      FPsInMem(m, rs[1..], h);
    }
  }

  lemma {:induction false} Frame<T>(m: Mem<T>, m': Mem<T>, r: Ref, h: nat)
    requires Rep(m, r, h) && Agree(m, m', FP(m, r, h))
    ensures Rep(m', r, h) && FP(m', r, h) == FP(m, r, h) && Abs(m', r, h) == Abs(m, r, h)
    decreases h, 0
  {
    if h > 0 {
      FrameAll(m, m', m[r].refs, h - 1);
    }
  }

  lemma {:induction false} FrameAll<T>(m: Mem<T>, m': Mem<T>, rs: seq<Ref>, h: nat)
    requires RepAll(m, rs, h) && Agree(m, m', FPs(m, rs, h))
    ensures RepAll(m', rs, h) && FPs(m', rs, h) == FPs(m, rs, h) && AbsAll(m', rs, h) == AbsAll(m, rs, h)
    decreases h, |rs|
  {
    if rs != [] {
      Frame(m, m', rs[0], h);
      FrameAll(m, m', rs[1..], h);
    }
  }

  // ---------------------------------------------------------------- rows of trees

  lemma {:induction false} RepConcat<T>(m: Mem<T>, a: seq<Ref>, b: seq<Ref>, h: nat)
    ensures FPs(m, a + b, h) == FPs(m, a, h) + FPs(m, b, h)
    ensures RepAll(m, a + b, h) <==> RepAll(m, a, h) && RepAll(m, b, h) && FPs(m, a, h) !! FPs(m, b, h)
    ensures RepAll(m, a + b, h) ==> AbsAll(m, a + b, h) == AbsAll(m, a, h) + AbsAll(m, b, h)
    decreases |a|
  {
    if a == [] {
      assert a + b == b;
    } else {
      assert (a + b)[0] == a[0] && (a + b)[1..] == a[1..] + b;
      RepConcat(m, a[1..], b, h);
    }
  }

  lemma RepOne<T>(m: Mem<T>, r: Ref, h: nat)
    ensures FPs(m, [r], h) == FP(m, r, h)
    ensures RepAll(m, [r], h) <==> Rep(m, r, h)
    ensures Rep(m, r, h) ==> AbsAll(m, [r], h) == [Abs(m, r, h)]
  {
    assert [r][1..] == [];
  }

  /** Splitting a row around its `i`th tree. */
  lemma {:induction false} Focus<T>(m: Mem<T>, rs: seq<Ref>, i: nat, h: nat)
    requires RepAll(m, rs, h) && i < |rs|
    ensures var a, b := rs[..i], rs[i + 1..];
            && RepAll(m, a, h) && Rep(m, rs[i], h) && RepAll(m, b, h)
            && FPs(m, rs, h) == FPs(m, a, h) + FP(m, rs[i], h) + FPs(m, b, h)
            && FPs(m, a, h) !! FP(m, rs[i], h) && FPs(m, a, h) + FP(m, rs[i], h) !! FPs(m, b, h)
            && AbsAll(m, rs, h) == AbsAll(m, a, h) + [Abs(m, rs[i], h)] + AbsAll(m, b, h)
  {
    var a, b := rs[..i], rs[i + 1..];
    assert rs == (a + [rs[i]]) + b;
    RepConcat(m, a + [rs[i]], b, h);
    RepConcat(m, a, [rs[i]], h);
    RepOne(m, rs[i], h);
  }

  // ---------------------------------------------------------------- local changes

  /** `m1` differs from `m0` only in that the nodes `fp0` became the nodes `fp1`; whatever is in
      `fp1` and not in `fp0` is freshly allocated, and nothing else was lost or leaked. */
  ghost predicate Local<T>(m0: Mem<T>, m1: Mem<T>, fp0: set<Ref>, fp1: set<Ref>) {
    && fp0 <= m0.Keys
    && m1.Keys == (m0.Keys - fp0) + fp1
    && fp1 !! (m0.Keys - fp0)
    && forall x :: x in m0 && x !in fp0 ==> m1[x] == m0[x]
  }

  /** A row of trees outside the changed nodes is untouched. */
  lemma {:induction false} LocalFrame<T>(m0: Mem<T>, m1: Mem<T>, fp0: set<Ref>, fp1: set<Ref>, rs: seq<Ref>, h: nat)
    requires Local(m0, m1, fp0, fp1) && RepAll(m0, rs, h) && FPs(m0, rs, h) !! fp0
    ensures RepAll(m1, rs, h) && FPs(m1, rs, h) == FPs(m0, rs, h) && AbsAll(m1, rs, h) == AbsAll(m0, rs, h)
    ensures FPs(m1, rs, h) !! fp1
  {
    FPsInMem(m0, rs, h);
    FrameAll(m0, m1, rs, h);
  }

  /** Writing the record of `r` itself. */
  lemma {:induction false} WriteInner<T>(m: Mem<T>, r: Ref, form: Form, rs: seq<Ref>, size: nat, h: nat)
    requires h > 0 && RepAll(m, rs, h - 1) && r !in FPs(m, rs, h - 1)
    ensures var m' := m[r := InnerRec(form, rs, size)];
            && Rep(m', r, h)
            && Abs(m', r, h) == Inner(form, AbsAll(m, rs, h - 1), size)
            && FP(m', r, h) == {r} + FPs(m, rs, h - 1)
  {
    FrameAll(m, m[r := InnerRec(form, rs, size)], rs, h - 1);
  }

  lemma {:induction false} LocalTrans<T>(m0: Mem<T>, m1: Mem<T>, m2: Mem<T>, a: set<Ref>, b: set<Ref>, c: set<Ref>)
    requires Local(m0, m1, a, b) && Local(m1, m2, b, c)
    ensures Local(m0, m2, a, c)
  {
    assert m1.Keys - b == m0.Keys - a;
  }

  /** Child `i` of `r` changed in place and may have produced new siblings; everything else below
      `r` is as it was. */
  lemma {:induction false} ChildChanged<T>(m0: Mem<T>, m1: Mem<T>, r: Ref, h: nat, i: nat, sibs: seq<Ref>)
    requires h > 0 && Rep(m0, r, h) && i < |m0[r].refs|
    requires var c := m0[r].refs[i];
             && Rep(m0, c, h - 1) && Rep(m1, c, h - 1) && RepAll(m1, sibs, h - 1)
             && FP(m1, c, h - 1) !! FPs(m1, sibs, h - 1)
             && Local(m0, m1, FP(m0, c, h - 1), FP(m1, c, h - 1) + FPs(m1, sibs, h - 1))
    ensures r in m1 && m1[r] == m0[r] && Rep(m1, r, h)
    ensures AbsAll(m1, m1[r].refs, h - 1) == AbsAll(m0, m0[r].refs, h - 1)[i := Abs(m1, m0[r].refs[i], h - 1)]
    ensures FP(m1, r, h) !! FPs(m1, sibs, h - 1)
    ensures Local(m0, m1, FP(m0, r, h), FP(m1, r, h) + FPs(m1, sibs, h - 1))
  {
    FPInMem(m0, r, h);
    RowChanged(m0, m1, m0[r].refs, h - 1, i, sibs);
  }

  lemma {:induction false} RowChanged<T>(m0: Mem<T>, m1: Mem<T>, rs: seq<Ref>, h: nat, i: nat, sibs: seq<Ref>)
    requires RepAll(m0, rs, h) && i < |rs| && Rep(m0, rs[i], h) && Rep(m1, rs[i], h) && RepAll(m1, sibs, h)
    requires FP(m1, rs[i], h) !! FPs(m1, sibs, h)
    requires Local(m0, m1, FP(m0, rs[i], h), FP(m1, rs[i], h) + FPs(m1, sibs, h))
    ensures FP(m0, rs[i], h) <= FPs(m0, rs, h)
    ensures RepAll(m1, rs, h) && AbsAll(m1, rs, h) == AbsAll(m0, rs, h)[i := Abs(m1, rs[i], h)]
    ensures FPs(m1, rs, h) == (FPs(m0, rs, h) - FP(m0, rs[i], h)) + FP(m1, rs[i], h)
    ensures FPs(m1, rs, h) !! FPs(m1, sibs, h)
    decreases i
  {
    var fp0, fp1 := FP(m0, rs[i], h), FP(m1, rs[i], h) + FPs(m1, sibs, h);
    if i == 0 {
      LocalFrame(m0, m1, fp0, fp1, rs[1..], h);
    } else {
      RowChanged(m0, m1, rs[1..], h, i - 1, sibs);
      FPInMem(m0, rs[0], h);
      Frame(m0, m1, rs[0], h);
    }
  }

  // ---------------------------------------------------------------- where a leaf is

  /** Leaf `leaf` holds the elements of the tree at `r` that start at index `o`. */
  ghost predicate LeafAt<T>(m: Mem<T>, r: Ref, h: nat, leaf: Ref, o: int)
    requires Rep(m, r, h)
    decreases h, 0
  {
    if h == 0 then r == leaf && o == 0 else LeafIn(m, m[r].refs, h - 1, leaf, o)
  }

  ghost predicate LeafIn<T>(m: Mem<T>, rs: seq<Ref>, h: nat, leaf: Ref, o: int)
    requires RepAll(m, rs, h)
    decreases h, |rs|
  {
    rs != [] &&
    (LeafAt(m, rs[0], h, leaf, o) || LeafIn(m, rs[1..], h, leaf, o - |Content(Abs(m, rs[0], h))|))
  }

  lemma {:induction false} LeafInConcat<T>(m: Mem<T>, a: seq<Ref>, b: seq<Ref>, h: nat, leaf: Ref, o: int)
    requires RepAll(m, a + b, h) && RepAll(m, a, h) && RepAll(m, b, h)
    ensures LeafIn(m, a + b, h, leaf, o) <==>
            LeafIn(m, a, h, leaf, o) || LeafIn(m, b, h, leaf, o - |Flat(AbsAll(m, a, h))|)
    decreases |a|
  {
    if a == [] {
      assert a + b == b;
    } else {
      assert (a + b)[0] == a[0] && (a + b)[1..] == a[1..] + b;
      LeafInConcat(m, a[1..], b, h, leaf, o - |Content(Abs(m, a[0], h))|);
      assert AbsAll(m, a, h)[1..] == AbsAll(m, a[1..], h);
    }
  }

  lemma {:induction false} LeafFrame<T>(m: Mem<T>, m': Mem<T>, rs: seq<Ref>, h: nat, leaf: Ref, o: int)
    requires RepAll(m, rs, h) && Agree(m, m', FPs(m, rs, h)) && LeafIn(m, rs, h, leaf, o)
    ensures RepAll(m', rs, h) && LeafIn(m', rs, h, leaf, o)
    decreases h, |rs|
  {
    FrameAll(m, m', rs, h);
    Frame(m, m', rs[0], h);
    if LeafAt(m, rs[0], h, leaf, o) {
      if h > 0 {
        LeafFrame(m, m', m[rs[0]].refs, h - 1, leaf, o);
      }
    } else {
      LeafFrame(m, m', rs[1..], h, leaf, o - |Content(Abs(m, rs[0], h))|);
    }
  }

  /** A leaf found at index `o` holds exactly that stretch of the contents. */
  lemma {:induction false} LeafHolds<T>(m: Mem<T>, rs: seq<Ref>, h: nat, leaf: Ref, o: int)
    requires RepAll(m, rs, h) && LeafIn(m, rs, h, leaf, o)
    ensures leaf in m && m[leaf].LeafRec? && leaf in FPs(m, rs, h)
    ensures 0 <= o && o + |m[leaf].elems| <= |Flat(AbsAll(m, rs, h))|
    ensures Flat(AbsAll(m, rs, h))[o..o + |m[leaf].elems|] == m[leaf].elems
    decreases h, |rs|
  {
    var t, ts := Abs(m, rs[0], h), AbsAll(m, rs[1..], h);
    assert AbsAll(m, rs, h)[1..] == ts;
    if LeafAt(m, rs[0], h, leaf, o) {
      if h > 0 {
        LeafHolds(m, m[rs[0]].refs, h - 1, leaf, o);
      }
      SliceLeft(Content(t), Flat(ts), o, m[leaf].elems);
    } else {
      LeafHolds(m, rs[1..], h, leaf, o - |Content(t)|);
      SliceRight(Content(t), Flat(ts), o, m[leaf].elems);
    }
  }

  lemma SliceLeft<A>(a: seq<A>, b: seq<A>, o: nat, part: seq<A>)
    requires o + |part| <= |a| && (part == a || a[o..o + |part|] == part)
    ensures (a + b)[o..o + |part|] == part
  {
    assert (a + b)[o..o + |part|] == a[o..o + |part|];
  }

  lemma SliceRight<A>(a: seq<A>, b: seq<A>, o: nat, part: seq<A>)
    requires |a| <= o && o + |part| <= |a| + |b| && b[o - |a|..o - |a| + |part|] == part
    ensures (a + b)[o..o + |part|] == part
  {
  }

  /** A leaf below child `i` is below the parent, at the child's offset. */
  lemma {:induction false} LeafUp<T>(m: Mem<T>, r: Ref, h: nat, i: nat, leaf: Ref, o: int)
    requires h > 0 && Rep(m, r, h) && i < |m[r].refs| && Rep(m, m[r].refs[i], h - 1)
    requires LeafAt(m, m[r].refs[i], h - 1, leaf, o - Off(AbsAll(m, m[r].refs, h - 1), i))
    ensures LeafAt(m, r, h, leaf, o)
  {
    var rs := m[r].refs;
    Focus(m, rs, i, h - 1);
    assert AbsAll(m, rs, h - 1)[..i] == AbsAll(m, rs[..i], h - 1);
    assert rs == rs[..i] + rs[i..];
    RepConcat(m, rs[..i], rs[i..], h - 1);
    LeafInConcat(m, rs[..i], rs[i..], h - 1, leaf, o);
    assert rs[i..][0] == rs[i];
  }
}
