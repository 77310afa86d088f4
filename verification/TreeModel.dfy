/** The counted B+-tree as a value: what a node means, when it is well formed, and what each
    structural step of insertion and erasure does to both.

    An inner node is either compact (every child but the last spans exactly `elemsPerChild`
    elements) or general (an explicit array of child offsets). */
module TreeModel {
  import opened Words

  /** The fan-out BARQ_MAX_BPNODE_SIZE; leaves and inner nodes share it. */
  type NodeMax = m: nat | 2 <= m witness 2

  datatype Form = Compact(elemsPerChild: nat) | General(offsets: seq<nat>)

  datatype Node<T> =
    | Leaf(elems: seq<T>)
    | Inner(form: Form, kids: seq<Node<T>>, size: nat)

  /** What a split tells the parent: where the new sibling starts, and the size of both halves. */
  datatype Split = Split(offset: nat, size: nat)

  // ---------------------------------------------------------------- contents

  ghost function Content<T>(t: Node<T>): seq<T>
    decreases t, 1
  {
    match t
    case Leaf(elems) => elems
    case Inner(_, kids, _) => Flat(kids)
  }

  ghost function Flat<T>(kids: seq<Node<T>>): seq<T>
    decreases kids, 0
  {
    if kids == [] then [] else Content(kids[0]) + Flat(kids[1..])
  }

  /** Number of elements before child `i`. */
  ghost function Off<T>(kids: seq<Node<T>>, i: nat): nat
    requires i <= |kids|
  {
    |Flat(kids[..i])|
  }

  ghost function InsertAt<T>(s: seq<T>, n: nat, v: T): seq<T> {
    var k := if n < |s| then n else |s|;
    s[..k] + [v] + s[k..]
  }

  ghost function EraseAt<T>(s: seq<T>, n: nat): seq<T>
    requires n < |s|
  {
    s[..n] + s[n + 1..]
  }

  lemma {:induction false} FlatConcat<T>(a: seq<Node<T>>, b: seq<Node<T>>)
    ensures Flat(a + b) == Flat(a) + Flat(b)
  {
    if a == [] {
      assert a + b == b;
    } else {
      assert (a + b)[0] == a[0] && (a + b)[1..] == a[1..] + b;
      FlatConcat(a[1..], b);
    }
  }

  lemma FlatOne<T>(c: Node<T>)
    ensures Flat([c]) == Content(c)
  {
    assert [c][1..] == [];
  }

  lemma FlatThree<T>(a: seq<Node<T>>, c: Node<T>, b: seq<Node<T>>)
    ensures Flat(a + [c] + b) == Flat(a) + Content(c) + Flat(b)
    ensures Flat(a + [c]) == Flat(a) + Content(c)
  {
    FlatConcat(a + [c], b);
    FlatConcat(a, [c]);
    FlatOne(c);
  }

  lemma FlatSplit<T>(kids: seq<Node<T>>, i: nat)
    requires i < |kids|
    ensures Flat(kids) == Flat(kids[..i]) + Content(kids[i]) + Flat(kids[i + 1..])
    ensures Off(kids, i + 1) == Off(kids, i) + |Content(kids[i])|
    ensures Off(kids, |kids|) == |Flat(kids)|
  {
    assert kids == kids[..i] + [kids[i]] + kids[i + 1..];
    assert kids[..i + 1] == kids[..i] + [kids[i]];
    assert kids[..|kids|] == kids;
    FlatThree(kids[..i], kids[i], kids[i + 1..]);
  }

  lemma {:induction false} OffMonotone<T>(kids: seq<Node<T>>, i: nat, j: nat)
    requires i <= j <= |kids|
    ensures Off(kids, i) <= Off(kids, j)
  {
    assert kids[..j] == kids[..i] + kids[i..j];
    FlatConcat(kids[..i], kids[i..j]);
  }

  // ---------------------------------------------------------------- well-formedness

  function Pow(b: nat, e: nat): nat {
    if e == 0 then 1 else b * Pow(b, e - 1)
  }

  predicate IsCompact<T>(t: Node<T>) {
    t.Leaf? || t.form.Compact?
  }

  function NodeSize<T>(t: Node<T>): nat {
    if t.Leaf? then |t.elems| else |t.kids|
  }

  /** The offsets array holds exactly the prefix sums of the child sizes. */
  ghost predicate OffsetsOK<T>(offsets: seq<nat>, kids: seq<Node<T>>) {
    && |offsets| == |kids| - 1
    && forall i :: 0 <= i < |offsets| ==> offsets[i] == Off(kids, i + 1)
  }

  /** Compact form: children are compact, and all but the last hold `per` elements. */
  ghost predicate CompactOK<T>(per: nat, kids: seq<Node<T>>) {
    && (forall i :: 0 <= i < |kids| ==> IsCompact(kids[i]))
    && (forall i :: 0 <= i < |kids| - 1 ==> |Content(kids[i])| == per)
  }

  ghost predicate FormOK<T>(max: NodeMax, form: Form, kids: seq<Node<T>>, h: nat) {
    match form
    case Compact(per) => per == Pow(max, h) && CompactOK(per, kids)
    case General(offsets) => OffsetsOK(offsets, kids)
  }

  /** Well-formed node of height `h` (leaves have height 0) below the root: all leaves at one
      depth, no node empty or over `max`, stored sizes and offsets exact, and a compact node has
      only compact descendants. */
  ghost predicate WF<T>(max: NodeMax, t: Node<T>, h: nat)
    decreases h
  {
    if h == 0 then
      t.Leaf? && 1 <= |t.elems| <= max
    else
      && t.Inner? && 1 <= |t.kids| <= max
      && (forall i :: 0 <= i < |t.kids| ==> WF(max, t.kids[i], h - 1))
      && t.size == |Flat(t.kids)|
      && FormOK(max, t.form, t.kids, h)
  }

  /** The root may be an empty leaf, and as an inner node has at least two children. */
  ghost predicate WFRoot<T>(max: NodeMax, t: Node<T>, h: nat) {
    if h == 0 then t.Leaf? && |t.elems| <= max else WF(max, t, h) && |t.kids| >= 2
  }

  lemma {:induction false} FlatAtMost<T>(kids: seq<Node<T>>, per: nat)
    requires forall i :: 0 <= i < |kids| ==> 1 <= |Content(kids[i])| <= per
    ensures |kids| <= |Flat(kids)| <= |kids| * per
    decreases |kids|
  {
    if kids != [] {
      FlatAtMost(kids[1..], per);
      assert |Flat(kids)| == |Content(kids[0])| + |Flat(kids[1..])|;
      assert (|kids| - 1) * per + per == |kids| * per;
    }
  }

  /** A node of height `h` holds between one and max^(h+1) elements. */
  lemma {:induction false} Capacity<T>(max: NodeMax, t: Node<T>, h: nat)
    requires WF(max, t, h)
    ensures 1 <= |Content(t)| <= Pow(max, h + 1)
    decreases h
  {
    if h == 0 {
      assert Pow(max, 1) == max * Pow(max, 0);
    } else {
      forall i | 0 <= i < |t.kids| ensures 1 <= |Content(t.kids[i])| <= Pow(max, h) {
        Capacity(max, t.kids[i], h - 1);
      }
      FlatAtMost(t.kids, Pow(max, h));
      MulMono(|t.kids|, max, Pow(max, h));
    }
  }

  lemma MulMono(a: nat, b: nat, c: nat)
    requires a <= b
    ensures a * c <= b * c
  {
  }

  lemma {:induction false} FlatUniform<T>(kids: seq<Node<T>>, per: nat)
    requires forall i :: 0 <= i < |kids| ==> |Content(kids[i])| == per
    ensures |Flat(kids)| == |kids| * per
    decreases |kids|
  {
    if kids != [] {
      FlatUniform(kids[1..], per);
      assert (|kids| - 1) * per + per == |kids| * per;
    }
  }

  /** In compact form child `i` starts at element `i * per`. */
  lemma CompactOff<T>(per: nat, kids: seq<Node<T>>, i: nat)
    requires CompactOK(per, kids) && i < |kids|
    ensures Off(kids, i) == i * per
  {
    FlatUniform(kids[..i], per);
  }

  /** Converting compact to general form keeps the node well formed. */
  lemma EnsureOffsetsWF<T>(max: NodeMax, t: Node<T>, h: nat, offsets: seq<nat>)
    requires h > 0 && WF(max, t, h) && t.form.Compact?
    requires |offsets| == |t.kids| - 1
    requires forall i :: 0 <= i < |offsets| ==> offsets[i] == (i + 1) * t.form.elemsPerChild
    ensures WF(max, t.(form := General(offsets)), h)
  {
    forall i | 0 <= i < |offsets| ensures offsets[i] == Off(t.kids, i + 1) {
      CompactOff(t.form.elemsPerChild, t.kids, i + 1);
    }
  }

  // ---------------------------------------------------------------- routing

  /** The child that `upper_bound` on the offsets selects for element `n`. */
  ghost predicate Selected(offsets: seq<nat>, n: nat, i: nat) {
    && i <= |offsets|
    && (i > 0 ==> offsets[i - 1] <= n)
    && (i < |offsets| ==> n < offsets[i])
  }

  /** Position `n` of a node becomes position `m` of its child `i`. */
  ghost predicate Routed<T>(kids: seq<Node<T>>, i: nat, n: nat, m: nat) {
    && i < |kids|
    && (if n == NPOS then m == NPOS && i == |kids| - 1
        else Off(kids, i) <= n && m == n - Off(kids, i) && (i == |kids| - 1 || n < Off(kids, i + 1)))
  }

  lemma SelectedRoutes<T>(offsets: seq<nat>, kids: seq<Node<T>>, n: nat, i: nat)
    requires OffsetsOK(offsets, kids) && Selected(offsets, n, i) && n != NPOS
    ensures Off(kids, i) == if i > 0 then offsets[i - 1] else 0
    ensures n >= Off(kids, i) && Routed(kids, i, n, n - Off(kids, i))
  {
  }

  /** In compact form, division selects the child. */
  lemma {:induction false} CompactRoutes<T>(max: NodeMax, t: Node<T>, h: nat, n: nat)
    requires h > 0 && WF(max, t, h) && t.form.Compact? && n < |Flat(t.kids)| < NPOS
    ensures var per := t.form.elemsPerChild;
            && per > 0
            && var i := n / per;
               i < |t.kids| && i * per == Off(t.kids, i) && i * per <= n && Routed(t.kids, i, n, n - i * per)
  {
    var per := t.form.elemsPerChild;
    PowMono(max, 0, h);
    CompactAtMost(max, t, h);
    var i := n / per;
    DivBound(n, per, |t.kids|);
    CompactOff(per, t.kids, i);
    if i < |t.kids| - 1 {
      CompactOff(per, t.kids, i + 1);
    }
  }

  lemma {:induction false} CompactAtMost<T>(max: NodeMax, t: Node<T>, h: nat)
    requires h > 0 && WF(max, t, h)
    ensures |Flat(t.kids)| <= |t.kids| * Pow(max, h)
  {
    forall i | 0 <= i < |t.kids| ensures 1 <= |Content(t.kids[i])| <= Pow(max, h) {
      Capacity(max, t.kids[i], h - 1);
    }
    FlatAtMost(t.kids, Pow(max, h));
  }

  lemma DivBound(n: nat, per: nat, count: nat)
    requires per > 0 && n < count * per
    ensures 0 <= n / per < count && (n / per) * per <= n < (n / per + 1) * per
  {
    if n / per >= count {
      MulMono(count, n / per, per);
    }
  }

  lemma {:induction false} InsertInMiddle<T>(a: seq<T>, c: seq<T>, b: seq<T>, n: nat, m: nat, v: T)
    requires (n == |a| + m && (m < |c| || b == [])) || (n >= |a + c + b| && m >= |c| && b == [])
    ensures InsertAt(a + c + b, n, v) == a + InsertAt(c, m, v) + b
  {
    var k := if m < |c| then m else |c|;
    assert (a + c + b)[..|a| + k] == a + c[..k];
    assert (a + c + b)[|a| + k..] == c[k..] + b;
  }

  lemma {:induction false} InsertRouted<T>(kids: seq<Node<T>>, i: nat, n: nat, m: nat, v: T)
    requires Routed(kids, i, n, m) && |Flat(kids)| <= NPOS
    ensures InsertAt(Flat(kids), n, v)
         == Flat(kids[..i]) + InsertAt(Content(kids[i]), m, v) + Flat(kids[i + 1..])
  {
    FlatSplit(kids, i);
    if i == |kids| - 1 {
      assert kids[i + 1..] == [];
    }
    InsertInMiddle(Flat(kids[..i]), Content(kids[i]), Flat(kids[i + 1..]), n, m, v);
  }

  lemma {:induction false} EraseInMiddle<T>(a: seq<T>, c: seq<T>, b: seq<T>, m: nat)
    requires m < |c|
    ensures EraseAt(a + c + b, |a| + m) == a + EraseAt(c, m) + b
    ensures (a + c + b)[|a| + m] == c[m]
  {
    assert (a + c + b)[..|a| + m] == a + c[..m];
    assert (a + c + b)[|a| + m + 1..] == c[m + 1..] + b;
  }

  lemma {:induction false} EraseRouted<T>(kids: seq<Node<T>>, i: nat, n: nat, m: nat)
    requires Routed(kids, i, n, m) && n != NPOS && n < |Flat(kids)|
    ensures m < |Content(kids[i])|
    ensures EraseAt(Flat(kids), n) == Flat(kids[..i]) + EraseAt(Content(kids[i]), m) + Flat(kids[i + 1..])
    ensures Flat(kids)[n] == Content(kids[i])[m]
  {
    FlatSplit(kids, i);
    if i == |kids| - 1 {
      assert kids[i + 1..] == [];
    }
    EraseInMiddle(Flat(kids[..i]), Content(kids[i]), Flat(kids[i + 1..]), m);
  }

  // ---------------------------------------------------------------- offsets arithmetic

  /** `m_offsets.adjust(from, size, d)`. */
  function AdjustFrom(offsets: seq<nat>, from: nat, d: int): (r: seq<nat>)
    requires forall j :: from <= j < |offsets| ==> offsets[j] + d >= 0
    ensures |r| == |offsets|
  {
    seq(|offsets|, j requires 0 <= j < |offsets| => if j < from then offsets[j] else offsets[j] + d)
  }

  /** Replacing child `i` shifts exactly the offsets after it. */
  lemma OffAfterUpdate<T>(kids: seq<Node<T>>, i: nat, c: Node<T>, j: nat)
    requires i < |kids| && j <= |kids|
    ensures Off(kids[i := c], j) == Off(kids, j) + if j <= i then 0 else |Content(c)| - |Content(kids[i])|
  {
    var kids' := kids[i := c];
    if j <= i {
      assert kids'[..j] == kids[..j];
    } else {
      assert kids'[..j] == kids[..i] + [c] + kids[i + 1..j];
      assert kids[..j] == kids[..i] + [kids[i]] + kids[i + 1..j];
      FlatThree(kids[..i], c, kids[i + 1..j]);
      FlatThree(kids[..i], kids[i], kids[i + 1..j]);
    }
  }

  lemma AdjustOK<T>(offsets: seq<nat>, kids: seq<Node<T>>, i: nat, c: Node<T>)
    requires OffsetsOK(offsets, kids) && i < |kids|
    ensures forall j :: i <= j < |offsets| ==> offsets[j] + (|Content(c)| - |Content(kids[i])|) >= 0
    ensures OffsetsOK(AdjustFrom(offsets, i, |Content(c)| - |Content(kids[i])|), kids[i := c])
  {
    forall j | 0 <= j < |offsets|
      ensures Off(kids[i := c], j + 1)
           == offsets[j] + if j < i then 0 else |Content(c)| - |Content(kids[i])|
    {
      OffAfterUpdate(kids, i, c, j + 1);
    }
  }

  // ---------------------------------------------------------------- insertion

  /** Appending to a compact node splits it only when it is full, and keeps everything compact. */
  ghost predicate StaysCompact<T>(max: NodeMax, h: nat, t0: Node<T>, t1: Node<T>, sibs: seq<Node<T>>) {
    && (sibs != [] ==>
          IsCompact(sibs[0]) && |Content(t0)| == Pow(max, h + 1) && |Content(t1)| == |Content(t0)|)
  }

  /** The result of inserting `v` at `n` into a node `t0` of height `h`: the node is now `t1`,
      and `sibs` holds the new right sibling if it had to be split. */
  ghost predicate Inserted<T>(max: NodeMax, h: nat, t0: Node<T>, t1: Node<T>, sibs: seq<Node<T>>,
                              n: nat, v: T, st: Split)
  {
    && |sibs| <= 1 && WF(max, t1, h) && (sibs == [] ==> NodeSize(t0) <= NodeSize(t1))
    && (sibs != [] ==> WF(max, sibs[0], h) && st == Split(|Content(t1)|, |Content(t0)| + 1))
    && Content(t1) + Flat(sibs) == InsertAt(Content(t0), n, v)
    && (n == NPOS ==> IsCompact(t1) == IsCompact(t0))
    && (n == NPOS && IsCompact(t0) ==> StaysCompact(max, h, t0, t1, sibs))
  }

  lemma LeafRoom<T>(max: NodeMax, s: seq<T>, n: nat, v: T, st: Split)
    requires |s| < max
    ensures Inserted(max, 0, Leaf(s), Leaf(InsertAt(s, n, v)), [], n, v, st)
  {
    assert InsertAt(s, n, v) + [] == InsertAt(s, n, v);
  }

  lemma LeafSplitEnd<T>(max: NodeMax, s: seq<T>, n: nat, v: T)
    requires |s| == max && n >= |s|
    ensures Inserted(max, 0, Leaf(s), Leaf(s), [Leaf([v])], n, v, Split(|s|, |s| + 1))
  {
    FlatOne(Leaf([v]));
    assert Pow(max, 1) == max * Pow(max, 0);
  }

  lemma LeafSplitMiddle<T>(max: NodeMax, s: seq<T>, n: nat, v: T)
    requires |s| == max && n < |s| <= NPOS
    ensures Inserted(max, 0, Leaf(s), Leaf(s[..n] + [v]), [Leaf(s[n..])], n, v, Split(n + 1, |s| + 1))
  {
    FlatOne(Leaf(s[n..]));
  }

  /** What the child's result means for the sequence under this node. */
  lemma {:induction false} InsertedBelow<T>(max: NodeMax, h: nat, kids: seq<Node<T>>, i: nat, c: Node<T>,
                                            sibs: seq<Node<T>>, n: nat, m: nat, v: T, st: Split)
    requires Routed(kids, i, n, m) && |Flat(kids)| <= NPOS
    requires Inserted(max, h, kids[i], c, sibs, m, v, st)
    ensures Flat(kids[..i] + [c] + sibs + kids[i + 1..]) == InsertAt(Flat(kids), n, v)
    ensures |Content(c)| + |Flat(sibs)| == |Content(kids[i])| + 1
  {
    InsertRouted(kids, i, n, m, v);
    FlatConcat(kids[..i] + [c] + sibs, kids[i + 1..]);
    FlatConcat(kids[..i] + [c], sibs);
    FlatThree(kids[..i], c, []);
    assert Flat(kids[..i]) + Content(c) + Flat(sibs) == Flat(kids[..i]) + InsertAt(Content(kids[i]), m, v);
  }

  lemma {:induction false} Absorbed<T>(max: NodeMax, h: nat, kids: seq<Node<T>>, i: nat, c: Node<T>, n: nat, m: nat,
                                       v: T, st: Split)
    requires Routed(kids, i, n, m) && |Flat(kids)| <= NPOS && Inserted(max, h, kids[i], c, [], m, v, st)
    ensures Flat(kids[i := c]) + [] == InsertAt(Flat(kids), n, v)
    ensures |Content(c)| == |Content(kids[i])| + 1
  {
    InsertedBelow(max, h, kids, i, c, [], n, m, v, st);
    assert kids[i := c] == kids[..i] + [c] + [] + kids[i + 1..];
  }

  /** The child absorbed the element. */
  lemma {:induction false} InsertNoSplit<T>(max: NodeMax, h: nat, t: Node<T>, i: nat, c: Node<T>, n: nat, m: nat, v: T,
                                            form: Form, st: Split)
    requires h > 0 && WF(max, t, h) && |Flat(t.kids)| <= NPOS
    requires Routed(t.kids, i, n, m) && Inserted(max, h - 1, t.kids[i], c, [], m, v, st)
    requires t.form.Compact? ==> n == NPOS && form == t.form
    requires t.form.General? ==> form == General(AdjustFrom(t.form.offsets, i, 1))
    ensures Inserted(max, h, t, Inner(form, t.kids[i := c], t.size + 1), [], n, v, st)
  {
    Absorbed(max, h - 1, t.kids, i, c, n, m, v, st);
    if t.form.General? {
      AdjustOK(t.form.offsets, t.kids, i, c);
    }
  }

  /** The child was split and this node has room for the new sibling. */
  lemma {:induction false} InsertSibling<T>(max: NodeMax, h: nat, t: Node<T>, i: nat, c: Node<T>, s: Node<T>,
                                            n: nat, m: nat, v: T, st: Split, form: Form, st': Split)
    requires h > 0 && WF(max, t, h) && |Flat(t.kids)| <= NPOS && |t.kids| < max
    requires Routed(t.kids, i, n, m) && Inserted(max, h - 1, t.kids[i], c, [s], m, v, st)
    requires t.form.Compact? ==> n == NPOS && form == t.form
    requires t.form.General? ==> form == General(WithSibling(t.form.offsets, i, st.offset))
    ensures Inserted(max, h, t, Inner(form, t.kids[..i] + [c] + [s] + t.kids[i + 1..], t.size + 1), [], n, v, st')
  {
    var kids := t.kids[..i] + [c] + [s] + t.kids[i + 1..];
    InsertedBelow(max, h - 1, t.kids, i, c, [s], n, m, v, st);
    assert Flat(kids) + [] == Flat(kids);
    FlatOne(s);
    forall j | 0 <= j < |kids| ensures WF(max, kids[j], h - 1) {
      assert j > i + 1 ==> kids[j] == t.kids[j - 1];
    }
    if t.form.General? {
      OffsetsAfterSibling(t.form.offsets, t.kids, i, c, s);
    } else {
      assert CompactOK(t.form.elemsPerChild, kids);
    }
  }

  /** `m_offsets` after `insert(i, start + offset)` and `adjust(i + 1, size, +1)`. */
  function WithSibling(offs: seq<nat>, i: nat, offset: nat): seq<nat>
    requires i <= |offs|
  {
    var start := if i > 0 then offs[i - 1] else 0;
    AdjustFrom(offs[..i] + [start + offset] + offs[i..], i + 1, 1)
  }

  lemma {:induction false} OffsetsAfterSibling<T>(offs: seq<nat>, kids: seq<Node<T>>, i: nat, c: Node<T>, s: Node<T>)
    requires OffsetsOK(offs, kids) && i < |kids|
    requires |Content(c)| + |Content(s)| == |Content(kids[i])| + 1
    ensures OffsetsOK(WithSibling(offs, i, |Content(c)|), kids[..i] + [c] + [s] + kids[i + 1..])
  {
    var kids' := kids[..i] + [c] + [s] + kids[i + 1..];
    var offs' := WithSibling(offs, i, |Content(c)|);
    forall j | 0 <= j < |offs'| ensures offs'[j] == Off(kids', j + 1) {
      if j < i {
        assert kids'[..j + 1] == kids[..j + 1];
      } else {
        FlatThree(kids[..i], c, []);
        if j == i {
          assert kids'[..i + 1] == kids[..i] + [c];
        } else {
          assert kids'[..j + 1] == (kids[..i] + [c]) + [s] + kids[i + 1..j];
          assert kids[..j] == kids[..i] + [kids[i]] + kids[i + 1..j];
          FlatThree(kids[..i] + [c], s, kids[i + 1..j]);
          FlatThree(kids[..i], kids[i], kids[i + 1..j]);
        }
      }
    }
  }

  /** Case 1 of an inner split: the split child was the last one, so the new sibling of this
      node starts with the new sibling of the child. */
  lemma {:induction false} InsertSplitLast<T>(max: NodeMax, h: nat, t: Node<T>, c: Node<T>, s: Node<T>,
                                              n: nat, m: nat, v: T, st: Split, start: nat)
    requires h > 0 && WF(max, t, h) && |Flat(t.kids)| <= NPOS && |t.kids| == max
    requires Routed(t.kids, max - 1, n, m) && Inserted(max, h - 1, t.kids[max - 1], c, [s], m, v, st)
    requires start == Off(t.kids, max - 1)
    requires t.form.Compact? ==> n == NPOS
    ensures var form := if t.form.Compact? then t.form else General([]);
            Inserted(max, h, t, Inner(t.form, t.kids[max - 1 := c], start + st.offset),
                     [Inner(form, [s], st.size - st.offset)], n, v, Split(start + st.offset, start + st.size))
  {
    var i := max - 1;
    var t2 := Inner(if t.form.Compact? then t.form else General([]), [s], st.size - st.offset);
    SplitLastContent(max, h - 1, t.kids, i, c, s, n, m, v, st);
    FlatOne(t2);
    SplitLastForm(max, h, t, c, start);
    if t.form.Compact? && n == NPOS {
      CompactFull(max, h, t);
    }
  }

  lemma {:induction false} SplitLastContent<T>(max: NodeMax, h: nat, kids: seq<Node<T>>, i: nat, c: Node<T>, s: Node<T>,
                                               n: nat, m: nat, v: T, st: Split)
    requires Routed(kids, i, n, m) && |Flat(kids)| <= NPOS && i == |kids| - 1
    requires Inserted(max, h, kids[i], c, [s], m, v, st)
    ensures Flat(kids[i := c]) + Flat([s]) == InsertAt(Flat(kids), n, v)
    ensures |Flat(kids[i := c])| == Off(kids, i) + st.offset && |Flat([s])| == st.size - st.offset
    ensures |Flat(kids)| + 1 == Off(kids, i) + st.size
  {
    FlatSplit(kids, i);
    InsertedBelow(max, h, kids, i, c, [s], n, m, v, st);
    assert kids[i := c] == kids[..i] + [c] && kids[i + 1..] == [];
    assert kids[..i] + [c] + [s] + [] == kids[i := c] + [s];
    FlatThree(kids[..i], c, []);
    FlatConcat(kids[i := c], [s]);
  }

  lemma {:induction false} SplitLastForm<T>(max: NodeMax, h: nat, t: Node<T>, c: Node<T>, start: nat)
    requires h > 0 && WF(max, t, h) && |t.kids| == max
    requires t.form.Compact? ==> IsCompact(c)
    ensures FormOK(max, t.form, t.kids[max - 1 := c], h)
  {
    if t.form.General? {
      forall j | 0 <= j < |t.form.offsets| ensures t.form.offsets[j] == Off(t.kids[max - 1 := c], j + 1) {
        OffAfterUpdate(t.kids, max - 1, c, j + 1);
      }
    }
  }

  /** A compact node whose last child is full, and which has `max` children, is full. */
  lemma {:induction false} CompactFull<T>(max: NodeMax, h: nat, t: Node<T>)
    requires h > 0 && WF(max, t, h) && |t.kids| == max && t.form.Compact?
    ensures |Content(t.kids[max - 1])| == Pow(max, h) ==> |Content(t)| == Pow(max, h + 1)
  {
    CompactOff(t.form.elemsPerChild, t.kids, max - 1);
    FlatSplit(t.kids, max - 1);
    assert t.kids[max..] == [];
    assert Pow(max, h + 1) == max * Pow(max, h);
    assert (max - 1) * Pow(max, h) + Pow(max, h) == max * Pow(max, h);
  }

  /** Case 2 of an inner split: the children after the split child move to the new sibling. */
  lemma {:induction false} InsertSplitMiddle<T>(max: NodeMax, h: nat, t: Node<T>, i: nat, c: Node<T>, s: Node<T>,
                                                n: nat, m: nat, v: T, st: Split, offs1: seq<nat>, offs2: seq<nat>)
    requires h > 0 && WF(max, t, h) && |Flat(t.kids)| <= NPOS && |t.kids| == max && i + 1 < max
    requires Routed(t.kids, i, n, m) && Inserted(max, h - 1, t.kids[i], c, [s], m, v, st)
    requires t.form.General? && n != NPOS
    requires offs1 == t.form.offsets[..i] + [Off(t.kids, i) + st.offset]
    requires |offs2| == max - i - 2
    requires forall j :: 0 <= j < |offs2| ==> offs2[j] == t.form.offsets[i + 1 + j] - (Off(t.kids, i) + st.size - 1)
    ensures var cut := Off(t.kids, i) + st.size;
            cut <= t.size + 1 &&
            Inserted(max, h, t, Inner(General(offs1), t.kids[..i] + [c] + [s], cut),
                     [Inner(General(offs2), t.kids[i + 1..], t.size + 1 - cut)], n, v, Split(cut, t.size + 1))
  {
    SplitMiddleContent(max, h - 1, t.kids, i, c, s, n, m, v, st);
    SplitMiddleWF(max, h, t, i, c, s, offs1, offs2);
    FlatOne(Inner(General(offs2), t.kids[i + 1..], t.size + 1 - (Off(t.kids, i) + st.size)));
  }

  lemma {:induction false} SplitMiddleWF<T>(max: NodeMax, h: nat, t: Node<T>, i: nat, c: Node<T>, s: Node<T>,
                                            offs1: seq<nat>, offs2: seq<nat>)
    requires h > 0 && WF(max, t, h) && |t.kids| == max && i + 1 < max && t.form.General?
    requires WF(max, c, h - 1) && WF(max, s, h - 1) && |Content(c)| + |Content(s)| == |Content(t.kids[i])| + 1
    requires offs1 == t.form.offsets[..i] + [Off(t.kids, i) + |Content(c)|]
    requires |offs2| == max - i - 2
    requires forall j :: 0 <= j < |offs2| ==>
               offs2[j] == t.form.offsets[i + 1 + j] - (Off(t.kids, i) + |Content(t.kids[i])|)
    ensures var kids1, kids2 := t.kids[..i] + [c] + [s], t.kids[i + 1..];
            WF(max, Inner(General(offs1), kids1, |Flat(kids1)|), h) &&
            WF(max, Inner(General(offs2), kids2, |Flat(kids2)|), h)
  {
    SplitMiddleOffsets(t.form.offsets, t.kids, i, c, s, offs1, offs2);
    MakeGeneral(max, h, offs1, t.kids[..i] + [c] + [s]);
    MakeGeneral(max, h, offs2, t.kids[i + 1..]);
  }

  lemma {:induction false} MakeGeneral<T>(max: NodeMax, h: nat, offs: seq<nat>, kids: seq<Node<T>>)
    requires h > 0 && 1 <= |kids| <= max && OffsetsOK(offs, kids)
    requires forall j :: 0 <= j < |kids| ==> WF(max, kids[j], h - 1)
    ensures WF(max, Inner(General(offs), kids, |Flat(kids)|), h)
  {
  }

  lemma {:induction false} SplitMiddleContent<T>(max: NodeMax, h: nat, kids: seq<Node<T>>, i: nat, c: Node<T>,
                                                 s: Node<T>, n: nat, m: nat, v: T, st: Split)
    requires Routed(kids, i, n, m) && |Flat(kids)| <= NPOS
    requires Inserted(max, h, kids[i], c, [s], m, v, st)
    ensures |Content(c)| + |Content(s)| == |Content(kids[i])| + 1
    ensures Flat(kids[..i] + [c] + [s]) + Flat(kids[i + 1..]) == InsertAt(Flat(kids), n, v)
    ensures |Flat(kids[..i] + [c] + [s])| == Off(kids, i) + st.size
  {
    InsertedBelow(max, h, kids, i, c, [s], n, m, v, st);
    FlatOne(s);
    FlatConcat(kids[..i] + [c] + [s], kids[i + 1..]);
    FlatConcat(kids[..i] + [c], [s]);
    FlatThree(kids[..i], c, []);
  }

  lemma {:induction false} SplitMiddleOffsets<T>(offs: seq<nat>, kids: seq<Node<T>>, i: nat, c: Node<T>, s: Node<T>,
                                                 offs1: seq<nat>, offs2: seq<nat>)
    requires OffsetsOK(offs, kids) && i + 1 < |kids|
    requires |Content(c)| + |Content(s)| == |Content(kids[i])| + 1
    requires offs1 == offs[..i] + [Off(kids, i) + |Content(c)|]
    requires |offs2| == |kids| - i - 2
    requires forall j :: 0 <= j < |offs2| ==> offs2[j] == offs[i + 1 + j] - (Off(kids, i) + |Content(kids[i])|)
    ensures OffsetsOK(offs1, kids[..i] + [c] + [s]) && OffsetsOK(offs2, kids[i + 1..])
  {
    var kids1, kids2 := kids[..i] + [c] + [s], kids[i + 1..];
    FlatSplit(kids, i);
    forall j | 0 <= j < |offs1| ensures offs1[j] == Off(kids1, j + 1) {
      if j < i {
        assert kids1[..j + 1] == kids[..j + 1];
      } else {
        assert kids1[..i + 1] == kids[..i] + [c];
        FlatThree(kids[..i], c, []);
      }
    }
    forall j | 0 <= j < |offs2| ensures offs2[j] == Off(kids2, j + 1) {
      assert kids[..i + 2 + j] == kids[..i + 1] + kids2[..j + 1];
      FlatConcat(kids[..i + 1], kids2[..j + 1]);
    }
  }

  // ---------------------------------------------------------------- growing the root

  /** The split root gets a new root above it, compact only for an append to a compact root. */
  lemma {:induction false} GrowRoot<T>(max: NodeMax, h: nat, t0: Node<T>, t1: Node<T>, s: Node<T>, n: nat, v: T,
                                       st: Split, form: Form)
    requires Inserted(max, h, t0, t1, [s], n, v, st)
    requires (form == Compact(st.offset) && n == NPOS && IsCompact(t0)) || form == General([st.offset])
    ensures WFRoot(max, Inner(form, [t1, s], st.size), h + 1)
    ensures Flat([t1, s]) == InsertAt(Content(t0), n, v)
  {
    var kids := [t1, s];
    assert kids == [t1] + [s];
    FlatConcat([t1], [s]);
    FlatOne(t1);
    assert kids[..1] == [t1];
    assert OffsetsOK([st.offset], kids);
  }

  // ---------------------------------------------------------------- erasure

  ghost predicate Erased<T>(max: NodeMax, h: nat, t0: Node<T>, t1: Node<T>, n: nat) {
    n < |Content(t0)| && WF(max, t1, h) && Content(t1) == EraseAt(Content(t0), n)
  }

  /** The child that holds position `n`, or the last. */
  ghost function Route<T>(kids: seq<Node<T>>, n: nat): (i: nat)
    requires kids != []
    ensures i < |kids|
    decreases |kids|
  {
    if |kids| == 1 || n < |Content(kids[0])| then 0 else 1 + Route(kids[1..], n - |Content(kids[0])|)
  }

  lemma {:induction false} RouteIs<T>(kids: seq<Node<T>>, i: nat, n: nat, m: nat)
    requires Routed(kids, i, n, m) && n < NPOS
    ensures Route(kids, n) == i && m == n - Off(kids, i)
    decreases |kids|
  {
    if |kids| > 1 {
      var rest, c := kids[1..], |Content(kids[0])|;
      assert kids[..1] == [kids[0]];
      FlatOne(kids[0]);
      if i > 0 {
        OffTail(kids, i);
        if i < |kids| - 1 {
          OffTail(kids, i + 1);
        }
        RouteIs(rest, i - 1, n - c, m);
      }
    }
  }

  lemma OffTail<T>(kids: seq<Node<T>>, i: nat)
    requires 0 < i <= |kids|
    ensures Off(kids, i) == |Content(kids[0])| + Off(kids[1..], i - 1)
  {
    assert kids[..i][0] == kids[0] && kids[..i][1..] == kids[1..][..i - 1];
  }

  /** The number of children left when child `i` has come down to `sz`: an empty one is removed, and one
      below half size is joined with the next if both fit comfortably into one node. */
  ghost function NodesAfter<T>(max: NodeMax, kids: seq<Node<T>>, i: nat, sz: nat): nat
    requires i < |kids|
  {
    if sz == 0 || (sz < max / 2 && i + 1 < |kids| && NodeSize(kids[i + 1]) + sz < max * 3 / 4) then |kids| - 1
    else |kids|
  }

  /** The size that `bptree_erase` reports for a node. */
  ghost function SizeAfterErase<T>(max: NodeMax, t: Node<T>, n: nat): nat {
    match t
    case Leaf(elems) => if elems == [] then 0 else |elems| - 1
    case Inner(_, kids, _) =>
      if kids == [] then 0
      else
        var i := Route(kids, n);
        NodesAfter(max, kids, i, SizeAfterErase(max, kids[i], if n < Off(kids, i) then 0 else n - Off(kids, i)))
  }

  /** What the shorter child means for the sequence under this node. */
  lemma {:induction false} ShrunkBelow<T>(kids: seq<Node<T>>, i: nat, c: Node<T>, n: nat, m: nat)
    requires Routed(kids, i, n, m) && n != NPOS && n < |Flat(kids)|
    requires m < |Content(kids[i])| ==> Content(c) == EraseAt(Content(kids[i]), m)
    ensures |Content(c)| == |Content(kids[i])| - 1
    ensures Flat(kids[i := c]) == EraseAt(Flat(kids), n)
  {
    EraseRouted(kids, i, n, m);
    assert kids[i := c] == kids[..i] + [c] + kids[i + 1..];
    FlatThree(kids[..i], c, kids[i + 1..]);
  }

  /** The child shrank but stays. */
  lemma {:induction false} EraseShrinks<T>(max: NodeMax, h: nat, t: Node<T>, i: nat, c: Node<T>, n: nat, m: nat)
    requires h > 0 && WF(max, t, h) && t.form.General?
    requires Routed(t.kids, i, n, m) && n != NPOS && n < |Flat(t.kids)| && Erased(max, h - 1, t.kids[i], c, m)
    ensures forall j :: i <= j < |t.form.offsets| ==> t.form.offsets[j] >= 1
    ensures t.size >= 1
    ensures Erased(max, h, t, Inner(General(AdjustFrom(t.form.offsets, i, -1)), t.kids[i := c], t.size - 1), n)
  {
    ShrunkBelow(t.kids, i, c, n, m);
    AdjustOK(t.form.offsets, t.kids, i, c);
    MakeGeneral(max, h, AdjustFrom(t.form.offsets, i, -1), t.kids[i := c]);
  }

  /** `m_offsets` after `erase_and_destroy_bp_node(i)`. */
  function WithoutChild(offs: seq<nat>, i: nat): seq<nat>
    requires i <= |offs|
  {
    if |offs| == 0 then offs
    else if i < |offs| then offs[..i] + offs[i + 1..] else offs[..|offs| - 1]
  }

  lemma {:induction false} RemovedBelow<T>(kids: seq<Node<T>>, i: nat, n: nat, m: nat)
    requires Routed(kids, i, n, m) && n != NPOS && n < |Flat(kids)| && |Content(kids[i])| == 1
    ensures Flat(kids[..i] + kids[i + 1..]) == EraseAt(Flat(kids), n)
  {
    EraseRouted(kids, i, n, m);
    assert EraseAt(Content(kids[i]), m) == [];
    FlatConcat(kids[..i], kids[i + 1..]);
  }

  lemma {:induction false} RemovedOffsets<T>(offsets: seq<nat>, kids: seq<Node<T>>, i: nat)
    requires OffsetsOK(offsets, kids) && i < |kids| && |kids| >= 2 && |Content(kids[i])| == 1
    ensures forall j :: i <= j < |offsets| ==> offsets[j] >= 1
    ensures OffsetsOK(WithoutChild(AdjustFrom(offsets, i, -1), i), kids[..i] + kids[i + 1..])
  {
    var emptied := kids[i := Leaf([])];
    AdjustOK(offsets, kids, i, Leaf([]));
    WithoutEmptyChild(AdjustFrom(offsets, i, -1), emptied, i);
    assert emptied[..i] + emptied[i + 1..] == kids[..i] + kids[i + 1..];
  }

  /** The child held one element and goes away with it. */
  lemma {:induction false} EraseRemovesChild<T>(max: NodeMax, h: nat, t: Node<T>, i: nat, n: nat, m: nat)
    requires h > 0 && WF(max, t, h) && t.form.General? && |t.kids| >= 2
    requires Routed(t.kids, i, n, m) && n != NPOS && n < |Flat(t.kids)| && |Content(t.kids[i])| == 1
    ensures forall j :: i <= j < |t.form.offsets| ==> t.form.offsets[j] >= 1
    ensures t.size >= 1
    ensures Erased(max, h, t, Inner(General(WithoutChild(AdjustFrom(t.form.offsets, i, -1), i)),
                                    t.kids[..i] + t.kids[i + 1..], t.size - 1), n)
  {
    var kids := t.kids[..i] + t.kids[i + 1..];
    RemovedBelow(t.kids, i, n, m);
    RemovedOffsets(t.form.offsets, t.kids, i);
    MakeGeneral(max, h, WithoutChild(AdjustFrom(t.form.offsets, i, -1), i), kids);
  }

  lemma {:induction false} WithoutEmptyChild<T>(offs: seq<nat>, kids: seq<Node<T>>, i: nat)
    requires OffsetsOK(offs, kids) && i < |kids| && |kids| >= 2 && Content(kids[i]) == []
    ensures OffsetsOK(WithoutChild(offs, i), kids[..i] + kids[i + 1..])
  {
    var kids' := kids[..i] + kids[i + 1..];
    var offs' := WithoutChild(offs, i);
    forall j | 0 <= j < |offs'| ensures offs'[j] == Off(kids', j + 1) {
      if j < i {
        assert kids'[..j + 1] == kids[..j + 1];
      } else {
        assert kids'[..j + 1] == kids[..i] + kids[i + 1..j + 2];
        assert kids[..j + 2] == kids[..i] + [kids[i]] + kids[i + 1..j + 2];
        FlatConcat(kids[..i], kids[i + 1..j + 2]);
        FlatThree(kids[..i], kids[i], kids[i + 1..j + 2]);
      }
    }
  }

  /** `m_offsets` when child `i` absorbs child `i + 1`: the sibling's offset takes the value after
      it, then the sibling is destroyed. */
  function MergedOffsets(offs: seq<nat>, i: nat): seq<nat>
    requires i < |offs|
  {
    WithoutChild(if i + 1 < |offs| then offs[i := offs[i + 1]] else offs, i + 1)
  }

  /** Child `i` absorbed its right sibling. */
  lemma {:induction false} MergeChildren<T>(max: NodeMax, h: nat, t: Node<T>, i: nat, c: Node<T>)
    requires h > 0 && WF(max, t, h) && t.form.General? && i + 1 < |t.kids|
    requires WF(max, c, h - 1) && Content(c) == Content(t.kids[i]) + Content(t.kids[i + 1])
    ensures var t' := Inner(General(MergedOffsets(t.form.offsets, i)), t.kids[..i] + [c] + t.kids[i + 2..], t.size);
            WF(max, t', h) && Content(t') == Content(t)
  {
    var kids := t.kids[..i] + [c] + t.kids[i + 2..];
    MergedContent(t.kids, i, c, t.kids[i + 2..]);
    assert t.kids == t.kids[..i] + [t.kids[i]] + [t.kids[i + 1]] + t.kids[i + 2..];
    MergeOffsetsOK(t.form.offsets, t.kids, i, c);
    MakeGeneral(max, h, MergedOffsets(t.form.offsets, i), kids);
  }

  lemma {:induction false} MergedContent<T>(kids: seq<Node<T>>, i: nat, c: Node<T>, rest: seq<Node<T>>)
    requires i + 1 < |kids|
    requires Content(c) == Content(kids[i]) + Content(kids[i + 1])
    ensures Flat(kids[..i] + [c] + rest) == Flat(kids[..i] + [kids[i]] + [kids[i + 1]] + rest)
  {
    FlatThree(kids[..i], c, rest);
    FlatThree(kids[..i] + [kids[i]], kids[i + 1], rest);
    FlatThree(kids[..i], kids[i], []);
  }

  lemma {:induction false} MergeOffsetsOK<T>(offs: seq<nat>, kids: seq<Node<T>>, i: nat, c: Node<T>)
    requires OffsetsOK(offs, kids) && i + 1 < |kids|
    requires Content(c) == Content(kids[i]) + Content(kids[i + 1])
    ensures OffsetsOK(MergedOffsets(offs, i), kids[..i] + [c] + kids[i + 2..])
  {
    var kids' := kids[..i] + [c] + kids[i + 2..];
    var offs' := MergedOffsets(offs, i);
    assert offs' == offs[..i] + offs[i + 1..];
    forall j | 0 <= j < |offs'| ensures offs'[j] == Off(kids', j + 1) {
      if j < i {
        assert kids'[..j + 1] == kids[..j + 1];
      } else {
        assert kids'[..j + 1] == kids[..i] + [c] + kids[i + 2..j + 2];
        assert kids[..j + 2] == kids[..i] + [kids[i]] + [kids[i + 1]] + kids[i + 2..j + 2];
        MergedContent(kids, i, c, kids[i + 2..j + 2]);
      }
    }
  }

  /** Two inner nodes on general form, appended: the moved offsets shift by the first size. */
  lemma {:induction false} JoinInner<T>(max: NodeMax, h: nat, a: Node<T>, b: Node<T>, offs: seq<nat>)
    requires h > 0 && WF(max, a, h) && WF(max, b, h) && a.form.General? && b.form.General?
    requires |a.kids| + |b.kids| <= max
    requires offs == a.form.offsets + [a.size] +
                     seq(|b.form.offsets|, j requires 0 <= j < |b.form.offsets| => b.form.offsets[j] + a.size)
    ensures WF(max, Inner(General(offs), a.kids + b.kids, a.size + b.size), h)
    ensures Flat(a.kids + b.kids) == Content(a) + Content(b)
  {
    FlatConcat(a.kids, b.kids);
    var kids := a.kids + b.kids;
    forall j | 0 <= j < |offs| ensures offs[j] == Off(kids, j + 1) {
      if j < |a.kids| {
        assert kids[..j + 1] == a.kids[..j + 1];
        assert a.kids[..|a.kids|] == a.kids;
      } else {
        assert kids[..j + 1] == a.kids + b.kids[..j + 1 - |a.kids|];
        FlatConcat(a.kids, b.kids[..j + 1 - |a.kids|]);
      }
    }
    MakeGeneral(max, h, offs, kids);
  }

  // ---------------------------------------------------------------- compact trees are unique

  lemma {:induction false} PowMono(b: NodeMax, e: nat, f: nat)
    requires e <= f
    ensures 1 <= Pow(b, e) <= Pow(b, f)
    decreases f
  {
    if e < f {
      PowMono(b, e, f - 1);
      MulMono(1, b, Pow(b, f - 1));
    } else if e > 0 {
      PowMono(b, e - 1, f - 1);
      MulMono(1, b, Pow(b, f - 1));
    }
  }

  lemma {:induction false} SameKids<T>(max: NodeMax, k1: seq<Node<T>>, k2: seq<Node<T>>, h: nat)
    requires (forall i :: 0 <= i < |k1| ==> WF(max, k1[i], h)) && (forall i :: 0 <= i < |k2| ==> WF(max, k2[i], h))
    requires CompactOK(Pow(max, h + 1), k1) && CompactOK(Pow(max, h + 1), k2)
    requires Flat(k1) == Flat(k2)
    ensures k1 == k2
    decreases h, |k1|
  {
    if k1 != [] { Capacity(max, k1[0], h); }
    if k2 != [] { Capacity(max, k2[0], h); }
    if k1 != [] && k2 != [] {
      SameHeads(max, k1, k2, h);
      SameCompact(max, k1[0], k2[0], h);
      SameKids(max, k1[1..], k2[1..], h);
      assert k1 == [k1[0]] + k1[1..] && k2 == [k2[0]] + k2[1..];
    }
  }

  lemma SameHeads<T>(max: NodeMax, k1: seq<Node<T>>, k2: seq<Node<T>>, h: nat)
    requires (forall i :: 0 <= i < |k1| ==> WF(max, k1[i], h)) && (forall i :: 0 <= i < |k2| ==> WF(max, k2[i], h))
    requires CompactOK(Pow(max, h + 1), k1) && CompactOK(Pow(max, h + 1), k2)
    requires Flat(k1) == Flat(k2) && k1 != [] && k2 != []
    ensures Content(k1[0]) == Content(k2[0]) && Flat(k1[1..]) == Flat(k2[1..])
  {
    HeadSize(max, k1, h);
    HeadSize(max, k2, h);
    SamePrefix(Content(k1[0]), Flat(k1[1..]), Content(k2[0]), Flat(k2[1..]));
  }

  /** A child other than the last is full, and the last has at most what is left. */
  lemma HeadSize<T>(max: NodeMax, kids: seq<Node<T>>, h: nat)
    requires kids != [] && (forall i :: 0 <= i < |kids| ==> WF(max, kids[i], h)) && CompactOK(Pow(max, h + 1), kids)
    ensures Flat(kids) == Content(kids[0]) + Flat(kids[1..])
    ensures |Content(kids[0])| == if |Flat(kids)| <= Pow(max, h + 1) then |Flat(kids)| else Pow(max, h + 1)
  {
    Capacity(max, kids[0], h);
    if |kids| > 1 {
      Capacity(max, kids[1], h);
      FlatSplit(kids[1..], 0);
    }
  }

  lemma SamePrefix<A>(a: seq<A>, b: seq<A>, c: seq<A>, d: seq<A>)
    requires a + b == c + d && |a| == |c|
    ensures a == c && b == d
  {
    assert a == (a + b)[..|a|] && c == (c + d)[..|c|];
    assert b == (a + b)[|a|..] && d == (c + d)[|c|..];
  }

  lemma {:induction false} SameCompact<T>(max: NodeMax, t1: Node<T>, t2: Node<T>, h: nat)
    requires WF(max, t1, h) && WF(max, t2, h) && IsCompact(t1) && IsCompact(t2)
    requires Content(t1) == Content(t2)
    ensures t1 == t2
    decreases h, 0
  {
    if h > 0 {
      SameKids(max, t1.kids, t2.kids, h - 1);
    }
  }

  lemma {:induction false} CompactHeight<T>(max: NodeMax, t: Node<T>, h: nat)
    requires WFRoot(max, t, h) && IsCompact(t) && h > 0
    ensures Pow(max, h) < |Content(t)| <= Pow(max, h + 1)
  {
    Capacity(max, t, h);
    Capacity(max, t.kids[1], h - 1);
    FlatSplit(t.kids, 0);
    FlatSplit(t.kids[1..], 0);
  }

  /** The contents of a compact tree determine it, node for node: height, grouping, stored sizes.
      A tree built in bulk and one grown by appending the same elements are therefore equal. */
  lemma {:induction false} CompactTreeUnique<T>(max: NodeMax, t1: Node<T>, h1: nat, t2: Node<T>, h2: nat)
    requires WFRoot(max, t1, h1) && WFRoot(max, t2, h2) && IsCompact(t1) && IsCompact(t2)
    requires Content(t1) == Content(t2)
    ensures h1 == h2 && t1 == t2
  {
    if h1 > 0 { CompactHeight(max, t1, h1); }
    if h2 > 0 { CompactHeight(max, t2, h2); }
    assert Pow(max, 1) == max * Pow(max, 0);
    if h1 < h2 {
      PowMono(max, h1 + 1, h2);
    } else if h2 < h1 {
      PowMono(max, h2 + 1, h1);
    } else if h1 > 0 {
      SameCompact(max, t1, t2, h1);
    }
  }

  /** The tree of the empty sequence is one empty leaf. */
  lemma {:induction false} CompactEmpty<T>(max: NodeMax, t: Node<T>, h: nat)
    requires WFRoot(max, t, h) && Content(t) == []
    ensures h == 0 && t == Leaf([])
  {
    if h > 0 {
      Capacity(max, t, h);
    }
  }
}
