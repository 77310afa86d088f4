/** Optional integers with a value that stands for null: which value is chosen next, and what the
    operations of `ArrayIntNull` do to a leaf. */
module NullLeaves {
  import opened Bits
  import opened Lanes
  import opened PackedArrays
  import opened IntArrays
  import opened Words

  datatype Option = None | Some(value: int)

  // ---------------------------------------------------------------- candidates for null

  const STEP: nat := 0xffff_fffb

  /** Reinterpretation of an unsigned 64-bit sum as a signed number. */
  function Wrap(x: int): int {
    (x + 0x8000_0000_0000_0000) % WORD - 0x8000_0000_0000_0000
  }

  function NextCandidate(previous: int): int {
    Wrap(previous + STEP)
  }

  /** The `k`th candidate after `start`. */
  ghost function Candidate(start: int, k: nat): int {
    Wrap(start + k * STEP)
  }

  lemma CandidateSteps(start: int, k: nat)
    ensures NextCandidate(Candidate(start, k)) == Candidate(start, k + 1)
  {
    WrapWrap(start + k * STEP, STEP);
    assert start + k * STEP + STEP == start + (k + 1) * STEP;
  }

  lemma WrapIs(x: int) returns (q: int)
    ensures x == Wrap(x) + q * WORD
  {
    q := (x + 0x8000_0000_0000_0000) / WORD;
  }

  lemma WrapWrap(x: int, d: int)
    ensures Wrap(Wrap(x) + d) == Wrap(x + d)
  {
    var q := WrapIs(x);
    var h := 0x8000_0000_0000_0000;
    assert x + d + h == Wrap(x) + d + h + q * WORD;
    ModShift(Wrap(x) + d + h, q);
  }

  lemma ModShift(a: int, q: int)
    ensures (a + q * WORD) % WORD == a % WORD
  {
    var y, z := (a + q * WORD) / WORD, a / WORD;
    assert a + q * WORD == y * WORD + (a + q * WORD) % WORD;
    assert a == z * WORD + a % WORD;
    assert (y - z - q) * WORD == a % WORD - (a + q * WORD) % WORD;
    assert y - z - q == 0;
  }

  /** The first 2^64 candidates are all different. */
  lemma CandidatesDiffer(start: int, i: nat, j: nat)
    requires i < j && j - i < WORD
    ensures Candidate(start, i) != Candidate(start, j)
  {
    var p := WrapIs(start + i * STEP);
    var q := WrapIs(start + j * STEP);
    if Candidate(start, i) == Candidate(start, j) {
      assert (j - i) * STEP == (q - p) * WORD;
      Powers();
      var r := OddFactor(j - i, STEP, q - p, BITS);
    }
  }

  /** The values that cannot stand for null. */
  ghost function Taken(opts: seq<Option>, x: int): set<int> {
    (set o | o in opts && o.Some? :: o.value) + {x}
  }

  lemma {:induction false} TakenBound(opts: seq<Option>, x: int)
    ensures |Taken(opts, x)| <= |opts| + 1
  {
    if opts != [] {
      var init, o := opts[..|opts| - 1], opts[|opts| - 1];
      TakenBound(init, x);
      assert opts == init + [o];
      assert Taken(opts, x) == Taken(init, x) + if o.Some? then {o.value} else {};
    } else {
      assert Taken(opts, x) == {x};
    }
  }

  lemma SubsetBound(a: set<int>, b: set<int>)
    requires a <= b
    ensures |a| <= |b|
  {
    assert a + (b - a) == b && a * (b - a) == {};
  }

  /** The first `k` candidates were tried, and all were taken. */
  ghost predicate Tried(start: int, tried: set<int>, k: nat, taken: set<int>) {
    && |tried| == k && tried <= taken
    && forall x :: x in tried ==> exists i :: 1 <= i <= k && x == Candidate(start, i)
  }

  lemma TriedMore(start: int, tried: set<int>, k: nat, taken: set<int>)
    requires 1 <= k < WORD && Tried(start, tried, k - 1, taken) && Candidate(start, k) in taken
    ensures Tried(start, tried + {Candidate(start, k)}, k, taken) && k <= |taken|
  {
    forall i: nat | i < k ensures Candidate(start, i) != Candidate(start, k) {
      CandidatesDiffer(start, i, k);
    }
    var tried' := tried + {Candidate(start, k)};
    assert Candidate(start, k) !in tried;
    forall x | x in tried' ensures exists i :: 1 <= i <= k && x == Candidate(start, i) {
      if x in tried {
        var i :| 1 <= i <= k - 1 && x == Candidate(start, i);
      }
    }
    SubsetBound(tried', taken);
  }

  // ---------------------------------------------------------------- the first usable candidate

  /** The candidate is not the incoming value, and is not stored. */
  predicate Usable(opts: seq<Option>, incoming: int, x: int) {
    x != incoming && Some(x) !in opts
  }

  ghost predicate IsFirst(opts: seq<Option>, incoming: int, start: int, k: nat) {
    k >= 1 && Usable(opts, incoming, Candidate(start, k)) && NoneBefore(opts, incoming, start, k)
  }

  ghost predicate NoneBefore(opts: seq<Option>, incoming: int, start: int, k: nat) {
    forall j :: 1 <= j < k ==> !Usable(opts, incoming, Candidate(start, j))
  }

  /** Of any `n + 2` successive candidates one is usable. */
  lemma FirstExists(opts: seq<Option>, incoming: int, start: int)
    requires |opts| + 3 < WORD
    ensures exists k: nat :: IsFirst(opts, incoming, start, k) && k <= |opts| + 2
  {
    var k := FirstFrom(opts, incoming, start, 0, {});
  }

  lemma {:induction false} FirstFrom(opts: seq<Option>, incoming: int, start: int, k: nat, tried: set<int>)
    returns (m: nat)
    requires |opts| + 3 < WORD && k <= |opts| + 1
    requires Tried(start, tried, k, Taken(opts, incoming)) && NoneBefore(opts, incoming, start, k + 1)
    ensures IsFirst(opts, incoming, start, m) && m <= |opts| + 2
    decreases |opts| + 1 - k
  {
    var x := Candidate(start, k + 1);
    if Usable(opts, incoming, x) {
      m := k + 1;
    } else {
      TakenBound(opts, incoming);
      TriedMore(start, tried, k + 1, Taken(opts, incoming));
      m := FirstFrom(opts, incoming, start, k + 1, tried + {x});
    }
  }

  /** What `choose_random_null` returns. */
  ghost function FirstUsable(opts: seq<Option>, incoming: int, start: int): int
    requires |opts| + 3 < WORD
  {
    FirstExists(opts, incoming, start);
    var k: nat :| IsFirst(opts, incoming, start, k) && k <= |opts| + 2;
    Candidate(start, k)
  }

  lemma FirstIs(opts: seq<Option>, incoming: int, start: int, k: nat)
    requires |opts| + 3 < WORD && IsFirst(opts, incoming, start, k)
    ensures FirstUsable(opts, incoming, start) == Candidate(start, k) && k <= |opts| + 2
  {
    FirstExists(opts, incoming, start);
    forall m: nat | IsFirst(opts, incoming, start, m) && m <= |opts| + 2 ensures m == k {
    }
  }

  lemma FirstFacts(opts: seq<Option>, incoming: int, start: int) returns (k: nat)
    requires |opts| + 3 < WORD
    ensures IsFirst(opts, incoming, start, k) && k <= |opts| + 2
    ensures var x := FirstUsable(opts, incoming, start);
            x == Candidate(start, k) && Usable(opts, incoming, x) && Fits(SignedCoding, x, 64)
  {
    FirstExists(opts, incoming, start);
    k :| IsFirst(opts, incoming, start, k) && k <= |opts| + 2;
    FirstIs(opts, incoming, start, k);
    CandidateFits(start, k);
  }

  lemma CandidateFits(start: int, k: nat)
    ensures Fits(SignedCoding, Candidate(start, k), 64)
  {
    FitsIs(SignedCoding, Candidate(start, k), 64);
  }

  /** More stored values, and not the one that stands for null, leave the same first candidate. */
  lemma FirstAgain(opts: seq<Option>, more: seq<Option>, incoming: int, start: int)
    requires |more| + 3 < WORD && opts <= more && Some(FirstUsable(opts, incoming, start)) !in more
    ensures FirstUsable(more, incoming, start) == FirstUsable(opts, incoming, start)
  {
    var k := FirstFacts(opts, incoming, start);
    forall j | 1 <= j < k ensures !Usable(more, incoming, Candidate(start, j)) {
      assert !Usable(opts, incoming, Candidate(start, j));
      var x := Candidate(start, j);
      if x != incoming {
        var i :| 0 <= i < |opts| && opts[i] == Some(x);
        assert more[i] == Some(x);
      }
    }
    FirstIs(more, incoming, start, k);
  }

  // ---------------------------------------------------------------- what the operations do to a leaf

  /** A leaf: its width, the value in slot 0, and the options it stands for. */
  datatype Leaf = Leaf(w: nat, null_: int, opts: seq<Option>)

  ghost predicate LeafOK(l: Leaf) {
    && WidthOf(SignedCoding, l.w) && Fits(SignedCoding, l.null_, l.w) && |l.opts| + 3 < WORD
    && Some(l.null_) !in l.opts && forall i :: 0 <= i < |l.opts| ==> OptionFits(l.opts[i], l.w)
  }

  predicate OptionFits(o: Option, w: nat) {
    o.Some? ==> Fits(SignedCoding, o.value, w)
  }

  /** Below 64 bits the null is the upper limit of the width. */
  predicate Safe(l: Leaf) {
    l.w < 64 ==> l.null_ == UpperLimit(l.w)
  }

  function Widened(w: nat, v: int): nat {
    if Fits(SignedCoding, v, w) then w else BitWidth(SignedCoding, v)
  }

  /** `avoid_null_collision`. */
  ghost function Sheltered(l: Leaf, v: int, start: int): Leaf
    requires |l.opts| + 3 < WORD
  {
    if l.w == 64 then
      if v == l.null_ then l.(null_ := FirstUsable(l.opts, v, start)) else l
    else if LowerLimit(l.w) <= v < UpperLimit(l.w) then l
    else
      var x := if NullWidth(v) == 64 then FirstUsable(l.opts, v, start) else UpperLimit(NullWidth(v));
      l.(null_ := x, w := Widened(l.w, x))
  }

  /** The leaf that is ready for the value. */
  ghost function Ready(l: Leaf, value: Option, start: int): Leaf
    requires |l.opts| + 3 < WORD
  {
    if value.None? then l
    else
      var l1 := Sheltered(l, value.value, start);
      l1.(w := Widened(l1.w, value.value))
  }

  /** What a value that was stored is read back as. */
  function ReadBack(l: Leaf, value: Option): Option {
    if value == Some(l.null_) then None else value
  }

  ghost function Inserted(l: Leaf, ndx: nat, value: Option, start: int): Leaf
    requires |l.opts| + 3 < WORD && ndx <= |l.opts|
  {
    var r := Ready(l, value, start);
    r.(opts := l.opts[..ndx] + [ReadBack(r, value)] + l.opts[ndx..])
  }

  ghost function Overwritten(l: Leaf, ndx: nat, value: Option, start: int): Leaf
    requires |l.opts| + 3 < WORD && ndx < |l.opts|
  {
    var r := Ready(l, value, start);
    r.(opts := l.opts[ndx := ReadBack(r, value)])
  }

  const MAX32: int := 0x7fff_ffff

  /** The value is the one in slot 0 of a narrow leaf, below its upper limit: it is taken for null. */
  predicate Hidden(l: Leaf, value: Option) {
    l.w < 64 && value == Some(l.null_) && l.null_ < UpperLimit(l.w)
  }

  /** The upper limit of 32 bits arrives in a narrower leaf, and the first usable candidate is narrow. */
  ghost predicate Breaks(l: Leaf, value: Option, start: int) {
    && l.w < 64 && value == Some(MAX32) && |l.opts| + 3 < WORD
    && Fits(SignedCoding, FirstUsable(l.opts, MAX32, start), 32)
  }

  // ---------------------------------------------------------------- widths

  /** What `avoid_null_collision` chooses as null below 64 bits: the upper limit of the least width
      that holds the value apart from its upper limit. */
  function NullWidth(value: int): nat {
    var w := BitWidth(SignedCoding, value);
    if w < 64 && value == UpperLimit(w) then (if w == 0 then 1 else w * 2) else w
  }

  lemma NullWidthOK(value: int, w: nat)
    requires WidthOf(SignedCoding, w) && w < 64 && Fits(SignedCoding, value, 64) &&
             !(LowerLimit(w) <= value < UpperLimit(w))
    ensures var n := NullWidth(value);
            && WidthOf(SignedCoding, n) && w < n && Fits(SignedCoding, value, n)
            && UpperLimit(w) < UpperLimit(n) && Fits(SignedCoding, UpperLimit(n), 64)
            && (n < 64 ==> value < UpperLimit(n) && BitWidth(SignedCoding, UpperLimit(n)) == n)
            && !Fits(SignedCoding, UpperLimit(n), w)
  {
    var b, n := BitWidth(SignedCoding, value), NullWidth(value);
    BitWidthLeast(SignedCoding, value, w);
    FitsIs(SignedCoding, value, w);
    FitsIs(SignedCoding, value, b);
    WiderOK(b, n);
    FitsIs(SignedCoding, value, n);
    UpperLimitDecides(n, w);
    LimitWidth(n);
    LimitsGrow(w, n);
  }

  lemma WiderOK(b: nat, n: nat)
    requires WidthOf(SignedCoding, b) && (n == b || (b < 64 && n == if b == 0 then 1 else b * 2))
    ensures WidthOf(SignedCoding, n) && (n != b ==> Greatest(SignedCoding, b) < Greatest(SignedCoding, n))
  {
  }

  lemma LimitWidth(n: nat)
    requires WidthOf(SignedCoding, n)
    ensures Fits(SignedCoding, UpperLimit(n), 64) && BitWidth(SignedCoding, UpperLimit(n)) == n
  {
    FitsIs(SignedCoding, 0, n);
    FitsIs(SignedCoding, UpperLimit(n), 64);
  }

  lemma LimitsGrow(w: nat, n: nat)
    requires WidthOf(SignedCoding, w) && WidthOf(SignedCoding, n) && w < n
    ensures UpperLimit(w) < UpperLimit(n)
  {
    FitsIs(SignedCoding, 0, w);
    FitsIs(SignedCoding, 0, n);
  }

  lemma WidenedIs(w: nat, v: int)
    requires WidthOf(SignedCoding, w) && Fits(SignedCoding, v, 64)
    ensures var b := BitWidth(SignedCoding, v);
            Widened(w, v) == (if b <= w then w else b) && WidthOf(SignedCoding, b) &&
            Fits(SignedCoding, v, Widened(w, v))
  {
    BitWidthLeast(SignedCoding, v, w);
  }

  lemma FitsUp(v: int, w: nat, w': nat)
    requires WidthOf(SignedCoding, w) && WidthOf(SignedCoding, w') && w <= w' && Fits(SignedCoding, v, w)
    ensures Fits(SignedCoding, v, w') && Fits(SignedCoding, v, 64)
  {
    FitsIs(SignedCoding, v, w);
    FitsIs(SignedCoding, v, 64);
    BitWidthLeast(SignedCoding, v, w);
    BitWidthLeast(SignedCoding, v, w');
  }

  lemma MaxWidth()
    ensures BitWidth(SignedCoding, MAX32) == 32 && UpperLimit(32) == MAX32 && NullWidth(MAX32) == 64
    ensures Fits(SignedCoding, MAX32, 64)
  {
    FitsIs(SignedCoding, MAX32, 32);
    FitsIs(SignedCoding, MAX32, 64);
  }

  /** Only values that need 64 bits, and the upper limit of 32 bits, lead to a random null. */
  lemma RandomWidth(v: int)
    requires Fits(SignedCoding, v, 64)
    ensures NullWidth(v) == 64 <==> BitWidth(SignedCoding, v) == 64 || v == MAX32
  {
    var b := BitWidth(SignedCoding, v);
    BitWidthLeast(SignedCoding, v, 64);
    MaxWidth();
    FitsIs(SignedCoding, v, b);
  }

  // ---------------------------------------------------------------- one value

  /** The new null of a leaf below 64 bits that has to grow. */
  ghost function NewNull(l: Leaf, v: int, start: int): int
    requires |l.opts| + 3 < WORD
  {
    if NullWidth(v) == 64 then FirstUsable(l.opts, v, start) else UpperLimit(NullWidth(v))
  }

  lemma NewNullOK(l: Leaf, v: int, start: int)
    requires LeafOK(l) && l.w < 64 && Fits(SignedCoding, v, 64) && !(LowerLimit(l.w) <= v < UpperLimit(l.w))
    ensures var x := NewNull(l, v, start);
            Fits(SignedCoding, x, 64) && x != v && Some(x) !in l.opts
  {
    NullWidthOK(v, l.w);
    if NullWidth(v) == 64 {
      var k := FirstFacts(l.opts, v, start);
    } else {
      var x := UpperLimit(NullWidth(v));
      forall i | 0 <= i < |l.opts| ensures l.opts[i] != Some(x) {
        assert OptionFits(l.opts[i], l.w);
      }
    }
  }

  lemma ShelteredOK(l: Leaf, v: int, start: int)
    requires LeafOK(l) && Fits(SignedCoding, v, 64)
    ensures var r := Sheltered(l, v, start);
            && WidthOf(SignedCoding, r.w) && l.w <= r.w && Fits(SignedCoding, r.null_, r.w) && Some(r.null_) !in l.opts
            && (v == r.null_ <==> Hidden(l, Some(v)))
  {
    if l.w == 64 {
      var k := FirstFacts(l.opts, v, start);
    } else if !(LowerLimit(l.w) <= v < UpperLimit(l.w)) {
      NewNullOK(l, v, start);
      WidenedIs(l.w, NewNull(l, v, start));
    }
  }

  /** A value that was stored is read back if and only if it is not hidden. */
  lemma ReadBackExact(l: Leaf, value: Option, start: int)
    requires LeafOK(l) && OptionFits(value, 64)
    ensures ReadBack(Ready(l, value, start), value) == value <==> !Hidden(l, value)
  {
    if value.Some? {
      ShelteredOK(l, value.value, start);
    }
  }

  lemma ReadyOK(l: Leaf, value: Option, start: int)
    requires LeafOK(l) && OptionFits(value, 64)
    ensures var r := Ready(l, value, start);
            && WidthOf(SignedCoding, r.w) && l.w <= r.w && OptionFits(value, r.w)
            && Fits(SignedCoding, r.null_, r.w) && Some(r.null_) !in l.opts
  {
    if value.Some? {
      var r := Sheltered(l, value.value, start);
      ShelteredOK(l, value.value, start);
      WidenedIs(r.w, value.value);
      FitsUp(r.null_, r.w, Widened(r.w, value.value));
    }
  }

  lemma InsertedOK(l: Leaf, ndx: nat, value: Option, start: int)
    requires LeafOK(l) && OptionFits(value, 64) && ndx <= |l.opts| && |l.opts| + 4 < WORD
    ensures LeafOK(Inserted(l, ndx, value, start))
  {
    var r := Ready(l, value, start);
    ReadyOK(l, value, start);
    forall i | 0 <= i < |l.opts| ensures OptionFits(l.opts[i], r.w) {
      OptionFitsUp(l.opts[i], l.w, r.w);
    }
    AlsoFits(l.opts, ndx, ReadBack(r, value), r.w, Some(r.null_));
  }

  lemma OptionFitsUp(o: Option, w: nat, w': nat)
    requires WidthOf(SignedCoding, w) && WidthOf(SignedCoding, w') && w <= w' && OptionFits(o, w)
    ensures OptionFits(o, w')
  {
    if o.Some? {
      FitsUp(o.value, w, w');
    }
  }

  lemma AlsoFits(opts: seq<Option>, ndx: nat, o: Option, w: nat, x: Option)
    requires ndx <= |opts| && OptionFits(o, w) && o != x && x !in opts
    requires forall i :: 0 <= i < |opts| ==> OptionFits(opts[i], w)
    ensures var s := opts[..ndx] + [o] + opts[ndx..];
            x !in s && forall i :: 0 <= i < |s| ==> OptionFits(s[i], w)
  {
  }

  /** Below 64 bits with its null at the limit, a leaf keeps it there, or gets 64 bits, if and only if
      the value does not break it. */
  lemma SafeExact(l: Leaf, value: Option, start: int)
    requires LeafOK(l) && Safe(l) && OptionFits(value, 64)
    ensures Safe(Ready(l, value, start)) <==> !Breaks(l, value, start)
  {
    MaxWidth();
    if value.Some? {
      var v := value.value;
      FitsIs(SignedCoding, v, 64);
      FitsIs(SignedCoding, v, l.w);
      if l.w == 64 {
      } else if LowerLimit(l.w) <= v < UpperLimit(l.w) {
      } else if NullWidth(v) < 64 {
        NullWidthOK(v, l.w);
        LimitSafe(l, v, start);
      } else {
        RandomSafe(l, v, start);
      }
    }
  }

  lemma LimitSafe(l: Leaf, v: int, start: int)
    requires LeafOK(l) && l.w < 64 && Fits(SignedCoding, v, 64) && !(LowerLimit(l.w) <= v < UpperLimit(l.w))
    requires NullWidth(v) < 64
    ensures var r := Ready(l, Some(v), start); r.w == NullWidth(v) && r.null_ == UpperLimit(r.w) && v != MAX32
  {
    var n := NullWidth(v);
    NullWidthOK(v, l.w);
    MaxWidth();
    WidenedIs(l.w, UpperLimit(n));
    WidenedIs(n, v);
    BitWidthLeast(SignedCoding, v, n);
  }

  lemma RandomSafe(l: Leaf, v: int, start: int)
    requires LeafOK(l) && l.w < 64 && Fits(SignedCoding, v, 64) && !(LowerLimit(l.w) <= v < UpperLimit(l.w))
    requires NullWidth(v) == 64
    ensures var r := Ready(l, Some(v), start);
            && r.null_ == FirstUsable(l.opts, v, start)
            && r.w == (if Breaks(l, Some(v), start) then 32 else 64)
            && (Breaks(l, Some(v), start) ==> !Safe(r))
  {
    var x := FirstUsable(l.opts, v, start);
    var k := FirstFacts(l.opts, v, start);
    RandomWidth(v);
    MaxWidth();
    WidenedIs(l.w, x);
    WidenedIs(Widened(l.w, x), v);
    BitWidthLeast(SignedCoding, x, 32);
  }

  /** Both together, for a value that overwrites another. */
  lemma OverwrittenExact(l: Leaf, ndx: nat, value: Option, start: int)
    requires LeafOK(l) && OptionFits(value, 64) && ndx < |l.opts|
    ensures var r := Overwritten(l, ndx, value, start);
            && r.opts == l.opts[ndx := if Hidden(l, value) then None else value]
            && (Safe(l) ==> !Hidden(l, value) && (Safe(r) <==> !Breaks(l, value, start)))
  {
    ReadBackExact(l, value, start);
    if Safe(l) {
      SafeExact(l, value, start);
    }
  }

  /** And for one that is inserted. */
  lemma InsertedExact(l: Leaf, ndx: nat, value: Option, start: int)
    requires LeafOK(l) && OptionFits(value, 64) && ndx <= |l.opts|
    ensures var r := Inserted(l, ndx, value, start);
            && r.opts == l.opts[..ndx] + [if Hidden(l, value) then None else value] + l.opts[ndx..]
            && (Safe(l) ==> !Hidden(l, value) && (Safe(r) <==> !Breaks(l, value, start)))
  {
    ReadBackExact(l, value, start);
    if Safe(l) {
      SafeExact(l, value, start);
    }
  }

  // ---------------------------------------------------------------- where candidates are wide

  /** Leaves are small, and a stack address is far below 2^63. */
  const MAX_LEAF: nat := 0x100_0000
  const MAX_START: nat := 0x4000_0000_0000_0000

  lemma EarlyCandidate(start: int, k: nat)
    requires 0 <= start < MAX_START && 1 <= k <= MAX_LEAF + 2
    ensures Candidate(start, k) == start + k * STEP && !Fits(SignedCoding, Candidate(start, k), 32)
  {
    assert k * STEP <= (MAX_LEAF + 2) * STEP;
    FitsIs(SignedCoding, Candidate(start, k), 32);
  }

  /** From another start the upper limit of 32 bits breaks an empty leaf: 5 now stands for null. */
  lemma SmallCandidate()
    ensures FirstUsable([], MAX32, 5 - STEP) == 5
  {
    assert 5 - STEP + 1 * STEP == 5;
    assert IsFirst([], MAX32, 5 - STEP, 1);
    FirstIs([], MAX32, 5 - STEP, 1);
  }

  // ---------------------------------------------------------------- many values

  /** The values are appended one after the other. */
  ghost function AddAll(l: Leaf, vs: seq<Option>, start: int): (r: Leaf)
    requires |l.opts| + |vs| + 3 < WORD
    ensures |r.opts| == |l.opts| + |vs|
    decreases |vs|
  {
    if vs == [] then l
    else
      var r := AddAll(l, vs[..|vs| - 1], start);
      Inserted(r, |r.opts|, vs[|vs| - 1], start)
  }

  /** The values from `lo` to `i` were appended. */
  ghost predicate AddedUpTo(l: Leaf, c: seq<Option>, lo: nat, i: nat, start: int, r: Leaf) {
    lo <= i <= |c| && |l.opts| + |c| + 3 < WORD && r == AddAll(l, c[lo..i], start)
  }

  lemma AddNone(l: Leaf, c: seq<Option>, lo: nat, start: int)
    requires lo <= |c| && |l.opts| + |c| + 3 < WORD
    ensures AddedUpTo(l, c, lo, lo, start, l)
  {
    assert c[lo..lo] == [];
  }

  lemma AddOne(l: Leaf, c: seq<Option>, lo: nat, i: nat, start: int, r: Leaf)
    requires AddedUpTo(l, c, lo, i, start, r) && i < |c|
    ensures |r.opts| + 3 < WORD && AddedUpTo(l, c, lo, i + 1, start, Inserted(r, |r.opts|, c[i], start))
  {
    var vs := c[lo..i + 1];
    assert vs[..|vs| - 1] == c[lo..i] && vs[|vs| - 1] == c[i];
  }

  lemma AddedAll(l: Leaf, c: seq<Option>, lo: nat, start: int, r: Leaf)
    requires AddedUpTo(l, c, lo, |c|, start, r)
    ensures r == AddAll(l, c[lo..], start)
  {
    assert c[lo..|c|] == c[lo..];
  }

  predicate AllFit64(vs: seq<Option>) {
    forall i :: 0 <= i < |vs| ==> OptionFits(vs[i], 64)
  }

  /** The values from `lo` to `hi` need at most 32 bits. */
  predicate Narrow(vs: seq<Option>, lo: nat, hi: nat) {
    forall i :: lo <= i < hi && i < |vs| ==> OptionFits(vs[i], 32)
  }

  /** The first value that is the upper limit of 32 bits is at `m`, and no value before needs 64 bits. */
  predicate LimitAt(vs: seq<Option>, m: nat) {
    m < |vs| && vs[m] == Some(MAX32) && Some(MAX32) !in vs[..m] && Narrow(vs, 0, m)
  }

  /** The null that the leaf gets there. */
  ghost function NullAt(l: Leaf, vs: seq<Option>, start: int, m: nat): int
    requires |l.opts| + |vs| + 3 < WORD && m <= |vs|
  {
    FirstUsable(l.opts + vs[..m], MAX32, start)
  }

  /** The value at `m` breaks the leaf. */
  ghost predicate BrokenAt(l: Leaf, vs: seq<Option>, start: int, m: nat)
    requires |l.opts| + |vs| + 3 < WORD
  {
    l.w < 64 && LimitAt(vs, m) && Fits(SignedCoding, NullAt(l, vs, start, m), 32)
  }

  /** It does, and no value after it makes the leaf 64 bits wide. */
  ghost predicate Spoilt(l: Leaf, vs: seq<Option>, start: int, m: nat)
    requires |l.opts| + |vs| + 3 < WORD
  {
    BrokenAt(l, vs, start, m) && Narrow(vs, m, |vs|)
  }

  /** The value at `p` is the null of a leaf that was broken at `m`. */
  ghost predicate LostAt(l: Leaf, vs: seq<Option>, start: int, m: nat, p: nat)
    requires |l.opts| + |vs| + 3 < WORD
  {
    BrokenAt(l, vs, start, m) && m < p < |vs| && Narrow(vs, m, p) && vs[p] == Some(NullAt(l, vs, start, m))
  }

  ghost predicate Loses(l: Leaf, vs: seq<Option>, start: int)
    requires |l.opts| + |vs| + 3 < WORD
  {
    exists m, p :: LostAt(l, vs, start, m, p)
  }

  /** What one more value adds to all this, about a place before it. */
  lemma ExtendAt(l: Leaf, vs: seq<Option>, v: Option, start: int, m: nat)
    requires |l.opts| + |vs| + 4 < WORD && m < |vs|
    ensures BrokenAt(l, vs + [v], start, m) <==> BrokenAt(l, vs, start, m)
    ensures NullAt(l, vs + [v], start, m) == NullAt(l, vs, start, m)
    ensures Spoilt(l, vs + [v], start, m) <==> Spoilt(l, vs, start, m) && OptionFits(v, 32)
    ensures LostAt(l, vs + [v], start, m, |vs|) <==> Spoilt(l, vs, start, m) && v == Some(NullAt(l, vs, start, m))
  {
    var vs' := vs + [v];
    assert vs'[..m] == vs[..m];
    assert Narrow(vs', 0, m) <==> Narrow(vs, 0, m) by {
      NarrowPrefix(vs, v, 0, m);
    }
    NarrowPrefix(vs, v, m, |vs|);
    assert Narrow(vs', m, |vs'|) <==> Narrow(vs', m, |vs|) && OptionFits(v, 32) by {
      assert vs'[|vs|] == v;
    }
  }

  lemma NarrowPrefix(vs: seq<Option>, v: Option, lo: nat, hi: nat)
    requires hi <= |vs|
    ensures Narrow(vs + [v], lo, hi) <==> Narrow(vs, lo, hi)
  {
    var vs' := vs + [v];
    assert forall i :: 0 <= i < |vs| ==> vs'[i] == vs[i];
  }

  lemma ExtendLost(l: Leaf, vs: seq<Option>, v: Option, start: int, m: nat, p: nat)
    requires |l.opts| + |vs| + 4 < WORD && p < |vs|
    ensures LostAt(l, vs + [v], start, m, p) <==> LostAt(l, vs, start, m, p)
  {
    if m < p {
      ExtendAt(l, vs, v, start, m);
      NarrowPrefix(vs, v, m, p);
    }
  }

  /** And about its own place. */
  lemma ExtendLast(l: Leaf, vs: seq<Option>, v: Option, start: int)
    requires |l.opts| + |vs| + 4 < WORD
    ensures Spoilt(l, vs + [v], start, |vs|) <==>
            && l.w < 64 && v == Some(MAX32) && Some(MAX32) !in vs && Narrow(vs, 0, |vs|)
            && Fits(SignedCoding, FirstUsable(l.opts + vs, MAX32, start), 32)
    ensures NullAt(l, vs + [v], start, |vs|) == FirstUsable(l.opts + vs, MAX32, start)
  {
    var vs' := vs + [v];
    assert vs'[..|vs|] == vs && vs'[|vs|] == v;
    NarrowPrefix(vs, v, 0, |vs|);
    MaxWidth();
    BitWidthLeast(SignedCoding, MAX32, 32);
  }

  lemma LosesMore(l: Leaf, vs: seq<Option>, v: Option, start: int)
    requires |l.opts| + |vs| + 4 < WORD
    ensures Loses(l, vs + [v], start) <==>
            Loses(l, vs, start) ||
            exists m: nat :: m < |vs| && Spoilt(l, vs, start, m) && v == Some(NullAt(l, vs, start, m))
  {
    var vs' := vs + [v];
    if m: nat, p: nat :| LostAt(l, vs', start, m, p) {
      if p < |vs| {
        ExtendLost(l, vs, v, start, m, p);
      } else {
        ExtendAt(l, vs, v, start, m);
      }
    }
    if m: nat, p: nat :| LostAt(l, vs, start, m, p) {
      ExtendLost(l, vs, v, start, m, p);
    }
    if m: nat :| m < |vs| && Spoilt(l, vs, start, m) && v == Some(NullAt(l, vs, start, m)) {
      ExtendAt(l, vs, v, start, m);
    }
  }

  ghost predicate AnySpoilt(l: Leaf, vs: seq<Option>, start: int)
    requires |l.opts| + |vs| + 3 < WORD
  {
    exists m :: Spoilt(l, vs, start, m)
  }

  /** Where a leaf stands after the values. */
  ghost predicate Phase(l: Leaf, vs: seq<Option>, start: int, r: Leaf)
    requires |l.opts| + |vs| + 3 < WORD
  {
    && LeafOK(r) && |r.opts| == |l.opts| + |vs|
    && WidthPhase(l, vs, start, r) && NullPhase(l, vs, start, r) && OptsPhase(l, vs, start, r)
  }

  ghost predicate WidthPhase(l: Leaf, vs: seq<Option>, start: int, r: Leaf)
    requires |l.opts| + |vs| + 3 < WORD
  {
    r.w < 64 <==> l.w < 64 && Narrow(vs, 0, |vs|) && (Some(MAX32) !in vs || AnySpoilt(l, vs, start))
  }

  ghost predicate NullPhase(l: Leaf, vs: seq<Option>, start: int, r: Leaf)
    requires |l.opts| + |vs| + 3 < WORD
  {
    && (forall m :: Spoilt(l, vs, start, m) ==> SpoiltLeaf(l, vs, start, m, r))
    && (AnySpoilt(l, vs, start) || Safe(r))
  }

  ghost predicate SpoiltLeaf(l: Leaf, vs: seq<Option>, start: int, m: nat, r: Leaf)
    requires |l.opts| + |vs| + 3 < WORD
  {
    m < |vs| && r.w == 32 && r.null_ == NullAt(l, vs, start, m) != MAX32 && l.opts + vs[..m] <= r.opts
  }

  ghost predicate OptsPhase(l: Leaf, vs: seq<Option>, start: int, r: Leaf)
    requires |l.opts| + |vs| + 3 < WORD
  {
    r.opts == l.opts + vs <==> !Loses(l, vs, start)
  }

  /** When a value leaves a leaf below 64 bits. */
  lemma WidthExact(l: Leaf, value: Option, start: int)
    requires LeafOK(l) && OptionFits(value, 64)
    ensures Ready(l, value, start).w < 64 <==>
            l.w < 64 && OptionFits(value, 32) && (value != Some(MAX32) || Breaks(l, value, start))
  {
    if value.Some? && l.w < 64 {
      var v := value.value;
      if LowerLimit(l.w) <= v < UpperLimit(l.w) {
        FitsUp(v, l.w, 32);
        LimitsBelow(l.w);
      } else {
        GrownWidth(l, v, start);
      }
    } else if value.Some? {
      ReadyOK(l, value, start);
    }
  }

  lemma GrownWidth(l: Leaf, v: int, start: int)
    requires LeafOK(l) && l.w < 64 && Fits(SignedCoding, v, 64) && !(LowerLimit(l.w) <= v < UpperLimit(l.w))
    ensures Ready(l, Some(v), start).w < 64 <==>
            Fits(SignedCoding, v, 32) && (v != MAX32 || Breaks(l, Some(v), start))
  {
    MaxWidth();
    BitWidthLeast(SignedCoding, v, 32);
    if NullWidth(v) < 64 {
      LimitSafe(l, v, start);
      NullWidthOK(v, l.w);
      FitsUp(v, NullWidth(v), 32);
    } else {
      RandomSafe(l, v, start);
      RandomWidth(v);
    }
  }

  lemma LimitsBelow(w: nat)
    requires WidthOf(SignedCoding, w) && w < 64
    ensures UpperLimit(w) <= MAX32
  {
    FitsIs(SignedCoding, 0, w);
  }

  /** One more value in a leaf that is not spoilt breaks it, or does not. */
  lemma BreaksNow(l: Leaf, vs: seq<Option>, v: Option, start: int, r: Leaf)
    requires |l.opts| + |vs| + 4 < WORD && Phase(l, vs, start, r) && !AnySpoilt(l, vs, start)
    ensures Breaks(r, v, start) <==> Spoilt(l, vs + [v], start, |vs|)
    ensures AnySpoilt(l, vs + [v], start) <==> Spoilt(l, vs + [v], start, |vs|)
    ensures Breaks(r, v, start) ==> r.opts == l.opts + vs
  {
    ExtendLast(l, vs, v, start);
    forall m: nat | m < |vs| ensures !Spoilt(l, vs + [v], start, m) {
      ExtendAt(l, vs, v, start, m);
    }
    if Some(MAX32) !in vs {
      NeverLost(l, vs, start);
    }
  }

  lemma NeverLost(l: Leaf, vs: seq<Option>, start: int)
    requires |l.opts| + |vs| + 3 < WORD && Some(MAX32) !in vs
    ensures !Loses(l, vs, start)
  {
  }

  lemma SafeWidth(l: Leaf, vs: seq<Option>, v: Option, start: int, r: Leaf)
    requires |l.opts| + |vs| + 4 < WORD && OptionFits(v, 64) && Phase(l, vs, start, r) && !AnySpoilt(l, vs, start)
    ensures WidthPhase(l, vs + [v], start, Inserted(r, |r.opts|, v, start))
  {
    WidthExact(r, v, start);
    BreaksNow(l, vs, v, start, r);
    NarrowMore(vs, v);
    ExtendLast(l, vs, v, start);
  }

  lemma NarrowMore(vs: seq<Option>, v: Option)
    ensures Narrow(vs + [v], 0, |vs| + 1) <==> Narrow(vs, 0, |vs|) && OptionFits(v, 32)
  {
    NarrowPrefix(vs, v, 0, |vs|);
    assert (vs + [v])[|vs|] == v;
  }

  lemma SafeNull(l: Leaf, vs: seq<Option>, v: Option, start: int, r: Leaf)
    requires |l.opts| + |vs| + 4 < WORD && OptionFits(v, 64) && Phase(l, vs, start, r) && !AnySpoilt(l, vs, start)
    ensures NullPhase(l, vs + [v], start, Inserted(r, |r.opts|, v, start))
  {
    var vs' := vs + [v];
    BreaksNow(l, vs, v, start, r);
    SafeExact(r, v, start);
    ExtendLast(l, vs, v, start);
    if Breaks(r, v, start) {
      MaxWidth();
      LimitsBelow(r.w);
      RandomSafe(r, MAX32, start);
      var k := FirstFacts(r.opts, MAX32, start);
      assert vs'[..|vs|] == vs;
    }
    forall m: nat | m < |vs| ensures !Spoilt(l, vs', start, m) {
      ExtendAt(l, vs, v, start, m);
    }
  }

  /** The options after one more value. */
  lemma Appended(r: Leaf, v: Option, start: int)
    requires LeafOK(r) && OptionFits(v, 64)
    ensures Inserted(r, |r.opts|, v, start).opts == r.opts + [if Hidden(r, v) then None else v]
  {
    ReadBackExact(r, v, start);
  }

  lemma OptsMore(l: Leaf, vs: seq<Option>, v: Option, start: int, r: Leaf)
    requires |l.opts| + |vs| + 4 < WORD && OptionFits(v, 64) && LeafOK(r) && |r.opts| == |l.opts| + |vs|
    requires OptsPhase(l, vs, start, r)
    requires Hidden(r, v) <==>
            exists m: nat :: m < |vs| && Spoilt(l, vs, start, m) && v == Some(NullAt(l, vs, start, m))
    ensures OptsPhase(l, vs + [v], start, Inserted(r, |r.opts|, v, start))
  {
    Appended(r, v, start);
    LosesMore(l, vs, v, start);
    var a, b, o := r.opts, l.opts + vs, if Hidden(r, v) then None else v;
    assert l.opts + (vs + [v]) == b + [v];
    assert a + [o] == b + [v] <==> a == b && o == v by {
      assert (a + [o])[..|a|] == a && (b + [v])[..|b|] == b;
      assert (a + [o])[|a|] == o && (b + [v])[|b|] == v;
    }
  }

  /** One more value in a leaf that is not spoilt. */
  lemma PhaseSafe(l: Leaf, vs: seq<Option>, v: Option, start: int, r: Leaf)
    requires |l.opts| + |vs| + 4 < WORD && OptionFits(v, 64) && Phase(l, vs, start, r) && !AnySpoilt(l, vs, start)
    ensures Phase(l, vs + [v], start, Inserted(r, |r.opts|, v, start))
  {
    InsertedOK(r, |r.opts|, v, start);
    SafeWidth(l, vs, v, start, r);
    SafeNull(l, vs, v, start, r);
    assert !Hidden(r, v);
    OptsMore(l, vs, v, start, r);
  }

  lemma SpoiltOnce(l: Leaf, vs: seq<Option>, start: int, m: nat, m': nat)
    requires |l.opts| + |vs| + 3 < WORD && Spoilt(l, vs, start, m) && Spoilt(l, vs, start, m')
    ensures m == m'
  {
    if m < m' {
      InPrefix(vs, m, m');
    } else if m' < m {
      InPrefix(vs, m', m);
    }
  }

  lemma InPrefix<A>(s: seq<A>, i: nat, n: nat)
    requires i < n <= |s|
    ensures s[i] in s[..n]
  {
    assert s[..n][i] == s[i];
  }

  /** One more value in a spoilt leaf: one that needs 64 bits makes it sound again, and its null stays
      otherwise. */
  lemma SpoiltNext(l: Leaf, vs: seq<Option>, v: Option, start: int, r: Leaf, m: nat)
    requires |l.opts| + |vs| + 4 < WORD && OptionFits(v, 64) && LeafOK(r) && |r.opts| == |l.opts| + |vs|
    requires Spoilt(l, vs, start, m) && SpoiltLeaf(l, vs, start, m, r)
    ensures var r' := Ready(r, v, start);
            if OptionFits(v, 32) then r'.w == 32 && r'.null_ == r.null_ else r'.w == 64
  {
    MaxWidth();
    if v.Some? {
      FitsIs(SignedCoding, v.value, 32);
      FitsIs(SignedCoding, v.value, 64);
      BitWidthLeast(SignedCoding, v.value, 32);
      if !(LowerLimit(32) <= v.value < UpperLimit(32)) {
        RandomWidth(v.value);
        if v.value == MAX32 {
          FirstAgain(l.opts + vs[..m], r.opts, MAX32, start);
        }
        RandomSafe(r, v.value, start);
      }
    }
  }

  lemma SpoiltHidden(l: Leaf, vs: seq<Option>, v: Option, start: int, r: Leaf, m: nat)
    requires |l.opts| + |vs| + 3 < WORD && Spoilt(l, vs, start, m) && SpoiltLeaf(l, vs, start, m, r) && LeafOK(r)
    ensures Hidden(r, v) <==> exists m: nat :: m < |vs| && Spoilt(l, vs, start, m) && v == Some(NullAt(l, vs, start, m))
  {
    MaxWidth();
    FitsIs(SignedCoding, r.null_, 32);
    forall m' | Spoilt(l, vs, start, m') ensures m' == m {
      SpoiltOnce(l, vs, start, m, m');
    }
  }

  lemma SpoiltWidth(l: Leaf, vs: seq<Option>, v: Option, start: int, r: Leaf, m: nat)
    requires |l.opts| + |vs| + 4 < WORD && OptionFits(v, 64) && Phase(l, vs, start, r) && Spoilt(l, vs, start, m)
    ensures WidthPhase(l, vs + [v], start, Inserted(r, |r.opts|, v, start))
    ensures NullPhase(l, vs + [v], start, Inserted(r, |r.opts|, v, start))
  {
    var vs' := vs + [v];
    SpoiltNext(l, vs, v, start, r, m);
    NarrowMore(vs, v);
    ExtendAt(l, vs, v, start, m);
    forall m': nat | Spoilt(l, vs', start, m') ensures m' == m {
      SpoiltOneAfter(l, vs, v, start, m, m');
    }
    assert vs'[..m] == vs[..m];
    Appended(r, v, start);
  }

  lemma SpoiltOneAfter(l: Leaf, vs: seq<Option>, v: Option, start: int, m: nat, m': nat)
    requires |l.opts| + |vs| + 4 < WORD && Spoilt(l, vs, start, m) && Spoilt(l, vs + [v], start, m')
    ensures m' == m
  {
    if m' < |vs| {
      ExtendAt(l, vs, v, start, m');
      SpoiltOnce(l, vs, start, m, m');
    } else {
      ExtendLast(l, vs, v, start);
    }
  }

  lemma PhaseSpoilt(l: Leaf, vs: seq<Option>, v: Option, start: int, r: Leaf, m: nat)
    requires |l.opts| + |vs| + 4 < WORD && OptionFits(v, 64) && Phase(l, vs, start, r) && Spoilt(l, vs, start, m)
    ensures Phase(l, vs + [v], start, Inserted(r, |r.opts|, v, start))
  {
    InsertedOK(r, |r.opts|, v, start);
    SpoiltWidth(l, vs, v, start, r, m);
    SpoiltHidden(l, vs, v, start, r, m);
    OptsMore(l, vs, v, start, r);
  }

  lemma {:induction false} AddAllPhase(l: Leaf, vs: seq<Option>, start: int)
    requires LeafOK(l) && Safe(l) && AllFit64(vs) && |l.opts| + |vs| + 3 < WORD
    ensures Phase(l, vs, start, AddAll(l, vs, start))
    decreases |vs|
  {
    if vs == [] {
      assert l.opts + vs == l.opts;
    } else {
      var init, v := vs[..|vs| - 1], vs[|vs| - 1];
      AddAllPhase(l, init, start);
      assert vs == init + [v];
      if m :| Spoilt(l, init, start, m) {
        PhaseSpoilt(l, init, v, start, AddAll(l, init, start), m);
      } else {
        PhaseSafe(l, init, v, start, AddAll(l, init, start));
      }
    }
  }

  /** All values appended to a sound leaf are read back if and only if none of them is the null that
      the upper limit of 32 bits brought in, stored before a value that needs 64 bits; and the leaf is
      sound afterwards if and only if no such null is left. */
  lemma AddAllExact(l: Leaf, vs: seq<Option>, start: int)
    requires LeafOK(l) && Safe(l) && AllFit64(vs) && |l.opts| + |vs| + 3 < WORD
    ensures var r := AddAll(l, vs, start);
            && (r.opts == l.opts + vs <==> !Loses(l, vs, start))
            && (Safe(r) <==> !AnySpoilt(l, vs, start))
  {
    AddAllPhase(l, vs, start);
    var r := AddAll(l, vs, start);
    if m :| Spoilt(l, vs, start, m) {
      MaxWidth();
      assert SpoiltLeaf(l, vs, start, m, r);
    }
  }

  /** Nothing is lost without that limit, in a leaf of 64 bits, or from a start as stacks have it. */
  lemma NothingLost(l: Leaf, vs: seq<Option>, start: int)
    requires |l.opts| + |vs| + 3 < WORD
    requires Some(MAX32) !in vs || l.w == 64 || (0 <= start < MAX_START && |l.opts| + |vs| <= MAX_LEAF)
    ensures !Loses(l, vs, start) && !AnySpoilt(l, vs, start)
  {
    forall m: nat | m < |vs| ensures !BrokenAt(l, vs, start, m) {
      if 0 <= start < MAX_START && |l.opts| + |vs| <= MAX_LEAF {
        var k := FirstFacts(l.opts + vs[..m], MAX32, start);
        EarlyCandidate(start, k);
      }
    }
  }
}
