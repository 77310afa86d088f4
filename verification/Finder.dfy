/** `ArrayWithFind`: searches of a packed integer array that look at whole words at a time, and
    report exactly what a linear scan would. */
module Finder {
  import opened Bits
  import opened Lanes
  import opened LaneCompare
  import opened PackedArrays
  import opened Words

  datatype Cond = Equal | NotEqual | Greater | Less | None | NotNull

  predicate Holds(c: Cond, e: int, v: int) {
    match c
    case Equal => e == v
    case NotEqual => e != v
    case Greater => e > v
    case Less => e < v
    case _ => true
  }

  /** A match: its index, and the element there. */
  datatype Hit = Hit(index: nat, value: int)

  /** The consumer of matches: it counts matches up to a limit, and may stop the search at will.
      What it makes of a match may depend on all matches before. */
  class QueryState {
    var log: seq<Hit>
    const limit: nat
    const count: seq<Hit> -> nat
    const halts: seq<Hit> -> bool

    constructor (limit: nat, count: seq<Hit> -> nat, halts: seq<Hit> -> bool)
      ensures log == [] && this.limit == limit && this.count == count && this.halts == halts
    {
      log, this.limit, this.count, this.halts := [], limit, count, halts;
    }

    predicate Go(l: seq<Hit>) {
      count(l) < limit && !halts(l)
    }

    /** Every match counts. */
    ghost predicate CountsAll() {
      forall l: seq<Hit>, h: Hit :: count(l + [h]) == count(l) + 1
    }

    /** `match`; given the index alone, the consumer reads the element from its leaf. */
    method Match(i: nat, value: int) returns (go: bool)
      modifies this`log
      ensures log == old(log) + [Hit(i, value)] && go == Go(log)
    {
      log := log + [Hit(i, value)];
      go := Go(log);
    }
  }

  // ---------------------------------------------------------------- the linear scan

  /** Feeding matches to a consumer until it stops. */
  ghost function Fed(q: QueryState, log: seq<Hit>, hits: seq<Hit>): (seq<Hit>, bool)
    decreases |hits|
  {
    if hits == [] then (log, true)
    else
      var l := log + [hits[0]];
      if q.Go(l) then Fed(q, l, hits[1..]) else (l, false)
  }

  datatype Search = Search(arr: Packed, c: Cond, v: int, base: nat) {
    /** What is to be reported of element `i`. */
    function At(i: nat): Hit
      requires arr.Valid() && i < arr.size
    {
      Hit(i + base, arr.Get(i))
    }

    /** The matches from `lo` to `hi`, ascending. */
    ghost function Hits(lo: nat, hi: nat): seq<Hit>
      requires arr.Valid() && lo <= hi <= arr.size
      decreases hi - lo
    {
      if lo == hi then [] else (if Holds(c, arr.Get(lo), v) then [At(lo)] else []) + Hits(lo + 1, hi)
    }

    /** A search of `[lo, hi)`: what a linear scan would report, cut at the first refused match. */
    ghost predicate Scan(q: QueryState, log: seq<Hit>, lo: nat, hi: nat, log': seq<Hit>, go: bool) {
      arr.Valid() && lo <= hi <= arr.size && Fed(q, log, Hits(lo, hi)) == (log', go)
    }

    ghost predicate NoHits(lo: nat, hi: nat) {
      arr.Valid() && lo <= hi <= arr.size && forall i :: lo <= i < hi ==> !Holds(c, arr.Get(i), v)
    }
  }

  lemma {:induction false} HitsSplit(s: Search, lo: nat, m: nat, hi: nat)
    requires s.arr.Valid() && lo <= m <= hi <= s.arr.size
    ensures s.Hits(lo, hi) == s.Hits(lo, m) + s.Hits(m, hi)
    decreases m - lo
  {
    if lo < m {
      HitsSplit(s, lo + 1, m, hi);
    }
  }

  lemma {:induction false} NoHitsEmpty(s: Search, lo: nat, hi: nat)
    requires s.NoHits(lo, hi)
    ensures s.Hits(lo, hi) == []
    decreases hi - lo
  {
    if lo < hi {
      NoHitsEmpty(s, lo + 1, hi);
    }
  }

  lemma {:induction false} FedConcat(q: QueryState, log: seq<Hit>, a: seq<Hit>, b: seq<Hit>)
    ensures var r := Fed(q, log, a);
            Fed(q, log, a + b) == if r.1 then Fed(q, r.0, b) else r
    decreases |a|
  {
    if a == [] {
      assert a + b == b;
    } else {
      var l := log + [a[0]];
      assert (a + b)[0] == a[0] && (a + b)[1..] == a[1..] + b;
      if q.Go(l) {
        FedConcat(q, l, a[1..], b);
      }
    }
  }

  lemma ScanJoin(s: Search, q: QueryState, log0: seq<Hit>, lo: nat, m: nat, hi: nat, log: seq<Hit>, log': seq<Hit>,
                 go: bool)
    requires s.Scan(q, log0, lo, m, log, true) && s.Scan(q, log, m, hi, log', go)
    ensures s.Scan(q, log0, lo, hi, log', go)
  {
    HitsSplit(s, lo, m, hi);
    FedConcat(q, log0, s.Hits(lo, m), s.Hits(m, hi));
  }

  lemma ScanCut(s: Search, q: QueryState, log0: seq<Hit>, lo: nat, m: nat, hi: nat, log: seq<Hit>)
    requires s.Scan(q, log0, lo, m, log, false) && m <= hi <= s.arr.size
    ensures s.Scan(q, log0, lo, hi, log, false)
  {
    HitsSplit(s, lo, m, hi);
    FedConcat(q, log0, s.Hits(lo, m), s.Hits(m, hi));
  }

  lemma ScanSkip(s: Search, q: QueryState, log0: seq<Hit>, lo: nat, m: nat, hi: nat, log: seq<Hit>)
    requires s.Scan(q, log0, lo, m, log, true) && s.NoHits(m, hi)
    ensures s.Scan(q, log0, lo, hi, log, true)
  {
    NoHitsEmpty(s, m, hi);
    ScanJoin(s, q, log0, lo, m, hi, log, log, true);
  }

  lemma ScanHit(s: Search, q: QueryState, log0: seq<Hit>, lo: nat, m: nat, log: seq<Hit>)
    requires s.Scan(q, log0, lo, m, log, true) && m < s.arr.size && Holds(s.c, s.arr.Get(m), s.v)
    ensures s.Scan(q, log0, lo, m + 1, log + [s.At(m)], q.Go(log + [s.At(m)]))
  {
    var log' := log + [s.At(m)];
    assert s.Hits(m, m + 1) == [s.At(m)];
    assert [s.At(m)][1..] == [];
    ScanJoin(s, q, log0, lo, m, m + 1, log, log', q.Go(log'));
  }

  /** The next hit is at `m + t`. */
  lemma ScanNext(s: Search, q: QueryState, log0: seq<Hit>, lo: nat, m: nat, t: nat, hi: nat, log: seq<Hit>)
    requires s.Scan(q, log0, lo, m, log, true) && s.NoHits(m, m + t) && m + t < hi <= s.arr.size
    requires Holds(s.c, s.arr.Get(m + t), s.v)
    ensures var log' := log + [s.At(m + t)];
            if q.Go(log') then s.Scan(q, log0, lo, m + t + 1, log', true) else s.Scan(q, log0, lo, hi, log', false)
  {
    ScanSkip(s, q, log0, lo, m, m + t, log);
    ScanHit(s, q, log0, lo, m + t, log);
    if !q.Go(log + [s.At(m + t)]) {
      ScanCut(s, q, log0, lo, m + t + 1, hi, log + [s.At(m + t)]);
    }
  }

  /** Looking at element `i`, which is `e`. */
  method Visit(s: Search, q: QueryState, ghost lo: nat, i: nat, ghost hi: nat, e: int, ghost log0: seq<Hit>)
    returns (go: bool)
    requires s.Scan(q, log0, lo, i, q.log, true) && i < hi <= s.arr.size && e == s.arr.Get(i)
    modifies q`log
    ensures if go then s.Scan(q, log0, lo, i + 1, q.log, true) else s.Scan(q, log0, lo, hi, q.log, false)
  {
    go := true;
    if Holds(s.c, e, s.v) {
      ScanNext(s, q, log0, lo, i, 0, hi, q.log);
      go := q.Match(i + s.base, e);
    } else {
      ScanSkip(s, q, log0, lo, i, i + 1, q.log);
    }
  }

  /** The parts of the searches that go element by element. */
  method ScanLinear(s: Search, q: QueryState, lo: nat, hi: nat) returns (go: bool)
    requires s.arr.Valid() && lo <= hi <= s.arr.size
    modifies q`log
    ensures s.Scan(q, old(q.log), lo, hi, q.log, go)
  {
    ghost var log0 := q.log;
    var i := lo;
    while i < hi
      invariant lo <= i <= hi && s.Scan(q, log0, lo, i, q.log, true)
    {
      go := Visit(s, q, lo, i, hi, s.arr.Get(i), log0);
      if !go {
        return;
      }
      i := i + 1;
    }
    go := true;
  }

  // ---------------------------------------------------------------- equality in one word

  ghost function EqCond(eq: bool): Cond {
    if eq then Equal else NotEqual
  }

  /** `x` is the word at `p` compared with the value in every lane. */
  ghost predicate XorWord(s: Search, n: nat, p: nat, x: nat) {
    && WholeWord(s.arr, n, p) && InRange(s.v, s.arr.w)
    && x == Xor(s.arr.Word(p), Fill(s.arr.w, n, Masked(s.v, s.arr.w)), Len(s.arr.w, n))
  }

  /** Element `j` of the word is a hit exactly when lane `j` of `x` is the kind that is sought. */
  lemma HitLane(s: Search, n: nat, eq: bool, p: nat, j: nat, x: nat)
    requires XorWord(s, n, p, x) && s.c == EqCond(eq) && j < n
    ensures Sought(eq, s.arr.w, x, j) <==> Holds(s.c, s.arr.Get(p * n + j), s.v)
  {
    WordLanes(s.arr, n, p, j);
    RawBound(s.arr, p * n + j);
    LaneTells(s.arr.w, n, s.arr.Word(p), s.v, j, x, eq);
  }

  lemma LaneTells(w: nat, n: nat, word: nat, v: int, j: nat, x: nat, eq: bool)
    requires w > 0 && j < n && Lane(w, word, j) < Pow2(w) && InRange(v, w) &&
             x == Xor(word, Fill(w, n, Masked(v, w)), Len(w, n))
    ensures Sought(eq, w, x, j) <==> Holds(EqCond(eq), Value(w, Lane(w, word, j)), v)
  {
    EqualBits(w, Lane(w, word, j), v);
    FillLane(w, n, Masked(v, w), j);
    XorLane(w, n, word, Fill(w, n, Masked(v, w)), j);
  }

  /** The lanes of `x` tell which of the elements from `start` on are hits. */
  ghost predicate Tells(s: Search, n: nat, eq: bool, start: nat, x: nat) {
    s.arr.Valid() && Lanes.Packed(s.arr.w, n) && start + n <= s.arr.size &&
    forall j {:trigger Sought(eq, s.arr.w, x, j)} :: 0 <= j < n ==>
      (Sought(eq, s.arr.w, x, j) <==> Holds(s.c, s.arr.Get(start + j), s.v))
  }

  lemma XorTells(s: Search, n: nat, eq: bool, p: nat, x: nat)
    requires XorWord(s, n, p, x) && s.c == EqCond(eq)
    ensures Tells(s, n, eq, p * n, x)
  {
    var w := s.arr.w;
    forall j | 0 <= j < n ensures Sought(eq, w, x, j) <==> Holds(s.c, s.arr.Get(p * n + j), s.v) {
      HitLane(s, n, eq, p, j, x);
    }
  }

  /** No sought lane among the first `t` of the shifted word: no hits among `t` elements. */
  lemma LanesPassed(s: Search, n: nat, eq: bool, start: nat, x: nat, a: nat, v2: nat, t: nat)
    requires Tells(s, n, eq, start, x) && v2 == Shr(x, Len(s.arr.w, a)) && a + t <= n && NoneBelow(eq, s.arr.w, v2, t)
    ensures s.NoHits(start + a, start + a + t)
  {
    var w := s.arr.w;
    forall i | start + a <= i < start + a + t ensures !Holds(s.c, s.arr.Get(i), s.v) {
      var j := i - start;
      ShiftLane(w, x, a, j - a);
      assert !Sought(eq, w, v2, j - a);
      assert !Sought(eq, w, x, j);
    }
  }

  lemma LaneFound(s: Search, n: nat, eq: bool, start: nat, x: nat, a: nat, v2: nat, t: nat)
    requires Tells(s, n, eq, start, x) && v2 == Shr(x, Len(s.arr.w, a)) && a + t < n && Sought(eq, s.arr.w, v2, t)
    ensures Holds(s.c, s.arr.Get(start + a + t), s.v)
  {
    ShiftLane(s.arr.w, x, a, t);
    assert Sought(eq, s.arr.w, x, a + t);
  }

  /** Whether the loop over a word goes on: `test_zero(v2)`, or `v2` is not 0. */
  predicate AnyLeft(eq: bool, w: nat, n: nat, v2: nat)
    requires w > 0
  {
    if eq then TestZero(w, n, v2) else v2 != 0
  }

  lemma AnyLeftExact(eq: bool, w: nat, n: nat, v2: nat)
    requires w > 0 && v2 < Pow2(Len(w, n))
    ensures AnyLeft(eq, w, n, v2) ==> exists i :: 0 <= i < n && Sought(eq, w, v2, i)
    ensures !AnyLeft(eq, w, n, v2) ==> NoneBelow(eq, w, v2, n)
  {
    if eq {
      AnyZero(w, n, v2);
    } else if v2 != 0 {
      var i := NonzeroLane(w, n, v2);
      assert Sought(eq, w, v2, i);
    } else {
      forall i | 0 <= i < n ensures !Sought(eq, w, v2, i) {
        ZeroHasNoLane(w, i);
      }
    }
  }

  lemma AnyZero(w: nat, n: nat, v2: nat)
    requires w > 0
    ensures TestZero(w, n, v2) ==> exists i :: 0 <= i < n && Sought(true, w, v2, i)
    ensures !TestZero(w, n, v2) ==> NoneBelow(true, w, v2, n)
  {
    TestZeroExact(w, n, v2);
    if HasZero(w, n, v2) {
      var i := ZeroLane(w, n, v2);
      assert Sought(true, w, v2, i);
    } else {
      NoZero(w, n, v2);
    }
  }

  /** `v2 >>= shift`, or 0 when all bits are shifted out. */
  function ShiftOut(v2: nat, shift: nat): nat {
    if shift < 64 then Shr(v2, shift) else 0
  }

  lemma {:induction false} ShrLess(v: nat, k: nat)
    ensures Shr(v, k) <= v
  {
    if k > 0 {
      ShrLess(v / 2, k - 1);
    }
  }

  lemma Shifted(w: nat, x: nat, a: nat, v2: nat, t: nat)
    requires x < Pow2(BITS) && v2 == Shr(x, Len(w, a)) && v2 < Pow2(BITS)
    ensures ShiftOut(v2, Len(w, t + 1)) == Shr(x, Len(w, a + t + 1)) < Pow2(BITS)
  {
    LenAdd(w, a, t + 1);
    ShrAdd(x, Len(w, a), Len(w, t + 1));
    ShrLess(v2, Len(w, t + 1));
    if Len(w, t + 1) >= 64 {
      ShrSmall(v2, BITS);
      ShrAdd(v2, BITS, Len(w, t + 1) - BITS);
      ShrOfZero(Len(w, t + 1) - BITS);
    }
  }

  /** The elements before `start + a` are reported, and `v2` holds the lanes that remain. */
  ghost predicate Remaining(s: Search, n: nat, q: QueryState, eq: bool, start: nat, x: nat, a: nat, v2: nat,
                            log0: seq<Hit>, log: seq<Hit>) {
    && Tells(s, n, eq, start, x) && x < Pow2(BITS) && a <= n
    && v2 == Shr(x, Len(s.arr.w, a)) && v2 < Pow2(BITS)
    && s.Scan(q, log0, start, start + a, log, true)
  }

  lemma NoneLeft(s: Search, n: nat, q: QueryState, eq: bool, start: nat, x: nat, a: nat, v2: nat, log0: seq<Hit>,
                 log: seq<Hit>)
    requires Remaining(s, n, q, eq, start, x, a, v2, log0, log) && NoneBelow(eq, s.arr.w, v2, n - a)
    ensures s.Scan(q, log0, start, start + n, log, true)
  {
    LanesPassed(s, n, eq, start, x, a, v2, n - a);
    ScanSkip(s, q, log0, start, start + a, start + n, log);
  }

  /** After a match the loop over a word goes on, or the scan of the word ends. */
  ghost predicate LaneDone(s: Search, n: nat, q: QueryState, eq: bool, start: nat, x: nat, a: nat, v2: nat,
                           log0: seq<Hit>, log: seq<Hit>, go: bool) {
    if go then Remaining(s, n, q, eq, start, x, a, v2, log0, log) else s.Scan(q, log0, start, start + n, log, false)
  }

  lemma OneFound(s: Search, n: nat, q: QueryState, eq: bool, start: nat, x: nat, a: nat, v2: nat, log0: seq<Hit>,
                 log: seq<Hit>, t: nat)
    requires Remaining(s, n, q, eq, start, x, a, v2, log0, log) && a + t < n
    requires Sought(eq, s.arr.w, v2, t) && NoneBelow(eq, s.arr.w, v2, t)
    ensures start + a + t < s.arr.size
    ensures var log' := log + [s.At(start + a + t)];
            LaneDone(s, n, q, eq, start, x, a + t + 1, ShiftOut(v2, Len(s.arr.w, t + 1)), log0, log', q.Go(log'))
  {
    LanesPassed(s, n, eq, start, x, a, v2, t);
    LaneFound(s, n, eq, start, x, a, v2, t);
    Shifted(s.arr.w, x, a, v2, t);
    LaneNext(s, n, q, start, a, log0, log, t);
  }

  lemma LaneNext(s: Search, n: nat, q: QueryState, start: nat, a: nat, log0: seq<Hit>, log: seq<Hit>, t: nat)
    requires s.Scan(q, log0, start, start + a, log, true) && a + t < n && start + n <= s.arr.size
    requires s.NoHits(start + a, start + a + t) && Holds(s.c, s.arr.Get(start + a + t), s.v)
    ensures var log' := log + [s.At(start + a + t)];
            && (q.Go(log') ==> s.Scan(q, log0, start, start + (a + t + 1), log', true))
            && (!q.Go(log') ==> s.Scan(q, log0, start, start + n, log', false))
  {
    ScanNext(s, q, log0, start, start + a, t, start + n, log);
  }

  /** The search that a word makes: only the bits of the value are compared, which are those of a value
      in range. */
  function InWord(s: Search): Search
    requires s.arr.w > 0
  {
    if s.c == Equal || s.c == NotEqual then s.(v := Value(s.arr.w, Masked(s.v, s.arr.w))) else s
  }

  /** The inner loop of `compare_equality`, on the word at `p`. */
  method EqualWord(s: Search, n: nat, q: QueryState, eq: bool, p: nat, start: nat) returns (go: bool)
    requires start == p * n && WholeWord(s.arr, n, p) && Halves(s.arr.w, n) && s.c == EqCond(eq)
    modifies q`log
    ensures InWord(s).Scan(q, old(q.log), start, start + n, q.log, go)
  {
    var w := s.arr.w;
    var x := Xor(s.arr.Word(p), Fill(w, n, Masked(s.v, w)), BITS);
    OpBound(XorGate, s.arr.Word(p), Fill(w, n, Masked(s.v, w)), BITS);
    SameMask(s.v, w);
    XorTells(InWord(s), n, eq, p, x);
    go := EqualLanes(InWord(s), n, q, eq, start, x);
  }

  method EqualLanes(s: Search, n: nat, q: QueryState, eq: bool, start: nat, x: nat) returns (go: bool)
    requires Tells(s, n, eq, start, x) && x < Pow2(BITS) && Halves(s.arr.w, n)
    modifies q`log
    ensures s.Scan(q, old(q.log), start, start + n, q.log, go)
  {
    var w := s.arr.w;
    var v2, a := x, 0;
    ghost var log0 := q.log;
    var left: bool, t: nat := NextLane(eq, w, n, v2);
    while left
      invariant Remaining(s, n, q, eq, start, x, a, v2, log0, q.log) && NextIs(eq, w, n, v2, left, t)
      decreases n - a, left
    {
      if a + t >= n {
        NoneLeft(s, n, q, eq, start, x, a, v2, log0, q.log);
        return true;
      }
      go, a, v2 := ReportLane(s, n, q, eq, start, x, a, v2, t, log0);
      if !go {
        return;
      }
      left, t := NextLane(eq, w, n, v2);
    }
    NoneLeft(s, n, q, eq, start, x, a, v2, log0, q.log);
    go := true;
  }

  method ReportLane(s: Search, ghost n: nat, q: QueryState, ghost eq: bool, start: nat, ghost x: nat, a: nat, v2: nat,
                    t: nat, ghost log0: seq<Hit>)
    returns (go: bool, a': nat, v2': nat)
    requires Remaining(s, n, q, eq, start, x, a, v2, log0, q.log) && a + t < n
    requires Sought(eq, s.arr.w, v2, t) && NoneBelow(eq, s.arr.w, v2, t)
    modifies q`log
    ensures LaneDone(s, n, q, eq, start, x, a', v2', log0, q.log, go) && a < a' <= n
  {
    OneFound(s, n, q, eq, start, x, a, v2, log0, q.log, t);
    v2', a' := ShiftOut(v2, Len(s.arr.w, t + 1)), a + t + 1;
    go := q.Match(a + t + start + s.base, s.arr.Get(start + a + t));
  }

  /** `t` is the first lane sought, if any is left. */
  ghost predicate NextIs(eq: bool, w: nat, n: nat, v2: nat, left: bool, t: nat) {
    if left then t < n && Sought(eq, w, v2, t) && NoneBelow(eq, w, v2, t) else NoneBelow(eq, w, v2, n)
  }

  /** The test at the head of the loop, and the lane that `find_zero` then finds. */
  method NextLane(eq: bool, w: nat, n: nat, v2: nat) returns (left: bool, t: nat)
    requires Lanes.Packed(w, n) && v2 < Pow2(BITS) && Halves(w, n)
    ensures NextIs(eq, w, n, v2, left, t)
  {
    AnyLeftExact(eq, w, n, v2);
    left, t := AnyLeft(eq, w, n, v2), 0;
    if left {
      t := FindZero(eq, w, n, v2);
    }
  }

  // ---------------------------------------------------------------- relations in one word

  /** The lanes of `chunk` are the elements from `start` on. */
  ghost predicate Holding(s: Search, n: nat, start: nat, chunk: nat) {
    s.arr.Valid() && Lanes.Packed(s.arr.w, n) && start + n <= s.arr.size && chunk < Pow2(BITS) &&
    forall j {:trigger Lane(s.arr.w, chunk, j)} :: 0 <= j < n ==>
      Value(s.arr.w, Lane(s.arr.w, chunk, j)) == s.arr.Get(start + j)
  }

  lemma WordHolding(s: Search, n: nat, p: nat, start: nat)
    requires WholeWord(s.arr, n, p) && start == p * n
    ensures Holding(s, n, start, s.arr.Word(p))
  {
    WordBound(s.arr, p);
    forall j | 0 <= j < n ensures Value(s.arr.w, Lane(s.arr.w, s.arr.Word(p), j)) == s.arr.Get(start + j) {
      WordLanes(s.arr, n, p, j);
    }
  }

  /** `find_gtlt`: lane by lane. */
  method RelationWord(s: Search, n: nat, q: QueryState, start: nat, chunk: nat) returns (go: bool)
    requires Holding(s, n, start, chunk)
    modifies q`log
    ensures s.Scan(q, old(q.log), start, start + n, q.log, go)
  {
    var rest, i := chunk, 0;
    ghost var log0 := q.log;
    while i < n
      invariant Walking(s, n, q, start, chunk, i, rest, log0, q.log)
    {
      go, rest := VisitLane(s, n, q, start, chunk, i, rest, log0);
      if !go {
        return;
      }
      i := i + 1;
    }
    go := true;
  }

  ghost predicate Walking(s: Search, n: nat, q: QueryState, start: nat, chunk: nat, i: nat, rest: nat, log0: seq<Hit>,
                          log: seq<Hit>) {
    Holding(s, n, start, chunk) && i <= n && rest == Shr(chunk, Len(s.arr.w, i)) &&
    s.Scan(q, log0, start, start + i, log, true)
  }

  method VisitLane(s: Search, n: nat, q: QueryState, start: nat, ghost chunk: nat, i: nat, rest: nat,
                   ghost log0: seq<Hit>)
    returns (go: bool, rest': nat)
    requires Walking(s, n, q, start, chunk, i, rest, log0, q.log) && i < n
    modifies q`log
    ensures go ==> Walking(s, n, q, start, chunk, i + 1, rest', log0, q.log)
    ensures !go ==> s.Scan(q, log0, start, start + n, q.log, false)
  {
    LaneElement(s, n, start, chunk, i);
    go := Visit(s, q, start, start + i, start + n, Value(s.arr.w, Low(rest, s.arr.w)), log0);
    rest' := Shr(rest, s.arr.w);
  }

  lemma LaneElement(s: Search, n: nat, start: nat, chunk: nat, i: nat)
    requires Holding(s, n, start, chunk) && i < n
    ensures Value(s.arr.w, Low(Shr(chunk, Len(s.arr.w, i)), s.arr.w)) == s.arr.Get(start + i)
    ensures Shr(Shr(chunk, Len(s.arr.w, i)), s.arr.w) == Shr(chunk, Len(s.arr.w, i + 1))
  {
    ShiftLane(s.arr.w, chunk, i, 0);
    ShiftOne(s.arr.w, chunk, i);
    assert Value(s.arr.w, Lane(s.arr.w, chunk, i)) == s.arr.Get(start + i);
  }

  lemma ShiftOne(w: nat, x: nat, i: nat)
    ensures Shr(Shr(x, Len(w, i)), w) == Shr(x, Len(w, i + 1))
  {
    LenAdd(w, i, 1);
    assert Len(w, 1) == w + Len(w, 0);
    ShrAdd(x, Len(w, i), w);
  }

  /** Some lanes marked: the elements before `start + a` are reported, `m` marks the others. */
  ghost predicate Marked(s: Search, n: nat, q: QueryState, start: nat, chunk: nat, a: nat, m: nat, log0: seq<Hit>,
                         log: seq<Hit>) {
    && Holding(s, n, start, chunk) && NoTop(s.arr.w, n, chunk) && s.c == Greater && s.v >= 0 && a <= n
    && m == Marks(s.arr.w, n - a, Shr(chunk, Len(s.arr.w, a)), s.v)
    && s.Scan(q, log0, start, start + a, log, true)
  }

  lemma {:induction false} NoTopLane(w: nat, n: nat, chunk: nat, j: nat)
    requires w > 0 && NoTop(w, n, chunk) && j < n
    ensures !Top(w, Lane(w, chunk, j))
    decreases n
  {
    if j > 0 {
      NoTopLane(w, n - 1, Shr(chunk, w), j - 1);
    }
  }

  /** With the top bits clear, an element is its lane. */
  lemma PlainLane(s: Search, n: nat, start: nat, chunk: nat, a: nat, i: nat)
    requires Holding(s, n, start, chunk) && NoTop(s.arr.w, n, chunk) && a + i < n
    ensures Lane(s.arr.w, Shr(chunk, Len(s.arr.w, a)), i) == s.arr.Get(start + a + i)
  {
    ShiftLane(s.arr.w, chunk, a, i);
    NoTopLane(s.arr.w, n, chunk, a + i);
    assert Value(s.arr.w, Lane(s.arr.w, chunk, a + i)) == s.arr.Get(start + (a + i));
  }

  lemma MarkFound(s: Search, n: nat, q: QueryState, start: nat, chunk: nat, a: nat, m: nat, log0: seq<Hit>,
                  log: seq<Hit>) returns (t: nat)
    requires Marked(s, n, q, start, chunk, a, m, log0, log) && m > 0
    ensures a + t < n && TrailingZeros(m) == Len(s.arr.w, t) + s.arr.w - 1
    ensures s.NoHits(start + a, start + a + t) && Holds(s.c, s.arr.Get(start + a + t), s.v)
  {
    t := FirstMark(s.arr.w, n - a, Shr(chunk, Len(s.arr.w, a)), s.v);
    MarkPassed(s, n, start, chunk, a, t);
    PlainLane(s, n, start, chunk, a, t);
  }

  /** After a match the loop over the marks goes on, or the scan of the word ends. */
  ghost predicate MarkDone(s: Search, n: nat, q: QueryState, start: nat, chunk: nat, a: nat, m: nat, log0: seq<Hit>,
                           log: seq<Hit>, go: bool) {
    if go then Marked(s, n, q, start, chunk, a, m, log0, log) else s.Scan(q, log0, start, start + n, log, false)
  }

  lemma MarkStep(s: Search, n: nat, q: QueryState, start: nat, chunk: nat, a: nat, m: nat, log0: seq<Hit>,
                 log: seq<Hit>) returns (t: nat)
    requires Marked(s, n, q, start, chunk, a, m, log0, log) && 0 < m < WORD
    ensures a + t < n && TrailingZeros(m) == Len(s.arr.w, t) + s.arr.w - 1 && start + a + t < s.arr.size
    ensures Low(Shr(chunk, Len(s.arr.w, a + t)), s.arr.w) == s.arr.Get(start + a + t)
    ensures var log', m' := log + [s.At(start + a + t)], ShiftOut(m, Len(s.arr.w, t + 1));
            m' < WORD && MarkDone(s, n, q, start, chunk, a + t + 1, m', log0, log', q.Go(log'))
  {
    t := MarkFound(s, n, q, start, chunk, a, m, log0, log);
    MarkNext(s, n, q, start, chunk, a, m, log0, log, t);
    ShiftAgrees(s.arr.w, m, t);
    PlainLane(s, n, start, chunk, a + t, 0);
  }

  lemma MarkNext(s: Search, n: nat, q: QueryState, start: nat, chunk: nat, a: nat, m: nat, log0: seq<Hit>,
                 log: seq<Hit>, t: nat)
    requires Marked(s, n, q, start, chunk, a, m, log0, log) && a + t < n
    requires s.NoHits(start + a, start + a + t) && Holds(s.c, s.arr.Get(start + a + t), s.v)
    ensures var log' := log + [s.At(start + a + t)];
            MarkDone(s, n, q, start, chunk, a + t + 1, Shr(m, Len(s.arr.w, t + 1)), log0, log', q.Go(log'))
  {
    MarksAbove(s.arr.w, n, chunk, s.v, a, t);
    LaneNext(s, n, q, start, a, log0, log, t);
  }

  lemma MarksAbove(w: nat, n: nat, chunk: nat, v: nat, a: nat, t: nat)
    requires w > 0 && a + t < n
    ensures Shr(Marks(w, n - a, Shr(chunk, Len(w, a)), v), Len(w, t + 1))
            == Marks(w, n - (a + t + 1), Shr(chunk, Len(w, a + t + 1)), v)
  {
    ShiftMarks(w, n - a, Shr(chunk, Len(w, a)), v, t + 1);
    LenAdd(w, a, t + 1);
    ShrAdd(chunk, Len(w, a), Len(w, t + 1));
  }

  lemma MarkPassed(s: Search, n: nat, start: nat, chunk: nat, a: nat, t: nat)
    requires Holding(s, n, start, chunk) && NoTop(s.arr.w, n, chunk) && s.c == Greater && a + t <= n
    requires forall i :: 0 <= i < t ==> Lane(s.arr.w, Shr(chunk, Len(s.arr.w, a)), i) <= s.v
    ensures s.NoHits(start + a, start + a + t)
  {
    forall i | start + a <= i < start + a + t ensures !Holds(s.c, s.arr.Get(i), s.v) {
      PlainLane(s, n, start, chunk, a, i - start - a);
    }
  }

  lemma NoMarks(s: Search, n: nat, q: QueryState, start: nat, chunk: nat, a: nat, log0: seq<Hit>, log: seq<Hit>)
    requires Marked(s, n, q, start, chunk, a, 0, log0, log)
    ensures s.Scan(q, log0, start, start + n, log, true)
  {
    var w, rest := s.arr.w, Shr(chunk, Len(s.arr.w, a));
    forall i | 0 <= i < n - a ensures Lane(w, rest, i) <= s.v {
      NoMark(w, n - a, rest, s.v, i);
    }
    MarkPassed(s, n, start, chunk, a, n - a);
    ScanSkip(s, q, log0, start, start + a, start + n, log);
  }

  lemma LaneOfBit(w: nat, t: nat)
    requires w == 2 || w == 4 || w == 8 || w == 16
    ensures (Len(w, t) + w - 1) / w == t
  {
    LenIs(w, t);
    if w == 2 {} else if w == 4 {} else if w == 8 {} else {}
  }

  lemma FastMarks(w: nat, n: nat, chunk: nat, v: int)
    requires Lanes.Packed(w, n) && NoTop(w, n, chunk) && chunk < Pow2(BITS) && 0 <= v < Pow2(w - 1)
    ensures GreaterWord(w, n, chunk, chunk + Magic(true, w, n, v)) == Marks(w, n, chunk, v) < WORD
  {
    MagicIsFill(true, w, n, v);
    GreaterMarks(w, n, chunk, v);
    OpBound(AndGate, Or(Low(chunk + Magic(true, w, n, v), BITS), chunk, BITS), Fill(w, n, Pow2(w - 1)), BITS);
    Powers();
  }

  /** `find_gtlt_fast` for greater than. */
  method GreaterFast(s: Search, n: nat, q: QueryState, start: nat, chunk: nat) returns (go: bool)
    requires Holding(s, n, start, chunk) && NoTop(s.arr.w, n, chunk) && s.c == Greater
    requires (s.arr.w == 2 || s.arr.w == 4 || s.arr.w == 8 || s.arr.w == 16) && 0 <= s.v < Pow2(s.arr.w - 1)
    modifies q`log
    ensures s.Scan(q, old(q.log), start, start + n, q.log, go)
  {
    FastMarks(s.arr.w, n, chunk, s.v);
    go := ReportMarks(s, n, q, start, chunk, GreaterWord(s.arr.w, n, chunk, chunk + Magic(true, s.arr.w, n, s.v)),
                      q.log);
  }

  method ReportMarks(s: Search, n: nat, q: QueryState, start: nat, chunk: nat, marks: nat, ghost log0: seq<Hit>)
    returns (go: bool)
    requires Marked(s, n, q, start, chunk, 0, marks, log0, q.log) && marks < WORD
    requires s.arr.w == 2 || s.arr.w == 4 || s.arr.w == 8 || s.arr.w == 16
    modifies q`log
    ensures s.Scan(q, log0, start, start + n, q.log, go)
  {
    var m: nat, a: nat := marks, 0;
    while m != 0
      invariant Marked(s, n, q, start, chunk, a, m, log0, q.log) && m < WORD
      decreases n - a
    {
      go, a, m := ReportMark(s, n, q, start, chunk, a, m, log0);
      if !go {
        return;
      }
    }
    NoMarks(s, n, q, start, chunk, a, log0, q.log);
    go := true;
  }

  /** The value reported is the lane, which is the element as its top bit is clear. */
  method ReportMark(s: Search, ghost n: nat, q: QueryState, start: nat, chunk: nat, a: nat, m: nat,
                    ghost log0: seq<Hit>)
    returns (go: bool, a': nat, m': nat)
    requires Marked(s, n, q, start, chunk, a, m, log0, q.log) && 0 < m < WORD
    requires s.arr.w == 2 || s.arr.w == 4 || s.arr.w == 8 || s.arr.w == 16
    modifies q`log
    ensures MarkDone(s, n, q, start, chunk, a', m', log0, q.log, go) && m' < WORD && a < a' <= n
  {
    ghost var t0 := MarkStep(s, n, q, start, chunk, a, m, log0, q.log);
    var t := BitLane(s.arr.w, m, t0);
    m', a' := ShiftOut(m, Len(s.arr.w, t + 1)), a + t + 1;
    go := q.Match(a + t + start + s.base, Low(Shr(chunk, Len(s.arr.w, a + t)), s.arr.w));
  }

  /** The lane of the lowest set bit. */
  method BitLane(w: nat, m: nat, ghost t0: nat) returns (t: nat)
    requires w == 2 || w == 4 || w == 8 || w == 16
    requires 0 < m < WORD && TrailingZeros(m) == Len(w, t0) + w - 1
    ensures t == t0
  {
    LaneOfBit(w, t0);
    var bit := LowestSetBit(m);
    t := bit / w;
  }

  method LowestSetBit(m: nat) returns (bit: nat)
    requires 0 < m < WORD
    ensures bit == TrailingZeros(m)
  {
    FirstSetBit64Exact(m);
    bit := FirstSetBit64(m);
  }

  lemma ShiftAgrees(w: nat, m: nat, t: nat)
    requires m < WORD
    ensures ShiftOut(m, Len(w, t + 1)) == Shr(m, Len(w, t + 1)) < WORD
  {
    Powers();
    Shifted(w, m, 0, m, t);
  }

  // ---------------------------------------------------------------- which test applies

  /** The condition under which `compare_relation` uses the fast test. */
  predicate FastGuard(gt: bool, w: nat, n: nat, v: int)
    requires w > 0
  {
    v != Low(Magic(gt, w, n, v), w) && v >= 0 && w >= 2 && v <= Pow2(w - 1) - 1 - (if gt then 1 else 0)
  }

  lemma GuardRange(gt: bool, w: nat, n: nat, v: int)
    requires w > 0 && n > 0
    ensures FastGuard(gt, w, n, v) <==> gt && w >= 2 && 0 <= v <= Pow2(w - 1) - 2
  {
    if w >= 2 && 0 <= v < Pow2(w - 1) {
      MagicIsFill(gt, w, n, v);
      assert Pow2(w - 1) == 2 * Pow2(w - 2);
    }
  }

  /** The guard never lets a less-than search through. It lets a greater-than search through for the
      values for which the fast test is right on all words, except the least and the greatest. */
  lemma GuardExact(gt: bool, w: nat, n: nat, v: int)
    requires w > 0 && n > 0 && -(Pow2(Len(w, n) - 1) as int) <= v < Pow2(Len(w, n) - 1)
    ensures FastGuard(gt, w, n, v) <==> gt && GreaterRight(w, n, v) && v != -1 && v != Pow2(w - 1) - 1
    ensures GreaterRight(w, n, -1) && GreaterRight(w, n, Pow2(w - 1) - 1)
  {
    GuardRange(gt, w, n, v);
    GreaterExact(w, n, v);
    TopInWord(w, Len(w, n - 1));
    GreaterExact(w, n, -1);
    GreaterExact(w, n, Pow2(w - 1) - 1);
  }

  /** One word of `compare_equality` or `compare_relation`. */
  method ScanWord(s: Search, n: nat, q: QueryState, p: nat, start: nat) returns (go: bool)
    requires Searchable(s, n) && WholeWord(s.arr, n, p) && start == p * n
    modifies q`log
    ensures InWord(s).Scan(q, old(q.log), start, start + n, q.log, go)
  {
    if s.c == Equal || s.c == NotEqual {
      go := EqualWord(s, n, q, s.c == Equal, p, start);
    } else {
      var w, chunk := s.arr.w, s.arr.Word(p);
      WordHolding(s, n, p, start);
      UpperTest(w, n, chunk);
      GuardRange(s.c == Greater, w, n, s.v);
      if FastGuard(s.c == Greater, w, n, s.v) && And(Fill(w, n, Pow2(w - 1)), chunk, BITS) == 0 {
        go := GreaterFast(s, n, q, start, chunk);
      } else {
        go := RelationWord(s, n, q, start, chunk);
      }
    }
  }

  // ---------------------------------------------------------------- whole ranges

  /** Words that end before element `end` does lie wholly in the array. */
  lemma WordFits(arr: Packed, n: nat, p: nat, pos: nat, end: nat)
    requires arr.Valid() && Lanes.Packed(arr.w, n) && end <= arr.size && pos == p * n &&
             8 * (p + 1) < Len(arr.w, end) / 8
    ensures WholeWord(arr, n, p) && pos + n <= end && pos + n == (p + 1) * n
  {
    WordStart(arr.w, n, p + 1);
    assert (p + 1) * n == p * n + n;
    if end < pos + n {
      LenMonotone(arr.w, end, pos + n);
    }
    if end < arr.size {
      LenMonotone(arr.w, end, arr.size);
    }
  }

  /** What the searches of whole words need of the array. */
  ghost predicate Searchable(s: Search, n: nat) {
    && s.arr.Valid() && Lanes.Packed(s.arr.w, n) && Halves(s.arr.w, n) && s.arr.w in {1, 2, 4, 8, 16}
    && s.c !in {None, NotNull}
  }

  /** Everything up to the word at `p`, which starts at `pos`, is reported. */
  ghost predicate UpTo(s: Search, n: nat, q: QueryState, p: nat, pos: nat, start: nat, end: nat, log0: seq<Hit>,
                       log: seq<Hit>) {
    && Searchable(s, n) && pos == p * n && start <= pos <= end <= s.arr.size
    && InWord(s).Scan(q, log0, start, pos, log, true)
  }

  /** The first word, from `p` on, that is not searched as a word. */
  ghost function WordsEnd(w: nat, p: nat, end: nat): nat
    decreases Len(w, end) / 8 - p
  {
    if 8 * (p + 1) < Len(w, end) / 8 then WordsEnd(w, p + 1, end) else p
  }

  lemma {:induction false} WordsEndFits(arr: Packed, n: nat, p: nat, end: nat)
    requires arr.Valid() && Lanes.Packed(arr.w, n) && p * n <= end <= arr.size
    ensures p * n <= WordsEnd(arr.w, p, end) * n <= end
    decreases Len(arr.w, end) / 8 - p
  {
    if 8 * (p + 1) < Len(arr.w, end) / 8 {
      WordFits(arr, n, p, p * n, end);
      WordsEndFits(arr, n, p + 1, end);
    }
  }

  /** The loops over whole words, from the word at `p0` on. */
  method ScanWords(s: Search, n: nat, q: QueryState, p0: nat, start: nat, end: nat) returns (go: bool, pos: nat)
    requires Searchable(s, n) && start == p0 * n && start <= end <= s.arr.size
    modifies q`log
    ensures var mid := WordsEnd(s.arr.w, p0, end) * n;
            && start <= mid <= end && InWord(s).Scan(q, old(q.log), start, mid, q.log, go) && (go ==> pos == mid)
  {
    ghost var log0 := q.log;
    var p: nat := p0;
    pos := start;
    WordsEndFits(s.arr, n, p0, end);
    while 8 * (p + 1) < Len(s.arr.w, end) / 8
      invariant UpTo(s, n, q, p, pos, start, end, log0, q.log)
      invariant WordsEnd(s.arr.w, p, end) == WordsEnd(s.arr.w, p0, end)
      decreases end - pos
    {
      go := NextWord(s, n, q, p, pos, start, end, log0);
      p, pos := p + 1, pos + n;
      if !go {
        return;
      }
    }
    go := true;
  }

  method NextWord(s: Search, n: nat, q: QueryState, p: nat, pos: nat, ghost start: nat, ghost end: nat,
                  ghost log0: seq<Hit>) returns (go: bool)
    requires UpTo(s, n, q, p, pos, start, end, log0, q.log) && 8 * (p + 1) < Len(s.arr.w, end) / 8
    modifies q`log
    ensures n > 0 && pos + n <= end && WordDone(s, n, q, p, pos, start, end, log0, q.log, go)
  {
    WordFits(s.arr, n, p, pos, end);
    ghost var log1 := q.log;
    go := ScanWord(s, n, q, p, pos);
    WordScanned(s, n, q, p, pos, start, end, log0, log1, q.log, go);
  }

  /** After a word the loop goes on, or the scan of all words ends. */
  ghost predicate WordDone(s: Search, n: nat, q: QueryState, p: nat, pos: nat, start: nat, end: nat, log0: seq<Hit>,
                           log: seq<Hit>, go: bool)
    requires s.arr.w > 0
  {
    if go then UpTo(s, n, q, p + 1, pos + n, start, end, log0, log)
    else InWord(s).Scan(q, log0, start, WordsEnd(s.arr.w, p, end) * n, log, false)
  }

  lemma WordScanned(s: Search, n: nat, q: QueryState, p: nat, pos: nat, start: nat, end: nat, log0: seq<Hit>,
                    log1: seq<Hit>, log: seq<Hit>, go: bool)
    requires UpTo(s, n, q, p, pos, start, end, log0, log1) && 8 * (p + 1) < Len(s.arr.w, end) / 8
    requires pos + n == (p + 1) * n <= end && InWord(s).Scan(q, log1, pos, pos + n, log, go)
    ensures WordDone(s, n, q, p, pos, start, end, log0, log, go)
  {
    ScanJoin(InWord(s), q, log0, start, pos, pos + n, log1, log, go);
    if go {
      assert UpTo(s, n, q, p + 1, pos + n, start, end, log0, log);
    } else {
      WordsCut(InWord(s), n, q, p, pos + n, start, end, log0, log);
    }
  }

  lemma WordsCut(s: Search, n: nat, q: QueryState, p: nat, next: nat, start: nat, end: nat, log0: seq<Hit>,
                 log: seq<Hit>)
    requires Lanes.Packed(s.arr.w, n) && end <= s.arr.size && 8 * (p + 1) < Len(s.arr.w, end) / 8
    requires next == (p + 1) * n <= end && s.Scan(q, log0, start, next, log, false)
    ensures s.Scan(q, log0, start, WordsEnd(s.arr.w, p, end) * n, log, false)
  {
    WordsEndFits(s.arr, n, p + 1, end);
    ScanCut(s, q, log0, start, next, WordsEnd(s.arr.w, p + 1, end) * n, log);
  }

  /** The part before the first whole word. */
  function HeadEnd(w: nat, start: nat, end: nat): nat
    requires Width(w)
  {
    var ee := (start + PerWord(w) - 1) / PerWord(w) * PerWord(w);
    if ee > end then end else ee
  }

  /** The end of the part that is searched word by word. */
  ghost function WordPart(w: nat, start: nat, end: nat): nat
    requires Width(w)
  {
    var n, ee := PerWord(w), HeadEnd(w, start, end);
    if ee >= end || w == 32 || w == 64 then ee else WordsEnd(w, (start + n - 1) / n, end) * n
  }

  lemma PartsOrdered(arr: Packed, start: nat, end: nat)
    requires arr.Valid() && Width(arr.w) && start <= end <= arr.size
    ensures start <= HeadEnd(arr.w, start, end) <= WordPart(arr.w, start, end) <= end
  {
    var n := PerWord(arr.w);
    RoundUp(start, n);
    WidthFacts(arr.w);
    if HeadEnd(arr.w, start, end) < end {
      WordsEndFits(arr, n, (start + n - 1) / n, end);
    }
  }

  /** What `compare_equality` and `compare_relation` report: matches, but in whole words only of the bits. */
  ghost function Compared(s: Search, start: nat, end: nat): seq<Hit>
    requires s.arr.Valid() && Width(s.arr.w) && start <= end <= s.arr.size
  {
    PartsOrdered(s.arr, start, end);
    var ee, mid := HeadEnd(s.arr.w, start, end), WordPart(s.arr.w, start, end);
    s.Hits(start, ee) + (InWord(s).Hits(ee, mid) + s.Hits(mid, end))
  }

  /** `compare_equality` and `compare_relation`. */
  method Compare(s: Search, q: QueryState, start: nat, end: nat) returns (go: bool)
    requires s.arr.Valid() && Width(s.arr.w) && start <= end <= s.arr.size && s.c !in {None, NotNull}
    modifies q`log
    ensures Fed(q, old(q.log), Compared(s, start, end)) == (q.log, go)
  {
    ghost var log0 := q.log;
    PartsOrdered(s.arr, start, end);
    var ee := HeadEnd(s.arr.w, start, end);
    ghost var mid := WordPart(s.arr.w, start, end);
    go := ScanLinear(s, q, start, ee);
    FedConcat(q, log0, s.Hits(start, ee), InWord(s).Hits(ee, mid) + s.Hits(mid, end));
    if !go || ee >= end {
      return;
    }
    go := CompareRest(s, q, start, ee, end);
  }

  method CompareRest(s: Search, q: QueryState, start: nat, ee: nat, end: nat) returns (go: bool)
    requires s.arr.Valid() && Width(s.arr.w) && start <= end <= s.arr.size && s.c !in {None, NotNull}
    requires ee == HeadEnd(s.arr.w, start, end) < end && ee <= WordPart(s.arr.w, start, end) <= end
    modifies q`log
    ensures var mid := WordPart(s.arr.w, start, end);
            Fed(q, old(q.log), InWord(s).Hits(ee, mid) + s.Hits(mid, end)) == (q.log, go)
  {
    ghost var log0, mid := q.log, WordPart(s.arr.w, start, end);
    var n, pos := PerWord(s.arr.w), ee;
    WidthFacts(s.arr.w);
    go := true;
    if s.arr.w != 32 && s.arr.w != 64 {
      go, pos := ScanWords(s, n, q, (start + n - 1) / n, ee, end);
    }
    FedConcat(q, log0, InWord(s).Hits(ee, mid), s.Hits(mid, end));
    if go {
      go := ScanLinear(s, q, pos, end);
    }
  }

  /** With a value in range, and for relations always, that is the linear scan. */
  lemma ComparedAll(s: Search, start: nat, end: nat)
    requires s.arr.Valid() && Width(s.arr.w) && start <= end <= s.arr.size
    requires s.c in {Equal, NotEqual} ==> InRange(s.v, s.arr.w)
    ensures Compared(s, start, end) == s.Hits(start, end)
  {
    SameMask(s.v, s.arr.w);
    PartsOrdered(s.arr, start, end);
    var ee, mid := HeadEnd(s.arr.w, start, end), WordPart(s.arr.w, start, end);
    HitsSplit(s, start, ee, end);
    HitsSplit(s, ee, mid, end);
  }

  lemma RoundUp(start: nat, n: nat)
    requires n > 0
    ensures var p := (start + n - 1) / n; 0 <= p && start <= p * n < start + n
  {
    var x := start + n - 1;
    assert x == x / n * n + x % n;
  }

  // ---------------------------------------------------------------- find_optimized

  function CanMatch(c: Cond, v: int, lower: int, upper: int): bool {
    match c
    case Equal => lower <= v <= upper
    case NotEqual => !(v == 0 && upper == 0 && lower == 0)
    case Greater => upper > v
    case Less => lower < v
    case _ => true
  }

  function WillMatch(c: Cond, v: int, lower: int, upper: int): bool {
    match c
    case Equal => v == 0 && upper == 0 && lower == 0
    case NotEqual => v > upper || v < lower
    case Greater => lower > v
    case Less => upper < v
    case _ => true
  }

  /** The width alone decides: no element can match, or all do. */
  lemma WidthDecides(s: Search, lo: nat, hi: nat)
    requires s.arr.Valid() && lo <= hi <= s.arr.size
    ensures !CanMatch(s.c, s.v, LowerLimit(s.arr.w), UpperLimit(s.arr.w)) ==> s.NoHits(lo, hi)
    ensures WillMatch(s.c, s.v, LowerLimit(s.arr.w), UpperLimit(s.arr.w)) ==> forall i :: lo <= i < hi ==>
            Holds(s.c, s.arr.Get(i), s.v)
  {
    forall i | lo <= i < hi ensures InRange(s.arr.Get(i), s.arr.w) {
      ElementInRange(s.arr, i);
    }
  }

  /** Where `find_all_will_match` ends: as many elements on as the consumer still wants. */
  function Reach(q: QueryState, log: seq<Hit>, start: nat, end: nat): nat
    requires start <= end && q.count(log) < q.limit
  {
    var process := q.limit - q.count(log);
    if end - start > process then start + process else end
  }

  /** `find_all_will_match`. */
  method FindAllWillMatch(s: Search, q: QueryState, start: nat, end: nat) returns (go: bool)
    requires s.arr.Valid() && start <= end <= s.arr.size && q.count(q.log) < q.limit
    requires forall i :: start <= i < end ==> Holds(s.c, s.arr.Get(i), s.v)
    modifies q`log
    ensures s.Scan(q, old(q.log), start, Reach(q, old(q.log), start, end), q.log, go)
  {
    ghost var log0 := q.log;
    var end2 := Reach(q, q.log, start, end);
    var i := start;
    while i < end2
      invariant start <= i <= end2 && s.Scan(q, log0, start, i, q.log, true)
    {
      ScanNext(s, q, log0, start, i, 0, end2, q.log);
      go := q.Match(i + s.base, s.arr.Get(i));
      if !go {
        return;
      }
      i := i + 1;
    }
    go := true;
  }

  ghost predicate AllMatch(s: Search, lo: nat, hi: nat) {
    s.arr.Valid() && lo <= hi <= s.arr.size && forall i :: lo <= i < hi ==> Holds(s.c, s.arr.Get(i), s.v)
  }

  /** The `k` elements from `lo` on, as they would be reported. */
  ghost function Stretch(s: Search, lo: nat, k: nat): seq<Hit>
    requires s.arr.Valid() && lo + k <= s.arr.size
  {
    seq(k, i requires 0 <= i < k => s.At(lo + i))
  }

  /** The consumer would accept the `k` elements from `lo` on, one after the other. */
  ghost predicate Accepts(s: Search, q: QueryState, log0: seq<Hit>, lo: nat, k: nat)
    requires s.arr.Valid() && lo + k <= s.arr.size
  {
    forall j: nat :: 0 < j <= k ==> q.Go(log0 + Stretch(s, lo, j))
  }

  lemma AcceptsStep(s: Search, q: QueryState, log0: seq<Hit>, lo: nat, k: nat)
    requires s.arr.Valid() && lo + k <= s.arr.size && k > 0
    ensures Accepts(s, q, log0, lo, k) <==>
            q.Go(log0 + [s.At(lo)]) && Accepts(s, q, log0 + [s.At(lo)], lo + 1, k - 1)
  {
    var l, next := log0 + [s.At(lo)], lo + 1;
    assert log0 + Stretch(s, lo, 1) == l;
    if Accepts(s, q, log0, lo, k) {
      forall j: nat | 0 < j <= k - 1 ensures q.Go(l + Stretch(s, next, j)) {
        StretchStep(s, log0, lo, j);
      }
    }
    if q.Go(l) && Accepts(s, q, l, lo + 1, k - 1) {
      forall j: nat | 0 < j <= k ensures q.Go(log0 + Stretch(s, lo, j)) {
        StretchStep(s, log0, lo, j - 1);
        assert j > 1 ==> q.Go(l + Stretch(s, lo + 1, j - 1));
      }
    }
  }

  lemma StretchStep(s: Search, log0: seq<Hit>, lo: nat, j: nat)
    requires s.arr.Valid() && lo + j + 1 <= s.arr.size
    ensures log0 + [s.At(lo)] + Stretch(s, lo + 1, j) == log0 + Stretch(s, lo, j + 1)
  {
  }

  /** Where all elements match, the scan goes on exactly when the consumer accepts them all. */
  lemma {:induction false} ScanAccepted(s: Search, q: QueryState, log0: seq<Hit>, lo: nat, hi: nat)
    requires AllMatch(s, lo, hi)
    ensures Fed(q, log0, s.Hits(lo, hi)).1 <==> Accepts(s, q, log0, lo, hi - lo)
    decreases hi - lo
  {
    if lo < hi {
      AcceptsStep(s, q, log0, lo, hi - lo);
      assert s.Hits(lo, hi)[1..] == s.Hits(lo + 1, hi);
      ScanAccepted(s, q, log0 + [s.At(lo)], lo + 1, hi);
    }
  }

  /** Where all elements match, a search that ends at `mid` reports what a scan to `hi` does if and only
      if there is nothing between, or the consumer would not accept all elements before `mid`. */
  lemma CutExact(s: Search, q: QueryState, log0: seq<Hit>, lo: nat, mid: nat, hi: nat, log: seq<Hit>, go: bool)
    requires AllMatch(s, lo, hi) && lo <= mid <= hi && s.Scan(q, log0, lo, mid, log, go)
    ensures s.Scan(q, log0, lo, hi, log, go) <==> mid == hi || !Accepts(s, q, log0, lo, mid - lo)
  {
    ScanAccepted(s, q, log0, lo, mid);
    if !go {
      ScanCut(s, q, log0, lo, mid, hi, log);
    } else if mid < hi {
      HitsSplit(s, lo, mid, hi);
      FedConcat(q, log0, s.Hits(lo, mid), s.Hits(mid, hi));
      FedLonger(q, log, s.Hits(mid, hi));
    }
  }

  lemma {:induction false} FedLonger(q: QueryState, log: seq<Hit>, hits: seq<Hit>)
    ensures |Fed(q, log, hits).0| >= |log| + if hits == [] then 0 else 1
    decreases |hits|
  {
    if hits != [] && q.Go(log + [hits[0]]) {
      FedLonger(q, log + [hits[0]], hits[1..]);
    }
  }

  /** A consumer for which every match counts counts as many as it is fed. */
  lemma {:induction false} AllCounted(q: QueryState, log: seq<Hit>, hits: seq<Hit>)
    requires q.CountsAll()
    ensures var r := Fed(q, log, hits);
            r.1 ==> q.count(r.0) == q.count(log) + |hits| && (hits != [] ==> q.count(r.0) < q.limit)
    decreases |hits|
  {
    if hits != [] {
      var l := log + [hits[0]];
      if q.Go(l) {
        AllCounted(q, l, hits[1..]);
      }
    }
  }

  lemma {:induction false} AllHits(s: Search, lo: nat, hi: nat)
    requires AllMatch(s, lo, hi)
    ensures |s.Hits(lo, hi)| == hi - lo
    decreases hi - lo
  {
    if lo < hi {
      AllHits(s, lo + 1, hi);
    }
  }

  /** For such a consumer the limit cuts the search only where the consumer stops it. */
  lemma LimitHarmless(s: Search, q: QueryState, log0: seq<Hit>, lo: nat, hi: nat, log: seq<Hit>, go: bool)
    requires AllMatch(s, lo, hi) && q.count(log0) < q.limit && q.CountsAll()
    requires s.Scan(q, log0, lo, Reach(q, log0, lo, hi), log, go)
    ensures s.Scan(q, log0, lo, hi, log, go)
  {
    var mid := Reach(q, log0, lo, hi);
    AllHits(s, lo, mid);
    AllCounted(q, log0, s.Hits(lo, mid));
    if !go {
      ScanCut(s, q, log0, lo, mid, hi, log);
    }
  }

  /** `find_optimized`, without the SSE paths: for every width, condition, value and range, what is
      reported, and whether the search should go on, is what a linear scan of the elements up to
      `stop` gives. It is what a linear scan of all gives if and only if that is the end, or the
      consumer would not accept all elements up to there; a consumer for which all matches count
      would not. */
  method FindOptimized(arr: Packed, c: Cond, value: int, start: nat, end0: nat, base: nat, q: QueryState)
    returns (go: bool, ghost stop: nat)
    requires arr.Valid() && (arr.w == 0 || Width(arr.w)) && start <= arr.size
    requires (end0 <= arr.size || end0 == NPOS) && start <= end0 && q.count(q.log) < q.limit
    modifies q`log
    ensures var s, end := Search(arr, c, value, base), if end0 == NPOS then arr.size else end0;
            && s.Scan(q, old(q.log), start, stop, q.log, go) && stop <= end
            && (s.Scan(q, old(q.log), start, end, q.log, go) <==>
                stop == end || !Accepts(s, q, old(q.log), start, stop - start))
            && (q.CountsAll() ==> s.Scan(q, old(q.log), start, end, q.log, go))
    ensures var end := if end0 == NPOS then arr.size else end0;
            stop == if start < end && WillMatch(c, value, LowerLimit(arr.w), UpperLimit(arr.w))
                    then Reach(q, old(q.log), start, end) else end
  {
    var s := Search(arr, c, value, base);
    var end := if end0 == NPOS then arr.size else end0;
    stop := end;
    if start >= end {
      return true, stop;
    }
    var lower, upper := LowerLimit(arr.w), UpperLimit(arr.w);
    WidthDecides(s, start, end);
    if !CanMatch(c, value, lower, upper) {
      NoHitsEmpty(s, start, end);
      go := true;
    } else if WillMatch(c, value, lower, upper) {
      go, stop := FindAllMatching(s, q, start, end);
    } else {
      ComparedAll(s, start, end);
      go := Compare(s, q, start, end);
    }
  }

  method FindAllMatching(s: Search, q: QueryState, start: nat, end: nat) returns (go: bool, ghost stop: nat)
    requires AllMatch(s, start, end) && q.count(q.log) < q.limit
    modifies q`log
    ensures stop == Reach(q, old(q.log), start, end) && s.Scan(q, old(q.log), start, stop, q.log, go)
    ensures s.Scan(q, old(q.log), start, end, q.log, go) <==>
            stop == end || !Accepts(s, q, old(q.log), start, stop - start)
    ensures q.CountsAll() ==> s.Scan(q, old(q.log), start, end, q.log, go)
  {
    ghost var log0 := q.log;
    stop := Reach(q, log0, start, end);
    go := FindAllWillMatch(s, q, start, end);
    CutExact(s, q, log0, start, stop, end, q.log, go);
    if q.CountsAll() {
      LimitHarmless(s, q, log0, start, end, q.log, go);
    }
  }

  // ---------------------------------------------------------------- a search that misses a match

  /** A search for the maximum counts a match when it is the first, or greater than all before. */
  function Records(l: seq<Hit>): nat {
    if l == [] then 0 else Records(l[..|l| - 1]) + if IsRecord(l) then 1 else 0
  }

  predicate IsRecord(l: seq<Hit>)
    requires l != []
  {
    forall i :: 0 <= i < |l| - 1 ==> l[i].value < l[|l| - 1].value
  }

  /** With the limit 2 it never sees the third of the elements 5, 5, 7. */
  method MissingRun() returns (arr: Packed, q: QueryState, go: bool)
    ensures arr.Valid() && arr.size == 3 && arr.Get(0) == 5 && arr.Get(1) == 5 && arr.Get(2) == 7
    ensures fresh(q) && q.limit == 2 && q.count == Records && go && q.log == [Hit(0, 5), Hit(1, 5)]
    ensures Search(arr, NotNull, 0, 0).Scan(q, [], 0, 3, [Hit(0, 5), Hit(1, 5), Hit(2, 7)], false)
  {
    arr := FiveFiveSeven();
    q := new QueryState(2, Records, _ => false);
    ghost var s := Search(arr, NotNull, 0, 0);
    ghost var stop;
    go, stop := FindOptimized(arr, NotNull, 0, 0, 3, 0, q);
    OnlyTwo(s, q, stop, q.log, go);
  }

  lemma OnlyTwo(s: Search, q: QueryState, stop: nat, log: seq<Hit>, go: bool)
    requires Missable(s, q) && q.count([]) < 2 && stop == Reach(q, [], 0, 3) && s.Scan(q, [], 0, stop, log, go)
    ensures go && log == [Hit(0, 5), Hit(1, 5)]
    ensures s.Scan(q, [], 0, 3, [Hit(0, 5), Hit(1, 5), Hit(2, 7)], false)
  {
    TwoSeen(s, q);
  }

  ghost predicate Missable(s: Search, q: QueryState) {
    && s.arr.Valid() && s.arr.size == 3 && s.arr.Get(0) == 5 && s.arr.Get(1) == 5 && s.arr.Get(2) == 7
    && s.c == NotNull && s.base == 0 && q.limit == 2 && q.count == Records && forall l :: !q.halts(l)
  }

  method FiveFiveSeven() returns (arr: Packed)
    ensures arr.Valid() && arr.size == 3 && arr.w == 4 && arr.Get(0) == 5 && arr.Get(1) == 5 && arr.Get(2) == 7
  {
    var five, seven := [true, false, true, false], [true, true, true, false];
    arr := Packed(five + five + seven, 4, 3);
    assert arr.mem[0..4] == five && arr.mem[4..8] == five && arr.mem[8..12] == seven;
  }

  lemma TwoSeen(s: Search, q: QueryState)
    requires Missable(s, q)
    ensures s.Scan(q, [], 0, 2, [Hit(0, 5), Hit(1, 5)], true)
    ensures s.Scan(q, [], 0, 3, [Hit(0, 5), Hit(1, 5), Hit(2, 7)], false)
  {
    var a, b, c := [Hit(0, 5)], [Hit(0, 5), Hit(1, 5)], [Hit(0, 5), Hit(1, 5), Hit(2, 7)];
    assert a[..0] == [] && b[..1] == a && c[..2] == b;
    assert Records(a) == 1 && Records(b) == 1 && Records(c) == 2;
    assert [] + [s.At(0)] == a && a + [s.At(1)] == b && b + [s.At(2)] == c;
    assert s.Scan(q, [], 0, 0, [], true);
    ScanHit(s, q, [], 0, 0, []);
    ScanHit(s, q, [], 0, 1, a);
    ScanHit(s, q, [], 0, 2, b);
  }

  // ---------------------------------------------------------------- equality out of range

  /** In all arrays of the width, and all ranges, the comparison reports the linear scan. */
  ghost predicate ComparesRight(w: nat, c: Cond, v: int)
    requires Width(w)
  {
    forall arr: Packed, start: nat, end: nat {:trigger Compared(Search(arr, c, v, 0), start, end)} ::
      arr.w == w && arr.Valid() && start <= end <= arr.size ==>
      Compared(Search(arr, c, v, 0), start, end) == Search(arr, c, v, 0).Hits(start, end)
  }

  /** For equality it does if and only if the value is in range. */
  lemma CompareExact(w: nat, c: Cond, v: int)
    requires w in {1, 2, 4, 8, 16} && c in {Equal, NotEqual}
    ensures ComparesRight(w, c, v) <==> InRange(v, w)
  {
    if InRange(v, w) {
      forall arr: Packed, start: nat, end: nat | arr.w == w && arr.Valid() && start <= end <= arr.size
        ensures Compared(Search(arr, c, v, 0), start, end) == Search(arr, c, v, 0).Hits(start, end)
      {
        ComparedAll(Search(arr, c, v, 0), start, end);
      }
    } else {
      var arr := LooksEqual(w, v);
      Misreported(Search(arr, c, v, 0), PerWord(w));
    }
  }

  /** Two words, of which the first element has the bits of the value. */
  lemma LooksEqual(w: nat, v: int) returns (arr: Packed)
    requires w in {1, 2, 4, 8, 16}
    ensures arr.w == w && arr.Valid() && arr.size == 2 * PerWord(w) && arr.Get(0) == Value(w, Masked(v, w))
  {
    var r, n := Masked(v, w), PerWord(w);
    arr := Packed(ToBits(r, w) + seq(128 - w, _ => false), w, 2 * n);
    PerWordIs(w);
    TwoWords(w, n);
    MaskedBound(v, w);
    assert arr.mem[0..w] == ToBits(r, w);
    FromToBits(r, w);
    LowSmall(r, w);
  }

  /** The first of two words is compared as a word. */
  lemma FirstInWord(w: nat, n: nat)
    requires w in {1, 2, 4, 8, 16} && n == PerWord(w)
    ensures HeadEnd(w, 0, 2 * n) == 0 && WordPart(w, 0, 2 * n) == n
  {
    PerWordIs(w);
    TwoWords(w, n);
    BeforeFirst(n);
  }

  lemma ComparedTwo(s: Search, n: nat)
    requires s.arr.w in {1, 2, 4, 8, 16} && s.arr.Valid() && n == PerWord(s.arr.w) && s.arr.size == 2 * n
    ensures Compared(s, 0, 2 * n) == InWord(s).Hits(0, n) + s.Hits(n, 2 * n)
  {
    FirstInWord(s.arr.w, n);
    assert s.Hits(0, 0) == [];
  }

  lemma TwoWords(w: nat, n: nat)
    requires w * n == 64
    ensures Len(w, 2 * n) == 128 && WordsEnd(w, 0, 2 * n) == 1
  {
    LenIs(w, 2 * n);
    assert w * (2 * n) == 2 * (w * n);
    assert WordsEnd(w, 1, 2 * n) == 1;
  }

  lemma BeforeFirst(n: nat)
    requires n > 0
    ensures (0 + n - 1) / n == 0
  {
  }

  /** An element that has the bits of a value, but another value, is taken for it. */
  lemma Misreported(s: Search, n: nat)
    requires s.arr.w in {1, 2, 4, 8, 16} && s.arr.Valid() && n == PerWord(s.arr.w) && s.arr.size == 2 * n
    requires s.c in {Equal, NotEqual} && !InRange(s.v, s.arr.w) && s.arr.Get(0) == Value(s.arr.w, Masked(s.v, s.arr.w))
    ensures s.At(0) in Compared(s, 0, 2 * n) <==> s.c == Equal
    ensures s.At(0) in s.Hits(0, 2 * n) <==> s.c == NotEqual
  {
    ElementInRange(s.arr, 0);
    ComparedTwo(s, n);
    FirstHit(s, 0, 2 * n);
    FirstHit(InWord(s), 0, n);
    HitsFrom(s, n, 2 * n);
  }

  lemma FirstHit(s: Search, lo: nat, hi: nat)
    requires s.arr.Valid() && lo < hi <= s.arr.size
    ensures s.At(lo) in s.Hits(lo, hi) <==> Holds(s.c, s.arr.Get(lo), s.v)
  {
    HitsFrom(s, lo + 1, hi);
  }

  lemma {:induction false} HitsFrom(s: Search, lo: nat, hi: nat)
    requires s.arr.Valid() && lo <= hi <= s.arr.size
    ensures forall h :: h in s.Hits(lo, hi) ==> h.index >= lo + s.base
    decreases hi - lo
  {
    if lo < hi {
      HitsFrom(s, lo + 1, hi);
    }
  }

  /** A search for 16 in 32 elements of four bits reports the first, which is 0. */
  lemma SixteenFound(arr: Packed)
    requires arr.w == 4 && arr.Valid() && arr.size == 32 && arr.Get(0) == 0
    ensures Hit(0, 0) in Compared(Search(arr, Equal, 16, 0), 0, 32)
  {
    assert Masked(16, 4) == 0;
    Misreported(Search(arr, Equal, 16, 0), 16);
  }
}
