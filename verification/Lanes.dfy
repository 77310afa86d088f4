/** A word of packed elements: `n` lanes of `w` bits, lane 0 lowest. All results hold for every
    number and width of lanes; the search works on words of 64 bits. */
module Lanes {
  import opened Bits
  import opened Words

  function Lane(w: nat, x: nat, i: nat): nat
    decreases i
  {
    if i == 0 then Low(x, w) else Lane(w, Shr(x, w), i - 1)
  }

  /** The number of bits of `n` lanes. */
  function Len(w: nat, n: nat): nat {
    if n == 0 then 0 else w + Len(w, n - 1)
  }

  /** The word with `c` in every lane. */
  function Fill(w: nat, n: nat, c: nat): nat {
    if n == 0 then 0 else Join(w, c, Fill(w, n - 1, c))
  }

  lemma {:induction false} FillBound(w: nat, n: nat, c: nat)
    ensures Fill(w, n, c) < Pow2(Len(w, n))
  {
    if n > 0 {
      FillBound(w, n - 1, c);
      JoinBound(w, Len(w, n - 1), c, Fill(w, n - 1, c));
    }
  }

  lemma {:induction false} FillLane(w: nat, n: nat, c: nat, i: nat)
    requires c < Pow2(w) && i < n
    ensures Lane(w, Fill(w, n, c), i) == c
    decreases n
  {
    PartsOfJoin(w, c, Fill(w, n - 1, c));
    if i > 0 {
      FillLane(w, n - 1, c, i - 1);
    }
  }

  /** Lanes of a shifted word. */
  lemma {:induction false} ShiftLane(w: nat, x: nat, k: nat, i: nat)
    ensures Lane(w, Shr(x, Len(w, k)), i) == Lane(w, x, k + i)
    decreases k
  {
    if k > 0 {
      ShrAdd(x, w, Len(w, k - 1));
      ShiftLane(w, Shr(x, w), k - 1, i);
    }
  }

  // ---------------------------------------------------------------- zero lanes

  ghost predicate HasZero(w: nat, n: nat, v: nat)
    decreases n
  {
    n > 0 && (Low(v, w) == 0 || HasZero(w, n - 1, Shr(v, w)))
  }

  ghost predicate AllZero(w: nat, n: nat, v: nat)
    decreases n
  {
    n == 0 || (Low(v, w) == 0 && AllZero(w, n - 1, Shr(v, w)))
  }

  /** What the two say about the single lanes. */
  lemma {:induction false} ZeroLanes(w: nat, n: nat, v: nat, i: nat)
    requires i < n
    ensures AllZero(w, n, v) ==> Lane(w, v, i) == 0
    ensures Lane(w, v, i) == 0 ==> HasZero(w, n, v)
    decreases n
  {
    if i > 0 {
      ZeroLanes(w, n - 1, Shr(v, w), i - 1);
    }
  }

  lemma {:induction false} ZeroLane(w: nat, n: nat, v: nat) returns (i: nat)
    requires HasZero(w, n, v)
    ensures i < n && Lane(w, v, i) == 0
    decreases n
  {
    if Low(v, w) == 0 {
      i := 0;
    } else {
      i := ZeroLane(w, n - 1, Shr(v, w));
      i := i + 1;
    }
  }

  /** Subtraction modulo 2^k, with a borrow `b`. */
  function Diff(x: nat, y: nat, b: nat, k: nat): nat
    requires y < Pow2(k) && b <= 1
  {
    Low(x + (Pow2(k) - y) - b, k)
  }

  /** `d & ~v & upper`. */
  function Isolate(d: nat, v: nat, upper: nat, k: nat): nat {
    And(And(d, Not(v, k), k), upper, k)
  }

  /** The borrow trick on `k` bits. */
  function Tested(v: nat, lower: nat, upper: nat, k: nat): bool
    requires lower < Pow2(k)
  {
    Isolate(Diff(v, lower, 0, k), v, upper, k) != 0
  }

  /** `test_zero`. */
  function TestZero(w: nat, n: nat, v: nat): bool
    requires w > 0
  {
    FillBound(w, n, 1);
    Tested(v, Fill(w, n, 1), Fill(w, n, Pow2(w - 1)), Len(w, n))
  }

  predicate Top(w: nat, x: nat)
    requires w > 0
  {
    x >= Pow2(w - 1)
  }

  /** The top bit of a lane that `test_zero` isolates. */
  lemma {:induction false} TopBit(w: nat, d: nat, v: nat)
    requires w > 0 && d < Pow2(w) && v < Pow2(w)
    ensures And(And(d, Not(v, w), w), Pow2(w - 1), w) == if Top(w, d) && !Top(w, v) then Pow2(w - 1) else 0
  {
    if w > 1 {
      TopBit(w - 1, d / 2, v / 2);
      assert Pow2(w - 1) / 2 == Pow2(w - 2) && Pow2(w - 1) % 2 == 0;
    }
  }

  /** Subtraction lane by lane: the lowest lane borrows from the others exactly when it is less than
      what is taken from it. */
  lemma DiffLane(w: nat, k: nat, x0: nat, x': nat, y0: nat, y': nat, b: nat)
    requires x0 < Pow2(w) && y0 < Pow2(w) && y' < Pow2(k) && b <= 1
    ensures Join(w, y0, y') < Pow2(w + k)
    ensures var b' := if x0 < y0 + b then 1 else 0;
            && 0 <= x0 + b' * Pow2(w) - y0 - b < Pow2(w)
            && Diff(Join(w, x0, x'), Join(w, y0, y'), b, w + k)
               == Join(w, x0 + b' * Pow2(w) - y0 - b, Diff(x', y', b', k))
  {
    JoinBound(w, k, y0, y');
    var p, m, b' := Pow2(w), Pow2(k), if x0 < y0 + b then 1 else 0;
    Pow2Add(w, k);
    JoinIs(w, x0, x');
    JoinIs(w, y0, y');
    var d, z := x0 + b' * p - y0 - b, x' + (m - y') - b';
    Distribute(p, x', m, y', b');
    JoinIs(w, d, z);
    LowJoin(w, k, d, z);
  }

  lemma Distribute(p: nat, x': nat, m: nat, y': nat, b': nat)
    requires b' <= 1
    ensures p * x' + (p * m - p * y') == b' * p + p * (x' + (m - y') - b')
  {
    assert p * (x' + (m - y')) == p * x' + p * m - p * y';
    assert p * (x' + (m - y') - b') == p * (x' + (m - y')) - p * b';
  }

  lemma {:induction false} LowJoin(j: nat, k: nat, a: nat, b: nat)
    ensures Low(Join(j, a, b), j + k) == Join(j, a, Low(b, k))
    decreases j
  {
    if j > 0 {
      LowJoin(j - 1, k, a / 2, b);
    }
  }

  lemma IsolateLane(w: nat, k: nat, v0: nat, v': nat, d: nat, u': nat)
    requires w > 0 && v0 < Pow2(w)
    ensures Isolate(d, Join(w, v0, v'), Join(w, Pow2(w - 1), u'), w + k)
            == Join(w, if Top(w, Low(d, w)) && !Top(w, v0) then Pow2(w - 1) else 0, Isolate(Shr(d, w), v', u', k))
  {
    var d0, d' := Low(d, w), Shr(d, w);
    JoinParts(d, w);
    LowBound(d, w);
    NotJoin(w, v0, v', k);
    OpJoin(AndGate, w, d0, d', Not(v0, w), Not(v', k), k);
    OpJoin(AndGate, w, And(d0, Not(v0, w), w), And(d', Not(v', k), k), Pow2(w - 1), u', k);
    TopBit(w, d0, v0);
  }

  /** One lane of the test: `r'` and `u'` are the constants for the lanes above. */
  lemma TestLane(w: nat, k: nat, v0: nat, v': nat, r': nat, u': nat)
    requires w > 0 && v0 < Pow2(w) && r' < Pow2(k)
    ensures Join(w, 1, r') < Pow2(w + k)
    ensures Tested(Join(w, v0, v'), Join(w, 1, r'), Join(w, Pow2(w - 1), u'), w + k) <==>
            v0 == 0 || Tested(v', r', u', k)
  {
    DiffLane(w, k, v0, v', 1, r', 0);
    var d := Diff(Join(w, v0, v'), Join(w, 1, r'), 0, w + k);
    IsolateLane(w, k, v0, v', d, u');
    var d0, d' := (if v0 > 0 then v0 - 1 else Pow2(w) - 1), Diff(v', r', if v0 > 0 then 0 else 1, k);
    PartsOfJoin(w, d0, d');
    JoinZero(w, if Top(w, d0) && !Top(w, v0) then Pow2(w - 1) else 0, Isolate(d', v', u', k));
  }

  /** The constants of the test, one lane further. */
  lemma FillStep(w: nat, n: nat, c: nat)
    requires n > 0
    ensures Fill(w, n, c) == Join(w, c, Fill(w, n - 1, c)) && Len(w, n) == w + Len(w, n - 1)
    ensures Fill(w, n - 1, c) < Pow2(Len(w, n - 1))
  {
    FillBound(w, n - 1, c);
  }

  lemma TestSplit(w: nat, n: nat, v: nat)
    requires w > 0 && n > 0
    ensures TestZero(w, n, v) <==> Low(v, w) == 0 || TestZero(w, n - 1, Shr(v, w))
  {
    JoinParts(v, w);
    LowBound(v, w);
    FillStep(w, n, 1);
    FillStep(w, n, Pow2(w - 1));
    TestLane(w, Len(w, n - 1), Low(v, w), Shr(v, w), Fill(w, n - 1, 1), Fill(w, n - 1, Pow2(w - 1)));
  }

  /** `test_zero` tells exactly whether some lane is zero, although a borrow may disturb the lanes
      above the first zero. */
  lemma {:induction false} TestZeroExact(w: nat, n: nat, v: nat)
    requires w > 0
    ensures TestZero(w, n, v) <==> HasZero(w, n, v)
    decreases n
  {
    if n > 0 {
      TestZeroExact(w, n - 1, Shr(v, w));
      TestSplit(w, n, v);
    } else {
      assert Len(w, n) == 0;
    }
  }

  // ---------------------------------------------------------------- finding a zero lane

  /** Words of 64 bits with lanes of `w` bits. */
  predicate Packed(w: nat, n: nat) {
    w > 0 && Len(w, n) == 64
  }

  /** Words can be halved, or quartered, where the bisection does so. */
  predicate Halves(w: nat, n: nat) {
    (w <= 8 ==> n % 2 == 0) && (w <= 4 ==> n % 4 == 0)
  }

  /** The word whose lowest `k` bits are clear and whose other bits, up to bit 63, are set. */
  function HighMask(k: nat): nat
    requires k <= 64
  {
    Join(k, 0, Pow2(BITS - k) - 1)
  }

  lemma Powers()
    ensures Pow2(16) == 0x1_0000 && Pow2(32) == 0x1_0000_0000 && Pow2(48) == 0x1_0000_0000_0000 && Pow2(BITS) == WORD
  {
    assert Pow2(8) == 0x100;
    Pow2Add(8, 8);
    Pow2Add(16, 16);
    Pow2Add(16, 32);
    Pow2Add(32, 32);
  }

  lemma HighMaskIs(k: nat)
    requires k <= 64
    ensures HighMask(k) == Pow2(BITS) - Pow2(k)
  {
    JoinIs(k, 0, Pow2(BITS - k) - 1);
    Pow2Add(k, BITS - k);
    assert Pow2(k) * (Pow2(BITS - k) - 1) == Pow2(k) * Pow2(BITS - k) - Pow2(k);
  }

  /** With the lanes from `h` on set to ones, the test is about the first `h` lanes. */
  lemma {:induction false} TestLow(w: nat, h: nat, m: nat, v: nat)
    requires w > 0 && v < Pow2(Len(w, h) + Len(w, m))
    ensures HasZero(w, h + m, Or(v, Join(Len(w, h), 0, Pow2(Len(w, m)) - 1), Len(w, h) + Len(w, m))) <==>
            HasZero(w, h, v)
    decreases h
  {
    var ones := Pow2(Len(w, m)) - 1;
    if h == 0 {
      WithOnes(v, Len(w, m));
      OnesNonzero(w, m);
    } else {
      var j, k := Len(w, h - 1), Len(w, m);
      ShrBound(v, w, j + k);
      OrLane(w, j, k, v, ones);
      TestLow(w, h - 1, m, Shr(v, w));
    }
  }

  lemma OrLane(w: nat, j: nat, k: nat, v: nat, ones: nat)
    ensures var x := Or(v, Join(w + j, 0, ones), w + (j + k));
            Low(x, w) == Low(v, w) && Shr(x, w) == Or(Shr(v, w), Join(j, 0, ones), j + k)
  {
    JoinParts(v, w);
    JoinJoin(w, j, 0, 0, ones);
    OpJoin(OrGate, w, Low(v, w), Shr(v, w), 0, Join(j, 0, ones), j + k);
    LowBound(v, w);
    WithZero(Low(v, w), w);
    PartsOfJoin(w, Low(v, w), Or(Shr(v, w), Join(j, 0, ones), j + k));
  }

  lemma {:induction false} JoinJoin(i: nat, j: nat, a: nat, a': nat, b: nat)
    requires a == 0 && a' == 0
    ensures Join(i + j, 0, b) == Join(i, a, Join(j, a', b))
    decreases i
  {
    if i > 0 {
      JoinJoin(i - 1, j, 0, 0, b);
    }
  }

  lemma {:induction false} OnesNonzero(w: nat, m: nat)
    requires w > 0
    ensures !HasZero(w, m, Pow2(Len(w, m)) - 1)
  {
    if m > 0 {
      var k := Len(w, m - 1);
      OnesJoin(w, k);
      PartsOfJoin(w, Pow2(w) - 1, Pow2(k) - 1);
      OnesNonzero(w, m - 1);
    }
  }

  lemma {:induction false} OnesJoin(j: nat, k: nat)
    ensures Pow2(j + k) - 1 == Join(j, Pow2(j) - 1, Pow2(k) - 1)
    decreases j
  {
    if j > 0 {
      OnesJoin(j - 1, k);
      assert (Pow2(j) - 1) / 2 == Pow2(j - 1) - 1 && (Pow2(j) - 1) % 2 == 1;
    }
  }

  /** `v & (2^k - 1)`, of a word with `j` more bits. */
  lemma {:induction false} AndLow(v: nat, k: nat, j: nat)
    ensures And(v, Pow2(k) - 1, k + j) == Low(v, k)
    decreases k
  {
    if k > 0 {
      AndLow(v / 2, k - 1, j);
      assert (Pow2(k) - 1) / 2 == Pow2(k - 1) - 1 && (Pow2(k) - 1) % 2 == 1;
    } else {
      AndNone(v, j);
    }
  }

  lemma {:induction false} AndNone(v: nat, j: nat)
    ensures And(v, 0, j) == 0
  {
    if j > 0 {
      AndNone(v / 2, j - 1);
    }
  }

  lemma {:induction false} LowLanes(w: nat, h: nat, v: nat)
    ensures Low(v, Len(w, h)) == 0 <==> AllZero(w, h, v)
    decreases h
  {
    if h > 0 {
      LowLanes(w, h - 1, Shr(v, w));
      LowParts(v, w, Len(w, h - 1));
      LowBound(v, w);
      JoinZero(w, Low(v, w), Low(Shr(v, w), Len(w, h - 1)));
    }
  }

  lemma {:induction false} LowParts(v: nat, j: nat, k: nat)
    ensures Low(v, j + k) == Join(j, Low(v, j), Low(Shr(v, j), k))
    decreases j
  {
    if j > 0 {
      LowParts(v / 2, j - 1, k);
    }
  }

  /** The lane that `find_zero` looks for: the first that is zero, or the first that is not. */
  predicate Sought(eq: bool, w: nat, v: nat, i: nat) {
    eq == (Lane(w, v, i) == 0)
  }

  ghost predicate NoneBelow(eq: bool, w: nat, v: nat, h: nat) {
    forall i :: 0 <= i < h ==> !Sought(eq, w, v, i)
  }

  /** One bisection test: whether the lowest `h` lanes, of `Len(w, h)` bits, can be skipped. */
  function Skip(eq: bool, w: nat, n: nat, h: nat, v: nat): bool
    requires w > 0 && Len(w, h) <= 64
  {
    if eq then !TestZero(w, n, Or(v, HighMask(Len(w, h)), BITS)) else And(v, Pow2(Len(w, h)) - 1, BITS) == 0
  }

  lemma {:induction false} LenAdd(w: nat, a: nat, b: nat)
    ensures Len(w, a + b) == Len(w, a) + Len(w, b)
    decreases a
  {
    if a > 0 {
      LenAdd(w, a - 1, b);
    }
  }

  lemma MaskFor(w: nat, h: nat, k: nat, p: nat)
    requires Len(w, h) == k <= 64 && Pow2(k) == p <= WORD == Pow2(BITS)
    ensures SkipMasks(w, h, WORD - p, p - 1)
  {
    HighMaskIs(k);
  }

  /** The masks of `find_zero`: half of the lanes are the lower 32 bits, and what the bisection sets
      or keeps there is the constant in the code. */
  lemma HalfMasks(w: nat, h: nat)
    requires Packed(w, h + h)
    ensures Len(w, h) == 32 && SkipMasks(w, h, 0xffff_ffff_0000_0000, 0xffff_ffff)
  {
    LenAdd(w, h, h);
    Powers();
    MaskFor(w, h, Len(w, h), 0x1_0000_0000);
  }

  /** A quarter of the lanes are the lower 16 bits, and three quarters the lower 48 bits. */
  lemma QuarterMasks(w: nat, q: nat)
    requires Packed(w, q + q + (q + q))
    ensures Len(w, q) == 16 && SkipMasks(w, q, 0xffff_ffff_ffff_0000, 0xffff)
    ensures Len(w, q + q + q) == 48 && SkipMasks(w, q + q + q, 0xffff_0000_0000_0000, 0xffff_ffff_ffff)
  {
    LenAdd(w, q, q);
    LenAdd(w, q + q, q + q);
    LenAdd(w, q + q, q);
    Powers();
    MaskFor(w, q, Len(w, q), 0x1_0000);
    MaskFor(w, q + q + q, Len(w, q + q + q), 0x1_0000_0000_0000);
  }

  /** The two masks with which the bisection tests the lowest `h` lanes. */
  predicate SkipMasks(w: nat, h: nat, set_: nat, keep: nat) {
    Len(w, h) <= 64 && HighMask(Len(w, h)) == set_ && Pow2(Len(w, h)) - 1 == keep
  }

  lemma SkipSound(eq: bool, w: nat, n: nat, h: nat, v: nat)
    requires Packed(w, n) && h <= n && v < Pow2(BITS)
    ensures Len(w, h) <= 64 && (Skip(eq, w, n, h, v) ==> NoneBelow(eq, w, v, h))
  {
    LenAdd(w, h, n - h);
    if eq {
      SkipZero(w, n, h, v);
    } else {
      SkipNonzero(w, h, v);
    }
  }

  lemma SkipZero(w: nat, n: nat, h: nat, v: nat)
    requires Packed(w, n) && h <= n && v < Pow2(BITS) && Len(w, h) + Len(w, n - h) == 64
    ensures !TestZero(w, n, Or(v, HighMask(Len(w, h)), BITS)) ==> NoneBelow(true, w, v, h)
  {
    MaskedZero(w, n, h, v);
    TestZeroExact(w, n, Or(v, HighMask(Len(w, h)), BITS));
    NoZero(w, h, v);
  }

  lemma MaskedZero(w: nat, n: nat, h: nat, v: nat)
    requires Packed(w, n) && h <= n && v < Pow2(BITS) && Len(w, h) + Len(w, n - h) == 64
    ensures HasZero(w, n, Or(v, HighMask(Len(w, h)), BITS)) <==> HasZero(w, h, v)
  {
    TestLow(w, h, n - h, v);
  }

  lemma NoZero(w: nat, h: nat, v: nat)
    ensures !HasZero(w, h, v) ==> NoneBelow(true, w, v, h)
  {
    forall i | 0 <= i < h && Lane(w, v, i) == 0 ensures HasZero(w, h, v) {
      ZeroLanes(w, h, v, i);
    }
  }

  lemma SkipNonzero(w: nat, h: nat, v: nat)
    requires w > 0 && Len(w, h) <= 64
    ensures And(v, Pow2(Len(w, h)) - 1, BITS) == 0 ==> NoneBelow(false, w, v, h)
  {
    AndLow(v, Len(w, h), BITS - Len(w, h));
    LowLanes(w, h, v);
    forall i | 0 <= i < h && AllZero(w, h, v) ensures Lane(w, v, i) == 0 {
      ZeroLanes(w, h, v, i);
    }
  }

  /** `find_zero`: the first lane that is zero, or not zero, of a word that has one. */
  method FindZero(eq: bool, w: nat, n: nat, v: nat) returns (start: nat)
    requires Packed(w, n) && v < Pow2(BITS) && Halves(w, n)
    requires exists i :: 0 <= i < n && Sought(eq, w, v, i)
    ensures start < n && Sought(eq, w, v, start) && NoneBelow(eq, w, v, start)
  {
    start := 0;
    if eq == (Low(v, w) == 0) {
      return;
    }
    if w <= 8 {
      start := Bisect(eq, w, n, v);
    }
    start := Walk(eq, w, n, v, start);
  }

  /** From a lane below which none is sought, step by step to the first. */
  method Walk(eq: bool, w: nat, ghost n: nat, v: nat, from: nat) returns (start: nat)
    requires NoneBelow(eq, w, v, from) && exists i :: 0 <= i < n && Sought(eq, w, v, i)
    ensures start < n && Sought(eq, w, v, start) && NoneBelow(eq, w, v, start)
  {
    ghost var i :| 0 <= i < n && Sought(eq, w, v, i);
    start := from;
    ShiftLane(w, v, start, 0);
    while eq == (Low(Shr(v, Len(w, start)), w) != 0)
      invariant start <= i && NoneBelow(eq, w, v, start) && Low(Shr(v, Len(w, start)), w) == Lane(w, v, start)
      decreases i - start
    {
      start := start + 1;
      ShiftLane(w, v, start, 0);
    }
  }

  method Bisect(eq: bool, w: nat, n: nat, v: nat) returns (start: nat)
    requires Packed(w, n) && v < Pow2(BITS) && w <= 8 && Halves(w, n)
    ensures start < n && NoneBelow(eq, w, v, start)
  {
    start := 0;
    SkipSound(eq, w, n, n / 2, v);
    if Skip(eq, w, n, n / 2, v) {
      start := start + n / 2;
      if w <= 4 {
        SkipSound(eq, w, n, n / 2 + n / 4, v);
        if Skip(eq, w, n, n / 2 + n / 4, v) {
          start := start + n / 4;
        }
      }
    } else if w <= 4 {
      SkipSound(eq, w, n, n / 4, v);
      if Skip(eq, w, n, n / 4, v) {
        start := start + n / 4;
      }
    }
  }

  // ---------------------------------------------------------------- comparing lanes

  /** A lane of `x ^ y` is zero where the lanes of `x` and `y` agree. */
  lemma {:induction false} XorLane(w: nat, n: nat, x: nat, y: nat, j: nat)
    requires j < n
    ensures Lane(w, Xor(x, y, Len(w, n)), j) == 0 <==> Lane(w, x, j) == Lane(w, y, j)
    decreases n
  {
    var k, a, b := Len(w, n - 1), Xor(Low(x, w), Low(y, w), w), Xor(Shr(x, w), Shr(y, w), Len(w, n - 1));
    JoinParts(x, w);
    JoinParts(y, w);
    OpJoin(XorGate, w, Low(x, w), Shr(x, w), Low(y, w), Shr(y, w), k);
    OpBound(XorGate, Low(x, w), Low(y, w), w);
    PartsOfJoin(w, a, b);
    if j > 0 {
      XorLane(w, n - 1, Shr(x, w), Shr(y, w), j - 1);
    } else {
      LowBound(x, w);
      LowBound(y, w);
      XorZero(Low(x, w), Low(y, w), w);
    }
  }

  /** A word that is not 0 has a lane that is not 0. */
  lemma {:induction false} NonzeroLane(w: nat, n: nat, v: nat) returns (i: nat)
    requires 0 < v < Pow2(Len(w, n))
    ensures i < n && Lane(w, v, i) != 0
    decreases n
  {
    if Low(v, w) != 0 {
      i := 0;
    } else {
      JoinParts(v, w);
      JoinZero(w, 0, Shr(v, w));
      ShrBound(v, w, Len(w, n - 1));
      i := NonzeroLane(w, n - 1, Shr(v, w));
      i := i + 1;
    }
  }

  lemma {:induction false} ZeroHasNoLane(w: nat, i: nat)
    ensures Lane(w, 0, i) == 0
  {
    if i > 0 {
      ShrOfZero(w);
      ZeroHasNoLane(w, i - 1);
    } else {
      LowOfZero(w);
    }
  }

  lemma {:induction false} ShrOfZero(w: nat)
    ensures Shr(0, w) == 0
  {
    if w > 0 {
      ShrOfZero(w - 1);
    }
  }

  lemma {:induction false} LowOfZero(w: nat)
    ensures Low(0, w) == 0
  {
    if w > 0 {
      LowOfZero(w - 1);
    }
  }
}
