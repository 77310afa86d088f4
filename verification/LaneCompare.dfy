/** Lanes greater than a value, found in a whole word at once, and the position of the lowest set
    bit by De Bruijn multiplication. */
module LaneCompare {
  import opened Bits
  import opened Lanes
  import opened Words

  // ---------------------------------------------------------------- first_set_bit

  function TrailingZeros(v: nat): nat
    requires v > 0
  {
    if v % 2 == 1 then 0 else 1 + TrailingZeros(v / 2)
  }

  const POSITIONS: seq<nat> := [0, 1, 28, 2, 29, 14, 24, 3, 30, 22, 20, 15, 25, 17, 4, 8,
                                31, 27, 13, 23, 21, 19, 16, 7, 26, 12, 18, 6, 11, 5, 10, 9]

  function DeBruijn(low: nat): (r: nat)
    ensures r < 32
  {
    low * 0x077C_B531 % 0x1_0000_0000 / 0x800_0000
  }

  /** `first_set_bit` of a 32-bit word that is not 0. */
  function FirstSetBit(v: nat): nat
    requires 0 < v < 0x1_0000_0000
  {
    if v == 0x8000_0000 then 31 else POSITIONS[DeBruijn(And(v, 0x1_0000_0000 - v, HALF))]
  }

  /** `first_set_bit64`. */
  function FirstSetBit64(v: nat): nat
    requires 0 < v < WORD
  {
    if v % 0x1_0000_0000 != 0 then FirstSetBit(v % 0x1_0000_0000) else FirstSetBit(v / 0x1_0000_0000) + 32
  }

  lemma {:induction false} AndNot(x: nat, k: nat)
    requires x < Pow2(k)
    ensures And(x, Pow2(k) - 1 - x, k) == 0
  {
    if k > 0 {
      AndNot(x / 2, k - 1);
      assert (Pow2(k) - 1 - x) / 2 == Pow2(k - 1) - 1 - x / 2;
    }
  }

  /** `v & -v` isolates the lowest set bit. */
  lemma {:induction false} LowestBit(v: nat, k: nat)
    requires 0 < v < Pow2(k)
    ensures TrailingZeros(v) < k && And(v, Pow2(k) - v, k) == Pow2(TrailingZeros(v))
  {
    if v % 2 == 1 {
      assert (Pow2(k) - v) / 2 == Pow2(k - 1) - 1 - v / 2;
      AndNot(v / 2, k - 1);
    } else {
      LowestBit(v / 2, k - 1);
      assert (Pow2(k) - v) / 2 == Pow2(k - 1) - v / 2;
    }
  }

  /** The multiplier sends the 32 powers of two to different table entries. */
  lemma Positions(k: nat)
    requires k < 32
    ensures POSITIONS[DeBruijn(Pow2(k))] == k
  {
    if k < 8 {
      FirstPositions(k);
    } else if k < 16 {
      SecondPositions(k);
    } else if k < 24 {
      ThirdPositions(k);
    } else {
      FourthPositions(k);
    }
  }

  lemma FirstPositions(k: nat)
    requires 0 <= k < 8
    ensures POSITIONS[DeBruijn(Pow2(k))] == k
  {
    PowerTable();
    DeBruijnTable();
    assert k in {0, 1, 2, 3, 4, 5, 6, 7};
  }

  lemma SecondPositions(k: nat)
    requires 8 <= k < 16
    ensures POSITIONS[DeBruijn(Pow2(k))] == k
  {
    PowerTable();
    DeBruijnTable();
    assert k in {8, 9, 10, 11, 12, 13, 14, 15};
  }

  lemma ThirdPositions(k: nat)
    requires 16 <= k < 24
    ensures POSITIONS[DeBruijn(Pow2(k))] == k
  {
    PowerTable();
    DeBruijnTable();
    assert k in {16, 17, 18, 19, 20, 21, 22, 23};
  }

  lemma FourthPositions(k: nat)
    requires 24 <= k < 32
    ensures POSITIONS[DeBruijn(Pow2(k))] == k
  {
    PowerTable();
    DeBruijnTable();
    assert k in {24, 25, 26, 27, 28, 29, 30, 31};
  }

  lemma DeBruijnTable()
    ensures DeBruijn(0x1) == 0 && DeBruijn(0x2) == 1 && DeBruijn(0x4) == 3 && DeBruijn(0x8) == 7
    ensures DeBruijn(0x10) == 14 && DeBruijn(0x20) == 29 && DeBruijn(0x40) == 27 && DeBruijn(0x80) == 23
    ensures DeBruijn(0x100) == 15 && DeBruijn(0x200) == 31 && DeBruijn(0x400) == 30 && DeBruijn(0x800) == 28
    ensures DeBruijn(0x1000) == 25 && DeBruijn(0x2000) == 18 && DeBruijn(0x4000) == 5 && DeBruijn(0x8000) == 11
    ensures DeBruijn(0x10000) == 22 && DeBruijn(0x20000) == 13 && DeBruijn(0x40000) == 26 && DeBruijn(0x80000) == 21
    ensures DeBruijn(0x100000) == 10 && DeBruijn(0x200000) == 20 && DeBruijn(0x400000) == 9 && DeBruijn(0x800000) == 19
    ensures DeBruijn(0x1000000) == 6 && DeBruijn(0x2000000) == 12 && DeBruijn(0x4000000) == 24 &&
            DeBruijn(0x8000000) == 17
    ensures DeBruijn(0x10000000) == 2 && DeBruijn(0x20000000) == 4 && DeBruijn(0x40000000) == 8 &&
            DeBruijn(0x80000000) == 16
  {
  }

  lemma PowerTable()
    ensures Pow2(0) == 0x1 && Pow2(1) == 0x2 && Pow2(2) == 0x4 && Pow2(3) == 0x8
    ensures Pow2(4) == 0x10 && Pow2(5) == 0x20 && Pow2(6) == 0x40 && Pow2(7) == 0x80
    ensures Pow2(8) == 0x100 && Pow2(9) == 0x200 && Pow2(10) == 0x400 && Pow2(11) == 0x800
    ensures Pow2(12) == 0x1000 && Pow2(13) == 0x2000 && Pow2(14) == 0x4000 && Pow2(15) == 0x8000
    ensures Pow2(16) == 0x10000 && Pow2(17) == 0x20000 && Pow2(18) == 0x40000 && Pow2(19) == 0x80000
    ensures Pow2(20) == 0x100000 && Pow2(21) == 0x200000 && Pow2(22) == 0x400000 && Pow2(23) == 0x800000
    ensures Pow2(24) == 0x1000000 && Pow2(25) == 0x2000000 && Pow2(26) == 0x4000000 && Pow2(27) == 0x8000000
    ensures Pow2(28) == 0x10000000 && Pow2(29) == 0x20000000 && Pow2(30) == 0x40000000 && Pow2(31) == 0x80000000
  {
  }

  lemma FirstSetBitExact(v: nat)
    requires 0 < v < 0x1_0000_0000
    ensures FirstSetBit(v) == TrailingZeros(v)
  {
    Powers();
    LowestBit(v, HALF);
    Positions(TrailingZeros(v));
    if v == 0x8000_0000 {
      TopBitOnly();
    }
  }

  lemma TopBitOnly()
    ensures TrailingZeros(0x8000_0000) == 31
  {
    PowerTable();
    TrailingPower(31);
  }

  lemma {:induction false} TrailingPower(k: nat)
    ensures TrailingZeros(Pow2(k)) == k
  {
    if k > 0 {
      TrailingPower(k - 1);
    }
  }

  lemma {:induction false} TrailingJoin(k: nat, a: nat, b: nat)
    requires a < Pow2(k)
    ensures a > 0 ==> Join(k, a, b) > 0 && TrailingZeros(Join(k, a, b)) == TrailingZeros(a)
    ensures a == 0 && b > 0 ==> Join(k, a, b) > 0 && TrailingZeros(Join(k, a, b)) == k + TrailingZeros(b)
  {
    if k > 0 {
      HalfJoin(k, a, b);
      TrailingJoin(k - 1, a / 2, b);
    }
  }

  lemma FirstSetBit64Exact(v: nat)
    requires 0 < v < WORD
    ensures FirstSetBit64(v) == TrailingZeros(v)
  {
    Powers();
    var a, b := v % 0x1_0000_0000, v / 0x1_0000_0000;
    JoinIs(HALF, a, b);
    TrailingJoin(HALF, a, b);
    if a != 0 {
      FirstSetBitExact(a);
    } else {
      FirstSetBitExact(b);
    }
  }

  // ---------------------------------------------------------------- lanes greater than a value

  /** The top bit of every lane that is greater than `v`. */
  ghost function Marks(w: nat, n: nat, chunk: nat, v: int): nat
    requires w > 0
    decreases n
  {
    if n == 0 then 0 else Join(w, if Low(chunk, w) > v then Pow2(w - 1) else 0, Marks(w, n - 1, Shr(chunk, w), v))
  }

  ghost predicate NoTop(w: nat, n: nat, chunk: nat)
    requires w > 0
    decreases n
  {
    n == 0 || (!Top(w, Low(chunk, w)) && NoTop(w, n - 1, Shr(chunk, w)))
  }

  lemma {:induction false} TopAnd(w: nat, x: nat)
    requires w > 0 && x < Pow2(w)
    ensures And(Pow2(w - 1), x, w) == (if Top(w, x) then Pow2(w - 1) else 0)
  {
    if w > 1 {
      TopAnd(w - 1, x / 2);
      assert Pow2(w - 1) / 2 == Pow2(w - 2) && Pow2(w - 1) % 2 == 0;
    }
  }

  lemma {:induction false} TopOr(w: nat, x: nat, y: nat)
    requires w > 0 && x < Pow2(w) && y < Pow2(w)
    ensures And(Or(x, y, w), Pow2(w - 1), w) == if Top(w, x) || Top(w, y) then Pow2(w - 1) else 0
  {
    if w > 1 {
      TopOr(w - 1, x / 2, y / 2);
      assert Pow2(w - 1) / 2 == Pow2(w - 2) && Pow2(w - 1) % 2 == 0;
    }
  }

  /** The test that no lane of a word has its top bit set. */
  lemma {:induction false} UpperTest(w: nat, n: nat, chunk: nat)
    requires w > 0
    ensures And(Fill(w, n, Pow2(w - 1)), chunk, Len(w, n)) == 0 <==> NoTop(w, n, chunk)
    decreases n
  {
    if n > 0 {
      var k, u' := Len(w, n - 1), Fill(w, n - 1, Pow2(w - 1));
      UpperTest(w, n - 1, Shr(chunk, w));
      JoinParts(chunk, w);
      OpJoin(AndGate, w, Pow2(w - 1), u', Low(chunk, w), Shr(chunk, w), k);
      LowBound(chunk, w);
      TopAnd(w, Low(chunk, w));
      JoinZero(w, And(Pow2(w - 1), Low(chunk, w), w), And(u', Shr(chunk, w), k));
    }
  }

  lemma JoinAdd(w: nat, a: nat, b: nat, c: nat, d: nat)
    requires a + c < Pow2(w)
    ensures Join(w, a, b) + Join(w, c, d) == Join(w, a + c, b + d)
  {
    JoinIs(w, a, b);
    JoinIs(w, c, d);
    JoinIs(w, a + c, b + d);
    assert Pow2(w) * (b + d) == Pow2(w) * b + Pow2(w) * d;
  }

  /** The greater-than test of `find_gtlt_fast`, on the sum of the word and the constant. */
  function GreaterWord(w: nat, n: nat, chunk: nat, sum: nat): nat
    requires w > 0
  {
    var k := Len(w, n);
    And(Or(Low(sum, k), chunk, k), Fill(w, n, Pow2(w - 1)), k)
  }

  /** The sum in the lowest lane, and what it leaves for the lanes above. */
  lemma SumLane(w: nat, k: nat, a: nat, a': nat, b: nat, b': nat)
    requires a < Pow2(w) && b < Pow2(w)
    ensures var carry := if a + b < Pow2(w) then 0 else 1;
            Low(Join(w, a, a') + Join(w, b, b'), w + k) == Join(w, a + b - carry * Pow2(w), Low(a' + b' + carry, k))
  {
    var carry := if a + b < Pow2(w) then 0 else 1;
    JoinIs(w, a, a');
    JoinIs(w, b, b');
    JoinIs(w, a + b - carry * Pow2(w), a' + b' + carry);
    Collect(Pow2(w), a', b', carry);
    LowJoin(w, k, a + b - carry * Pow2(w), a' + b' + carry);
  }

  lemma Collect(p: int, a: int, b: int, c: int)
    ensures p * a + p * b + c * p == p * (a + b + c)
  {
  }

  /** One lane of the greater-than test on a sum `s`. */
  lemma GreaterLane(w: nat, k: nat, s: nat, s': nat, c0: nat, c': nat, u': nat)
    requires w > 0 && s < Pow2(w) && c0 < Pow2(w - 1)
    ensures And(Or(Join(w, s, s'), Join(w, c0, c'), w + k), Join(w, Pow2(w - 1), u'), w + k)
            == Join(w, if Top(w, s) then Pow2(w - 1) else 0, And(Or(s', c', k), u', k))
  {
    OpJoin(OrGate, w, s, s', c0, c', k);
    OpJoin(AndGate, w, Or(s, c0, w), Or(s', c', k), Pow2(w - 1), u', k);
    TopOr(w, s, c0);
  }

  /** The test as a whole, one lane further. */
  lemma GreaterStep(w: nat, n: nat, c0: nat, c': nat, m0: nat, m': nat)
    requires w > 0 && n > 0 && c0 < Pow2(w - 1) && m0 < Pow2(w)
    ensures var carry := if c0 + m0 < Pow2(w) then 0 else 1;
            GreaterWord(w, n, Join(w, c0, c'), Join(w, c0, c') + Join(w, m0, m'))
            == Join(w, if Top(w, c0 + m0 - carry * Pow2(w)) then Pow2(w - 1) else 0,
                    GreaterWord(w, n - 1, c', c' + m' + carry))
  {
    var k, carry := Len(w, n - 1), if c0 + m0 < Pow2(w) then 0 else 1;
    FillStep(w, n, Pow2(w - 1));
    SumLane(w, k, c0, c', m0, m');
    GreaterLane(w, k, c0 + m0 - carry * Pow2(w), Low(c' + m' + carry, k), c0, c', Fill(w, n - 1, Pow2(w - 1)));
  }

  /** On words whose lanes have their top bits clear the addition does not carry from lane to lane,
      and marks exactly the greater lanes. */
  lemma {:induction false} GreaterMarks(w: nat, n: nat, chunk: nat, v: int)
    requires w > 0 && NoTop(w, n, chunk) && chunk < Pow2(Len(w, n)) && -1 <= v < Pow2(w - 1)
    ensures var magic := Fill(w, n, Pow2(w - 1) - 1 - v);
            chunk + magic < Pow2(Len(w, n)) && GreaterWord(w, n, chunk, chunk + magic) == Marks(w, n, chunk, v)
    decreases n
  {
    if n > 0 {
      var k, g, c0, c' := Len(w, n - 1), Pow2(w - 1) - 1 - v, Low(chunk, w), Shr(chunk, w);
      var m' := Fill(w, n - 1, g);
      JoinParts(chunk, w);
      ShrBound(chunk, w, k);
      GreaterMarks(w, n - 1, c', v);
      JoinAdd(w, c0, c', g, m');
      JoinBound(w, k, c0 + g, c' + m');
      GreaterStep(w, n, c0, c', g, m');
    }
  }

  /** The first marked lane, and how the lowest set bit tells it. */
  lemma {:induction false} FirstMark(w: nat, n: nat, chunk: nat, v: int) returns (t: nat)
    requires w > 0 && Marks(w, n, chunk, v) != 0
    ensures t < n && TrailingZeros(Marks(w, n, chunk, v)) == Len(w, t) + w - 1
    ensures Lane(w, chunk, t) > v && forall i :: 0 <= i < t ==> Lane(w, chunk, i) <= v
    decreases n
  {
    var c', m' := Shr(chunk, w), Marks(w, n - 1, Shr(chunk, w), v);
    var a := if Low(chunk, w) > v then Pow2(w - 1) else 0;
    JoinZero(w, a, m');
    TrailingJoin(w, a, m');
    if Low(chunk, w) > v {
      TrailingPower(w - 1);
      t := 0;
    } else {
      t := FirstMark(w, n - 1, c', v);
      forall i | 0 <= i < t + 1 ensures Lane(w, chunk, i) <= v {
        assert i > 0 ==> Lane(w, chunk, i) == Lane(w, c', i - 1);
      }
      t := t + 1;
    }
  }

  lemma {:induction false} NoMark(w: nat, n: nat, chunk: nat, v: int, i: nat)
    requires w > 0 && Marks(w, n, chunk, v) == 0 && i < n
    ensures Lane(w, chunk, i) <= v
    decreases n
  {
    JoinZero(w, if Low(chunk, w) > v then Pow2(w - 1) else 0, Marks(w, n - 1, Shr(chunk, w), v));
    if i > 0 {
      NoMark(w, n - 1, Shr(chunk, w), v, i - 1);
    }
  }

  lemma {:induction false} ShiftMarks(w: nat, n: nat, chunk: nat, v: int, t: nat)
    requires w > 0 && t <= n
    ensures Shr(Marks(w, n, chunk, v), Len(w, t)) == Marks(w, n - t, Shr(chunk, Len(w, t)), v)
    decreases t
  {
    if t > 0 {
      var a, m' := if Low(chunk, w) > v then Pow2(w - 1) else 0, Marks(w, n - 1, Shr(chunk, w), v);
      PartsOfJoin(w, a, m');
      ShrAdd(Marks(w, n, chunk, v), w, Len(w, t - 1));
      ShrAdd(chunk, w, Len(w, t - 1));
      ShiftMarks(w, n - 1, Shr(chunk, w), v, t - 1);
    }
  }

  // ---------------------------------------------------------------- constants, and the less-than test

  /** The constants are products, as the code computes them: `~0 / mask * c`. */
  lemma FillProduct(w: nat, n: nat, c: nat)
    requires w > 0 && c < Pow2(w)
    ensures Fill(w, n, c) == Fill(w, n, 1) * c && Fill(w, n, 1) * (Pow2(w) - 1) == Pow2(Len(w, n)) - 1
  {
    FillTimes(w, n, c);
    FillOnes(w, n);
  }

  lemma {:induction false} FillTimes(w: nat, n: nat, c: nat)
    requires w > 0 && c < Pow2(w)
    ensures Fill(w, n, c) == Fill(w, n, 1) * c
  {
    if n > 0 {
      FillTimes(w, n - 1, c);
      JoinIs(w, c, Fill(w, n - 1, c));
      JoinIs(w, 1, Fill(w, n - 1, 1));
      Expand(Pow2(w), Fill(w, n - 1, 1), c);
    }
  }

  lemma {:induction false} FillOnes(w: nat, n: nat)
    requires w > 0
    ensures Fill(w, n, 1) * (Pow2(w) - 1) == Pow2(Len(w, n)) - 1
  {
    if n > 0 {
      FillOnes(w, n - 1);
      JoinIs(w, 1, Fill(w, n - 1, 1));
      Pow2Add(w, Len(w, n - 1));
      OnesStep(Pow2(w), Fill(w, n - 1, 1), Pow2(Len(w, n - 1)));
    }
  }

  lemma Expand(b: int, r: int, c: int)
    ensures (1 + b * r) * c == c + b * (r * c)
  {
    MulAssoc(b, r, c);
    var x := b * r;
    assert (1 + x) * c == c + x * c;
  }

  lemma OnesStep(b: int, r: int, m: int)
    requires r * (b - 1) == m - 1
    ensures (1 + b * r) * (b - 1) == b * m - 1
  {
    Expand(b, r, b - 1);
    assert b * (m - 1) == b * m - b;
  }

  // ---------------------------------------------------------------- when the greater-than test is right

  /** What `find_gtlt_magic` puts in every lane, if it fits there. */
  function MagicLane(gt: bool, w: nat, v: int): int
    requires w > 0
  {
    if gt then Pow2(w - 1) - 1 - v else v
  }

  /** The constant of `find_gtlt_magic`, a product modulo the size of a word. */
  function Magic(gt: bool, w: nat, n: nat, v: int): nat
    requires w > 0
  {
    Fill(w, n, 1) * MagicLane(gt, w, v) % Pow2(Len(w, n))
  }

  /** On every word whose lanes have their top bits clear, the marked lanes are the greater ones. */
  ghost predicate GreaterRight(w: nat, n: nat, v: int)
    requires w > 0
  {
    forall chunk: nat {:trigger NoTop(w, n, chunk)} :: chunk < Pow2(Len(w, n)) && NoTop(w, n, chunk) ==>
      GreaterWord(w, n, chunk, chunk + Magic(true, w, n, v)) == Marks(w, n, chunk, v)
  }

  lemma MagicIsFill(gt: bool, w: nat, n: nat, v: int)
    requires w > 0 && 0 <= MagicLane(gt, w, v) < Pow2(w)
    ensures Magic(gt, w, n, v) == Fill(w, n, MagicLane(gt, w, v))
    ensures n > 0 ==> Low(Magic(gt, w, n, v), w) == MagicLane(gt, w, v)
  {
    var c := MagicLane(gt, w, v);
    FillTimes(w, n, c);
    FillBound(w, n, c);
    SmallMod(Fill(w, n, c), Pow2(Len(w, n)));
    if n > 0 {
      PartsOfJoin(w, c, Fill(w, n - 1, c));
    }
  }

  lemma SmallMod(x: nat, m: nat)
    requires x < m
    ensures x % m == x
  {
  }

  /** Unless every lane of the constant is `t`, which is no mark or a mark, some word with top bits
      clear has a lane with the other mark. */
  lemma {:induction false} Telling(w: nat, n: nat, magic: nat, t: nat) returns (chunk: nat)
    requires w > 0 && (t == 0 || t == Pow2(w - 1)) && magic < Pow2(Len(w, n)) && magic != Fill(w, n, t)
    ensures chunk < Pow2(Len(w, n)) && NoTop(w, n, chunk) && GreaterWord(w, n, chunk, chunk + magic) != Fill(w, n, t)
    decreases n
  {
    var k, m0, m' := Len(w, n - 1), Low(magic, w), Shr(magic, w);
    JoinParts(magic, w);
    LowBound(magic, w);
    ShrBound(magic, w, k);
    var c0, c' := 0, 0;
    if m0 == t {
      c' := Telling(w, n - 1, m', t);
    } else {
      c0 := OtherMark(w, m0, t);
      ZeroNoTop(w, n - 1);
    }
    chunk := Join(w, c0, c');
    PartsOfJoin(w, c0, c');
    JoinBound(w, k, c0, c');
    TellingLane(w, n, c0, c', m0, m', t);
  }

  /** The lane that the sum leaves below the carry. */
  function Wrapped(w: nat, x: nat): nat
    requires x < 2 * Pow2(w)
  {
    if x < Pow2(w) then x else x - Pow2(w)
  }

  lemma TellingLane(w: nat, n: nat, c0: nat, c': nat, m0: nat, m': nat, t: nat)
    requires w > 0 && n > 0 && c0 < Pow2(w - 1) && m0 < Pow2(w) && (t == 0 || t == Pow2(w - 1))
    requires (Top(w, Wrapped(w, c0 + m0)) <==> t == 0) ||
             (c0 == 0 && m0 == t && GreaterWord(w, n - 1, c', c' + m') != Fill(w, n - 1, t))
    ensures GreaterWord(w, n, Join(w, c0, c'), Join(w, c0, c') + Join(w, m0, m')) != Fill(w, n, t)
  {
    var carry, a := (if c0 + m0 < Pow2(w) then 0 else 1), if Top(w, Wrapped(w, c0 + m0)) then Pow2(w - 1) else 0;
    GreaterStep(w, n, c0, c', m0, m');
    PartsOfJoin(w, a, GreaterWord(w, n - 1, c', c' + m' + carry));
    PartsOfJoin(w, t, Fill(w, n - 1, t));
  }

  /** A summand that gives the lane the other mark. */
  lemma OtherMark(w: nat, m0: nat, t: nat) returns (c0: nat)
    requires w > 0 && (t == 0 || t == Pow2(w - 1)) && m0 < Pow2(w) && m0 != t
    ensures c0 < Pow2(w - 1) && (Top(w, Wrapped(w, c0 + m0)) <==> t == 0)
  {
    c0 := if Top(w, m0) then (if t == 0 then 0 else Pow2(w) - m0) else (if t == 0 then Pow2(w - 1) - m0 else 0);
  }

  lemma {:induction false} ZeroNoTop(w: nat, n: nat)
    requires w > 0
    ensures NoTop(w, n, 0)
  {
    if n > 0 {
      LowOfZero(w);
      ShrOfZero(w);
      ZeroNoTop(w, n - 1);
    }
  }

  /** Below 0 every lane is greater, and from the largest lane on none is. */
  lemma {:induction false} MarksUniform(w: nat, n: nat, chunk: nat, v: int)
    requires w > 0 && NoTop(w, n, chunk)
    ensures v < 0 ==> Marks(w, n, chunk, v) == Fill(w, n, Pow2(w - 1))
    ensures v >= Pow2(w - 1) - 1 ==> Marks(w, n, chunk, v) == Fill(w, n, 0)
    decreases n
  {
    if n > 0 {
      MarksUniform(w, n - 1, Shr(chunk, w), v);
    }
  }

  lemma UniformMagic(w: nat, n: nat, v: int, t: nat)
    requires w > 0 && GreaterRight(w, n, v)
    requires (v < 0 && t == Pow2(w - 1)) || (v >= Pow2(w - 1) - 1 && t == 0)
    ensures Magic(true, w, n, v) == Fill(w, n, t)
  {
    if Magic(true, w, n, v) != Fill(w, n, t) {
      var chunk := Telling(w, n, Magic(true, w, n, v), t);
      MarksUniform(w, n, chunk, v);
    }
  }

  /** Two factors, a word apart at most, that give the same constant are equal. */
  lemma SameMagic(w: nat, n: nat, g: int, t: nat)
    requires w > 0 && n > 0 && t < Pow2(w) && -(Pow2(Len(w, n)) as int) < g - t < Pow2(Len(w, n))
    requires Fill(w, n, 1) * g % Pow2(Len(w, n)) == Fill(w, n, t)
    ensures g == t
  {
    var f, m := Fill(w, n, 1), Pow2(Len(w, n));
    HalfJoin(w, 1, Fill(w, n - 1, 1));
    FillTimes(w, n, t);
    var q := Congruent(f, g, t, m);
    var r := OddFactor(g - t, f, q, Len(w, n));
    Multiple(r, m);
  }

  lemma Congruent(f: int, g: int, t: int, m: nat) returns (q: int)
    requires m > 0 && f * g % m == f * t
    ensures (g - t) * f == q * m
  {
    var x := f * g;
    q := x / m;
    assert x == m * q + x % m;
    assert (g - t) * f == x - f * t;
  }

  lemma Multiple(r: int, m: int)
    requires m > 0
    ensures (r > 0 ==> r * m >= m) && (r < 0 ==> r * m <= -m)
  {
  }

  /** For a value of a word's signed range, the greater-than test is right on all words with top bits
      clear exactly when the value is from -1 to the largest such lane. */
  lemma GreaterExact(w: nat, n: nat, v: int)
    requires w > 0 && n > 0 && -(Pow2(Len(w, n) - 1) as int) <= v < Pow2(Len(w, n) - 1)
    ensures GreaterRight(w, n, v) <==> -1 <= v < Pow2(w - 1)
  {
    if -1 <= v < Pow2(w - 1) {
      GreaterEnough(w, n, v);
    } else if GreaterRight(w, n, v) {
      GreaterOnly(w, n, v);
    }
  }

  lemma GreaterEnough(w: nat, n: nat, v: int)
    requires w > 0 && n > 0 && -1 <= v < Pow2(w - 1)
    ensures GreaterRight(w, n, v)
  {
    MagicIsFill(true, w, n, v);
    forall chunk: nat | chunk < Pow2(Len(w, n)) && NoTop(w, n, chunk)
      ensures GreaterWord(w, n, chunk, chunk + Magic(true, w, n, v)) == Marks(w, n, chunk, v)
    {
      GreaterMarks(w, n, chunk, v);
    }
  }

  /** Of the values for which all lanes, or none, are greater, only the nearest to the others will do. */
  lemma GreaterOnly(w: nat, n: nat, v: int)
    requires w > 0 && n > 0 && -(Pow2(Len(w, n) - 1) as int) <= v < Pow2(Len(w, n) - 1) && GreaterRight(w, n, v)
    requires v < 0 || v >= Pow2(w - 1) - 1
    ensures v == if v < 0 then -1 else Pow2(w - 1) - 1
  {
    var t := if v < 0 then Pow2(w - 1) else 0;
    UniformMagic(w, n, v, t);
    TopInWord(w, Len(w, n - 1));
    SameMagic(w, n, MagicLane(true, w, v), t);
  }

  lemma {:induction false} TopInWord(w: nat, k: nat)
    requires w > 0
    ensures Pow2(w - 1) <= Pow2(w + k - 1)
  {
    if k > 0 {
      TopInWord(w, k - 1);
    }
  }

  // ---------------------------------------------------------------- when the less-than test is right

  /** The top bit of every lane that is less than `v`. */
  ghost function LessMarks(w: nat, n: nat, chunk: nat, v: nat): nat
    requires w > 0
    decreases n
  {
    if n == 0 then 0 else Join(w, if Low(chunk, w) < v then Pow2(w - 1) else 0, LessMarks(w, n - 1, Shr(chunk, w), v))
  }

  /** The less-than test of `find_gtlt_fast`, with a borrow `b` into its lowest lane. */
  function LessWord(w: nat, n: nat, chunk: nat, v: nat, b: nat): nat
    requires w > 0 && b <= 1
  {
    FillBound(w, n, v);
    Isolate(Diff(chunk, Fill(w, n, v), b, Len(w, n)), chunk, Fill(w, n, Pow2(w - 1)), Len(w, n))
  }

  /** Lane `i` equals the value, and the lane below it is less. */
  ghost predicate Leak(w: nat, chunk: nat, v: nat, i: nat) {
    i > 0 && Lane(w, chunk, i) == v && Lane(w, chunk, i - 1) < v
  }

  ghost predicate NoLeak(w: nat, n: nat, chunk: nat, v: nat) {
    forall i :: 0 < i < n ==> !Leak(w, chunk, v, i)
  }

  /** A lane is marked when it is less than the value plus the borrow, and then borrows itself. */
  lemma LessStep(w: nat, n: nat, chunk: nat, v: nat, b: nat)
    requires w > 0 && n > 0 && b <= 1 && NoTop(w, n, chunk) && v < Pow2(w - 1)
    ensures var less, c' := Low(chunk, w) < v + b, Shr(chunk, w);
            LessWord(w, n, chunk, v, b)
            == Join(w, if less then Pow2(w - 1) else 0, LessWord(w, n - 1, c', v, if less then 1 else 0))
  {
    var k, c0, c', v' := Len(w, n - 1), Low(chunk, w), Shr(chunk, w), Fill(w, n - 1, v);
    var b' := if c0 < v + b then 1 else 0;
    JoinParts(chunk, w);
    FillStep(w, n, v);
    FillStep(w, n, Pow2(w - 1));
    DiffLane(w, k, c0, c', v, v', b);
    IsolateJoin(w, k, c0, c', c0 + b' * Pow2(w) - v - b, Diff(c', v', b', k), Fill(w, n - 1, Pow2(w - 1)));
  }

  lemma IsolateJoin(w: nat, k: nat, c0: nat, c': nat, d0: nat, d': nat, u': nat)
    requires w > 0 && c0 < Pow2(w - 1) && d0 < Pow2(w)
    ensures Isolate(Join(w, d0, d'), Join(w, c0, c'), Join(w, Pow2(w - 1), u'), w + k)
            == Join(w, if Top(w, d0) then Pow2(w - 1) else 0, Isolate(d', c', u', k))
  {
    PartsOfJoin(w, d0, d');
    IsolateLane(w, k, c0, c', Join(w, d0, d'), u');
  }

  /** With or without a borrow from below. */
  lemma {:induction false} LessBorrow(w: nat, n: nat, chunk: nat, v: nat, b: nat)
    requires w > 0 && b <= 1 && NoTop(w, n, chunk) && v < Pow2(w - 1)
    ensures LessWord(w, n, chunk, v, b) == LessMarks(w, n, chunk, v) <==>
            (n > 0 && b == 1 ==> Low(chunk, w) != v) && NoLeak(w, n, chunk, v)
    decreases n
  {
    if n > 0 {
      var c', less := Shr(chunk, w), Low(chunk, w) < v + b;
      var b' := if less then 1 else 0;
      LessStep(w, n, chunk, v, b);
      PartsOfJoin(w, b' * Pow2(w - 1), LessWord(w, n - 1, c', v, b'));
      PartsOfJoin(w, if Low(chunk, w) < v then Pow2(w - 1) else 0, LessMarks(w, n - 1, c', v));
      LessBorrow(w, n - 1, c', v, b');
      LeakShift(w, n, chunk, v);
    }
  }

  lemma LeakAt(w: nat, chunk: nat, v: nat, i: nat)
    requires i > 1
    ensures Leak(w, chunk, v, i) <==> Leak(w, Shr(chunk, w), v, i - 1)
  {
    assert Lane(w, chunk, i) == Lane(w, Shr(chunk, w), i - 1);
    assert Lane(w, chunk, i - 1) == Lane(w, Shr(chunk, w), i - 1 - 1);
  }

  lemma LeakShift(w: nat, n: nat, chunk: nat, v: nat)
    requires n > 0
    ensures NoLeak(w, n, chunk, v) <==> (n > 1 ==> !Leak(w, chunk, v, 1)) && NoLeak(w, n - 1, Shr(chunk, w), v)
  {
    forall i | 1 < i < n ensures Leak(w, chunk, v, i) <==> Leak(w, Shr(chunk, w), v, i - 1) {
      LeakAt(w, chunk, v, i);
    }
    if NoLeak(w, n, chunk, v) {
      forall i | 0 < i < n - 1 ensures !Leak(w, Shr(chunk, w), v, i) {
        LeakAt(w, chunk, v, i + 1);
      }
    }
  }

  /** On a word whose lanes have their top bits clear, the less-than test marks exactly the lesser
      lanes if and only if no lane equal to the value stands directly above a lesser one. */
  lemma LessExact(w: nat, n: nat, chunk: nat, v: nat)
    requires w > 0 && NoTop(w, n, chunk) && v < Pow2(w - 1)
    ensures LessWord(w, n, chunk, v, 0) == LessMarks(w, n, chunk, v) <==> NoLeak(w, n, chunk, v)
    ensures Fill(w, n, v) == Magic(false, w, n, v)
  {
    LessBorrow(w, n, chunk, v, 0);
    MagicIsFill(false, w, n, v);
  }

  /** So the test fails for every positive value, on the word that has the value in lane 1 alone. */
  lemma LessLeaks(w: nat, n: nat, v: nat)
    requires w > 0 && n > 1 && 0 < v < Pow2(w - 1)
    ensures var chunk := Join(w, 0, v);
            NoTop(w, n, chunk) && chunk < Pow2(Len(w, n)) && LessWord(w, n, chunk, v, 0) != LessMarks(w, n, chunk, v)
  {
    var chunk, k := Join(w, 0, v), Len(w, n - 2);
    PartsOfJoin(w, 0, v);
    LowSmall(v, w);
    ShrSmall(v, w);
    ZeroNoTop(w, n - 2);
    TopInWord(w, k);
    JoinBound(w, w + k, 0, v);
    assert Leak(w, chunk, v, 1);
    LessExact(w, n, chunk, v);
  }

  /** A word of 64 bits: of the 2-bit lanes of 4 only lane 1 is not less than 1, and it is marked. */
  lemma LessLeaks64(w: nat, n: nat)
    requires w == 2 && Packed(w, n)
    ensures NoTop(w, n, 4) && LessWord(w, n, 4, 1, 0) != LessMarks(w, n, 4, 1)
    ensures Lane(w, 4, 1) == 1 && Lane(w, LessWord(w, n, 4, 1, 0), 1) == 2
  {
    assert Join(2, 0, 1) == 4 && Pow2(1) == 2;
    LessLeaks(w, n, 1);
    LessStep(w, n, 4, 1, 0);
    LessStep(w, n - 1, 1, 1, 1);
    PartsOfJoin(w, 2, LessWord(w, n - 1, 1, 1, 1));
    PartsOfJoin(w, 2, LessWord(w, n - 2, 0, 1, 1));
  }
}
