/** Integers packed in memory with 0, 1, 2, 4, 8, 16, 32 or 64 bits each. */
module PackedArrays {
  import opened Bits
  import opened Lanes

  predicate Width(w: nat) {
    w == 1 || w == 2 || w == 4 || w == 8 || w == 16 || w == 32 || w == 64
  }

  /** Elements of fewer than 8 bits are unsigned, others are in two's complement. */
  function Value(w: nat, raw: nat): int
    requires w > 0
  {
    if w >= 8 && Top(w, raw) then raw - Pow2(w) else raw
  }

  function LowerLimit(w: nat): int {
    if w < 8 then 0 else -(Pow2(w - 1) as int)
  }

  function UpperLimit(w: nat): int {
    if w == 0 then 0 else if w < 8 then Pow2(w) - 1 else Pow2(w - 1) - 1
  }

  /** An array of `size` elements of `w` bits in memory `mem`, little endian. */
  datatype Packed = Packed(mem: seq<bool>, w: nat, size: nat) {
    predicate Valid() {
      Len(w, size) <= |mem|
    }

    /** Lane `i`, of any width, in memory. */
    function Raw(i: nat): nat
      requires Valid() && i < size
    {
      LenMonotone(w, i, size);
      FromBits(mem[Len(w, i)..Len(w, i) + w])
    }

    function Get(i: nat): int
      requires Valid() && i < size
    {
      if w == 0 then 0 else Value(w, Raw(i))
    }

    /** The word at index `p`. */
    function Word(p: nat): nat
      requires 64 * (p + 1) <= |mem|
    {
      FromBits(mem[64 * p..64 * p + 64])
    }
  }

  lemma {:induction false} LenMonotone(w: nat, i: nat, n: nat)
    requires i < n
    ensures Len(w, i) + w <= Len(w, n)
  {
    if i < n - 1 {
      LenMonotone(w, i, n - 1);
    }
  }

  /** The number of elements in a word: `64 / w`. */
  function PerWord(w: nat): (n: nat)
    requires Width(w)
    ensures 1 <= n <= 64
  {
    match w
    case 1 => 64
    case 2 => 32
    case 4 => 16
    case 8 => 8
    case 16 => 4
    case 32 => 2
    case _ => 1
  }

  lemma {:induction false} LenIs(w: nat, n: nat)
    ensures Len(w, n) == w * n
  {
    if n > 0 {
      LenIs(w, n - 1);
    }
  }

  lemma PerWordIs(w: nat)
    requires Width(w)
    ensures w * PerWord(w) == 64 && PerWord(w) == 64 / w
    ensures (w <= 8 ==> PerWord(w) % 2 == 0) && (w <= 4 ==> PerWord(w) % 4 == 0)
  {
    if w == 1 {} else if w == 2 {} else if w == 4 {} else if w == 8 {} else if w == 16 {} else if w == 32 {} else {}
  }

  lemma WidthFacts(w: nat)
    requires Width(w)
    ensures Lanes.Packed(w, PerWord(w))
    ensures (w <= 8 ==> PerWord(w) % 2 == 0) && (w <= 4 ==> PerWord(w) % 4 == 0)
  {
    var n := PerWord(w);
    PerWordIs(w);
    LenIs(w, n);
  }

  /** The word at `p` starts with element `p * PerWord(w)`. */
  lemma {:induction false} WordStart(w: nat, n: nat, p: nat)
    requires Len(w, n) == 64
    ensures Len(w, p * n) == 64 * p
    decreases p
  {
    if p > 0 {
      WordStart(w, n, p - 1);
      LenAdd(w, (p - 1) * n, n);
      assert p * n == (p - 1) * n + n;
    } else {
      assert p * n == 0;
    }
  }

  lemma {:induction false} LaneOfBits(w: nat, n: nat, s: seq<bool>, j: nat)
    requires |s| == Len(w, n) && j < n
    ensures Len(w, j) + w <= |s| && Lane(w, FromBits(s), j) == FromBits(s[Len(w, j)..Len(w, j) + w])
    decreases n
  {
    LenMonotone(w, j, n);
    var a, b := s[..w], s[w..];
    assert s == a + b;
    FromBitsConcat(a, b);
    FromBitsBound(a);
    PartsOfJoin(w, FromBits(a), FromBits(b));
    if j > 0 {
      LaneOfBits(w, n - 1, b, j - 1);
      assert s[Len(w, j)..Len(w, j) + w] == b[Len(w, j - 1)..Len(w, j - 1) + w];
    }
  }

  lemma SliceOfSlice<A>(s: seq<A>, a: nat, n: nat, i: nat, k: nat)
    requires a + n <= |s| && i + k <= n
    ensures s[a..a + n][i..i + k] == s[a + i..a + i + k]
  {
    var x, y := s[a..a + n][i..i + k], s[a + i..a + i + k];
    forall q | 0 <= q < k ensures x[q] == y[q] {
    }
  }

  /** The elements in a word are its lanes. */
  lemma WordLanes(arr: Packed, n: nat, p: nat, j: nat)
    requires WholeWord(arr, n, p) && j < n
    ensures Lane(arr.w, arr.Word(p), j) == arr.Raw(p * n + j)
  {
    LaneInWord(arr.mem, arr.w, n, p, j);
  }

  lemma LaneInWord(mem: seq<bool>, w: nat, n: nat, p: nat, j: nat)
    requires Len(w, n) == 64 && j < n && 64 * (p + 1) <= |mem|
    ensures Len(w, p * n + j) + w <= 64 * (p + 1)
    ensures Lane(w, FromBits(mem[64 * p..64 * p + 64]), j) == FromBits(mem[Len(w, p * n + j)..Len(w, p * n + j) + w])
  {
    WordStart(w, n, p);
    LenAdd(w, p * n, j);
    LaneOfBits(w, n, mem[64 * p..64 * p + 64], j);
    SliceOfSlice(mem, 64 * p, 64, Len(w, j), w);
  }

  // ---------------------------------------------------------------- values and lanes

  /** `v & mask`: the lowest `w` bits of `v` in two's complement. */
  function Masked(v: int, w: nat): nat {
    if v >= 0 then Low(v, w) else Not(-v - 1, w)
  }

  predicate InRange(v: int, w: nat) {
    LowerLimit(w) <= v <= UpperLimit(w)
  }

  lemma {:induction false} NotIs(x: nat, k: nat)
    requires x < Pow2(k)
    ensures Not(x, k) == Pow2(k) - 1 - x
  {
    if k > 0 {
      NotIs(x / 2, k - 1);
    }
  }

  /** An element equals a value in range exactly when their bits agree. */
  lemma EqualBits(w: nat, raw: nat, v: int)
    requires w > 0 && raw < Pow2(w) && InRange(v, w)
    ensures Value(w, raw) == v <==> raw == Masked(v, w)
    ensures Masked(v, w) < Pow2(w)
  {
    if v >= 0 {
      LowSmall(v, w);
    } else {
      NotIs(-v - 1, w);
    }
  }

  /** A value out of range agrees in its bits with an element that differs from it, so comparing bits
      is right for all elements if and only if the value is in range. */
  lemma EqualBitsExact(w: nat, v: int)
    requires w > 0
    ensures (forall raw: nat :: raw < Pow2(w) ==> (Value(w, raw) == v <==> raw == Masked(v, w))) <==> InRange(v, w)
  {
    if InRange(v, w) {
      forall raw: nat | raw < Pow2(w) ensures Value(w, raw) == v <==> raw == Masked(v, w) {
        EqualBits(w, raw, v);
      }
    } else {
      MaskedBound(v, w);
      assert InRange(Value(w, Masked(v, w)), w);
    }
  }

  lemma MaskedBound(v: int, w: nat)
    ensures Masked(v, w) < Pow2(w)
  {
    if v >= 0 {
      LowBound(v, w);
    } else {
      NotBound(-v - 1, w);
    }
  }

  lemma {:induction false} NotBound(x: nat, k: nat)
    ensures Not(x, k) < Pow2(k)
  {
    if k > 0 {
      NotBound(x / 2, k - 1);
    }
  }

  /** The value in range that has the bits of `v`. */
  lemma SameMask(v: int, w: nat)
    requires w > 0
    ensures var v' := Value(w, Masked(v, w));
            InRange(v', w) && Masked(v', w) == Masked(v, w) && (InRange(v, w) ==> v' == v)
  {
    var r := Masked(v, w);
    MaskedBound(v, w);
    EqualBits(w, r, Value(w, r));
    if InRange(v, w) {
      EqualBits(w, r, v);
    }
  }

  lemma RawBound(arr: Packed, i: nat)
    requires arr.Valid() && i < arr.size
    ensures arr.Raw(i) < Pow2(arr.w)
  {
    LenMonotone(arr.w, i, arr.size);
    FromBitsBound(arr.mem[Len(arr.w, i)..Len(arr.w, i) + arr.w]);
  }

  /** All elements lie between the limits of their width. */
  lemma ElementInRange(arr: Packed, i: nat)
    requires arr.Valid() && i < arr.size
    ensures InRange(arr.Get(i), arr.w)
  {
    RawBound(arr, i);
  }

  /** Words hold `n` elements, the word at `p` lies in memory, and its elements in the array. */
  predicate WholeWord(arr: Packed, n: nat, p: nat) {
    arr.Valid() && Lanes.Packed(arr.w, n) && 64 * (p + 1) <= |arr.mem| && p * n + n <= arr.size
  }

  lemma WordBound(arr: Packed, p: nat)
    requires 64 * (p + 1) <= |arr.mem|
    ensures arr.Word(p) < Pow2(BITS)
  {
    FromBitsBound(arr.mem[64 * p..64 * p + 64]);
  }
}
