/** `Array` and `ArrayUnsigned`: integers packed as narrowly as the largest needs, re-encoded in
    place when a wider one arrives. */
module IntArrays {
  import opened Bits
  import opened Lanes
  import opened PackedArrays
  import opened Words

  /** `Array` holds signed integers, below 8 bits without sign; `ArrayUnsigned` holds unsigned ones. */
  datatype Coding = SignedCoding | UnsignedCoding

  predicate WidthOf(k: Coding, w: nat) {
    match k
    case SignedCoding => w == 0 || Width(w)
    case UnsignedCoding => w == 8 || w == 16 || w == 32 || w == 64
  }

  /** The values that `w` bits can hold. */
  predicate Fits(k: Coding, v: int, w: nat) {
    match k
    case SignedCoding => InRange(v, w)
    case UnsignedCoding => 0 <= v < Pow2(w)
  }

  /** `bit_width`. */
  function BitWidth(k: Coding, v: int): nat {
    match k
    case SignedCoding =>
      if 0 <= v < 16 then [0, 1, 2, 2, 4, 4, 4, 4, 4, 4, 4, 4, 4, 4, 4, 4][v]
      else
        var u := if v < 0 then -v - 1 else v;
        if u / 0x8000_0000 != 0 then 64 else if u / 0x8000 != 0 then 32 else if u / 0x80 != 0 then 16 else 8
    case UnsignedCoding =>
      if v < 0x100 then 8 else if v < 0x1_0000 then 16 else if v < 0x1_0000_0000 then 32 else 64
  }

  lemma PowerValues()
    ensures Pow2(0) == 1 && Pow2(1) == 2 && Pow2(2) == 4 && Pow2(3) == 8 && Pow2(4) == 16 && Pow2(7) == 0x80 &&
            Pow2(8) == 0x100
    ensures Pow2(15) == 0x8000 && Pow2(16) == 0x1_0000 && Pow2(31) == 0x8000_0000 && Pow2(32) == 0x1_0000_0000
    ensures Pow2(63) == 0x8000_0000_0000_0000 && Pow2(64) == WORD
  {
    Powers();
    Pow2Add(7, 8);
    Pow2Add(15, 16);
    Pow2Add(31, 32);
  }

  /** The greatest value of each width, as a number. */
  function Greatest(k: Coding, w: nat): nat {
    match w
    case 0 => 0
    case 1 => 1
    case 2 => 3
    case 4 => 15
    case 8 => if k == SignedCoding then 0x7f else 0xff
    case 16 => if k == SignedCoding then 0x7fff else 0xffff
    case 32 => if k == SignedCoding then 0x7fff_ffff else 0xffff_ffff
    case _ => if k == SignedCoding then 0x7fff_ffff_ffff_ffff else 0xffff_ffff_ffff_ffff
  }

  lemma FitsIs(k: Coding, v: int, w: nat)
    requires WidthOf(k, w)
    ensures Fits(k, v, w) <==>
            (if k == SignedCoding && w >= 8 then -(Greatest(k, w) as int) - 1 else 0) <= v <= Greatest(k, w)
    ensures k == SignedCoding ==> UpperLimit(w) == Greatest(k, w)
  {
    PowerValues();
    if w == 0 {} else if w == 1 {} else if w == 2 {} else if w == 4 {} else if w == 8 {} else if w == 16 {}
      else if w == 32 {} else {}
  }

  /** `bit_width` gives the least width that holds the value. */
  lemma BitWidthLeast(k: Coding, v: int, w: nat)
    requires WidthOf(k, w) && Fits(k, v, 64)
    ensures WidthOf(k, BitWidth(k, v)) && Fits(k, v, BitWidth(k, v))
    ensures Fits(k, v, w) <==> BitWidth(k, v) <= w
  {
    BitWidthFits(k, v);
    FitsIs(k, v, 64);
    BitWidthIs(k, v);
    FitsIs(k, v, w);
  }

  lemma BitWidthFits(k: Coding, v: int)
    requires Fits(k, v, 64)
    ensures WidthOf(k, BitWidth(k, v)) && Fits(k, v, BitWidth(k, v))
  {
    FitsIs(k, v, 64);
    BitWidthIs(k, v);
    FitsIs(k, v, BitWidth(k, v));
  }

  lemma BitWidthIs(k: Coding, v: int)
    requires (if k == SignedCoding then -0x8000_0000_0000_0000 else 0) <= v <= Greatest(k, 64)
    ensures var w := BitWidth(k, v);
            && WidthOf(k, w) && (v < 0 ==> w >= 8) && v <= Greatest(k, w) && -v - 1 <= Greatest(k, w)
            && (k == SignedCoding && w > 8 ==> v > Greatest(k, w / 2) || -v - 1 > Greatest(k, w / 2))
            && (k == SignedCoding && w == 8 ==> v < 0 || v > 15)
            && (w in {1, 2, 4} ==> v > Greatest(k, w / 2))
            && (k == UnsignedCoding && w > 8 ==> v > Greatest(k, w / 2))
  {
  }

  // ---------------------------------------------------------------- elements in memory

  function Decode(k: Coding, w: nat, raw: nat): int {
    if w == 0 then 0 else if k == UnsignedCoding then raw else Value(w, raw)
  }

  function At(k: Coding, mem: seq<bool>, w: nat, i: nat): int
    requires Len(w, i) + w <= |mem|
  {
    Decode(k, w, FromBits(mem[Len(w, i)..Len(w, i) + w]))
  }

  /** `set_direct`: the `w` bits of slot `i` are replaced. */
  function Write(mem: seq<bool>, w: nat, i: nat, v: int): (r: seq<bool>)
    requires Len(w, i) + w <= |mem|
    ensures |r| == |mem|
  {
    mem[..Len(w, i)] + ToBits(Masked(v, w), w) + mem[Len(w, i) + w..]
  }

  lemma DecodeEncoded(k: Coding, w: nat, v: int)
    requires Fits(k, v, w)
    ensures Masked(v, w) < Pow2(w) && Decode(k, w, Masked(v, w)) == v
  {
    if v >= 0 {
      LowBound(v, w);
      if w > 0 {
        LowSmall(v, w);
      }
    } else {
      NotIs(-v - 1, w);
    }
  }

  lemma WriteSame(k: Coding, mem: seq<bool>, w: nat, i: nat, v: int)
    requires Len(w, i) + w <= |mem| && Fits(k, v, w)
    ensures At(k, Write(mem, w, i, v), w, i) == v
  {
    var bits := ToBits(Masked(v, w), w);
    assert Write(mem, w, i, v)[Len(w, i)..Len(w, i) + w] == bits;
    DecodeEncoded(k, w, v);
    FromToBits(Masked(v, w), w);
    LowSmall(Masked(v, w), w);
  }

  /** Bits outside the slot stay. */
  lemma WriteKeeps(mem: seq<bool>, w: nat, i: nat, v: int, a: nat, b: nat)
    requires Len(w, i) + w <= |mem| && a <= b <= |mem| && (b <= Len(w, i) || Len(w, i) + w <= a)
    ensures Write(mem, w, i, v)[a..b] == mem[a..b]
  {
  }

  lemma WriteOther(k: Coding, mem: seq<bool>, w: nat, i: nat, v: int, j: nat)
    requires Len(w, i) + w <= |mem| && Len(w, j) + w <= |mem| && i != j
    ensures At(k, Write(mem, w, i, v), w, j) == At(k, mem, w, j)
  {
    if i < j {
      LenMonotone(w, i, j);
    } else {
      LenMonotone(w, j, i);
    }
    WriteKeeps(mem, w, i, v, Len(w, j), Len(w, j) + w);
  }

  lemma {:induction false} LenWider(w: nat, w': nat, i: nat)
    requires w <= w'
    ensures Len(w, i) <= Len(w', i)
  {
    if i > 0 {
      LenWider(w, w', i - 1);
    }
  }

  /** Writing slot `i` with a wider encoding leaves the narrower elements before `i` alone. */
  lemma WriteWider(k: Coding, mem: seq<bool>, w: nat, w': nat, i: nat, v: int, j: nat)
    requires w <= w' && Len(w', i) + w' <= |mem| && j < i
    ensures Len(w, j) + w <= |mem| && At(k, Write(mem, w', i, v), w, j) == At(k, mem, w, j)
  {
    LenMonotone(w, j, i);
    LenWider(w, w', i);
    WriteKeeps(mem, w', i, v, Len(w, j), Len(w, j) + w);
  }

  lemma Nested(k: Coding, v: int, w: nat, w': nat)
    requires WidthOf(k, w) && WidthOf(k, w') && w <= w' && Fits(k, v, w) && Fits(k, v, 64)
    ensures Fits(k, v, w')
  {
    BitWidthLeast(k, v, w);
    BitWidthLeast(k, v, w');
  }

  // ---------------------------------------------------------------- re-encoding

  predicate Slot(k: Coding, mem: seq<bool>, w: nat, i: nat, v: int) {
    Len(w, i) + w <= |mem| && At(k, mem, w, i) == v
  }

  /** Slots `lo` to `hi` hold the elements of `c` at these indices. */
  ghost predicate Encodes(k: Coding, mem: seq<bool>, w: nat, c: seq<int>, lo: nat, hi: nat) {
    lo <= hi <= |c| && forall i {:trigger c[i]} :: lo <= i < hi ==> Slot(k, mem, w, i, c[i])
  }

  /** One write of a re-encoding that goes from the last slot down: it completes slot `j` of the
      target, keeps the slots above it, and spoils none of the `n` elements still to be read. */
  lemma Rewrite(k: Coding, mem: seq<bool>, w: nat, c: seq<int>, n: nat, w': nat, c': seq<int>, j: nat)
    requires w <= w' && n <= j < |c'| && Len(w', |c'|) <= |mem| && Fits(k, c'[j], w')
    requires Encodes(k, mem, w, c, 0, n) && Encodes(k, mem, w', c', j + 1, |c'|)
    ensures Len(w', j) + w' <= |mem|
    ensures Encodes(k, Write(mem, w', j, c'[j]), w, c, 0, n) && Encodes(k, Write(mem, w', j, c'[j]), w', c', j, |c'|)
  {
    LenMonotone(w', j, |c'|);
    var mem' := Write(mem, w', j, c'[j]);
    forall i | 0 <= i < n ensures Slot(k, mem', w, i, c[i]) {
      WriteWider(k, mem, w, w', j, c'[j], i);
    }
    forall i | j <= i < |c'| ensures Slot(k, mem', w', i, c'[i]) {
      if i == j {
        WriteSame(k, mem, w', j, c'[j]);
      } else {
        assert Slot(k, mem, w', i, c'[i]);
        WriteOther(k, mem, w', j, c'[j], i);
      }
    }
  }

  /** One write of a move to lower slots: it completes slot `j`, and keeps the elements after it. */
  lemma MoveDown(k: Coding, mem: seq<bool>, w: nat, c: seq<int>, c': seq<int>, j: nat)
    requires j < |c'| < |c| && Len(w, |c|) <= |mem| && Fits(k, c'[j], w)
    requires Encodes(k, mem, w, c', 0, j) && Encodes(k, mem, w, c, j + 1, |c|)
    ensures Len(w, j) + w <= |mem|
    ensures Encodes(k, Write(mem, w, j, c'[j]), w, c', 0, j + 1) &&
            Encodes(k, Write(mem, w, j, c'[j]), w, c, j + 2, |c|)
  {
    LenMonotone(w, j, |c|);
    var mem' := Write(mem, w, j, c'[j]);
    forall i | 0 <= i < j + 1 ensures Slot(k, mem', w, i, c'[i]) {
      if i == j {
        WriteSame(k, mem, w, j, c'[j]);
      } else {
        assert Slot(k, mem, w, i, c'[i]);
        WriteOther(k, mem, w, j, c'[j], i);
      }
    }
    forall i | j + 2 <= i < |c| ensures Slot(k, mem', w, i, c[i]) {
      assert Slot(k, mem, w, i, c[i]);
      WriteOther(k, mem, w, j, c'[j], i);
    }
  }

  /** Elements moved as a block of memory: the slot at `i` gets what the slot at `j` held. */
  lemma SlotMoved(k: Coding, mem: seq<bool>, mem': seq<bool>, w: nat, i: nat, j: nat, v: int)
    requires Slot(k, mem, w, j, v) && Len(w, i) + w <= |mem'|
    requires mem'[Len(w, i)..Len(w, i) + w] == mem[Len(w, j)..Len(w, j) + w]
    ensures Slot(k, mem', w, i, v)
  {
  }

  /** The bits from `a` to `b` move up by `w`. */
  function BitsUp(mem: seq<bool>, a: nat, b: nat, w: nat): (r: seq<bool>)
    requires a <= b && b + w <= |mem|
    ensures |r| == |mem|
  {
    mem[..a + w] + mem[a..b] + mem[b + w..]
  }

  lemma BitsUpAt(mem: seq<bool>, a: nat, b: nat, w: nat, x: nat)
    requires a <= b && b + w <= |mem| && x + w <= |mem|
    ensures x + w <= a ==> BitsUp(mem, a, b, w)[x..x + w] == mem[x..x + w]
    ensures a <= x && x + w <= b ==> BitsUp(mem, a, b, w)[x + w..x + w + w] == mem[x..x + w]
  {
    var r := BitsUp(mem, a, b, w);
    if a <= x && x + w <= b {
      var s, t := r[x + w..x + w + w], mem[x..x + w];
      forall q | 0 <= q < w ensures s[q] == t[q] {
        assert r[x + w + q] == mem[a..b][x + q - a];
      }
    }
  }

  lemma SlotUp(k: Coding, mem: seq<bool>, w: nat, a: nat, b: nat, i: nat, v: int)
    requires a <= b && b + w <= |mem| && Slot(k, mem, w, i, v)
    ensures Len(w, i) + w <= a ==> Slot(k, BitsUp(mem, a, b, w), w, i, v)
    ensures a <= Len(w, i) && Len(w, i) + w <= b ==> Slot(k, BitsUp(mem, a, b, w), w, i + 1, v)
  {
    BitsUpAt(mem, a, b, w, Len(w, i));
    if Len(w, i) + w <= a {
      SlotMoved(k, mem, BitsUp(mem, a, b, w), w, i, i, v);
    } else if a <= Len(w, i) && Len(w, i) + w <= b {
      SlotMoved(k, mem, BitsUp(mem, a, b, w), w, i + 1, i, v);
    }
  }

  /** The bits from `a + w` to `b` move down by `w`. */
  function BitsDown(mem: seq<bool>, a: nat, b: nat, w: nat): (r: seq<bool>)
    requires a + w <= b <= |mem|
    ensures |r| == |mem|
  {
    mem[..a] + mem[a + w..b] + mem[b - w..]
  }

  lemma BitsDownAt(mem: seq<bool>, a: nat, b: nat, w: nat, x: nat)
    requires a + w <= b <= |mem| && x + w <= b
    ensures x + w <= a ==> BitsDown(mem, a, b, w)[x..x + w] == mem[x..x + w]
    ensures a + w <= x ==> BitsDown(mem, a, b, w)[x - w..x] == mem[x..x + w]
  {
    var r := BitsDown(mem, a, b, w);
    if a + w <= x {
      var s, t := r[x - w..x], mem[x..x + w];
      forall q | 0 <= q < w ensures s[q] == t[q] {
        assert r[x - w + q] == mem[a + w..b][x + q - w - a];
      }
    }
  }

  lemma SlotDown(k: Coding, mem: seq<bool>, w: nat, a: nat, b: nat, i: nat, v: int)
    requires a + w <= b <= |mem| && Len(w, i) + w <= b && Slot(k, mem, w, i, v)
    ensures Len(w, i) + w <= a ==> Slot(k, BitsDown(mem, a, b, w), w, i, v)
    ensures i > 0 && a + w <= Len(w, i) ==> Slot(k, BitsDown(mem, a, b, w), w, i - 1, v)
  {
    BitsDownAt(mem, a, b, w, Len(w, i));
    if Len(w, i) + w <= a {
      SlotMoved(k, mem, BitsDown(mem, a, b, w), w, i, i, v);
    } else if i > 0 && a + w <= Len(w, i) {
      SlotMoved(k, mem, BitsDown(mem, a, b, w), w, i - 1, i, v);
    }
  }

  /** `copy_backward` by one slot: the slots below `ndx` stay and the others move one up. */
  lemma BlockUp(k: Coding, mem: seq<bool>, w: nat, ndx: nat, size: nat)
    requires ndx <= size && Len(w, size) + w <= |mem|
    ensures Len(w, ndx) <= Len(w, size) && MovesUp(k, mem, BitsUp(mem, Len(w, ndx), Len(w, size), w), w, ndx, size)
  {
    if ndx < size {
      LenMonotone(w, ndx, size);
    }
    var a, b := Len(w, ndx), Len(w, size);
    var mem' := BitsUp(mem, a, b, w);
    forall i: nat, v | i < ndx && Slot(k, mem, w, i, v) ensures Slot(k, mem', w, i, v) {
      LenMonotone(w, i, ndx);
      SlotUp(k, mem, w, a, b, i, v);
    }
    forall i: nat, v | ndx <= i < size && Slot(k, mem, w, i, v) ensures Slot(k, mem', w, i + 1, v) {
      LenMonotone(w, i, size);
      if ndx < i {
        LenMonotone(w, ndx, i);
      }
      SlotUp(k, mem, w, a, b, i, v);
    }
  }

  /** The slots below `ndx` stay and the others move one up. */
  ghost predicate MovesUp(k: Coding, mem: seq<bool>, mem': seq<bool>, w: nat, ndx: nat, size: nat) {
    && (forall i: nat, v {:trigger Slot(k, mem, w, i, v)} :: i < ndx && Slot(k, mem, w, i, v) ==>
        Slot(k, mem', w, i, v))
    && (forall i: nat, v {:trigger Slot(k, mem, w, i, v)} :: ndx <= i < size && Slot(k, mem, w, i, v) ==>
        Slot(k, mem', w, i + 1, v))
  }

  lemma MovedUp(k: Coding, mem: seq<bool>, mem': seq<bool>, w: nat, c: seq<int>, c': seq<int>, ndx: nat)
    requires ndx < |c| && |c'| == |c| + 1 && MovesUp(k, mem, mem', w, ndx, |c|)
    requires c'[ndx + 1..] == c[ndx..] && Encodes(k, mem, w, c, 0, |c|)
    ensures Encodes(k, mem', w, c, 0, ndx) && Encodes(k, mem', w, c', ndx + 1, |c'|)
  {
    forall i | 0 <= i < ndx ensures Slot(k, mem', w, i, c[i]) {
      assert Slot(k, mem, w, i, c[i]);
    }
    forall i | ndx + 1 <= i < |c'| ensures Slot(k, mem', w, i, c'[i]) {
      assert c'[i] == c'[ndx + 1..][i - ndx - 1] == c[ndx..][i - ndx - 1] == c[i - 1];
      assert Slot(k, mem, w, i - 1, c[i - 1]);
    }
  }

  /** The slots below `ndx` stay and those above it move one down. */
  ghost predicate MovesDown(k: Coding, mem: seq<bool>, mem': seq<bool>, w: nat, ndx: nat, size: nat) {
    && (forall i: nat, v {:trigger Slot(k, mem, w, i, v)} :: i < ndx && Slot(k, mem, w, i, v) ==>
        Slot(k, mem', w, i, v))
    && (forall i: nat, v {:trigger Slot(k, mem, w, i, v)} :: ndx < i < size && Slot(k, mem, w, i, v) ==>
        Slot(k, mem', w, i - 1, v))
  }

  lemma BlockDown(k: Coding, mem: seq<bool>, w: nat, ndx: nat, size: nat)
    requires ndx < size && Len(w, size) <= |mem|
    ensures Len(w, ndx) + w <= Len(w, size) && MovesDown(k, mem, BitsDown(mem, Len(w, ndx), Len(w, size), w), w, ndx,
                                                         size)
  {
    LenMonotone(w, ndx, size);
    var a, b := Len(w, ndx), Len(w, size);
    var mem' := BitsDown(mem, a, b, w);
    forall i: nat, v | i < ndx && Slot(k, mem, w, i, v) ensures Slot(k, mem', w, i, v) {
      LenMonotone(w, i, ndx);
      SlotDown(k, mem, w, a, b, i, v);
    }
    forall i: nat, v | ndx < i < size && Slot(k, mem, w, i, v) ensures Slot(k, mem', w, i - 1, v) {
      LenMonotone(w, i, size);
      LenMonotone(w, ndx, i);
      SlotDown(k, mem, w, a, b, i, v);
    }
  }

  lemma MovedDown(k: Coding, mem: seq<bool>, mem': seq<bool>, w: nat, c: seq<int>, c': seq<int>, ndx: nat)
    requires ndx < |c| && c' == c[..ndx] + c[ndx + 1..] && MovesDown(k, mem, mem', w, ndx, |c|) &&
             Encodes(k, mem, w, c, 0, |c|)
    ensures Encodes(k, mem', w, c', 0, |c'|)
  {
    forall i | 0 <= i < |c'| ensures Slot(k, mem', w, i, c'[i]) {
      var j := if i < ndx then i else i + 1;
      assert c'[i] == c[j];
      assert Slot(k, mem, w, j, c[j]);
    }
  }

  // ---------------------------------------------------------------- the array

  class IntArray {
    const coding: Coding
    var mem: seq<bool>
    var w: nat
    var size: nat

    ghost predicate Valid()
      reads this
    {
      WidthOf(coding, w) && Len(w, size) <= |mem|
    }

    ghost function Contents(): (c: seq<int>)
      requires Valid()
      reads this
      ensures |c| == size && Encodes(coding, mem, w, c, 0, size) && AllFit(coding, c, w) && AllFit(coding, c, 64)
    {
      ElementsFit(coding, mem, w, size);
      Elements(coding, mem, w, size)
    }

    constructor (coding: Coding)
      ensures Valid() && this.coding == coding && Contents() == [] && w == if coding == SignedCoding then 0 else 8
    {
      this.coding, mem, size := coding, [], 0;
      w := if coding == SignedCoding then 0 else 8;
    }

    method Get(i: nat) returns (v: int)
      requires Valid() && i < size
      ensures v == Contents()[i]
    {
      LenMonotone(w, i, size);
      assert Slot(coding, mem, w, i, Contents()[i]);
      v := At(coding, mem, w, i);
    }

    /** `Node::alloc`: makes room, keeps the bytes there are, and records size and width. */
    method Alloc(newSize: nat, newWidth: nat)
      modifies this
      ensures old(mem) <= mem && Len(newWidth, newSize) <= |mem| && size == newSize && w == newWidth
    {
      if |mem| < Len(newWidth, newSize) {
        mem := mem + seq(Len(newWidth, newSize) - |mem|, i => false);
      }
      size, w := newSize, newWidth;
    }

    /** Re-encodes elements `i - 1` down to `lo` into the slots `d` above theirs. */
    method Reencode(oldW: nat, hi: nat, lo: nat, d: nat, ghost c: seq<int>, ghost c': seq<int>)
      requires oldW <= w && lo <= hi && Len(w, |c'|) <= |mem| && AllFit(coding, c', w)
      requires hi + d <= |c'| && forall i {:trigger c[i]} :: lo <= i < hi <= |c| ==> c[i] == c'[i + d]
      requires Encodes(coding, mem, oldW, c, 0, hi) && Encodes(coding, mem, w, c', hi + d, |c'|)
      modifies this`mem
      ensures |mem| == |old(mem)| && Encodes(coding, mem, oldW, c, 0, lo) && Encodes(coding, mem, w, c', lo + d, |c'|)
    {
      var i := hi;
      while i > lo
        invariant lo <= i <= hi && |mem| == |old(mem)|
        invariant Encodes(coding, mem, oldW, c, 0, i) && Encodes(coding, mem, w, c', i + d, |c'|)
      {
        i := i - 1;
        assert Slot(coding, mem, oldW, i, c[i]);
        var v := At(coding, mem, oldW, i);
        assert v == c'[i + d];
        Rewrite(coding, mem, oldW, c, i, w, c', i + d);
        mem := Write(mem, w, i + d, v);
      }
    }

    method Insert(ndx: nat, value: int)
      requires Valid() && ndx <= size && Fits(coding, value, 64)
      modifies this
      ensures Valid() && Contents() == old(Contents())[..ndx] + [value] + old(Contents())[ndx..]
      ensures w == if Fits(coding, value, old(w)) then old(w) else BitWidth(coding, value)
    {
      ghost var c, c' := Contents(), Contents()[..ndx] + [value] + Contents()[ndx..];
      ghost var m0 := mem;
      var oldW, oldSize := w, size;
      var expand := !Fits(coding, value, w);
      var newW := if expand then BitWidth(coding, value) else w;
      NewWidth(coding, c, value, w, newW, ndx);
      Alloc(size + 1, newW);
      Extended(coding, m0, mem, oldW, c);
      MakeRoom(ndx, oldW, oldSize, expand, c, c');
      Place(ndx, value, oldW, expand, c, c');
      ContentsAre(coding, mem, w, c');
    }

    /** The new value is written, and the elements before it get the new width. */
    method Place(ndx: nat, value: int, oldW: nat, expand: bool, ghost c: seq<int>, ghost c': seq<int>)
      requires oldW <= w && ndx <= |c| && |c'| == |c| + 1 && Len(w, |c'|) <= |mem| && AllFit(coding, c', w)
      requires (!expand ==> oldW == w) && c'[..ndx] == c[..ndx] && c'[ndx] == value
      requires Encodes(coding, mem, oldW, c, 0, ndx) && Encodes(coding, mem, w, c', ndx + 1, |c'|)
      modifies this`mem
      ensures |mem| == |old(mem)| && Encodes(coding, mem, w, c', 0, |c'|)
    {
      Rewrite(coding, mem, oldW, c, ndx, w, c', ndx);
      mem := Write(mem, w, ndx, value);
      if expand {
        forall i | 0 <= i < ndx ensures c[i] == c'[i] {
          assert c[..ndx][i] == c'[..ndx][i];
        }
        Reencode(oldW, ndx, 0, 0, c, c');
      } else {
        Completed(coding, mem, w, c, c', ndx);
      }
    }

    /** `ensure_minimum_width`: all elements are re-encoded when `value` needs more bits. */
    method EnsureMinimumWidth(value: int)
      requires Valid() && Fits(coding, value, 64)
      modifies this
      ensures Valid() && Contents() == old(Contents()) && size == old(size) && Fits(coding, value, w) && w >= old(w)
      ensures w == if Fits(coding, value, old(w)) then old(w) else BitWidth(coding, value)
    {
      if !Fits(coding, value, w) {
        ghost var c, m0 := Contents(), mem;
        var oldW, newW := w, BitWidth(coding, value);
        NewWidth(coding, c, value, w, newW, 0);
        Alloc(size, newW);
        Extended(coding, m0, mem, oldW, c);
        Reencode(oldW, size, 0, 0, c, c);
        ContentsAre(coding, mem, w, c);
      }
    }

    method Set(ndx: nat, value: int)
      requires Valid() && ndx < size && Fits(coding, value, 64)
      modifies this
      ensures Valid() && Contents() == old(Contents())[ndx := value]
      ensures w == if Fits(coding, value, old(w)) then old(w) else BitWidth(coding, value)
    {
      ghost var c := Contents();
      var present := Get(ndx);
      if coding == SignedCoding && present == value {
        return;
      }
      EnsureMinimumWidth(value);
      ghost var m0 := mem;
      LenMonotone(w, ndx, size);
      mem := Write(mem, w, ndx, value);
      Overwrites(coding, m0, w, c, ndx, value);
      ContentsAre(coding, mem, w, c[ndx := value]);
    }

    method Erase(ndx: nat)
      requires Valid() && ndx < size
      modifies this
      ensures Valid() && Contents() == old(Contents())[..ndx] + old(Contents())[ndx + 1..] && w == old(w)
    {
      ghost var c, c' := Contents(), Contents()[..ndx] + Contents()[ndx + 1..];
      assert Encodes(coding, mem, w, c', 0, ndx) by {
        Prefix(coding, mem, w, c, c', ndx);
      }
      LenMonotone(w, ndx, size);
      if w < 8 {
        CloseGap(ndx, c, c');
      } else {
        ghost var m0 := mem;
        BlockDown(coding, mem, w, ndx, size);
        mem := BitsDown(mem, Len(w, ndx), Len(w, size), w);
        MovedDown(coding, m0, mem, w, c, c', ndx);
      }
      size := size - 1;
      ContentsAre(coding, mem, w, c');
    }

    /** `move` by one slot down, element by element. */
    method CloseGap(ndx: nat, ghost c: seq<int>, ghost c': seq<int>)
      requires size == |c| && ndx < |c| && |c'| == |c| - 1 && Len(w, size) <= |mem| && AllFit(coding, c', w)
      requires forall i {:trigger c'[i]} :: ndx <= i < |c'| ==> c'[i] == c[i + 1]
      requires Encodes(coding, mem, w, c, 0, |c|) && Encodes(coding, mem, w, c', 0, ndx)
      modifies this`mem
      ensures |mem| == |old(mem)| && Encodes(coding, mem, w, c', 0, |c'|)
    {
      var i := ndx + 1;
      while i != size
        invariant ndx < i <= size && |mem| == |old(mem)|
        invariant Encodes(coding, mem, w, c', 0, i - 1) && Encodes(coding, mem, w, c, i, |c|)
        decreases size - i
      {
        assert Slot(coding, mem, w, i, c[i]);
        var v := At(coding, mem, w, i);
        assert v == c'[i - 1];
        MoveDown(coding, mem, w, c, c', i - 1);
        mem := Write(mem, w, i - 1, v);
        i := i + 1;
      }
    }

    method Truncate(newSize: nat)
      requires Valid() && newSize <= size
      modifies this
      ensures Valid() && Contents() == old(Contents())[..newSize]
      ensures coding == SignedCoding ==> w == if newSize == 0 < old(size) then 0 else old(w)
      ensures coding == UnsignedCoding ==> w == if newSize == 0 then 8 else old(w)
    {
      ghost var c := Contents();
      if newSize == size {
        assert c == c[..newSize];
        if coding == SignedCoding {
          return;
        }
      } else {
        LenMonotone(w, newSize, size);
      }
      size := newSize;
      Prefix(coding, mem, w, c, c[..newSize], newSize);
      ContentsAre(coding, mem, w, c[..newSize]);
      if newSize == 0 {
        w := if coding == SignedCoding then 0 else 8;
      }
    }

    /** `move(dst, ndx)`: the elements from `ndx` on go to the end of `dst`. */
    method MoveTo(dst: IntArray, ndx: nat)
      requires Valid() && dst.Valid() && dst != this && ndx <= size && coding == SignedCoding &&
               dst.coding == SignedCoding
      modifies this, dst
      ensures Valid() && dst.Valid() && Contents() == old(Contents())[..ndx]
      ensures dst.Contents() == old(dst.Contents()) + old(Contents())[ndx..]
      ensures dst.w == if old(dst.w) < old(w) then old(w) else old(dst.w)
    {
      ghost var c, d := Contents(), dst.Contents();
      ghost var d' := d + c[ndx..];
      var destBegin := dst.size;
      dst.Reserve(w, size - ndx, d');
      CopyTail(dst, ndx, destBegin, c, d');
      ContentsAre(SignedCoding, dst.mem, dst.w, d');
      Truncate(ndx);
    }

    /** Makes room for `extra` elements of any value that `width` bits hold. */
    method Reserve(width: nat, extra: nat, ghost d': seq<int>)
      requires Valid() && coding == SignedCoding && WidthOf(SignedCoding, width) && |d'| == size + extra &&
               Contents() <= d'
      modifies this
      ensures Valid() && size == |d'| && w >= width && Encodes(SignedCoding, mem, w, d', 0, old(size))
      ensures w == if old(w) < width then width else old(w)
    {
      ghost var d := Contents();
      UpperLimitDecides(width, w);
      EnsureMinimumWidth(UpperLimit(width));
      UpperLimitDecides(width, w);
      ghost var m0 := mem;
      Alloc(size + extra, w);
      Extended(SignedCoding, m0, mem, w, d);
      assert d'[..|d|] == d[..|d|];
      Prefix(SignedCoding, mem, w, d, d', |d|);
    }

    method CopyTail(dst: IntArray, ndx: nat, destBegin: nat, ghost c: seq<int>, ghost d': seq<int>)
      requires Valid() && c == Contents() && dst != this && coding == SignedCoding && ndx <= size
      requires WidthOf(SignedCoding, dst.w) && dst.w >= w && Len(dst.w, |d'|) <= |dst.mem|
      requires |d'| == destBegin + (size - ndx) && d'[destBegin..] == c[ndx..]
      requires Encodes(SignedCoding, dst.mem, dst.w, d', 0, destBegin)
      modifies dst`mem
      ensures |dst.mem| == |old(dst.mem)| && Encodes(SignedCoding, dst.mem, dst.w, d', 0, |d'|)
    {
      var i := ndx;
      while i < size
        invariant ndx <= i <= size && |dst.mem| == |old(dst.mem)|
        invariant Encodes(SignedCoding, dst.mem, dst.w, d', 0, destBegin + (i - ndx))
      {
        var v := Get(i);
        ghost var n := destBegin + (i - ndx);
        assert d'[n] == d'[destBegin..][i - ndx] == c[ndx..][i - ndx] == v;
        Nested(SignedCoding, v, w, dst.w);
        Appends(SignedCoding, dst.mem, dst.w, d', n);
        dst.mem := Write(dst.mem, dst.w, destBegin + (i - ndx), v);
        i := i + 1;
      }
    }

    /** The elements from `ndx` on move one slot up, to their new width. */
    method MakeRoom(ndx: nat, oldW: nat, oldSize: nat, expand: bool, ghost c: seq<int>, ghost c': seq<int>)
      requires oldW <= w && ndx <= oldSize == |c| && |c'| == |c| + 1 && Len(w, |c'|) <= |mem| && AllFit(coding, c', w)
      requires (!expand ==> oldW == w) && c'[..ndx] == c[..ndx] && c'[ndx + 1..] == c[ndx..]
      requires Encodes(coding, mem, oldW, c, 0, |c|)
      modifies this`mem
      ensures |mem| == |old(mem)| && Encodes(coding, mem, oldW, c, 0, ndx) && Encodes(coding, mem, w, c', ndx + 1, |c'|)
    {
      if expand || oldW < 8 {
        forall i | ndx <= i < |c| ensures c[i] == c'[i + 1] {
          assert c[ndx..][i - ndx] == c'[ndx + 1..][i - ndx];
        }
        Reencode(oldW, oldSize, ndx, 1, c, c');
      } else if ndx != oldSize {
        ghost var m0 := mem;
        BlockUp(coding, mem, w, ndx, oldSize);
        mem := BitsUp(mem, Len(w, ndx), Len(w, oldSize), w);
        MovedUp(coding, m0, mem, w, c, c', ndx);
      }
    }
  }

  ghost function Elements(k: Coding, mem: seq<bool>, w: nat, size: nat): (c: seq<int>)
    requires Len(w, size) <= |mem|
    ensures |c| == size
  {
    if size == 0 then []
    else
      LenMonotone(w, size - 1, size);
      Elements(k, mem, w, size - 1) + [At(k, mem, w, size - 1)]
  }

  ghost predicate AllFit(k: Coding, c: seq<int>, w: nat) {
    forall i {:trigger c[i]} :: 0 <= i < |c| ==> Fits(k, c[i], w)
  }

  lemma {:induction false} ElementsFit(k: Coding, mem: seq<bool>, w: nat, size: nat)
    requires WidthOf(k, w) && Len(w, size) <= |mem|
    ensures var c := Elements(k, mem, w, size); Encodes(k, mem, w, c, 0, size) && AllFit(k, c, w) && AllFit(k, c, 64)
  {
    var c := Elements(k, mem, w, size);
    forall i | 0 <= i < size ensures Slot(k, mem, w, i, c[i]) && Fits(k, c[i], w) && Fits(k, c[i], 64) {
      ElementAt(k, mem, w, size, i);
      AtFits(k, mem, w, i);
    }
  }

  lemma {:induction false} ElementAt(k: Coding, mem: seq<bool>, w: nat, size: nat, i: nat)
    requires Len(w, size) <= |mem| && i < size
    ensures Len(w, i) + w <= |mem| && Elements(k, mem, w, size)[i] == At(k, mem, w, i)
    decreases size
  {
    LenMonotone(w, i, size);
    LenMonotone(w, size - 1, size);
    if i < size - 1 {
      ElementAt(k, mem, w, size - 1, i);
    }
  }

  lemma AtFits(k: Coding, mem: seq<bool>, w: nat, i: nat)
    requires WidthOf(k, w) && Len(w, i) + w <= |mem|
    ensures Fits(k, At(k, mem, w, i), w) && Fits(k, At(k, mem, w, i), 64)
  {
    FromBitsBound(mem[Len(w, i)..Len(w, i) + w]);
    DecodeFits(k, w, FromBits(mem[Len(w, i)..Len(w, i) + w]));
  }

  lemma DecodeFits(k: Coding, w: nat, raw: nat)
    requires WidthOf(k, w) && raw < Pow2(w)
    ensures Fits(k, Decode(k, w, raw), w) && Fits(k, Decode(k, w, raw), 64)
  {
    PowerValues();
  }

  /** The contents are determined by the slots. */
  lemma ContentsAre(k: Coding, mem: seq<bool>, w: nat, c: seq<int>)
    requires WidthOf(k, w) && Len(w, |c|) <= |mem| && Encodes(k, mem, w, c, 0, |c|)
    ensures Elements(k, mem, w, |c|) == c
  {
    var e := Elements(k, mem, w, |c|);
    ElementsFit(k, mem, w, |c|);
    forall i | 0 <= i < |c| ensures e[i] == c[i] {
      assert Slot(k, mem, w, i, c[i]) && Slot(k, mem, w, i, e[i]);
    }
  }

  lemma Extended(k: Coding, mem: seq<bool>, mem': seq<bool>, w: nat, c: seq<int>)
    requires mem <= mem' && Encodes(k, mem, w, c, 0, |c|)
    ensures Encodes(k, mem', w, c, 0, |c|)
  {
    forall i | 0 <= i < |c| ensures Slot(k, mem', w, i, c[i]) {
      assert Slot(k, mem, w, i, c[i]);
      assert mem'[Len(w, i)..Len(w, i) + w] == mem[Len(w, i)..Len(w, i) + w];
    }
  }

  /** The width chosen for a new value is at least the old one, and holds all values. */
  lemma NewWidth(k: Coding, c: seq<int>, value: int, w: nat, newW: nat, ndx: nat)
    requires WidthOf(k, w) && AllFit(k, c, w) && AllFit(k, c, 64) && Fits(k, value, 64) && ndx <= |c|
    requires newW == if Fits(k, value, w) then w else BitWidth(k, value)
    ensures WidthOf(k, newW) && w <= newW && Fits(k, value, newW) && AllFit(k, c, newW)
    ensures AllFit(k, c[..ndx] + [value] + c[ndx..], newW) && (!Fits(k, value, w) ==> w < newW)
  {
    BitWidthLeast(k, value, w);
    forall i | 0 <= i < |c| ensures Fits(k, c[i], newW) {
      Nested(k, c[i], w, newW);
    }
    var c' := c[..ndx] + [value] + c[ndx..];
    forall i | 0 <= i < |c'| ensures Fits(k, c'[i], newW) {
      assert c'[i] == if i < ndx then c[i] else if i == ndx then value else c[i - 1];
    }
  }

  lemma Completed(k: Coding, mem: seq<bool>, w: nat, c: seq<int>, c': seq<int>, ndx: nat)
    requires ndx <= |c| && ndx <= |c'| && c'[..ndx] == c[..ndx] && Encodes(k, mem, w, c, 0, ndx) &&
             Encodes(k, mem, w, c', ndx, |c'|)
    ensures Encodes(k, mem, w, c', 0, |c'|)
  {
    forall i | 0 <= i < ndx ensures Slot(k, mem, w, i, c'[i]) {
      assert c'[..ndx][i] == c[..ndx][i];
      assert Slot(k, mem, w, i, c[i]);
    }
  }

  lemma Overwrites(k: Coding, mem: seq<bool>, w: nat, c: seq<int>, ndx: nat, value: int)
    requires ndx < |c| && Len(w, |c|) <= |mem| && Len(w, ndx) + w <= |mem| && Fits(k, value, w) &&
             Encodes(k, mem, w, c, 0, |c|)
    ensures Encodes(k, Write(mem, w, ndx, value), w, c[ndx := value], 0, |c|)
  {
    var mem', c' := Write(mem, w, ndx, value), c[ndx := value];
    forall i | 0 <= i < |c'| ensures Slot(k, mem', w, i, c'[i]) {
      if i == ndx {
        WriteSame(k, mem, w, ndx, value);
      } else {
        assert Slot(k, mem, w, i, c[i]);
        WriteOther(k, mem, w, ndx, value, i);
      }
    }
  }

  /** Writing the slot after the first `n`. */
  lemma Appends(k: Coding, mem: seq<bool>, w: nat, c: seq<int>, n: nat)
    requires n < |c| && Len(w, |c|) <= |mem| && Fits(k, c[n], w) && Encodes(k, mem, w, c, 0, n)
    ensures Len(w, n) + w <= |mem| && Encodes(k, Write(mem, w, n, c[n]), w, c, 0, n + 1)
  {
    LenMonotone(w, n, |c|);
    var mem' := Write(mem, w, n, c[n]);
    forall i | 0 <= i < n + 1 ensures Slot(k, mem', w, i, c[i]) {
      if i == n {
        WriteSame(k, mem, w, n, c[n]);
      } else {
        assert Slot(k, mem, w, i, c[i]);
        WriteOther(k, mem, w, n, c[n], i);
      }
    }
  }

  lemma Prefix(k: Coding, mem: seq<bool>, w: nat, c: seq<int>, c': seq<int>, n: nat)
    requires n <= |c| && n <= |c'| && c'[..n] == c[..n] && Encodes(k, mem, w, c, 0, |c|)
    ensures Encodes(k, mem, w, c', 0, n)
  {
    forall i | 0 <= i < n ensures Slot(k, mem, w, i, c'[i]) {
      assert c'[..n][i] == c[..n][i];
      assert Slot(k, mem, w, i, c[i]);
    }
  }

  /** A width holds all elements of another as soon as it holds the largest. */
  lemma UpperLimitDecides(w: nat, w': nat)
    requires WidthOf(SignedCoding, w) && WidthOf(SignedCoding, w')
    ensures Fits(SignedCoding, UpperLimit(w), 64)
    ensures Fits(SignedCoding, UpperLimit(w), w') <==> w <= w'
    ensures BitWidth(SignedCoding, UpperLimit(w)) == w
  {
    FitsIs(SignedCoding, UpperLimit(w), w);
    FitsIs(SignedCoding, UpperLimit(w), w');
    FitsIs(SignedCoding, UpperLimit(w), 64);
  }
}
