/** Machine words as natural numbers: powers of two, shifts, bitwise operations, and the bits of
    memory. */
module Bits {
  /** The number of bits in a word, and in half a word. */
  const BITS: nat := 64
  const HALF: nat := 32

  function Pow2(k: nat): (r: nat)
    ensures r >= 1
  {
    if k == 0 then 1 else 2 * Pow2(k - 1)
  }

  /** `x >> k`. */
  function Shr(x: nat, k: nat): nat {
    if k == 0 then x else Shr(x / 2, k - 1)
  }

  /** The lowest `k` bits of `x`. */
  function Low(x: nat, k: nat): nat {
    if k == 0 then 0 else x % 2 + 2 * Low(x / 2, k - 1)
  }

  /** The word with `a` in its lowest `k` bits and `b` above. */
  function Join(k: nat, a: nat, b: nat): nat {
    if k == 0 then b else a % 2 + 2 * Join(k - 1, a / 2, b)
  }

  lemma {:induction false} Pow2Add(a: nat, b: nat)
    ensures Pow2(a + b) == Pow2(a) * Pow2(b)
  {
    if a > 0 {
      Pow2Add(a - 1, b);
      MulAssoc(2, Pow2(a - 1), Pow2(b));
    }
  }

  lemma MulAssoc(a: int, b: int, c: int)
    ensures a * (b * c) == a * b * c
  {
  }

  lemma {:induction false} LowBound(x: nat, k: nat)
    ensures Low(x, k) < Pow2(k)
  {
    if k > 0 {
      LowBound(x / 2, k - 1);
    }
  }

  lemma {:induction false} LowSmall(x: nat, k: nat)
    requires x < Pow2(k)
    ensures Low(x, k) == x
  {
    if k > 0 {
      LowSmall(x / 2, k - 1);
    }
  }

  lemma {:induction false} ShrBound(x: nat, j: nat, k: nat)
    requires x < Pow2(j + k)
    ensures Shr(x, j) < Pow2(k)
    decreases j
  {
    if j > 0 {
      ShrBound(x / 2, j - 1, k);
    }
  }

  lemma {:induction false} ShrSmall(x: nat, k: nat)
    requires x < Pow2(k)
    ensures Shr(x, k) == 0
  {
    if k > 0 {
      ShrSmall(x / 2, k - 1);
    }
  }

  lemma {:induction false} ShrAdd(x: nat, j: nat, k: nat)
    ensures Shr(x, j + k) == Shr(Shr(x, j), k)
    decreases j
  {
    if j > 0 {
      ShrAdd(x / 2, j - 1, k);
    }
  }

  lemma {:induction false} JoinParts(x: nat, k: nat)
    ensures Join(k, Low(x, k), Shr(x, k)) == x
  {
    if k > 0 {
      JoinParts(x / 2, k - 1);
    }
  }

  lemma HalfJoin(k: nat, a: nat, b: nat)
    requires k > 0
    ensures Join(k, a, b) % 2 == a % 2 && Join(k, a, b) / 2 == Join(k - 1, a / 2, b)
  {
  }

  lemma {:induction false} JoinIs(k: nat, a: nat, b: nat)
    requires a < Pow2(k)
    ensures Join(k, a, b) == a + Pow2(k) * b
  {
    if k > 0 {
      JoinIs(k - 1, a / 2, b);
      MulAssoc(2, Pow2(k - 1), b);
    }
  }

  lemma {:induction false} PartsOfJoin(k: nat, a: nat, b: nat)
    requires a < Pow2(k)
    ensures Low(Join(k, a, b), k) == a && Shr(Join(k, a, b), k) == b
  {
    if k > 0 {
      PartsOfJoin(k - 1, a / 2, b);
    }
  }

  lemma {:induction false} JoinBound(j: nat, k: nat, a: nat, b: nat)
    requires b < Pow2(k)
    ensures Join(j, a, b) < Pow2(j + k)
    decreases j
  {
    if j > 0 {
      JoinBound(j - 1, k, a / 2, b);
    }
  }

  lemma {:induction false} JoinZero(k: nat, a: nat, b: nat)
    requires a < Pow2(k)
    ensures Join(k, a, b) == 0 <==> a == 0 && b == 0
  {
    if k > 0 {
      JoinZero(k - 1, a / 2, b);
    }
  }

  /** An odd factor does not help to make a power of two divide a product. */
  lemma {:induction false} OddFactor(k: int, m: int, q: int, j: nat) returns (r: int)
    requires m % 2 == 1 && k * m == q * Pow2(j)
    ensures k == r * Pow2(j)
    decreases j
  {
    if j == 0 {
      r := k;
    } else {
      MulAssoc(q, 2, Pow2(j - 1));
      assert q * Pow2(j) == 2 * (q * Pow2(j - 1));
      EvenFactor(k, m, q * Pow2(j - 1));
      var h := k / 2;
      assert h * m == q * Pow2(j - 1);
      r := OddFactor(h, m, q, j - 1);
      assert k == 2 * (r * Pow2(j - 1));
    }
  }

  lemma EvenFactor(k: int, m: int, p: int)
    requires m % 2 == 1 && k * m == 2 * p
    ensures k % 2 == 0 && k == 2 * (k / 2) && k / 2 * m == p
  {
    var h, n := k / 2, m / 2;
    assert m == 2 * n + 1;
    OddProduct(h, n);
    if k % 2 == 0 {
      assert k * m == 2 * (h * m);
    }
  }

  lemma OddProduct(h: int, n: int)
    ensures (2 * h + 1) * (2 * n + 1) == 2 * (2 * (h * n) + h + n) + 1
  {
  }

  // ---------------------------------------------------------------- bitwise operations

  datatype Gate = AndGate | OrGate | XorGate

  predicate Apply(g: Gate, a: bool, b: bool) {
    match g
    case AndGate => a && b
    case OrGate => a || b
    case XorGate => a != b
  }

  /** Gate `g` on each of the lowest `k` bits. */
  function Op(g: Gate, x: nat, y: nat, k: nat): nat {
    if k == 0 then 0
    else (if Apply(g, x % 2 == 1, y % 2 == 1) then 1 else 0) + 2 * Op(g, x / 2, y / 2, k - 1)
  }

  function And(x: nat, y: nat, k: nat): nat { Op(AndGate, x, y, k) }
  function Or(x: nat, y: nat, k: nat): nat { Op(OrGate, x, y, k) }
  function Xor(x: nat, y: nat, k: nat): nat { Op(XorGate, x, y, k) }

  function Not(x: nat, k: nat): nat {
    if k == 0 then 0 else (1 - x % 2) + 2 * Not(x / 2, k - 1)
  }

  lemma {:induction false} OpBound(g: Gate, x: nat, y: nat, k: nat)
    ensures Op(g, x, y, k) < Pow2(k)
  {
    if k > 0 {
      OpBound(g, x / 2, y / 2, k - 1);
    }
  }

  /** Bitwise operations work on the low and the high part of words separately. */
  lemma {:induction false} OpJoin(g: Gate, j: nat, x: nat, x': nat, y: nat, y': nat, k: nat)
    ensures Op(g, Join(j, x, x'), Join(j, y, y'), j + k) == Join(j, Op(g, x, y, j), Op(g, x', y', k))
    decreases j
  {
    if j > 0 {
      HalfJoin(j, x, x');
      HalfJoin(j, y, y');
      OpJoin(g, j - 1, x / 2, x', y / 2, y', k);
      HalfJoin(j, Op(g, x, y, j), Op(g, x', y', k));
    }
  }

  lemma {:induction false} NotJoin(j: nat, x: nat, x': nat, k: nat)
    ensures Not(Join(j, x, x'), j + k) == Join(j, Not(x, j), Not(x', k))
    decreases j
  {
    if j > 0 {
      HalfJoin(j, x, x');
      NotJoin(j - 1, x / 2, x', k);
      HalfJoin(j, Not(x, j), Not(x', k));
    }
  }

  lemma {:induction false} WithZero(x: nat, k: nat)
    requires x < Pow2(k)
    ensures Or(x, 0, k) == x && And(x, 0, k) == 0
  {
    if k > 0 {
      WithZero(x / 2, k - 1);
    }
  }

  lemma {:induction false} WithOnes(x: nat, k: nat)
    requires x < Pow2(k)
    ensures Or(x, Pow2(k) - 1, k) == Pow2(k) - 1 && And(x, Pow2(k) - 1, k) == x
  {
    if k > 0 {
      WithOnes(x / 2, k - 1);
      assert (Pow2(k) - 1) / 2 == Pow2(k - 1) - 1;
    }
  }

  lemma {:induction false} XorZero(x: nat, y: nat, k: nat)
    requires x < Pow2(k) && y < Pow2(k)
    ensures Xor(x, y, k) == 0 <==> x == y
  {
    if k > 0 {
      XorZero(x / 2, y / 2, k - 1);
    }
  }

  // ---------------------------------------------------------------- memory

  /** The number whose bits, least significant first, are `b`. */
  function FromBits(b: seq<bool>): nat {
    if b == [] then 0 else (if b[0] then 1 else 0) + 2 * FromBits(b[1..])
  }

  function ToBits(x: nat, n: nat): (b: seq<bool>)
    ensures |b| == n
  {
    if n == 0 then [] else [x % 2 == 1] + ToBits(x / 2, n - 1)
  }

  lemma {:induction false} FromBitsBound(b: seq<bool>)
    ensures FromBits(b) < Pow2(|b|)
  {
    if b != [] {
      FromBitsBound(b[1..]);
    }
  }

  lemma {:induction false} FromToBits(x: nat, n: nat)
    ensures FromBits(ToBits(x, n)) == Low(x, n)
  {
    if n > 0 {
      FromToBits(x / 2, n - 1);
    }
  }

  lemma {:induction false} FromBitsConcat(a: seq<bool>, b: seq<bool>)
    ensures FromBits(a + b) == Join(|a|, FromBits(a), FromBits(b))
    decreases |a|
  {
    if a == [] {
      assert a + b == b;
    } else {
      assert (a + b)[1..] == a[1..] + b;
      FromBitsConcat(a[1..], b);
    }
  }
}
