/** `ArrayIntNull`: optional integers. Slot 0 of the underlying array holds the value that stands
    for null, and moves away from the values that are stored. */
module NullableInts {
  import opened PackedArrays
  import opened IntArrays
  import opened NullLeaves
  import opened Words

  // ---------------------------------------------------------------- the sequence of options

  /** The optional integers that a raw array stands for. */
  function Options(c: seq<int>): (r: seq<Option>)
    requires |c| >= 1
    ensures |r| == |c| - 1 && forall i :: 0 <= i < |r| ==> r[i] == if c[i + 1] == c[0] then None else Some(c[i + 1])
  {
    seq(|c| - 1, i requires 0 <= i < |c| - 1 => if c[i + 1] == c[0] then None else Some(c[i + 1]))
  }

  /** The raw array with another value for null, in the slots before `n`. */
  function Replaced(c: seq<int>, x: int, n: nat): (r: seq<int>)
    requires |c| >= 1 && n <= |c|
    ensures |r| == |c| && forall i :: 0 <= i < |c| ==> r[i] == if i < n && c[i] == c[0] then x else c[i]
  {
    seq(|c|, i requires 0 <= i < |c| => if i < n && c[i] == c[0] then x else c[i])
  }

  /** Replacing the null by a value that is not stored keeps exactly the nulls. */
  lemma ReplacedSame(c: seq<int>, x: int)
    requires |c| >= 1 && (x == c[0] || x !in c[1..])
    ensures Options(Replaced(c, x, |c|)) == Options(c)
  {
    var r := Replaced(c, x, |c|);
    forall i | 0 <= i < |c| - 1 ensures Options(r)[i] == Options(c)[i] {
      assert c[1..][i] == c[i + 1];
    }
  }

  /** A value is stored if a slot after the first holds it, and it is not the null. */
  lemma StoredOption(c: seq<int>, x: int)
    requires |c| >= 1
    ensures Some(x) in Options(c) <==> x != c[0] && x in c[1..]
  {
    var o := Options(c);
    if i :| 0 <= i < |o| && o[i] == Some(x) {
      assert c[1..][i] == x;
    }
    if x != c[0] && x in c[1..] {
      var i :| 0 <= i < |c| - 1 && c[1..][i] == x;
      assert o[i] == Some(x);
    }
  }

  class ArrayIntNull {
    const base: IntArray

    /** There is a slot 0. */
    ghost predicate Sound()
      reads this, base
    {
      base.Valid() && base.coding == SignedCoding && base.size >= 1
    }

    /** Below 64 bits the null is the upper limit of the width. */
    ghost predicate Valid()
      reads this, base
    {
      Sound() && (base.w < 64 ==> base.Contents()[0] == UpperLimit(base.w))
    }

    ghost function Contents(): seq<Option>
      requires Sound()
      reads this, base
    {
      Options(base.Contents())
    }

    ghost function View(): Leaf
      requires Sound()
      reads this, base
    {
      Leaf(base.w, base.Contents()[0], Contents())
    }

    /** The number of elements leaves room for another in 64 bits. */
    ghost predicate Room(n: nat)
      requires Sound()
      reads this, base
    {
      |Contents()| + n + 3 < WORD
    }

    lemma ViewOK()
      requires Sound() && Room(0)
      ensures LeafOK(View()) && (Valid() <==> Safe(View()))
    {
      var l, c := View(), base.Contents();
      assert AllFit(SignedCoding, c, base.w);
      assert Fits(SignedCoding, c[0], base.w);
      forall i | 0 <= i < |l.opts| ensures OptionFits(l.opts[i], l.w) && l.opts[i] != Some(l.null_) {
        assert Fits(SignedCoding, c[i + 1], base.w);
      }
    }

    constructor ()
      ensures Valid() && Contents() == [] && base.w == 0 && fresh(base)
    {
      base := new IntArray(SignedCoding);
      new;
      base.Insert(0, 0);
    }

    method Get(ndx: nat) returns (v: Option)
      requires Sound() && ndx < |Contents()|
      ensures v == Contents()[ndx]
    {
      var value := base.Get(ndx + 1);
      var null_ := base.Get(0);
      v := if value == null_ then None else Some(value);
    }

    /** `Array::find_first`, from slot `begin` on. */
    method FindFrom(value: int, begin: nat) returns (i: nat)
      requires base.Valid() && begin <= base.size
      ensures begin <= i <= base.size && (i < base.size ==> base.Contents()[i] == value)
      ensures forall j :: begin <= j < i ==> base.Contents()[j] != value
    {
      i := begin;
      while i < base.size
        invariant begin <= i <= base.size && forall j :: begin <= j < i ==> base.Contents()[j] != value
      {
        var v := base.Get(i);
        if v == value {
          return;
        }
        i := i + 1;
      }
    }

    /** `can_use_as_null`: the search takes the value for absent when it stands for null. */
    method CanUseAsNull(candidate: int) returns (ok: bool)
      requires Sound()
      ensures ok <==> Some(candidate) !in Contents()
    {
      ghost var c := base.Contents();
      StoredOption(c, candidate);
      var null_ := base.Get(0);
      if candidate == null_ {
        return true;
      }
      var i := FindFrom(candidate, 1);
      ok := i == base.size;
      if i < base.size {
        assert c[1..][i - 1] == candidate;
      }
    }

    /** `choose_random_null`: the first usable candidate, which is among the first `n + 2`. */
    method ChooseRandomNull(start: int, incoming: int) returns (candidate: int, ghost k: nat)
      requires Sound() && Room(0)
      ensures candidate == FirstUsable(Contents(), incoming, start)
      ensures IsFirst(Contents(), incoming, start, k) && candidate == Candidate(start, k) && k <= |Contents()| + 2
    {
      ghost var opts := Contents();
      ghost var last := FirstFacts(opts, incoming, start);
      candidate, k := Wrap(start), 0;
      while true
        invariant candidate == Candidate(start, k) && k < last && NoneBefore(opts, incoming, start, k + 1)
        decreases last - k
      {
        CandidateSteps(start, k);
        candidate := NextCandidate(candidate);
        k := k + 1;
        if candidate != incoming {
          var ok := CanUseAsNull(candidate);
          if ok {
            FirstIs(opts, incoming, start, k);
            return;
          }
        }
      }
    }

    // -------------------------------------------------------------- moving the null away

    /** `replace_nulls_with`. */
    method ReplaceNullsWith(newNull: int)
      requires base.Valid() && base.coding == SignedCoding && base.size >= 1 && Fits(SignedCoding, newNull, 64)
      modifies base
      ensures base.Valid() && base.Contents() == Replaced(old(base.Contents()), newNull, old(base.size))
      ensures base.w == if Fits(SignedCoding, newNull, old(base.w)) then old(base.w)
              else BitWidth(SignedCoding, newNull)
    {
      ghost var c, w := base.Contents(), base.w;
      BitWidthLeast(SignedCoding, newNull, base.w);
      var oldNull := base.Get(0);
      base.Set(0, newNull);
      assert base.Contents() == Replaced(c, newNull, 1);
      var i := 1;
      while i < base.size
        invariant Replacing(c, newNull, i, w)
        decreases |c| - i
      {
        i := ReplaceNext(oldNull, newNull, i, c, w);
      }
    }

    /** The nulls before slot `i` are replaced. */
    ghost predicate Replacing(c: seq<int>, newNull: int, i: nat, w: nat)
      reads this, base
    {
      && |c| >= 1 && 1 <= i <= |c| && base.Valid() && base.coding == SignedCoding
      && base.Contents() == Replaced(c, newNull, i)
      && Fits(SignedCoding, newNull, 64) && Fits(SignedCoding, newNull, base.w)
      && base.w == if Fits(SignedCoding, newNull, w) then w else BitWidth(SignedCoding, newNull)
    }

    method ReplaceNext(oldNull: int, newNull: int, i: nat, ghost c: seq<int>, ghost w: nat) returns (j: nat)
      requires Replacing(c, newNull, i, w) && i < |c| && oldNull == c[0]
      modifies base
      ensures Replacing(c, newNull, j, w) && i < j
    {
      var found := FindFrom(oldNull, i);
      forall j | i <= j < found ensures Replaced(c, newNull, i)[j] != c[0] {
        assert base.Contents()[j] != oldNull;
      }
      ReplacedStep(c, newNull, i, found);
      if found >= base.size {
        return base.size;
      }
      base.Set(found, newNull);
      j := found + 1;
    }

    /** The null becomes one that is not stored. */
    method ChangeNull(newNull: int)
      requires Sound() && Fits(SignedCoding, newNull, 64) && Some(newNull) !in Contents()
      modifies base
      ensures Sound() && View() == Leaf(Widened(old(base.w), newNull), newNull, old(Contents()))
    {
      ghost var c := base.Contents();
      StoredOption(c, newNull);
      ReplacedSame(c, newNull);
      ReplaceNullsWith(newNull);
    }

    /** `avoid_null_collision`; `start` is where the search for a new null begins. */
    method AvoidNullCollision(value: int, start: int)
      requires Sound() && Room(0) && Fits(SignedCoding, value, 64)
      modifies base
      ensures Sound() && View() == Sheltered(old(View()), value, start)
      ensures Contents() == old(Contents()) && (value == base.Contents()[0] <==> Hidden(old(View()), Some(value)))
    {
      ghost var l := View();
      ViewOK();
      ShelteredOK(l, value, start);
      var null_ := base.Get(0);
      if base.w == 64 {
        if value == null_ {
          RandomNull(value, start);
        }
      } else if value < LowerLimit(base.w) || value >= UpperLimit(base.w) {
        var newWidth := NullWidth(value);
        NewNullOK(l, value, start);
        if newWidth == 64 {
          RandomNull(value, start);
        } else {
          ChangeNull(UpperLimit(newWidth));
        }
      }
    }

    method RandomNull(value: int, start: int)
      requires Sound() && Room(0)
      modifies base
      ensures var x := FirstUsable(old(Contents()), value, start);
              Sound() && View() == Leaf(Widened(old(base.w), x), x, old(Contents()))
    {
      ghost var last := FirstFacts(Contents(), value, start);
      var newNull; ghost var k;
      newNull, k := ChooseRandomNull(start, value);
      ChangeNull(newNull);
    }

    // -------------------------------------------------------------- operations

    /** The array after `avoid_null_collision`, if there is a value, and what is to be stored. */
    method Prepare(value: Option, start: int) returns (raw: int)
      requires Sound() && Room(0) && OptionFits(value, 64)
      modifies base
      ensures Sound() && Contents() == old(Contents()) && Fits(SignedCoding, raw, 64)
      ensures View().(w := Widened(base.w, raw)) == Ready(old(View()), value, start)
      ensures (if raw == base.Contents()[0] then None else Some(raw)) == ReadBack(View(), value)
    {
      if value.Some? {
        AvoidNullCollision(value.value, start);
        raw := value.value;
      } else {
        raw := base.Get(0);
        ViewOK();
        FitsUp(raw, base.w, 64);
      }
    }

    /** `insert`: the options are the old ones with the new one inserted, unless it was hidden. The
        null stays at the limit, if it was there, exactly when the value does not break the leaf. */
    method Insert(ndx: nat, value: Option, start: int)
      requires Sound() && Room(0) && ndx <= |Contents()| && OptionFits(value, 64)
      modifies base
      ensures Sound() && View() == Inserted(old(View()), ndx, value, start)
      ensures var o := old(Contents());
              Contents() == o[..ndx] + [if Hidden(old(View()), value) then None else value] + o[ndx..]
      ensures old(Valid()) ==> !Hidden(old(View()), value) && (Valid() <==> !Breaks(old(View()), value, start))
    {
      ViewOK();
      InsertedExact(View(), ndx, value, start);
      var raw := Prepare(value, start);
      ghost var c := base.Contents();
      base.Insert(ndx + 1, raw);
      OptionsInserted(c, ndx, raw);
    }

    /** `add`. */
    method Add(value: Option, start: int)
      requires Sound() && Room(0) && OptionFits(value, 64)
      modifies base
      ensures Sound() && View() == Inserted(old(View()), |old(Contents())|, value, start)
      ensures Contents() == old(Contents()) + [if Hidden(old(View()), value) then None else value]
      ensures old(Valid()) ==> !Hidden(old(View()), value) && (Valid() <==> !Breaks(old(View()), value, start))
    {
      Insert(base.size - 1, value, start);
    }

    /** `set`. */
    method Set(ndx: nat, value: Option, start: int)
      requires Sound() && Room(0) && ndx < |Contents()| && OptionFits(value, 64)
      modifies base
      ensures Sound() && View() == Overwritten(old(View()), ndx, value, start)
      ensures Contents() == old(Contents())[ndx := if Hidden(old(View()), value) then None else value]
      ensures old(Valid()) ==> !Hidden(old(View()), value) && (Valid() <==> !Breaks(old(View()), value, start))
    {
      ViewOK();
      OverwrittenExact(View(), ndx, value, start);
      var raw := Prepare(value, start);
      ghost var c := base.Contents();
      base.Set(ndx + 1, raw);
      OptionsSet(c, ndx, raw);
    }

    method Erase(ndx: nat)
      requires Sound() && ndx < |Contents()|
      modifies base
      ensures Sound() && Contents() == old(Contents())[..ndx] + old(Contents())[ndx + 1..] &&
              (Valid() <==> old(Valid()))
    {
      ghost var c := base.Contents();
      base.Erase(ndx + 1);
      OptionsErased(c, ndx);
    }

    method Clear()
      requires Sound()
      modifies base
      ensures Valid() && Contents() == []
    {
      base.Truncate(0);
      base.Insert(0, 0);
    }

    /** `move`: the tail goes to the other leaf. With that leaf's null at the limit, everything arrives
        exactly when nothing is lost, and the null is at the limit afterwards exactly when the leaf is
        not spoilt. */
    method Move(dst: ArrayIntNull, ndx: nat, start: int)
      requires Sound() && dst.Sound() && base != dst.base && ndx <= |Contents()| && dst.Room(|Contents()|)
      modifies base, dst.base
      ensures Sound() && dst.Sound() && Contents() == old(Contents())[..ndx] && (Valid() <==> old(Valid()))
      ensures var l, moved := old(dst.View()), old(Contents())[ndx..];
              dst.View() == AddAll(l, moved, start)
      ensures var l, moved := old(dst.View()), old(Contents())[ndx..];
              old(dst.Valid()) ==>
                && (dst.Contents() == old(dst.Contents()) + moved <==> !Loses(l, moved, start))
                && (dst.Valid() <==> !AnySpoilt(l, moved, start))
    {
      ghost var l, moved := dst.View(), Contents()[ndx..];
      assert AllFit64(moved) by {
        OptionsFit();
      }
      dst.ViewOK();
      if dst.Valid() {
        AddAllExact(l, moved, start);
      }
      CopyTo(dst, ndx, start);
      base.Truncate(ndx + 1);
      OptionsPrefix(old(base.Contents()), ndx);
    }

    method CopyTo(dst: ArrayIntNull, ndx: nat, start: int)
      requires Sound() && dst.Sound() && base != dst.base && ndx <= |Contents()| && dst.Room(|Contents()|)
      modifies dst.base
      ensures dst.Sound() && dst.View() == AddAll(old(dst.View()), Contents()[ndx..], start)
    {
      ghost var c, l := Contents(), dst.View();
      var i, end := ndx, base.size - 1;
      AddNone(l, c, ndx, start);
      while i < end
        invariant i <= end == |c| && Copying(dst, c, l, ndx, i, start)
      {
        CopyOne(dst, c, l, ndx, i, start);
        i := i + 1;
      }
      AddedAll(l, c, ndx, start, dst.View());
    }

    /** The elements from `ndx` to `i` are in `dst`. */
    ghost predicate Copying(dst: ArrayIntNull, c: seq<Option>, l: Leaf, ndx: nat, i: nat, start: int)
      reads this, base, dst, dst.base
    {
      Sound() && c == Contents() && base != dst.base && dst.Sound() && AddedUpTo(l, c, ndx, i, start, dst.View())
    }

    method CopyOne(dst: ArrayIntNull, ghost c: seq<Option>, ghost l: Leaf, ghost ndx: nat, i: nat, start: int)
      requires Copying(dst, c, l, ndx, i, start) && i < |c|
      modifies dst.base
      ensures Copying(dst, c, l, ndx, i + 1, start)
    {
      OptionsFit();
      AddOne(l, c, ndx, i, start, dst.View());
      var v := Get(i);
      dst.Add(v, start);
    }

    lemma OptionsFit()
      requires Sound()
      ensures AllFit64(Contents())
    {
      var c := base.Contents();
      assert AllFit(SignedCoding, c, 64);
      forall i | 0 <= i < |Contents()| ensures OptionFits(Contents()[i], 64) {
        assert Fits(SignedCoding, c[i + 1], 64);
      }
    }
  }

  /** A run that loses a value: after the upper limit of 32 bits, 5 is stored and read back as null. */
  method LosingRun(start: int) returns (leaf: ArrayIntNull)
    ensures leaf.Sound() && !leaf.Valid() && leaf.Contents() == [Some(MAX32), None]
  {
    leaf := new ArrayIntNull();
    MaxWidth();
    SmallCandidate();
    leaf.Insert(0, Some(MAX32), 5 - STEP);
    leaf.Insert(1, Some(5), start);
  }

  lemma ReplacedStep(c: seq<int>, x: int, i: nat, found: nat)
    requires 1 <= i <= found <= |c| && forall j :: i <= j < found ==> Replaced(c, x, i)[j] != c[0]
    ensures found < |c| && Replaced(c, x, i)[found] == c[0] ==>
            Replaced(c, x, i)[found := x] == Replaced(c, x, found + 1)
    ensures found == |c| ==> Replaced(c, x, i) == Replaced(c, x, |c|)
  {
  }

  lemma OptionsSet(c: seq<int>, ndx: nat, raw: int)
    requires ndx + 1 < |c|
    ensures Options(c[ndx + 1 := raw]) == Options(c)[ndx := if raw == c[0] then None else Some(raw)]
  {
  }

  lemma OptionsPrefix(c: seq<int>, ndx: nat)
    requires ndx + 1 <= |c|
    ensures Options(c[..ndx + 1]) == Options(c)[..ndx]
  {
  }

  lemma OptionsInserted(c: seq<int>, ndx: nat, raw: int)
    requires |c| >= 1 && ndx < |c|
    ensures var o := Options(c);
            Options(c[..ndx + 1] + [raw] + c[ndx + 1..]) == o[..ndx] + [if raw == c[0] then None else Some(raw)] +
            o[ndx..]
  {
  }

  lemma OptionsErased(c: seq<int>, ndx: nat)
    requires |c| >= 1 && ndx + 1 < |c|
    ensures Options(c[..ndx + 1] + c[ndx + 2..]) == Options(c)[..ndx] + Options(c)[ndx + 1..]
  {
  }
}
