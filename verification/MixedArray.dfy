/** `ArrayMixed`: a leaf of values of any type. Each element is one composite word; values that do
    not fit in it live in one of four payload arrays, at the index the word holds. */
module MixedArrays {
  // Type codes of the file format.
  const INT := 0
  const BOOL := 1
  const LIST := 19
  const DICTIONARY := 21

  /** Float, double and link values are kept as integers. */
  predicate ScalarType(t: nat) { t == 9 || t == 10 || t == 12 }

  /** Strings, binaries, object ids and UUIDs are kept as bytes. */
  predicate BlobType(t: nat) { t == 2 || t == 4 || t == 15 || t == 17 }

  /** Timestamps, decimals and typed links are kept as two integers. */
  predicate PairType(t: nat) { t == 8 || t == 11 || t == 16 }

  predicate CollectionType(t: nat) { t == LIST || t == DICTIONARY }

  datatype Mixed =
    | Null
    | Int(i: int)
    | Bool(b: bool)
    | Scalar(t: nat, raw: int)
    | Blob(t: nat, bytes: seq<nat>)
    | Pair(t: nat, first: int, second: int)
    | Collection(t: nat, ref: int)

  predicate WellTyped(v: Mixed) {
    match v
    case Scalar(t, _) => ScalarType(t)
    case Blob(t, _) => BlobType(t)
    case Pair(t, _, _) => PairType(t)
    case Collection(t, _) => CollectionType(t)
    case _ => true
  }

  // ---------------------------------------------------------------- composite words

  const INTS := 1
  const PAIRS := 2
  const STRINGS := 3
  const REFS := 4

  /** `data << 8 | payload << 5 | type + 1`. */
  function Word(data: int, payload: nat, t: nat): int {
    data * 256 + payload * 32 + t + 1
  }

  function Type(word: int): int {
    word % 32 - 1
  }

  function Payload(word: int): nat {
    word % 256 / 32
  }

  function Data(word: int): int {
    word / 256
  }

  lemma Parts(data: int, low: nat)
    requires low < 256
    ensures (data * 256 + low) % 256 == low && (data * 256 + low) / 256 == data && (data * 256 + low) % 32 == low % 32
  {
    Div256(data, low);
    var a, b := low / 32, low % 32;
    assert data * 256 + low == (8 * data + a) * 32 + b;
    Mod32(8 * data + a, b);
  }

  lemma Div256(q: int, r: nat)
    requires r < 256
    ensures (q * 256 + r) / 256 == q && (q * 256 + r) % 256 == r
  {
    var x := q * 256 + r;
    var y, z := x / 256, x % 256;
    assert x == y * 256 + z;
    assert (y - q) * 256 == r - z;
    assert y == q;
  }

  lemma Mod32(q: int, r: nat)
    requires r < 32
    ensures (q * 32 + r) % 32 == r
  {
    var x := q * 32 + r;
    var y, z := x / 32, x % 32;
    assert x == y * 32 + z;
    assert (y - q) * 32 == r - z;
    assert y == q;
  }

  lemma WordParts(data: int, payload: nat, t: nat)
    requires payload < 8 && t < 31
    ensures var w := Word(data, payload, t); w != 0 && Type(w) == t && Payload(w) == payload && Data(w) == data
  {
    Parts(data, payload * 32 + t + 1);
  }

  /** The word of `replace_index`. */
  function Redirect(word: int, ndx: nat): int {
    ndx * 256 + word % 256
  }

  lemma RedirectParts(word: int, ndx: nat)
    ensures var w := Redirect(word, ndx);
            Type(w) == Type(word) && Payload(w) == Payload(word) && Data(w) == ndx && (Payload(word) > 0 ==> w != 0)
  {
    Parts(ndx, word % 256);
    Parts(word / 256, word % 256);
  }

  // ---------------------------------------------------------------- payload arrays

  /** The payload arrays as they are; pairs take two entries each. */
  datatype Payloads = Payloads(ints: seq<int>, pairs: seq<int>, strings: seq<seq<nat>>, refs: seq<int>)

  /** One slot of a payload array. */
  datatype Cell = One(x: int) | Two(x: int, y: int) | Text(s: seq<nat>)

  function Cells(pay: Payloads, p: nat): seq<Cell> {
    if p == INTS then seq(|pay.ints|, k requires 0 <= k < |pay.ints| => One(pay.ints[k]))
    else if p == PAIRS then
      seq(|pay.pairs| / 2, k requires 0 <= k < |pay.pairs| / 2 => Two(pay.pairs[2 * k], pay.pairs[2 * k + 1]))
    else if p == STRINGS then seq(|pay.strings|, k requires 0 <= k < |pay.strings| => Text(pay.strings[k]))
    else if p == REFS then seq(|pay.refs|, k requires 0 <= k < |pay.refs| => One(pay.refs[k]))
    else []
  }

  /** The value of a type from its slot. */
  function FromCell(t: int, cell: Cell): Mixed {
    if t == INT && cell.One? then Int(cell.x)
    else if t >= 0 && ScalarType(t) && cell.One? then Scalar(t, cell.x)
    else if t >= 0 && BlobType(t) && cell.Text? then Blob(t, cell.s)
    else if t >= 0 && PairType(t) && cell.Two? then Pair(t, cell.x, cell.y)
    else if t >= 0 && CollectionType(t) && cell.One? then Collection(t, cell.x)
    else Null
  }

  /** The value an element stands for, given the cells of its payload array. */
  function Decode(word: int, cells: seq<Cell>): Mixed {
    if word == 0 then Null
    else if Payload(word) == 0 then (if Type(word) == INT then Int(Data(word)) else Bool(Data(word) != 0))
    else if 0 <= Data(word) < |cells| then FromCell(Type(word), cells[Data(word)])
    else Null
  }

  /** Types go with the arrays that hold their payload. */
  predicate Typed(word: int) {
    var t, p := Type(word), Payload(word);
    || word == 0
    || (p == 0 && t == INT)
    || (p == 0 && t == BOOL && (Data(word) == 0 || Data(word) == 1))
    || (p == INTS && t >= 0 && (t == INT || ScalarType(t)))
    || (p == PAIRS && t >= 0 && PairType(t))
    || (p == STRINGS && t >= 0 && BlobType(t))
    || (p == REFS && t >= 0 && CollectionType(t))
  }

  // ---------------------------------------------------------------- one-to-one

  type Tables = seq<seq<Cell>>
  type Owners = seq<seq<nat>>

  /** All payload arrays by their index. */
  function TablesOf(pay: Payloads): (r: Tables)
    ensures |r| == 5
  {
    [[], Cells(pay, INTS), Cells(pay, PAIRS), Cells(pay, STRINGS), Cells(pay, REFS)]
  }

  /** An element that counts: below `m`, and not the one being replaced. */
  predicate Live(i: nat, m: nat, hole: nat) {
    i < m && i != hole
  }

  /** A live word with a payload points to a slot that it owns. */
  ghost predicate Points(words: seq<int>, tables: Tables, owners: Owners, i: nat)
    requires i < |words| && |tables| == 5 && |owners| == 5
  {
    var p, k := Payload(words[i]), Data(words[i]);
    && Typed(words[i])
    && (words[i] != 0 && p > 0 ==> p < 5 && 0 <= k < |tables[p]| && k < |owners[p]| && owners[p][k] == i)
  }

  /** A slot is owned by a live word that points to it. */
  ghost predicate Owned(words: seq<int>, owners: Owners, m: nat, hole: nat, p: nat, k: nat)
    requires |owners| == 5 && p < 5 && k < |owners[p]|
  {
    var i := owners[p][k];
    Live(i, m, hole) && i < |words| && words[i] != 0 && Payload(words[i]) == p && Data(words[i]) == k
  }

  /** Live words with payloads and slots correspond one to one; `owners` is the inverse. Words from
      `m` on, and the one at `hole`, are left over and mean nothing. */
  ghost predicate Matched(words: seq<int>, tables: Tables, owners: Owners, m: nat, hole: nat) {
    && |tables| == 5 && |owners| == 5 && m <= |words| && tables[0] == []
    && (forall p :: 0 <= p < 5 ==> |owners[p]| == |tables[p]|)
    && (forall i {:trigger Points(words, tables, owners, i)} :: 0 <= i < |words| && Live(i, m, hole) ==>
        Points(words, tables, owners, i))
    && (forall p, k {:trigger Owned(words, owners, m, hole, p, k)} :: 0 <= p < 5 && 0 <= k < |owners[p]| ==>
        Owned(words, owners, m, hole, p, k))
  }

  /** The value of element `i`. */
  function ValueAt(words: seq<int>, tables: Tables, i: nat): Mixed
    requires i < |words| && |tables| == 5
  {
    Decode(words[i], if Payload(words[i]) < 5 then tables[Payload(words[i])] else [])
  }

  /** The slot at `k` removed by moving the last one over it. */
  function MoveLastOver<A>(s: seq<A>, k: nat): seq<A>
    requires k < |s|
  {
    s[k := s[|s| - 1]][..|s| - 1]
  }

  /** What `erase_linked_payload` does to the words: the owner of the last slot is redirected. */
  ghost function Redirected(words: seq<int>, owners: Owners, p: nat, k: nat): seq<int>
    requires p < |owners| && k < |owners[p]|
    requires owners[p][|owners[p]| - 1] < |words|
  {
    var last := |owners[p]| - 1;
    if k == last then words else words[owners[p][last] := Redirect(words[owners[p][last]], k)]
  }

  lemma ErasePayload(words: seq<int>, tables: Tables, owners: Owners, m: nat, ndx: nat)
    requires Matched(words, tables, owners, m, m) && ndx < m && words[ndx] != 0 && Payload(words[ndx]) > 0
    ensures var p, k := Payload(words[ndx]), Data(words[ndx]);
            && p < 5 && 0 <= k < |tables[p]| && k < |owners[p]| && owners[p][|owners[p]| - 1] < |words|
            && var words', tables', owners' := Redirected(words, owners, p, k),
               tables[p := MoveLastOver(tables[p], k)], owners[p := MoveLastOver(owners[p], k)];
            && Matched(words', tables', owners', m, ndx)
            && |words'| == |words| && (forall i :: m <= i < |words| ==> words'[i] == words[i])
            && forall i :: 0 <= i < m && i != ndx ==> ValueAt(words', tables', i) == ValueAt(words, tables, i)
  {
    assert Points(words, tables, owners, ndx);
    var p, k := Payload(words[ndx]), Data(words[ndx]);
    var last := |owners[p]| - 1;
    assert Owned(words, owners, m, m, p, last);
    var words', tables', owners' := Redirected(words, owners, p, k), tables[p := MoveLastOver(tables[p], k)],
      owners[p := MoveLastOver(owners[p], k)];
    forall i | 0 <= i < m && i != ndx
      ensures Points(words', tables', owners', i) && ValueAt(words', tables', i) == ValueAt(words, tables, i)
    {
      StillPoints(words, tables, owners, m, ndx, p, k, i);
    }
    forall q, h | 0 <= q < 5 && 0 <= h < |owners'[q]| ensures Owned(words', owners', m, ndx, q, h) {
      StillOwned(words, tables, owners, m, ndx, p, k, q, h);
    }
  }

  lemma StillPoints(words: seq<int>, tables: Tables, owners: Owners, m: nat, ndx: nat, p: nat, k: nat, i: nat)
    requires Matched(words, tables, owners, m, m) && ndx < m && 0 < p < 5 && k < |owners[p]| && owners[p][k] == ndx
    requires i < m && i != ndx && owners[p][|owners[p]| - 1] < |words|
    ensures var words', tables', owners' := Redirected(words, owners, p, k), tables[p := MoveLastOver(tables[p], k)],
            owners[p := MoveLastOver(owners[p], k)];
            Points(words', tables', owners', i) && ValueAt(words', tables', i) == ValueAt(words, tables, i)
  {
    var last := |owners[p]| - 1;
    assert Owned(words, owners, m, m, p, last) && Points(words, tables, owners, i);
    RedirectParts(words[owners[p][last]], k);
  }

  lemma StillOwned(words: seq<int>, tables: Tables, owners: Owners, m: nat, ndx: nat, p: nat, k: nat, q: nat, h: nat)
    requires Matched(words, tables, owners, m, m) && ndx < m && 0 < p < 5 && k < |owners[p]| && owners[p][k] == ndx
    requires q < 5 && h < |owners[p := MoveLastOver(owners[p], k)][q]| && owners[p][|owners[p]| - 1] < |words|
    ensures Owned(Redirected(words, owners, p, k), owners[p := MoveLastOver(owners[p], k)], m, ndx, q, h)
  {
    var last := |owners[p]| - 1;
    assert Owned(words, owners, m, m, q, if q == p && h == k then last else h);
    assert Owned(words, owners, m, m, p, last) && Owned(words, owners, m, m, p, k);
    RedirectParts(words[owners[p][last]], k);
  }

  /** `replace_index` takes the first word that points to the slot: no word before the owner does,
      and words left over from earlier erasures come after it. */
  lemma OwnerIsFirst(words: seq<int>, tables: Tables, owners: Owners, m: nat, p: nat, k: nat, i: nat)
    requires Matched(words, tables, owners, m, m) && 0 < p < 5 && k < |owners[p]| && i < |words|
    ensures owners[p][k] < m && Payload(words[owners[p][k]]) == p && Data(words[owners[p][k]]) == k
    ensures i < owners[p][k] ==> !(Payload(words[i]) == p && Data(words[i]) == k)
  {
    assert Owned(words, owners, m, m, p, k);
    if i < owners[p][k] {
      assert Points(words, tables, owners, i);
    }
  }

  /** An element without payload can be given up as it is. */
  lemma DropPlain(words: seq<int>, tables: Tables, owners: Owners, m: nat, ndx: nat)
    requires Matched(words, tables, owners, m, m) && ndx < m && (words[ndx] == 0 || Payload(words[ndx]) == 0)
    ensures Matched(words, tables, owners, m, ndx)
  {
    forall i | 0 <= i < |words| && Live(i, m, ndx) ensures Points(words, tables, owners, i) {
    }
    forall p, k | 0 <= p < 5 && 0 <= k < |owners[p]| ensures Owned(words, owners, m, ndx, p, k) {
      assert Owned(words, owners, m, m, p, k);
    }
  }

  /** The element at the hole gets a word without payload. */
  lemma FillPlain(words: seq<int>, tables: Tables, owners: Owners, m: nat, hole: nat, w: int)
    requires Matched(words, tables, owners, m, hole) && hole < m && Typed(w) && Payload(w) == 0
    ensures var words' := words[hole := w];
            && Matched(words', tables, owners, m, m)
            && forall i :: 0 <= i < m && i != hole ==> ValueAt(words', tables, i) == ValueAt(words, tables, i)
  {
    var words' := words[hole := w];
    forall i | 0 <= i < |words'| && Live(i, m, m) ensures Points(words', tables, owners, i) {
      assert i != hole ==> Points(words, tables, owners, i);
    }
    forall p, k | 0 <= p < 5 && 0 <= k < |owners[p]| ensures Owned(words', owners, m, m, p, k) {
      assert Owned(words, owners, m, hole, p, k);
    }
  }

  /** The element at the hole gets a new slot at the end of payload array `p`. */
  lemma FillPayload(words: seq<int>, tables: Tables, owners: Owners, m: nat, hole: nat, w: int, p: nat, cell: Cell)
    requires Matched(words, tables, owners, m, hole) && hole < m
    requires Typed(w) && w != 0 && Payload(w) == p && 0 < p < 5 && Data(w) == |tables[p]|
    ensures var words', tables', owners' := words[hole := w], tables[p := tables[p] + [cell]],
            owners[p := owners[p] + [hole]];
            && Matched(words', tables', owners', m, m)
            && (forall i :: 0 <= i < m && i != hole ==> ValueAt(words', tables', i) == ValueAt(words, tables, i))
            && ValueAt(words', tables', hole) == FromCell(Type(w), cell)
  {
    var words', tables', owners' := words[hole := w], tables[p := tables[p] + [cell]], owners[p := owners[p] + [hole]];
    forall i | 0 <= i < |words'| && Live(i, m, m)
      ensures Points(words', tables', owners', i) &&
              (i != hole ==> ValueAt(words', tables', i) == ValueAt(words, tables, i))
    {
      assert i != hole ==> Points(words, tables, owners, i);
    }
    forall q, k | 0 <= q < 5 && 0 <= k < |owners'[q]| ensures Owned(words', owners', m, m, q, k) {
      assert k < |owners[q]| ==> Owned(words, owners, m, hole, q, k);
    }
  }

  // ---------------------------------------------------------------- shifting elements

  function Shift(o: nat, ndx: nat, d: int): nat
    requires d == 1 || (d == -1 && (o > ndx ==> o >= 1))
  {
    if d == 1 then (if o >= ndx then o + 1 else o) else if o > ndx then o - 1 else o
  }

  ghost function ShiftAll(os: seq<nat>, ndx: nat, d: int): (r: seq<nat>)
    requires d == 1 || d == -1
    ensures |r| == |os| && forall k :: 0 <= k < |os| ==> r[k] == Shift(os[k], ndx, d)
  {
    seq(|os|, k requires 0 <= k < |os| => Shift(os[k], ndx, d))
  }

  ghost function ShiftOwners(owners: Owners, ndx: nat, d: int): (r: Owners)
    requires d == 1 || d == -1
    ensures |r| == |owners| && forall p :: 0 <= p < |owners| ==> r[p] == ShiftAll(owners[p], ndx, d)
  {
    seq(|owners|, p requires 0 <= p < |owners| => ShiftAll(owners[p], ndx, d))
  }

  lemma OpenHole(words: seq<int>, tables: Tables, owners: Owners, ndx: nat, x: int)
    requires Matched(words, tables, owners, |words|, |words|) && ndx <= |words|
    ensures var words' := words[..ndx] + [x] + words[ndx..];
            && Matched(words', tables, ShiftOwners(owners, ndx, 1), |words'|, ndx)
            && (forall i :: 0 <= i < ndx ==> ValueAt(words', tables, i) == ValueAt(words, tables, i))
            && (forall i :: ndx < i < |words'| ==> ValueAt(words', tables, i) == ValueAt(words, tables, i - 1))
  {
    var words', owners' := words[..ndx] + [x] + words[ndx..], ShiftOwners(owners, ndx, 1);
    forall i | 0 <= i < |words'| && Live(i, |words'|, ndx) ensures Points(words', tables, owners', i) {
      assert Points(words, tables, owners, if i < ndx then i else i - 1);
    }
    forall p, k | 0 <= p < 5 && 0 <= k < |owners'[p]| ensures Owned(words', owners', |words'|, ndx, p, k) {
      assert Owned(words, owners, |words|, |words|, p, k);
    }
  }

  lemma CloseHole(words: seq<int>, tables: Tables, owners: Owners, ndx: nat)
    requires Matched(words, tables, owners, |words|, ndx) && ndx < |words|
    ensures var words' := words[..ndx] + words[ndx + 1..];
            && Matched(words', tables, ShiftOwners(owners, ndx, -1), |words'|, |words'|)
            && (forall i :: 0 <= i < ndx ==> ValueAt(words', tables, i) == ValueAt(words, tables, i))
            && (forall i :: ndx <= i < |words'| ==> ValueAt(words', tables, i) == ValueAt(words, tables, i + 1))
  {
    var words', owners' := words[..ndx] + words[ndx + 1..], ShiftOwners(owners, ndx, -1);
    forall i | 0 <= i < |words'| && Live(i, |words'|, |words'|) ensures Points(words', tables, owners', i) {
      assert Points(words, tables, owners, if i < ndx then i else i + 1);
    }
    forall p, k | 0 <= p < 5 && 0 <= k < |owners'[p]| ensures Owned(words', owners', |words'|, |words'|, p, k) {
      assert Owned(words, owners, |words|, ndx, p, k);
    }
  }

  lemma CutWords(words: seq<int>, tables: Tables, owners: Owners, m: nat)
    requires Matched(words, tables, owners, m, m)
    ensures Matched(words[..m], tables, owners, m, m)
    ensures forall i :: 0 <= i < m ==> ValueAt(words[..m], tables, i) == ValueAt(words, tables, i)
  {
    var words' := words[..m];
    forall i | 0 <= i < m ensures Points(words', tables, owners, i) {
      assert Points(words, tables, owners, i);
    }
    forall p, k | 0 <= p < 5 && 0 <= k < |owners[p]| ensures Owned(words', owners, m, m, p, k) {
      assert Owned(words, owners, m, m, p, k);
    }
  }

  /** The element at the end of the live part was given up. */
  lemma ShrinkLive(words: seq<int>, tables: Tables, owners: Owners, m: nat)
    requires Matched(words, tables, owners, m + 1, m)
    ensures Matched(words, tables, owners, m, m)
  {
    forall i | 0 <= i < |words| && Live(i, m, m) ensures Points(words, tables, owners, i) {
      assert Live(i, m + 1, m);
    }
    forall p, k | 0 <= p < 5 && 0 <= k < |owners[p]| ensures Owned(words, owners, m, m, p, k) {
      assert Owned(words, owners, m + 1, m, p, k);
    }
  }

  // ---------------------------------------------------------------- payload arrays change

  /** The last cell of array `p` was moved over cell `k`. */
  ghost predicate CellRemoved(pay: Payloads, pay': Payloads, p: nat, k: nat)
    requires k < |Cells(pay, p)| && |pay.pairs| % 2 == 0
  {
    && (p == INTS ==> pay' == pay.(ints := MoveLastOver(pay.ints, k)))
    && (p == PAIRS ==> var n := |pay.pairs| - 2;
          pay' == pay.(pairs := pay.pairs[2 * k := pay.pairs[n]][2 * k + 1 := pay.pairs[n + 1]][..n]))
    && (p == STRINGS ==> pay' == pay.(strings := MoveLastOver(pay.strings, k)))
    && (p == REFS ==> pay' == pay.(refs := MoveLastOver(pay.refs, k)))
  }

  lemma LastOver(pay: Payloads, p: nat, k: nat, pay': Payloads)
    requires 0 < p < 5 && |pay.pairs| % 2 == 0 && k < |Cells(pay, p)| && CellRemoved(pay, pay', p, k)
    ensures TablesOf(pay') == TablesOf(pay)[p := MoveLastOver(Cells(pay, p), k)] && |pay'.pairs| % 2 == 0
  {
    assert Cells(pay', p) == MoveLastOver(Cells(pay, p), k);
  }

  lemma NewCell(pay: Payloads, p: nat, pay': Payloads, cell: Cell)
    requires 0 < p < 5 && |pay.pairs| % 2 == 0
    requires p == INTS ==> cell.One? && pay' == pay.(ints := pay.ints + [cell.x])
    requires p == PAIRS ==> cell.Two? && pay' == pay.(pairs := pay.pairs + [cell.x] + [cell.y])
    requires p == STRINGS ==> cell.Text? && pay' == pay.(strings := pay.strings + [cell.s])
    requires p == REFS ==> cell.One? && pay' == pay.(refs := pay.refs + [cell.x])
    ensures TablesOf(pay') == TablesOf(pay)[p := Cells(pay, p) + [cell]] && |pay'.pairs| % 2 == 0
  {
    assert Cells(pay', p) == Cells(pay, p) + [cell];
  }

  // ---------------------------------------------------------------- the leaf

  class ArrayMixed {
    var composite: seq<int>
    var pay: Payloads
    ghost var owners: Owners

    ghost predicate Inv(m: nat, hole: nat)
      reads this
    {
      Matched(composite, TablesOf(pay), owners, m, hole) && |pay.pairs| % 2 == 0
    }

    ghost predicate Valid()
      reads this
    {
      Inv(|composite|, |composite|)
    }

    ghost function At(i: nat): Mixed
      requires i < |composite|
      reads this
    {
      ValueAt(composite, TablesOf(pay), i)
    }

    ghost function Contents(): (r: seq<Mixed>)
      reads this
      ensures |r| == |composite| && forall i :: 0 <= i < |r| ==> r[i] == At(i)
    {
      seq(|composite|, i requires 0 <= i < |composite| reads this => At(i))
    }

    constructor ()
      ensures Valid() && Contents() == []
    {
      composite, pay, owners := [], Payloads([], [], [], []), [[], [], [], [], []];
    }

    method Get(ndx: nat) returns (v: Mixed)
      requires Valid() && ndx < |composite|
      ensures v == Contents()[ndx] && WellTyped(v)
    {
      assert Points(composite, TablesOf(pay), owners, ndx);
      var val := composite[ndx];
      if val == 0 {
        return Null;
      }
      var t, p, data := Type(val), Payload(val), Data(val);
      if t == INT {
        v := if p != 0 then Int(pay.ints[data]) else Int(data);
      } else if t == BOOL {
        v := Bool(data != 0);
      } else if ScalarType(t) {
        v := Scalar(t, pay.ints[data]);
      } else if BlobType(t) {
        v := Blob(t, pay.strings[data]);
      } else if PairType(t) {
        v := Pair(t, pay.pairs[2 * data], pay.pairs[2 * data + 1]);
      } else {
        v := Collection(t, pay.refs[data]);
      }
    }

    // -------------------------------------------------------------- giving up a payload

    /** `replace_index`: the first word that points to slot `oldNdx` of array `p` now points to `newNdx`. */
    method ReplaceIndex(oldNdx: nat, newNdx: nat, p: nat, ghost j: nat)
      requires j < |composite| && Payload(composite[j]) == p && Data(composite[j]) == oldNdx && oldNdx != newNdx
      requires forall i :: 0 <= i < j ==> !(Payload(composite[i]) == p && Data(composite[i]) == oldNdx)
      modifies this`composite
      ensures composite == old(composite)[j := Redirect(old(composite)[j], newNdx)]
    {
      if oldNdx != newNdx {
        var i := 0;
        while i != |composite|
          invariant i <= j && composite == old(composite)
          decreases |composite| - i
        {
          var val := composite[i];
          if Payload(val) == p && Data(val) == oldNdx {
            composite := composite[i := Redirect(val, newNdx)];
            return;
          }
          i := i + 1;
        }
      }
    }

    /** `erase_linked_payload`: the slot of element `ndx` is removed by moving the last slot over it. */
    method EraseLinkedPayload(ndx: nat, ghost m: nat)
      requires Inv(m, m) && ndx < m
      modifies this
      ensures Inv(m, ndx) && |composite| == |old(composite)|
      ensures forall i :: m <= i < |composite| ==> composite[i] == old(composite)[i]
      ensures forall i :: 0 <= i < m && i != ndx ==> At(i) == old(At(i))
    {
      var val := composite[ndx];
      var p := Payload(val);
      assert Points(composite, TablesOf(pay), owners, ndx);
      if p == 0 {
        DropPlain(composite, TablesOf(pay), owners, m, ndx);
        return;
      }
      var k := Data(val);
      ErasePayload(composite, TablesOf(pay), owners, m, ndx);
      ghost var pay0 := pay;
      RemoveSlot(p, k, m);
      LastOver(pay0, p, k, pay);
      owners := owners[p := MoveLastOver(owners[p], k)];
    }

    /** Slot `k` of payload array `p` is removed, and the owner of the last slot told. */
    method RemoveSlot(p: nat, k: nat, ghost m: nat)
      requires Inv(m, m) && 0 < p < 5 && k < |owners[p]| && owners[p][|owners[p]| - 1] < |composite|
      modifies this`composite, this`pay
      ensures composite == Redirected(old(composite), owners, p, k) && CellRemoved(old(pay), pay, p, k)
    {
      ghost var tables := TablesOf(pay);
      var lastNdx := RemoveCell(p, k);
      if k != lastNdx {
        forall i | 0 <= i < |composite| && i < owners[p][lastNdx]
          ensures !(Payload(composite[i]) == p && Data(composite[i]) == lastNdx) {
          OwnerIsFirst(composite, tables, owners, m, p, lastNdx, i);
        }
        OwnerIsFirst(composite, tables, owners, m, p, lastNdx, 0);
        ReplaceIndex(lastNdx, k, p, owners[p][lastNdx]);
      }
    }

    /** The part that depends on the payload array. */
    method RemoveCell(p: nat, k: nat) returns (lastNdx: nat)
      requires 0 < p < 5 && k < |Cells(pay, p)| && |pay.pairs| % 2 == 0
      modifies this`pay
      ensures lastNdx == |Cells(old(pay), p)| - 1 && CellRemoved(old(pay), pay, p, k)
    {
      if p == INTS {
        lastNdx := |pay.ints| - 1;
        if k != lastNdx {
          pay := pay.(ints := pay.ints[k := pay.ints[lastNdx]]);
        }
        pay := pay.(ints := pay.ints[..lastNdx]);
      } else if p == STRINGS {
        lastNdx := |pay.strings| - 1;
        if k != lastNdx {
          pay := pay.(strings := pay.strings[k := pay.strings[lastNdx]]);
        }
        pay := pay.(strings := pay.strings[..lastNdx]);
      } else if p == PAIRS {
        var n := |pay.pairs| - 2;
        if 2 * k != n {
          pay := pay.(pairs := pay.pairs[2 * k := pay.pairs[n]]);
          pay := pay.(pairs := pay.pairs[2 * k + 1 := pay.pairs[n + 1]]);
        }
        pay := pay.(pairs := pay.pairs[..n]);
        lastNdx := n / 2;
      } else {
        lastNdx := |pay.refs| - 1;
        if k != lastNdx {
          pay := pay.(refs := pay.refs[k := pay.refs[lastNdx]]);
        }
        pay := pay.(refs := pay.refs[..lastNdx]);
      }
    }

    // -------------------------------------------------------------- storing a value

    /** `store`: the word for a value, with its payload appended to the right array. */
    method Store(value: Mixed) returns (w: int, ghost cell: Cell)
      requires value != Null && WellTyped(value) && |pay.pairs| % 2 == 0
      modifies this`pay
      ensures Stored(old(pay), pay, w, cell, value)
    {
      cell := One(0);
      match value
      case Int(i) =>
        if -0x8000_0000 <= i <= 0x7fff_ffff {
          w := Word(i, 0, INT);
          InlineInt(pay, i, cell);
        } else {
          w, cell := StoreInt(INT, i);
        }
      case Bool(b) =>
        w := Word(if b then 1 else 0, 0, BOOL);
        InlineBool(pay, b, cell);
      case Scalar(t, raw) =>
        w, cell := StoreInt(t, raw);
      case Blob(t, bytes) =>
        w, cell := StoreBlob(t, bytes);
      case Pair(t, a, b) =>
        w, cell := StorePair(t, a, b);
      case Collection(t, ref) =>
        w, cell := StoreRef(t, ref);
    }

    method StoreInt(t: nat, raw: int) returns (w: int, ghost cell: Cell)
      requires (t == INT || ScalarType(t)) && |pay.pairs| % 2 == 0
      modifies this`pay
      ensures Stored(old(pay), pay, w, cell, if t == INT then Int(raw) else Scalar(t, raw))
    {
      ghost var pay0 := pay;
      w, cell := Word(|pay.ints|, INTS, t), One(raw);
      WordParts(|pay.ints|, INTS, t);
      pay := pay.(ints := pay.ints + [raw]);
      NewCell(pay0, INTS, pay, cell);
    }

    method StoreBlob(t: nat, bytes: seq<nat>) returns (w: int, ghost cell: Cell)
      requires BlobType(t) && |pay.pairs| % 2 == 0
      modifies this`pay
      ensures Stored(old(pay), pay, w, cell, Blob(t, bytes))
    {
      ghost var pay0 := pay;
      w, cell := Word(|pay.strings|, STRINGS, t), Text(bytes);
      WordParts(|pay.strings|, STRINGS, t);
      pay := pay.(strings := pay.strings + [bytes]);
      NewCell(pay0, STRINGS, pay, cell);
    }

    method StorePair(t: nat, a: int, b: int) returns (w: int, ghost cell: Cell)
      requires PairType(t) && |pay.pairs| % 2 == 0
      modifies this`pay
      ensures Stored(old(pay), pay, w, cell, Pair(t, a, b))
    {
      ghost var pay0 := pay;
      w, cell := Word(|pay.pairs| / 2, PAIRS, t), Two(a, b);
      WordParts(|pay.pairs| / 2, PAIRS, t);
      pay := pay.(pairs := pay.pairs + [a] + [b]);
      NewCell(pay0, PAIRS, pay, cell);
    }

    method StoreRef(t: nat, ref: int) returns (w: int, ghost cell: Cell)
      requires CollectionType(t) && |pay.pairs| % 2 == 0
      modifies this`pay
      ensures Stored(old(pay), pay, w, cell, Collection(t, ref))
    {
      ghost var pay0 := pay;
      w, cell := Word(|pay.refs|, REFS, t), One(ref);
      WordParts(|pay.refs|, REFS, t);
      pay := pay.(refs := pay.refs + [ref]);
      NewCell(pay0, REFS, pay, cell);
    }

    // -------------------------------------------------------------- operations

    method Insert(ndx: nat, value: Mixed)
      requires Valid() && WellTyped(value) && ndx <= |composite|
      modifies this
      ensures Valid() && Contents() == old(Contents())[..ndx] + [value] + old(Contents())[ndx..]
    {
      ghost var pay0, c := pay, Contents();
      var w := 0;
      ghost var cell := One(0);
      if value != Null {
        w, cell := Store(value);
      }
      InsertWord(ndx, w, value, cell, pay0, c);
    }

    method InsertWord(ndx: nat, w: int, ghost value: Mixed, ghost cell: Cell, ghost pay0: Payloads, ghost c: seq<Mixed>)
      requires Matched(composite, TablesOf(pay0), owners, |composite|, |composite|) && |pay0.pairs| % 2 == 0 &&
               ndx <= |composite|
      requires |c| == |composite| && forall i :: 0 <= i < |c| ==> c[i] == ValueAt(composite, TablesOf(pay0), i)
      requires if value == Null then w == 0 && pay == pay0 else Stored(pay0, pay, w, cell, value)
      modifies this`composite, this`owners
      ensures Valid() && Contents() == c[..ndx] + [value] + c[ndx..]
    {
      OpenHole(composite, TablesOf(pay0), owners, ndx, w);
      composite := composite[..ndx] + [w] + composite[ndx..];
      owners := ShiftOwners(owners, ndx, 1);
      FillIn(|composite|, ndx, value, w, cell, pay0);
      ghost var r := c[..ndx] + [value] + c[ndx..];
      forall i | 0 <= i < |composite| ensures At(i) == r[i] {
        assert r[i] == if i < ndx then c[i] else if i == ndx then value else c[i - 1];
      }
    }

    /** The word at the hole, and the payload behind it, count from now on. */
    ghost method FillIn(m: nat, hole: nat, value: Mixed, w: int, cell: Cell, pay0: Payloads)
      requires Matched(composite, TablesOf(pay0), owners, m, hole) && |pay0.pairs| % 2 == 0
      requires hole < m && composite[hole] == w
      requires if value == Null then w == 0 && pay == pay0 else Stored(pay0, pay, w, cell, value)
      modifies this`owners
      ensures Inv(m, m) && At(hole) == value
      ensures forall i :: 0 <= i < m && i != hole ==> At(i) == ValueAt(composite, TablesOf(pay0), i)
    {
      assert composite[hole := w] == composite;
      if Payload(w) == 0 {
        FillPlain(composite, TablesOf(pay0), owners, m, hole, w);
      } else {
        FillPayload(composite, TablesOf(pay0), owners, m, hole, w, Payload(w), cell);
        owners := owners[Payload(w) := owners[Payload(w)] + [hole]];
      }
    }

    method Add(value: Mixed)
      requires Valid() && WellTyped(value)
      modifies this
      ensures Valid() && Contents() == old(Contents()) + [value]
    {
      Insert(|composite|, value);
    }

    method Set(ndx: nat, value: Mixed)
      requires Valid() && WellTyped(value) && ndx < |composite|
      modifies this
      ensures Valid() && Contents() == old(Contents())[ndx := value]
    {
      if value == Null {
        SetNull(ndx);
      } else {
        EraseLinkedPayload(ndx, |composite|);
        ghost var words, pay0, n := composite, pay, |composite|;
        var w; ghost var cell;
        w, cell := Store(value);
        composite := composite[ndx := w];
        HoleMeansNothing(words, composite, TablesOf(pay0), owners, n, ndx);
        FillIn(n, ndx, value, w, cell, pay0);
      }
    }

    method SetNull(ndx: nat)
      requires Valid() && ndx < |composite|
      modifies this
      ensures Valid() && Contents() == old(Contents())[ndx := Null]
    {
      if composite[ndx] != 0 {
        EraseLinkedPayload(ndx, |composite|);
        FillPlain(composite, TablesOf(pay), owners, |composite|, ndx, 0);
        composite := composite[ndx := 0];
      }
    }

    method Erase(ndx: nat)
      requires Valid() && ndx < |composite|
      modifies this
      ensures Valid() && Contents() == old(Contents())[..ndx] + old(Contents())[ndx + 1..]
    {
      EraseLinkedPayload(ndx, |composite|);
      CloseHole(composite, TablesOf(pay), owners, ndx);
      composite := composite[..ndx] + composite[ndx + 1..];
      owners := ShiftOwners(owners, ndx, -1);
    }

    /** The elements from `ndx` on go to the end of `dst`. Their words stay until the end; the
        payloads are given up from the last element down. */
    method Move(dst: ArrayMixed, ndx: nat)
      requires Valid() && dst.Valid() && dst != this && ndx <= |composite|
      modifies this, dst
      ensures Valid() && dst.Valid() && Contents() == old(Contents())[..ndx]
      ensures dst.Contents() == old(dst.Contents()) + old(Contents())[ndx..]
    {
      CopyTo(dst, ndx);
      ReleaseFrom(ndx);
      CutWords(composite, TablesOf(pay), owners, ndx);
      composite := composite[..ndx];
    }

    method CopyTo(dst: ArrayMixed, ndx: nat)
      requires Valid() && dst.Valid() && dst != this && ndx <= |composite|
      modifies dst
      ensures dst.Valid() && dst.Contents() == old(dst.Contents()) + Contents()[ndx..]
    {
      ghost var c, d := Contents(), dst.Contents();
      var i := ndx;
      while i < |composite|
        invariant ndx <= i <= |composite| && dst.Valid() && dst.Contents() == d + c[ndx..i]
      {
        var val := Get(i);
        OneMore(d, c, ndx, i);
        i := i + 1;
        dst.Add(val);
      }
      assert c[ndx..] == c[ndx..i];
    }

    method ReleaseFrom(ndx: nat)
      requires Valid() && ndx <= |composite|
      modifies this
      ensures Inv(ndx, ndx) && |composite| == |old(composite)| && forall j :: 0 <= j < ndx ==> At(j) == old(At(j))
    {
      var i := |composite|;
      while i > ndx
        invariant ndx <= i <= |composite| == |old(composite)| && Inv(i, i)
        invariant forall j :: 0 <= j < ndx ==> At(j) == old(At(j))
      {
        i := i - 1;
        EraseLinkedPayload(i, i + 1);
        ShrinkLive(composite, TablesOf(pay), owners, i);
      }
    }

    method Clear()
      modifies this
      ensures Valid() && Contents() == []
    {
      composite, pay, owners := [], Payloads([], [], [], []), [[], [], [], [], []];
    }
  }

  lemma OneMore<A>(d: seq<A>, c: seq<A>, lo: nat, i: nat)
    requires lo <= i < |c|
    ensures d + c[lo..i] + [c[i]] == d + c[lo..i + 1]
  {
  }

  /** A word for `value`, with its payload, if any, as a new slot. */
  ghost predicate Stored(pay0: Payloads, pay: Payloads, w: int, cell: Cell, value: Mixed) {
    && Typed(w) && w != 0 && Payload(w) < 5 && |pay.pairs| % 2 == 0
    && (Payload(w) == 0 ==> pay == pay0 && Decode(w, []) == value)
    && (Payload(w) > 0 ==>
          && Data(w) == |Cells(pay0, Payload(w))| && FromCell(Type(w), cell) == value
          && TablesOf(pay) == TablesOf(pay0)[Payload(w) := Cells(pay0, Payload(w)) + [cell]])
  }

  lemma InlineInt(pay: Payloads, i: int, cell: Cell)
    requires |pay.pairs| % 2 == 0
    ensures Stored(pay, pay, Word(i, 0, INT), cell, Int(i))
  {
    WordParts(i, 0, INT);
  }

  lemma InlineBool(pay: Payloads, b: bool, cell: Cell)
    requires |pay.pairs| % 2 == 0
    ensures Stored(pay, pay, Word(if b then 1 else 0, 0, BOOL), cell, Bool(b))
  {
    if b {
      InlineWord(pay, 258, 1, cell);
    } else {
      InlineWord(pay, 2, 0, cell);
    }
  }

  lemma InlineWord(pay: Payloads, w: int, d: int, cell: Cell)
    requires |pay.pairs| % 2 == 0 && w == 256 * d + 2 && (d == 0 || d == 1)
    ensures Stored(pay, pay, w, cell, Bool(d == 1))
  {
    Parts(d, 2);
    PlainBool(w, d);
  }

  lemma PlainBool(w: int, d: int)
    requires (d == 0 || d == 1) && w != 0 && Type(w) == BOOL && Payload(w) == 0 && Data(w) == d
    ensures Typed(w) && Decode(w, []) == Bool(d != 0)
  {
  }

  /** The word at the hole may be any. */
  lemma HoleMeansNothing(words: seq<int>, words': seq<int>, tables: Tables, owners: Owners, m: nat, hole: nat)
    requires Matched(words, tables, owners, m, hole) && hole < |words| == |words'| &&
             words' == words[hole := words'[hole]]
    ensures Matched(words', tables, owners, m, hole)
  {
    forall i | 0 <= i < |words'| && Live(i, m, hole) ensures Points(words', tables, owners, i) {
      assert Points(words, tables, owners, i);
    }
    forall p, k | 0 <= p < 5 && 0 <= k < |owners[p]| ensures Owned(words', owners, m, hole, p, k) {
      assert Owned(words, owners, m, hole, p, k);
    }
  }
}
