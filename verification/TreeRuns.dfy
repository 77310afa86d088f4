/** Whole runs: any sequence of operations on a B+-tree does to its contents what the same
    sequence does to a plain sequence. */
module TreeRuns {
  import opened TreeModel
  import opened BPlusTrees
  import opened Words

  datatype Op<T> =
    | InsertOp(n: nat, v: T)
    | AddOp(v: T)
    | AddFromOp(values: seq<T>)
    | EraseOp(n: nat)
    | SetOp(n: nat, v: T)
    | ClearOp

  /** The operation can be applied: indices are in range, and sizes stay representable. */
  predicate Applicable<T>(s: seq<T>, op: Op<T>) {
    match op
    case InsertOp(n, _) => n <= |s| && |s| + 1 < NPOS
    case AddOp(_) => |s| + 1 < NPOS
    case AddFromOp(values) => |s| + |values| < NPOS
    case EraseOp(n) => n < |s|
    case SetOp(n, _) => n < |s|
    case ClearOp => true
  }

  function Step<T>(s: seq<T>, op: Op<T>): seq<T>
    requires Applicable(s, op)
  {
    match op
    case InsertOp(n, v) => s[..n] + [v] + s[n..]
    case AddOp(v) => s + [v]
    case AddFromOp(values) => s + values
    case EraseOp(n) => s[..n] + s[n + 1..]
    case SetOp(n, v) => s[n := v]
    case ClearOp => []
  }

  predicate AllApplicable<T>(s: seq<T>, ops: seq<Op<T>>)
    decreases |ops|
  {
    ops == [] || (Applicable(s, ops[0]) && AllApplicable(Step(s, ops[0]), ops[1..]))
  }

  function After<T>(s: seq<T>, ops: seq<Op<T>>): seq<T>
    requires AllApplicable(s, ops)
    decreases |ops|
  {
    if ops == [] then s else After(Step(s, ops[0]), ops[1..])
  }

  /** Operations that keep a compact tree compact. */
  predicate KeepsCompact<T>(op: Op<T>) {
    op.AddOp? || op.AddFromOp? || op.SetOp? || op.ClearOp?
  }

  method Perform<T(==)>(tree: BPlusTree<T>, op: Op<T>)
    requires tree.Valid() && Applicable(tree.Contents(), op)
    modifies tree
    ensures tree.Valid() && tree.Contents() == Step(old(tree.Contents()), op)
    ensures old(IsCompact(tree.Tree())) && KeepsCompact(op) ==> IsCompact(tree.Tree())
  {
    match op
    case InsertOp(n, v) => tree.Insert(n, v);
    case AddOp(v) => tree.Add(v);
    case AddFromOp(values) => tree.AddFrom(values);
    case EraseOp(n) => tree.Erase(n);
    case SetOp(n, v) => tree.Set(n, v);
    case ClearOp => tree.Clear();
  }

  /** Every run keeps the tree well formed and its contents those of the plain sequence. */
  method Run<T(==)>(tree: BPlusTree<T>, ops: seq<Op<T>>)
    requires tree.Valid() && AllApplicable(tree.Contents(), ops)
    modifies tree
    ensures tree.Valid() && tree.Contents() == After(old(tree.Contents()), ops)
    ensures old(IsCompact(tree.Tree())) && (forall op :: op in ops ==> KeepsCompact(op)) ==> IsCompact(tree.Tree())
  {
    var i := 0;
    assert ops[0..] == ops;
    while i < |ops|
      invariant i <= |ops| && tree.Valid() && AllApplicable(tree.Contents(), ops[i..])
      invariant After(tree.Contents(), ops[i..]) == After(old(tree.Contents()), ops)
      invariant old(IsCompact(tree.Tree())) && (forall op :: op in ops ==> KeepsCompact(op)) ==> IsCompact(tree.Tree())
    {
      Perform(tree, ops[i]);
      assert ops[i..][1..] == ops[i + 1..];
      i := i + 1;
    }
    assert ops[|ops|..] == [];
  }

  /** Two runs from an empty tree that only append, in bulk or one by one, overwrite or clear, and
      that come to the same sequence, leave trees that are equal node for node. */
  method SameTrees<T(==)>(a: BPlusTree<T>, b: BPlusTree<T>, opsA: seq<Op<T>>, opsB: seq<Op<T>>)
    requires a != b && a.Valid() && b.Valid() && a.max == b.max && a.Contents() == b.Contents() == []
    requires IsCompact(a.Tree()) && IsCompact(b.Tree())
    requires AllApplicable<T>([], opsA) && AllApplicable<T>([], opsB) && After([], opsA) == After([], opsB)
    requires (forall op :: op in opsA ==> KeepsCompact(op)) && (forall op :: op in opsB ==> KeepsCompact(op))
    modifies a, b
    ensures a.Valid() && b.Valid() && a.Tree() == b.Tree()
  {
    Run(a, opsA);
    Run(b, opsB);
    CompactTreesEqual(a, b);
  }
}
