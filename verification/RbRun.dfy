/** Whole runs of data/rbtree.c. */
module RbRun {
  import opened Keys
  import opened Powers
  import opened RbModel
  import opened RbHeap
  import RbCursor
  import C = Cells

  type Op = C.Op<Node>

  function KeyOf(n: Node): Key {
    n.key
  }

  datatype Outcome = Status(code: int) | Removed(node: Node?)

  /** The result the cells predict for an operation that follows the run `ops`. */
  function Expected(cmp: Comparator, ops: seq<Op>, op: Op): Outcome {
    var cell := C.RunCell(cmp, KeyOf, C.OpKey(KeyOf, op), ops);
    match op
    case Insert(_) => Status(if cell.Absent? then 0 else -1)
    case Remove(_) => Removed(if cell.Absent? then null else cell.node)
  }

  lemma OrderEquivalence(cmp: Comparator)
    requires TotalOrder(cmp)
    ensures C.Equivalence(cmp)
  {
    forall a, b, c | cmp(a, b) == 0 && cmp(b, c) == 0
      ensures cmp(a, c) == 0
    {
      Less(cmp, a, b, c);
      Less(cmp, c, b, a);
    }
  }

  lemma HasSame(cmp: Comparator, nodes: set<Node>, key: Key)
    ensures Has(cmp, nodes, key) <==> C.Has(cmp, KeyOf, nodes, key)
  {
    if Has(cmp, nodes, key) {
      var m :| m in nodes && cmp(key, m.key) == 0;
      assert cmp(key, KeyOf(m)) == 0;
    }
  }

  /** The nodes a run may put into the tree: the same node may go in and out any number of times. */
  ghost function Inserted(ops: seq<Op>): set<Node> {
    set i | 0 <= i < |ops| && ops[i].Insert? :: ops[i].node
  }

  lemma InsertedOne(ops: seq<Op>, j: nat)
    requires j < |ops|
    ensures Inserted([ops[j]]) <= Inserted(ops)
  {
    assert [ops[j]][0] == ops[j];
  }

  lemma {:induction false} SubsetSize(a: set<Node>, b: set<Node>)
    requires a <= b
    ensures |a| <= |b|
  {
    if a != {} {
      var m :| m in a;
      SubsetSize(a - {m}, b - {m});
    }
  }

  lemma SortedFront(cmp: Comparator, front: seq<Node>, last: Node)
    requires TotalOrder(cmp) && Sorted(cmp, front + [last])
    ensures Sorted(cmp, front) && last !in front
  {
    var s := front + [last];
    assert forall i :: 0 <= i < |front| ==> front[i] == s[i];
    forall i | 0 <= i < |front|
      ensures front[i] != last
    {
      assert s[|front|] == last;
      Less(cmp, last.key, last.key, last.key);
    }
  }

  lemma {:induction false} SortedSize(cmp: Comparator, s: seq<Node>)
    requires TotalOrder(cmp) && Sorted(cmp, s)
    ensures |Elements(s)| == |s|
  {
    hide Sorted, TotalOrder;
    if s == [] {
      assert Elements(s) == {};
    } else {
      var front, last := s[..|s| - 1], s[|s| - 1];
      assert s == front + [last];
      SortedFront(cmp, front, last);
      SortedSize(cmp, front);
      assert Elements(s) == Elements(front) + {last};
    }
  }

  /** A sorted tree is no larger than any set its nodes come from. */
  lemma TreeSize(tree: RbTree, pool: set<Node>)
    requires TotalOrder(tree.cmp) && tree.Valid() && Nodes(tree.t) <= pool
    ensures |InOrder(tree.t)| <= |pool|
  {
    InOrderNodes(tree.t);
    SortedSize(tree.cmp, InOrder(tree.t));
    SubsetSize(Nodes(tree.t), pool);
  }

  lemma LeafEmpty()
    ensures Nodes(Leaf) == {} && InOrder(Leaf) == []
  {
  }

  /** Any run on an initially empty tree gives, operation by operation, what the cells predict. */
  method Run(tree: RbTree, ops: seq<Op>) returns (out: seq<Outcome>)
    requires TotalOrder(tree.cmp) && tree.Valid() && tree.t == Leaf && |Inserted(ops)| < Pow2(63)
    modifies tree`root, tree`t, Inserted(ops)`left, Inserted(ops)`right, Inserted(ops)`red
    ensures tree.Valid() && C.Shows(tree.cmp, KeyOf, Nodes(tree.t), ops)
    ensures |out| == |ops| && forall i :: 0 <= i < |ops| ==> out[i] == Expected(tree.cmp, ops[..i], ops[i])
  {
    hide C.Shows, C.RunCell, InOrder, Nodes, Sorted, TotalOrder, Disjoint, Owns, RedBlack, C.Equivalence, RbTree.Valid;
    hide Inserted, Expected, Pow2;
    C.ShowsNone(tree.cmp, KeyOf);
    LeafEmpty();
    OrderEquivalence(tree.cmp);
    assert ops[..0] == [];
    out := [];
    for j := 0 to |ops|
      invariant tree.Valid() && Nodes(tree.t) <= Inserted(ops)
      invariant C.Shows(tree.cmp, KeyOf, Nodes(tree.t), ops[..j])
      invariant |out| == j && forall i :: 0 <= i < j ==> out[i] == Expected(tree.cmp, ops[..i], ops[i])
    {
      TreeSize(tree, Inserted(ops));
      InsertedOne(ops, j);
      var r := Apply(tree, ops[j], ops[..j]);
      out := out + [r];
      assert ops[..j + 1] == ops[..j] + [ops[j]];
    }
    assert ops[..|ops|] == ops;
  }

  method Apply(tree: RbTree, op: Op, ghost past: seq<Op>) returns (r: Outcome)
    requires TotalOrder(tree.cmp) && C.Equivalence(tree.cmp) && tree.Valid() && FitsMemory(tree.t)
    requires C.Shows(tree.cmp, KeyOf, Nodes(tree.t), past)
    modifies tree`root, tree`t
    modifies (Nodes(tree.t) + Inserted([op]))`left, (Nodes(tree.t) + Inserted([op]))`right
    modifies (Nodes(tree.t) + Inserted([op]))`red
    ensures r == Expected(tree.cmp, past, op)
    ensures C.Shows(tree.cmp, KeyOf, Nodes(tree.t), past + [op])
    ensures Nodes(tree.t) <= old(Nodes(tree.t)) + Inserted([op])
    ensures tree.Valid()
  {
    hide C.Shows, C.RunCell, InOrder, Nodes, Sorted, TotalOrder, Disjoint, Owns, RedBlack;
    hide C.Equivalence, C.Has, Has, RbTree.Valid;
    ghost var before := Nodes(tree.t);
    var key := C.OpKey(KeyOf, op);
    HasSame(tree.cmp, before, key);
    C.ShowsHas(tree.cmp, KeyOf, before, past, key);
    match op {
      case Insert(n) =>
        assert [op][0].node == n;
        var code := tree.Insert(n);
        r := Status(code);
      case Remove(k) =>
        var m := tree.Remove(k);
        r := Removed(m);
    }
    C.ShowsStep(tree.cmp, KeyOf, before, past, op, Nodes(tree.t));
  }

  /** After any run a lookup returns exactly the content of the cell of its key. */
  method Find(tree: RbTree, key: Key, ghost past: seq<Op>) returns (node: Node?)
    requires TotalOrder(tree.cmp) && tree.Valid() && C.Shows(tree.cmp, KeyOf, Nodes(tree.t), past)
    ensures node == (var cell := C.RunCell(tree.cmp, KeyOf, key, past); if cell.Absent? then null else cell.node)
  {
    hide C.Shows, C.RunCell, InOrder, Nodes, Sorted, TotalOrder, Disjoint, Owns, RedBlack;
    hide C.Equivalence, C.Has, Has, RbTree.Valid;
    OrderEquivalence(tree.cmp);
    HasSame(tree.cmp, Nodes(tree.t), key);
    C.ShowsHas(tree.cmp, KeyOf, Nodes(tree.t), past, key);
    node := RbCursor.Lookup(tree, key);
    assert node != null ==> tree.cmp(key, KeyOf(node)) == 0;
  }
}
