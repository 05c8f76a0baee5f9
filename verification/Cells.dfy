/** What a container of keyed nodes owes its users over a whole run: it behaves like one independent cell per
    class of equal keys.  The node type is a parameter, because the tree and the hash table each have their own. */
module Cells {
  import opened Keys

  datatype Op<N> = Insert(node: N) | Remove(key: Key)

  datatype Cell<N> = Absent | Present(node: N)

  /** The comparator's zero is an equivalence relation. */
  ghost predicate Equivalence(cmp: Comparator) {
    && (forall a :: cmp(a, a) == 0)
    && (forall a, b :: cmp(a, b) == 0 ==> cmp(b, a) == 0)
    && (forall a, b, c :: cmp(a, b) == 0 && cmp(b, c) == 0 ==> cmp(a, c) == 0)
  }

  function OpKey<N>(keyOf: N -> Key, op: Op<N>): Key {
    match op
    case Insert(n) => keyOf(n)
    case Remove(k) => k
  }

  /** What one operation does to the cell of one key: other classes are untouched, an insertion takes an
      empty cell only, a removal empties it. */
  function CellStep<N>(cmp: Comparator, keyOf: N -> Key, k: Key, cell: Cell<N>, op: Op<N>): Cell<N> {
    if cmp(k, OpKey(keyOf, op)) != 0 then cell
    else match op
      case Insert(n) => if cell.Absent? then Present(n) else cell
      case Remove(_) => Absent
  }

  function RunCell<N>(cmp: Comparator, keyOf: N -> Key, k: Key, ops: seq<Op<N>>): Cell<N> {
    if ops == [] then Absent
    else CellStep(cmp, keyOf, k, RunCell(cmp, keyOf, k, ops[..|ops| - 1]), ops[|ops| - 1])
  }

  /** Some node of the set equals the key. */
  ghost predicate Has<N>(cmp: Comparator, keyOf: N -> Key, nodes: set<N>, key: Key) {
    exists m :: m in nodes && cmp(key, keyOf(m)) == 0
  }

  /** The set of nodes shows, for every key, exactly the content of its cell. */
  ghost predicate Shows<N>(cmp: Comparator, keyOf: N -> Key, nodes: set<N>, ops: seq<Op<N>>) {
    && (forall m :: m in nodes ==> RunCell(cmp, keyOf, keyOf(m), ops) == Present(m))
    && (forall k :: RunCell(cmp, keyOf, k, ops).Present? ==> RunCell(cmp, keyOf, k, ops).node in nodes)
  }

  lemma {:induction false} CellKey<N>(cmp: Comparator, keyOf: N -> Key, k: Key, ops: seq<Op<N>>)
    ensures RunCell(cmp, keyOf, k, ops).Present? ==> cmp(k, keyOf(RunCell(cmp, keyOf, k, ops).node)) == 0
  {
    if ops != [] {
      CellKey(cmp, keyOf, k, ops[..|ops| - 1]);
    }
  }

  lemma Equal(cmp: Comparator, a: Key, b: Key, c: Key)
    requires Equivalence(cmp) && cmp(a, b) == 0
    ensures cmp(b, a) == 0 && (cmp(a, c) == 0 <==> cmp(b, c) == 0)
  {
  }

  /** Equal keys share their cell. */
  lemma {:induction false} CellClass<N>(cmp: Comparator, keyOf: N -> Key, k: Key, k': Key, ops: seq<Op<N>>)
    requires Equivalence(cmp) && cmp(k, k') == 0
    ensures RunCell(cmp, keyOf, k, ops) == RunCell(cmp, keyOf, k', ops)
  {
    hide Equivalence;
    if ops != [] {
      CellClass(cmp, keyOf, k, k', ops[..|ops| - 1]);
      Equal(cmp, k, k', OpKey(keyOf, ops[|ops| - 1]));
    }
  }

  /** What a lookup may conclude from the cells. */
  lemma ShowsHas<N>(cmp: Comparator, keyOf: N -> Key, nodes: set<N>, ops: seq<Op<N>>, k: Key)
    requires Equivalence(cmp) && Shows(cmp, keyOf, nodes, ops)
    ensures Has(cmp, keyOf, nodes, k) <==> RunCell(cmp, keyOf, k, ops).Present?
    ensures forall m :: m in nodes && cmp(k, keyOf(m)) == 0 ==> RunCell(cmp, keyOf, k, ops) == Present(m)
  {
    hide Equivalence;
    CellKey(cmp, keyOf, k, ops);
    forall m | m in nodes && cmp(k, keyOf(m)) == 0
      ensures RunCell(cmp, keyOf, k, ops) == Present(m)
    {
      CellClass(cmp, keyOf, k, keyOf(m), ops);
    }
  }

  /** The two set updates of a container follow the cells. */
  ghost predicate Updates<N>(cmp: Comparator, keyOf: N -> Key, nodes: set<N>, op: Op<N>, nodes': set<N>) {
    match op
    case Insert(n) => nodes' == if Has(cmp, keyOf, nodes, keyOf(n)) then nodes else nodes + {n}
    case Remove(k) =>
      if Has(cmp, keyOf, nodes, k) then exists m :: m in nodes && cmp(k, keyOf(m)) == 0 && nodes' == nodes - {m}
      else nodes' == nodes
  }

  lemma ShowsStep<N>(cmp: Comparator, keyOf: N -> Key, nodes: set<N>, ops: seq<Op<N>>, op: Op<N>, nodes': set<N>)
    requires Equivalence(cmp) && Shows(cmp, keyOf, nodes, ops) && Updates(cmp, keyOf, nodes, op, nodes')
    ensures Shows(cmp, keyOf, nodes', ops + [op])
  {
    assert (ops + [op])[..|ops|] == ops;
    var key := OpKey(keyOf, op);
    ShowsHas(cmp, keyOf, nodes, ops, key);
    forall m | m in nodes'
      ensures RunCell(cmp, keyOf, keyOf(m), ops + [op]) == Present(m)
    {
      CellShared(cmp, keyOf, keyOf(m), key, ops);
    }
    forall k | RunCell(cmp, keyOf, k, ops + [op]).Present?
      ensures RunCell(cmp, keyOf, k, ops + [op]).node in nodes'
    {
      CellShared(cmp, keyOf, k, key, ops);
      CellKey(cmp, keyOf, k, ops);
      if RunCell(cmp, keyOf, k, ops).Present? {
        Equal(cmp, k, keyOf(RunCell(cmp, keyOf, k, ops).node), key);
      }
    }
  }

  lemma CellShared<N>(cmp: Comparator, keyOf: N -> Key, k: Key, k': Key, ops: seq<Op<N>>)
    requires Equivalence(cmp)
    ensures cmp(k, k') == 0 ==> RunCell(cmp, keyOf, k, ops) == RunCell(cmp, keyOf, k', ops)
    ensures cmp(k, k') == 0 <==> cmp(k', k) == 0
    ensures cmp(k, k) == 0
  {
    if cmp(k, k') == 0 {
      CellClass(cmp, keyOf, k, k', ops);
    }
  }

  lemma ShowsNone<N>(cmp: Comparator, keyOf: N -> Key)
    ensures Shows(cmp, keyOf, {}, [])
  {
  }
}
