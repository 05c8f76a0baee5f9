/** Whole runs of the dictionary of data/value.c: which keys survive, and in which order. */
module DictRun {
  import opened Keys
  import opened Powers
  import opened RbModel
  import opened RbHeap
  import opened Dict
  import C = Cells
  import RbRun

  datatype Call = GetOrAdd(key: Key, alloc: bool) | Remove(key: Key)

  datatype Outcome = Got(node: Node?) | Removed(code: int)

  ghost predicate HasKey(cmp: Comparator, keys: seq<Key>, key: Key) {
    exists i :: 0 <= i < |keys| && cmp(key, keys[i]) == 0
  }

  /** The keys that the comparator does not call equal to `key`, in their order. */
  ghost function Without(cmp: Comparator, keys: seq<Key>, key: Key): seq<Key> {
    if keys == [] then []
    else
      var last := keys[|keys| - 1];
      Without(cmp, keys[..|keys| - 1], key) + if cmp(key, last) == 0 then [] else [last]
  }

  /** What a run leaves: a removed key loses its place, a key added again is a new last one, and a key that
      is present keeps its place and its spelling. */
  ghost function Survivors(cmp: Comparator, calls: seq<Call>): seq<Key> {
    if calls == [] then []
    else Survive(cmp, Survivors(cmp, calls[..|calls| - 1]), calls[|calls| - 1])
  }

  ghost function Survive(cmp: Comparator, keys: seq<Key>, call: Call): seq<Key> {
    match call
    case GetOrAdd(key, alloc) => if HasKey(cmp, keys, key) || !alloc then keys else keys + [key]
    case Remove(key) => Without(cmp, keys, key)
  }

  function Insertion(node: Node): RbRun.Op {
    C.Insert(node)
  }

  /** What a call does to the cells of Cells: a node handed out fills the cell of its key unless it is there. */
  function Effect(call: Call, r: Outcome): seq<RbRun.Op> {
    match call
    case GetOrAdd(_, _) => if r.Got? && r.node != null then [Insertion(r.node)] else []
    case Remove(key) => [C.Remove(key)]
  }

  function Effective(calls: seq<Call>, out: seq<Outcome>): seq<RbRun.Op>
    requires |calls| == |out|
  {
    if calls == [] then []
    else
      var last := |calls| - 1;
      Effective(calls[..last], out[..last]) + Effect(calls[last], out[last])
  }

  /** A key keeps its node until it is removed: GetOrAdd returns the node in the cell of the key, and makes
      one with exactly this key when the cell is empty and memory allows; Remove tells whether there was one. */
  ghost predicate Obeys(cmp: Comparator, ops: seq<RbRun.Op>, call: Call, r: Outcome) {
    var cell := C.RunCell(cmp, RbRun.KeyOf, call.key, ops);
    match call
    case GetOrAdd(key, alloc) =>
      r.Got? && if cell.Present? then r.node == cell.node
                else (r.node == null <==> !alloc) && (r.node != null ==> r.node.key == key)
    case Remove(_) => r == Removed(if cell.Present? then 0 else -1)
  }

  function KeysOf(order: seq<Node>): (keys: seq<Key>)
    ensures |keys| == |order|
  {
    seq(|order|, i requires 0 <= i < |order| => order[i].key)
  }

  // ---------- one key per class ----------

  lemma OnlyOne(cmp: Comparator, t: Tree, key: Key, m: Node, n: Node)
    requires TotalOrder(cmp) && Sorted(cmp, InOrder(t)) && m in Nodes(t) && n in Nodes(t)
    requires cmp(key, m.key) == 0 && cmp(key, n.key) == 0
    ensures m == n
  {
    InOrderNodes(t);
    var o := InOrder(t);
    var i :| 0 <= i < |o| && o[i] == m;
    var j :| 0 <= j < |o| && o[j] == n;
    Less(cmp, m.key, key, n.key);
    Less(cmp, key, m.key, m.key);
    assert cmp(m.key, n.key) == 0;
  }

  lemma HasSame(cmp: Comparator, order: seq<Node>, key: Key)
    ensures HasKey(cmp, KeysOf(order), key) <==> Has(cmp, Elements(order), key)
  {
    if HasKey(cmp, KeysOf(order), key) {
      var i :| 0 <= i < |order| && cmp(key, KeysOf(order)[i]) == 0;
      assert order[i] in Elements(order);
    }
    if Has(cmp, Elements(order), key) {
      var m :| m in Elements(order) && cmp(key, m.key) == 0;
      var i :| 0 <= i < |order| && order[i] == m;
      assert cmp(key, KeysOf(order)[i]) == 0;
    }
  }

  lemma {:induction false} WithoutNone(cmp: Comparator, keys: seq<Key>, key: Key)
    requires !HasKey(cmp, keys, key)
    ensures Without(cmp, keys, key) == keys
  {
    if keys != [] {
      assert forall i :: 0 <= i < |keys| - 1 ==> keys[..|keys| - 1][i] == keys[i];
      WithoutNone(cmp, keys[..|keys| - 1], key);
    }
  }

  lemma {:induction false} WithoutOne(cmp: Comparator, keys: seq<Key>, key: Key, i: nat)
    requires i < |keys| && cmp(key, keys[i]) == 0
    requires forall j :: 0 <= j < |keys| && cmp(key, keys[j]) == 0 ==> j == i
    ensures Without(cmp, keys, key) == keys[..i] + keys[i + 1..]
  {
    var front := keys[..|keys| - 1];
    assert forall j :: 0 <= j < |front| ==> front[j] == keys[j];
    if i == |keys| - 1 {
      WithoutNone(cmp, front, key);
    } else {
      WithoutOne(cmp, front, key, i);
      assert keys[i + 1..] == front[i + 1..] + [keys[|keys| - 1]];
    }
  }

  lemma KeysDrop(order: seq<Node>, i: nat)
    requires i < |order|
    ensures KeysOf(order[..i] + order[i + 1..]) == KeysOf(order)[..i] + KeysOf(order)[i + 1..]
  {
  }

  lemma DistinctAt(order: seq<Node>, i: nat, j: nat)
    requires Distinct(order) && i < |order| && j < |order| && order[i] == order[j]
    ensures i == j
  {
  }

  /** Taking the one equal node out of the order list is what Without says of the keys. */
  lemma LosesKey(cmp: Comparator, t: Tree, order: seq<Node>, key: Key, n: Node, order': seq<Node>)
    requires TotalOrder(cmp) && Sorted(cmp, InOrder(t)) && Elements(order) == Nodes(t) && Distinct(order)
    requires cmp(key, n.key) == 0 && Loses(order, n, order')
    ensures KeysOf(order') == Without(cmp, KeysOf(order), key)
  {
    hide Sorted, TotalOrder, InOrder, Nodes, Distinct, Without;
    var i :| 0 <= i < |order| && order[i] == n && order' == order[..i] + order[i + 1..];
    KeysDrop(order, i);
    forall j | 0 <= j < |order| && cmp(key, KeysOf(order)[j]) == 0
      ensures j == i
    {
      assert order[j] in Elements(order) && n in Elements(order);
      OnlyOne(cmp, t, key, order[j], n);
      DistinctAt(order, i, j);
    }
    WithoutOne(cmp, KeysOf(order), key, i);
  }

  // ---------- the three structures agree ----------

  lemma NoElements(s: seq<Node>)
    ensures Elements(s) == {} <==> s == []
  {
    if s != [] {
      assert s[0] in Elements(s);
    }
  }

  /** A list of distinct nodes without one of them. */
  lemma LiveWithout(live: seq<Node>, n: Node) returns (rest: seq<Node>)
    requires Distinct(live) && n in Elements(live)
    ensures Loses(live, n, rest) && Distinct(rest) && Elements(rest) == Elements(live) - {n}
    ensures |rest| == |live| - 1 && multiset(live) == multiset{n} + multiset(rest)
  {
    hide Distinct, Loses;
    var i :| 0 <= i < |live| && live[i] == n;
    Drop(live, i);
    rest := live[..i] + live[i + 1..];
    assert live == live[..i] + [n] + live[i + 1..];
    CountMiddle(live[..i], n, live[i + 1..]);
  }

  lemma CountMiddle(a: seq<Node>, n: Node, b: seq<Node>)
    ensures multiset(a + [n] + b) == multiset{n} + multiset(a + b)
  {
  }

  lemma FirstElement(a: seq<Node>)
    requires a != []
    ensures a[0] in Elements(a)
  {
  }

  lemma {:induction false} SameElements(a: seq<Node>, b: seq<Node>)
    requires Distinct(a) && Distinct(b) && Elements(a) == Elements(b)
    ensures multiset(a) == multiset(b) && |a| == |b|
    decreases |a|
  {
    hide Distinct, Elements, Loses;
    NoElements(a);
    NoElements(b);
    if a != [] {
      FirstElement(a);
      var rest := LiveWithout(a, a[0]);
      var rest' := LiveWithout(b, a[0]);
      SameElements(rest, rest');
    }
  }

  lemma SortedDistinct(cmp: Comparator, s: seq<Node>)
    requires TotalOrder(cmp) && Sorted(cmp, s)
    ensures Distinct(s)
  {
    forall i, j | 0 <= i < j < |s|
      ensures s[i] != s[j]
    {
      Less(cmp, s[i].key, s[i].key, s[i].key);
    }
  }

  /** What the two walks visit are the same nodes, once each, and as many as the counter says; the sorted
      walk visits them in strictly increasing order. */
  lemma WalksAgree(d: Dict)
    requires TotalOrder(d.tree.cmp) && d.Valid() && d.ordered
    ensures multiset(d.order) == multiset(InOrder(d.tree.t)) && |d.order| == d.size
    ensures Distinct(d.order) && Sorted(d.tree.cmp, InOrder(d.tree.t))
  {
    SortedDistinct(d.tree.cmp, InOrder(d.tree.t));
    InOrderNodes(d.tree.t);
    SameElements(d.order, InOrder(d.tree.t));
  }

  // ---------- runs ----------

  /** `live` are the nodes of the dictionary, oldest first, and the history explains keys and nodes. */
  ghost predicate Tracks(d: Dict, past: seq<Call>, live: seq<Node>, ops: seq<RbRun.Op>)
    reads d, d.tree
  {
    && Distinct(live) && Elements(live) == Nodes(d.tree.t) && (d.ordered ==> d.order == live)
    && KeysOf(live) == Survivors(d.tree.cmp, past)
    && C.Shows(d.tree.cmp, RbRun.KeyOf, Nodes(d.tree.t), ops)
  }

  /** A dictionary is as large as the list of surviving keys. */
  lemma LiveSize(d: Dict, past: seq<Call>, live: seq<Node>, ops: seq<RbRun.Op>)
    requires TotalOrder(d.tree.cmp) && d.Valid() && Tracks(d, past, live, ops)
    ensures |InOrder(d.tree.t)| == |live| == |Survivors(d.tree.cmp, past)| == d.size
  {
    hide C.Shows, Survivors;
    SortedDistinct(d.tree.cmp, InOrder(d.tree.t));
    InOrderNodes(d.tree.t);
    SameElements(live, InOrder(d.tree.t));
  }

  lemma SurvivorsNext(cmp: Comparator, past: seq<Call>, call: Call)
    ensures Survivors(cmp, past + [call]) == Survive(cmp, Survivors(cmp, past), call)
  {
    assert (past + [call])[..|past|] == past;
  }

  /** What the cells say about the node of a key. */
  lemma CellNode(cmp: Comparator, nodes: set<Node>, ops: seq<RbRun.Op>, key: Key)
    requires TotalOrder(cmp) && C.Shows(cmp, RbRun.KeyOf, nodes, ops)
    ensures C.Equivalence(cmp)
    ensures Has(cmp, nodes, key) <==> C.RunCell(cmp, RbRun.KeyOf, key, ops).Present?
    ensures forall m :: m in nodes && cmp(key, m.key) == 0 ==> C.RunCell(cmp, RbRun.KeyOf, key, ops) == C.Present(m)
  {
    hide C.Shows, C.RunCell, TotalOrder;
    RbRun.OrderEquivalence(cmp);
    RbRun.HasSame(cmp, nodes, key);
    C.ShowsHas(cmp, RbRun.KeyOf, nodes, ops, key);
    forall m | m in nodes && cmp(key, m.key) == 0
      ensures C.RunCell(cmp, RbRun.KeyOf, key, ops) == C.Present(m)
    {
      assert cmp(key, RbRun.KeyOf(m)) == 0;
    }
  }

  /** A node handed out again, or for the first time. */
  lemma ShowsGot(cmp: Comparator, nodes: set<Node>, ops: seq<RbRun.Op>, node: Node, nodes': set<Node>)
    requires TotalOrder(cmp) && C.Shows(cmp, RbRun.KeyOf, nodes, ops)
    requires if node in nodes then nodes' == nodes else !Has(cmp, nodes, node.key) && nodes' == nodes + {node}
    ensures C.Shows(cmp, RbRun.KeyOf, nodes', ops + [C.Insert(node)])
  {
    hide C.Shows;
    RbRun.OrderEquivalence(cmp);
    RbRun.HasSame(cmp, nodes, node.key);
    if node in nodes {
      assert cmp(RbRun.KeyOf(node), RbRun.KeyOf(node)) == 0;
    }
    C.ShowsStep(cmp, RbRun.KeyOf, nodes, ops, C.Insert(node), nodes');
  }

  lemma ShowsRemoved(cmp: Comparator, nodes: set<Node>, ops: seq<RbRun.Op>, key: Key, nodes': set<Node>, m: Node?)
    requires TotalOrder(cmp) && C.Shows(cmp, RbRun.KeyOf, nodes, ops)
    requires if m == null then !Has(cmp, nodes, key) && nodes' == nodes
             else m in nodes && cmp(key, m.key) == 0 && nodes' == nodes - {m}
    ensures C.Shows(cmp, RbRun.KeyOf, nodes', ops + [C.Remove(key)])
  {
    hide C.Shows;
    RbRun.OrderEquivalence(cmp);
    RbRun.HasSame(cmp, nodes, key);
    if m != null {
      assert cmp(key, RbRun.KeyOf(m)) == 0;
    }
    C.ShowsStep(cmp, RbRun.KeyOf, nodes, ops, C.Remove(key), nodes');
  }

  lemma KeysAppend(live: seq<Node>, n: Node)
    ensures KeysOf(live + [n]) == KeysOf(live) + [n.key]
  {
  }

  method ApplyGet(d: Dict, key: Key, alloc: bool,
                  ghost past: seq<Call>, ghost live: seq<Node>, ghost ops: seq<RbRun.Op>)
    returns (r: Outcome, ghost live': seq<Node>)
    requires TotalOrder(d.tree.cmp) && d.Valid() && FitsMemory(d.tree.t) && Tracks(d, past, live, ops)
    modifies d`size, d`order, d`orderHead, d`orderTail, d.tree`root, d.tree`t, Nodes(d.tree.t)
    ensures Obeys(d.tree.cmp, ops, GetOrAdd(key, alloc), r)
    ensures Tracks(d, past + [GetOrAdd(key, alloc)], live', ops + Effect(GetOrAdd(key, alloc), r))
    ensures fresh(Nodes(d.tree.t) - old(Nodes(d.tree.t))) && d.Valid()
  {
    hide InOrder, Nodes, Sorted, Owns, Disjoint, RedBlack, Chained, Has, HasKey, Pow2, FitsMemory, TotalOrder;
    hide C.Shows, C.RunCell, C.Equivalence, Survivors, Distinct;
    ghost var before := Nodes(d.tree.t);
    SurvivorsNext(d.tree.cmp, past, GetOrAdd(key, alloc));
    HasSame(d.tree.cmp, live, key);
    CellNode(d.tree.cmp, before, ops, key);
    live' := live;
    var node := d.GetOrAdd(key, alloc);
    r := Got(node);
    if node != null {
      ShowsGot(d.tree.cmp, before, ops, node, Nodes(d.tree.t));
      if node !in before {
        live' := live + [node];
        Append(live, node);
        KeysAppend(live, node);
      }
    } else {
      assert ops + [] == ops;
    }
  }

  method ApplyRemove(d: Dict, key: Key, garbage: Node?,
                     ghost past: seq<Call>, ghost live: seq<Node>, ghost ops: seq<RbRun.Op>)
    returns (r: Outcome, ghost live': seq<Node>)
    requires TotalOrder(d.tree.cmp) && d.Valid() && FitsMemory(d.tree.t) && Tracks(d, past, live, ops)
    modifies d`size, d`order, d`orderHead, d`orderTail, d.tree`root, d.tree`t, Nodes(d.tree.t)
    ensures Obeys(d.tree.cmp, ops, Remove(key), r)
    ensures Tracks(d, past + [Remove(key)], live', ops + Effect(Remove(key), r))
    ensures fresh(Nodes(d.tree.t) - old(Nodes(d.tree.t))) && d.Valid()
  {
    hide InOrder, Nodes, Sorted, Owns, Disjoint, RedBlack, Chained, Has, HasKey, Pow2, FitsMemory, TotalOrder;
    hide C.Shows, C.RunCell, C.Equivalence, Survivors, Distinct, Elements;
    ghost var before, t := Nodes(d.tree.t), d.tree.t;
    SurvivorsNext(d.tree.cmp, past, Remove(key));
    HasSame(d.tree.cmp, live, key);
    CellNode(d.tree.cmp, before, ops, key);
    live' := live;
    var code, node := d.Remove(key, garbage);
    r := Removed(code);
    ShowsRemoved(d.tree.cmp, before, ops, key, Nodes(d.tree.t), if code == 0 then node else null);
    if code == 0 {
      live' := LiveWithout(live, node);
      if d.ordered {
        LosesSame(live, node, live', d.order);
      }
      LosesKey(d.tree.cmp, t, live, key, node, live');
    } else {
      WithoutNone(d.tree.cmp, KeysOf(live), key);
    }
  }

  lemma LosesSame(order: seq<Node>, n: Node, a: seq<Node>, b: seq<Node>)
    requires Distinct(order) && Loses(order, n, a) && Loses(order, n, b)
    ensures a == b
  {
    hide Distinct;
    var i :| 0 <= i < |order| && order[i] == n && a == order[..i] + order[i + 1..];
    var j :| 0 <= j < |order| && order[j] == n && b == order[..j] + order[j + 1..];
    DistinctAt(order, i, j);
  }

  /** Any run on an empty dictionary, as long as it never holds 2^63 keys: every call obeys the cells, the
      counter tells the number of surviving keys, and an order list holds them in insertion order. */
  method Run(d: Dict, calls: seq<Call>, garbage: Node?) returns (out: seq<Outcome>)
    requires TotalOrder(d.tree.cmp) && d.Valid() && d.tree.t == Leaf
    requires forall i :: 0 <= i < |calls| ==> |Survivors(d.tree.cmp, calls[..i])| < Pow2(63)
    modifies d`size, d`order, d`orderHead, d`orderTail, d.tree`root, d.tree`t
    ensures |out| == |calls|
    ensures forall i :: 0 <= i < |calls| ==> Obeys(d.tree.cmp, Effective(calls[..i], out[..i]), calls[i], out[i])
    ensures C.Shows(d.tree.cmp, RbRun.KeyOf, Nodes(d.tree.t), Effective(calls, out))
    ensures d.size == |Survivors(d.tree.cmp, calls)|
    ensures d.ordered ==> KeysOf(d.order) == Survivors(d.tree.cmp, calls)
    ensures d.Valid()
  {
    hide InOrder, Nodes, Sorted, Owns, Disjoint, RedBlack, Chained, Survivors, TotalOrder, Distinct, Pow2;
    hide C.Shows, Obeys, Effective, Effect, Elements;
    StartEmpty(d);
    out := [];
    ghost var live, ops: seq<RbRun.Op> := [], [];
    assert calls[..0] == [];
    for j := 0 to |calls|
      invariant d.Valid() && fresh(Nodes(d.tree.t)) && Tracks(d, calls[..j], live, ops)
      invariant |out| == j && ops == Effective(calls[..j], out)
      invariant forall i :: 0 <= i < j ==> Obeys(d.tree.cmp, Effective(calls[..i], out[..i]), calls[i], out[i])
    {
      LiveSize(d, calls[..j], live, ops);
      ghost var was := Nodes(d.tree.t);
      var r;
      label Before:
      r, live := Apply(d, calls[j], garbage, calls[..j], live, ops);
      forall n | n in Nodes(d.tree.t)
        ensures fresh(n)
      {
        assert n in was || fresh@Before(n);
      }
      EffectiveNext(calls[..j], out, calls[j], r);
      OutPrefixes(out, r);
      ops := ops + Effect(calls[j], r);
      out := out + [r];
      assert calls[..j + 1] == calls[..j] + [calls[j]];
    }
    assert calls[..|calls|] == calls;
    LiveSize(d, calls, live, ops);
  }

  method Apply(d: Dict, call: Call, garbage: Node?,
               ghost past: seq<Call>, ghost live: seq<Node>, ghost ops: seq<RbRun.Op>)
    returns (r: Outcome, ghost live': seq<Node>)
    requires TotalOrder(d.tree.cmp) && d.Valid() && FitsMemory(d.tree.t) && Tracks(d, past, live, ops)
    modifies d`size, d`order, d`orderHead, d`orderTail, d.tree`root, d.tree`t, Nodes(d.tree.t)
    ensures Obeys(d.tree.cmp, ops, call, r) && Tracks(d, past + [call], live', ops + Effect(call, r))
    ensures fresh(Nodes(d.tree.t) - old(Nodes(d.tree.t))) && d.Valid()
  {
    hide Tracks, Obeys, Effect, FitsMemory, TotalOrder, Nodes;
    match call {
      case GetOrAdd(key, alloc) => r, live' := ApplyGet(d, key, alloc, past, live, ops);
      case Remove(key) => r, live' := ApplyRemove(d, key, garbage, past, live, ops);
    }
  }

  lemma EffectiveNext(calls: seq<Call>, out: seq<Outcome>, call: Call, r: Outcome)
    requires |calls| == |out|
    ensures Effective(calls + [call], out + [r]) == Effective(calls, out) + Effect(call, r)
  {
    assert (calls + [call])[..|calls|] == calls && (out + [r])[..|out|] == out;
  }

  lemma OutPrefixes(out: seq<Outcome>, r: Outcome)
    ensures forall i :: 0 <= i <= |out| ==> (out + [r])[..i] == out[..i]
  {
  }

  lemma StartEmpty(d: Dict)
    requires d.Valid() && d.tree.t == Leaf
    ensures Nodes(d.tree.t) == {} && Effective([], []) == [] && Tracks(d, [], [], [])
  {
    NoElements(d.order);
    C.ShowsNone(d.tree.cmp, RbRun.KeyOf);
  }
}
