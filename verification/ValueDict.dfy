/** The tree of a dictionary answers as the list of entries that paths are interpreted on. */
module ValueDict {
  import opened Keys
  import opened RbModel
  import opened RbHeap
  import opened Dict
  import P = ValuePath

  /** The value inside every node. */
  type Payload = map<Node, P.Val>

  ghost predicate Matches(nodes: seq<Node>, payload: Payload, entries: seq<P.Entry>) {
    && |entries| == |nodes|
    && forall i :: 0 <= i < |nodes| ==> nodes[i] in payload && entries[i] == P.Entry(nodes[i].key, payload[nodes[i]])
  }

  /** The nodes of the sorted tree t, in some order, hold exactly these entries. */
  ghost predicate Lists(cmp: Comparator, t: Tree, payload: Payload, nodes: seq<Node>, entries: seq<P.Entry>) {
    && TotalOrder(cmp) && Sorted(cmp, InOrder(t))
    && Distinct(nodes) && Elements(nodes) == Nodes(t) && Matches(nodes, payload, entries)
  }

  /** The nodes of the dictionary, oldest first, hold exactly these entries. */
  ghost predicate Represents(d: Dict, payload: Payload, nodes: seq<Node>, entries: seq<P.Entry>)
    reads d, d.tree
  {
    Lists(d.tree.cmp, d.tree.t, payload, nodes, entries) && (d.ordered ==> nodes == d.order)
  }

  lemma NewDict(d: Dict)
    requires TotalOrder(d.tree.cmp) && d.tree.t == Leaf && d.order == []
    ensures Represents(d, map[], [], [])
  {
  }

  /** The list finds what the only node with an equal key holds. */
  lemma {:induction false} FindIn(cmp: P.Order, nodes: seq<Node>, payload: Payload, entries: seq<P.Entry>, key: Key,
                                  node: Node?)
    requires Matches(nodes, payload, entries)
    requires forall n :: n in nodes && cmp(key, n.key) == 0 ==> n == node
    requires node != null ==> node in nodes && cmp(key, node.key) == 0
    ensures node != null ==> node in payload
    ensures P.Find(cmp, entries, key) == if node == null then null else payload[node]
    decreases nodes
  {
    if nodes != [] {
      assert entries[0] == P.Entry(nodes[0].key, payload[nodes[0]]);
      assert nodes[0] in nodes;
      if cmp(key, nodes[0].key) != 0 {
        FindIn(cmp, nodes[1..], payload, entries[1..], key, node);
      }
    }
  }

  /** Equal keys have one node. */
  lemma OneNode(cmp: Comparator, t: Tree, key: Key, a: Node, b: Node)
    requires TotalOrder(cmp) && Sorted(cmp, InOrder(t)) && a in Nodes(t) && b in Nodes(t)
    requires cmp(key, a.key) == 0 && cmp(key, b.key) == 0
    ensures a == b
  {
    hide TotalOrder, InOrder, Sorted;
    InOrderNodes(t);
    var o := InOrder(t);
    var i :| 0 <= i < |o| && o[i] == a;
    var j :| 0 <= j < |o| && o[j] == b;
    EqualKeys(cmp, key, a.key, b.key);
    if i != j {
      SortedPair(cmp, o, i, j);
    }
  }

  lemma SortedPair(cmp: Comparator, o: seq<Node>, i: nat, j: nat)
    requires Sorted(cmp, o) && i < |o| && j < |o| && i != j
    ensures cmp(o[i].key, o[j].key) < 0 || cmp(o[j].key, o[i].key) < 0
  {
  }

  lemma EqualKeys(cmp: Comparator, key: Key, a: Key, b: Key)
    requires TotalOrder(cmp) && cmp(key, a) == 0 && cmp(key, b) == 0
    ensures cmp(a, b) == 0 && cmp(b, a) == 0
  {
    Less(cmp, key, a, b);
    Less(cmp, key, b, a);
    Less(cmp, a, b, key);
  }

  /** What the search in the tree says about the list. */
  lemma TreeFinds(cmp: Comparator, t: Tree, payload: Payload, nodes: seq<Node>, entries: seq<P.Entry>, key: Key,
                  node: Node?)
    requires Lists(cmp, t, payload, nodes, entries)
    requires node == null ==> !Has(cmp, Nodes(t), key)
    requires node != null ==> node in Nodes(t) && cmp(key, node.key) == 0
    ensures node != null ==> node in payload
    ensures P.Find(cmp, entries, key) == if node == null then null else payload[node]
  {
    hide TotalOrder, Sorted, InOrder, Nodes, Matches, Distinct;
    forall n | n in nodes && cmp(key, n.key) == 0
      ensures n == node
    {
      assert n in Elements(nodes);
      if node != null {
        OneNode(cmp, t, key, n, node);
      }
    }
    assert node != null ==> node in Elements(nodes);
    FindIn(cmp, nodes, payload, entries, key, node);
  }

  lemma ListsMore(cmp: Comparator, t: Tree, t': Tree, payload: Payload, nodes: seq<Node>, entries: seq<P.Entry>,
                  node: Node, v: P.Val)
    requires Lists(cmp, t, payload, nodes, entries) && Sorted(cmp, InOrder(t'))
    requires node !in Nodes(t) && Nodes(t') == Nodes(t) + {node}
    ensures Lists(cmp, t', payload[node := v], nodes + [node], entries + [P.Entry(node.key, v)])
  {
    hide TotalOrder, Sorted, InOrder, Nodes, Distinct;
    assert node !in nodes by {
      assert node in nodes ==> node in Elements(nodes);
    }
    Append(nodes, node);
  }

  /** value_dict_get_, with the value it returns. */
  method Get(d: Dict, key: Key, payload: Payload, ghost nodes: seq<Node>, ghost entries: seq<P.Entry>)
    returns (v: P.Val?)
    requires d.Valid() && Represents(d, payload, nodes, entries)
    ensures v == P.Find(d.tree.cmp, entries, key)
  {
    hide TotalOrder, Has, Matches, Distinct, Sorted, InOrder, Nodes;
    var node := d.Get(key);
    TreeFinds(d.tree.cmp, d.tree.t, payload, nodes, entries, key, node);
    v := if node == null then null else payload[node];
  }

  /** value_dict_get_or_add_, with the value it returns: on the entries it does what ValuePath.DictGetOrAdd does. */
  method GetOrAdd(d: Dict, key: Key, alloc: bool, payload: Payload, ghost nodes: seq<Node>, ghost entries: seq<P.Entry>)
    returns (v: P.Val?, payload': Payload, ghost nodes': seq<Node>, ghost entries': seq<P.Entry>)
    requires d.Valid() && FitsMemory(d.tree.t) && Represents(d, payload, nodes, entries)
    modifies d`size, d`order, d`orderHead, d`orderTail, d.tree`root, d.tree`t, Nodes(d.tree.t)
    ensures d.Valid() && Represents(d, payload', nodes', entries')
    ensures
      var found := P.Find(d.tree.cmp, entries, key);
      && (v != null <==> found != null || alloc)
      && (found != null ==> v == found)
      && (v != null && found == null ==>
            fresh(v) && v.content == P.Null(true) && entries' == entries + [P.Entry(key, v)])
      && (v == null || found != null ==> entries' == entries && payload' == payload && d.tree.t == old(d.tree.t))
  {
    hide TotalOrder, Has, Matches, Distinct, Sorted, InOrder, Nodes, FitsMemory;
    ghost var cmp, t := d.tree.cmp, d.tree.t;
    ghost var has := Has(cmp, Nodes(t), key);
    payload', nodes', entries' := payload, nodes, entries;
    var node := d.GetOrAdd(key, alloc);
    TreeFinds(cmp, t, payload, nodes, entries, key, if has then node else null);
    if node == null {
      v := null;
    } else if node in payload {
      v := payload[node];
    } else {
      v := new P.Val();
      SortedAgain(d.tree);
      ListsMore(cmp, t, d.tree.t, payload, nodes, entries, node, v);
      payload', nodes', entries' := payload[node := v], nodes + [node], entries + [P.Entry(key, v)];
    }
  }

  lemma SortedAgain(tree: RbTree)
    requires tree.Valid()
    ensures Sorted(tree.cmp, InOrder(tree.t))
  {
  }
}
