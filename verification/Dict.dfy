/** The dictionary of data/value.c: a red-black tree, a doubly linked insertion-order list through the same
    nodes, and a counter, kept in step. */
module Dict {
  import opened Keys
  import opened RbModel
  import opened RbHeap
  import opened RbCursor
  import DictOrder

  /** The order list on the heap: head and tail point at its ends and every node at its two neighbours. */
  ghost predicate Chained(order: seq<Node>, head: Node?, tail: Node?)
    reads Elements(order)`orderPrev, Elements(order)`orderNext
  {
    && (order == [] ==> head == null && tail == null)
    && (order != [] ==>
          && head == order[0] && tail == order[|order| - 1]
          && head.orderPrev == null && tail.orderNext == null)
    && (forall i, j :: 0 <= i < j < |order| && j == i + 1 ==>
          order[i].orderNext == order[j] && order[j].orderPrev == order[i])
  }

  ghost predicate Distinct(order: seq<Node>) {
    forall i, j :: 0 <= i < j < |order| ==> order[i] != order[j]
  }

  /** The history a visitor has seen determines what it answers next; an answer other than 0 ends the walk. */
  type Visitor = seq<Node> -> int

  ghost predicate Walks(order: seq<Node>, visit: Visitor, visited: seq<Node>, ret: int) {
    && visited <= order
    && (forall i :: 0 < i < |visited| ==> visit(visited[..i]) == 0)
    && (visited != [] ==> ret == visit(visited))
    && (ret == 0 ==> visited == order)
    && (visited == [] ==> ret == 0)
  }

  /** A walk that has not been stopped yet. */
  ghost predicate Walking(order: seq<Node>, visit: Visitor, visited: seq<Node>) {
    visited <= order && forall i :: 0 < i <= |visited| ==> visit(visited[..i]) == 0
  }

  lemma WalkStep(order: seq<Node>, visit: Visitor, visited: seq<Node>, n: Node)
    requires Walking(order, visit, visited) && visited + [n] <= order
    ensures visit(visited + [n]) == 0 ==> Walking(order, visit, visited + [n])
    ensures visit(visited + [n]) != 0 ==> Walks(order, visit, visited + [n], visit(visited + [n]))
  {
    var next := visited + [n];
    assert next[..|next|] == next;
    assert forall i :: 0 < i < |next| ==> next[..i] == visited[..i];
  }

  lemma WalkStart(order: seq<Node>, visit: Visitor)
    ensures Walking(order, visit, [])
  {
  }

  lemma WalkEnd(order: seq<Node>, visit: Visitor)
    requires Walking(order, visit, order)
    ensures Walks(order, visit, order, 0)
  {
    assert order[..|order|] == order;
  }

  /** A walk goes through the whole order unless the visitor stops it, and otherwise ends right after the first
      answer that is not zero. */
  lemma WalkStops(order: seq<Node>, visit: Visitor, visited: seq<Node>, ret: int)
    requires Walks(order, visit, visited, ret)
    ensures (forall i :: 0 < i <= |order| ==> visit(order[..i]) == 0) ==> visited == order && ret == 0
    ensures forall n ::
              0 < n <= |order| && visit(order[..n]) != 0 && (forall i :: 0 < i < n ==> visit(order[..i]) == 0) ==>
              visited == order[..n] && ret == visit(order[..n])
  {
    assert order[..|order|] == order;
    assert visited == order[..|visited|];
    assert forall i :: 0 < i <= |visited| ==> visited[..i] == order[..i];
  }

  // ---------- the order list as a value ----------

  lemma Drop(order: seq<Node>, i: nat)
    requires Distinct(order) && i < |order|
    ensures
      var rest := order[..i] + order[i + 1..];
      Distinct(rest) && Elements(rest) == Elements(order) - {order[i]} && Loses(order, order[i], rest)
  {
    var rest := order[..i] + order[i + 1..];
    forall j | 0 <= j < |rest|
      ensures rest[j] in order && rest[j] != order[i]
    {
      assert rest[j] == order[if j < i then j else j + 1];
    }
    forall n | n in order && n != order[i]
      ensures n in rest
    {
      var k :| 0 <= k < |order| && order[k] == n;
      assert rest[if k < i then k else k - 1] == n;
    }
  }

  lemma Append(order: seq<Node>, n: Node)
    requires Distinct(order) && n !in order
    ensures Distinct(order + [n]) && Elements(order + [n]) == Elements(order) + {n}
  {
  }

  class Dict {
    const tree: RbTree
    const ordered: bool
    var size: nat
    var orderHead: Node?
    var orderTail: Node?
    ghost var order: seq<Node>

    /** Tree, order list and counter hold the same nodes. */
    ghost predicate Valid()
      reads this, tree, Nodes(tree.t)`left, Nodes(tree.t)`right, Nodes(tree.t)`red
      reads Elements(order)`orderPrev, Elements(order)`orderNext
    {
      && tree.Valid() && size == |InOrder(tree.t)|
      && Listed() && (ordered ==> Elements(order) == Nodes(tree.t)) && (!ordered ==> order == [])
    }

    ghost predicate Listed()
      reads this, Elements(order)`orderPrev, Elements(order)`orderNext
    {
      Distinct(order) && Chained(order, orderHead, orderTail)
    }

    /** value_init_dict_ex; the comparator is the caller's or the default one. */
    constructor (cmp: Comparator, ordered: bool)
      ensures Valid() && fresh(tree) && tree.t == Leaf && tree.cmp == cmp
      ensures this.ordered == ordered && order == [] && size == 0
    {
      tree := new RbTree(cmp);
      this.ordered := ordered;
      size, orderHead, orderTail := 0, null, null;
      order := [];
    }

    /** value_dict_get_or_add_, the order list: the new node becomes the tail. */
    method LinkOrder(node: Node)
      requires Listed() && node !in order
      modifies this`orderHead, this`orderTail, this`order
      modifies (Elements(order) + {node})`orderPrev, (Elements(order) + {node})`orderNext
      ensures order == old(order) + [node] && Listed()
    {
      Append(order, node);
      node.orderPrev := orderTail;
      node.orderNext := null;
      if orderTail != null {
        orderTail.orderNext := node;
      } else {
        orderHead := node;
      }
      orderTail := node;
      order := order + [node];
    }

    /** value_dict_remove_, the order list: the neighbours of the node are joined. */
    method UnlinkOrder(node: Node, ghost i: nat)
      requires Listed() && i < |order| && order[i] == node
      modifies this`orderHead, this`orderTail, this`order
      modifies Elements(order)`orderPrev, Elements(order)`orderNext
      ensures order == old(order)[..i] + old(order)[i + 1..] && Listed()
    {
      ghost var rest := order[..i] + order[i + 1..];
      Drop(order, i);
      assert if i > 0 then node.orderPrev == order[i - 1] else node.orderPrev == null;
      assert if i + 1 < |order| then node.orderNext == order[i + 1] else node.orderNext == null;
      assert forall j :: 0 <= j < |rest| ==> rest[j] == order[if j < i then j else j + 1];
      if node.orderPrev != null {
        node.orderPrev.orderNext := node.orderNext;
      } else {
        orderHead := node.orderNext;
      }
      if node.orderNext != null {
        node.orderNext.orderPrev := node.orderPrev;
      } else {
        orderTail := node.orderPrev;
      }
      order := rest;
    }

    method DropOrder(node: Node)
      requires Listed() && node in Elements(order)
      modifies this`orderHead, this`orderTail, this`order
      modifies Elements(order)`orderPrev, Elements(order)`orderNext
      ensures Loses(old(order), node, order) && Elements(order) == old(Elements(order)) - {node} && Listed()
    {
      ghost var i :| 0 <= i < |order| && order[i] == node;
      Drop(order, i);
      UnlinkOrder(node, i);
    }

    /** value_dict_get_. */
    method Get(key: Key) returns (node: Node?)
      requires TotalOrder(tree.cmp) && Valid()
      ensures node == null <==> !Has(tree.cmp, Nodes(tree.t), key)
      ensures node != null ==> node in Nodes(tree.t) && tree.cmp(key, node.key) == 0
    {
      node := Lookup(tree, key);
    }

    /** value_dict_get_or_add_, once the key is known to be missing: link the new node into list and tree. */
    method AddNode(path: PathStack, node: Node, res: int, ghost c: Ctx)
      requires TotalOrder(tree.cmp) && Valid() && Zip(tree.root, c, Leaf) && Focus(tree.t, c, Leaf)
      requires path.Holds(Path(c)) && !Has(tree.cmp, Nodes(tree.t), node.key)
      requires Brackets(tree.cmp, node.key, c) && InOrder(tree.t) == Before(c) + InOrder(Leaf) + After(c)
      requires !c.Top? ==> if c.InLeft? then res < 0 else res > 0
      modifies this`size, this`order, this`orderHead, this`orderTail, tree`root, tree`t
      modifies path`n, path.stack, Nodes(tree.t), node
      ensures Nodes(tree.t) == old(Nodes(tree.t)) + {node} && |InOrder(tree.t)| == old(|InOrder(tree.t)|) + 1
      ensures order == if ordered then old(order) + [node] else []
      ensures Valid()
    {
      hide Zip, InOrder, Nodes, CtxNodes, Brackets, Plug, Path, Before, After, Sorted, Chained, Distinct;
      hide Owns, Disjoint, Has, RedBlack, Sound;
      ghost var footprint := CtxNodes(c) + Nodes(Leaf);
      PlugNodes(c, Leaf);
      InsertPlace(tree.cmp, node, tree.t, c);
      if ordered {
        LinkOrder(node);
      }
      assert allocated(Elements(order));
      tree.AddLeaf(path, node, res, c);
      assert Listed();
      size := size + 1;
    }

    /** value_dict_get_or_add_; `alloc` tells whether the node and its key can be allocated. */
    method GetOrAdd(key: Key, alloc: bool) returns (node: Node?)
      requires TotalOrder(tree.cmp) && Valid() && FitsMemory(tree.t)
      modifies this`size, this`order, this`orderHead, this`orderTail, tree`root, tree`t
      modifies Nodes(tree.t)
      ensures var has := Has(tree.cmp, old(Nodes(tree.t)), key);
        && (node == null <==> !has && !alloc)
        && (has || !alloc ==> tree.t == old(tree.t) && order == old(order))
        && (has ==> node in Nodes(tree.t) && tree.cmp(key, node.key) == 0)
        && (!has && alloc ==>
              && fresh(node) && node.key == key && Nodes(tree.t) == old(Nodes(tree.t)) + {node}
              && order == if ordered then old(order) + [node] else [])
      ensures |InOrder(tree.t)| <= old(|InOrder(tree.t)|) + 1
      ensures Valid()
    {
      hide Zip, InOrder, Nodes, CtxNodes, Brackets, Plug, Path, Before, After, Sorted, Chained, Distinct;
      hide Owns, Disjoint, Has, RedBlack, Sound;
      assert allocated(Elements(order));
      var path, res, c, s := tree.FindPath(key);
      FocusOrder(tree.t, c, s);
      LookupDecides(tree.cmp, key, tree.t, c, s);
      PathEnds(c, null);
      assert allocated(Nodes(tree.t)) && Valid();
      if path.n > 0 && res == 0 {
        PathEnds(c, s.node);
        node := path.stack[path.n - 1];
        return;
      }
      if !alloc {
        return null;
      }
      ghost var footprint := CtxNodes(c) + Nodes(Leaf);
      PlugNodes(c, Leaf);
      assert allocated(footprint);
      node := new Node(key);
      AddNode(path, node, res, c);
    }

    /** value_dict_fix_after_remove.  Unlike rbtree_remove_fixup it ends at once when the parent is red and
        the sibling's subtree black, by swapping their colours.  `turns` counts the rounds with a red sibling. */
    method FixAfterRemove(path: PathStack, ghost c0: Ctx, ghost s0: Tree, ghost footprint: set<Node>)
      returns (ghost t': Tree, ghost turns: nat)
      requires Zip(tree.root, c0, s0) && footprint == CtxNodes(c0) + Nodes(s0)
      requires Deficit(c0, s0) && path.Holds(Path(c0) + [RootOf(s0)])
      modifies tree`root, path`n, path.stack, footprint`left, footprint`right, footprint`red
      ensures tree.root == RootOf(t') && Owns(t') && Disjoint(t') && RedBlack(t')
      ensures InOrder(t') == InOrder(Plug(c0, s0)) && turns <= 1
    {
      hide Zip, Balanced, Fits, InOrder, Nodes, CtxNodes, Plug, Path, Owns, Disjoint, BlackHeight, Sound;
      hide Deficit, Rounds, Rehung, RedBlack, Lightened, Flip;
      ghost var c, s := c0, s0;
      turns := 0;
      while true
        invariant Zip(tree.root, c, s) && footprint == CtxNodes(c) + Nodes(s)
        invariant Deficit(c, s) && InOrder(Plug(c, s)) == InOrder(Plug(c0, s0))
        invariant path.Holds(Path(c) + [RootOf(s)]) && turns <= 1 && (turns == 1 ==> Turned(c, s))
        decreases Rounds(c, s)
      {
        PathEnds(c, RootOf(s));
        NodeIn(c, s);
        ZipShape(tree.root, c, s);
        var node := path.stack[path.n - 1];
        if node != null && node.red {
          tree.Paint(node, false, c, s);
          DeficitRed(c, s);
          s := Painted(s, false);
          break;
        }
        var parent := if path.n > 1 then path.stack[path.n - 2] else null;
        if parent == null {
          DeficitTop(s);
          break;
        }
        DeficitSibling(c, s);
        WhichSide(tree.root, c, s);
        var sibling := if parent.left == node then parent.right else parent.left;
        var grandparent := if path.n > 2 then path.stack[path.n - 3] else null;
        if sibling.red {
          tree.RedSibling(path, grandparent, parent, sibling, node, c, s);
          c, turns := Rehung(c), turns + 1;
          continue;
        }
        var done;
        done, c, s := BlackSibling(path, grandparent, parent, sibling, node, c, s);
        if done {
          break;
        }
      }
      WholeTree(tree.root, c, s);
      t' := Plug(c, s);
    }

    /** value_dict_fix_after_remove, black sibling: either the deficit is repaired or it moves one level up. */
    method BlackSibling(path: PathStack, grandparent: Node?, parent: Node, sibling: Node, node: Node?,
                        ghost c: Ctx, ghost s: Tree)
      returns (done: bool, ghost c': Ctx, ghost s': Tree)
      requires Zip(tree.root, c, s) && Deficit(c, s) && !IsRed(s) && !c.Top? && path.Holds(Path(c) + [node])
      requires node == RootOf(s) && parent == c.node && grandparent == TopNode(c.up)
      requires Sibling(c).Bin? && !IsRed(Sibling(c)) && sibling == Sibling(c).node && c.red == parent.red
      modifies tree`root, path`n, parent`left, parent`right, parent`red
      modifies Nodes(Sibling(c))`left, Nodes(Sibling(c))`right, Nodes(Sibling(c))`red
      modifies TopSet(c.up)`left, TopSet(c.up)`right
      ensures Zip(tree.root, c', s') && InOrder(Plug(c', s')) == InOrder(Plug(c, s))
      ensures done ==> Sound(c', s')
      ensures !done ==> Deficit(c', s') && Rounds(c', s') < Rounds(c, s) && path.Holds(Path(c') + [RootOf(s')])
      ensures !done ==> CtxNodes(c') + Nodes(s') == CtxNodes(c) + Nodes(s)
      ensures !done && c.red ==> IsRed(s')
    {
      hide Zip, Balanced, Fits, InOrder, Nodes, CtxNodes, Plug, Path, Owns, Disjoint, BlackHeight, Sound;
      hide Deficit, Rounds, Lightened;
      SiblingShape(tree.root, c, s);
      RootNode(Sibling(c));
      done, c' := true, c.up;
      if (sibling.left != null && sibling.left.red) || (sibling.right != null && sibling.right.red) {
        s' := tree.RemoveBorrow(grandparent, parent, sibling, node, c, s);
      } else if parent.red {
        s' := SwapColours(parent, sibling, c, s);
      } else {
        tree.RemoveRecolor(path, sibling, c, s);
        done, s' := false, Lightened(c, s);
      }
    }

    /** value_dict_fix_after_remove, red parent and black sibling with black children. */
    method SwapColours(parent: Node, sibling: Node, ghost c: Ctx, ghost s: Tree) returns (ghost s': Tree)
      requires Zip(tree.root, c, s) && Deficit(c, s) && !IsRed(s) && !c.Top? && c.red && parent == c.node
      requires Sibling(c).Bin? && sibling == Sibling(c).node && !IsRed(Sibling(c))
      requires !IsRed(Sibling(c).left) && !IsRed(Sibling(c).right)
      modifies {parent, sibling}`red
      ensures Zip(tree.root, c.up, s') && Sound(c.up, s') && InOrder(Plug(c.up, s')) == InOrder(Plug(c, s))
    {
      hide Zip, Path, Deficit, InOrder, Plug, Rounds, Sound;
      LightenedProps(c, s);
      tree.PaintSibling(sibling, true, c, s);
      tree.Paint(parent, false, c.up, Lightened(c, s));
      DeficitRed(c.up, Lightened(c, s));
      s' := Painted(Lightened(c, s), false);
    }

    /** value_dict_remove_, last part of the tree work. */
    method Detach(path: PathStack, node: Node, ghost c: Ctx, ghost s: Tree, ghost footprint: set<Node>)
      returns (ghost t': Tree)
      requires Zip(tree.root, c, s) && s.Bin? && node == s.node && (s.left.Leaf? || s.right.Leaf?)
      requires Sound(c, s) && Blacks(c) + BlackHeight(s) <= 63 && path.Holds(Path(c) + [node])
      requires footprint == CtxNodes(c) + Nodes(s)
      modifies tree`root, path`n, path.stack, footprint`left, footprint`right, footprint`red
      ensures tree.root == RootOf(t') && Owns(t') && Disjoint(t') && RedBlack(t')
      ensures InOrder(t') == InOrder(Plug(c, OnlyChild(s)))
    {
      hide Zip, Path, InOrder, Plug, Sound, Deficit, RedBlack, Owns, Disjoint, Nodes, CtxNodes;
      NodeIn(c, s);
      var wasBlack := tree.Splice(path, node, c, s);
      if wasBlack {
        ghost var turns;
        t', turns := FixAfterRemove(path, c, OnlyChild(s), CtxNodes(c) + Nodes(OnlyChild(s)));
      } else {
        WholeTree(tree.root, c, OnlyChild(s));
        t' := Plug(c, OnlyChild(s));
      }
    }

    /** value_dict_remove_, once the node is found: take it out of the tree, then out of the list. */
    method TakeOut(path: PathStack, node: Node, garbage: Node?, ghost c: Ctx, ghost s: Tree)
      requires TotalOrder(tree.cmp) && Valid() && Zip(tree.root, c, s) && Focus(tree.t, c, s)
      requires s.Bin? && node == s.node && path.Holds(Path(c) + [node])
      modifies this`size, this`order, this`orderHead, this`orderTail, tree`root, tree`t
      modifies path`n, path.stack, Nodes(tree.t)
      ensures node in old(Nodes(tree.t)) && Nodes(tree.t) == old(Nodes(tree.t)) - {node}
      ensures |InOrder(tree.t)| == old(|InOrder(tree.t)|) - 1
      ensures ordered ==> Loses(old(order), node, order)
      ensures Valid() && Discarded(node, garbage)
    {
      hide Zip, Path, InOrder, Plug, Balanced, Fits, Before, After, Sorted, CtxNodes, Nodes, Loses;
      hide Chained, Distinct, Owns, Disjoint, RedBlack, BlackHeight, Blacks, Brackets, Has, FitsMemory, Elements;
      assert allocated(Elements(order));
      Uproot(path, node, c, s);
      assert Listed();
      if ordered {
        DropOrder(node);
      }
      NoElements();
      assert node !in Elements(order) && node !in Nodes(tree.t);
      assert allocated(Nodes(tree.t)) && allocated(Elements(order));
      Discard(node, garbage);
      size := size - 1;
    }

    /** value_dict_remove_, the tree work. */
    method Uproot(path: PathStack, node: Node, ghost c: Ctx, ghost s: Tree)
      requires TotalOrder(tree.cmp) && tree.Valid() && Zip(tree.root, c, s) && Focus(tree.t, c, s)
      requires s.Bin? && node == s.node && path.Holds(Path(c) + [node])
      modifies tree`root, tree`t, path`n, path.stack
      modifies Nodes(tree.t)`left, Nodes(tree.t)`right, Nodes(tree.t)`red
      ensures tree.Valid() && node in old(Nodes(tree.t)) && Nodes(tree.t) == old(Nodes(tree.t)) - {node}
      ensures |InOrder(tree.t)| == old(|InOrder(tree.t)|) - 1
    {
      hide Zip, Path, InOrder, Plug, Balanced, Fits, Before, After, Sorted, Sunk, CtxNodes, Nodes, Loses;
      hide Owns, Disjoint, RedBlack, BlackHeight, Blacks, Brackets;
      PlugNodes(c, s);
      NodeIn(c, s);
      ghost var c', s' := tree.Sink(path, node, c, s);
      SunkParts(c, s, c', s');
      ghost var t' := Detach(path, node, c', s', CtxNodes(c') + Nodes(s'));
      RemovedOrder(tree.cmp, node, tree.t, t');
      LosesOne(InOrder(tree.t), node, InOrder(t'));
      tree.t := t';
    }

    /** value_dict_remove_. */
    method Remove(key: Key, garbage: Node?) returns (r: int, ghost node: Node?)
      requires TotalOrder(tree.cmp) && Valid() && FitsMemory(tree.t)
      modifies this`size, this`order, this`orderHead, this`orderTail, tree`root, tree`t, Nodes(tree.t)
      ensures r == if Has(tree.cmp, old(Nodes(tree.t)), key) then 0 else -1
      ensures r == -1 ==> tree.t == old(tree.t) && order == old(order)
      ensures r == 0 ==>
                && node != null && node in old(Nodes(tree.t)) && tree.cmp(key, node.key) == 0
                && Nodes(tree.t) == old(Nodes(tree.t)) - {node}
                && (ordered ==> Loses(old(order), node, order)) && Discarded(node, garbage)
      ensures |InOrder(tree.t)| <= old(|InOrder(tree.t)|)
      ensures Valid()
    {
      hide Zip, Path, InOrder, Plug, Brackets, Before, After, Sorted, CtxNodes, Nodes, Loses, Sound;
      hide Chained, Distinct, Owns, Disjoint, Has, RedBlack;
      assert allocated(Elements(order));
      var path, res, c, s := tree.FindPath(key);
      FocusOrder(tree.t, c, s);
      LookupDecides(tree.cmp, key, tree.t, c, s);
      PathEnds(c, null);
      assert Valid();
      if path.n == 0 || res != 0 {
        return -1, null;
      }
      PathEnds(c, s.node);
      var found := path.stack[path.n - 1];
      node := found;
      TakeOut(path, found, garbage, c, s);
      r := 0;
    }

    /** value_dict_walk_ordered. */
    method WalkOrdered(visit: Visitor) returns (ret: int, visited: seq<Node>)
      requires Valid()
      ensures !ordered ==> ret == -1 && visited == []
      ensures ordered ==> Walks(order, visit, visited, ret)
    {
      visited := [];
      if !ordered {
        return -1, visited;
      }
      var node := orderHead;
      while node != null
        invariant Walking(order, visit, visited)
        invariant node == (if |visited| < |order| then order[|visited|] else null)
        decreases |order| - |visited|
      {
        ghost var k := |visited|;
        assert visited + [node] == order[..k + 1];
        WalkStep(order, visit, visited, node);
        visited := visited + [node];
        ret := visit(visited);
        if ret != 0 {
          return;
        }
        assert k + 1 < |order| ==> order[k].orderNext == order[k + 1];
        node := node.orderNext;
      }
      assert visited == order;
      WalkEnd(order, visit);
      ret := 0;
    }

    /** value_dict_walk_sorted: no parent links, but a stack of the nodes whose right subtrees are due. */
    method WalkSorted(visit: Visitor) returns (ret: int, visited: seq<Node>)
      requires Valid() && FitsMemory(tree.t)
      ensures Walks(InOrder(tree.t), visit, visited, ret)
    {
      hide Chained, Distinct, Sorted, Owns, Disjoint, Zip, RedBlack, Due, InOrder, After, Nodes, CtxNodes, Path, Plug;
      hide Walks, Walking;
      hide FitsMemory, RbModel.Height, Compose;
      visited := [];
      assert allocated(Nodes(tree.t));
      var stack := new PathStack();
      DueNone();
      WalkStart(InOrder(tree.t), visit);
      ZipRoot(tree.root, tree.t);
      WalkFits(tree.t);
      ghost var k := PushSpine(tree.root, stack, Top, tree.t);
      while stack.n > 0
        invariant fresh(stack) && fresh(stack.stack)
        invariant tree.t == old(tree.t) && Due(k) && stack.Holds(Path(k)) && visited + After(k) == InOrder(tree.t)
        invariant Walking(InOrder(tree.t), visit, visited)
        decreases |After(k)|
      {
        DueTop(k);
        stack.n := stack.n - 1;
        var node := stack.stack[stack.n];
        Regroup(visited, node, InOrder(k.right), After(k.up));
        WalkStep(InOrder(tree.t), visit, visited, node);
        visited := visited + [node];
        ret := visit(visited);
        if ret != 0 {
          return;
        }
        k := PushSpine(node.right, stack, k.up, k.right);
      }
      DueTop(k);
      assert visited == InOrder(tree.t);
      WalkEnd(InOrder(tree.t), visit);
      ret := 0;
    }
  }

  // ---------- the stack of the sorted walk ----------

  /** k is what a sorted walk still owes: its nodes, innermost first, each followed by its right subtree. */
  ghost predicate Due(k: Ctx)
    reads CtxNodes(k)`left, CtxNodes(k)`right, CtxNodes(k)`red
  {
    k.Top?
    || (&& k.InLeft? && k.node.right == RootOf(k.right) && Owns(k.right) && Disjoint(k.right)
        && |Path(k.up)| + 1 + Height(k.right) <= PATH_SLOTS && Due(k.up))
  }

  /** value_dict_leftmost_path, onto a stack that owes `up` already. */
  method PushSpine(start: Node?, stack: PathStack, ghost up: Ctx, ghost t: Tree) returns (ghost k: Ctx)
    requires Zip(start, Top, t) && start == RootOf(t) && Due(up)
    requires stack.Holds(Path(up)) && |Path(up)| + Height(t) <= PATH_SLOTS
    modifies stack`n, stack.stack
    ensures Due(k) && stack.Holds(Path(k)) && After(k) == InOrder(t) + After(up)
  {
    hide Due, Zip, Path, After, InOrder, Plug, CtxNodes, Nodes;
    assert allocated(CtxNodes(up));
    ghost var d := LeftmostPath(start, stack, Path(up), t);
    SpineDue(d, up, start, t);
    k := Compose(d, up);
  }

  lemma DueTop(k: Ctx)
    requires Due(k)
    ensures |Path(k)| == 0 <==> k.Top?
    ensures k.Top? ==> After(k) == []
    ensures !k.Top? ==>
              && k.InLeft? && After(k) == [k.node] + InOrder(k.right) + After(k.up) && Path(k) == Path(k.up) + [k.node]
              && Due(k.up) && |Path(k.up)| + 1 + Height(k.right) <= PATH_SLOTS
              && k.node.right == RootOf(k.right) && Zip(k.node.right, Top, k.right)
  {
    if !k.Top? {
      ZipRoot(k.node.right, k.right);
    }
  }

  lemma DueNone()
    ensures Due(Top) && Path(Top) == [] && After(Top) == []
  {
  }

  lemma Regroup(v: seq<Node>, n: Node, a: seq<Node>, b: seq<Node>)
    ensures v + ([n] + a + b) == (v + [n]) + (a + b)
  {
  }

  lemma SpineOrder(d: Ctx)
    requires Before(d) == []
    ensures InOrder(Plug(d, Leaf)) == After(d)
  {
    PlugOrder(d, Leaf);
  }

  lemma SpineParts(d: Ctx, root: Node?)
    requires Zip(root, d, Leaf)
    ensures CtxOwns(d, root, null) && CtxDisjoint(d)
  {
  }

  /** A left spine pushed on the stack is owed exactly the subtree it was taken from. */
  lemma SpineDue(d: Ctx, up: Ctx, root: Node?, t: Tree)
    requires Zip(root, d, Leaf) && Plug(d, Leaf) == t && Before(d) == []
    requires Due(up) && |Path(up)| + Height(t) <= PATH_SLOTS
    ensures Due(Compose(d, up))
    ensures Path(Compose(d, up)) == Path(up) + Path(d)
    ensures After(Compose(d, up)) == InOrder(t) + After(up)
  {
    hide Zip, CtxOwns, CtxDisjoint, Due, Compose, InOrder, Before, After, Plug, Path;
    SpineOrder(d);
    ComposeOrder(d, up);
    ComposePath(d, up);
    SpineParts(d, root);
    SpinePart(d, up, Leaf, root, null);
  }

  lemma {:induction false} SpinePart(d: Ctx, up: Ctx, s: Tree, root: Node?, hole: Node?)
    requires CtxOwns(d, root, hole) && CtxDisjoint(d) && Before(d) == []
    requires Due(up) && |Path(up)| + Height(Plug(d, s)) <= PATH_SLOTS
    ensures Due(Compose(d, up)) && |Path(Compose(d, up))| + Height(s) <= PATH_SLOTS
    decreases d
  {
    if !d.Top? {
      SpinePart(d.up, up, Wrap(d, s), root, d.node);
    } else {
      assert Compose(d, up) == up;
    }
  }

  lemma WalkFits(t: Tree)
    requires RedBlack(t) && FitsMemory(t)
    ensures Height(t) <= PATH_SLOTS
  {
    FocusRoot(t);
    FocusHeight(t, Top, t);
  }

  /** What becomes of the pointers in a freed node is up to the allocator. */
  ghost predicate Discarded(node: Node, garbage: Node?)
    reads node
  {
    node.left == node.right == node.orderPrev == node.orderNext == garbage
  }

  /** value_fini of key and value, then free. */
  method Discard(node: Node, garbage: Node?)
    modifies node
    ensures Discarded(node, garbage)
  {
    node.left, node.right, node.red := garbage, garbage, garbage == null;
    node.orderPrev, node.orderNext := garbage, garbage;
  }

  // ---------- initialization ----------

  /** What a VALUE holds, as far as initializing a dictionary is concerned. */
  datatype Content = Null | Holds(dict: Dict) | Other

  class Value {
    var content: Content

    constructor ()
      ensures content == Null
    {
      content := Null;
    }
  }

  /** The comparator argument, which may be NULL. */
  datatype CmpArg = NoCmp | Custom(cmp: Comparator)

  /** value_init_dict_ex; `ok` tells whether the payload can be allocated.  A value that cannot have it becomes a
      null value. */
  method InitDict(v: Value?, arg: CmpArg, maintainOrder: bool, ok: bool) returns (status: int)
    modifies if v == null then {} else {v}
    ensures status == if v != null && ok then 0 else -1
    ensures v != null && !ok ==> v.content == Null
    ensures v != null && ok ==>
              && v.content.Holds?
              && var d := v.content.dict;
              && fresh(d) && d.Valid() && d.tree.t == Leaf && d.size == 0 && d.ordered == maintainOrder
              && d.tree.cmp == if arg.NoCmp? then DictOrder.DefaultCmp else arg.cmp
  {
    if v == null {
      return -1;
    }
    if !ok {
      v.content := Null;
      return -1;
    }
    var d := new Dict(if arg.NoCmp? then DictOrder.DefaultCmp else arg.cmp, maintainOrder);
    v.content := Holds(d);
    status := 0;
  }

  lemma NoElements()
    ensures Elements([]) == {}
  {
  }

  lemma LosesOne(before: seq<Node>, n: Node, after: seq<Node>)
    requires Loses(before, n, after)
    ensures |after| == |before| - 1
  {
  }
}
