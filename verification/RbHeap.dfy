/** data/rbtree.c on the heap: nodes rewritten in place, explicit path stacks instead of parent links. */
module RbHeap {
  import opened Keys
  import opened RbModel

  // ---------- heap meaning of the abstract values ----------

  /** Every node of t has the colour and the children that t gives it. */
  ghost predicate Owns(t: Tree)
    reads Nodes(t)`left, Nodes(t)`right, Nodes(t)`red
  {
    match t
    case Leaf => true
    case Bin(l, n, red, r) =>
      n.red == red && n.left == RootOf(l) && n.right == RootOf(r) && Owns(l) && Owns(r)
  }

  /** Following c from `root` leads to the pointer `hole`. */
  ghost predicate CtxOwns(c: Ctx, root: Node?, hole: Node?)
    reads CtxNodes(c)`left, CtxNodes(c)`right, CtxNodes(c)`red
  {
    match c
    case Top => root == hole
    case InLeft(up, n, red, r) =>
      n.red == red && n.left == hole && n.right == RootOf(r) && Owns(r) && CtxOwns(up, root, n)
    case InRight(up, l, n, red) =>
      n.red == red && n.left == RootOf(l) && n.right == hole && Owns(l) && CtxOwns(up, root, n)
  }

  /** The heap below `root` is exactly c around t. */
  ghost predicate Zip(root: Node?, c: Ctx, t: Tree)
    reads (CtxNodes(c) + Nodes(t))`left, (CtxNodes(c) + Nodes(t))`right, (CtxNodes(c) + Nodes(t))`red
  {
    CtxOwns(c, root, RootOf(t)) && Owns(t) && Apart(c, t)
  }

  lemma ZipRoot(root: Node?, t: Tree)
    requires root == RootOf(t) && Owns(t) && Disjoint(t)
    ensures Zip(root, Top, t)
  {
  }

  lemma ZipDown(root: Node?, c: Ctx, s: Tree)
    requires Zip(root, c, s) && s.Bin?
    ensures s.node.left == RootOf(s.left) && s.node.right == RootOf(s.right) && s.node.red == s.red
    ensures Zip(root, InLeft(c, s.node, s.red, s.right), s.left)
    ensures Zip(root, InRight(c, s.left, s.node, s.red), s.right)
  {
  }

  lemma ZipUp(root: Node?, c: Ctx, s: Tree)
    requires !c.Top?
    ensures Zip(root, c, s) <==> Zip(root, c.up, Wrap(c, s))
  {
  }

  /** The test `node == LEFT(parent)` tells the side of the hole, even when the hole is NULL, as long as
      hole and sibling are not both missing. */
  lemma WhichSide(root: Node?, c: Ctx, s: Tree)
    requires Zip(root, c, s) && !c.Top? && (s.Bin? || Sibling(c).Bin?)
    ensures c.InLeft? <==> c.node.left == RootOf(s)
    ensures c.InRight? <==> c.node.right == RootOf(s)
    ensures RootOf(Sibling(c)) == if c.InLeft? then c.node.right else c.node.left
    ensures c.node.red == c.red
  {
    assert RootOf(s) != null ==> RootOf(s) in Nodes(s);
    assert RootOf(Sibling(c)) != null ==> RootOf(Sibling(c)) in CtxNodes(c);
  }

  lemma ZipShape(root: Node?, c: Ctx, s: Tree)
    requires Zip(root, c, s)
    ensures s.Bin? ==> s.node.left == RootOf(s.left) && s.node.right == RootOf(s.right) && s.node.red == s.red
    ensures c.Top? ==> root == RootOf(s)
    ensures !c.Top? ==>
              var b := Sibling(c);
              b.Bin? ==> b.node.left == RootOf(b.left) && b.node.right == RootOf(b.right) && b.node.red == b.red
  {
  }

  lemma ZipGrandchildren(root: Node?, c: Ctx, s: Tree)
    requires Zip(root, c, s) && s.Bin?
    ensures s.node.left == RootOf(s.left) && s.node.right == RootOf(s.right) && s.node.red == s.red
    ensures s.left.Bin? ==> s.left.node.red == s.left.red
    ensures s.right.Bin? ==> s.right.node.red == s.right.red
    ensures s.left.Bin? ==> s.left.node in Nodes(s)
    ensures s.right.Bin? ==> s.right.node in Nodes(s)
  {
    assert Owns(s.left) && Owns(s.right);
  }

  lemma ZipOver(root: Node?, c: Ctx, s: Tree)
    requires !c.Top?
    ensures Zip(root, c, s) <==> Zip(root, Flip(c, s), Sibling(c))
  {
    ZipUp(root, c, s);
    ZipUp(root, Flip(c, s), Sibling(c));
  }

  lemma UncleShape(root: Node?, c: Ctx, s: Tree)
    requires Zip(root, c, s) && !c.Top? && !c.up.Top?
    ensures c.node == c.up.node.left <==> c.up.InLeft?
    ensures RootOf(Uncle(c)) == if c.up.InLeft? then c.up.node.right else c.up.node.left
    ensures Uncle(c).Bin? ==> Uncle(c).node.red == Uncle(c).red
  {
    ZipUp(root, c, s);
    WhichSide(root, c.up, Wrap(c, s));
    ZipShape(root, c.up, Wrap(c, s));
  }

  lemma SiblingShape(root: Node?, c: Ctx, s: Tree)
    requires Zip(root, c, s) && !c.Top? && Sibling(c).Bin?
    ensures
      var b := Sibling(c);
      && b.node.left == RootOf(b.left) && b.node.right == RootOf(b.right) && b.node.red == b.red
      && (b.left.Bin? ==> b.left.node.red == b.left.red)
      && (b.right.Bin? ==> b.right.node.red == b.right.red)
  {
    ZipOver(root, c, s);
    ZipGrandchildren(root, Flip(c, s), Sibling(c));
  }

  /** The pointer tests by which InsertRaise chooses its rotation. */
  lemma OuterShape(root: Node?, up: Ctx, g: Tree, inLeft: bool, h: nat)
    requires Zip(root, up, g) && OuterRed(g, inLeft, h)
    ensures RootOf(OuterChild(g, inLeft)) == OuterParent(g, inLeft).node.left <==> inLeft
  {
    assert Owns(OuterParent(g, inLeft)) && Disjoint(OuterParent(g, inLeft));
  }

  /** The pointer tests by which InsertStraighten tells an inner edge from an outer one. */
  lemma InnerShape(root: Node?, c: Ctx, s: Tree)
    requires Zip(root, c, s) && s.Bin? && !c.Top? && !c.up.Top?
    ensures
      var g := c.up.node;
      && (g.left != null && s.node == g.left.right <==> c.up.InLeft? && c.InRight?)
      && (g.right != null && s.node == g.right.left <==> c.up.InRight? && c.InLeft?)
  {
    ZipUp(root, c, s);
    assert Owns(Uncle(c));
    assert Nodes(Uncle(c)) <= CtxNodes(c);
  }

  ghost function TopNode(c: Ctx): Node? {
    if c.Top? then null else c.node
  }

  ghost function TopSet(c: Ctx): set<Node> {
    if c.Top? then {} else {c.node}
  }

  lemma CtxParts(c: Ctx, root: Node?, hole: Node?)
    ensures CtxOwns(c, root, hole) <==>
            if c.Top? then root == hole else
            && c.node.red == c.red
            && c.node.left == (if c.InLeft? then hole else RootOf(Sibling(c)))
            && c.node.right == (if c.InRight? then hole else RootOf(Sibling(c)))
            && Owns(Sibling(c)) && CtxOwns(c.up, root, c.node)
  {
  }

  lemma {:induction false} PlugOwns(root: Node?, c: Ctx, t: Tree)
    requires Zip(root, c, t)
    ensures Nodes(Plug(c, t)) == CtxNodes(c) + Nodes(t)
    ensures Owns(Plug(c, t)) && root == RootOf(Plug(c, t)) && Disjoint(Plug(c, t))
  {
    PlugNodes(c, t);
    if !c.Top? {
      PlugOwns(root, c.up, Wrap(c, t));
    }
  }

  lemma {:induction false} ComposeOwns(d: Ctx, c: Ctx, root: Node?, mid: Node?, hole: Node?)
    requires CtxOwns(d, mid, hole) && CtxOwns(c, root, mid)
    ensures CtxNodes(Compose(d, c)) == CtxNodes(d) + CtxNodes(c)
    ensures CtxOwns(Compose(d, c), root, hole)
    decreases d
  {
    ComposeNodes(d, c);
    if !d.Top? {
      ComposeNodes(d.up, c);
      ComposeOwns(d.up, c, root, mid, d.node);
    }
  }

  /** RBTREE_PATH, which is also RBTREE_CURSOR: a fixed array of slots and a count. */
  class PathStack {
    const stack: array<Node?>
    var n: nat

    constructor ()
      ensures fresh(stack) && stack.Length == PATH_SLOTS && n == 0
    {
      stack := new Node?[PATH_SLOTS](_ => null);
      n := 0;
    }

    ghost predicate Holds(s: seq<Node?>)
      reads this, stack
    {
      stack.Length == PATH_SLOTS && n == |s| <= PATH_SLOTS && stack[..n] == s
    }
  }

  /** rbtree_leftmost_path: appends the left spine of t to the path. */
  method LeftmostPath(start: Node?, path: PathStack, ghost base: seq<Node?>, ghost t: Tree) returns (ghost d: Ctx)
    requires Zip(start, Top, t) && start == RootOf(t)
    requires path.Holds(base) && |base| + Height(t) <= PATH_SLOTS
    modifies path`n, path.stack
    ensures Zip(start, d, Leaf) && Plug(d, Leaf) == t && Before(d) == []
    ensures path.Holds(base + Path(d)) && |base| + |Path(d)| <= PATH_SLOTS
    ensures t.Bin? ==> d.InLeft?
    ensures t.Bin? && t.left.Bin? ==> d.up.InLeft?
    ensures t.Leaf? ==> path.stack[..] == old(path.stack[..])
  {
    hide Zip, Nodes, CtxNodes, InOrder;
    var node := start;
    d := Top;
    ghost var s := t;
    while node != null
      invariant Zip(start, d, s) && Plug(d, s) == t && Before(d) == [] && node == RootOf(s)
      invariant path.Holds(base + Path(d)) && |base| + |Path(d)| + Height(s) <= PATH_SLOTS
      invariant d.Top? ==> s == t && path.stack[..] == old(path.stack[..])
      invariant !d.Top? ==> t.Bin? && d.InLeft? && (d.up.Top? ==> s == t.left) && (!d.up.Top? ==> d.up.InLeft?)
      decreases s
    {
      ghost var footprint := CtxNodes(d) + Nodes(s);
      path.stack[path.n] := node;
      path.n := path.n + 1;
      assert path.Holds(base + Path(d) + [node]);
      ZipDown(start, d, s);
      node := node.left;
      d, s := InLeft(d, s.node, s.red, s.right), s.left;
      assert base + Path(d) == base + Path(d.up) + [d.node];
    }
  }

  /** rbtree_rightmost_path: appends the right spine of t to the path. */
  method RightmostPath(start: Node?, path: PathStack, ghost base: seq<Node?>, ghost t: Tree) returns (ghost d: Ctx)
    requires Zip(start, Top, t) && start == RootOf(t)
    requires path.Holds(base) && |base| + Height(t) <= PATH_SLOTS
    modifies path`n, path.stack
    ensures Zip(start, d, Leaf) && Plug(d, Leaf) == t && After(d) == []
    ensures path.Holds(base + Path(d)) && |base| + |Path(d)| <= PATH_SLOTS
    ensures t.Bin? ==> d.InRight?
    ensures t.Bin? && t.right.Bin? ==> d.up.InRight?
    ensures t.Leaf? ==> path.stack[..] == old(path.stack[..])
  {
    hide Zip, Nodes, CtxNodes, InOrder;
    var node := start;
    d := Top;
    ghost var s := t;
    while node != null
      invariant Zip(start, d, s) && Plug(d, s) == t && After(d) == [] && node == RootOf(s)
      invariant path.Holds(base + Path(d)) && |base| + |Path(d)| + Height(s) <= PATH_SLOTS
      invariant d.Top? ==> s == t && path.stack[..] == old(path.stack[..])
      invariant !d.Top? ==> t.Bin? && d.InRight? && (d.up.Top? ==> s == t.right) && (!d.up.Top? ==> d.up.InRight?)
      decreases s
    {
      ghost var footprint := CtxNodes(d) + Nodes(s);
      path.stack[path.n] := node;
      path.n := path.n + 1;
      assert path.Holds(base + Path(d) + [node]);
      ZipDown(start, d, s);
      node := node.right;
      d, s := InRight(d, s.left, s.node, s.red), s.right;
      assert base + Path(d) == base + Path(d.up) + [d.node];
    }
  }

  class RbTree {
    var root: Node?
    ghost var t: Tree
    const cmp: Comparator

    /** Between operations: the heap below root is t, and t is a strictly sorted red-black tree. */
    ghost predicate Valid()
      reads this, Nodes(t)`left, Nodes(t)`right, Nodes(t)`red
    {
      Linked() && RedBlack(t) && Sorted(cmp, InOrder(t))
    }

    ghost predicate Linked()
      reads this, Nodes(t)`left, Nodes(t)`right, Nodes(t)`red
    {
      root == RootOf(t) && Owns(t) && Disjoint(t)
    }

    constructor (cmp: Comparator)
      ensures Valid() && t == Leaf && this.cmp == cmp
    {
      this.cmp := cmp;
      root := null;
      t := Leaf;
    }

    /** The C idiom `if(parent != NULL) ... else tree->root = ...`: the pointer that led down to `was` is
        made to lead to s instead. */
    method Relink(parent: Node?, was: Node, now: Node?, ghost c: Ctx, ghost s: Tree)
      requires CtxOwns(c, root, was) && was !in CtxNodes(c) && parent == TopNode(c)
      requires Owns(s) && now == RootOf(s) && Apart(c, s)
      modifies this`root, TopSet(c)`left, TopSet(c)`right
      ensures Zip(root, c, s)
    {
      if parent != null {
        if was == parent.left {
          parent.left := now;
        } else {
          parent.right := now;
        }
      } else {
        root := now;
      }
    }

    /** rbtree_rotate_left. */
    method RotateLeft(parent: Node?, node: Node, ghost c: Ctx, ghost s: Tree)
      requires Zip(root, c, s) && node == RootOf(s) && parent == TopNode(c)
      requires s.Bin? && s.right.Bin?
      modifies this`root, node`right, s.right.node`left, TopSet(c)`left, TopSet(c)`right
      ensures Zip(root, c, RotatedLeft(s))
    {
      RotatedLeftContents(c, s);
      assert Owns(s.right) && Disjoint(s.right);
      var tmp := node.right;
      node.right := tmp.left;
      tmp.left := node;
      Relink(parent, node, tmp, c, RotatedLeft(s));
    }

    /** rbtree_rotate_right. */
    method RotateRight(parent: Node?, node: Node, ghost c: Ctx, ghost s: Tree)
      requires Zip(root, c, s) && node == RootOf(s) && parent == TopNode(c)
      requires s.Bin? && s.left.Bin?
      modifies this`root, node`left, s.left.node`right, TopSet(c)`left, TopSet(c)`right
      ensures Zip(root, c, RotatedRight(s))
    {
      RotatedRightContents(c, s);
      assert Owns(s.left) && Disjoint(s.left);
      var tmp := node.left;
      node.left := tmp.right;
      tmp.right := node;
      Relink(parent, node, tmp, c, RotatedRight(s));
    }

    /** MAKE_RED and MAKE_BLACK on the root of the subtree s. */
    method Paint(node: Node, red: bool, ghost c: Ctx, ghost s: Tree)
      requires Zip(root, c, s) && s.Bin? && node == s.node
      modifies node`red
      ensures Zip(root, c, s.(red := red))
    {
      node.red := red;
    }

    /** rbtree_lookup_path.  Either s is the subtree of the equal node, which ends the path, or s is the
        empty place where an equal node would be linked, below the node that ends the path. */
    method LookupPath(key: Key, path: PathStack) returns (res: int, ghost c: Ctx, ghost s: Tree)
      requires TotalOrder(cmp) && Valid() && FitsMemory(t) && path.Holds([])
      modifies path`n, path.stack
      ensures Zip(root, c, s) && Focus(t, c, s)
      ensures Brackets(cmp, key, c)
      ensures s.Bin? ==> res == 0 && cmp(key, s.node.key) == 0 && path.Holds(Path(c) + [s.node])
      ensures s.Leaf? ==> path.Holds(Path(c))
      ensures s.Leaf? && !c.Top? ==> if c.InLeft? then res < 0 else res > 0
    {
      hide Zip, Focus, Brackets, FitsMemory, RedBlack, Sorted, InOrder, Owns, Disjoint;
      res := 0;
      var node := root;
      c, s := Top, t;
      FocusRoot(t);
      ZipRoot(root, t);
      BracketsTop(cmp, key);
      while node != null
        invariant Focus(t, c, s) && Zip(root, c, s) && node == RootOf(s)
        invariant path.Holds(Path(c)) && Brackets(cmp, key, c)
        invariant !c.Top? ==> if c.InLeft? then res < 0 else res > 0
        decreases s
      {
        FocusDepth(t, c, s);
        FocusDown(t, c, s);
        ghost var footprint := CtxNodes(c) + Nodes(s);
        path.stack[path.n] := node;
        path.n := path.n + 1;
        ZipDown(root, c, s);
        assert path.Holds(Path(c) + [s.node]);
        res := cmp(key, node.key);
        FocusSplit(t, c, s);
        LookupStep(cmp, key, t, c, s);
        if res == 0 {
          break;
        }
        if res < 0 {
          node := node.left;
          c, s := InLeft(c, s.node, s.red, s.right), s.left;
        } else {
          node := node.right;
          c, s := InRight(c, s.left, s.node, s.red), s.right;
        }
      }
    }

    /** The common start of rbtree_insert and rbtree_remove: an empty path, then the lookup. */
    method FindPath(key: Key) returns (path: PathStack, res: int, ghost c: Ctx, ghost s: Tree)
      requires TotalOrder(cmp) && Valid() && FitsMemory(t)
      ensures fresh(path) && fresh(path.stack) && Valid()
      ensures Zip(root, c, s) && Focus(t, c, s)
      ensures Brackets(cmp, key, c)
      ensures s.Bin? ==> res == 0 && cmp(key, s.node.key) == 0 && path.Holds(Path(c) + [s.node])
      ensures s.Leaf? ==> path.Holds(Path(c))
      ensures s.Leaf? && !c.Top? ==> if c.InLeft? then res < 0 else res > 0
    {
      assert allocated(Nodes(t));
      path := new PathStack();
      res, c, s := LookupPath(key, path);
    }

    /** rbtree_insert_fixup, black uncle: an inner red-red edge is first rotated to the outside. */
    method InsertStraighten(grandparent: Node, parent0: Node, node0: Node, ghost c: Ctx, ghost s: Tree)
      returns (parent: Node, node: Node, ghost g: Tree)
      requires Zip(root, c, s) && DoubleRed(c, s) && !IsRed(Uncle(c))
      requires node0 == s.node && parent0 == c.node && grandparent == c.up.node
      modifies this`root, {node0, parent0, grandparent}`left, {node0, parent0, grandparent}`right
      ensures Zip(root, c.up.up, g) && OuterRed(g, c.up.InLeft?, BlackHeight(s))
      ensures grandparent == g.node && parent == OuterParent(g, c.up.InLeft?).node
      ensures node == RootOf(OuterChild(g, c.up.InLeft?))
      ensures parent in {node0, parent0}
      ensures InOrder(g) == InOrder(Wrap(c.up, Wrap(c, s)))
    {
      hide Zip, Balanced, InOrder, Before, After;
      parent, node := parent0, node0;
      ghost var p := Wrap(c, s);
      g := Wrap(c.up, p);
      InnerShape(root, c, s);
      StraightenedOuter(c, s);
      StraightenedOrder(c, s);
      ZipUp(root, c, s);
      if grandparent.left != null && node == grandparent.left.right {
        RotateLeft(grandparent, parent, c.up, p);
        ghost var p' := RotatedLeft(p);
        ZipDown(root, c.up, p');
        parent, node := node, node.left;
        g := Wrap(c.up, p');
        ZipUp(root, c.up, p');
      } else if grandparent.right != null && node == grandparent.right.left {
        RotateRight(grandparent, parent, c.up, p);
        ghost var p' := RotatedRight(p);
        ZipDown(root, c.up, p');
        parent, node := node, node.right;
        g := Wrap(c.up, p');
        ZipUp(root, c.up, p');
      } else {
        ZipUp(root, c.up, p);
      }
      assert g == Straightened(c, s);
    }

    /** rbtree_insert_fixup, black uncle: the grandparent is rotated below the parent and they swap colours. */
    method InsertRaise(grandgrandparent: Node?, grandparent: Node, parent: Node, node: Node,
                       ghost up: Ctx, ghost g: Tree, ghost inLeft: bool, ghost h: nat)
      returns (ghost s': Tree)
      requires Zip(root, up, g) && OuterRed(g, inLeft, h)
      requires grandparent == g.node && parent == OuterParent(g, inLeft).node
      requires node == RootOf(OuterChild(g, inLeft))
      requires grandgrandparent == TopNode(up)
      modifies this`root, {parent, grandparent}`left, {parent, grandparent}`right, {parent, grandparent}`red
      modifies TopSet(up)`left, TopSet(up)`right
      ensures Zip(root, up, s')
      ensures Balanced(s') && !IsRed(s') && BlackHeight(s') == h + 1 && InOrder(s') == InOrder(g)
    {
      hide Zip, Balanced, BlackHeight, InOrder;
      OuterShape(root, up, g, inLeft, h);
      RaisedSound(g, inLeft, h);
      if node == parent.left {
        RotateRight(grandgrandparent, grandparent, up, g);
        s' := RotatedRight(g);
      } else {
        RotateLeft(grandgrandparent, grandparent, up, g);
        s' := RotatedLeft(g);
      }
      Paint(parent, false, up, s');
      s' := s'.(red := false);
      ghost var below := if inLeft then InRight(up, s'.left, s'.node, false) else InLeft(up, s'.node, false, s'.right);
      ghost var b := if inLeft then s'.right else s'.left;
      ZipUp(root, below, b);
      Paint(grandparent, true, below, b);
      ZipUp(root, below, b.(red := true));
      s' := Raised(g, inLeft);
    }

    /** rbtree_insert_fixup, red uncle: parent and uncle become black, the grandparent red. */
    method InsertRecolor(grandparent: Node, parent: Node, uncle: Node, ghost c: Ctx, ghost s: Tree)
      requires Zip(root, c, s) && DoubleRed(c, s) && IsRed(Uncle(c))
      requires parent == c.node && grandparent == c.up.node && uncle == Uncle(c).node
      modifies {parent, grandparent, uncle}`red
      ensures Zip(root, c.up.up, Recolored(c, s))
    {
      hide Zip, Balanced;
      ghost var p := Wrap(c, s);
      ZipUp(root, c, s);
      Paint(parent, false, c.up, p);
      p := p.(red := false);
      ZipOver(root, c.up, p);
      Paint(uncle, false, Flip(c.up, p), Uncle(c));
      ghost var u := Uncle(c).(red := false);
      ZipUp(root, Flip(c.up, p), u);
      Paint(grandparent, true, c.up.up, Wrap(Flip(c.up, p), u));
    }

    /** rbtree_insert_fixup, black uncle: both rotations. */
    method InsertBlackUncle(grandgrandparent: Node?, grandparent: Node, parent: Node, node: Node,
                            ghost c: Ctx, ghost s: Tree)
      returns (ghost g': Tree)
      requires Zip(root, c, s) && DoubleRed(c, s) && !IsRed(Uncle(c))
      requires node == s.node && parent == c.node && grandparent == c.up.node
      requires grandgrandparent == TopNode(c.up.up)
      modifies this`root, {node, parent, grandparent}`left, {node, parent, grandparent}`right
      modifies {node, parent, grandparent}`red, TopSet(c.up.up)`left, TopSet(c.up.up)`right
      ensures Zip(root, c.up.up, g') && Sound(c.up.up, g')
      ensures InOrder(Plug(c.up.up, g')) == InOrder(Plug(c, s))
    {
      hide Zip, InOrder, Balanced;
      var parent', node', g := InsertStraighten(grandparent, parent, node, c, s);
      g' := InsertRaise(grandgrandparent, grandparent, parent', node', c.up.up, g, c.up.InLeft?, BlackHeight(s));
      RaiseTwo(c, s, g');
      DoubleRedGrandparent(c, s);
    }

    /** rbtree_insert_fixup, red parent: either the double red is repaired or it moves two levels up. */
    method DoubleRedStep(path: PathStack, parent: Node, node: Node, ghost c: Ctx, ghost s: Tree)
      returns (done: bool, ghost c': Ctx, ghost s': Tree)
      requires Zip(root, c, s) && DoubleRed(c, s) && path.Holds(Path(c) + [s.node])
      requires node == s.node && parent == c.node
      modifies this`root, path`n, (CtxNodes(c) + Nodes(s))`left, (CtxNodes(c) + Nodes(s))`right
      modifies (CtxNodes(c) + Nodes(s))`red
      ensures Zip(root, c', s') && InOrder(Plug(c', s')) == InOrder(Plug(c, s))
      ensures done ==> Sound(c', s')
      ensures !done ==> c' < c && RedDefect(c', s') && path.Holds(Path(c') + [s'.node])
      ensures !done ==> CtxNodes(c') + Nodes(s') == CtxNodes(c) + Nodes(s)
    {
      hide Zip, Balanced, Fits, InOrder, Nodes, CtxNodes, Plug, Path, Owns, Disjoint, BlackHeight, Sound;
      hide Recolored;
      DoubleRedGrandparent(c, s);
      PathEnds(c, s.node);
      NodeIn(c, s);
      UncleShape(root, c, s);
      c' := c.up.up;
      var grandparent := path.stack[path.n - 3];
      var uncle := if parent == grandparent.left then grandparent.right else grandparent.left;
      done := uncle == null || !uncle.red;
      if done {
        var grandgrandparent := if path.n > 3 then path.stack[path.n - 4] else null;
        s' := InsertBlackUncle(grandgrandparent, grandparent, parent, node, c, s);
      } else {
        InsertRecolor(grandparent, parent, uncle, c, s);
        RecoloredProps(c, s);
        s' := Recolored(c, s);
        path.n := path.n - 2;
      }
    }

    /** rbtree_insert_fixup. */
    method InsertFixup(path: PathStack, ghost c0: Ctx, ghost s0: Tree, ghost footprint: set<Node>)
      returns (ghost t': Tree)
      requires Zip(root, c0, s0) && footprint == CtxNodes(c0) + Nodes(s0)
      requires RedDefect(c0, s0) && path.Holds(Path(c0) + [s0.node])
      modifies this`root, path`n, footprint`left, footprint`right, footprint`red
      ensures root == RootOf(t') && Owns(t') && Disjoint(t') && RedBlack(t')
      ensures InOrder(t') == InOrder(Plug(c0, s0))
    {
      hide Zip, Balanced, Fits, InOrder, Nodes, CtxNodes, Plug, Path, Owns, Disjoint, BlackHeight, Sound;
      hide RedBlack, Recolored;
      ghost var c, s := c0, s0;
      while true
        invariant Zip(root, c, s) && footprint == CtxNodes(c) + Nodes(s)
        invariant RedDefect(c, s) && InOrder(Plug(c, s)) == InOrder(Plug(c0, s0))
        invariant path.Holds(Path(c) + [s.node])
        decreases c
      {
        PathEnds(c, s.node);
        NodeIn(c, s);
        ZipShape(root, c, s);
        var node := path.stack[path.n - 1];
        var parent := if path.n > 1 then path.stack[path.n - 2] else null;
        if parent == null {
          Paint(node, false, c, s);
          root := node;
          BlackenRoot(s);
          s := s.(red := false);
          break;
        }
        WhichSide(root, c, s);
        if !parent.red {
          BlackParent(c, s);
          break;
        }
        var done;
        done, c, s := DoubleRedStep(path, parent, node, c, s);
        if done {
          break;
        }
      }
      WholeTree(root, c, s);
      t' := Plug(c, s);
    }

    /** Links a new red leaf at the end of a lookup path. */
    method LinkLeaf(parent: Node?, node: Node, res: int, ghost c: Ctx)
      requires Zip(root, c, Leaf) && node !in CtxNodes(c) && parent == TopNode(c)
      requires !c.Top? ==> if c.InLeft? then res < 0 else res > 0
      modifies this`root, TopSet(c)`left, TopSet(c)`right, node`left, node`right, node`red
      ensures Zip(root, c, Bin(Leaf, node, true, Leaf))
    {
      node.left := null;
      node.right := null;
      node.red := true;
      if parent != null {
        if res < 0 {
          parent.left := node;
        } else {
          parent.right := node;
        }
      } else {
        root := node;
      }
    }

    /** rbtree_insert, once the lookup has failed: link the node below the end of the path and rebalance. */
    method InsertAt(path: PathStack, node: Node, res: int, ghost c: Ctx)
      returns (ghost t': Tree)
      requires Zip(root, c, Leaf) && Focus(t, c, Leaf) && path.Holds(Path(c)) && |Path(c)| < PATH_SLOTS
      requires node !in CtxNodes(c) && RedDefect(c, Bin(Leaf, node, true, Leaf))
      requires !c.Top? ==> if c.InLeft? then res < 0 else res > 0
      modifies this`root, path`n, path.stack
      modifies (CtxNodes(c) + {node})`left, (CtxNodes(c) + {node})`right, (CtxNodes(c) + {node})`red
      ensures root == RootOf(t') && Owns(t') && Disjoint(t') && RedBlack(t')
      ensures InOrder(t') == InOrder(Plug(c, Bin(Leaf, node, true, Leaf)))
    {
      hide Zip, Balanced, InOrder, Fits, Plug, Path;
      ghost var s' := Bin(Leaf, node, true, Leaf);
      PathEnds(c, null);
      NodeIn(c, s');
      assert Path(c) + [null] == path.stack[..path.n] + [null];
      LinkLeaf(if path.n > 0 then path.stack[path.n - 1] else null, node, res, c);
      path.stack[path.n] := node;
      path.n := path.n + 1;
      assert path.Holds(Path(c) + [s'.node]);
      t' := InsertFixup(path, c, s', CtxNodes(c) + Nodes(s'));
    }

    /** rbtree_insert. */
    method Insert(node: Node) returns (r: int)
      requires TotalOrder(cmp) && Valid() && FitsMemory(t)
      modifies this`root, this`t
      modifies (Nodes(t) + {node})`left, (Nodes(t) + {node})`right, (Nodes(t) + {node})`red
      ensures Valid()
      ensures r == if Has(cmp, old(Nodes(t)), node.key) then -1 else 0
      ensures r == -1 ==> t == old(t) && unchanged(node)
      ensures r == 0 ==> Nodes(t) == old(Nodes(t)) + {node} && |InOrder(t)| == old(|InOrder(t)|) + 1
    {
      hide Zip, Balanced, InOrder, Nodes, CtxNodes, Brackets, Focus, Fits, Plug, Path, Before, After, Sorted;
      var path, res, c, s := FindPath(node.key);
      FocusOrder(t, c, s);
      LookupDecides(cmp, node.key, t, c, s);
      PathEnds(c, null);
      if path.n > 0 && res == 0 {
        return -1;
      }
      AddLeaf(path, node, res, c);
      r := 0;
    }

    /** rbtree_insert, once the key is known to be missing. */
    method AddLeaf(path: PathStack, node: Node, res: int, ghost c: Ctx)
      requires TotalOrder(cmp) && Valid() && Zip(root, c, Leaf) && Focus(t, c, Leaf)
      requires path.Holds(Path(c)) && !Has(cmp, Nodes(t), node.key)
      requires Brackets(cmp, node.key, c) && InOrder(t) == Before(c) + InOrder(Leaf) + After(c)
      requires !c.Top? ==> if c.InLeft? then res < 0 else res > 0
      modifies this`root, this`t, path`n, path.stack
      modifies (Nodes(t) + {node})`left, (Nodes(t) + {node})`right, (Nodes(t) + {node})`red
      ensures Valid()
      ensures Nodes(t) == old(Nodes(t)) + {node} && |InOrder(t)| == old(|InOrder(t)|) + 1
    {
      hide Zip, InOrder, Nodes, CtxNodes, Brackets, Focus, Plug, Path, Before, After, Sorted;
      hide Has, Owns, Disjoint, RedBlack, RedDefect;
      FocusDepth(t, c, Leaf);
      InsertPlace(cmp, node, t, c);
      ghost var t' := InsertAt(path, node, res, c);
      InsertedOrder(cmp, node, t, c, t');
      InsertedNodes(node, t, c, t');
      t := t';
    }

    /** MAKE_RED and MAKE_BLACK on the sibling of the subtree s. */
    method PaintSibling(sibling: Node, red: bool, ghost c: Ctx, ghost s: Tree)
      requires Zip(root, c, s) && !c.Top? && Sibling(c).Bin? && sibling == Sibling(c).node
      modifies sibling`red
      ensures Zip(root, c.up, Wrap(Flip(c, s), Painted(Sibling(c), red)))
    {
      hide Zip;
      ZipOver(root, c, s);
      Paint(sibling, red, Flip(c, s), Sibling(c));
      ZipUp(root, Flip(c, s), Painted(Sibling(c), red));
    }

    /** rbtree_remove_fixup, red sibling: rotate it above the parent, which lengthens the path by one. */
    method RemoveRedSibling(grandparent: Node?, parent: Node, sibling: Node, node: Node?,
                            ghost c: Ctx, ghost s: Tree)
      requires Zip(root, c, s) && Deficit(c, s) && !IsRed(s) && !c.Top? && IsRed(Sibling(c))
      requires node == RootOf(s) && parent == c.node && sibling == Sibling(c).node && grandparent == TopNode(c.up)
      modifies this`root, {parent, sibling}`left, {parent, sibling}`right
      modifies {parent, sibling}`red, TopSet(c.up)`left, TopSet(c.up)`right
      ensures Zip(root, Rehung(c), s)
    {
      hide Zip, Deficit, IsRed;
      DeficitSibling(c, s);
      WhichSide(root, c, s);
      ghost var w, b := Wrap(c, s), Sibling(c);
      ghost var k := Rehung(c);
      ZipUp(root, c, s);
      ghost var r;
      if node == parent.left {
        RotateLeft(grandparent, parent, c.up, w);
        r := RotatedLeft(w);
      } else {
        RotateRight(grandparent, parent, c.up, w);
        r := RotatedRight(w);
      }
      Paint(sibling, false, c.up, r);
      ghost var x := Wrap(k, s);
      ZipUp(root, k.up, Painted(x, c.red));
      Paint(parent, true, k.up, Painted(x, c.red));
      ZipUp(root, k, s);
    }

    /** rbtree_remove_fixup, red sibling: the path follows the rotation. */
    method Lengthen(path: PathStack, sibling: Node, parent: Node, node: Node?, ghost c: Ctx, ghost s: Tree)
      requires !c.Top? && Sibling(c).Bin? && sibling == Sibling(c).node && parent == c.node
      requires Deficit(c, s) && !IsRed(s) && IsRed(Sibling(c))
      requires path.Holds(Path(c) + [node]) && Zip(root, Rehung(c), s)
      modifies path`n, path.stack
      ensures path.Holds(Path(Rehung(c)) + [node]) && Zip(root, Rehung(c), s)
      ensures Deficit(Rehung(c), s) && Rounds(Rehung(c), s) < Rounds(c, s) && Turned(Rehung(c), s)
      ensures InOrder(Plug(Rehung(c), s)) == InOrder(Plug(c, s)) && CtxNodes(Rehung(c)) == CtxNodes(c)
    {
      hide Zip, Path, Rehung, Deficit, InOrder, Plug, Rounds, CtxNodes, Nodes;
      RehungProps(c, s);
      DeficitSibling(c, s);
      ghost var base, k := Path(c.up), Rehung(c);
      ghost var footprint := CtxNodes(k) + Nodes(s);
      assert path.stack[..path.n] == base + [parent, node];
      assert path.stack[..path.n - 2] == base;
      path.stack[path.n - 2] := sibling;
      path.stack[path.n - 1] := parent;
      path.stack[path.n] := node;
      path.n := path.n + 1;
      assert path.stack[..path.n - 3] == base;
      assert path.stack[..path.n] == base + [sibling, parent] + [node];
    }

    /** rbtree_remove_fixup, the whole red-sibling step. */
    method RedSibling(path: PathStack, grandparent: Node?, parent: Node, sibling: Node, node: Node?,
                      ghost c: Ctx, ghost s: Tree)
      requires Zip(root, c, s) && Deficit(c, s) && !IsRed(s) && !c.Top? && IsRed(Sibling(c))
      requires node == RootOf(s) && parent == c.node && sibling == Sibling(c).node && grandparent == TopNode(c.up)
      requires path.Holds(Path(c) + [node])
      modifies this`root, {parent, sibling}`left, {parent, sibling}`right
      modifies {parent, sibling}`red, TopSet(c.up)`left, TopSet(c.up)`right, path`n, path.stack
      ensures path.Holds(Path(Rehung(c)) + [node]) && Zip(root, Rehung(c), s)
      ensures Deficit(Rehung(c), s) && Rounds(Rehung(c), s) < Rounds(c, s) && Turned(Rehung(c), s)
      ensures InOrder(Plug(Rehung(c), s)) == InOrder(Plug(c, s)) && CtxNodes(Rehung(c)) == CtxNodes(c)
    {
      hide Zip, Path, Rehung, Deficit, InOrder, Plug, Rounds, CtxNodes, Nodes;
      RemoveRedSibling(grandparent, parent, sibling, node, c, s);
      Lengthen(path, sibling, parent, node, c, s);
    }

    /** rbtree_remove_fixup, black sibling with black children: the deficit moves one level up. */
    method RemoveRecolor(path: PathStack, sibling: Node, ghost c: Ctx, ghost s: Tree)
      requires Zip(root, c, s) && Deficit(c, s) && !IsRed(s) && !c.Top?
      requires Sibling(c).Bin? && sibling == Sibling(c).node && !IsRed(Sibling(c))
      requires !IsRed(Sibling(c).left) && !IsRed(Sibling(c).right)
      requires path.Holds(Path(c) + [RootOf(s)])
      modifies path`n, sibling`red
      ensures
        var s' := Lightened(c, s);
        && Zip(root, c.up, s') && Deficit(c.up, s') && Rounds(c.up, s') < Rounds(c, s)
        && InOrder(Plug(c.up, s')) == InOrder(Plug(c, s))
        && CtxNodes(c.up) + Nodes(s') == CtxNodes(c) + Nodes(s)
        && path.Holds(Path(c.up) + [RootOf(s')]) && (c.red ==> IsRed(s'))
    {
      hide Zip, Path, Deficit, InOrder, Plug, Rounds;
      LightenedProps(c, s);
      assert path.stack[..path.n - 1] == Path(c.up) + [c.node];
      path.n := path.n - 1;
      PaintSibling(sibling, true, c, s);
    }

    /** rbtree_remove_fixup, black sibling with a red inner child only: bring the red child outside. */
    method RemoveStraighten(parent: Node, sibling0: Node, node: Node?, ghost c: Ctx, ghost s: Tree)
      returns (sibling: Node)
      requires Zip(root, c, s) && Deficit(c, s) && !IsRed(s) && !c.Top?
      requires Sibling(c).Bin? && !IsRed(Sibling(c))
      requires IsRed(Sibling(c).left) || IsRed(Sibling(c).right)
      requires node == RootOf(s) && parent == c.node && sibling0 == Sibling(c).node
      modifies this`root, parent`left, parent`right, Nodes(Sibling(c))`left, Nodes(Sibling(c))`right
      modifies Nodes(Sibling(c))`red
      ensures Zip(root, WithSibling(c, OuterSibling(c)), s) && sibling == OuterSibling(c).node
      ensures sibling in Nodes(Sibling(c))
    {
      hide Zip, Deficit, Path;
      ghost var k, b := Flip(c, s), Sibling(c);
      sibling := sibling0;
      WhichSide(root, c, s);
      ZipOver(root, c, s);
      ZipGrandchildren(root, k, b);
      if node == parent.left && (sibling.right == null || !sibling.right.red) {
        Paint(sibling, true, k, b);
        ghost var b1 := Painted(b, true);
        ZipDown(root, k, b1);
        ghost var kl := InLeft(k, b1.node, b1.red, b1.right);
        Paint(sibling.left, false, kl, b1.left);
        ZipUp(root, kl, Painted(b1.left, false));
        ghost var b2 := Wrap(kl, Painted(b1.left, false));
        RotateRight(parent, sibling, k, b2);
        ZipOver(root, WithSibling(c, RotatedRight(b2)), s);
        WhichSide(root, WithSibling(c, RotatedRight(b2)), s);
        sibling := parent.right;
      } else if node == parent.right && (sibling.left == null || !sibling.left.red) {
        Paint(sibling, true, k, b);
        ghost var b1 := Painted(b, true);
        ZipDown(root, k, b1);
        ghost var kr := InRight(k, b1.left, b1.node, b1.red);
        Paint(sibling.right, false, kr, b1.right);
        ZipUp(root, kr, Painted(b1.right, false));
        ghost var b2 := Wrap(kr, Painted(b1.right, false));
        RotateLeft(parent, sibling, k, b2);
        ZipOver(root, WithSibling(c, RotatedLeft(b2)), s);
        WhichSide(root, WithSibling(c, RotatedLeft(b2)), s);
        sibling := parent.left;
      }
    }

    /** rbtree_remove_fixup, black sibling with a red outer child: recolour, then rotate the parent down. */
    method RemoveRaise(grandparent: Node?, parent: Node, sibling: Node, node: Node?, ghost c: Ctx, ghost s: Tree)
      requires Zip(root, c, s) && OuterDeficit(c, s)
      requires node == RootOf(s) && parent == c.node && sibling == Sibling(c).node && grandparent == TopNode(c.up)
      modifies this`root, parent`left, parent`right, parent`red
      modifies Nodes(Sibling(c))`left, Nodes(Sibling(c))`right, Nodes(Sibling(c))`red
      modifies TopSet(c.up)`left, TopSet(c.up)`right
      ensures Zip(root, c.up, Borrowed(c, s))
    {
      hide Zip, Deficit, Path;
      ghost var k, b := Flip(c, s), Sibling(c);
      WhichSide(root, c, s);
      ZipOver(root, c, s);
      ZipGrandchildren(root, k, b);
      if sibling.red != parent.red {
        Paint(sibling, !sibling.red, k, b);
      }
      ghost var b1 := Painted(b, c.red);
      ZipUp(root, k, b1);
      Paint(parent, false, c.up, Wrap(k, b1));
      ghost var k' := Flip(c.(red := false), s);
      ZipUp(root, k', b1);
      ZipDown(root, k', b1);
      ghost var c1 := if c.InLeft? then InLeft(c.up, c.node, false, b1) else InRight(c.up, b1, c.node, false);
      ZipOver(root, c1, s);
      WhichSide(root, c1, s);
      if node == parent.left {
        ghost var kr := InRight(k', b1.left, b1.node, b1.red);
        Paint(sibling.right, false, kr, b1.right);
        ZipUp(root, kr, Painted(b1.right, false));
        ZipUp(root, k', Wrap(kr, Painted(b1.right, false)));
        RotateLeft(grandparent, parent, c.up, Repainted(c, s));
      } else {
        ghost var kl := InLeft(k', b1.node, b1.red, b1.right);
        Paint(sibling.left, false, kl, b1.left);
        ZipUp(root, kl, Painted(b1.left, false));
        ZipUp(root, k', Wrap(kl, Painted(b1.left, false)));
        RotateRight(grandparent, parent, c.up, Repainted(c, s));
      }
    }

    /** rbtree_remove_fixup, black sibling with a red child: borrow a black node from it. */
    method RemoveBorrow(grandparent: Node?, parent: Node, sibling: Node, node: Node?, ghost c: Ctx, ghost s: Tree)
      returns (ghost s': Tree)
      requires Zip(root, c, s) && Deficit(c, s) && !IsRed(s) && !c.Top?
      requires Sibling(c).Bin? && !IsRed(Sibling(c))
      requires IsRed(Sibling(c).left) || IsRed(Sibling(c).right)
      requires node == RootOf(s) && parent == c.node && sibling == Sibling(c).node && grandparent == TopNode(c.up)
      modifies this`root, parent`left, parent`right, parent`red
      modifies Nodes(Sibling(c))`left, Nodes(Sibling(c))`right, Nodes(Sibling(c))`red
      modifies TopSet(c.up)`left, TopSet(c.up)`right
      ensures Zip(root, c.up, s') && Sound(c.up, s') && InOrder(Plug(c.up, s')) == InOrder(Plug(c, s))
    {
      hide Zip, Deficit, Path, InOrder, Nodes, Sound, Plug;
      ghost var k := WithSibling(c, OuterSibling(c));
      var sibling' := RemoveStraighten(parent, sibling, node, c, s);
      OuterSiblingDeficit(c, s);
      BorrowedWhole(c, s);
      BorrowedSound(k, s);
      RemoveRaise(grandparent, parent, sibling', node, k, s);
      s' := Borrowed(k, s);
    }

    /** rbtree_remove_fixup, black sibling: either the deficit is repaired or it moves one level up. */
    method BlackSibling(path: PathStack, grandparent: Node?, parent: Node, sibling: Node, node: Node?,
                        ghost c: Ctx, ghost s: Tree)
      returns (done: bool, ghost c': Ctx, ghost s': Tree)
      requires Zip(root, c, s) && Deficit(c, s) && !IsRed(s) && !c.Top? && path.Holds(Path(c) + [node])
      requires node == RootOf(s) && parent == c.node && grandparent == TopNode(c.up)
      requires Sibling(c).Bin? && !IsRed(Sibling(c)) && sibling == Sibling(c).node
      modifies this`root, path`n, parent`left, parent`right, parent`red
      modifies Nodes(Sibling(c))`left, Nodes(Sibling(c))`right, Nodes(Sibling(c))`red
      modifies TopSet(c.up)`left, TopSet(c.up)`right
      ensures Zip(root, c', s') && InOrder(Plug(c', s')) == InOrder(Plug(c, s))
      ensures done ==> Sound(c', s')
      ensures !done ==> Deficit(c', s') && Rounds(c', s') < Rounds(c, s) && path.Holds(Path(c') + [RootOf(s')])
      ensures !done ==> CtxNodes(c') + Nodes(s') == CtxNodes(c) + Nodes(s)
      ensures !done && c.red ==> IsRed(s')
    {
      hide Zip, Balanced, Fits, InOrder, Nodes, CtxNodes, Plug, Path, Owns, Disjoint, BlackHeight, Sound;
      hide Deficit, Rounds, Lightened;
      SiblingShape(root, c, s);
      RootNode(Sibling(c));
      c' := c.up;
      done := (sibling.left != null && sibling.left.red) || (sibling.right != null && sibling.right.red);
      if done {
        s' := RemoveBorrow(grandparent, parent, sibling, node, c, s);
      } else {
        RemoveRecolor(path, sibling, c, s);
        s' := Lightened(c, s);
      }
    }

    /** rbtree_remove_fixup; `turns` counts the rounds with a red sibling, which lengthen the path. */
    method RemoveFixup(path: PathStack, ghost c0: Ctx, ghost s0: Tree, ghost footprint: set<Node>)
      returns (ghost t': Tree, ghost turns: nat)
      requires Zip(root, c0, s0) && footprint == CtxNodes(c0) + Nodes(s0)
      requires Deficit(c0, s0) && path.Holds(Path(c0) + [RootOf(s0)])
      modifies this`root, path`n, path.stack, footprint`left, footprint`right, footprint`red
      ensures root == RootOf(t') && Owns(t') && Disjoint(t') && RedBlack(t')
      ensures InOrder(t') == InOrder(Plug(c0, s0)) && turns <= 1
    {
      hide Zip, Balanced, Fits, InOrder, Nodes, CtxNodes, Plug, Path, Owns, Disjoint, BlackHeight, Sound;
      hide Deficit, Rounds, Rehung, RedBlack, Lightened, Flip;
      ghost var c, s := c0, s0;
      turns := 0;
      while true
        invariant Zip(root, c, s) && footprint == CtxNodes(c) + Nodes(s)
        invariant Deficit(c, s) && InOrder(Plug(c, s)) == InOrder(Plug(c0, s0))
        invariant path.Holds(Path(c) + [RootOf(s)]) && turns <= 1 && (turns == 1 ==> Turned(c, s))
        decreases Rounds(c, s)
      {
        PathEnds(c, RootOf(s));
        NodeIn(c, s);
        ZipShape(root, c, s);
        var node := path.stack[path.n - 1];
        if node != null && node.red {
          Paint(node, false, c, s);
          DeficitRed(c, s);
          s := Painted(s, false);
          break;
        }
        if path.n <= 1 {
          DeficitTop(s);
          break;
        }
        var parent := path.stack[path.n - 2];
        DeficitSibling(c, s);
        WhichSide(root, c, s);
        var sibling := if node == parent.left then parent.right else parent.left;
        var grandparent := if path.n > 2 then path.stack[path.n - 3] else null;
        if sibling.red {
          RedSibling(path, grandparent, parent, sibling, node, c, s);
          c, turns := Rehung(c), turns + 1;
          continue;
        }
        var done;
        done, c, s := BlackSibling(path, grandparent, parent, sibling, node, c, s);
        if done {
          break;
        }
      }
      WholeTree(root, c, s);
      t' := Plug(c, s);
    }

    /** rbtree_remove, the work common to both exchanges: the successor takes the node's left child, its
        place under its parent and its colour. */
    method TakePlace(successor: Node, node: Node, parent: Node?, ghost e: Exchange, ghost mid: Node?)
      requires successor == e.y && node == e.x && parent == TopNode(e.c)
      requires CtxOwns(e.c, root, node) && CtxOwns(e.d, mid, node) && Apart(AfterCtx(e), AfterTree(e))
      requires CtxNodes(AfterCtx(e)) == CtxNodes(e.d) + {e.y} + Nodes(e.l) + CtxNodes(e.c)
      requires Scattered(e) && CtxDisjoint(e.c)
      requires node.left == RootOf(e.l) && node.right == RootOf(e.r) && Owns(e.l) && Owns(e.r)
      requires successor.right == mid && node.red == e.redX && successor.red == e.redY
      modifies this`root, {node, successor}`left, {node, successor}`red, TopSet(e.c)`left, TopSet(e.c)`right
      ensures Zip(root, AfterCtx(e), AfterTree(e))
    {
      hide InOrder, Plug, Disjoint, BeforeExchange, Apart, Owns, CtxOwns, Scattered, CtxDisjoint, Nodes, CtxNodes;
      TakenApart(e);
      DirectParts(e);
      successor.left := node.left;
      node.left := null;
      assert CtxOwns(e.c, root, node) && Owns(e.l) && Owns(e.r) && CtxOwns(e.d, mid, node);
      TakeLink(successor, node, parent, e, mid);
      ghost var footprint := Nodes(e.l) + Nodes(e.r) + CtxNodes(e.d) + CtxNodes(e.c);
      if successor.red != node.red {
        successor.red := !successor.red;
        node.red := !node.red;
      }
      ExchangeDone(root, e, mid);
    }

    /** rbtree_remove: the pointer that led to the node leads to its successor. */
    method TakeLink(successor: Node, node: Node, parent: Node?, ghost e: Exchange, ghost mid: Node?)
      requires successor == e.y && node == e.x && parent == TopNode(e.c)
      requires CtxOwns(e.c, root, node) && Owns(e.l) && Owns(e.r) && CtxOwns(e.d, mid, node)
      requires Scattered(e) && CtxDisjoint(e.c)
      modifies this`root, TopSet(e.c)`left, TopSet(e.c)`right
      ensures CtxOwns(e.c, root, successor) && Owns(e.l) && Owns(e.r) && CtxOwns(e.d, mid, node)
    {
      hide Owns, CtxOwns, Scattered, CtxDisjoint, Nodes, CtxNodes;
      TakenApart(e);
      CtxParts(e.c, root, node);
      if parent != null {
        if node == parent.left {
          parent.left := successor;
        } else {
          parent.right := successor;
        }
      } else {
        root := successor;
      }
      CtxParts(e.c, root, successor);
    }

    /** rbtree_remove, the successor lies deeper than the right child: it and the node swap right children,
        and the successor's parent takes the node. */
    method SwapDeep(successor: Node, succParent: Node, node: Node, parent: Node?, ghost e: Exchange)
      requires Zip(root, e.c, BeforeExchange(e)) && successor == e.y && node == e.x && parent == TopNode(e.c)
      requires e.d.InLeft? && succParent == e.d.node
      requires Zip(node.right, e.d, Bin(Leaf, e.y, e.redY, e.r))
      modifies this`root, {node, successor}`left, {node, successor}`right, {node, successor}`red
      modifies {succParent}`left, {succParent}`right, TopSet(e.c)`left, TopSet(e.c)`right
      ensures Zip(root, AfterCtx(e), AfterTree(e))
    {
      hide InOrder, Plug, Disjoint, BeforeExchange, CtxOwns, Owns, Scattered, Nodes, CtxNodes, CtxDisjoint, Apart, Zip;
      ExchangeParts(root, e);
      ExchangeApart(e);
      DeepParts(e, node.right);
      CtxParts(e.d, node.right, successor);
      ghost var mid := e.x.right;
      var tmp := successor.right;
      successor.right := node.right;
      node.right := tmp;
      if successor == succParent.left {
        succParent.left := node;
      } else {
        // The C branch that would set the right child here can never run.
        assert false;
      }
      assert Owns(Sibling(e.d)) && CtxOwns(e.d.up, mid, e.d.node);
      CtxParts(e.d, mid, node);
      TakePlace(successor, node, parent, e, mid);
    }

    /** rbtree_remove, the right child is itself the successor. */
    method SwapDirect(successor: Node, node: Node, parent: Node?, ghost e: Exchange)
      requires Zip(root, e.c, BeforeExchange(e)) && successor == e.y && node == e.x && parent == TopNode(e.c)
      requires e.d.Top?
      modifies this`root, {node, successor}`left, {node, successor}`right, {node, successor}`red
      modifies TopSet(e.c)`left, TopSet(e.c)`right
      ensures Zip(root, AfterCtx(e), AfterTree(e))
    {
      hide InOrder, Plug, Disjoint, BeforeExchange, CtxOwns, Owns, Scattered, Nodes, CtxNodes, CtxDisjoint, Apart, Zip;
      ExchangeParts(root, e);
      ExchangeApart(e);
      DirectParts(e);
      CtxParts(e.d, node, node);
      node.right := successor.right;
      successor.right := node;
      TakePlace(successor, node, parent, e, node);
    }

    /** rbtree_remove, the successor is the right child: the path after the exchange. */
    method PathDirect(path: PathStack, node: Node, ghost c: Ctx, ghost s: Tree)
      returns (successor: Node, parent: Node?, ghost e: Exchange)
      requires Zip(root, c, s) && Focus(t, c, s) && s.Bin? && node == s.node
      requires s.right.Bin? && s.right.left.Leaf? && path.Holds(Path(c) + [node])
      modifies path`n, path.stack
      ensures Zip(root, c, s) && BeforeExchange(e) == s && e.c == c && e.d == Top
      ensures successor == e.y && parent == TopNode(c) && path.Holds(Path(AfterCtx(e)) + [node])
    {
      hide Zip, Focus, InOrder, Path, AfterCtx, Compose, Owns, Disjoint, Sound, Nodes, CtxNodes;
      e := Exchange(c, s.left, s.node, s.red, Top, s.right.node, s.right.red, s.right.right);
      FocusHeight(t, c, s);
      ZipRight(root, c, s);
      PathEnds(c, node);
      ExchangePath(e);
      ghost var footprint, base := CtxNodes(c) + Nodes(s), Path(c);
      successor, parent := node.right, if path.n > 1 then path.stack[path.n - 2] else null;
      assert path.stack[..path.n - 1] == base;
      path.stack[path.n - 1] := successor;
      path.stack[path.n] := node;
      path.n := path.n + 1;
      assert path.stack[..path.n - 2] == base;
      assert path.stack[..path.n] == base + [successor, node];
    }

    /** rbtree_remove, the successor lies deeper: the path is extended down to it, and it takes the slot of
        the node while the node takes its. */
    method PathDeep(path: PathStack, node: Node, ghost c: Ctx, ghost s: Tree)
      returns (successor: Node, succParent: Node, parent: Node?, ghost e: Exchange)
      requires Zip(root, c, s) && Focus(t, c, s) && s.Bin? && node == s.node
      requires s.right.Bin? && s.right.left.Bin? && path.Holds(Path(c) + [node])
      modifies path`n, path.stack
      ensures Zip(root, c, s) && BeforeExchange(e) == s && e.c == c && Before(e.d) == []
      ensures e.d.InLeft? && Zip(node.right, e.d, Bin(Leaf, e.y, e.redY, e.r))
      ensures successor == e.y && succParent == e.d.node && parent == TopNode(c)
      ensures path.Holds(Path(AfterCtx(e)) + [node])
    {
      hide Zip, Focus, InOrder, Path, CtxNodes, Nodes, AfterCtx, Compose, Owns, Disjoint, Sound;
      FocusHeight(t, c, s);
      ZipRight(root, c, s);
      PathEnds(c, node);
      var nodeIndex := path.n - 1;
      assert allocated(CtxNodes(c)) && allocated(Nodes(s));
      ghost var d := LeftmostPath(node.right, path, Path(c) + [node], s.right);
      e := Exchange(c, s.left, s.node, s.red, d.up, d.node, d.red, d.right);
      assert BeforeExchange(e) == s;
      ZipUp(node.right, d, Leaf);
      successor, succParent, parent := TakeSlots(path, nodeIndex, c, s, e, d);
    }

    /** Node and successor trade the slots that they have on the extended path. */
    method TakeSlots(path: PathStack, nodeIndex: nat, ghost c: Ctx, ghost s: Tree, ghost e: Exchange, ghost d: Ctx)
      returns (successor: Node, succParent: Node, parent: Node?)
      requires Zip(root, c, s) && Zip(e.x.right, e.d, Bin(Leaf, e.y, e.redY, e.r)) && e.c == c
      requires d.InLeft? && d.up == e.d && d.node == e.y && e.d.InLeft?
      requires path.Holds(Path(c) + [e.x] + Path(d)) && nodeIndex == |Path(c)|
      modifies path.stack
      ensures Zip(root, c, s) && Zip(e.x.right, e.d, Bin(Leaf, e.y, e.redY, e.r))
      ensures successor == e.y && succParent == e.d.node && parent == TopNode(c)
      ensures path.Holds(Path(AfterCtx(e)) + [e.x])
    {
      hide Zip, Path, CtxNodes, Nodes, AfterCtx;
      PathSwap(path.stack[..path.n], e, d);
      successor, succParent := path.stack[path.n - 1], path.stack[path.n - 2];
      parent := if nodeIndex > 0 then path.stack[nodeIndex - 1] else null;
      ghost var footprint := CtxNodes(c) + Nodes(s) + CtxNodes(e.d) + Nodes(Bin(Leaf, e.y, e.redY, e.r));
      path.stack[nodeIndex], path.stack[path.n - 1] := successor, path.stack[nodeIndex];
    }

    /** rbtree_remove, middle part: a node with two children trades places with its successor, so that
        afterwards it has at most one child. */
    method Sink(path: PathStack, node: Node, ghost c: Ctx, ghost s: Tree) returns (ghost c': Ctx, ghost s': Tree)
      requires Zip(root, c, s) && Focus(t, c, s) && s.Bin? && node == s.node && path.Holds(Path(c) + [node])
      modifies this`root, path`n, path.stack
      modifies (CtxNodes(c) + Nodes(s))`left, (CtxNodes(c) + Nodes(s))`right, (CtxNodes(c) + Nodes(s))`red
      ensures Zip(root, c', s') && s'.Bin? && s'.node == node && (s'.left.Leaf? || s'.right.Leaf?)
      ensures path.Holds(Path(c') + [node])
      ensures Sunk(c, s, c', s')
    {
      hide Zip, Focus, Path, Sunk, InOrder, Plug, Balanced, Fits;
      c', s' := c, s;
      ZipRight(root, c, s);
      ghost var e;
      if node.right != null {
        if node.right.left != null {
          var successor, succParent, parent;
          successor, succParent, parent, e := PathDeep(path, node, c, s);
          ExchangeNodes(root, e);
          SunkExchange(t, e);
          SwapDeep(successor, succParent, node, parent, e);
          c', s' := AfterCtx(e), AfterTree(e);
        } else if node.left != null {
          var successor, parent;
          successor, parent, e := PathDirect(path, node, c, s);
          ExchangeNodes(root, e);
          SunkExchange(t, e);
          SwapDirect(successor, node, parent, e);
          c', s' := AfterCtx(e), AfterTree(e);
        } else {
          SunkAlready(t, c, s);
        }
      } else {
        SunkAlready(t, c, s);
      }
    }

    /** rbtree_remove: the only child replaces the node, in the tree and on the path.  A black loss is left to
        be repaired. */
    method Splice(path: PathStack, node: Node, ghost c: Ctx, ghost s: Tree) returns (wasBlack: bool)
      requires Zip(root, c, s) && s.Bin? && node == s.node && (s.left.Leaf? || s.right.Leaf?)
      requires Sound(c, s) && Blacks(c) + BlackHeight(s) <= 63 && path.Holds(Path(c) + [node])
      modifies this`root, path.stack, TopSet(c)`left, TopSet(c)`right
      ensures Zip(root, c, OnlyChild(s)) && path.Holds(Path(c) + [RootOf(OnlyChild(s))])
      ensures wasBlack <==> !s.red
      ensures if wasBlack then Deficit(c, OnlyChild(s)) else Sound(c, OnlyChild(s))
      ensures Nodes(OnlyChild(s)) <= Nodes(s)
    {
      hide Zip, Path, InOrder, Plug, Balanced, Fits, Sound, Deficit, CtxOwns, Owns, Apart, Nodes, CtxNodes;
      ghost var child := OnlyChild(s);
      DropSound(c, s, child);
      OnlyChildParts(root, c, s);
      PathEnds(c, node);
      var singleChild := if node.left != null then node.left else node.right;
      wasBlack := !node.red;
      Relink(if path.n > 1 then path.stack[path.n - 2] else null, node, singleChild, c, child);
      ghost var footprint := CtxNodes(c) + Nodes(child);
      assert path.stack[..path.n - 1] == Path(c);
      path.stack[path.n - 1] := singleChild;
      assert path.stack[..path.n] == path.stack[..path.n - 1] + [singleChild];
    }

    /** rbtree_remove, last part: after the splice a black loss is repaired. */
    method Unlink(path: PathStack, node: Node, ghost c: Ctx, ghost s: Tree, ghost footprint: set<Node>)
      returns (ghost t': Tree)
      requires Zip(root, c, s) && s.Bin? && node == s.node && (s.left.Leaf? || s.right.Leaf?)
      requires Sound(c, s) && Blacks(c) + BlackHeight(s) <= 63 && path.Holds(Path(c) + [node])
      requires footprint == CtxNodes(c) + Nodes(s)
      modifies this`root, path`n, path.stack, footprint`left, footprint`right, footprint`red
      ensures root == RootOf(t') && Owns(t') && Disjoint(t') && RedBlack(t')
      ensures InOrder(t') == InOrder(Plug(c, OnlyChild(s)))
    {
      hide Zip, Path, InOrder, Plug, Sound, Deficit, RedBlack, Owns, Disjoint, Nodes, CtxNodes;
      NodeIn(c, s);
      var wasBlack := Splice(path, node, c, s);
      if wasBlack {
        ghost var turns;
        t', turns := RemoveFixup(path, c, OnlyChild(s), CtxNodes(c) + Nodes(OnlyChild(s)));
      } else {
        WholeTree(root, c, OnlyChild(s));
        t' := Plug(c, OnlyChild(s));
      }
    }

    /** rbtree_remove. */
    method Remove(key: Key) returns (node: Node?)
      requires TotalOrder(cmp) && Valid() && FitsMemory(t)
      modifies this`root, this`t, Nodes(t)`left, Nodes(t)`right, Nodes(t)`red
      ensures Valid()
      ensures node == null <==> !Has(cmp, old(Nodes(t)), key)
      ensures node == null ==> t == old(t)
      ensures node != null ==> node in old(Nodes(t)) && cmp(key, node.key) == 0
      ensures node != null ==> Nodes(t) == old(Nodes(t)) - {node} && Loses(old(InOrder(t)), node, InOrder(t))
    {
      hide Zip, Path, InOrder, Plug, Balanced, Fits, Brackets, Before, After, Sorted, Sunk, CtxNodes, Nodes, Loses;
      hide Owns, Disjoint, RedBlack, BlackHeight, Blacks, Has, FitsMemory, TotalOrder;
      var path, res, c, s := FindPath(key);
      FocusOrder(t, c, s);
      LookupDecides(cmp, key, t, c, s);
      PathEnds(c, null);
      if path.n == 0 || res != 0 {
        return null;
      }
      PathEnds(c, s.node);
      node := path.stack[path.n - 1];
      PlugNodes(c, s);
      ghost var c', s' := Sink(path, node, c, s);
      SunkParts(c, s, c', s');
      ghost var t' := Unlink(path, node, c', s', CtxNodes(c') + Nodes(s'));
      RemovedOrder(cmp, node, t, t');
      t := t';
    }
  }

  lemma RootNode(s: Tree)
    ensures s.Bin? ==> s.node in Nodes(s)
  {
  }

  /** The end of a repair: the whole heap is a red-black tree. */
  lemma WholeTree(root: Node?, c: Ctx, s: Tree)
    requires Zip(root, c, s) && Sound(c, s)
    ensures root == RootOf(Plug(c, s)) && Owns(Plug(c, s)) && Disjoint(Plug(c, s)) && RedBlack(Plug(c, s))
  {
    hide Zip, Sound, RedBlack, Plug;
    PlugRedBlack(c, s);
    PlugOwns(root, c, s);
  }

  /** What the exchange leaves alone shares no node with what it rewrites. */
  lemma TakenApart(e: Exchange)
    requires Scattered(e) && CtxDisjoint(e.c)
    ensures e.x != e.y && e.x !in TopSet(e.c) && e.y !in TopSet(e.c)
    ensures ({e.x, e.y} + TopSet(e.c)) !! (Nodes(e.l) + Nodes(e.r) + CtxNodes(e.d))
    ensures !e.c.Top? ==> ({e.x, e.y} + TopSet(e.c)) !! (Nodes(Sibling(e.c)) + CtxNodes(e.c.up))
    ensures !e.c.Top? ==> RootOf(Sibling(e.c)) != e.x
  {
  }

  lemma DirectParts(e: Exchange)
    requires Scattered(e)
    ensures {e.x, e.y} !! (Nodes(e.l) + Nodes(e.r) + CtxNodes(e.c)) && e.x != e.y
  {
  }

  lemma DeepParts(e: Exchange, mid: Node?)
    requires Scattered(e) && Zip(mid, e.d, Bin(Leaf, e.y, e.redY, e.r)) && e.d.InLeft?
    ensures CtxOwns(e.d, mid, e.y) && Owns(e.r) && e.y.right == RootOf(e.r) && e.y.red == e.redY
    ensures {e.x, e.y, e.d.node} !! (Nodes(Sibling(e.d)) + CtxNodes(e.d.up))
    ensures {e.x, e.y, e.d.node} !! (Nodes(e.l) + Nodes(e.r) + CtxNodes(e.c))
    ensures e.x != e.y && e.d.node !in {e.x, e.y}
  {
  }

  lemma ExchangeNodes(root: Node?, e: Exchange)
    requires Zip(root, e.c, BeforeExchange(e))
    ensures Apart(e.c, BeforeExchange(e)) && {e.x, e.y} <= Nodes(BeforeExchange(e))
    ensures TopSet(e.c) <= CtxNodes(e.c)
    ensures TopSet(e.d) <= Nodes(BeforeExchange(e))
  {
    PlugNodes(e.d, Bin(Leaf, e.y, e.redY, e.r));
  }

  lemma OnlyChildParts(root: Node?, c: Ctx, s: Tree)
    requires Zip(root, c, s) && s.Bin? && (s.left.Leaf? || s.right.Leaf?)
    ensures s.node.left == RootOf(s.left) && s.node.right == RootOf(s.right) && s.node.red == s.red
    ensures CtxOwns(c, root, s.node) && s.node !in CtxNodes(c)
    ensures Owns(OnlyChild(s)) && Apart(c, OnlyChild(s))
    ensures Nodes(OnlyChild(s)) <= Nodes(s) && TopSet(c) <= CtxNodes(c)
  {
  }

  lemma ZipRight(root: Node?, c: Ctx, s: Tree)
    requires Zip(root, c, s) && s.Bin?
    ensures Apart(c, s)
    ensures Zip(s.node.right, Top, s.right) && s.node.right == RootOf(s.right) && s.node.left == RootOf(s.left)
    ensures s.right.Bin? ==> s.right.node.left == RootOf(s.right.left)
  {
    assert Owns(s.right);
  }

  lemma ExchangeParts(root: Node?, e: Exchange)
    requires Zip(root, e.c, BeforeExchange(e))
    ensures CtxOwns(e.c, root, e.x) && CtxDisjoint(e.c) && Apart(e.c, BeforeExchange(e))
    ensures Owns(e.l) && e.x.left == RootOf(e.l) && e.x.red == e.redX
    ensures e.d.Top? ==> Owns(e.r) && e.y.right == RootOf(e.r) && e.y.red == e.redY && e.x.right == e.y
    ensures Nodes(e.r) <= Nodes(Plug(e.d, Bin(Leaf, e.y, e.redY, e.r)))
  {
    var s := Bin(Leaf, e.y, e.redY, e.r);
    PlugNodes(e.d, s);
    if e.d.Top? {
      assert Plug(e.d, s) == s && Owns(s);
    }
  }

  lemma ExchangeDone(root: Node?, e: Exchange, mid: Node?)
    requires Apart(AfterCtx(e), AfterTree(e)) && CtxOwns(e.c, root, e.y) && CtxOwns(e.d, mid, e.x)
    requires CtxNodes(AfterCtx(e)) == CtxNodes(e.d) + {e.y} + Nodes(e.l) + CtxNodes(e.c)
    requires Owns(e.l) && e.y.left == RootOf(e.l) && e.y.right == mid && e.y.red == e.redX
    requires Owns(e.r) && e.x.left == null && e.x.right == RootOf(e.r) && e.x.red == e.redY
    ensures Zip(root, AfterCtx(e), AfterTree(e))
  {
    hide Apart, CtxOwns, Compose, Nodes, CtxNodes;
    var k := InRight(e.c, e.l, e.y, e.redX);
    CtxParts(k, root, mid);
    ComposeOwns(e.d, k, root, mid, e.x);
    assert CtxOwns(AfterCtx(e), root, RootOf(AfterTree(e)));
    assert Owns(AfterTree(e));
    assert Apart(AfterCtx(e), AfterTree(e));
  }
}
