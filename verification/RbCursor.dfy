/** Lookups, cursors and tear-down of data/rbtree.c: the operations that do not rebalance. */
module RbCursor {
  import opened Keys
  import opened Powers
  import opened RbModel
  import opened RbHeap

  /** The only cursor contents that denote position i of the in-order sequence of t. */
  ghost function Trail(t: Tree, i: nat): (p: seq<Node?>)
    requires i < |InOrder(t)|
    ensures |p| > 0
  {
    var k := |InOrder(t.left)|;
    if i < k then [t.node] + Trail(t.left, i)
    else if i == k then [t.node]
    else [t.node] + Trail(t.right, i - k - 1)
  }

  lemma {:induction false} TrailPlug(c: Ctx, s: Tree, j: nat)
    requires j < |InOrder(s)|
    ensures |Before(c)| + j < |InOrder(Plug(c, s))|
    ensures Trail(Plug(c, s), |Before(c)| + j) == Path(c) + Trail(s, j)
  {
    PlugOrder(c, s);
    if !c.Top? {
      var w, k := Wrap(c, s), if c.InLeft? then j else |InOrder(c.left)| + 1 + j;
      assert Trail(w, k) == [c.node] + Trail(s, j);
      TrailPlug(c.up, w, k);
    }
  }

  /** The trail that ends at the root of a focus. */
  lemma TrailFocus(c: Ctx, s: Tree)
    requires s.Bin?
    ensures
      var t, i := Plug(c, s), |Before(c)| + |InOrder(s.left)|;
      i < |InOrder(t)| && Trail(t, i) == Path(c) + [s.node] && InOrder(t)[i] == s.node
  {
    hide Plug, Before, After, Path;
    TrailPlug(c, s, |InOrder(s.left)|);
    PlugIndex(c, s);
  }

  lemma PlugIndex(c: Ctx, s: Tree)
    requires s.Bin?
    ensures
      var t, i := Plug(c, s), |Before(c)| + |InOrder(s.left)|;
      i < |InOrder(t)| && InOrder(t)[i] == s.node
  {
    hide Plug, Before, After, InOrder;
    PlugSplit(Plug(c, s), c, s);
  }

  /** Every position is the root of some focus. */
  lemma {:induction false} Locate(t: Tree, c0: Ctx, s0: Tree, j: nat) returns (c: Ctx, s: Tree)
    requires Focus(t, c0, s0) && j < |InOrder(s0)|
    ensures Focus(t, c, s) && s.Bin? && |Before(c0)| + j == |Before(c)| + |InOrder(s.left)|
    decreases s0
  {
    FocusDown(t, c0, s0);
    var k := |InOrder(s0.left)|;
    if j < k {
      c, s := Locate(t, InLeft(c0, s0.node, s0.red, s0.right), s0.left, j);
    } else if j == k {
      c, s := c0, s0;
    } else {
      c, s := Locate(t, InRight(c0, s0.left, s0.node, s0.red), s0.right, j - k - 1);
    }
  }

  /** A cursor denotes at most one position. */
  lemma {:induction false} TrailInjective(t: Tree, i: nat, j: nat)
    requires Disjoint(t) && i < |InOrder(t)| && j < |InOrder(t)| && Trail(t, i) == Trail(t, j)
    ensures i == j
  {
    var k := |InOrder(t.left)|;
    if i == k || j == k {
      assert |Trail(t, i)| == 1 && |Trail(t, j)| == 1;
    } else {
      TrailTop(t, i);
      TrailTop(t, j);
      assert Trail(t, i)[1..] == Trail(t, j)[1..];
      if i < k && j < k {
        TrailInjective(t.left, i, j);
      } else if i > k && j > k {
        TrailInjective(t.right, i - k - 1, j - k - 1);
      }
    }
  }

  lemma TrailTop(t: Tree, i: nat)
    requires i < |InOrder(t)| && i != |InOrder(t.left)|
    ensures |Trail(t, i)| > 1
    ensures Trail(t, i)[1] == if i < |InOrder(t.left)| then RootOf(t.left) else RootOf(t.right)
    ensures Trail(t, i)[1] in Nodes(if i < |InOrder(t.left)| then t.left else t.right)
  {
  }

  ghost predicate At(tree: RbTree, cur: PathStack, i: nat)
    reads tree, cur, cur.stack
  {
    i < |InOrder(tree.t)| && cur.Holds(Trail(tree.t, i))
  }

  /** rbtree_lookup. */
  method Lookup(tree: RbTree, key: Key) returns (node: Node?)
    requires TotalOrder(tree.cmp) && tree.Valid()
    ensures node == null <==> !Has(tree.cmp, Nodes(tree.t), key)
    ensures node != null ==> node in Nodes(tree.t) && tree.cmp(key, node.key) == 0
  {
    hide Zip, Sorted, Brackets, InOrder, Has;
    node := tree.root;
    ghost var c, s := Top, tree.t;
    ZipRoot(tree.root, tree.t);
    BracketsTop(tree.cmp, key);
    while node != null
      invariant Zip(tree.root, c, s) && node == RootOf(s) && Plug(c, s) == tree.t
      invariant Brackets(tree.cmp, key, c)
      decreases s
    {
      var res := tree.cmp(key, node.key);
      ZipDown(tree.root, c, s);
      PlugSplit(tree.t, c, s);
      LookupStep(tree.cmp, key, tree.t, c, s);
      if res < 0 {
        node := node.left;
        c, s := InLeft(c, s.node, s.red, s.right), s.left;
      } else if res > 0 {
        node := node.right;
        c, s := InRight(c, s.left, s.node, s.red), s.right;
      } else {
        break;
      }
    }
    PlugOrder(c, s);
    LookupDecides(tree.cmp, key, tree.t, c, s);
  }

  /** rbtree_lookup_ex: the cursor lands on the node found, or is reset. */
  method LookupEx(tree: RbTree, key: Key, cur: PathStack) returns (node: Node?, ghost i: nat)
    requires TotalOrder(tree.cmp) && tree.Valid() && FitsMemory(tree.t) && cur.stack.Length == PATH_SLOTS
    modifies cur`n, cur.stack
    ensures node == null <==> !Has(tree.cmp, Nodes(tree.t), key)
    ensures node == null ==> cur.Holds([])
    ensures node != null ==> At(tree, cur, i) && node == InOrder(tree.t)[i] && tree.cmp(key, node.key) == 0
  {
    hide Zip, Focus, Path, Sorted, Plug, InOrder, Balanced, Has, Trail, Owns, Disjoint;
    hide FitsMemory, Pow2, RedBlack, Brackets, TotalOrder, Before, After;
    assert allocated(Nodes(tree.t));
    i := 0;
    cur.n := 0;
    var res, c, s := tree.LookupPath(key, cur);
    FocusOrder(tree.t, c, s);
    LookupDecides(tree.cmp, key, tree.t, c, s);
    PathEnds(c, null);
    if cur.n == 0 || res != 0 {
      cur.n := 0;
      return null, 0;
    }
    FocusTrail(tree.t, c, s);
    PathEnds(c, s.node);
    i := |Before(c)| + |InOrder(s.left)|;
    node := cur.stack[cur.n - 1];
  }

  /** rbtree_current. */
  method Current(tree: RbTree, cur: PathStack, ghost i: nat) returns (node: Node?)
    requires At(tree, cur, i) || cur.Holds([])
    ensures cur.Holds([]) ==> node == null
    ensures At(tree, cur, i) ==> node == InOrder(tree.t)[i]
  {
    if At(tree, cur, i) {
      TrailEnd(tree.t, i);
    }
    node := if cur.n > 0 then cur.stack[cur.n - 1] else null;
  }

  lemma {:induction false} TrailEnd(t: Tree, i: nat)
    requires i < |InOrder(t)|
    ensures var p := Trail(t, i); p[|p| - 1] == InOrder(t)[i]
  {
    var k := |InOrder(t.left)|;
    if i < k {
      TrailEnd(t.left, i);
    } else if i > k {
      TrailEnd(t.right, i - k - 1);
    }
  }

  lemma FocusTrail(t: Tree, c: Ctx, s: Tree)
    requires Focus(t, c, s) && s.Bin?
    ensures
      var i := |Before(c)| + |InOrder(s.left)|;
      i < |InOrder(t)| && Trail(t, i) == Path(c) + [s.node] && InOrder(t)[i] == s.node
  {
    hide Balanced, Fits;
    TrailFocus(c, s);
  }

  lemma HeadTrail(t: Tree, d: Ctx)
    requires Plug(d, Leaf) == t && Before(d) == []
    ensures d.Top? <==> t == Leaf
    ensures !d.Top? ==> |InOrder(t)| > 0 && [] + Path(d) == Trail(t, 0) && d.node == InOrder(t)[0]
  {
    if !d.Top? {
      assert d.InLeft?;
      TrailFocus(d.up, Wrap(d, Leaf));
      PlugBin(d.up, Wrap(d, Leaf));
    }
  }

  lemma TailTrail(t: Tree, d: Ctx)
    requires Plug(d, Leaf) == t && After(d) == []
    ensures d.Top? <==> t == Leaf
    ensures !d.Top? ==>
              var i := |InOrder(t)| - 1;
              i >= 0 && [] + Path(d) == Trail(t, i) && d.node == InOrder(t)[i]
  {
    hide InOrder, Before, After, Trail, Path;
    if !d.Top? {
      LastPlace(d);
      TrailFocus(d.up, Wrap(d, Leaf));
      PlugBin(d.up, Wrap(d, Leaf));
      LastTrail(d);
    }
  }

  lemma LastPlace(d: Ctx)
    requires !d.Top? && After(d) == []
    ensures d.InRight? && |InOrder(Plug(d, Leaf))| == |Before(d.up)| + |InOrder(d.left)| + 1
  {
    hide Plug;
    assert Plug(d, Leaf) == Plug(d.up, Wrap(d, Leaf)) by {
      PlugUp(d, Leaf);
    }
    PlugOrder(d.up, Wrap(d, Leaf));
  }

  lemma LastTrail(d: Ctx)
    requires d.InRight?
    ensures [] + Path(d) == Path(d.up) + [d.node]
  {
  }

  lemma {:induction false} PlugBin(c: Ctx, s: Tree)
    requires s.Bin?
    ensures Plug(c, s).Bin?
  {
    if !c.Top? {
      PlugBin(c.up, Wrap(c, s));
    }
  }

  /** rbtree_head.  On an empty tree the cursor is reset: it stays unchanged only if it was empty already. */
  method Head(tree: RbTree, cur: PathStack) returns (node: Node?)
    requires tree.Valid() && FitsMemory(tree.t) && cur.stack.Length == PATH_SLOTS
    modifies cur`n, cur.stack
    ensures tree.Valid()
    ensures node == null <==> tree.t == Leaf
    ensures if node == null then cur.Holds([]) else At(tree, cur, 0) && node == InOrder(tree.t)[0]
    ensures node == null ==> cur.stack[..] == old(cur.stack[..]) && (cur.n == old(cur.n) <==> old(cur.n) == 0)
  {
    hide Zip, Focus, Path, Sorted, Plug, Balanced, Trail, Owns, Disjoint, FitsMemory, Pow2;
    assert allocated(Nodes(tree.t));
    ZipRoot(tree.root, tree.t);
    FocusRoot(tree.t);
    FocusHeight(tree.t, Top, tree.t);
    PathTail(Top);
    ghost var footprint := CtxNodes(Top) + Nodes(tree.t);
    cur.n := 0;
    ghost var d := LeftmostPath(tree.root, cur, [], tree.t);
    HeadTrail(tree.t, d);
    PathTail(d);
    node := if cur.n > 0 then cur.stack[cur.n - 1] else null;
  }

  /** rbtree_tail.  On an empty tree the cursor is reset, as by rbtree_head. */
  method Tail(tree: RbTree, cur: PathStack) returns (node: Node?)
    requires tree.Valid() && FitsMemory(tree.t) && cur.stack.Length == PATH_SLOTS
    modifies cur`n, cur.stack
    ensures tree.Valid()
    ensures node == null <==> tree.t == Leaf
    ensures if node == null then cur.Holds([])
            else var i := |InOrder(tree.t)| - 1; At(tree, cur, i) && node == InOrder(tree.t)[i]
    ensures node == null ==> cur.stack[..] == old(cur.stack[..]) && (cur.n == old(cur.n) <==> old(cur.n) == 0)
  {
    hide Zip, Focus, Path, Sorted, Plug, Balanced, Trail, Owns, Disjoint, FitsMemory, Pow2;
    assert allocated(Nodes(tree.t));
    ZipRoot(tree.root, tree.t);
    FocusRoot(tree.t);
    FocusHeight(tree.t, Top, tree.t);
    PathTail(Top);
    ghost var footprint := CtxNodes(Top) + Nodes(tree.t);
    cur.n := 0;
    ghost var d := RightmostPath(tree.root, cur, [], tree.t);
    TailTrail(tree.t, d);
    PathTail(d);
    node := if cur.n > 0 then cur.stack[cur.n - 1] else null;
  }

  /** The cursor holds position i, which is the focus (c, s). */
  ghost predicate CursorAt(tree: RbTree, cur: PathStack, c: Ctx, s: Tree, i: nat)
    reads tree, cur, cur.stack, CtxNodes(c), Nodes(s)
  {
    && Focus(tree.t, c, s) && s.Bin? && i == |Before(c)| + |InOrder(s.left)|
    && Zip(tree.root, c, s) && cur.Holds(Path(c) + [s.node])
  }

  lemma CursorFocus(tree: RbTree, cur: PathStack, i: nat) returns (c: Ctx, s: Tree)
    requires tree.Valid() && FitsMemory(tree.t) && At(tree, cur, i)
    ensures CursorAt(tree, cur, c, s, i)
    ensures cur.n > 0 && cur.stack[cur.n - 1] == s.node
    ensures s.node.left == RootOf(s.left) && s.node.right == RootOf(s.right)
  {
    hide Sorted, Balanced, Trail, InOrder;
    FocusRoot(tree.t);
    c, s := Locate(tree.t, Top, tree.t, i);
    FocusTrail(tree.t, c, s);
    PathEnds(c, s.node);
    PlugOwnsBack(tree.root, c, s);
    ZipRight(tree.root, c, s);
  }

  lemma {:induction false} PlugOwnsBack(root: Node?, c: Ctx, s: Tree)
    requires root == RootOf(Plug(c, s)) && Owns(Plug(c, s)) && Disjoint(Plug(c, s))
    ensures Zip(root, c, s)
  {
    PlugNodes(c, s);
    if !c.Top? {
      PlugOwnsBack(root, c.up, Wrap(c, s));
      ZipUp(root, c, s);
    }
  }

  /** The subtrees below a focus are linked trees of their own. */
  lemma ZipAside(root: Node?, c: Ctx, s: Tree)
    requires Zip(root, c, s) && s.Bin?
    ensures Zip(s.node.left, Top, s.left) && Zip(s.node.right, Top, s.right)
    ensures s.node.left == RootOf(s.left) && s.node.right == RootOf(s.right)
  {
  }

  /** Going down: the leftmost node of the right subtree holds the next position. */
  lemma NextDown(t: Tree, c: Ctx, s: Tree, d: Ctx, i: nat)
    requires Focus(t, c, s) && s.Bin? && s.right.Bin? && i == |Before(c)| + |InOrder(s.left)|
    requires !d.Top? && Plug(d, Leaf) == s.right && Before(d) == []
    ensures i + 1 < |InOrder(t)| && Trail(t, i + 1) == Path(c) + [s.node] + Path(d) && InOrder(t)[i + 1] == d.node
  {
    hide Balanced, Fits;
    var k := Compose(d.up, InRight(c, s.left, s.node, s.red));
    var w := Wrap(d, Leaf);
    ComposePlug(d.up, InRight(c, s.left, s.node, s.red), w);
    ComposePath(d.up, InRight(c, s.left, s.node, s.red));
    ComposeOrder(d.up, InRight(c, s.left, s.node, s.red));
    TrailFocus(k, w);
    PlugBin(d.up, w);
  }

  /** Going up: the first ancestor left of which, respectively right of which, the walk has been. */
  lemma NextUp(t: Tree, c: Ctx, s: Tree, i: nat)
    requires Plug(c, s) == t && i + 1 == |Before(c)| + |InOrder(s)| && !c.InRight?
    ensures c.Top? ==> !(i + 1 < |InOrder(t)|)
    ensures c.InLeft? ==> i + 1 < |InOrder(t)| && Trail(t, i + 1) == Path(c) && InOrder(t)[i + 1] == c.node
  {
    PlugOrder(c, s);
    if c.InLeft? {
      TrailFocus(c.up, Wrap(c, s));
    }
  }

  method NextStepDown(tree: RbTree, cur: PathStack, ghost c: Ctx, ghost s: Tree, ghost i: nat)
    requires tree.Valid() && CursorAt(tree, cur, c, s, i) && s.right.Bin?
    modifies cur`n, cur.stack
    ensures tree.Valid() && i + 1 < |InOrder(tree.t)| && At(tree, cur, i + 1)
  {
    hide Zip, Focus, Path, Sorted, Plug, Balanced, Trail, InOrder, Before, After, Owns, Disjoint;
    assert allocated(Nodes(tree.t));
    FocusHeight(tree.t, c, s);
    ZipAside(tree.root, c, s);
    ghost var d := LeftmostPath(cur.stack[cur.n - 1].right, cur, Path(c) + [s.node], s.right);
    NextDown(tree.t, c, s, d, i);
  }

  /** p is the path to the root of s, which is where c leaves off in the tree. */
  ghost predicate Climbs(tree: RbTree, p: seq<Node?>, c: Ctx, s: Tree)
    reads tree, CtxNodes(c), Nodes(s)
  {
    s.Bin? && p == Path(c) + [s.node] && Zip(tree.root, c, s) && Plug(c, s) == tree.t
  }

  /** What the last two entries of a path show, and the same path one entry shorter. */
  lemma ClimbView(tree: RbTree, cur: PathStack, n: nat, c: Ctx, s: Tree)
    requires 0 < n <= cur.stack.Length && Climbs(tree, cur.stack[..n], c, s)
    ensures cur.stack[..n - 1] == Path(c) && cur.stack[n - 1] == s.node
    ensures if n == 1 then c.Top?
            else && !c.Top? && cur.stack[n - 2] == c.node
                 && (c.InRight? <==> c.node.right == s.node) && (c.InLeft? <==> c.node.left == s.node)
                 && Climbs(tree, cur.stack[..n - 1], c.up, Wrap(c, s))
  {
    hide Zip, Plug;
    assert cur.stack[..n] == cur.stack[..n - 1] + [cur.stack[n - 1]];
    if !c.Top? {
      assert cur.stack[..n - 1] == cur.stack[..n - 2] + [cur.stack[n - 2]];
      WhichSide(tree.root, c, s);
      ZipUp(tree.root, c, s);
      PlugUp(c, s);
    }
  }

  lemma ClimbPlug(tree: RbTree, p: seq<Node?>, c: Ctx, s: Tree)
    requires Climbs(tree, p, c, s)
    ensures Plug(c, s) == tree.t && s.Bin?
  {
  }

  lemma ClimbStart(tree: RbTree, cur: PathStack, c: Ctx, s: Tree, i: nat)
    requires CursorAt(tree, cur, c, s, i)
    ensures 0 < cur.n <= cur.stack.Length && Climbs(tree, cur.stack[..cur.n], c, s)
  {
    hide Balanced, Fits, Zip, Path;
  }

  /** rbtree_next, no right child: the new path length, 0 at the end of the tree.  The cursor stays. */
  method NextClimb(tree: RbTree, cur: PathStack, ghost c0: Ctx, ghost s0: Tree, ghost i: nat) returns (n: nat)
    requires tree.Valid() && CursorAt(tree, cur, c0, s0, i) && s0.right.Leaf?
    ensures if i + 1 < |InOrder(tree.t)| then 0 < n <= cur.n && cur.stack[..n] == Trail(tree.t, i + 1) else n == 0
  {
    hide Zip, Focus, Sorted, Plug, Balanced, Trail, InOrder, Before, After, Owns, Disjoint, Path, Wrap, Climbs;
    n := cur.n;
    ghost var c, s := c0, s0;
    ClimbStart(tree, cur, c, s, i);
    ClimbView(tree, cur, n, c, s);
    NextEdge(c, s);
    while n > 1 && cur.stack[n - 1] == cur.stack[n - 2].right
      invariant 0 < n <= cur.n && Climbs(tree, cur.stack[..n], c, s)
      invariant n > 1 ==> cur.stack[n - 2] != null
      invariant i + 1 == |Before(c)| + |InOrder(s)|
      decreases n
    {
      ClimbView(tree, cur, n, c, s);
      NextEdgeUp(c, s);
      c, s := c.up, Wrap(c, s);
      n := n - 1;
      ClimbView(tree, cur, n, c, s);
    }
    ClimbView(tree, cur, n, c, s);
    ClimbPlug(tree, cur.stack[..n], c, s);
    NextUp(tree.t, c, s, i);
    n := n - 1;
  }

  method NextStepUp(tree: RbTree, cur: PathStack, ghost c: Ctx, ghost s: Tree, ghost i: nat) returns (moved: bool)
    requires tree.Valid() && CursorAt(tree, cur, c, s, i) && s.right.Leaf? && At(tree, cur, i)
    modifies cur`n
    ensures tree.Valid()
    ensures moved <==> i + 1 < |InOrder(tree.t)|
    ensures if moved then At(tree, cur, i + 1) else At(tree, cur, i)
  {
    hide Zip, Focus, Path, Sorted, Plug, Balanced, Trail, InOrder;
    assert allocated(Nodes(tree.t));
    var n := NextClimb(tree, cur, c, s, i);
    moved := n != 0;
    if moved {
      cur.n := n;
    }
  }

  lemma NextEdge(c: Ctx, s: Tree)
    requires s.Bin? && s.right.Leaf?
    ensures var i := |Before(c)| + |InOrder(s.left)|; i + 1 == |Before(c)| + |InOrder(s)|
  {
  }

  lemma NextEdgeUp(c: Ctx, s: Tree)
    requires c.InRight?
    ensures |Before(c)| + |InOrder(s)| == |Before(c.up)| + |InOrder(Wrap(c, s))|
  {
  }

  /** rbtree_next. */
  method Next(tree: RbTree, cur: PathStack, ghost i: nat) returns (node: Node?)
    requires tree.Valid() && FitsMemory(tree.t) && (cur.Holds([]) || At(tree, cur, i))
    modifies cur`n, cur.stack
    ensures tree.Valid()
    ensures old(cur.Holds([])) ==> node == null && cur.Holds([])
    ensures old(At(tree, cur, i)) ==>
              if i + 1 < |InOrder(tree.t)| then At(tree, cur, i + 1) && node == InOrder(tree.t)[i + 1]
              else node == null && At(tree, cur, i)
  {
    hide Zip, Focus, Path, Sorted, Plug, Balanced, Trail, InOrder, Before, After, Owns, Disjoint;
    if cur.n > 0 {
      ghost var c, s := CursorFocus(tree, cur, i);
      if cur.stack[cur.n - 1].right != null {
        NextStepDown(tree, cur, c, s, i);
      } else {
        var moved := NextStepUp(tree, cur, c, s, i);
        if !moved {
          return null;
        }
      }
      TrailEnd(tree.t, i + 1);
    }
    node := if cur.n > 0 then cur.stack[cur.n - 1] else null;
  }

  /** Going down: the rightmost node of the left subtree holds the prev position. */
  lemma PrevDown(t: Tree, c: Ctx, s: Tree, d: Ctx, i: nat)
    requires Focus(t, c, s) && s.Bin? && s.left.Bin? && i == |Before(c)| + |InOrder(s.left)|
    requires !d.Top? && Plug(d, Leaf) == s.left && After(d) == []
    ensures 0 < i <= |InOrder(t)| && Trail(t, i - 1) == Path(c) + [s.node] + Path(d) && InOrder(t)[i - 1] == d.node
  {
    hide Balanced, Fits;
    var k := Compose(d.up, InLeft(c, s.node, s.red, s.right));
    var w := Wrap(d, Leaf);
    ComposePlug(d.up, InLeft(c, s.node, s.red, s.right), w);
    ComposePath(d.up, InLeft(c, s.node, s.red, s.right));
    ComposeOrder(d.up, InLeft(c, s.node, s.red, s.right));
    TrailFocus(k, w);
    PlugBin(d.up, w);
    PlugOrder(d.up, w);
  }

  /** Going up: the first ancestor left of which, respectively right of which, the walk has been. */
  lemma PrevUp(t: Tree, c: Ctx, s: Tree, i: nat)
    requires Plug(c, s) == t && i == |Before(c)| && !c.InLeft?
    ensures c.Top? ==> !(0 < i <= |InOrder(t)|)
    ensures c.InRight? ==> 0 < i <= |InOrder(t)| && Trail(t, i - 1) == Path(c) && InOrder(t)[i - 1] == c.node
  {
    PlugOrder(c, s);
    if c.InRight? {
      TrailFocus(c.up, Wrap(c, s));
    }
  }

  method PrevStepDown(tree: RbTree, cur: PathStack, ghost c: Ctx, ghost s: Tree, ghost i: nat)
    requires tree.Valid() && CursorAt(tree, cur, c, s, i) && s.left.Bin?
    modifies cur`n, cur.stack
    ensures tree.Valid() && 0 < i <= |InOrder(tree.t)| && At(tree, cur, i - 1)
  {
    hide Zip, Focus, Path, Sorted, Plug, Balanced, Trail, InOrder, Before, After, Owns, Disjoint;
    assert allocated(Nodes(tree.t));
    FocusHeight(tree.t, c, s);
    ZipAside(tree.root, c, s);
    ghost var d := RightmostPath(cur.stack[cur.n - 1].left, cur, Path(c) + [s.node], s.left);
    PrevDown(tree.t, c, s, d, i);
  }

  /** rbtree_prev, no left child: the new path length, 0 at the end of the tree.  The cursor stays. */
  method PrevClimb(tree: RbTree, cur: PathStack, ghost c0: Ctx, ghost s0: Tree, ghost i: nat) returns (n: nat)
    requires tree.Valid() && CursorAt(tree, cur, c0, s0, i) && s0.left.Leaf? && i < |InOrder(tree.t)|
    ensures if 0 < i then 0 < n <= cur.n && cur.stack[..n] == Trail(tree.t, i - 1) else n == 0
  {
    hide Zip, Focus, Sorted, Plug, Balanced, Trail, InOrder, Before, After, Owns, Disjoint, Path, Wrap, Climbs;
    n := cur.n;
    ghost var c, s := c0, s0;
    ClimbStart(tree, cur, c, s, i);
    ClimbView(tree, cur, n, c, s);
    PrevEdge(c, s);
    while n > 1 && cur.stack[n - 1] == cur.stack[n - 2].left
      invariant 0 < n <= cur.n && Climbs(tree, cur.stack[..n], c, s)
      invariant n > 1 ==> cur.stack[n - 2] != null
      invariant i == |Before(c)|
      decreases n
    {
      ClimbView(tree, cur, n, c, s);
      PrevEdgeUp(c, s);
      c, s := c.up, Wrap(c, s);
      n := n - 1;
      ClimbView(tree, cur, n, c, s);
    }
    ClimbView(tree, cur, n, c, s);
    ClimbPlug(tree, cur.stack[..n], c, s);
    PrevUp(tree.t, c, s, i);
    n := n - 1;
  }

  method PrevStepUp(tree: RbTree, cur: PathStack, ghost c: Ctx, ghost s: Tree, ghost i: nat) returns (moved: bool)
    requires tree.Valid() && CursorAt(tree, cur, c, s, i) && s.left.Leaf? && At(tree, cur, i)
    modifies cur`n
    ensures tree.Valid()
    ensures moved <==> 0 < i
    ensures if moved then At(tree, cur, i - 1) else At(tree, cur, i)
  {
    hide Zip, Focus, Path, Sorted, Plug, Balanced, Trail, InOrder;
    assert allocated(Nodes(tree.t));
    var n := PrevClimb(tree, cur, c, s, i);
    moved := n != 0;
    if moved {
      cur.n := n;
    }
  }

  lemma PrevEdge(c: Ctx, s: Tree)
    requires s.Bin? && s.left.Leaf?
    ensures var i := |Before(c)| + |InOrder(s.left)|; i == |Before(c)|
  {
  }

  lemma PrevEdgeUp(c: Ctx, s: Tree)
    requires c.InLeft?
    ensures |Before(c)| == |Before(c.up)|
  {
  }

  /** rbtree_prev. */
  method Prev(tree: RbTree, cur: PathStack, ghost i: nat) returns (node: Node?)
    requires tree.Valid() && FitsMemory(tree.t) && (cur.Holds([]) || At(tree, cur, i))
    modifies cur`n, cur.stack
    ensures tree.Valid()
    ensures old(cur.Holds([])) ==> node == null && cur.Holds([])
    ensures old(At(tree, cur, i)) ==>
              if 0 < i then At(tree, cur, i - 1) && node == InOrder(tree.t)[i - 1]
              else node == null && At(tree, cur, i)
  {
    hide Zip, Focus, Path, Sorted, Plug, Balanced, Trail, InOrder, Before, After, Owns, Disjoint;
    if cur.n > 0 {
      ghost var c, s := CursorFocus(tree, cur, i);
      if cur.stack[cur.n - 1].left != null {
        PrevStepDown(tree, cur, c, s, i);
      } else {
        var moved := PrevStepUp(tree, cur, c, s, i);
        if !moved {
          return null;
        }
      }
      TrailEnd(tree.t, i - 1);
    }
    node := if cur.n > 0 then cur.stack[cur.n - 1] else null;
  }

  /** Walking back: rbtree_prev after rbtree_next restores the cursor, slot for slot. */
  method NextPrev(tree: RbTree, cur: PathStack, ghost i: nat) returns (a: Node?, b: Node?)
    requires tree.Valid() && FitsMemory(tree.t) && At(tree, cur, i) && i + 1 < |InOrder(tree.t)|
    modifies cur`n, cur.stack
    ensures cur.n == old(cur.n) && cur.stack[..cur.n] == old(cur.stack[..cur.n])
    ensures a == InOrder(tree.t)[i + 1] && b == InOrder(tree.t)[i]
  {
    hide Trail, InOrder;
    a := Next(tree, cur, i);
    b := Prev(tree, cur, i + 1);
  }

  /** The loop that the header prescribes for visiting every node. */
  method Walk(tree: RbTree, cur: PathStack) returns (visited: seq<Node>)
    requires tree.Valid() && FitsMemory(tree.t) && cur.stack.Length == PATH_SLOTS
    modifies cur`n, cur.stack
    ensures visited == InOrder(tree.t)
  {
    hide Trail, InOrder, Zip, Sorted;
    visited := [];
    var node := Head(tree, cur);
    EmptyOrder(tree.t);
    while node != null
      invariant tree.Valid() && |visited| <= |InOrder(tree.t)| && visited == InOrder(tree.t)[..|visited|]
      invariant if node == null then |visited| == |InOrder(tree.t)|
                else At(tree, cur, |visited|) && node == InOrder(tree.t)[|visited|]
      decreases |InOrder(tree.t)| - |visited|
    {
      visited := visited + [node];
      node := Next(tree, cur, |visited| - 1);
    }
  }

  lemma EmptyOrder(t: Tree)
    ensures t == Leaf <==> |InOrder(t)| == 0
  {
  }

  // ---------- tear-down ----------

  /** The context once the pointer down to the leftmost node was overwritten, colour bit included. */
  ghost function Blackened(c: Ctx): Ctx {
    if c.InLeft? then InLeft(c.up, c.node, false, c.right) else c
  }

  /** `*pointer_down_to_node = RIGHT(node)`: the whole word is overwritten, so the parent turns black. */
  method RipOut(tree: RbTree, parent: Node?, node: Node, ghost c: Ctx, ghost s: Tree)
    requires Zip(tree.root, c, s) && s.Bin? && node == s.node && s.left.Leaf?
    requires !c.InRight? && parent == TopNode(c)
    modifies tree`root, TopSet(c)`left, TopSet(c)`red
    ensures Zip(tree.root, Blackened(c), s.right)
  {
    assert Owns(s.right) && Disjoint(s.right);
    if parent == null {
      tree.root := node.right;
    } else {
      parent.left := node.right;
      parent.red := false;
    }
  }

  lemma BlackenedSides(c: Ctx)
    requires !c.InRight?
    ensures Before(Blackened(c)) == Before(c) && After(Blackened(c)) == After(c)
  {
  }

  lemma RippedOrder(c: Ctx, s: Tree)
    requires s.Bin? && s.left.Leaf? && Before(c) == [] && !c.InRight?
    ensures InOrder(Plug(c, s)) == [s.node] + InOrder(Plug(Blackened(c), s.right))
  {
    hide Plug, Before, After, Blackened, InOrder;
    BlackenedSides(c);
    PlugOrder(c, s);
    PlugOrder(Blackened(c), s.right);
    FirstOrder(s);
  }

  lemma FirstOrder(s: Tree)
    requires s.Bin? && s.left.Leaf?
    ensures InOrder(s) == [s.node] + InOrder(s.right)
  {
  }

  lemma RippedNodes(root: Node?, c: Ctx, s: Tree)
    requires s.Bin? && s.left.Leaf? && Zip(root, c, s)
    ensures s.node in Nodes(Plug(c, s)) && s.node !in Nodes(Plug(Blackened(c), s.right))
    ensures Nodes(Plug(Blackened(c), s.right)) <= Nodes(Plug(c, s))
  {
    PlugNodes(c, s);
    PlugNodes(Blackened(c), s.right);
  }

  /** rbtree_fini_step: needs and keeps only the links, not the colours. */
  method FiniStep(tree: RbTree) returns (node: Node?)
    requires tree.Linked()
    modifies tree`root, tree`t, Nodes(tree.t)`left, Nodes(tree.t)`red
    ensures tree.Linked()
    ensures old(tree.t) == Leaf ==> node == null && tree.t == Leaf
    ensures old(tree.t) != Leaf ==> node != null && old(InOrder(tree.t)) == [node] + InOrder(tree.t)
    ensures node != null ==>
              node in old(Nodes(tree.t)) && node !in Nodes(tree.t) && Nodes(tree.t) <= old(Nodes(tree.t))
  {
    hide Zip, InOrder, Nodes, CtxNodes;
    ghost var c, s := Top, tree.t;
    ZipRoot(tree.root, tree.t);
    var parent: Node? := null;
    node := tree.root;
    if node != null {
      while node.left != null
        invariant Zip(tree.root, c, s) && Plug(c, s) == tree.t && Before(c) == [] && !c.InRight?
        invariant tree.t == old(tree.t) && s.Bin? && node == s.node && parent == TopNode(c)
        decreases s
      {
        ZipDown(tree.root, c, s);
        parent := node;
        node := node.left;
        c, s := InLeft(c, s.node, s.red, s.right), s.left;
      }
      ZipDown(tree.root, c, s);
      RippedOrder(c, s);
      RippedNodes(tree.root, c, s);
      PlugNodes(c, s);
      NodeIn(c, s);
      RipOut(tree, parent, node, c, s);
      PlugOwns(tree.root, Blackened(c), s.right);
      tree.t := Plug(Blackened(c), s.right);
    }
  }

  /** Releasing a node: what becomes of its links is up to the allocator. */
  method Release(node: Node, garbage: Node?)
    modifies node`left, node`right, node`red
    ensures node.left == node.right == garbage
  {
    node.left, node.right, node.red := garbage, garbage, garbage == null;
  }

  /** The clean-up loop that the header prescribes: no step depends on a node after its release, and none
      writes to it. */
  method Fini(tree: RbTree, garbage: Node?) returns (freed: seq<Node>)
    requires tree.Linked()
    modifies tree`root, tree`t, Nodes(tree.t)`left, Nodes(tree.t)`right, Nodes(tree.t)`red
    ensures freed == old(InOrder(tree.t))
    ensures forall n :: n in freed ==> n.left == n.right == garbage
    ensures tree.root == null && tree.t == Leaf && tree.Valid()
  {
    hide InOrder, Nodes, RbTree.Linked;
    freed := [];
    while true
      invariant tree.Linked() && freed + InOrder(tree.t) == old(InOrder(tree.t))
      invariant Nodes(tree.t) <= old(Nodes(tree.t))
      invariant forall n :: n in freed ==> n !in Nodes(tree.t) && n.left == n.right == garbage
      decreases |InOrder(tree.t)|
    {
      ghost var t0 := tree.t;
      var node := FiniStep(tree);
      if node == null {
        break;
      }
      assert freed + InOrder(t0) == freed + [node] + InOrder(tree.t);
      assert allocated(Nodes(tree.t));
      Release(node, garbage);
      freed := freed + [node];
    }
    EmptyTree(tree);
  }

  lemma EmptyTree(tree: RbTree)
    requires tree.Linked() && tree.t == Leaf
    ensures InOrder(tree.t) == [] && tree.root == null && tree.Valid()
  {
  }
}
