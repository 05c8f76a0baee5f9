/** The abstract red-black tree that the heap structure of data/rbtree.c stands for, and its theory.

    A Tree is the shape, node identities and colours of a subtree.  A Ctx is the rest of the tree around
    one hole: what the explicit root-to-node path of the C code describes.  Everything here is about
    values; RbHeap ties the values to the heap. */
module RbModel {
  import opened Keys
  import opened Powers

  /** One C node: RBTREE_NODE (the colour bit packed in `lc` is the field `red`), together with the
      order-list links that the dictionary of data/value.c threads through the same node.  No operation
      of data/rbtree.c touches the order links. */
  class Node {
    const key: Key
    var left: Node?
    var right: Node?
    var red: bool
    var orderPrev: Node?
    var orderNext: Node?

    constructor (key: Key)
      ensures this.key == key
    {
      this.key := key;
      left, right, red := null, null, false;
      orderPrev, orderNext := null, null;
    }
  }

  datatype Tree =
    | Leaf
    | Bin(left: Tree, node: Node, red: bool, right: Tree)

  datatype Ctx =
    | Top
    | InLeft(up: Ctx, node: Node, red: bool, right: Tree)
    | InRight(up: Ctx, left: Tree, node: Node, red: bool)

  // ---------- contents ----------

  ghost function Nodes(t: Tree): set<Node> {
    match t
    case Leaf => {}
    case Bin(l, n, _, r) => {n} + Nodes(l) + Nodes(r)
  }

  ghost function InOrder(t: Tree): seq<Node> {
    match t
    case Leaf => []
    case Bin(l, n, _, r) => InOrder(l) + [n] + InOrder(r)
  }

  ghost predicate Disjoint(t: Tree) {
    match t
    case Leaf => true
    case Bin(l, n, _, r) =>
      && n !in Nodes(l) && n !in Nodes(r) && Nodes(l) !! Nodes(r)
      && Disjoint(l) && Disjoint(r)
  }

  ghost function RootOf(t: Tree): Node? {
    if t.Leaf? then null else t.node
  }

  ghost function CtxNodes(c: Ctx): set<Node> {
    match c
    case Top => {}
    case InLeft(up, n, _, r) => {n} + Nodes(r) + CtxNodes(up)
    case InRight(up, l, n, _) => {n} + Nodes(l) + CtxNodes(up)
  }

  ghost predicate CtxDisjoint(c: Ctx) {
    match c
    case Top => true
    case InLeft(up, n, _, r) =>
      && n !in Nodes(r) && n !in CtxNodes(up) && Nodes(r) !! CtxNodes(up)
      && Disjoint(r) && CtxDisjoint(up)
    case InRight(up, l, n, _) =>
      && n !in Nodes(l) && n !in CtxNodes(up) && Nodes(l) !! CtxNodes(up)
      && Disjoint(l) && CtxDisjoint(up)
  }

  ghost predicate Apart(c: Ctx, t: Tree) {
    CtxDisjoint(c) && Disjoint(t) && CtxNodes(c) !! Nodes(t)
  }

  ghost function Before(c: Ctx): seq<Node> {
    match c
    case Top => []
    case InLeft(up, _, _, _) => Before(up)
    case InRight(up, l, n, _) => Before(up) + InOrder(l) + [n]
  }

  ghost function After(c: Ctx): seq<Node> {
    match c
    case Top => []
    case InLeft(up, n, _, r) => [n] + InOrder(r) + After(up)
    case InRight(up, _, _, _) => After(up)
  }

  // ---------- the zipper ----------

  /** The subtree rooted at the innermost node of c, once t fills the hole. */
  ghost function Wrap(c: Ctx, t: Tree): (w: Tree)
    requires !c.Top?
    ensures w.Bin?
  {
    match c
    case InLeft(_, n, red, r) => Bin(t, n, red, r)
    case InRight(_, l, n, red) => Bin(l, n, red, t)
  }

  /** The subtree on the other side of the innermost node of c. */
  ghost function Sibling(c: Ctx): Tree
    requires !c.Top?
  {
    if c.InLeft? then c.right else c.left
  }

  /** The surroundings of the sibling once s fills the hole of c. */
  ghost function Flip(c: Ctx, s: Tree): Ctx
    requires !c.Top?
  {
    if c.InLeft? then InRight(c.up, s, c.node, c.red) else InLeft(c.up, c.node, c.red, s)
  }

  ghost function Plug(c: Ctx, t: Tree): Tree {
    if c.Top? then t else Plug(c.up, Wrap(c, t))
  }

  /** The nodes from the root down to the hole: what the C path stack holds. */
  ghost function Path(c: Ctx): seq<Node?> {
    if c.Top? then [] else Path(c.up) + [c.node]
  }

  /** d with its Top replaced by c. */
  ghost function Compose(d: Ctx, c: Ctx): Ctx {
    match d
    case Top => c
    case InLeft(up, n, red, r) => InLeft(Compose(up, c), n, red, r)
    case InRight(up, l, n, red) => InRight(Compose(up, c), l, n, red)
  }

  lemma {:induction false} PlugOrder(c: Ctx, t: Tree)
    ensures InOrder(Plug(c, t)) == Before(c) + InOrder(t) + After(c)
  {
    hide InOrder, Before, After, Wrap;
    WrapOrder(c, t);
    if !c.Top? {
      PlugOrder(c.up, Wrap(c, t));
    }
  }

  lemma WrapOrder(c: Ctx, t: Tree)
    ensures
      Before(c) + InOrder(t) + After(c) ==
      if c.Top? then InOrder(t) else Before(c.up) + InOrder(Wrap(c, t)) + After(c.up)
  {
  }

  lemma {:induction false} PlugNodes(c: Ctx, t: Tree)
    ensures Nodes(Plug(c, t)) == CtxNodes(c) + Nodes(t)
    ensures Disjoint(Plug(c, t)) <==> Apart(c, t)
  {
    if !c.Top? {
      PlugNodes(c.up, Wrap(c, t));
    }
  }

  lemma PathEnds(c: Ctx, p: Node?)
    ensures
      var s := Path(c) + [p];
      && s[|s| - 1] == p
      && (|s| > 1 <==> !c.Top?)
      && (!c.Top? ==>
            && s[|s| - 2] == c.node
            && (|s| > 2 <==> !c.up.Top?)
            && (!c.up.Top? ==>
                  && s[|s| - 3] == c.up.node
                  && s[..|s| - 2] == Path(c.up.up) + [c.up.node]
                  && (|s| > 3 <==> !c.up.up.Top?)
                  && (!c.up.up.Top? ==> s[|s| - 4] == c.up.up.node)))
  {
  }

  /** Changing the shape of a subtree but not its order changes neither the order nor the nodes of the whole. */
  lemma SameOrder(c: Ctx, s: Tree, s': Tree)
    requires InOrder(s) == InOrder(s')
    ensures InOrder(Plug(c, s)) == InOrder(Plug(c, s')) && Nodes(s) == Nodes(s')
  {
    PlugOrder(c, s);
    PlugOrder(c, s');
    InOrderNodes(s);
    InOrderNodes(s');
  }

  lemma PlugUp(c: Ctx, s: Tree)
    requires !c.Top?
    ensures Plug(c, s) == Plug(c.up, Wrap(c, s))
    ensures CtxNodes(c) + Nodes(s) == CtxNodes(c.up) + Nodes(Wrap(c, s))
  {
  }

  lemma RaiseTwo(c: Ctx, s: Tree, g: Tree)
    requires !c.Top? && !c.up.Top? && InOrder(g) == InOrder(Wrap(c.up, Wrap(c, s)))
    ensures InOrder(Plug(c.up.up, g)) == InOrder(Plug(c, s))
    ensures CtxNodes(c.up.up) + Nodes(g) == CtxNodes(c) + Nodes(s)
  {
    hide InOrder, Plug, Wrap, Nodes, CtxNodes;
    SameOrder(c.up.up, g, Wrap(c.up, Wrap(c, s)));
    PlugUp(c, s);
    PlugUp(c.up, Wrap(c, s));
  }

  lemma NodeIn(c: Ctx, s: Tree)
    ensures !c.Top? ==>
              && (Sibling(c).Bin? ==> Sibling(c).node in CtxNodes(c))
              && c.node in CtxNodes(c) && CtxNodes(c.up) <= CtxNodes(c) && Nodes(Sibling(c)) <= CtxNodes(c)
              && (!c.up.Top? ==>
                    && c.up.node in CtxNodes(c) && CtxNodes(c.up.up) <= CtxNodes(c)
                    && Nodes(Sibling(c.up)) <= CtxNodes(c)
                    && (Sibling(c.up).Bin? ==> Sibling(c.up).node in CtxNodes(c))
                    && (!c.up.up.Top? ==> c.up.up.node in CtxNodes(c)))
    ensures s.Bin? ==> s.node in Nodes(s)
  {
  }

  lemma {:induction false} ComposePlug(d: Ctx, c: Ctx, t: Tree)
    ensures Plug(Compose(d, c), t) == Plug(c, Plug(d, t))
    decreases d
  {
    if !d.Top? {
      ComposePlug(d.up, c, Wrap(d, t));
      assert Wrap(Compose(d, c), t) == Wrap(d, t);
    }
  }

  lemma {:induction false} ComposePath(d: Ctx, c: Ctx)
    ensures Path(Compose(d, c)) == Path(c) + Path(d)
    decreases d
  {
    if !d.Top? {
      ComposePath(d.up, c);
    }
  }

  lemma {:induction false} ComposeOrder(d: Ctx, c: Ctx)
    ensures Before(Compose(d, c)) == Before(c) + Before(d)
    ensures After(Compose(d, c)) == After(d) + After(c)
    decreases d
  {
    if !d.Top? {
      ComposeOrder(d.up, c);
    }
  }

  lemma {:induction false} ComposeNodes(d: Ctx, c: Ctx)
    ensures CtxNodes(Compose(d, c)) == CtxNodes(d) + CtxNodes(c)
    decreases d
  {
    if !d.Top? {
      ComposeNodes(d.up, c);
    }
  }

  lemma {:induction false} ComposeDisjoint(d: Ctx, c: Ctx)
    requires CtxDisjoint(d) && CtxDisjoint(c) && CtxNodes(d) !! CtxNodes(c)
    ensures CtxDisjoint(Compose(d, c))
    decreases d
  {
    if !d.Top? {
      ComposeNodes(d.up, c);
      ComposeDisjoint(d.up, c);
    }
  }

  ghost function Elements(s: seq<Node>): set<Node> {
    set n | n in s
  }

  lemma {:induction false} InOrderNodes(t: Tree)
    ensures Nodes(t) == Elements(InOrder(t))
  {
    match t
    case Leaf =>
    case Bin(l, n, _, r) => InOrderNodes(l); InOrderNodes(r);
  }

  // ---------- rotations ----------

  ghost function RotatedLeft(s: Tree): Tree
    requires s.Bin? && s.right.Bin?
  {
    var b := s.right;
    Bin(Bin(s.left, s.node, s.red, b.left), b.node, b.red, b.right)
  }

  ghost function RotatedRight(s: Tree): Tree
    requires s.Bin? && s.left.Bin?
  {
    var a := s.left;
    Bin(a.left, a.node, a.red, Bin(a.right, s.node, s.red, s.right))
  }

  /** A rotation moves nodes but neither adds, loses, duplicates nor reorders any. */
  lemma RotationOrder(a: Tree, x: Node, redX: bool, b: Tree, y: Node, redY: bool, d: Tree)
    ensures InOrder(Bin(a, x, redX, Bin(b, y, redY, d))) == InOrder(Bin(Bin(a, x, redX, b), y, redY, d))
  {
    var yd := Bin(b, y, redY, d);
    assert InOrder(a) + [x] + InOrder(yd) == InOrder(Bin(a, x, redX, b)) + [y] + InOrder(d);
  }

  lemma RotationNodes(a: Tree, x: Node, redX: bool, b: Tree, y: Node, redY: bool, d: Tree)
    ensures
      var s := Bin(a, x, redX, Bin(b, y, redY, d));
      var r := Bin(Bin(a, x, redX, b), y, redY, d);
      Nodes(s) == Nodes(r) && (Disjoint(s) <==> Disjoint(r))
  {
    assert Nodes(Bin(b, y, redY, d)) == {y} + Nodes(b) + Nodes(d);
    assert Nodes(Bin(a, x, redX, b)) == {x} + Nodes(a) + Nodes(b);
  }

  lemma RotatedLeftContents(c: Ctx, s: Tree)
    requires s.Bin? && s.right.Bin?
    ensures InOrder(RotatedLeft(s)) == InOrder(s)
    ensures Apart(c, s) ==> Apart(c, RotatedLeft(s))
  {
    RotationOrder(s.left, s.node, s.red, s.right.left, s.right.node, s.right.red, s.right.right);
    RotationNodes(s.left, s.node, s.red, s.right.left, s.right.node, s.right.red, s.right.right);
  }

  lemma RotatedRightContents(c: Ctx, s: Tree)
    requires s.Bin? && s.left.Bin?
    ensures InOrder(RotatedRight(s)) == InOrder(s)
    ensures Apart(c, s) ==> Apart(c, RotatedRight(s))
  {
    RotationOrder(s.left.left, s.left.node, s.left.red, s.left.right, s.node, s.red, s.right);
    RotationNodes(s.left.left, s.left.node, s.left.red, s.left.right, s.node, s.red, s.right);
  }

  // ---------- colours ----------

  ghost predicate IsRed(t: Tree) {
    t.Bin? && t.red
  }

  ghost function Painted(t: Tree, red: bool): Tree
    requires t.Bin?
  {
    t.(red := red)
  }

  ghost predicate BlackTop(c: Ctx) {
    !c.Top? && !c.red
  }

  ghost function Weight(red: bool): nat {
    if red then 0 else 1
  }

  ghost function BlackHeight(t: Tree): nat {
    match t
    case Leaf => 0
    case Bin(l, _, red, _) => BlackHeight(l) + Weight(red)
  }

  /** Equal black height on all paths and no red-red edge; the root may have either colour. */
  ghost predicate Balanced(t: Tree) {
    match t
    case Leaf => true
    case Bin(l, _, red, r) =>
      && Balanced(l) && Balanced(r) && BlackHeight(l) == BlackHeight(r)
      && (red ==> !IsRed(l) && !IsRed(r))
  }

  ghost predicate RedBlack(t: Tree) {
    Balanced(t) && !IsRed(t)
  }

  /** c is a sound red-black surrounding for a hole that is to hold black height h. */
  ghost predicate Fits(c: Ctx, h: nat) {
    match c
    case Top => true
    case InLeft(up, _, red, r) =>
      && Balanced(r) && BlackHeight(r) == h
      && (red ==> !IsRed(r) && BlackTop(up))
      && Fits(up, h + Weight(red))
    case InRight(up, l, _, red) =>
      && Balanced(l) && BlackHeight(l) == h
      && (red ==> !IsRed(l) && BlackTop(up))
      && Fits(up, h + Weight(red))
  }

  ghost function Blacks(c: Ctx): nat {
    if c.Top? then 0 else Blacks(c.up) + Weight(c.red)
  }

  /** Nothing is wrong with t inside c: the whole is a red-black tree. */
  ghost predicate Sound(c: Ctx, t: Tree) {
    Balanced(t) && Fits(c, BlackHeight(t)) && (IsRed(t) ==> BlackTop(c))
  }

  lemma {:induction false} PlugRedBlack(c: Ctx, t: Tree)
    requires Sound(c, t)
    ensures RedBlack(Plug(c, t))
    ensures BlackHeight(Plug(c, t)) == Blacks(c) + BlackHeight(t)
  {
    if !c.Top? {
      PlugRedBlack(c.up, Wrap(c, t));
    }
  }

  /** Colours alone decide whether a context fits, so the parts of a composed context do. */
  lemma {:induction false} ComposeFits(d: Ctx, c: Ctx, n: Node, l: Tree, red: bool, n': Node, h: nat)
    requires Fits(Compose(d, InRight(c, l, n, red)), h)
    ensures Fits(Compose(d, InRight(c, l, n', red)), h)
    ensures Blacks(Compose(d, InRight(c, l, n', red))) == Blacks(Compose(d, InRight(c, l, n, red)))
    ensures BlackTop(Compose(d, InRight(c, l, n', red))) == BlackTop(Compose(d, InRight(c, l, n, red)))
  {
    if !d.Top? {
      ComposeFits(d.up, c, n, l, red, n', h + Weight(d.red));
    }
  }

  // ---------- height ----------

  ghost function Max(a: nat, b: nat): nat {
    if a < b then b else a
  }

  ghost function Height(t: Tree): nat {
    match t
    case Leaf => 0
    case Bin(l, _, _, r) => 1 + Max(Height(l), Height(r))
  }

  lemma {:induction false} SizeBound(t: Tree)
    requires Balanced(t)
    ensures Pow2(BlackHeight(t)) <= |InOrder(t)| + 1
    ensures Height(t) <= 2 * BlackHeight(t) + (if IsRed(t) then 1 else 0)
  {
    match t
    case Leaf =>
    case Bin(l, _, _, r) => SizeBound(l); SizeBound(r);
  }

  lemma SquareMonotone(a: nat, b: nat)
    requires a <= b
    ensures a * a <= b * b
  {
    assert a * a <= a * b <= b * b;
  }

  /** A red-black tree of n nodes has height at most 2 * log2(n + 1). */
  lemma HeightTheorem(t: Tree)
    requires RedBlack(t)
    ensures Pow2(Height(t)) <= (|InOrder(t)| + 1) * (|InOrder(t)| + 1)
  {
    SizeBound(t);
    Pow2Monotone(Height(t), 2 * BlackHeight(t));
    Pow2Double(BlackHeight(t));
    SquareMonotone(Pow2(BlackHeight(t)), |InOrder(t)| + 1);
  }

  /** The slots of the C path array: 2 * 8 * sizeof(void*) on a 64-bit machine. */
  const PATH_SLOTS: nat := 128

  /** The largest tree the capacity theorem covers; memory holds fewer nodes than this. */
  ghost predicate FitsMemory(t: Tree) {
    |InOrder(t)| < Pow2(63)
  }

  lemma {:induction false} DepthBound(c: Ctx, h: nat)
    requires Fits(c, h)
    ensures |Path(c)| <= 2 * Blacks(c)
    ensures BlackTop(c) ==> |Path(c)| < 2 * Blacks(c)
  {
    if !c.Top? {
      DepthBound(c.up, h + Weight(c.red));
    }
  }

  /** In every tree that fits memory the black height is at most 63. */
  lemma BlackHeightBound(t: Tree)
    requires Balanced(t) && FitsMemory(t)
    ensures BlackHeight(t) <= 63
  {
    SizeBound(t);
    if BlackHeight(t) > 63 {
      Pow2Monotone(64, BlackHeight(t));
    }
  }

  // ---------- positions in a whole tree ----------

  /** t is c around s, and both meet the red-black rules a whole valid tree imposes on its parts. */
  ghost predicate Focus(t: Tree, c: Ctx, s: Tree) {
    && Plug(c, s) == t && Sound(c, s)
    && Blacks(c) + BlackHeight(s) <= 63
  }

  lemma FocusRoot(t: Tree)
    requires RedBlack(t) && FitsMemory(t)
    ensures Focus(t, Top, t)
  {
    BlackHeightBound(t);
  }

  /** Every position of a red-black tree is such a focus. */
  lemma {:induction false} EveryFocus(t: Tree, c: Ctx, s: Tree)
    requires RedBlack(t) && FitsMemory(t) && Plug(c, s) == t
    ensures Focus(t, c, s)
    decreases c
  {
    hide FitsMemory, Focus;
    if c.Top? {
      FocusRoot(t);
    } else {
      EveryFocus(t, c.up, Wrap(c, s));
      FocusInto(t, c, s);
    }
  }

  lemma BracketsTop(cmp: Comparator, key: Key)
    ensures Brackets(cmp, key, Top)
  {
  }

  lemma FocusOrder(t: Tree, c: Ctx, s: Tree)
    requires Focus(t, c, s)
    ensures InOrder(t) == Before(c) + InOrder(s) + After(c)
  {
    PlugOrder(c, s);
  }

  lemma FocusSplit(t: Tree, c: Ctx, s: Tree)
    requires Focus(t, c, s) && s.Bin?
    ensures InOrder(t) == Before(c) + InOrder(s.left) + [s.node] + (InOrder(s.right) + After(c))
  {
    hide Before, After, Plug, InOrder;
    PlugSplit(t, c, s);
  }

  lemma PlugSplit(t: Tree, c: Ctx, s: Tree)
    requires Plug(c, s) == t && s.Bin?
    ensures InOrder(t) == Before(c) + InOrder(s.left) + [s.node] + (InOrder(s.right) + After(c))
  {
    hide Before, After, Plug, InOrder;
    PlugOrder(c, s);
    RootSplit(s);
    Regrouped(Before(c), InOrder(s.left), [s.node], InOrder(s.right), After(c));
  }

  lemma RootSplit(s: Tree)
    requires s.Bin?
    ensures InOrder(s) == InOrder(s.left) + [s.node] + InOrder(s.right)
  {
  }

  lemma Regrouped(a: seq<Node>, b: seq<Node>, n: seq<Node>, c: seq<Node>, d: seq<Node>)
    ensures a + (b + n + c) + d == a + b + n + (c + d)
  {
  }

  lemma FocusDown(t: Tree, c: Ctx, s: Tree)
    requires Focus(t, c, s) && s.Bin?
    ensures Focus(t, InLeft(c, s.node, s.red, s.right), s.left)
    ensures Focus(t, InRight(c, s.left, s.node, s.red), s.right)
  {
    hide Focus;
    FocusInto(t, InLeft(c, s.node, s.red, s.right), s.left);
    FocusInto(t, InRight(c, s.left, s.node, s.red), s.right);
  }

  lemma FocusInto(t: Tree, c: Ctx, s: Tree)
    requires !c.Top? && Focus(t, c.up, Wrap(c, s))
    ensures Focus(t, c, s)
  {
    hide Plug;
    PlugUp(c, s);
  }

  /** No focus is deeper than the path array allows, with two slots to spare. */
  lemma FocusDepth(t: Tree, c: Ctx, s: Tree)
    requires Focus(t, c, s)
    ensures |Path(c)| + 2 <= PATH_SLOTS
  {
    DepthBound(c, BlackHeight(s));
  }

  /** However far a walk goes down from a focus, it stays inside the path array. */
  lemma FocusHeight(t: Tree, c: Ctx, s: Tree)
    requires Focus(t, c, s)
    ensures |Path(c)| + Height(s) + 2 <= PATH_SLOTS
  {
    DepthBound(c, BlackHeight(s));
    SizeBound(s);
  }

  /** The promise of the path array: in any red-black tree of fewer than 2^63 nodes it has room for the path to any
      position and on to any leaf below, and two more slots. */
  lemma Capacity(t: Tree, c: Ctx, s: Tree)
    requires RedBlack(t) && |InOrder(t)| < 0x8000_0000_0000_0000 && Plug(c, s) == t
    ensures |Path(c)| + Height(s) + 2 <= PATH_SLOTS == 128
  {
    hide Focus, Pow2;
    Pow2At63();
    EveryFocus(t, c, s);
    FocusHeight(t, c, s);
  }

  // ---------- order ----------

  ghost predicate Sorted(cmp: Comparator, s: seq<Node>) {
    forall i, j :: 0 <= i < j < |s| ==> cmp(s[i].key, s[j].key) < 0
  }

  ghost predicate AllAbove(cmp: Comparator, key: Key, s: seq<Node>) {
    forall n :: n in s ==> cmp(key, n.key) < 0
  }

  ghost predicate AllBelow(cmp: Comparator, key: Key, s: seq<Node>) {
    forall n :: n in s ==> cmp(key, n.key) > 0
  }

  lemma SortedSides(cmp: Comparator, a: seq<Node>, n: Node, b: seq<Node>, key: Key)
    requires TotalOrder(cmp) && Sorted(cmp, a + [n] + b)
    ensures cmp(key, n.key) < 0 ==> AllAbove(cmp, key, [n] + b)
    ensures cmp(key, n.key) > 0 ==> AllBelow(cmp, key, a + [n])
    ensures cmp(key, n.key) == 0 ==> AllAbove(cmp, key, b) && AllBelow(cmp, key, a)
  {
    var s := a + [n] + b;
    forall m | m in b && cmp(key, n.key) <= 0
      ensures cmp(key, m.key) < 0
    {
      var j :| 0 <= j < |b| && b[j] == m;
      assert s[|a|] == n && s[|a| + 1 + j] == m;
      Less(cmp, key, n.key, m.key);
    }
    forall m | m in a && cmp(key, n.key) >= 0
      ensures cmp(key, m.key) > 0
    {
      var i :| 0 <= i < |a| && a[i] == m;
      assert s[|a|] == n && s[i] == m;
      Less(cmp, m.key, n.key, key);
    }
  }

  lemma SortedInsert(cmp: Comparator, a: seq<Node>, n: Node, b: seq<Node>)
    requires TotalOrder(cmp) && Sorted(cmp, a + b)
    requires AllBelow(cmp, n.key, a) && AllAbove(cmp, n.key, b)
    ensures Sorted(cmp, a + [n] + b)
  {
    var s, s' := a + b, a + [n] + b;
    forall i, j | 0 <= i < j < |s'|
      ensures cmp(s'[i].key, s'[j].key) < 0
    {
      if i == |a| {
        assert s'[j] in b;
      } else if j == |a| {
        assert s'[i] in a;
      } else {
        assert s'[i] == s[if i < |a| then i else i - 1];
        assert s'[j] == s[if j < |a| then j else j - 1];
      }
    }
  }

  lemma SortedRemove(cmp: Comparator, a: seq<Node>, n: Node, b: seq<Node>)
    requires Sorted(cmp, a + [n] + b)
    ensures Sorted(cmp, a + b)
  {
    var s, s' := a + [n] + b, a + b;
    forall i, j | 0 <= i < j < |s'|
      ensures cmp(s'[i].key, s'[j].key) < 0
    {
      assert s'[i] == s[if i < |a| then i else i + 1];
      assert s'[j] == s[if j < |a| then j else j + 1];
    }
  }

  /** Everything outside the hole of c lies on its proper side of the key. */
  ghost predicate Brackets(cmp: Comparator, key: Key, c: Ctx) {
    AllBelow(cmp, key, Before(c)) && AllAbove(cmp, key, After(c))
  }

  /** A binary search step never leaves an equal node behind. */
  lemma LookupStep(cmp: Comparator, key: Key, t: Tree, c: Ctx, s: Tree)
    requires TotalOrder(cmp) && Sorted(cmp, InOrder(t)) && s.Bin?
    requires InOrder(t) == Before(c) + InOrder(s.left) + [s.node] + (InOrder(s.right) + After(c))
    requires Brackets(cmp, key, c)
    ensures cmp(key, s.node.key) < 0 ==> Brackets(cmp, key, InLeft(c, s.node, s.red, s.right))
    ensures cmp(key, s.node.key) > 0 ==> Brackets(cmp, key, InRight(c, s.left, s.node, s.red))
  {
    hide Sorted, TotalOrder, AllAbove, AllBelow;
    var a, b := Before(c) + InOrder(s.left), InOrder(s.right) + After(c);
    assert InOrder(t) == a + [s.node] + b;
    SortedSides(cmp, a, s.node, b, key);
    assert [s.node] + b == After(InLeft(c, s.node, s.red, s.right));
    assert a + [s.node] == Before(InRight(c, s.left, s.node, s.red));
  }

  // ---------- insertion ----------

  /** The state of insert_fixup: the red root of s is the only possible defect, because it hangs under a
      red parent or has no parent. */
  ghost predicate RedDefect(c: Ctx, s: Tree) {
    IsRed(s) && Balanced(s) && Fits(c, BlackHeight(s))
  }

  ghost predicate DoubleRed(c: Ctx, s: Tree) {
    RedDefect(c, s) && !c.Top? && c.red
  }

  /** The grandparent exists and is black (implied from red parent). */
  lemma DoubleRedGrandparent(c: Ctx, s: Tree)
    requires DoubleRed(c, s)
    ensures BlackTop(c.up) && Fits(c.up.up, BlackHeight(s) + 1)
  {
    assert Fits(c.up, BlackHeight(s));
  }

  lemma BlackParent(c: Ctx, s: Tree)
    requires RedDefect(c, s) && BlackTop(c)
    ensures Sound(c, s)
  {
  }

  lemma BlackenRoot(s: Tree)
    requires IsRed(s) && Balanced(s)
    ensures
      var b := s.(red := false);
      && Sound(Top, b) && InOrder(Plug(Top, b)) == InOrder(Plug(Top, s)) && Nodes(b) == Nodes(s)
  {
  }

  ghost function Uncle(c: Ctx): Tree
    requires !c.Top? && !c.up.Top?
  {
    Sibling(c.up)
  }

  ghost function Recolored(c: Ctx, s: Tree): Tree
    requires DoubleRed(c, s) && IsRed(Uncle(c))
  {
    var p := Painted(Wrap(c, s), false);
    Painted(Wrap(Flip(c.up, p), Painted(Uncle(c), false)), true)
  }

  /** Recolouring keeps the nodes and moves the defect, if any is left, two levels up. */
  lemma RecoloredProps(c: Ctx, s: Tree)
    requires DoubleRed(c, s) && IsRed(Uncle(c))
    ensures
      var g := Recolored(c, s);
      && RedDefect(c.up.up, g) && g.node == c.up.node
      && InOrder(Plug(c.up.up, g)) == InOrder(Plug(c, s))
      && CtxNodes(c.up.up) + Nodes(g) == CtxNodes(c) + Nodes(s)
  {
    RaiseTwo(c, s, Recolored(c, s));
    RecoloredColours(c, s);
  }

  lemma RecoloredColours(c: Ctx, s: Tree)
    requires DoubleRed(c, s) && IsRed(Uncle(c))
    ensures RedDefect(c.up.up, Recolored(c, s))
  {
    assert Fits(c.up, BlackHeight(s));
    assert Fits(c.up.up, BlackHeight(s) + 1);
    assert Balanced(Uncle(c)) && BlackHeight(Uncle(c)) == BlackHeight(s);
    assert Balanced(Uncle(c).left) && Balanced(Uncle(c).right);
  }

  ghost function OuterParent(g: Tree, inLeft: bool): Tree
    requires g.Bin?
  {
    if inLeft then g.left else g.right
  }

  ghost function OuterChild(g: Tree, inLeft: bool): Tree
    requires g.Bin? && OuterParent(g, inLeft).Bin?
  {
    if inLeft then g.left.left else g.right.right
  }

  /** The double red sits on the outer edge of g, whose parts all have black height h. */
  ghost predicate OuterRed(g: Tree, inLeft: bool, h: nat) {
    && g.Bin? && !g.red && IsRed(OuterParent(g, inLeft)) && IsRed(OuterChild(g, inLeft))
    && var p := OuterParent(g, inLeft);
    && Balanced(p.left) && Balanced(p.right) && BlackHeight(p.left) == BlackHeight(p.right) == h
    && if inLeft
       then !IsRed(p.right) && Balanced(g.right) && !IsRed(g.right) && BlackHeight(g.right) == h
       else !IsRed(p.left) && Balanced(g.left) && !IsRed(g.left) && BlackHeight(g.left) == h
  }

  /** The parent raised above the grandparent, with the colours swapped. */
  ghost function Raised(g: Tree, inLeft: bool): Tree
    requires g.Bin? && OuterParent(g, inLeft).Bin?
  {
    var p := OuterParent(g, inLeft);
    if inLeft
    then Bin(p.left, p.node, false, Bin(p.right, g.node, true, g.right))
    else Bin(Bin(g.left, g.node, true, p.left), p.node, false, p.right)
  }

  lemma RaisedSound(g: Tree, inLeft: bool, h: nat)
    requires OuterRed(g, inLeft, h)
    ensures Balanced(Raised(g, inLeft)) && !IsRed(Raised(g, inLeft)) && BlackHeight(Raised(g, inLeft)) == h + 1
    ensures InOrder(Raised(g, inLeft)) == InOrder(g)
  {
    var p := OuterParent(g, inLeft);
    if inLeft {
      RotationOrder(p.left, p.node, p.red, p.right, g.node, g.red, g.right);
    } else {
      RotationOrder(g.left, g.node, g.red, p.left, p.node, p.red, p.right);
    }
  }

  /** The subtree at the grandparent once an inner red-red edge has been rotated outwards. */
  ghost function Straightened(c: Ctx, s: Tree): Tree
    requires DoubleRed(c, s)
  {
    var p := Wrap(c, s);
    Wrap(c.up, if c.up.InLeft? && c.InRight? then RotatedLeft(p)
               else if c.up.InRight? && c.InLeft? then RotatedRight(p)
               else p)
  }

  lemma StraightenedOuter(c: Ctx, s: Tree)
    requires DoubleRed(c, s) && !IsRed(Uncle(c))
    ensures OuterRed(Straightened(c, s), c.up.InLeft?, BlackHeight(s))
  {
    hide InOrder, Before, After;
    assert Fits(c.up, BlackHeight(s));
    assert Balanced(Uncle(c)) && BlackHeight(Uncle(c)) == BlackHeight(s);
    assert Balanced(s.left) && Balanced(s.right);
  }

  lemma StraightenedOrder(c: Ctx, s: Tree)
    requires DoubleRed(c, s)
    ensures InOrder(Straightened(c, s)) == InOrder(Wrap(c.up, Wrap(c, s)))
  {
    hide Balanced;
    var p := Wrap(c, s);
    if c.InRight? {
      RotatedLeftContents(c.up, p);
    } else {
      RotatedRightContents(c.up, p);
    }
  }

  /** Some node of the set equals the key. */
  ghost predicate Has(cmp: Comparator, nodes: set<Node>, key: Key) {
    exists m :: m in nodes && cmp(key, m.key) == 0
  }

  /** Where a lookup ends decides whether an equal node exists. */
  lemma LookupDecides(cmp: Comparator, key: Key, t: Tree, c: Ctx, s: Tree)
    requires InOrder(t) == Before(c) + InOrder(s) + After(c) && Brackets(cmp, key, c)
    requires s.Bin? ==> cmp(key, s.node.key) == 0
    ensures s.Bin? ==> s.node in Nodes(t)
    ensures Has(cmp, Nodes(t), key) <==> s.Bin?
  {
    InOrderNodes(t);
    if s.Bin? {
      assert s.node in InOrder(s);
    }
  }

  /** The empty place a lookup found can take the new node: it is not in the tree yet. */
  lemma InsertPlace(cmp: Comparator, node: Node, t: Tree, c: Ctx)
    requires TotalOrder(cmp) && Focus(t, c, Leaf) && !Has(cmp, Nodes(t), node.key)
    ensures node !in CtxNodes(c) && CtxNodes(c) == Nodes(t)
    ensures RedDefect(c, Bin(Leaf, node, true, Leaf)) && Nodes(Bin(Leaf, node, true, Leaf)) == {node}
  {
    PlugNodes(c, Leaf);
    Less(cmp, node.key, node.key, node.key);
  }

  lemma InsertedOrder(cmp: Comparator, node: Node, t: Tree, c: Ctx, t': Tree)
    requires TotalOrder(cmp) && Sorted(cmp, InOrder(t)) && Brackets(cmp, node.key, c)
    requires InOrder(t) == Before(c) + InOrder(Leaf) + After(c)
    requires InOrder(t') == InOrder(Plug(c, Bin(Leaf, node, true, Leaf)))
    ensures Sorted(cmp, InOrder(t'))
  {
    hide Sorted, TotalOrder, AllAbove, AllBelow;
    InsertedSplit(node, t, c, t');
    SortedInsert(cmp, Before(c), node, After(c));
  }

  lemma InsertedSplit(node: Node, t: Tree, c: Ctx, t': Tree)
    requires InOrder(t) == Before(c) + InOrder(Leaf) + After(c)
    requires InOrder(t') == InOrder(Plug(c, Bin(Leaf, node, true, Leaf)))
    ensures InOrder(t) == Before(c) + After(c)
    ensures InOrder(t') == Before(c) + [node] + After(c)
  {
    PlugOrder(c, Bin(Leaf, node, true, Leaf));
  }

  lemma InsertedNodes(node: Node, t: Tree, c: Ctx, t': Tree)
    requires InOrder(t) == Before(c) + InOrder(Leaf) + After(c)
    requires InOrder(t') == InOrder(Plug(c, Bin(Leaf, node, true, Leaf)))
    ensures Nodes(t') == Nodes(t) + {node} && |InOrder(t')| == |InOrder(t)| + 1
  {
    InsertedSplit(node, t, c, t');
    hide InOrder, Before, After;
    InOrderNodes(t);
    InOrderNodes(t');
  }

  // ---------- removal ----------

  /** The state of remove_fixup: s is one black node short of what its surroundings expect.  A red root of
      s may clash with its neighbours, because the next step paints it black. */
  ghost predicate Deficit(c: Ctx, s: Tree) {
    && (s.Bin? ==> Balanced(Painted(s, false)))
    && Fits(c, BlackHeight(s) + 1)
    && Blacks(c) + BlackHeight(s) <= 62
  }

  /** The termination measure: a red parent ends the loop within two rounds, and the red-sibling step,
      the only one that lengthens the path, leaves a red parent. */
  ghost function Rounds(c: Ctx, s: Tree): nat {
    if IsRed(s) then 0 else if !c.Top? && c.red then 1 else |Path(c)| + 2
  }

  lemma DeficitRed(c: Ctx, s: Tree)
    requires Deficit(c, s) && IsRed(s)
    ensures Sound(c, Painted(s, false)) && InOrder(Painted(s, false)) == InOrder(s)
    ensures InOrder(Plug(c, Painted(s, false))) == InOrder(Plug(c, s))
  {
    SameOrder(c, s, Painted(s, false));
  }

  lemma DeficitTop(s: Tree)
    requires Deficit(Top, s) && !IsRed(s)
    ensures Sound(Top, s)
  {
  }

  /** The sibling exists, because its subtree holds at least one black node more than ours. */
  lemma DeficitSibling(c: Ctx, s: Tree)
    requires Deficit(c, s) && !c.Top?
    ensures Sibling(c).Bin? && |Path(c)| + 2 <= PATH_SLOTS
  {
    DepthBound(c, BlackHeight(s) + 1);
  }

  /** Red sibling: the context after the rotation, one level deeper, with a red parent and a black sibling. */
  ghost function Rehung(c: Ctx): Ctx
    requires !c.Top? && Sibling(c).Bin?
  {
    var b := Sibling(c);
    if c.InLeft? then InLeft(InLeft(c.up, b.node, false, b.right), c.node, true, b.left)
    else InRight(InRight(c.up, b.left, b.node, false), b.right, c.node, true)
  }

  /** The red-sibling step cannot come any more: it needs a black subtree with a red sibling, and from here the
      next black-sibling round either repairs the deficit or leaves it at a red node. */
  ghost predicate Turned(c: Ctx, s: Tree) {
    IsRed(s) || (!c.Top? && c.red && !IsRed(Sibling(c)))
  }

  lemma RehungDeficit(c: Ctx, s: Tree)
    requires Deficit(c, s) && !IsRed(s) && !c.Top? && IsRed(Sibling(c))
    ensures Deficit(Rehung(c), s) && Rounds(Rehung(c), s) < Rounds(c, s)
    ensures Rehung(c).red && !IsRed(Sibling(Rehung(c)))
  {
  }

  lemma RehungOrder(c: Ctx, s: Tree)
    requires !c.Top? && Sibling(c).Bin?
    ensures InOrder(Plug(Rehung(c), s)) == InOrder(Plug(c, s))
    ensures CtxNodes(Rehung(c)) == CtxNodes(c)
  {
    hide Balanced, Fits;
    var b, k := Sibling(c), Rehung(c);
    if c.InLeft? {
      RotationOrder(s, c.node, c.red, b.left, b.node, b.red, b.right);
    } else {
      RotationOrder(b.left, b.node, b.red, b.right, c.node, c.red, s);
    }
    SameOrder(c.up, Wrap(c, s), Wrap(k.up, Wrap(k, s)));
  }

  lemma RehungPath(c: Ctx)
    requires !c.Top? && Sibling(c).Bin?
    ensures Path(Rehung(c)) == Path(c.up) + [Sibling(c).node, c.node]
    ensures Path(c) == Path(c.up) + [c.node]
  {
  }

  /** Black sibling with black children: it becomes red and the deficit moves one level up. */
  ghost function Lightened(c: Ctx, s: Tree): Tree
    requires !c.Top? && Sibling(c).Bin?
  {
    Wrap(Flip(c, s), Painted(Sibling(c), true))
  }

  lemma LightenedDeficit(c: Ctx, s: Tree)
    requires Deficit(c, s) && !IsRed(s) && !c.Top? && Sibling(c).Bin? && !IsRed(Sibling(c))
    requires !IsRed(Sibling(c).left) && !IsRed(Sibling(c).right)
    ensures Deficit(c.up, Lightened(c, s)) && Rounds(c.up, Lightened(c, s)) < Rounds(c, s)
    ensures c.red ==> Rounds(c.up, Lightened(c, s)) == 0
  {
  }

  lemma LightenedOrder(c: Ctx, s: Tree)
    requires !c.Top? && Sibling(c).Bin?
    ensures InOrder(Plug(c.up, Lightened(c, s))) == InOrder(Plug(c, s))
    ensures CtxNodes(c.up) + Nodes(Lightened(c, s)) == CtxNodes(c) + Nodes(s)
  {
    SameOrder(c.up, Wrap(c, s), Lightened(c, s));
  }

  /** Black sibling with a red child: first the red child is brought to the outer side of the sibling. */
  ghost function OuterSibling(c: Ctx): Tree
    requires !c.Top? && Sibling(c).Bin?
  {
    var b := Sibling(c);
    if c.InLeft? && b.left.Bin? && !IsRed(b.right) then
      RotatedRight(Bin(Painted(b.left, false), b.node, true, b.right))
    else if c.InRight? && b.right.Bin? && !IsRed(b.left) then
      RotatedLeft(Bin(b.left, b.node, true, Painted(b.right, false)))
    else b
  }

  ghost function WithSibling(c: Ctx, b: Tree): Ctx
    requires !c.Top?
  {
    match c
    case InLeft(up, n, red, _) => InLeft(up, n, red, b)
    case InRight(up, _, n, red) => InRight(up, b, n, red)
  }

  /** A black sibling whose outer child is red, inside a context that is sound around a deficit. */
  ghost predicate OuterDeficit(c: Ctx, s: Tree) {
    && Deficit(c, s) && !IsRed(s)
    && !c.Top? && Sibling(c).Bin? && !IsRed(Sibling(c))
    && IsRed(if c.InLeft? then Sibling(c).right else Sibling(c).left)
  }

  lemma OuterSiblingDeficit(c: Ctx, s: Tree)
    requires Deficit(c, s) && !IsRed(s) && !c.Top? && Sibling(c).Bin? && !IsRed(Sibling(c))
    requires IsRed(Sibling(c).left) || IsRed(Sibling(c).right)
    ensures OuterDeficit(WithSibling(c, OuterSibling(c)), s)
  {
    hide Deficit, OuterSibling, WithSibling, BlackHeight;
    SiblingBalanced(c, s);
    OuterSiblingSound(c);
    SiblingReplaced(c, s, OuterSibling(c));
  }

  lemma SiblingBalanced(c: Ctx, s: Tree)
    requires Deficit(c, s) && !c.Top?
    ensures Balanced(Sibling(c))
  {
  }

  lemma SiblingReplaced(c: Ctx, s: Tree, b: Tree)
    requires Deficit(c, s) && !c.Top? && !IsRed(b) && Balanced(b) && BlackHeight(b) == BlackHeight(Sibling(c))
    ensures
      var k := WithSibling(c, b);
      Deficit(k, s) && !k.Top? && Sibling(k) == b && (k.InLeft? <==> c.InLeft?)
  {
    hide Balanced, BlackHeight;
  }

  lemma OuterSiblingSound(c: Ctx)
    requires !c.Top? && Sibling(c).Bin? && Balanced(Sibling(c)) && !IsRed(Sibling(c))
    requires IsRed(Sibling(c).left) || IsRed(Sibling(c).right)
    ensures
      var b := OuterSibling(c);
      && b.Bin? && Balanced(b) && !IsRed(b) && BlackHeight(b) == BlackHeight(Sibling(c))
      && IsRed(if c.InLeft? then b.right else b.left)
  {
    var b := Sibling(c);
    if c.InLeft? && b.left.Bin? && !IsRed(b.right) {
      var m := b.left;
      assert Balanced(m.left) && Balanced(m.right);
      assert BlackHeight(m.left) == BlackHeight(m.right) == BlackHeight(b.right);
      assert OuterSibling(c) == Bin(m.left, m.node, false, Bin(m.right, b.node, true, b.right));
    } else if c.InRight? && b.right.Bin? && !IsRed(b.left) {
      var m := b.right;
      assert Balanced(m.left) && Balanced(m.right);
      assert BlackHeight(m.left) == BlackHeight(m.right) == BlackHeight(b.left);
      assert OuterSibling(c) == Bin(Bin(b.left, b.node, true, m.left), m.node, false, m.right);
    }
  }

  lemma OuterSiblingOrder(c: Ctx)
    requires !c.Top? && Sibling(c).Bin?
    ensures InOrder(OuterSibling(c)) == InOrder(Sibling(c))
  {
    var b := Sibling(c);
    if c.InLeft? && b.left.Bin? && !IsRed(b.right) {
      RotatedRightContents(c, Bin(Painted(b.left, false), b.node, true, b.right));
    } else if c.InRight? && b.right.Bin? && !IsRed(b.left) {
      RotatedLeftContents(c, Bin(b.left, b.node, true, Painted(b.right, false)));
    }
  }

  /** The colours just before the last rotation: the sibling takes the parent's colour, the parent and the
      outer child become black. */
  ghost function Repainted(c: Ctx, s: Tree): Tree
    requires OuterDeficit(c, s)
  {
    var b := Sibling(c);
    if c.InLeft? then Bin(s, c.node, false, Bin(b.left, b.node, c.red, Painted(b.right, false)))
    else Bin(Bin(Painted(b.left, false), b.node, c.red, b.right), c.node, false, s)
  }

  ghost function Borrowed(c: Ctx, s: Tree): Tree
    requires OuterDeficit(c, s)
  {
    if c.InLeft? then RotatedLeft(Repainted(c, s)) else RotatedRight(Repainted(c, s))
  }

  lemma BorrowedSound(c: Ctx, s: Tree)
    requires OuterDeficit(c, s)
    ensures Sound(c.up, Borrowed(c, s))
  {
    hide InOrder;
    var b := Sibling(c);
    var outer, inner := if c.InLeft? then b.right else b.left, if c.InLeft? then b.left else b.right;
    assert Balanced(outer) && Balanced(inner);
    assert Balanced(Painted(outer, false)) && BlackHeight(Painted(outer, false)) == BlackHeight(s) + 1;
    var low := if c.InLeft? then Bin(s, c.node, false, inner) else Bin(inner, c.node, false, s);
    assert Balanced(low) && BlackHeight(low) == BlackHeight(s) + 1;
  }

  lemma BorrowedOrder(c: Ctx, s: Tree)
    requires OuterDeficit(c, s)
    ensures InOrder(Borrowed(c, s)) == InOrder(Wrap(c, s))
  {
    hide Balanced, Fits;
    var b, r := Sibling(c), Repainted(c, s);
    assert InOrder(if c.InLeft? then r.right else r.left) == InOrder(b) by {
      var outer := if c.InLeft? then b.right else b.left;
      assert InOrder(Painted(outer, false)) == InOrder(outer);
    }
    if c.InLeft? {
      RotatedLeftContents(c, Repainted(c, s));
    } else {
      RotatedRightContents(c, Repainted(c, s));
    }
  }

  lemma BorrowedWhole(c: Ctx, s: Tree)
    requires !c.Top? && Sibling(c).Bin? && OuterDeficit(WithSibling(c, OuterSibling(c)), s)
    ensures InOrder(Plug(c.up, Borrowed(WithSibling(c, OuterSibling(c)), s))) == InOrder(Plug(c, s))
    ensures Nodes(OuterSibling(c)) == Nodes(Sibling(c))
  {
    hide Balanced, Fits;
    var k := WithSibling(c, OuterSibling(c));
    OuterSiblingOrder(c);
    BorrowedOrder(k, s);
    SameOrder(c, OuterSibling(c), Sibling(c));
    SameOrder(c.up, Borrowed(k, s), Wrap(c, s));
  }

  lemma RehungProps(c: Ctx, s: Tree)
    requires Deficit(c, s) && !IsRed(s) && !c.Top? && IsRed(Sibling(c))
    ensures Deficit(Rehung(c), s) && Rounds(Rehung(c), s) < Rounds(c, s)
    ensures Turned(Rehung(c), s) && !Turned(c, s)
    ensures InOrder(Plug(Rehung(c), s)) == InOrder(Plug(c, s)) && CtxNodes(Rehung(c)) == CtxNodes(c)
    ensures Path(Rehung(c)) == Path(c.up) + [Sibling(c).node, c.node]
    ensures Path(c) == Path(c.up) + [c.node]
  {
    RehungDeficit(c, s);
    RehungOrder(c, s);
    RehungPath(c);
  }

  lemma LightenedProps(c: Ctx, s: Tree)
    requires Deficit(c, s) && !IsRed(s) && !c.Top? && Sibling(c).Bin? && !IsRed(Sibling(c))
    requires !IsRed(Sibling(c).left) && !IsRed(Sibling(c).right)
    ensures Deficit(c.up, Lightened(c, s)) && Rounds(c.up, Lightened(c, s)) < Rounds(c, s)
    ensures c.red ==> IsRed(Lightened(c, s)) && Rounds(c.up, Lightened(c, s)) == 0
    ensures InOrder(Plug(c.up, Lightened(c, s))) == InOrder(Plug(c, s))
    ensures CtxNodes(c.up) + Nodes(Lightened(c, s)) == CtxNodes(c) + Nodes(s)
    ensures RootOf(Lightened(c, s)) == c.node && Path(c) == Path(c.up) + [c.node]
  {
    LightenedDeficit(c, s);
    LightenedOrder(c, s);
  }

  lemma {:induction false} ComposeSound(d: Ctx, c: Ctx, s: Tree)
    requires Sound(c, Plug(d, s))
    ensures Sound(Compose(d, c), s)
    ensures Blacks(Compose(d, c)) + BlackHeight(s) == Blacks(c) + BlackHeight(Plug(d, s))
    decreases d
  {
    if !d.Top? {
      var w := Wrap(d, s);
      ComposeSound(d.up, c, w);
      assert Compose(d, c).up == Compose(d.up, c);
      assert Balanced(s);
    }
  }

  /** The exchange in rbtree_remove: x, with left subtree l, trades places and colours with its successor y,
      the leftmost node of its right subtree, which hangs at d. */
  datatype Exchange = Exchange(c: Ctx, l: Tree, x: Node, redX: bool, d: Ctx, y: Node, redY: bool, r: Tree)

  ghost function BeforeExchange(e: Exchange): Tree {
    Bin(e.l, e.x, e.redX, Plug(e.d, Bin(Leaf, e.y, e.redY, e.r)))
  }

  ghost function AfterCtx(e: Exchange): Ctx {
    Compose(e.d, InRight(e.c, e.l, e.y, e.redX))
  }

  ghost function AfterTree(e: Exchange): Tree {
    Bin(Leaf, e.x, e.redY, e.r)
  }

  /** The parts of an exchange share no node. */
  ghost predicate Scattered(e: Exchange) {
    && e.x != e.y
    && {e.x, e.y} !! Nodes(e.l) && {e.x, e.y} !! Nodes(e.r)
    && {e.x, e.y} !! CtxNodes(e.d) && {e.x, e.y} !! CtxNodes(e.c)
    && Nodes(e.l) !! Nodes(e.r) && Nodes(e.l) !! CtxNodes(e.d) && Nodes(e.l) !! CtxNodes(e.c)
    && Nodes(e.r) !! CtxNodes(e.d) && Nodes(e.r) !! CtxNodes(e.c)
    && CtxNodes(e.d) !! CtxNodes(e.c)
  }

  lemma ExchangeApart(e: Exchange)
    requires Apart(e.c, BeforeExchange(e))
    ensures Apart(AfterCtx(e), AfterTree(e))
    ensures CtxNodes(AfterCtx(e)) == CtxNodes(e.d) + {e.y} + Nodes(e.l) + CtxNodes(e.c)
    ensures Scattered(e)
  {
    PlugNodes(e.d, Bin(Leaf, e.y, e.redY, e.r));
    ComposeDisjoint(e.d, InRight(e.c, e.l, e.y, e.redX));
    ComposeNodes(e.d, InRight(e.c, e.l, e.y, e.redX));
  }

  lemma ExchangeSound(e: Exchange)
    requires Sound(e.c, BeforeExchange(e)) && Blacks(e.c) + BlackHeight(BeforeExchange(e)) <= 63
    ensures Sound(AfterCtx(e), AfterTree(e)) && Blacks(AfterCtx(e)) + BlackHeight(AfterTree(e)) <= 63
  {
    var t, c := BeforeExchange(e), InRight(e.c, e.l, e.x, e.redX);
    var s := Bin(Leaf, e.y, e.redY, e.r);
    assert Sound(c, t.right);
    ComposeSound(e.d, c, s);
    ComposeFits(e.d, e.c, e.x, e.l, e.redX, e.y, BlackHeight(s));
  }

  /** Dropping x after the exchange loses exactly x from the order. */
  lemma ExchangeOrder(e: Exchange)
    requires Before(e.d) == []
    ensures
      var a, b := Before(e.c) + InOrder(e.l), [e.y] + InOrder(e.r) + After(e.d) + After(e.c);
      && InOrder(Plug(e.c, BeforeExchange(e))) == a + [e.x] + b
      && InOrder(Plug(AfterCtx(e), e.r)) == a + b
  {
    hide InOrder, Plug, BeforeExchange, AfterCtx, Before, After;
    ExchangeOrderBefore(e);
    ExchangeOrderAfter(e);
  }

  lemma ExchangeOrderAfter(e: Exchange)
    requires Before(e.d) == []
    ensures InOrder(Plug(AfterCtx(e), e.r))
         == Before(e.c) + InOrder(e.l) + ([e.y] + InOrder(e.r) + After(e.d) + After(e.c))
  {
    hide InOrder, Plug;
    var k, a := InRight(e.c, e.l, e.y, e.redX), Before(e.c) + InOrder(e.l);
    PlugOrder(AfterCtx(e), e.r);
    ComposeOrder(e.d, k);
    assert Before(k) + [] == a + [e.y];
    assert (a + [e.y]) + InOrder(e.r) + (After(e.d) + After(e.c))
        == a + ([e.y] + InOrder(e.r) + After(e.d) + After(e.c));
  }

  lemma ExchangeOrderBefore(e: Exchange)
    requires Before(e.d) == []
    ensures InOrder(Plug(e.c, BeforeExchange(e)))
         == Before(e.c) + InOrder(e.l) + [e.x] + ([e.y] + InOrder(e.r) + After(e.d) + After(e.c))
  {
    hide Plug, Before, After;
    var s := Bin(Leaf, e.y, e.redY, e.r);
    PlugOrder(e.c, BeforeExchange(e));
    PlugOrder(e.d, s);
    assert InOrder(s) == [e.y] + InOrder(e.r);
  }

  lemma DropSound(c: Ctx, s: Tree, child: Tree)
    requires Sound(c, s) && s.Bin? && Blacks(c) + BlackHeight(s) <= 63
    requires child == if s.left.Bin? then s.left else s.right
    requires s.left.Leaf? || s.right.Leaf?
    ensures if s.red then Sound(c, child) else Deficit(c, child)
  {
    hide InOrder;
    assert Balanced(child);
  }

  /** after is before without one occurrence of n. */
  ghost predicate Loses(before: seq<Node>, n: Node, after: seq<Node>) {
    exists i :: 0 <= i < |before| && before[i] == n && after == before[..i] + before[i + 1..]
  }

  lemma LosesMiddle(a: seq<Node>, n: Node, b: seq<Node>)
    ensures Loses(a + [n] + b, n, a + b)
  {
    var s := a + [n] + b;
    assert s[|a|] == n && a + b == s[..|a|] + s[|a| + 1..];
  }

  /** What sinking a node leaves: the same nodes, sound colours, and an order that loses exactly the node
      once its only child takes its place. */
  ghost predicate Sunk(c: Ctx, s: Tree, c': Ctx, s': Tree)
    requires s.Bin? && s'.Bin?
  {
    && Sound(c', s') && Blacks(c') + BlackHeight(s') <= 63
    && CtxNodes(c') + Nodes(s') == CtxNodes(c) + Nodes(s)
    && Loses(InOrder(Plug(c, s)), s.node, InOrder(Plug(c', OnlyChild(s'))))
  }

  ghost function OnlyChild(s: Tree): Tree
    requires s.Bin?
  {
    if s.left.Bin? then s.left else s.right
  }

  lemma SunkAlready(t: Tree, c: Ctx, s: Tree)
    requires Focus(t, c, s) && s.Bin? && (s.left.Leaf? || s.right.Leaf?)
    ensures Sunk(c, s, c, s)
  {
    hide Balanced, Fits, Loses, Before, After, Plug, InOrder, OnlyChild;
    PlugSplit(Plug(c, s), c, s);
    DropSplit(c, s);
    LosesMiddle(Before(c) + InOrder(s.left), s.node, InOrder(s.right) + After(c));
  }

  lemma DropSplit(c: Ctx, s: Tree)
    requires s.Bin? && (s.left.Leaf? || s.right.Leaf?)
    ensures InOrder(Plug(c, OnlyChild(s))) == Before(c) + InOrder(s.left) + (InOrder(s.right) + After(c))
  {
    hide Before, After, Plug;
    PlugOrder(c, OnlyChild(s));
    assert InOrder(OnlyChild(s)) == InOrder(s.left) + InOrder(s.right);
    Regrouped(Before(c), InOrder(s.left), [], InOrder(s.right), After(c));
  }

  lemma ExchangePath(e: Exchange)
    ensures Path(AfterCtx(e)) == Path(e.c) + [e.y] + Path(e.d)
    ensures e.d.Top? ==> Path(AfterCtx(e)) == Path(e.c) + [e.y]
  {
    ComposePath(e.d, InRight(e.c, e.l, e.y, e.redX));
  }

  /** How the path reads before the exchange, and what the two slot writes make of it. */
  lemma PathSwap(p: seq<Node?>, e: Exchange, d: Ctx)
    requires p == Path(e.c) + [e.x] + Path(d)
    requires !d.Top? && d.up == e.d && d.node == e.y && !e.d.Top?
    ensures p[|p| - 1] == e.y && p[|p| - 2] == e.d.node && p[|Path(e.c)|] == e.x
    ensures |Path(e.c)| < |p| - 2
    ensures p[|Path(e.c)| := e.y][|p| - 1 := e.x] == Path(AfterCtx(e)) + [e.x]
    ensures !e.c.Top? ==> |Path(e.c)| > 0 && p[|Path(e.c)| - 1] == e.c.node
    ensures e.c.Top? ==> Path(e.c) == []
  {
    hide Path;
    PathTail(d);
    PathTail(e.d);
    PathTail(e.c);
    ExchangePath(e);
    SwapSlots(Path(e.c), e.x, Path(e.d), e.y);
  }

  lemma PathTail(c: Ctx)
    ensures if c.Top? then Path(c) == [] else |Path(c)| > 0 && Path(c) == Path(c.up) + [c.node]
  {
  }

  lemma SwapSlots(a: seq<Node?>, x: Node?, b: seq<Node?>, y: Node?)
    ensures
      var p := a + [x] + (b + [y]);
      p[|a|] == x && p[|p| - 1] == y && p[|a| := y][|p| - 1 := x] == a + [y] + b + [x]
  {
  }

  lemma SunkExchange(t: Tree, e: Exchange)
    requires Focus(t, e.c, BeforeExchange(e)) && Before(e.d) == []
    requires Apart(e.c, BeforeExchange(e))
    ensures Sunk(e.c, BeforeExchange(e), AfterCtx(e), AfterTree(e))
  {
    hide Balanced, Fits, InOrder, Plug;
    ExchangeSound(e);
    ExchangeOrder(e);
    ExchangeApart(e);
    SunkNodes(e);
    LosesMiddle(Before(e.c) + InOrder(e.l), e.x, [e.y] + InOrder(e.r) + After(e.d) + After(e.c));
  }

  lemma SunkNodes(e: Exchange)
    requires CtxNodes(AfterCtx(e)) == CtxNodes(e.d) + {e.y} + Nodes(e.l) + CtxNodes(e.c)
    ensures CtxNodes(AfterCtx(e)) + Nodes(AfterTree(e)) == CtxNodes(e.c) + Nodes(BeforeExchange(e))
  {
    PlugNodes(e.d, Bin(Leaf, e.y, e.redY, e.r));
  }

  lemma SunkParts(c: Ctx, s: Tree, c': Ctx, s': Tree)
    requires s.Bin? && s'.Bin? && Sunk(c, s, c', s')
    ensures Sound(c', s') && Blacks(c') + BlackHeight(s') <= 63
    ensures CtxNodes(c') + Nodes(s') == CtxNodes(c) + Nodes(s)
    ensures Loses(InOrder(Plug(c, s)), s.node, InOrder(Plug(c', OnlyChild(s'))))
  {
  }

  lemma RemovedOrder(cmp: Comparator, node: Node, t: Tree, t': Tree)
    requires TotalOrder(cmp) && Sorted(cmp, InOrder(t)) && Loses(InOrder(t), node, InOrder(t'))
    ensures Sorted(cmp, InOrder(t')) && Nodes(t') == Nodes(t) - {node}
  {
    hide InOrder, Sorted, TotalOrder, Elements;
    var o := InOrder(t);
    var i :| 0 <= i < |o| && o[i] == node && InOrder(t') == o[..i] + o[i + 1..];
    assert o == o[..i] + [node] + o[i + 1..];
    SortedRemove(cmp, o[..i], node, o[i + 1..]);
    SortedOnce(cmp, o, i);
    InOrderNodes(t);
    InOrderNodes(t');
  }

  lemma SortedOnce(cmp: Comparator, o: seq<Node>, i: nat)
    requires TotalOrder(cmp) && Sorted(cmp, o) && i < |o|
    ensures Elements(o[..i] + o[i + 1..]) == Elements(o) - {o[i]}
  {
    hide TotalOrder, Sorted;
    var rest := o[..i] + o[i + 1..];
    forall n | n in rest
      ensures n in o && n != o[i]
    {
      var j :| 0 <= j < |rest| && rest[j] == n;
      var k := if j < i then j else j + 1;
      SortedDiffer(cmp, o, k, i);
      assert o[k] == n;
    }
    forall n | n in o && n != o[i]
      ensures n in rest
    {
      var k :| 0 <= k < |o| && o[k] == n;
      assert rest[if k < i then k else k - 1] == n;
    }
  }

  lemma SortedDiffer(cmp: Comparator, o: seq<Node>, k: nat, i: nat)
    requires TotalOrder(cmp) && Sorted(cmp, o) && k < |o| && i < |o| && k != i
    ensures o[k] != o[i]
  {
    hide TotalOrder;
    Less(cmp, o[i].key, o[i].key, o[i].key);
    assert if k < i then cmp(o[k].key, o[i].key) < 0 else cmp(o[i].key, o[k].key) < 0;
  }
}
