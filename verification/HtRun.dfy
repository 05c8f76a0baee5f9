/** Whole runs of data/htable.c, and its tear-down. */
module HtRun {
  import opened Keys
  import opened HTable
  import C = Cells

  type Op = C.Op<HNode>

  /** One call: the operation, and how the allocations it may need would turn out. */
  datatype Call = Call(op: Op, alloc: Alloc)

  datatype Outcome = Status(code: int) | Removed(node: HNode?)

  function KeyOf(n: HNode): Key {
    n.key
  }

  function Expected(cmp: Comparator, ops: seq<Op>, op: Op): Outcome {
    var cell := C.RunCell(cmp, KeyOf, C.OpKey(KeyOf, op), ops);
    match op
    case Insert(_) => Status(if cell.Absent? then 0 else -1)
    case Remove(_) => Removed(if cell.Absent? then null else cell.node)
  }

  /** The operations that took effect: an insertion that failed, for whatever reason, is left out. */
  function Effective(calls: seq<Call>, out: seq<Outcome>): seq<Op>
    requires |calls| == |out|
  {
    if calls == [] then []
    else
      var last := |calls| - 1;
      Effective(calls[..last], out[..last])
        + if calls[last].op.Insert? && out[last] == Status(-1) then [] else [calls[last].op]
  }

  /** A call does what the cells predict; only an insertion whose allocation fails may be refused. */
  ghost predicate Obeys(cmp: Comparator, past: seq<Op>, call: Call, r: Outcome) {
    r == Expected(cmp, past, call.op) || (call.op.Insert? && !call.alloc.Granted? && r == Status(-1))
  }

  ghost predicate AllGranted(calls: seq<Call>) {
    forall i :: 0 <= i < |calls| ==> calls[i].alloc.Granted?
  }

  /** Both load bounds. */
  ghost predicate Loaded(t: Table, granted: bool)
    reads t
  {
    LoadLow(|t.planes|, t.n) && (granted ==> LoadHigh(|t.planes|, t.n))
  }

  lemma LoadAfterInsert(k: nat, n: nat, grew: bool)
    requires LoadLow(k, n) && (grew ==> n >= Slots(k))
    ensures LoadLow(if grew then k + 1 else k, n + 1)
    ensures LoadHigh(k, n) && (grew <==> n >= Slots(k)) ==> LoadHigh(if grew then k + 1 else k, n + 1)
  {
    SlotsSum(k);
  }

  lemma LoadAfterRemove(k: nat, n: nat)
    requires LoadLow(k, n) && n > 0
    ensures
      var k' := if n - 1 >= Slots(k) / 4 then k else if n == 1 then 0 else if k <= 1 then k else k - 1;
      LoadLow(k', n - 1) && (LoadHigh(k, n) ==> LoadHigh(k', n - 1))
  {
    if k >= 2 && n > 1 && n - 1 < Slots(k) / 4 {
      ShrinkSettles(k, n);
    }
  }

  method ApplyInsert(t: Table, node: HNode, alloc: Alloc, ghost past: seq<Op>, ghost granted: bool) returns (code: int)
    requires t.Valid() && Consistent(t.cmp, t.hash) && C.Equivalence(t.cmp)
    requires C.Shows(t.cmp, KeyOf, t.shape.home.Keys, past)
    requires Loaded(t, granted) && (granted ==> alloc.Granted?)
    modifies t, t.planes, node`next
    ensures code == 0 || code == -1
    ensures Obeys(t.cmp, past, Call(C.Insert(node), alloc), Status(code))
    ensures C.Shows(t.cmp, KeyOf, t.shape.home.Keys, if code == 0 then past + [C.Insert(node)] else past)
    ensures t.shape.home.Keys <= old(t.shape).home.Keys + {node}
    ensures forall a :: a in t.planes ==> a in old(t.planes) || fresh(a)
    ensures Loaded(t, granted) && t.Valid()
  {
    hide C.Shows, C.RunCell, C.Equivalence, Consistent, WellShaped, Slots, Size, C.Has, LoadHigh, LoadLow;
    hide Table.Valid, Table.Holds, Table.Mirrors, Table.PlanesOk;
    ghost var nodes, k, n := t.shape.home.Keys, |t.planes|, t.n;
    C.ShowsHas(t.cmp, KeyOf, nodes, past, node.key);
    HoldsHas(t, node.key);
    code := t.InsertInternal(node, false, alloc);
    if code == 0 {
      LoadAfterInsert(k, n, |t.planes| > k);
      C.ShowsStep(t.cmp, KeyOf, nodes, past, C.Insert(node), t.shape.home.Keys);
    }
  }

  method ApplyRemove(t: Table, key: Key, ghost past: seq<Op>, ghost granted: bool) returns (m: HNode?)
    requires t.Valid() && Consistent(t.cmp, t.hash) && C.Equivalence(t.cmp)
    requires C.Shows(t.cmp, KeyOf, t.shape.home.Keys, past) && Loaded(t, granted)
    modifies t, t.planes, t.shape.home.Keys`next
    ensures Removed(m) == Expected(t.cmp, past, C.Remove(key))
    ensures C.Shows(t.cmp, KeyOf, t.shape.home.Keys, past + [C.Remove(key)])
    ensures t.shape.home.Keys <= old(t.shape).home.Keys
    ensures forall a :: a in t.planes ==> a in old(t.planes)
    ensures Loaded(t, granted) && t.Valid()
  {
    hide C.Shows, C.RunCell, C.Equivalence, Consistent, WellShaped, Slots, Size, C.Has, LoadHigh, LoadLow;
    hide Table.Valid, Table.Holds, Table.Mirrors, Table.PlanesOk;
    ghost var nodes, k, n := t.shape.home.Keys, |t.planes|, t.n;
    C.ShowsHas(t.cmp, KeyOf, nodes, past, key);
    HoldsHas(t, key);
    m := t.Remove(key);
    if m != null {
      assert m in nodes && t.cmp(key, KeyOf(m)) == 0;
      LoadAfterRemove(k, n);
    }
    C.ShowsStep(t.cmp, KeyOf, nodes, past, C.Remove(key), t.shape.home.Keys);
  }

  /** After any run a lookup returns exactly the content of the cell of its key. */
  method Find(t: Table, key: Key, ghost past: seq<Op>) returns (node: HNode?)
    requires t.Valid() && Consistent(t.cmp, t.hash) && C.Equivalence(t.cmp)
    requires C.Shows(t.cmp, KeyOf, t.shape.home.Keys, past)
    ensures node == (var cell := C.RunCell(t.cmp, KeyOf, key, past); if cell.Absent? then null else cell.node)
  {
    hide C.Shows, C.RunCell, C.Equivalence, Consistent, WellShaped, Slots, Size, C.Has;
    hide Table.Valid, Table.Holds, Table.Mirrors, Table.PlanesOk;
    C.ShowsHas(t.cmp, KeyOf, t.shape.home.Keys, past, key);
    HoldsHas(t, key);
    node := t.Lookup(key);
    assert node != null ==> t.cmp(key, KeyOf(node)) == 0;
  }

  lemma HoldsHas(t: Table, key: Key)
    ensures t.Holds(key) <==> C.Has(t.cmp, KeyOf, t.shape.home.Keys, key)
  {
    if t.Holds(key) {
      var m :| m in t.shape.home && t.cmp(key, m.key) == 0;
      assert t.cmp(key, KeyOf(m)) == 0;
    }
  }

  lemma EffectiveNext(calls: seq<Call>, out: seq<Outcome>, call: Call, r: Outcome)
    requires |calls| == |out|
    ensures Effective(calls + [call], out + [r])
         == Effective(calls, out) + if call.op.Insert? && r == Status(-1) then [] else [call.op]
  {
    assert (calls + [call])[..|calls|] == calls && (out + [r])[..|out|] == out;
  }

  ghost function Touched(calls: seq<Call>): set<HNode> {
    set i | 0 <= i < |calls| && calls[i].op.Insert? :: calls[i].op.node
  }

  method Apply(t: Table, call: Call, ghost past: seq<Op>, ghost granted: bool, ghost touched: set<HNode>)
    returns (r: Outcome)
    requires t.Valid() && Consistent(t.cmp, t.hash) && C.Equivalence(t.cmp)
    requires C.Shows(t.cmp, KeyOf, t.shape.home.Keys, past)
    requires Loaded(t, granted) && (granted ==> call.alloc.Granted?)
    requires t.shape.home.Keys <= touched && Touched([call]) <= touched
    modifies t, t.planes, touched`next
    ensures Obeys(t.cmp, past, call, r)
    ensures C.Shows(t.cmp, KeyOf, t.shape.home.Keys,
                    past + if call.op.Insert? && r == Status(-1) then [] else [call.op])
    ensures t.shape.home.Keys <= touched
    ensures forall a :: a in t.planes ==> a in old(t.planes) || fresh(a)
    ensures Loaded(t, granted) && t.Valid()
  {
    hide C.Shows, C.RunCell, C.Equivalence, Consistent, WellShaped, Slots, Size, Loaded;
    assert past + [] == past;
    match call.op {
      case Insert(node) =>
        assert [call][0].op.node == node;
        var code := ApplyInsert(t, node, call.alloc, past, granted);
        r := Status(code);
      case Remove(key) =>
        var m := ApplyRemove(t, key, past, granted);
        r := Removed(m);
    }
  }

  lemma TouchedCall(calls: seq<Call>, j: nat)
    requires j < |calls|
    ensures Touched([calls[j]]) <= Touched(calls)
  {
  }

  /** Any run on an initially empty table, whatever the allocations do: each call obeys the cells, the lower
      load bound always holds, and the upper one as long as every allocation was granted. */
  method Run(t: Table, calls: seq<Call>) returns (out: seq<Outcome>)
    requires t.Valid() && t.shape.home == map[] && t.n == 0 && t.planes == []
    requires Consistent(t.cmp, t.hash) && C.Equivalence(t.cmp)
    modifies t, Touched(calls)`next
    ensures |out| == |calls|
    ensures forall i :: 0 <= i < |calls| ==> Obeys(t.cmp, Effective(calls[..i], out[..i]), calls[i], out[i])
    ensures C.Shows(t.cmp, KeyOf, t.shape.home.Keys, Effective(calls, out))
    ensures Loaded(t, AllGranted(calls)) && t.Valid()
  {
    hide C.Shows, C.RunCell, C.Equivalence, Consistent, WellShaped, Slots, Size, Obeys, Loaded, Effective;
    hide Table.Valid, Table.Holds, Table.Mirrors, Table.PlanesOk, Touched;
    EffectiveNone();
    C.ShowsNone(t.cmp, KeyOf);
    ghost var granted := AllGranted(calls);
    LoadedEmpty(t);
    assert t.shape.home.Keys == {};
    out := [];
    ghost var past: seq<Op> := [];
    for j := 0 to |calls|
      invariant |out| == j && past == Effective(calls[..j], out)
      invariant forall i :: 0 <= i < j ==> Obeys(t.cmp, Effective(calls[..i], out[..i]), calls[i], out[i])
      invariant C.Shows(t.cmp, KeyOf, t.shape.home.Keys, past)
      invariant t.shape.home.Keys <= Touched(calls)
      invariant forall a :: a in t.planes ==> fresh(a)
      invariant Loaded(t, granted) && t.Valid()
    {
      var call := calls[j];
      TouchedCall(calls, j);
      forall p | 0 <= p < |t.planes|
        ensures t.planes[p] in t.planes && fresh(t.planes[p])
      {
        assert t.planes[p] in t.planes;
      }
      var r := Apply(t, call, past, granted, Touched(calls));
      EffectiveNext(calls[..j], out, call, r);
      past := past + if call.op.Insert? && r == Status(-1) then [] else [call.op];
      assert calls[..j + 1] == calls[..j] + [call];
      OutPrefixes(out, r);
      out := out + [r];
    }
    assert calls[..|calls|] == calls;
  }

  lemma EffectiveNone()
    ensures Effective([], []) == []
  {
  }

  lemma OutPrefixes(out: seq<Outcome>, r: Outcome)
    ensures forall i :: 0 <= i <= |out| ==> (out + [r])[..i] == out[..i]
    ensures out[..|out|] == out
  {
  }

  lemma LoadedEmpty(t: Table)
    requires t.n == 0 && t.planes == []
    ensures Loaded(t, true) && Loaded(t, false)
  {
  }

  // ---------- tear-down ----------

  /** The nodes that the loops of htable_fini have met before they reach slot i of plane p. */
  ghost predicate Met(t: Table, m: HNode, p: nat, i: nat)
    reads t
  {
    m in t.shape.home && (t.shape.home[m] < p || (t.shape.home[m] == p && SlotOf(t.hash(m.key), p) < i))
  }

  /** The destructor: it may do anything to the node.  What it leaves in `next` is the caller's choice, so that
      no step can rely on it. */
  method Destroy(node: HNode, left: HNode?)
    modifies node`next
    ensures node.next == left
  {
    node.next := left;
  }

  /** One slot of htable_fini: every node of the slot is handed to the destructor, once, and is left as
      the destructor leaves it. */
  method Drain(t: Table, p: nat, i: nat, left: HNode?) returns (out: seq<HNode>)
    requires t.PlanesOk() && WellShaped(t.hash, |t.planes|, t.shape) && p < |t.planes| && i < Size(p)
    requires forall m :: m in t.shape.home && !Met(t, m, p, i) ==> m.next == Succ(t.shape, m)
    requires t.planes[p][i] == Head(t.shape, p, i)
    modifies t.planes[p], t.shape.home.Keys`next
    ensures Loc(p, i) in t.shape.chains && out == t.shape.chains[Loc(p, i)]
    ensures forall j :: 0 <= j < t.planes[p].Length && j != i ==> t.planes[p][j] == old(t.planes[p][j])
    ensures forall m :: m in out ==> m.next == left
    ensures forall m :: m in t.shape.home && m !in out ==> m.next == old(m.next)
  {
    hide WellShaped, Size, Head, Succ, Met, Emptying, NoDup;
    SlotExists(t.hash, |t.planes|, t.shape, Loc(p, i));
    ghost var c := t.shape.chains[Loc(p, i)];
    SlotUnmet(t, p, i);
    EmptyingStart(c, left);
    out := DrainChain(t.planes[p], i, left, c);
  }

  /** The inner loop of htable_fini. */
  method DrainChain(plane: array<HNode?>, i: nat, left: HNode?, ghost c: seq<HNode>) returns (out: seq<HNode>)
    requires i < plane.Length && plane[i] == Nth(c, 0) && Emptying(c, 0, left)
    modifies plane, c`next
    ensures out == c && forall m :: m in out ==> m.next == left
    ensures forall j :: 0 <= j < plane.Length && j != i ==> plane[j] == old(plane[j])
  {
    hide Emptying;
    out := [];
    while plane[i] != null
      invariant |out| <= |c| && out == c[..|out|] && plane[i] == Nth(c, |out|)
      invariant forall j :: 0 <= j < plane.Length && j != i ==> plane[j] == old(plane[j])
      invariant Emptying(c, |out|, left)
      decreases |c| - |out|
    {
      var node := DrainNode(plane, i, left, c, |out|);
      out := out + [node];
    }
    EmptyingEnd(c, left);
  }

  /** The first k nodes of the chain are as the destructor left them, the others are still linked. */
  ghost predicate Emptying(c: seq<HNode>, k: nat, left: HNode?)
    reads c
  {
    && NoDup(c) && k <= |c|
    && (forall j :: 0 <= j < k ==> c[j].next == left)
    && forall j :: k <= j < |c| ==> c[j].next == Nth(c, j + 1)
  }

  lemma EmptyingStart(c: seq<HNode>, left: HNode?)
    requires NoDup(c) && forall j :: 0 <= j < |c| ==> c[j].next == Nth(c, j + 1)
    ensures Emptying(c, 0, left)
  {
  }

  lemma EmptyingEnd(c: seq<HNode>, left: HNode?)
    requires Emptying(c, |c|, left)
    ensures forall m :: m in c ==> m.next == left
  {
  }

  /** The inner loop of htable_fini, one node: the slot moves on before the destructor has the node. */
  method DrainNode(plane: array<HNode?>, i: nat, left: HNode?, ghost c: seq<HNode>, ghost k: nat)
    returns (node: HNode)
    requires i < plane.Length && k < |c| && plane[i] == c[k] && Emptying(c, k, left)
    modifies plane, {c[k]}`next
    ensures node == c[k] && plane[i] == Nth(c, k + 1) && Emptying(c, k + 1, left)
    ensures forall j :: 0 <= j < plane.Length && j != i ==> plane[j] == old(plane[j])
  {
    node := plane[i];
    assert node.next == Nth(c, k + 1);
    plane[i] := node.next;
    assert forall j :: 0 <= j < |c| && j != k ==> c[j] != node;
    Destroy(node, left);
  }

  /** The nodes of a slot that has not been drained are distinct, and none of them is destroyed yet. */
  lemma SlotUnmet(t: Table, p: nat, i: nat)
    requires WellShaped(t.hash, |t.planes|, t.shape) && Loc(p, i) in t.shape.chains
    ensures
      var c := t.shape.chains[Loc(p, i)];
      && NoDup(c)
      && forall k: nat :: k < |c| ==>
           c[k] in t.shape.home && !Met(t, c[k], p, i) && Succ(t.shape, c[k]) == Nth(c, k + 1)
  {
    hide SlotOf, Size;
    assert Housed(t.hash, t.shape, Loc(p, i));
  }

  /** One more slot drained. */
  lemma MetSlot(t: Table, out: seq<HNode>, c: seq<HNode>, p: nat, i: nat)
    requires WellShaped(t.hash, |t.planes|, t.shape) && p < |t.planes| && i < Size(p)
    requires Loc(p, i) in t.shape.chains && c == t.shape.chains[Loc(p, i)]
    requires NoDup(out) && forall m :: m in out <==> Met(t, m, p, i)
    ensures NoDup(out + c) && forall m :: m in out + c <==> Met(t, m, p, i + 1)
  {
    hide SlotOf, Size;
    assert Housed(t.hash, t.shape, Loc(p, i));
    forall m
      ensures m in c <==> m in t.shape.home && t.shape.home[m] == p && SlotOf(t.hash(m.key), p) == i
    {
      if m in t.shape.home && t.shape.home[m] == p {
        assert m in t.shape.chains[Place(t.hash, m.key, p)];
      }
    }
    forall j, k | 0 <= j < k < |out + c|
      ensures (out + c)[j] != (out + c)[k]
    {
      if j < |out| <= k {
        assert out[j] in out && c[k - |out|] in c;
      }
    }
  }

  lemma MetPlane(t: Table, p: nat)
    ensures forall m :: Met(t, m, p, Size(p)) <==> Met(t, m, p + 1, 0)
    ensures WellShaped(t.hash, p, t.shape) ==> forall m :: Met(t, m, p, 0) <==> m in t.shape.home
    ensures forall m :: !Met(t, m, 0, 0)
  {
  }

  /** The slots from (p, i) on and the nodes in them are still as the shape says. */
  ghost predicate Undrained(t: Table, p: nat, i: nat)
    reads t, t.planes, t.shape.home.Keys
  {
    && t.PlanesOk() && WellShaped(t.hash, |t.planes|, t.shape)
    && (forall m :: m in t.shape.home && !Met(t, m, p, i) ==> m.next == Succ(t.shape, m))
    && forall p', i' :: 0 <= p' < |t.planes| && 0 <= i' < Size(p') && (p' > p || (p' == p && i' >= i)) ==>
         t.planes[p'][i'] == Head(t.shape, p', i')
  }

  /** htable_fini: the destructor sees every node exactly once, and the table ends empty.  No step depends on
      a node after the destructor had it, and none writes to it: it ends as the destructor left it. */
  method Fini(t: Table, callDtor: bool, left: HNode?) returns (destroyed: seq<HNode>)
    requires t.Valid()
    modifies t, t.planes, t.shape.home.Keys`next
    ensures NoDup(destroyed)
    ensures forall m :: m in destroyed <==> callDtor && m in old(t.shape).home
    ensures forall m :: m in old(t.shape).home ==> m.next == if callDtor then left else old(m.next)
    ensures t.planes == [] && t.n == 0 && t.shape.home == map[] && t.Valid()
  {
    hide WellShaped, Size, Head, Succ, SlotOf;
    destroyed := [];
    MetPlane(t, 0);
    if callDtor && t.n > 0 {
      for p := 0 to |t.planes|
        invariant t.planes == old(t.planes) && t.shape == old(t.shape) && Undrained(t, p, 0)
        invariant NoDup(destroyed) && forall m :: m in destroyed <==> Met(t, m, p, 0)
        invariant forall m :: m in destroyed ==> m.next == left
      {
        for i := 0 to Size(p)
          invariant t.planes == old(t.planes) && t.shape == old(t.shape) && Undrained(t, p, i)
          invariant NoDup(destroyed) && forall m :: m in destroyed <==> Met(t, m, p, i)
          invariant forall m :: m in destroyed ==> m.next == left
        {
          destroyed := DrainOne(t, p, i, left, destroyed);
        }
        MetPlane(t, p);
      }
      MetPlane(t, |t.planes|);
    }
    t.n := 0;
    t.planes := [];
    t.shape := Shape(map[], map[], map[]);
    EmptyShape(t.hash);
  }

  /** htable_fini, one slot. */
  method DrainOne(t: Table, p: nat, i: nat, left: HNode?, destroyed0: seq<HNode>) returns (destroyed: seq<HNode>)
    requires Undrained(t, p, i) && p < |t.planes| && i < Size(p)
    requires NoDup(destroyed0) && forall m :: m in destroyed0 <==> Met(t, m, p, i)
    requires forall m :: m in destroyed0 ==> m.next == left
    modifies t.planes[p], t.shape.home.Keys`next
    ensures Undrained(t, p, i + 1)
    ensures NoDup(destroyed) && forall m :: m in destroyed <==> Met(t, m, p, i + 1)
    ensures forall m :: m in destroyed ==> m.next == left
  {
    hide WellShaped, Size, Head, Succ, SlotOf;
    var s := Drain(t, p, i, left);
    MetSlot(t, destroyed0, s, p, i);
    destroyed := destroyed0 + s;
    forall m | m in t.shape.home && !Met(t, m, p, i + 1)
      ensures m.next == Succ(t.shape, m)
    {
      assert m !in destroyed && m !in s;
    }
  }

  lemma EmptyShape(hash: Hash)
    ensures WellShaped(hash, 0, Shape(map[], map[], map[]))
  {
  }
}
