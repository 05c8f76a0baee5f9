/** data/htable.c: a hash table of planes.  Growing adds a plane without rehashing; shrinking folds the
    last plane into the one before it, slot by slot, without recomputing a hash. */
module HTable {
  import opened Keys
  import opened Powers

  class HNode {
    const key: Key
    var next: HNode?

    constructor (key: Key)
      ensures this.key == key
    {
      this.key := key;
      next := null;
    }
  }

  type Hash = Key -> nat

  /** Zero from the comparator is an equivalence, and equal keys hash alike. */
  ghost predicate Consistent(cmp: Comparator, hash: Hash) {
    && (forall a :: cmp(a, a) == 0)
    && (forall a, b :: cmp(a, b) == 0 ==> cmp(b, a) == 0 && hash(a) == hash(b))
    && (forall a, b, c :: cmp(a, b) == 0 && cmp(b, c) == 0 ==> cmp(a, c) == 0)
  }

  // ---------- sizes ----------

  /** HTABLE_PLANE_SIZE: 59 << p. */
  function Size(p: nat): (s: nat)
    ensures s > 0
  {
    59 * Pow2(p)
  }

  /** HTABLE_SLOT_COUNT. */
  function Slots(k: nat): nat {
    59 * (Pow2(k) - 1)
  }

  lemma {:induction false} SlotsSum(k: nat)
    ensures Slots(k + 1) == Slots(k) + Size(k) == 2 * Slots(k) + 59
  {
  }

  /** The first planes have 59, 118 and 236 slots, and each further one has as many as all before it and 59 more. */
  lemma PlaneSizes()
    ensures Size(0) == 59 && Size(1) == 118 && Size(2) == 236
    ensures Slots(0) == 0 && Slots(1) == 59 && Slots(2) == 177
    ensures forall k: nat :: Size(k) == Slots(k) + 59 && Slots(k + 1) == Slots(k) + Size(k)
  {
    forall k: nat
      ensures Size(k) == Slots(k) + 59 && Slots(k + 1) == Slots(k) + Size(k)
    {
      SlotsSum(k);
    }
  }

  /** A hash picks the slot that it leaves as remainder: 1000 goes to slot 56 of the first plane, 1000 - 16 * 59. */
  lemma SlotExamples()
    ensures SlotOf(58, 0) == 58 && SlotOf(59, 0) == 0 && SlotOf(1000, 0) == 56 && SlotOf(1000, 1) == 56
  {
    PlaneSizes();
  }

  lemma SlotPeriod(h: nat, p: nat)
    ensures h < Size(p) ==> SlotOf(h, p) == h
    ensures SlotOf(h + Size(p), p) == SlotOf(h, p)
  {
    hide Size;
    var m := Size(p);
    assert m * (h / m + 1) == m * (h / m) + m;
    ModUnique(h + m, m, h / m + 1, h % m);
    if h < m {
      ModUnique(h, m, 0, h);
    }
  }

  /** The fact shrinking rests on: reducing a slot index gives the slot of the smaller plane. */
  lemma FoldIndex(h: nat, m: nat)
    requires m > 0
    ensures (h % (2 * m)) % m == h % m
  {
    FoldQuotient(h, m, h / (2 * m), h % (2 * m));
  }

  lemma FoldQuotient(h: nat, m: nat, q: nat, r: nat)
    requires h == 2 * m * q + r && 0 <= r < 2 * m
    ensures r % m == h % m
  {
    var k := if r < m then 0 else 1;
    assert m * (2 * q + k) == 2 * m * q + m * k;
    ModUnique(h, m, 2 * q + k, r - m * k);
    ModUnique(r, m, k, r - m * k);
  }

  lemma ModUnique(h: nat, m: nat, k: nat, r: nat)
    requires 0 <= r < m && h == m * k + r
    ensures h % m == r
  {
    var d := k - h / m;
    assert m * d == h % m - r;
    assert d >= 1 ==> m * d >= m;
    assert d <= -1 ==> m * d + m <= 0;
  }

  // ---------- thresholds ----------

  ghost predicate LoadHigh(k: nat, n: nat) {
    n <= Slots(k)
  }

  ghost predicate LoadLow(k: nat, n: nat) {
    k >= 2 ==> n >= Slots(k) / 4
  }

  /** A grow step is taken only at the brim, ends the fullness and cannot make the table too empty. */
  lemma GrowSettles(k: nat, n: nat)
    requires LoadHigh(k, n) && n >= Slots(k)
    ensures n + 1 < Slots(k + 1)
    ensures LoadLow(k + 1, n) && LoadLow(k + 1, n + 1)
    ensures k >= 1 ==> !(n < Slots(k + 1) / 4)
  {
    SlotsSum(k);
  }

  /** One removal and one shrink step from a table inside both bounds end inside both bounds, and below
      the brim. */
  lemma ShrinkSettles(k: nat, n: nat)
    requires k >= 2 && n > 0 && LoadLow(k, n) && n - 1 < Slots(k) / 4
    ensures LoadLow(k - 1, n - 1) && n - 1 < Slots(k - 1)
    ensures k >= 3 ==> !(n - 1 < Slots(k - 1) / 4)
  {
    SlotsSum(k - 1);
    if k >= 3 {
      SlotsSum(k - 2);
    }
  }

  // ---------- the abstract table ----------

  ghost function Nth(s: seq<HNode>, k: nat): HNode? {
    if k < |s| then s[k] else null
  }

  ghost predicate NoDup(s: seq<HNode>) {
    forall j, k :: 0 <= j < k < |s| ==> s[j] != s[k]
  }

  /** A slot: index i of plane p. */
  datatype Loc = Loc(p: nat, i: nat)

  /** hash % HTABLE_PLANE_SIZE(p). */
  function SlotOf(h: nat, p: nat): (i: nat)
    ensures i < Size(p)
  {
    h % Size(p)
  }

  /** Where a node of plane p with this key must be. */
  ghost function Place(hash: Hash, key: Key, p: nat): Loc {
    Loc(p, SlotOf(hash(key), p))
  }

  /** The nodes of every slot in chain order, the plane of every node, and every `next` pointer. */
  datatype Shape = Shape(chains: map<Loc, seq<HNode>>, home: map<HNode, nat>, succ: map<HNode, HNode?>)

  /** The chain of slot l holds nodes that belong there, each once, linked in this order. */
  ghost predicate Housed(hash: Hash, s: Shape, l: Loc)
    requires l in s.chains
  {
    && NoDup(s.chains[l])
    && forall j: nat {:trigger s.chains[l][j]} {:trigger HousedAt(hash, s, l, j)} :: j < |s.chains[l]| ==>
      HousedAt(hash, s, l, j)
  }

  ghost predicate HousedAt(hash: Hash, s: Shape, l: Loc, j: nat)
    requires l in s.chains && j < |s.chains[l]|
  {
    var c := s.chains[l];
    && c[j] in s.home && s.home[c[j]] == l.p && Place(hash, c[j].key, l.p) == l
    && c[j] in s.succ && s.succ[c[j]] == Nth(c, j + 1)
  }

  /** A table of k planes: every slot has its chain, and every node sits in the chain that its hash and its
      plane dictate. */
  ghost predicate WellShaped(hash: Hash, k: nat, s: Shape) {
    && (forall l :: l in s.chains <==> l.p < k && l.i < Size(l.p))
    && (forall l :: l in s.chains ==> Housed(hash, s, l))
    && (forall m :: m in s.home ==> s.home[m] < k && m in s.chains[Place(hash, m.key, s.home[m])])
    && s.succ.Keys == s.home.Keys
  }

  ghost function Head(s: Shape, p: nat, i: nat): HNode? {
    if Loc(p, i) in s.chains then Nth(s.chains[Loc(p, i)], 0) else null
  }

  ghost function Succ(s: Shape, m: HNode): HNode? {
    if m in s.succ then s.succ[m] else null
  }

  /** Insertion in front of slot l. */
  ghost function Pushed(s: Shape, node: HNode, l: Loc): Shape
    requires l in s.chains
  {
    var c := s.chains[l];
    Shape(s.chains[l := [node] + c], s.home[node := l.p], s.succ[node := Nth(c, 0)])
  }

  /** Removal of the j-th node of slot l. */
  ghost function Dropped(s: Shape, l: Loc, j: nat): Shape
    requires l in s.chains && j < |s.chains[l]|
  {
    var c := s.chains[l];
    var succ := if j == 0 then s.succ else s.succ[c[j - 1] := Nth(c, j + 1)];
    Shape(s.chains[l := c[..j] + c[j + 1..]], s.home - {c[j]}, succ - {c[j]})
  }

  /** One more plane, all of its slots empty. */
  ghost function Grown(s: Shape, k: nat): Shape {
    s.(chains := s.chains + map i | 0 <= i < Size(k) :: Loc(k, i) := [])
  }

  /** The chain of slot `from` moves in front of the chain of slot `to`. */
  ghost function Folded(s: Shape, from: Loc, to: Loc): Shape
    requires from in s.chains && to in s.chains
  {
    var d, c := s.chains[from], s.chains[to];
    Shape(s.chains[from := []][to := d + c],
          map m | m in s.home :: if m in d then to.p else s.home[m],
          if d == [] then s.succ else s.succ[d[|d| - 1] := Nth(c, 0)])
  }

  /** The last plane is gone. */
  ghost function Cut(s: Shape, k: nat): Shape {
    s.(chains := map l | l in s.chains && l.p < k :: s.chains[l])
  }

  lemma PushedShape(hash: Hash, k: nat, s: Shape, node: HNode, l: Loc)
    requires WellShaped(hash, k, s) && l in s.chains && node !in s.home && Place(hash, node.key, l.p) == l
    ensures WellShaped(hash, k, Pushed(s, node, l))
  {
    hide SlotOf, Size, Housed;
    var s' := Pushed(s, node, l);
    forall j | j in s'.chains
      ensures Housed(hash, s', j)
    {
      PushedHoused(hash, s, node, l, j);
    }
  }

  lemma PushedHoused(hash: Hash, s: Shape, node: HNode, l: Loc, j: Loc)
    requires l in s.chains && Housed(hash, s, l) && j in s.chains && Housed(hash, s, j)
    requires node !in s.home && Place(hash, node.key, l.p) == l
    ensures Housed(hash, Pushed(s, node, l), j)
  {
    hide SlotOf, Size;
  }

  lemma PushedPointers(s: Shape, node: HNode, l: Loc)
    requires l in s.chains && node !in s.home
    ensures
      var s' := Pushed(s, node, l);
      && s'.home == s.home[node := l.p] && |s'.home| == |s.home| + 1
      && (forall p, i :: Head(s', p, i) == if Loc(p, i) == l then node else Head(s, p, i))
      && (forall m :: Succ(s', m) == if m == node then Head(s, l.p, l.i) else Succ(s, m))
  {
  }

  lemma DroppedPointers(hash: Hash, k: nat, s: Shape, l: Loc, j: nat)
    requires WellShaped(hash, k, s) && l in s.chains && j < |s.chains[l]|
    ensures
      var s', c := Dropped(s, l, j), s.chains[l];
      && l.p < k && l.i < Size(l.p) && c[j] in s.home && s'.home == s.home - {c[j]} && (j > 0 ==> c[j - 1] in s.home)
      && (forall p, i :: Head(s', p, i) == if j == 0 && Loc(p, i) == l then Succ(s, c[j]) else Head(s, p, i))
      && (forall m :: m in s'.home ==>
            Succ(s', m) == if j > 0 && m == c[j - 1] then Succ(s, c[j]) else Succ(s, m))
  {
    hide SlotOf, Size, WellShaped, Housed, Nth;
    SlotExists(hash, k, s, l);
    HousedSlot(hash, k, s, l, j);
    DroppedHeads(s, l, j);
    if j > 0 {
      HousedSlot(hash, k, s, l, j - 1);
    }
  }

  lemma DroppedHeads(s: Shape, l: Loc, j: nat)
    requires l in s.chains && j < |s.chains[l]|
    ensures forall p, i ::
              Head(Dropped(s, l, j), p, i) ==
              if j == 0 && Loc(p, i) == l then Nth(s.chains[l], 1) else Head(s, p, i)
  {
    assert Loc(l.p, l.i) == l;
  }

  lemma FoldedChains(s: Shape, from: Loc, to: Loc)
    requires from in s.chains && to in s.chains && from.p != to.p
    ensures
      var s' := Folded(s, from, to);
      && s'.chains.Keys == s.chains.Keys && s'.chains[from] == []
      && (forall l :: l in s.chains && l.p == from.p && l != from ==> s'.chains[l] == s.chains[l])
  {
  }

  lemma FoldedHeads(s: Shape, from: Loc, to: Loc)
    requires from in s.chains && to in s.chains && from.p != to.p
    ensures
      var s', d := Folded(s, from, to), s.chains[from];
      forall p, i :: Head(s', p, i) == if Loc(p, i) == from then null
                                       else if Loc(p, i) == to && d != [] then d[0]
                                       else Head(s, p, i)
  {
  }

  lemma FoldedSuccs(hash: Hash, k: nat, s: Shape, from: Loc, to: Loc)
    requires WellShaped(hash, k, s) && from in s.chains && to in s.chains && from.p != to.p
    ensures
      var s', d := Folded(s, from, to), s.chains[from];
      && (d != [] ==> d[|d| - 1] in s.home && Succ(s, d[|d| - 1]) == null)
      && (forall m :: Succ(s', m) == if d != [] && m == d[|d| - 1] then Head(s, to.p, to.i) else Succ(s, m))
  {
    hide SlotOf, Size, Housed;
    assert Loc(to.p, to.i) == to;
    var d := s.chains[from];
    if d != [] {
      HousedNode(hash, s, from, |d| - 1);
    }
  }

  lemma DroppedHoused(hash: Hash, s: Shape, l: Loc, j: nat, i: Loc)
    requires l in s.chains && Housed(hash, s, l) && j < |s.chains[l]| && i in s.chains && Housed(hash, s, i)
    ensures Housed(hash, Dropped(s, l, j), i)
  {
    hide SlotOf, Size, Place;
    if i == l {
      DroppedSelf(hash, s, l, j);
    } else {
      var m := s.chains[l][j];
      assert forall x :: 0 <= x < |s.chains[i]| ==> s.chains[i][x] != m;
    }
  }

  lemma WithoutDup(c: seq<HNode>, j: nat)
    requires NoDup(c) && j < |c|
    ensures NoDup(c[..j] + c[j + 1..])
  {
  }

  lemma WithoutAtIndex(c: seq<HNode>, j: nat, x: nat)
    requires NoDup(c) && j < |c| && x + 1 < |c|
    ensures
      var d := c[..j] + c[j + 1..];
      && d[x] == c[if x < j then x else x + 1] && d[x] != c[j]
      && (j > 0 && d[x] == c[j - 1] <==> j > 0 && x == j - 1)
      && Nth(d, x + 1) == Nth(c, if x + 1 < j then x + 1 else x + 2)
  {
    var d := c[..j] + c[j + 1..];
    if x + 1 < |d| {
      assert d[x + 1] == c[if x + 1 < j then x + 1 else x + 2];
    }
  }

  lemma DroppedSelf(hash: Hash, s: Shape, l: Loc, j: nat)
    requires l in s.chains && Housed(hash, s, l) && j < |s.chains[l]|
    ensures Housed(hash, Dropped(s, l, j), l)
  {
    hide SlotOf, Size, Place, NoDup, Nth;
    var c, s' := s.chains[l], Dropped(s, l, j);
    WithoutDup(c, j);
    forall x: nat | x < |c| - 1
      ensures HousedAt(hash, s', l, x)
    {
      var y := if x < j then x else x + 1;
      assert HousedAt(hash, s, l, y) && (j > 0 ==> HousedAt(hash, s, l, j - 1)) && HousedAt(hash, s, l, j);
      WithoutAtIndex(c, j, x);
    }
  }

  lemma DroppedShape(hash: Hash, k: nat, s: Shape, l: Loc, j: nat)
    requires WellShaped(hash, k, s) && l in s.chains && j < |s.chains[l]|
    ensures WellShaped(hash, k, Dropped(s, l, j))
    ensures s.chains[l][j] in s.home && |Dropped(s, l, j).home| == |s.home| - 1
  {
    hide SlotOf, Size, Housed, Dropped, Place;
    var s' := Dropped(s, l, j);
    DroppedKeys(hash, k, s, l, j);
    forall i | i in s'.chains
      ensures Housed(hash, s', i)
    {
      DroppedHoused(hash, s, l, j, i);
    }
    forall m | m in s'.home
      ensures Place(hash, m.key, s'.home[m]) in s'.chains && m in s'.chains[Place(hash, m.key, s'.home[m])]
    {
      DroppedMember(hash, k, s, l, j, m);
    }
  }

  lemma DroppedKeys(hash: Hash, k: nat, s: Shape, l: Loc, j: nat)
    requires WellShaped(hash, k, s) && l in s.chains && j < |s.chains[l]|
    ensures
      var s', m := Dropped(s, l, j), s.chains[l][j];
      && s'.chains.Keys == s.chains.Keys && m in s.home
      && s'.home == s.home - {m} && s'.succ.Keys == s'.home.Keys && |s'.home| == |s.home| - 1
  {
    hide SlotOf, Size, Housed, Place;
    var s', m := Dropped(s, l, j), s.chains[l][j];
    HousedNode(hash, s, l, j);
    assert s.home == s'.home[m := s.home[m]];
  }

  lemma DroppedMember(hash: Hash, k: nat, s: Shape, l: Loc, j: nat, m: HNode)
    requires WellShaped(hash, k, s) && l in s.chains && j < |s.chains[l]| && m in s.home && m != s.chains[l][j]
    ensures
      var s' := Dropped(s, l, j);
      && m in s'.home && s'.home[m] == s.home[m]
      && Place(hash, m.key, s.home[m]) in s'.chains && m in s'.chains[Place(hash, m.key, s.home[m])]
  {
    hide SlotOf, Size, Housed;
    var c := s.chains[l];
    assert m in s.chains[Place(hash, m.key, s.home[m])];
    if Place(hash, m.key, s.home[m]) == l {
      var x :| 0 <= x < |c| && c[x] == m;
      assert (c[..j] + c[j + 1..])[if x < j then x else x - 1] == m;
    }
  }

  lemma HousedNode(hash: Hash, s: Shape, l: Loc, j: nat)
    requires l in s.chains && Housed(hash, s, l) && j < |s.chains[l]|
    ensures
      var m := s.chains[l][j];
      && m in s.home && s.home[m] == l.p && Place(hash, m.key, l.p) == l
      && m in s.succ && s.succ[m] == Nth(s.chains[l], j + 1)
      && (j > 0 ==> s.chains[l][j - 1] in s.succ)
  {
  }

  lemma GrownShape(hash: Hash, k: nat, s: Shape)
    requires WellShaped(hash, k, s)
    ensures WellShaped(hash, k + 1, Grown(s, k))
  {
    hide SlotOf, Size;
    var s' := Grown(s, k);
    forall l
      ensures l in s'.chains <==> l.p < k + 1 && l.i < Size(l.p)
    {
      assert l == Loc(l.p, l.i);
    }
    forall l | l in s'.chains
      ensures Housed(hash, s', l)
    {
      assert l in s.chains ==> Housed(hash, s, l);
    }
  }

  lemma GrownPointers(s: Shape, k: nat)
    ensures
      var s' := Grown(s, k);
      && s'.home == s.home && (forall m :: Succ(s', m) == Succ(s, m))
      && forall p: nat, i: nat :: Head(s', p, i) == if p == k && i < Size(k) then null else Head(s, p, i)
  {
    hide Size;
  }

  /** Slot i of a plane folds into slot i % Size of the plane before it: every hash still agrees. */
  lemma FoldedShape(hash: Hash, k: nat, s: Shape, q: nat, i: nat)
    requires WellShaped(hash, k, s) && q + 1 < k && i < Size(q + 1)
    ensures
      var from, to := Loc(q + 1, i), Loc(q, i % Size(q));
      && from in s.chains && to in s.chains
      && WellShaped(hash, k, Folded(s, from, to)) && Folded(s, from, to).home.Keys == s.home.Keys
  {
    assert Size(q) > 0 && Size(q + 1) == 2 * Size(q);
    var from, to := Loc(q + 1, i), Loc(q, i % Size(q));
    assert from in s.chains && to in s.chains;
    forall h: nat | SlotOf(h, q + 1) == i
      ensures SlotOf(h, q) == to.i
    {
      FoldIndex(h, Size(q));
    }
    FoldedShapeAt(hash, k, s, from, to);
  }

  lemma FoldedHoused(hash: Hash, s: Shape, from: Loc, to: Loc, l: Loc)
    requires from in s.chains && to in s.chains && l in s.chains && from.p != to.p
    requires Housed(hash, s, from) && Housed(hash, s, to) && Housed(hash, s, l)
    requires forall h: nat :: SlotOf(h, from.p) == from.i ==> SlotOf(h, to.p) == to.i
    ensures Housed(hash, Folded(s, from, to), l)
  {
    hide SlotOf, Size, Housed, Place;
    if l == to {
      FoldedSelf(hash, s, from, to);
    } else if l != from {
      FoldedOther(hash, s, from, to, l);
    } else {
      assert Housed(hash, Folded(s, from, to), from) by {
        EmptyHoused(hash, Folded(s, from, to), from);
      }
    }
  }

  lemma EmptyHoused(hash: Hash, s: Shape, l: Loc)
    requires l in s.chains && s.chains[l] == []
    ensures Housed(hash, s, l)
  {
  }

  lemma FoldedSelf(hash: Hash, s: Shape, from: Loc, to: Loc)
    requires from in s.chains && to in s.chains && from.p != to.p
    requires Housed(hash, s, from) && Housed(hash, s, to)
    requires forall h: nat :: SlotOf(h, from.p) == from.i ==> SlotOf(h, to.p) == to.i
    ensures Housed(hash, Folded(s, from, to), to)
  {
    hide SlotOf, Size, NoDup, Nth, Place;
    var d, c, s' := s.chains[from], s.chains[to], Folded(s, from, to);
    FoldedApart(hash, s, from, to);
    JoinedDup(d, c);
    forall x: nat | x < |d + c|
      ensures HousedAt(hash, s', to, x)
    {
      assert if x < |d| then HousedAt(hash, s, from, x) else HousedAt(hash, s, to, x - |d|);
      assert d != [] ==> HousedAt(hash, s, from, |d| - 1);
      if x < |d| {
        FoldedPlace(hash, d[x].key, from, to);
      }
      JoinedIndex(d, c, x);
    }
  }

  lemma FoldedPlace(hash: Hash, key: Key, from: Loc, to: Loc)
    requires Place(hash, key, from.p) == from
    requires forall h: nat :: SlotOf(h, from.p) == from.i ==> SlotOf(h, to.p) == to.i
    ensures Place(hash, key, to.p) == to
  {
    hide SlotOf;
  }

  lemma FoldedApart(hash: Hash, s: Shape, from: Loc, to: Loc)
    requires from in s.chains && to in s.chains && from.p != to.p && Housed(hash, s, from) && Housed(hash, s, to)
    ensures forall x, y :: 0 <= x < |s.chains[from]| && 0 <= y < |s.chains[to]| ==> s.chains[from][x] != s.chains[to][y]
  {
    forall x, y | 0 <= x < |s.chains[from]| && 0 <= y < |s.chains[to]|
      ensures s.chains[from][x] != s.chains[to][y]
    {
      assert HousedAt(hash, s, from, x) && HousedAt(hash, s, to, y);
    }
  }

  lemma JoinedDup(d: seq<HNode>, c: seq<HNode>)
    requires NoDup(d) && NoDup(c) && forall x, y :: 0 <= x < |d| && 0 <= y < |c| ==> d[x] != c[y]
    ensures NoDup(d + c)
  {
  }

  /** The chain d with the chain c behind it: each node keeps what follows it, except that the last node of d is
      followed by c. */
  lemma JoinedIndex(d: seq<HNode>, c: seq<HNode>, x: nat)
    requires NoDup(d) && NoDup(c) && forall x, y :: 0 <= x < |d| && 0 <= y < |c| ==> d[x] != c[y]
    requires x < |d + c|
    ensures (d + c)[x] == if x < |d| then d[x] else c[x - |d|]
    ensures d != [] && (d + c)[x] == d[|d| - 1] <==> x == |d| - 1
    ensures Nth(d + c, x + 1) == if x == |d| - 1 then Nth(c, 0) else if x < |d| then Nth(d, x + 1)
                                 else Nth(c, x - |d| + 1)
  {
    if x + 1 < |d + c| {
      assert (d + c)[x + 1] == if x + 1 < |d| then d[x + 1] else c[x + 1 - |d|];
    }
  }

  lemma FoldedOther(hash: Hash, s: Shape, from: Loc, to: Loc, l: Loc)
    requires from in s.chains && to in s.chains && l in s.chains && from.p != to.p && l != from && l != to
    requires Housed(hash, s, from) && Housed(hash, s, l)
    ensures Housed(hash, Folded(s, from, to), l)
  {
    hide SlotOf, Size;
    assert forall x :: 0 <= x < |s.chains[l]| ==> s.chains[l][x] !in s.chains[from];
  }

  lemma FoldedShapeAt(hash: Hash, k: nat, s: Shape, from: Loc, to: Loc)
    requires WellShaped(hash, k, s) && from in s.chains && to in s.chains && from.p != to.p
    requires forall h: nat :: SlotOf(h, from.p) == from.i ==> SlotOf(h, to.p) == to.i
    ensures WellShaped(hash, k, Folded(s, from, to)) && Folded(s, from, to).home.Keys == s.home.Keys
  {
    hide SlotOf, Size, Housed, Folded, Place;
    var s' := Folded(s, from, to);
    FoldedKeys(hash, k, s, from, to);
    forall l | l in s'.chains
      ensures Housed(hash, s', l)
    {
      FoldedHoused(hash, s, from, to, l);
    }
    forall m | m in s'.home
      ensures s'.home[m] < k && Place(hash, m.key, s'.home[m]) in s'.chains
      ensures m in s'.chains[Place(hash, m.key, s'.home[m])]
    {
      FoldedMember(hash, k, s, from, to, m);
    }
  }

  lemma FoldedKeys(hash: Hash, k: nat, s: Shape, from: Loc, to: Loc)
    requires WellShaped(hash, k, s) && from in s.chains && to in s.chains
    ensures
      var s' := Folded(s, from, to);
      s'.chains.Keys == s.chains.Keys && s'.home.Keys == s'.succ.Keys == s.home.Keys
  {
    hide SlotOf, Size, Housed, Place;
    var d := s.chains[from];
    if d != [] {
      HousedNode(hash, s, from, |d| - 1);
    }
  }

  lemma FoldedMember(hash: Hash, k: nat, s: Shape, from: Loc, to: Loc, m: HNode)
    requires WellShaped(hash, k, s) && from in s.chains && to in s.chains && from.p != to.p && m in s.home
    requires forall h: nat :: SlotOf(h, from.p) == from.i ==> SlotOf(h, to.p) == to.i
    ensures
      var s' := Folded(s, from, to);
      && m in s'.home && s'.home[m] < k && Place(hash, m.key, s'.home[m]) in s'.chains
      && m in s'.chains[Place(hash, m.key, s'.home[m])]
  {
    hide SlotOf, Size, Housed;
    var d := s.chains[from];
    assert m in s.chains[Place(hash, m.key, s.home[m])];
    if m in d {
      var x :| 0 <= x < |d| && d[x] == m;
      HousedNode(hash, s, from, x);
    }
  }

  lemma CutShape(hash: Hash, k: nat, s: Shape)
    requires WellShaped(hash, k + 1, s) && forall l :: l in s.chains && l.p == k ==> s.chains[l] == []
    ensures WellShaped(hash, k, Cut(s, k))
  {
    hide SlotOf, Size;
    var s' := Cut(s, k);
    forall l | l in s'.chains
      ensures Housed(hash, s', l)
    {
      assert Housed(hash, s, l);
    }
    forall m | m in s'.home
      ensures s'.home[m] < k && m in s'.chains[Place(hash, m.key, s'.home[m])]
    {
      assert m in s.chains[Place(hash, m.key, s.home[m])];
    }
  }

  // ---------- the table on the heap ----------

  /** How a lookup says where the pointer to the node is stored: in a slot, or in another node. */
  datatype Ref = NoRef | SlotRef(plane: nat, index: nat) | NextRef(prev: HNode)

  /** The outcome of the allocations htable_grow asks for. */
  datatype Alloc = Granted | NoPlaneArray | NoPlane

  /** malloc and memset of a plane. */
  method NewPlane(size: nat) returns (plane: array<HNode?>)
    ensures fresh(plane) && plane.Length == size
    ensures forall i :: 0 <= i < size ==> plane[i] == null
  {
    plane := new HNode?[size](_ => null);
  }

  class Table {
    var planes: seq<array<HNode?>>
    var n: nat
    const cmp: Comparator
    const hash: Hash
    ghost var shape: Shape

    constructor (cmp: Comparator, hash: Hash)
      ensures Valid() && shape.home == map[] && planes == [] && n == 0 && this.cmp == cmp && this.hash == hash
    {
      this.cmp, this.hash := cmp, hash;
      planes, n := [], 0;
      shape := Shape(map[], map[], map[]);
    }

    ghost predicate PlanesOk()
      reads this
    {
      && (forall p :: 0 <= p < |planes| ==> planes[p].Length == Size(p))
      && (forall p, q :: 0 <= p < q < |planes| ==> planes[p] != planes[q])
    }

    /** The slot words and the `next` fields are those of the shape. */
    ghost predicate Mirrors()
      requires PlanesOk()
      reads this, planes, shape.home.Keys
    {
      && (forall m :: m in shape.home ==> m.next == Succ(shape, m))
      && (forall p, i :: 0 <= p < |planes| && 0 <= i < Size(p) ==> planes[p][i] == Head(shape, p, i))
    }

    ghost predicate Valid()
      reads this, planes, shape.home.Keys
    {
      PlanesOk() && WellShaped(hash, |planes|, shape) && n == |shape.home| && Mirrors()
    }

    /** Some node of the table equals the key. */
    ghost predicate Holds(key: Key)
      reads this
    {
      exists m :: m in shape.home && cmp(key, m.key) == 0
    }

    /** ref is where the pointer to the k-th node of slot l is stored. */
    ghost predicate IsRef(ref: Ref, l: Loc, k: nat)
      reads this
    {
      && l in shape.chains && k <= |shape.chains[l]|
      && ref == if k == 0 then SlotRef(l.p, l.i) else NextRef(shape.chains[l][k - 1])
    }

    /** HTABLE_TOO_FULL. */
    predicate TooFull()
      reads this
    {
      n >= Slots(|planes|)
    }

    /** HTABLE_TOO_EMPTY. */
    predicate TooEmpty()
      reads this
    {
      n < Slots(|planes|) / 4
    }

    /** htable_lookup_internal. */
    method LookupInternal(h: nat, key: Key) returns (node: HNode?, ref: Ref, ghost l: Loc, ghost k: nat)
      requires Valid() && Consistent(cmp, hash) && h == hash(key)
      ensures node == null <==> !Holds(key)
      ensures node != null ==>
                && cmp(key, node.key) == 0 && IsRef(ref, l, k)
                && k < |shape.chains[l]| && node == shape.chains[l][k]
    {
      hide SlotOf, Size, WellShaped, Head, Succ, Consistent;
      ref := NoRef;
      l, k := Loc(0, 0), 0;
      HomeBound(hash, |planes|, shape);
      for i := |planes| downto 0
        invariant forall m :: m in shape.home && shape.home[m] >= i ==> cmp(key, m.key) != 0
      {
        var plane := planes[i];
        var index := SlotOf(h, i);
        l, k := Loc(i, index), 0;
        SlotExists(hash, |planes|, shape, l);
        ghost var c := shape.chains[l];
        ref := SlotRef(i, index);
        node := plane[index];
        while node != null
          invariant 0 <= k <= |c| && node == Nth(c, k) && IsRef(ref, l, k)
          invariant forall j :: 0 <= j < k ==> cmp(key, c[j].key) != 0
          decreases |c| - k
        {
          HousedSlot(hash, |planes|, shape, l, k);
          if cmp(key, node.key) == 0 {
            return;
          }
          ref := NextRef(node);
          node := node.next;
          k := k + 1;
        }
        MissPlane(cmp, hash, |planes|, shape, key, i);
      }
      node := null;
    }

    /** htable_grow, both allocations granted. */
    method AddPlane()
      requires Valid()
      modifies this`planes, this`shape
      ensures |planes| == |old(planes)| + 1 && planes[..|planes| - 1] == old(planes)
      ensures fresh(planes[|planes| - 1]) && shape == Grown(old(shape), |old(planes)|)
      ensures Valid()
    {
      hide SlotOf, Size, WellShaped, Grown, Head, Succ;
      GrownShape(hash, |planes|, shape);
      GrownPointers(shape, |planes|);
      var plane := NewPlane(Size(|planes|));
      shape := Grown(shape, |planes|);
      planes := planes + [plane];
    }

    /** htable_grow: one more plane of empty slots; nothing is rehashed or moved. */
    method Grow(alloc: Alloc) returns (r: int)
      requires Valid()
      modifies this`planes, this`shape
      ensures r == if alloc.NoPlane? || (alloc.NoPlaneArray? && |old(planes)| == 0) then -1 else 0
      ensures !alloc.Granted? ==> planes == old(planes) && shape == old(shape)
      ensures alloc.Granted? ==> |planes| == |old(planes)| + 1 && planes[..|planes| - 1] == old(planes)
      ensures alloc.Granted? ==> fresh(planes[|planes| - 1]) && shape == Grown(old(shape), |old(planes)|)
      ensures shape.home == old(shape).home
      ensures Valid()
    {
      if alloc.NoPlaneArray? {
        return if |planes| > 0 then 0 else -1;
      }
      if alloc.NoPlane? {
        return -1;
      }
      AddPlane();
      r := 0;
    }

    /** The end of htable_insert_internal: the node goes to the front of its slot in the last plane. */
    method Push(node: HNode, h: nat)
      requires Valid() && |planes| > 0 && node !in shape.home && h == hash(node.key)
      modifies this`shape, this`n, planes[|planes| - 1], node`next
      ensures shape == Pushed(old(shape), node, Place(hash, node.key, |planes| - 1))
      ensures shape.home == old(shape).home[node := |planes| - 1]
      ensures n == old(n) + 1 && Valid()
    {
      hide SlotOf, Size, WellShaped, Pushed, Head, Succ;
      ghost var l := Place(hash, node.key, |planes| - 1);
      SlotExists(hash, |planes|, shape, l);
      PushedShape(hash, |planes|, shape, node, l);
      PushedPointers(shape, node, l);
      var plane := planes[|planes| - 1];
      var i := SlotOf(h, |planes| - 1);
      node.next := plane[i];
      plane[i] := node;
      n := n + 1;
      shape := Pushed(shape, node, l);
    }

    /** `*p_ref = node->next`. */
    method Unlink(node: HNode, ref: Ref, ghost l: Loc, ghost k: nat)
      requires Valid() && IsRef(ref, l, k) && k < |shape.chains[l]| && node == shape.chains[l][k]
      modifies this`shape, this`n, planes, shape.home.Keys`next
      ensures shape == Dropped(old(shape), l, k) && n == old(n) - 1 && Valid()
    {
      hide SlotOf, Size, WellShaped, Dropped, Head, Succ, Nth;
      ghost var s := Dropped(shape, l, k);
      DroppedShape(hash, |planes|, shape, l, k);
      DroppedPointers(hash, |planes|, shape, l, k);
      Store(ref, node.next, l, k, s);
      n := n - 1;
      shape := s;
    }

    /** `*ref = to`: exactly one pointer changes. */
    method Store(ref: Ref, to: HNode?, ghost l: Loc, ghost k: nat, ghost s: Shape)
      requires PlanesOk() && Mirrors() && IsRef(ref, l, k) && l.p < |planes| && l.i < Size(l.p)
      requires s.home.Keys <= shape.home.Keys && (k > 0 ==> shape.chains[l][k - 1] in shape.home)
      requires forall m :: m in s.home ==>
                 Succ(s, m) == if k > 0 && m == shape.chains[l][k - 1] then to else Succ(shape, m)
      requires forall p, i :: Head(s, p, i) == if k == 0 && Loc(p, i) == l then to else Head(shape, p, i)
      modifies planes, shape.home.Keys`next
      ensures forall m :: m in s.home ==> m.next == Succ(s, m)
      ensures forall p, i :: 0 <= p < |planes| && 0 <= i < Size(p) ==> planes[p][i] == Head(s, p, i)
    {
      hide Size, Succ, Head;
      match ref {
        case SlotRef(p, i) => planes[p][i] := to;
        case NextRef(q) => q.next := to;
      }
    }

    /** htable_insert_internal after the lookup: grow when full, then push. */
    method InsertNew(node: HNode, h: nat, alloc: Alloc) returns (r: int)
      requires Valid() && node !in shape.home && h == hash(node.key)
      modifies this`planes, this`shape, this`n, planes, node`next
      ensures r == if old(TooFull()) && (alloc.NoPlane? || (alloc.NoPlaneArray? && |old(planes)| == 0)) then -1 else 0
      ensures r == -1 ==> shape == old(shape) && planes == old(planes) && n == old(n)
      ensures r == 0 ==> |planes| > 0
      ensures r == 0 ==> shape.home == old(shape).home[node := |planes| - 1] && n == old(n) + 1
      ensures r == 0 ==> |planes| == |old(planes)| + (if old(TooFull()) && alloc.Granted? then 1 else 0)
      ensures forall a :: a in planes ==> a in old(planes) || fresh(a)
      ensures Valid()
    {
      hide WellShaped, PlanesOk, Size, SlotOf, Pushed, Grown;
      if TooFull() {
        var g := Grow(alloc);
        if g != 0 {
          return -1;
        }
      }
      Push(node, h);
      r := 0;
    }

    /** htable_insert_internal: htable_insert checks for an equal node first, htable_insert_unsafe does not. */
    method InsertInternal(node: HNode, skipLookup: bool, alloc: Alloc) returns (r: int)
      requires Valid() && Consistent(cmp, hash)
      requires skipLookup ==> node !in shape.home
      modifies this`planes, this`shape, this`n, planes, node`next
      ensures r == (if !skipLookup && old(Holds(node.key)) then -1
                    else if old(TooFull()) && (alloc.NoPlane? || (alloc.NoPlaneArray? && |old(planes)| == 0)) then -1
                    else 0)
      ensures r == -1 ==> shape == old(shape) && planes == old(planes) && n == old(n)
      ensures r == 0 ==> |planes| > 0
      ensures r == 0 ==> node !in old(shape).home && shape.home == old(shape).home[node := |planes| - 1]
      ensures r == 0 ==> n == old(n) + 1
      ensures r == 0 ==> |planes| == |old(planes)| + (if old(TooFull()) && alloc.Granted? then 1 else 0)
      ensures forall a :: a in planes ==> a in old(planes) || fresh(a)
      ensures Valid()
    {
      hide WellShaped, Size, PlanesOk, SlotOf, Slots;
      var h := hash(node.key);
      if !skipLookup {
        var found, _, _, _ := LookupInternal(h, node.key);
        if found != null {
          return -1;
        }
      }
      r := InsertNew(node, h, alloc);
    }

    /** The tail walk of htable_shrink: afterwards the chain d that starts at `first` runs on into `rest`. */
    method Join(first: HNode, rest: HNode?, ghost d: seq<HNode>, ghost last: HNode, ghost k: nat, ghost l: Loc)
      requires WellShaped(hash, k, shape) && l in shape.chains && d == shape.chains[l] && d != [] && first == d[0]
      requires forall m :: m in shape.home ==> m.next == Succ(shape, m)
      requires last == d[|d| - 1]
      modifies last`next
      ensures last.next == rest
    {
      hide WellShaped, Succ;
      var tail := first;
      ghost var x := 0;
      HousedSlot(hash, k, shape, l, x);
      while tail.next != null
        invariant last.next == old(last.next)
        invariant 0 <= x < |d| && tail == d[x] && tail in shape.home && Succ(shape, tail) == Nth(d, x + 1)
        decreases |d| - x
      {
        tail := tail.next;
        x := x + 1;
        HousedSlot(hash, k, shape, l, x);
      }
      tail.next := rest;
    }

    /** The slots that htable_shrink has yet to look at, and all slots of the planes that stay, mirror the
        shape; what is left in the slots already folded no longer matters. */
    ghost predicate Folding(q: nat, i: nat)
      reads this, planes, shape.home.Keys
    {
      && PlanesOk() && q + 2 == |planes| && i <= Size(q + 1)
      && WellShaped(hash, |planes|, shape)
      && (forall m :: m in shape.home ==> m.next == Succ(shape, m))
      && (forall l :: l in shape.chains && l.p == q + 1 && l.i < i ==> shape.chains[l] == [])
      && (forall p, j :: 0 <= p < |planes| && 0 <= j < Size(p) && (p == q + 1 ==> i <= j) ==>
            planes[p][j] == Head(shape, p, j))
    }

    /** The pointer updates of one iteration of the loop in htable_shrink. */
    method MoveChain(q: nat, i: nat, ghost from: Loc, ghost to: Loc)
      requires Folding(q, i) && i < Size(q + 1) && from == Loc(q + 1, i) && to == Loc(q, i % Size(q))
      requires from in shape.chains && to in shape.chains
      modifies planes[q], shape.home.Keys`next
      ensures
        var s' := Folded(shape, from, to);
        && (forall m :: m in shape.home ==> m.next == Succ(s', m))
        && (forall p, j :: 0 <= p < |planes| && 0 <= j < Size(p) && (p == q + 1 ==> i + 1 <= j) ==>
              planes[p][j] == Head(s', p, j))
    {
      hide WellShaped, Head, Succ, Folded, SlotOf, Size;
      SlotExists(hash, |planes|, shape, from);
      SlotExists(hash, |planes|, shape, to);
      FoldedHeads(shape, from, to);
      FoldedSuccs(hash, |planes|, shape, from, to);
      ghost var d := shape.chains[from];
      var plane, prevPlane, j := planes[q + 1], planes[q], i % Size(q);
      if plane[i] != null {
        if prevPlane[j] != null {
          Join(plane[i], prevPlane[j], d, d[|d| - 1], |planes|, from);
        }
        prevPlane[j] := plane[i];
      }
    }

    /** One iteration of the loop in htable_shrink. */
    method FoldSlot(q: nat, i: nat)
      requires Folding(q, i) && i < Size(q + 1)
      modifies this`shape, planes[q], shape.home.Keys`next
      ensures Folding(q, i + 1) && shape.home.Keys == old(shape).home.Keys
    {
      hide WellShaped, Head, Succ, Folded, SlotOf, Size;
      ghost var from, to := Loc(q + 1, i), Loc(q, i % Size(q));
      FoldedShape(hash, |planes|, shape, q, i);
      FoldedChains(shape, from, to);
      MoveChain(q, i, from, to);
      ghost var s := shape;
      shape := Folded(shape, from, to);
      forall l | l in shape.chains && l.p == q + 1 && l.i < i + 1
        ensures shape.chains[l] == []
      {
        if l != from {
          assert l in s.chains && l.i < i && shape.chains[l] == s.chains[l];
        }
      }
      forall p, j | 0 <= p < |planes| && 0 <= j < Size(p) && (p == q + 1 ==> i + 1 <= j)
        ensures planes[p][j] == Head(shape, p, j)
      {
      }
    }

    /** htable_free_all_planes. */
    method FreeAllPlanes()
      requires Valid() && shape.home == map[]
      modifies this`planes, this`shape
      ensures planes == [] && shape == Shape(map[], map[], map[]) && Valid()
    {
      planes := [];
      shape := Shape(map[], map[], map[]);
    }

    /** htable_shrink, the end: the last plane, empty by now, is given up. */
    method DropLast(q: nat)
      requires Folding(q, Size(q + 1)) && n == |shape.home.Keys|
      modifies this`planes, this`shape
      ensures planes == old(planes)[..q + 1] && shape.home.Keys == old(shape).home.Keys
      ensures Valid()
    {
      hide WellShaped, Head, Succ, Folded, SlotOf, Size;
      SameCount(Cut(shape, q + 1));
      SlotsFolded(hash, q + 1, shape);
      CutShape(hash, q + 1, shape);
      CutPointers(shape, q + 1);
      planes := planes[..q + 1];
      shape := Cut(shape, q + 1);
    }

    /** htable_shrink: the last plane is folded into the one before it; an empty table gives up all planes. */
    method Shrink()
      requires Valid()
      modifies this`planes, this`shape, planes, shape.home.Keys`next
      ensures |planes| == if n == 0 then 0 else if |old(planes)| <= 1 then |old(planes)| else |old(planes)| - 1
      ensures planes == old(planes)[..|planes|] && shape.home.Keys == old(shape).home.Keys
      ensures Valid()
    {
      hide WellShaped, Head, Succ, Folded, SlotOf, Size;
      if n == 0 {
        FreeAllPlanes();
        return;
      }
      if |planes| <= 1 {
        return;
      }
      SameCount(shape);
      var q := |planes| - 2;
      for i := 0 to Size(q + 1)
        invariant Folding(q, i) && shape.home.Keys == old(shape).home.Keys
        invariant planes == old(planes) && n == old(n)
      {
        FoldSlot(q, i);
      }
      DropLast(q);
    }

    /** htable_lookup. */
    method Lookup(key: Key) returns (node: HNode?)
      requires Valid() && Consistent(cmp, hash)
      ensures node == null <==> !Holds(key)
      ensures node != null ==> node in shape.home && cmp(key, node.key) == 0
    {
      hide WellShaped, SlotOf, Size, Head, Succ, Consistent;
      ghost var l, k;
      var ref;
      node, ref, l, k := LookupInternal(hash(key), key);
      if node != null {
        HousedSlot(hash, |planes|, shape, l, k);
      }
    }

    /** htable_remove. */
    method Remove(key: Key) returns (node: HNode?)
      requires Valid() && Consistent(cmp, hash)
      modifies this`planes, this`shape, this`n, planes, shape.home.Keys`next
      ensures node == null <==> !old(Holds(key))
      ensures node == null ==> shape == old(shape) && planes == old(planes) && n == old(n)
      ensures node != null ==> node in old(shape).home && cmp(key, node.key) == 0
      ensures node != null ==> shape.home.Keys == old(shape).home.Keys - {node} && n == old(n) - 1
      ensures node != null ==>
                |planes| == if n >= Slots(|old(planes)|) / 4 then |old(planes)|
                            else if n == 0 then 0 else if |old(planes)| <= 1 then |old(planes)| else |old(planes)| - 1
      ensures |planes| <= |old(planes)| && planes == old(planes)[..|planes|]
      ensures Valid()
    {
      hide WellShaped, PlanesOk, SlotOf, Size, Dropped;
      var h := hash(key);
      var found, ref, l, k := LookupInternal(h, key);
      node := found;
      if node == null {
        return;
      }
      DroppedHome(hash, |planes|, shape, l, k);
      Unlink(node, ref, l, k);
      if TooEmpty() {
        Shrink();
      }
    }
  }

  lemma DroppedHome(hash: Hash, k: nat, s: Shape, l: Loc, j: nat)
    requires WellShaped(hash, k, s) && l in s.chains && j < |s.chains[l]|
    ensures s.chains[l][j] in s.home && Dropped(s, l, j).home == s.home - {s.chains[l][j]}
  {
    HousedNode(hash, s, l, j);
  }

  lemma SameCount(s: Shape)
    ensures |s.home.Keys| == |s.home|
  {
  }

  lemma SlotsFolded(hash: Hash, k: nat, s: Shape)
    requires WellShaped(hash, k + 1, s)
    requires forall l :: l in s.chains && l.p == k && l.i < Size(k) ==> s.chains[l] == []
    ensures forall l :: l in s.chains && l.p == k ==> s.chains[l] == []
  {
  }

  lemma CutPointers(s: Shape, k: nat)
    ensures
      && Cut(s, k).home == s.home
      && (forall m :: Succ(Cut(s, k), m) == Succ(s, m))
      && (forall p: nat, i: nat :: p < k ==> Head(Cut(s, k), p, i) == Head(s, p, i))
  {
  }

  lemma SlotExists(hash: Hash, k: nat, s: Shape, l: Loc)
    requires WellShaped(hash, k, s)
    ensures l in s.chains <==> l.p < k && l.i < Size(l.p)
    ensures l in s.chains ==> Head(s, l.p, l.i) == Nth(s.chains[l], 0)
  {
  }

  lemma HomeBound(hash: Hash, k: nat, s: Shape)
    requires WellShaped(hash, k, s)
    ensures forall m :: m in s.home ==> s.home[m] < k
  {
  }

  /** A key missing from its slot of plane i is missing from the plane. */
  lemma MissPlane(cmp: Comparator, hash: Hash, k: nat, s: Shape, key: Key, i: nat)
    requires WellShaped(hash, k, s) && Consistent(cmp, hash) && Place(hash, key, i) in s.chains
    requires
      var c := s.chains[Place(hash, key, i)];
      forall j :: 0 <= j < |c| ==> cmp(key, c[j].key) != 0
    ensures forall m :: m in s.home && s.home[m] == i ==> cmp(key, m.key) != 0
  {
    hide SlotOf, Size, Housed;
    forall m | m in s.home && s.home[m] == i
      ensures cmp(key, m.key) != 0
    {
      assert m in s.chains[Place(hash, m.key, i)];
    }
  }

  lemma HousedSlot(hash: Hash, k: nat, s: Shape, l: Loc, j: nat)
    requires WellShaped(hash, k, s) && l in s.chains && j < |s.chains[l]|
    ensures
      var c := s.chains[l];
      && c[j] in s.home && s.home[c[j]] == l.p && Succ(s, c[j]) == Nth(c, j + 1)
      && Head(s, l.p, l.i) == Nth(c, 0)
      && (j > 0 ==> c[j - 1] in s.home && c[j - 1] != c[j])
  {
    HousedNode(hash, s, l, j);
    if j > 0 {
      HousedNode(hash, s, l, j - 1);
    }
  }
}
