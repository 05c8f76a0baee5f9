/** What callers of value_path and value_build_path rely on, in terms of path texts, arrays and keys. */
module PathPromises {
  import opened Keys
  import opened DictOrder
  import opened PathSyntax
  import opened PathLaws
  import opened ValuePath

  // ---------- reading ----------

  /** A path that splits in two is read in two steps. */
  lemma {:induction false} FollowConcat(st: State, v: Val?, a: seq<Token>, b: seq<Token>)
    requires v != null ==> v in st
    requires Closed(st)
    ensures Follow(st, v, a + b) == Follow(st, Follow(st, v, a), b)
  {
    if a == [] {
      assert a + b == b;
    } else if v != null {
      assert (a + b)[1..] == a[1..] + b;
      if Child(st[v], a[0]) != null {
        ChildInside(st, v, a[0]);
      }
      FollowConcat(st, Child(st[v], a[0]), a[1..], b);
    }
  }

  /** What the text of a bracketed index is split into. */
  lemma IndexText(digits: Key, fromEnd: bool)
    requires digits != [] && Decimals(digits) && Worth(digits) < 0x1_0000_0000_0000_0000
    ensures
      var path := Ascii("[") + ((if fromEnd then Ascii("-") else []) + (digits + Ascii("]")));
      Tokens(path) == [if fromEnd then FromEnd(Worth(digits)) else Index(Worth(digits))]
  {
    hide Bracketed, Tokens, Worth;
    var sign := if fromEnd then ['-' as int] else [];
    var inner := sign + (digits + ([']' as int] + []));
    IndexInside(sign, digits, []);
    SmallNumber(Worth(digits));
    BracketComponent(inner);
    assert Ascii("[") + ((if fromEnd then Ascii("-") else []) + (digits + Ascii("]"))) == ['[' as int] + inner;
  }

  lemma SmallNumber(n: nat)
    requires n < 0x1_0000_0000_0000_0000
    ensures n % 0x1_0000_0000_0000_0000 == n
  {
  }

  /** "[k]" is the item with index k, and "[-k]" the k-th item from the end: "[-1]" is the last one. */
  method ReadItem(root: Val, digits: Key, fromEnd: bool, ghost world: set<Val>) returns (v: Val?)
    requires Closed(Snapshot(world)) && root in world && root.content.Array?
    requires digits != [] && Decimals(digits) && Worth(digits) < 0x1_0000_0000_0000_0000
    ensures
      var items, k := root.content.items, Worth(digits);
      v == if fromEnd then (if 0 < k <= |items| then items[|items| - k] else null)
           else if k < |items| then items[k] else null
  {
    hide Tokens, Worth, Closed;
    IndexText(digits, fromEnd);
    v := Path(root, Ascii("[") + ((if fromEnd then Ascii("-") else []) + (digits + Ascii("]"))), world);
    ItemInside(Snapshot(world), root);
  }

  lemma ItemInside(st: State, v: Val)
    requires Closed(st) && v in st && st[v].Array?
    ensures forall i :: 0 <= i < |st[v].items| ==> st[v].items[i] in st
  {
    assert ContentClosed(st, st[v]);
  }

  /** The value of a key is that of the first entry with an equal key, if there is one. */
  lemma {:induction false} FindMeans(cmp: Order, entries: seq<Entry>, key: Key, i: nat)
    requires i <= |entries| && forall j :: 0 <= j < i ==> cmp(key, entries[j].key) != 0
    requires i < |entries| ==> cmp(key, entries[i].key) == 0
    ensures Find(cmp, entries, key) == if i < |entries| then entries[i].value else null
  {
    if i > 0 {
      FindMeans(cmp, entries[1..], key, i - 1);
    }
  }

  /** A name finds nothing in a value that is no dictionary, and an index nothing in one that is no array. */
  lemma WrongContainer(content: Content, token: Token)
    ensures token.Name? && !content.Dict? ==> Child(content, token) == null
    ensures !token.Name? && !content.Array? ==> Child(content, token) == null
    ensures token.Append? || token.Malformed? ==> Child(content, token) == null
  {
  }

  // ---------- building names ----------

  lemma {:induction false} FindOther(cmp: Order, entries: seq<Entry>, k: Key, v: Val, key: Key)
    ensures Find(cmp, entries + [Entry(k, v)], key) ==
            if Find(cmp, entries, key) != null then Find(cmp, entries, key)
            else if cmp(key, k) == 0 then v else null
  {
    if entries != [] {
      assert (entries + [Entry(k, v)])[1..] == entries[1..] + [Entry(k, v)];
      FindOther(cmp, entries[1..], k, v, key);
    }
  }

  /** The rounds of a path of one component. */
  lemma OneRound(token: Token, memory: nat -> bool, stops: seq<Stop>, first: Stop, last: Stop)
    requires Outcome([token], memory, stops, first, last) && first.v != null
    ensures Exact(first.st, first.v, token, last.st, last.v, memory(0), memory(1))
  {
    hide Exact;
    if |stops| == 2 {
      assert [token][..1] == [token];
      assert Round([token], memory, stops, 0);
    }
  }

  function ByBytes(): Order {
    DefaultCmpTotal();
    DefaultCmp
  }

  /** Compared byte by byte, the entries hold the values built for the names, and nothing else. */
  ghost predicate Keeps(entries: seq<Entry>, names: seq<Key>, vals: seq<Val>) {
    && |vals| == |names|
    && (forall c: Key :: Find(ByBytes(), entries, c) == null <==> c !in names)
    && (forall i :: 0 <= i < |names| ==> Find(ByBytes(), entries, names[i]) == vals[i])
    && (forall i, j :: 0 <= i < |names| && 0 <= j < |names| && vals[i] == vals[j] ==> names[i] == names[j])
  }

  ghost predicate Holds(content: Content, names: seq<Key>, vals: seq<Val>) {
    if content == Null(true) then names == [] && vals == []
    else content.Dict? && content.cmp == ByBytes() && Keeps(content.entries, names, vals)
  }

  lemma KeepsKnown(entries: seq<Entry>, names: seq<Key>, vals: seq<Val>, name: Key, v: Val)
    requires Keeps(entries, names, vals) && name in names && Find(ByBytes(), entries, name) == v
    ensures Keeps(entries, names + [name], vals + [v])
  {
    hide Find, ByBytes;
    var i :| 0 <= i < |names| && names[i] == name;
    assert vals[i] == v;
  }

  lemma KeepsNew(entries: seq<Entry>, names: seq<Key>, vals: seq<Val>, name: Key, v: Val)
    requires Keeps(entries, names, vals) && name !in names && v !in vals
    ensures Keeps(entries + [Entry(name, v)], names + [name], vals + [v])
  {
    hide Find;
    DefaultCmpTotal();
    var more := entries + [Entry(name, v)];
    forall key
      ensures Find(ByBytes(), more, key) ==
              if Find(ByBytes(), entries, key) != null then Find(ByBytes(), entries, key)
              else if key == name then v else null
    {
      FindOther(ByBytes(), entries, name, v, key);
    }
  }

  lemma KeepsNothing()
    ensures Keeps([], [], [])
  {
  }

  /** One more name on a root that was new, with enough memory. */
  lemma HoldsMore(st: State, root: Val, names: seq<Key>, vals: seq<Val>, name: Key, st': State, v: Val?)
    requires root in st && Closed(st) && Holds(st[root], names, vals) && (forall x :: x in vals ==> x in st)
    requires Exact(st, root, Name(name), st', v, true, true)
    ensures v != null && root in st' && Holds(st'[root], names + [name], vals + [v])
    ensures forall x :: x in st ==> x in st'
  {
    hide Keeps, Find;
    KeepsNothing();
    var c := Readied(st[root], Name(name), true);
    assert c.Dict? && c.cmp == ByBytes() && Keeps(c.entries, names, vals);
    FindsIn(c.entries, names, vals, name);
    if name in names {
      KeepsKnown(c.entries, names, vals, name, v);
    } else {
      var n: Val := v;
      KeepsNew(c.entries, names, vals, name, n);
    }
  }

  lemma FindsIn(entries: seq<Entry>, names: seq<Key>, vals: seq<Val>, name: Key)
    requires Keeps(entries, names, vals)
    ensures Find(ByBytes(), entries, name) == null <==> name !in names
  {
  }

  /** Building names on a new root, then reading a name: equal names share a value, different names never do, a name
      that was built finds its value, and any other name finds nothing. */
  method BuildNames(root: Val, names: seq<Key>, probe: Key, ghost world: set<Val>)
    returns (vals: seq<Val>, found: Val?, ghost world': set<Val>)
    requires Closed(Snapshot(world)) && root in world && root.content == Null(true)
    requires forall k :: k in names + [probe] ==> k != [] && Plain(k)
    modifies world
    ensures |vals| == |names|
    ensures forall i, j :: 0 <= i < |names| && 0 <= j < |names| ==> (vals[i] == vals[j] <==> names[i] == names[j])
    ensures forall i :: 0 <= i < |names| && probe == names[i] ==> found == vals[i]
    ensures probe !in names ==> found == null
  {
    hide Closed, Delivered, Outcome, Exact, Holds, Plain, Tokens;
    vals, world' := [], world;
    NoneHeld(root.content);
    assert names[..0] == [];
    for j := 0 to |names|
      invariant world <= world' && fresh(world' - world) && Closed(Snapshot(world'))
      invariant Holds(root.content, names[..j], vals) && forall x :: x in vals ==> x in world'
    {
      assert names[j] in names + [probe];
      ghost var st := Snapshot(world');
      var v;
      ghost var stops;
      v, world', stops := BuildPath(root, names[j], k => true, world');
      NameComponent(names[j]);
      DeliveredClosed(Job(st, root, Tokens(names[j]), true, true), Snapshot(world'), v);
      OneRound(Name(names[j]), k => true, stops, Stop(st, root), Stop(Snapshot(world'), v));
      HoldsMore(st, root, names[..j], vals, names[j], Snapshot(world'), v);
      assert names[..j + 1] == names[..j] + [names[j]];
      vals := vals + [v];
    }
    assert names[..|names|] == names;
    assert probe in names + [probe];
    NameComponent(probe);
    found := Path(root, probe, world');
    HeldMeans(Snapshot(world'), root, names, vals, probe);
  }

  lemma NoneHeld(content: Content)
    requires content == Null(true)
    ensures Holds(content, [], [])
  {
  }

  lemma DeliveredClosed(job: Job, st': State, v: Val?)
    requires Delivered(job, st', v)
    ensures Closed(st') && (v != null ==> v in st')
  {
  }

  lemma HeldMeans(st: State, root: Val, names: seq<Key>, vals: seq<Val>, probe: Key)
    requires Closed(st) && root in st && Holds(st[root], names, vals)
    ensures |vals| == |names|
    ensures forall i, j :: 0 <= i < |names| && 0 <= j < |names| ==> (vals[i] == vals[j] <==> names[i] == names[j])
    ensures forall i :: 0 <= i < |names| && probe == names[i] ==> Follow(st, root, [Name(probe)]) == vals[i]
    ensures probe !in names ==> Follow(st, root, [Name(probe)]) == null
  {
    assert ContentClosed(st, st[root]);
    assert [Name(probe)][1..] == [];
  }

  // ---------- appending ----------

  ghost predicate IsChild(c: Content, w: Val) {
    (c.Array? && w in c.items) || (c.Dict? && exists e :: e in c.entries && e.value == w)
  }

  /** No value contains itself: everything inside a value has a higher rank, as in a heap where values are stored
      inside each other. */
  ghost predicate Ranked(st: State, rank: map<Val, nat>) {
    && st.Keys <= rank.Keys
    && forall v, w :: v in st && w in st && IsChild(st[v], w) ==> rank[v] < rank[w]
  }

  lemma FoundInside(st: State, v: Val, token: Token)
    requires Closed(st) && v in st && Child(st[v], token) != null
    ensures Child(st[v], token) in st && IsChild(st[v], Child(st[v], token))
  {
    ChildInside(st, v, token);
    if token.Name? {
      var c := st[v];
      var i :| 0 <= i < |c.entries| && c.entries[i].value == Child(c, token);
      assert c.entries[i] in c.entries;
    }
  }

  /** Rounds of building keep the ranks, and give each new value one. */
  lemma ExactRanked(st: State, v: Val?, token: Token, st': State, r: Val?, okInit: bool, okAdd: bool,
                    rank: map<Val, nat>) returns (rank': map<Val, nat>)
    requires Closed(st) && Ranked(st, rank) && Exact(st, v, token, st', r, okInit, okAdd)
    ensures Ranked(st', rank')
  {
    rank' := if v != null && v in st && r != null && r !in st then rank[r := rank[v] + 1] else rank;
    forall a, b | a in st' && b in st' && IsChild(st'[a], b)
      ensures rank'[a] < rank'[b]
    {
      RankedPair(st, v, token, st', r, okInit, okAdd, rank, a, b);
    }
  }

  lemma RankedPair(st: State, v: Val?, token: Token, st': State, r: Val?, okInit: bool, okAdd: bool,
                   rank: map<Val, nat>, a: Val, b: Val)
    requires Closed(st) && Ranked(st, rank) && Exact(st, v, token, st', r, okInit, okAdd)
    requires a in st' && b in st' && IsChild(st'[a], b)
    ensures
      var rank' := if v != null && v in st && r != null && r !in st then rank[r := rank[v] + 1] else rank;
      a in rank' && b in rank' && rank'[a] < rank'[b]
  {
    if a in st {
      assert ContentClosed(st, st[a]);
      assert IsChild(st[a], b) ==> b in st;
    }
  }

  /** Following a path leads to higher ranks only, so a change at its end changes nothing on the way. */
  lemma {:induction false} FollowSame(st: State, st': State, rank: map<Val, nat>, v: Val, tokens: seq<Token>, end: Val)
    requires Closed(st) && Ranked(st, rank) && v in st && end in st && Follow(st, v, tokens) == end
    requires st.Keys <= st'.Keys && forall u :: u in st && u != end ==> st'[u] == st[u]
    ensures Follow(st', v, tokens) == end && rank[v] <= rank[end]
    decreases |tokens|
  {
    if tokens != [] {
      var w := Child(st[v], tokens[0]);
      FoundInside(st, v, tokens[0]);
      FollowSame(st, st', rank, w, tokens[1..], end);
    }
  }

  /** A round that is no append leads where the component now points, and breaks no address. */
  lemma ExactStays(st: State, v: Val, token: Token, st': State, r: Val, okInit: bool, okAdd: bool)
    requires Closed(st) && v in st && token != Append && Exact(st, v, token, st', r, okInit, okAdd)
    ensures Extends(st, st') && Quiet(st, st') && ChildOf(st', v, token) == r && r in st'
  {
    hide Find;
    var c := Readied(st[v], token, okInit);
    if Child(c, token) == null {
      NamedAfter(c, token, r);
    } else {
      NewHasNoChild(token);
      assert c == st[v] && st' == st;
      ChildInside(st, v, token);
    }
  }

  lemma NamedAfter(c: Content, token: Token, r: Val)
    requires token.Name? && c.Dict? && Child(c, token) == null
    ensures Child(WithNew(c, token, r), token) == r
  {
    FindAdded(c.cmp, c.entries, token.key, r);
  }

  lemma NewHasNoChild(token: Token)
    ensures Child(Readied(Null(true), token, true), token) == null
  {
  }

  lemma ExactClosed(st: State, v: Val?, token: Token, st': State, r: Val?, okInit: bool, okAdd: bool)
    requires Closed(st) && Exact(st, v, token, st', r, okInit, okAdd)
    ensures Closed(st') && (r != null ==> r in st') && st.Keys <= st'.Keys
  {
    if v != null && v in st {
      assert ContentClosed(st, st[v]);
      if Child(st[v], token) != null {
        ChildInside(st, v, token);
      }
    }
    forall u | u in st'
      ensures ContentClosed(st', st'[u])
    {
      if u in st {
        assert ContentClosed(st, st[u]);
      }
    }
  }

  /** After k rounds without an append the first k components lead to where the call stands. */
  lemma {:induction false} RoundsFollow(tokens: seq<Token>, memory: nat -> bool, stops: seq<Stop>, k: nat,
                                        rank: map<Val, nat>) returns (rank': map<Val, nat>)
    requires Played(tokens, memory, stops) && k <= |tokens| && NoAppend(tokens[..k]) && stops[k].v != null
    requires Closed(stops[0].st) && Ranked(stops[0].st, rank) && (stops[0].v != null ==> stops[0].v in stops[0].st)
    ensures stops[0].v != null && Closed(stops[k].st) && Ranked(stops[k].st, rank') && stops[k].v in stops[k].st
    ensures Follow(stops[k].st, stops[0].v, tokens[..k]) == stops[k].v
  {
    hide Closed, Extends, Ranked, Exact;
    if k == 0 {
      rank' := rank;
    } else {
      var s, s', token := stops[k - 1], stops[k], tokens[k - 1];
      assert Round(tokens, memory, stops, k - 1);
      assert tokens[..k] == tokens[..k - 1] + [token] && token in tokens[..k];
      assert NoAppend(tokens[..k - 1]);
      var between := RoundsFollow(tokens, memory, stops, k - 1, rank);
      ExactStays(s.st, s.v, token, s'.st, s'.v, memory(2 * (k - 1)), memory(2 * (k - 1) + 1));
      ExactClosed(s.st, s.v, token, s'.st, s'.v, memory(2 * (k - 1)), memory(2 * (k - 1) + 1));
      rank' := ExactRanked(s.st, s.v, token, s'.st, s'.v, memory(2 * (k - 1)), memory(2 * (k - 1) + 1), between);
      FollowGrows(s.st, s'.st, stops[0].v, tokens[..k - 1]);
      FollowSnoc(s'.st, stops[0].v, tokens[..k - 1], token);
    }
  }

  /** The last round of a call that ends with an append: where it stood, and that its array has grown by the result. */
  lemma AppendedLast(tokens: seq<Token>, memory: nat -> bool, stops: seq<Stop>, first: Stop, last: Stop,
                     rank: map<Val, nat>)
    requires Outcome(tokens + [Append], memory, stops, first, last) && last.v != null && NoAppend(tokens)
    requires Closed(first.st) && Ranked(first.st, rank) && (first.v != null ==> first.v in first.st)
    ensures Follow(last.st, first.v, tokens + [FromEnd(1)]) == last.v
  {
    hide Closed, Ranked, Exact;
    var k := |tokens|;
    var all := tokens + [Append];
    assert all[..k + 1] == all && all[..k] == tokens;
    assert Round(all, memory, stops, k);
    var s := stops[k];
    var rank' := RoundsFollow(all, memory, stops, k, rank);
    GrownByLast(s.st, s.v, last.st, last.v, memory(2 * k), memory(2 * k + 1));
    FollowedTo(s.st, first.v, tokens);
    FollowSame(s.st, last.st, rank', first.v, tokens, s.v);
    FollowSnoc(last.st, first.v, tokens, FromEnd(1));
  }

  lemma FollowedTo(st: State, v: Val?, tokens: seq<Token>)
    requires Follow(st, v, tokens) != null
    ensures v != null && v in st
  {
  }

  lemma GrownByLast(st: State, v: Val, st': State, r: Val, okInit: bool, okAdd: bool)
    requires v in st && Exact(st, v, Append, st', r, okInit, okAdd)
    ensures st.Keys <= st'.Keys && (forall u :: u in st && u != v ==> st'[u] == st[u])
    ensures r in st' && ChildOf(st', v, FromEnd(1)) == r
  {
  }

  lemma AppendText(p: Key)
    requires 0 !in p
    ensures Tokens(p + Ascii("[]")) == Tokens(p) + [Append]
    ensures Tokens(p + Ascii("[-1]")) == Tokens(p) + [FromEnd(1)]
  {
    hide Tokens, Bracketed;
    Splits(p, Ascii("[]"));
    Splits(p, Ascii("[-1]"));
    EmptyBrackets();
    LastBrackets();
  }

  lemma EmptyBrackets()
    ensures Tokens(Ascii("[]")) == [Append]
  {
    hide Tokens, Bracketed;
    IndexInside([], [], []);
    BracketComponent([']' as int]);
    assert [] + ([] + ([']' as int] + [])) == [']' as int];
    assert Ascii("[]") == ['[' as int] + [']' as int];
  }

  lemma LastBrackets()
    ensures Tokens(Ascii("[-1]")) == [FromEnd(1)]
  {
    hide Tokens;
    var one := ['1' as int];
    assert Worth(one) == 1 * Pow10(0) + Worth([]);
    IndexText(one, true);
    assert Ascii("[") + (Ascii("-") + (one + Ascii("]"))) == Ascii("[-1]");
  }

  /** value_build_path(p "[]") and then value_path(p "[-1]") give the same value. */
  method AppendThenLast(root: Val?, p: Key, memory: nat -> bool, ghost world: set<Val>, ghost rank: map<Val, nat>)
    returns (r: Val?, last: Val?)
    requires Closed(Snapshot(world)) && (root != null ==> root in world) && Ranked(Snapshot(world), rank)
    requires 0 !in p && NoAppend(Tokens(p))
    modifies world
    ensures r != null ==> last == r
  {
    hide Closed, Ranked, Delivered, Outcome, Tokens, NoAppend, Follow;
    ghost var st := Snapshot(world);
    ghost var world', stops;
    r, world', stops := BuildPath(root, p + Ascii("[]"), memory, world);
    last := null;
    if r != null {
      AppendedRead(p, memory, stops, Stop(st, root), Stop(Snapshot(world'), r), forall k: nat :: memory(k), rank);
      last := Path(root, p + Ascii("[-1]"), world');
    }
  }

  /** What reading finds after an append. */
  lemma AppendedRead(p: Key, memory: nat -> bool, stops: seq<Stop>, first: Stop, last: Stop, ample: bool,
                     rank: map<Val, nat>)
    requires 0 !in p && NoAppend(Tokens(p)) && last.v != null
    requires Outcome(Tokens(p + Ascii("[]")), memory, stops, first, last)
    requires Delivered(Job(first.st, first.v, Tokens(p + Ascii("[]")), true, ample), last.st, last.v)
    requires Closed(first.st) && Ranked(first.st, rank) && (first.v != null ==> first.v in first.st)
    ensures Closed(last.st) && Follow(last.st, first.v, Tokens(p + Ascii("[-1]"))) == last.v
  {
    hide Closed, Ranked, Delivered, Outcome, Tokens, NoAppend, Follow;
    AppendText(p);
    DeliveredClosed(Job(first.st, first.v, Tokens(p + Ascii("[]")), true, ample), last.st, last.v);
    AppendedLast(Tokens(p), memory, stops, first, last, rank);
  }

  // ---------- what building makes of values ----------

  /** Every dictionary that building has made compares keys byte by byte. */
  lemma {:induction false} DictionariesByBytes(tokens: seq<Token>, memory: nat -> bool, stops: seq<Stop>, k: nat,
                                               u: Val)
    requires Played(tokens, memory, stops) && k <= |tokens|
    requires u in stops[0].st ==> stops[0].st[u] == Null(true)
    ensures u in stops[k].st && stops[k].st[u].Dict? ==> stops[k].st[u].cmp == ByBytes()
    ensures u in stops[0].st ==> u in stops[k].st
  {
    if k > 0 {
      assert Round(tokens, memory, stops, k - 1);
      DictionariesByBytes(tokens, memory, stops, k - 1, u);
    }
  }

  /** An index on a value that is still new makes it an empty array and finds nothing there. */
  method IndexOnNew(root: Val, digits: Key, fromEnd: bool, ghost world: set<Val>) returns (v: Val?)
    requires Closed(Snapshot(world)) && root in world && root.content == Null(true)
    requires digits != [] && Decimals(digits) && Worth(digits) < 0x1_0000_0000_0000_0000
    modifies world
    ensures v == null && root.content == Array([])
  {
    hide Closed, Delivered, Outcome, Tokens, Worth;
    ghost var st := Snapshot(world);
    ghost var world', stops;
    IndexText(digits, fromEnd);
    v, world', stops :=
      BuildPath(root, Ascii("[") + ((if fromEnd then Ascii("-") else []) + (digits + Ascii("]"))), k => true, world);
    ghost var token := if fromEnd then FromEnd(Worth(digits)) else Index(Worth(digits));
    OneRound(token, k => true, stops, Stop(st, root), Stop(Snapshot(world'), v));
    assert Snapshot(world')[root] == root.content;
  }

  /** On a value that is neither new nor a container, a name and an append give NULL and change nothing. */
  method WrongKind(root: Val, name: Key, ghost world: set<Val>) returns (v: Val?, w: Val?)
    requires Closed(Snapshot(world)) && root in world && name != [] && Plain(name)
    requires root.content == Scalar || root.content == Null(false)
    modifies world
    ensures v == null && w == null && Snapshot(world) == old(Snapshot(world))
  {
    hide Closed, Delivered, Outcome, Tokens;
    ghost var st := Snapshot(world);
    ghost var world', stops, world'', stops';
    NameComponent(name);
    v, world', stops := BuildPath(root, name, k => true, world);
    OneRound(Name(name), k => true, stops, Stop(st, root), Stop(Snapshot(world'), v));
    assert Snapshot(world') == st;
    EmptyBrackets();
    w, world'', stops' := BuildPath(root, Ascii("[]"), k => true, world');
    OneRound(Append, k => true, stops', Stop(st, root), Stop(Snapshot(world''), w));
    assert Snapshot(world'') == st;
  }
}
