/** value_path and value_build_path of data/value.c on a heap of values. */
module ValuePath {
  import opened Keys
  import opened PathSyntax
  import opened DictOrder

  type Order = c: Comparator | TotalOrder(c) witness (a, b) => 0

  datatype Entry = Entry(key: Key, value: Val)

  /** What a VALUE holds.  A value that a path created and nobody initialized yet is Null(true). */
  datatype Content =
    | Null(isNew: bool)
    | Array(items: seq<Val>)
    | Dict(cmp: Order, entries: seq<Entry>)
    | Scalar

  class Val {
    var content: Content

    constructor ()
      ensures content == Null(true)
    {
      content := Null(true);
    }
  }

  // ---------- heaps as values ----------

  type State = map<Val, Content>

  ghost function Snapshot(world: set<Val>): State
    reads world
  {
    map v | v in world :: v.content
  }

  function Find(cmp: Order, entries: seq<Entry>, key: Key): (v: Val?)
    ensures v != null ==> exists i :: 0 <= i < |entries| && entries[i].value == v
  {
    if entries == [] then null
    else if cmp(key, entries[0].key) == 0 then entries[0].value
    else Find(cmp, entries[1..], key)
  }

  /** The value that one component of a path names inside a container. */
  function Child(content: Content, token: Token): Val? {
    match token
    case Name(key) => if content.Dict? then Find(content.cmp, content.entries, key) else null
    case Index(i) => if content.Array? && i < |content.items| then content.items[i] else null
    case FromEnd(i) =>
      if content.Array? && 0 < i <= |content.items| then content.items[|content.items| - i] else null
    case Append => null
    case Malformed => null
  }

  ghost function ChildOf(st: State, v: Val?, token: Token): Val? {
    if v != null && v in st then Child(st[v], token) else null
  }

  ghost function Follow(st: State, v: Val?, tokens: seq<Token>): Val? {
    if v == null || v !in st then null
    else if tokens == [] then v
    else Follow(st, Child(st[v], tokens[0]), tokens[1..])
  }

  ghost predicate Closed(st: State) {
    forall v :: v in st ==> ContentClosed(st, st[v])
  }

  ghost predicate ContentClosed(st: State, c: Content) {
    && (c.Array? ==> forall i :: 0 <= i < |c.items| ==> c.items[i] in st)
    && (c.Dict? ==> forall i :: 0 <= i < |c.entries| ==> c.entries[i].value in st)
  }

  // ---------- growth ----------

  /** What building may do to a value: initialize a new one, or add at the end of a container. */
  ghost predicate Grown(a: Content, b: Content) {
    || a == b
    || (a == Null(true) && (b.Array? || b.Dict? || b == Null(false)))
    || (a.Array? && b.Array? && a.items <= b.items)
    || (a.Dict? && b.Dict? && a.cmp == b.cmp && a.entries <= b.entries)
  }

  ghost predicate Extends(st: State, st': State) {
    forall v :: v in st ==> v in st' && Grown(st[v], st'[v])
  }

  /** No array that existed has grown. */
  ghost predicate Quiet(st: State, st': State) {
    forall v :: v in st && st[v].Array? ==> v in st' && st'[v] == st[v]
  }

  ghost predicate FromStart(tokens: seq<Token>) {
    forall t :: t in tokens ==> !t.FromEnd?
  }

  ghost predicate NoAppend(tokens: seq<Token>) {
    Token.Append !in tokens
  }

  lemma ExtendsTransitive(a: State, b: State, c: State)
    requires Extends(a, b) && Extends(b, c)
    ensures Extends(a, c)
    ensures Quiet(a, b) && Quiet(b, c) ==> Quiet(a, c)
  {
  }

  lemma {:induction false} FindGrows(cmp: Order, a: seq<Entry>, b: seq<Entry>, key: Key)
    requires a <= b && Find(cmp, a, key) != null
    ensures Find(cmp, b, key) == Find(cmp, a, key)
  {
    if cmp(key, a[0].key) != 0 {
      FindGrows(cmp, a[1..], b[1..], key);
    }
  }

  lemma {:induction false} FindAdded(cmp: Order, a: seq<Entry>, key: Key, v: Val)
    requires Find(cmp, a, key) == null
    ensures Find(cmp, a + [Entry(key, v)], key) == v
  {
    if a == [] {
      Less(cmp, key, key, key);
    } else {
      FindAdded(cmp, a[1..], key, v);
      assert (a + [Entry(key, v)])[1..] == a[1..] + [Entry(key, v)];
    }
  }

  lemma ChildGrows(a: Content, b: Content, token: Token)
    requires Grown(a, b) && Child(a, token) != null
    requires a.Array? && token.FromEnd? ==> a == b
    ensures Child(b, token) == Child(a, token)
  {
    if a.Dict? && token.Name? {
      FindGrows(a.cmp, a.entries, b.entries, token.key);
    }
  }

  /** Building never breaks an address: whatever a path without negative indices found, it still finds; and
      if no array grew, so does every path. */
  lemma {:induction false} FollowGrows(st: State, st': State, v: Val?, tokens: seq<Token>)
    requires Extends(st, st') && Follow(st, v, tokens) != null
    requires Quiet(st, st') || FromStart(tokens)
    ensures Follow(st', v, tokens) == Follow(st, v, tokens)
  {
    if tokens != [] {
      assert tokens[0] in tokens;
      ChildGrows(st[v], st'[v], tokens[0]);
      FollowGrows(st, st', Child(st[v], tokens[0]), tokens[1..]);
    }
  }

  lemma FollowCons(st: State, v: Val?, token: Token, rest: seq<Token>)
    ensures Follow(st, v, [token] + rest) == Follow(st, ChildOf(st, v, token), rest)
  {
    assert ([token] + rest)[1..] == rest;
  }

  lemma {:induction false} FollowSnoc(st: State, v: Val?, tokens: seq<Token>, token: Token)
    ensures Follow(st, v, tokens + [token]) ==
            var w := ChildOf(st, Follow(st, v, tokens), token); if w != null && w in st then w else null
  {
    if v != null && v in st && tokens != [] {
      FollowSnoc(st, Child(st[v], tokens[0]), tokens[1..], token);
      assert (tokens + [token])[1..] == tokens[1..] + [token];
    }
  }

  // ---------- when building succeeds ----------

  /** Building can pass this component: it is there, or it can be made. */
  ghost predicate Accepts(content: Content, token: Token) {
    match token
    case Name(_) => content.Dict? || content == Null(true)
    case Append => content.Array? || content == Null(true)
    case _ => Child(content, token) != null
  }

  /** Components that a new value can always be made to have. */
  ghost predicate Makeable(tokens: seq<Token>) {
    forall t :: t in tokens ==> t.Name? || t.Append?
  }

  ghost predicate Buildable(st: State, v: Val?, tokens: seq<Token>) {
    v != null && v in st &&
    (tokens == [] ||
     (Accepts(st[v], tokens[0]) &&
      var w := Child(st[v], tokens[0]);
      if w != null then Buildable(st, w, tokens[1..]) else Makeable(tokens[1..])))
  }

  lemma BuildableNew(st: State, v: Val, tokens: seq<Token>)
    requires v in st && st[v] == Null(true)
    ensures Buildable(st, v, tokens) <==> Makeable(tokens)
  {
    if tokens != [] {
      assert tokens == [tokens[0]] + tokens[1..];
    }
  }

  lemma BuildableCons(st: State, v: Val?, token: Token, rest: seq<Token>)
    ensures Buildable(st, v, [token] + rest) <==>
            && v != null && v in st && Accepts(st[v], token)
            && var w := ChildOf(st, v, token); if w != null then Buildable(st, w, rest) else Makeable(rest)
  {
    assert ([token] + rest)[1..] == rest;
  }

  // ---------- one component ----------

  /** What one round of the interpreter does in building mode; `ample` says that every allocation succeeds. */
  ghost predicate Built(st: State, v: Val?, token: Token, st': State, r: Val?, ample: bool) {
    var w := ChildOf(st, v, token);
    && Closed(st') && Extends(st, st') && (r != null ==> r in st')
    && (w != null ==> st' == st && r == w)
    && (r != null && w == null ==> st'[r] == Null(true) && r !in st)
    && (r != null && token != Append ==> Quiet(st, st') && ChildOf(st', v, token) == r)
    && (forall u :: u in st && u != v ==> st'[u] == st[u])
    && (r != null && token == Append ==>
          v != null && v in st && st'[v] == Array((if st[v].Array? then st[v].items else []) + [r]))
    && (ample ==> (r != null <==> v != null && v in st && Accepts(st[v], token)))
  }

  ghost function Made(st: State, v: Val, content: Content, n: Val): State {
    st[v := content][n := Null(true)]
  }

  /** What an existing value has become by the time a component is looked up in it: a value that is still new is
      made the container that the component needs, unless memory is short or the component is malformed. */
  ghost function Readied(c: Content, token: Token, okInit: bool): Content {
    DefaultCmpTotal();
    if c != Null(true) || token.Malformed? then c
    else if !okInit then Null(false)
    else if token.Name? then Dict(DefaultCmp, [])
    else Array([])
  }

  /** Containers that take a new value for a component. */
  ghost predicate Takes(c: Content, token: Token) {
    (c.Dict? && token.Name?) || (c.Array? && token.Append?)
  }

  ghost function WithNew(c: Content, token: Token, n: Val): Content
    requires Takes(c, token)
  {
    if token.Name? then Dict(c.cmp, c.entries + [Entry(token.key, n)]) else Array(c.items + [n])
  }

  /** One round in building mode, to the last detail: the heap afterwards and the result. */
  ghost predicate Exact(st: State, v: Val?, token: Token, st': State, r: Val?, okInit: bool, okAdd: bool) {
    if v == null || v !in st then st' == st && r == null
    else
      var c := Readied(st[v], token, okInit);
      if Child(c, token) != null then r == Child(c, token) && st' == st[v := c]
      else if Takes(c, token) && okAdd then r != null && r !in st && st' == Made(st, v, WithNew(c, token, r), r)
      else r == null && st' == st[v := c]
  }

  /** Where a call stands between two rounds. */
  datatype Stop = Stop(st: State, v: Val?)

  /** The rounds for the components of `tokens`, one after the other. */
  ghost predicate Played(tokens: seq<Token>, memory: nat -> bool, stops: seq<Stop>) {
    && |stops| == |tokens| + 1
    && forall k: nat :: k < |tokens| ==> Round(tokens, memory, stops, k)
  }

  ghost predicate Round(tokens: seq<Token>, memory: nat -> bool, stops: seq<Stop>, k: nat)
    requires k < |tokens| && |stops| == |tokens| + 1
  {
    && stops[k].v != null
    && Exact(stops[k].st, stops[k].v, tokens[k], stops[k + 1].st, stops[k + 1].v, memory(2 * k), memory(2 * k + 1))
  }

  /** A whole call in building mode: all rounds, or the rounds up to the first that gives NULL. */
  ghost predicate Outcome(tokens: seq<Token>, memory: nat -> bool, stops: seq<Stop>, first: Stop, last: Stop) {
    && 0 < |stops| <= |tokens| + 1 && stops[0] == first && stops[|stops| - 1] == last
    && Played(tokens[..|stops| - 1], memory, stops) && (|stops| <= |tokens| ==> last.v == null)
  }

  /** Only v changed, and one new value exists. */
  lemma MakeChild(st: State, v: Val, ready: Content, token: Token, n: Val, added: Content)
    requires Closed(st) && v in st && n !in st && Child(st[v], token) == null
    requires || ready == st[v]
             || (st[v] == Null(true) && (ready == Array([]) || (ready.Dict? && ready.entries == [])))
    requires (token.Name? && ready.Dict? && added == Dict(ready.cmp, ready.entries + [Entry(token.key, n)]))
          || (token.Append? && ready.Array? && added == Array(ready.items + [n]))
    ensures Built(st, v, token, Made(st, v, added, n), n, true)
  {
    var st' := Made(st, v, added, n);
    if token.Name? {
      assert Find(ready.cmp, ready.entries, token.key) == null;
      FindAdded(ready.cmp, ready.entries, token.key, n);
    }
    forall u | u in st'
      ensures ContentClosed(st', st'[u])
    {
      if u in st {
        assert ContentClosed(st, st[u]);
      }
    }
  }

  /** Building stops: at most the initialization of v has happened. */
  lemma MakeNothing(st: State, v: Val, ready: Content, token: Token, ample: bool)
    requires Closed(st) && v in st && Child(st[v], token) == null
    requires || ready == st[v]
             || (st[v] == Null(true)
                 && (ready == Null(false) || ready == Array([]) || (ready.Dict? && ready.entries == [])))
    requires ample ==> !Accepts(st[v], token)
    ensures Built(st, v, token, st[v := ready], null, ample)
  {
    var st' := st[v := ready];
    forall u | u in st'
      ensures ContentClosed(st', st'[u])
    {
      assert ContentClosed(st, st[u]);
    }
  }

  lemma ChildInside(st: State, v: Val, token: Token)
    requires Closed(st) && v in st && Child(st[v], token) != null
    ensures Child(st[v], token) in st
  {
    assert ContentClosed(st, st[v]);
  }

  // ---------- the accessors ----------

  function IsNew(v: Val?): bool
    reads v
  {
    v != null && v.content == Null(true)
  }

  /** value_init_array and value_init_dict: a failed allocation leaves a null value that is not new. */
  method Init(v: Val, empty: Content, ok: bool) returns (status: int)
    requires empty.Array? || empty.Dict?
    modifies v
    ensures status == (if ok then 0 else -1) && v.content == if ok then empty else Null(false)
  {
    v.content := if ok then empty else Null(false);
    status := if ok then 0 else -1;
  }

  /** value_array_get. */
  function ArrayGet(v: Val?, index: nat): Val?
    reads v
  {
    if v != null && v.content.Array? && index < |v.content.items| then v.content.items[index] else null
  }

  function ArraySize(v: Val?): nat
    reads v
  {
    if v != null && v.content.Array? then |v.content.items| else 0
  }

  /** value_array_append. */
  method ArrayAppend(v: Val?, ok: bool) returns (n: Val?)
    modifies if v == null then {} else {v}
    ensures n != null <==> v != null && old(v.content).Array? && ok
    ensures n != null ==> fresh(n) && n.content == Null(true) && v.content == Array(old(v.content).items + [n])
    ensures n == null ==> v == null || v.content == old(v.content)
  {
    if v == null || !v.content.Array? || !ok {
      return null;
    }
    n := new Val();
    v.content := Array(v.content.items + [n]);
  }

  /** value_dict_get_. */
  function DictGet(v: Val?, key: Key): Val?
    reads v
  {
    if v != null && v.content.Dict? then Find(v.content.cmp, v.content.entries, key) else null
  }

  /** value_dict_get_or_add_. */
  method DictGetOrAdd(v: Val?, key: Key, ok: bool) returns (n: Val?)
    modifies if v == null then {} else {v}
    ensures n != null <==> v != null && old(v.content).Dict? && (old(DictGet(v, key)) != null || ok)
    ensures old(DictGet(v, key)) != null ==> n == old(DictGet(v, key))
    ensures n != null && old(DictGet(v, key)) == null ==>
              && fresh(n) && n.content == Null(true)
              && v.content == Dict(old(v.content).cmp, old(v.content).entries + [Entry(key, n)])
    ensures n == null || old(DictGet(v, key)) != null ==> v == null || v.content == old(v.content)
  {
    if v == null || !v.content.Dict? {
      return null;
    }
    n := DictGet(v, key);
    if n != null || !ok {
      return;
    }
    n := new Val();
    v.content := Dict(v.content.cmp, v.content.entries + [Entry(key, n)]);
  }

  // ---------- the interpreter ----------

  method SkipSlashes(path: Key, beg: nat) returns (i: nat)
    requires beg <= |path|
    ensures i == Skipped(path, beg)
  {
    i := beg;
    while CharAt(path, i) == SLASH
      invariant beg <= i <= |path| && Skipped(path, i) == Skipped(path, beg)
      decreases |path| - i
    {
      i := i + 1;
    }
  }

  method ScanToken(path: Key, beg: nat) returns (end: nat)
    requires beg < |path| && path[beg] != 0 && path[beg] != SLASH
    ensures end == TokenEnd(path, beg)
  {
    end := beg;
    if path[end] == OPEN {
      end := end + 1;
    }
    ghost var start := end;
    while CharAt(path, end) != 0 && CharAt(path, end) != SLASH && CharAt(path, end) != OPEN
      invariant end <= |path| && Scanned(path, end) == Scanned(path, start)
      decreases |path| - end
    {
      end := end + 1;
    }
  }

  /** The digits from p on; something that is no digit follows them before `end`. */
  method ParseDigits(path: Key, beg: nat, end: nat) returns (p: nat, index: nat)
    requires beg < end <= |path| && path[end - 1] == CLOSE
    ensures beg <= p < end && DigitRun(path[beg..end]) == p - beg
    ensures AllDigits(path[beg..p]) && index == Number(path[beg..p])
  {
    hide DigitRun, Number;
    p, index := beg, 0;
    NumberNone();
    assert path[beg..beg] == [];
    while IsDigit(CharAt(path, p))
      invariant beg <= p < end && AllDigits(path[beg..p]) && index == Number(path[beg..p])
      decreases end - p
    {
      NumberSnoc(path[beg..p], path[p]);
      assert path[beg..p + 1] == path[beg..p] + [path[p]];
      index := (index * 10 + (path[p] - ZERO)) % SIZE_LIMIT;
      p := p + 1;
    }
    assert path[beg..end] == path[beg..p] + path[p..end];
    DigitRunEnds(path[beg..p], path[p..end]);
  }

  /** The component path[beg..end] after its opening bracket: sign and index, or a syntax error. */
  method ParseIndex(path: Key, beg: nat, end: nat) returns (ok: bool, sign: int, index: nat)
    requires beg < end <= |path| && path[end - 1] == CLOSE
    ensures
      var token := Bracketed(path[beg..end]);
      if !ok then token == Malformed
      else if sign < 0 then token == FromEnd(index)
      else if sign == 0 then token == Append
      else token == Index(index)
  {
    hide DigitRun, Number;
    ghost var inner := path[beg..end];
    var p := beg;
    if path[p] == MINUS || path[p] == PLUS {
      sign := if path[p] == PLUS then 1 else -1;
      p := p + 1;
    } else {
      sign := if end - 1 - p > 0 then 1 else 0;
    }
    ghost var start, rest := p, path[p..end];
    assert rest == if start == beg then inner else inner[1..];
    p, index := ParseDigits(path, p, end);
    assert rest[p - start] == path[p] && rest[..p - start] == path[start..p];
    ok := path[p] == CLOSE;
    assert inner[0] == path[beg] && (inner == [CLOSE] <==> |inner| == 1);
  }

  lemma NumberNone()
    ensures AllDigits([]) && Number([]) == 0
  {
  }

  lemma NumberSnoc(digits: Key, d: Byte)
    requires IsDigit(d) && AllDigits(digits)
    ensures AllDigits(digits + [d])
    ensures Number(digits + [d]) == (Number(digits) * 10 + (d - ZERO)) % SIZE_LIMIT
  {
    var s := digits + [d];
    assert s[..|s| - 1] == digits && s[|s| - 1] == d;
  }

  /** value_path_ex, building mode: a value that is still new becomes the container the component needs. */
  method Prepare(v: Val?, empty: Content, ok: bool) returns (status: int)
    requires empty.Array? || empty.Dict?
    modifies if v == null then {} else {v}
    ensures v != null ==>
              v.content == if old(v.content) != Null(true) then old(v.content) else if ok then empty else Null(false)
    ensures status == if v != null && old(v.content) == Null(true) && !ok then -1 else 0
  {
    status := 0;
    if IsNew(v) {
      status := Init(v, empty, ok);
    }
  }

  /** The index a signed component refers to in an array of the given size. */
  function Resolve(sign: int, index: nat, size: nat): (i: nat)
    requires sign < 0 ==> 0 < index <= size
  {
    if sign < 0 then size - index else index
  }

  /** value_path_ex on a component between brackets, in building mode. */
  method BuildIndexed(v: Val?, sign: int, index: nat, ghost token: Token, okInit: bool, okAdd: bool,
                      ghost world: set<Val>)
    returns (r: Val?, ghost world': set<Val>)
    requires Closed(Snapshot(world)) && (v != null ==> v in world)
    requires token == if sign < 0 then FromEnd(index) else if sign == 0 then Append else Index(index)
    modifies if v == null then {} else {v}
    ensures world <= world' && fresh(world' - world)
    ensures Built(old(Snapshot(world)), v, token, Snapshot(world'), r, okInit && okAdd)
    ensures Exact(old(Snapshot(world)), v, token, Snapshot(world'), r, okInit, okAdd)
  {
    hide Built, Closed;
    world' := world;
    ghost var st, ample := Snapshot(world), okInit && okAdd;
    if v == null {
      // Every accessor below answers NULL for a NULL value.
      NoContainer(st, token, ample);
      return null, world';
    }
    var status := Prepare(v, Array([]), okInit);
    ghost var ready := v.content;
    assert Snapshot(world) == st[v := ready];
    if status != 0 {
      MakeNothing(st, v, ready, token, ample);
      return null, world';
    }
    r, world' := AddIndexed(v, sign, index, token, okInit, okAdd, st, world);
  }

  /** value_path_ex on a component between brackets, in building mode, once v has been initialized. */
  method AddIndexed(v: Val, sign: int, index: nat, ghost token: Token, ghost okInit: bool, okAdd: bool,
                    ghost st: State, ghost world: set<Val>)
    returns (r: Val?, ghost world': set<Val>)
    requires Closed(st) && v in world && v in st && Snapshot(world) == st[v := v.content]
    requires token == if sign < 0 then FromEnd(index) else if sign == 0 then Append else Index(index)
    requires v.content == Readied(st[v], token, okInit) && (st[v] == Null(true) ==> okInit)
    modifies v
    ensures world <= world' && fresh(world' - world)
    ensures Built(st, v, token, Snapshot(world'), r, okInit && okAdd)
    ensures Exact(st, v, token, Snapshot(world'), r, okInit, okAdd)
  {
    hide Built, Closed;
    world' := world;
    ghost var ready, ample := v.content, okInit && okAdd;
    if sign < 0 {
      var size := ArraySize(v);
      if !(0 < index <= size) {
        MakeNothing(st, v, ready, token, ample);
        return null, world';
      }
    }
    if sign == 0 {
      r := ArrayAppend(v, okAdd);
      assert Snapshot(world) == st[v := v.content];
      if r != null {
        ghost var n: Val := r;
        MakeChild(st, v, ready, token, n, v.content);
        BuiltAmple(st, v, token, Made(st, v, v.content, n), n, ample);
        world' := world + {n};
        assert Snapshot(world') == Made(st, v, v.content, n);
      } else {
        MakeNothing(st, v, ready, token, ample);
      }
    } else {
      r := ArrayGet(v, Resolve(sign, index, ArraySize(v)));
      assert r == Child(ready, token);
      if r != null {
        assert Snapshot(world) == st;
        ChildBuilt(st, v, token, ample);
      } else {
        MakeNothing(st, v, ready, token, ample);
      }
    }
  }

  /** value_path_ex on any other component, in building mode. */
  method BuildNamed(v: Val?, key: Key, okInit: bool, okAdd: bool, ghost world: set<Val>)
    returns (r: Val?, ghost world': set<Val>)
    requires Closed(Snapshot(world)) && (v != null ==> v in world)
    modifies if v == null then {} else {v}
    ensures world <= world' && fresh(world' - world)
    ensures Built(old(Snapshot(world)), v, Name(key), Snapshot(world'), r, okInit && okAdd)
    ensures Exact(old(Snapshot(world)), v, Name(key), Snapshot(world'), r, okInit, okAdd)
  {
    hide Built, Closed;
    world' := world;
    ghost var st, ample, token := Snapshot(world), okInit && okAdd, Name(key);
    if v == null {
      NoContainer(st, token, ample);
      return null, world';
    }
    DefaultCmpTotal();
    var status := Prepare(v, Dict(DefaultCmp, []), okInit);
    assert Snapshot(world) == st[v := v.content];
    if status != 0 {
      MakeNothing(st, v, v.content, token, ample);
      return null, world';
    }
    r, world' := AddNamed(v, key, okInit, okAdd, st, world);
  }

  /** value_path_ex on a named component, in building mode, once v has been initialized. */
  method AddNamed(v: Val, key: Key, ghost okInit: bool, okAdd: bool, ghost st: State, ghost world: set<Val>)
    returns (r: Val?, ghost world': set<Val>)
    requires Closed(st) && v in world && v in st && Snapshot(world) == st[v := v.content]
    requires v.content == Readied(st[v], Name(key), okInit) && (st[v] == Null(true) ==> okInit)
    modifies v
    ensures world <= world' && fresh(world' - world)
    ensures Built(st, v, Name(key), Snapshot(world'), r, okInit && okAdd)
    ensures Exact(st, v, Name(key), Snapshot(world'), r, okInit, okAdd)
  {
    hide Built, Closed;
    world' := world;
    ghost var ready, known, ample := v.content, DictGet(v, key), okInit && okAdd;
    r := DictGetOrAdd(v, key, okAdd);
    assert Snapshot(world) == st[v := v.content];
    if known != null {
      assert ready == st[v] && Snapshot(world) == st;
      ChildBuilt(st, v, Name(key), ample);
    } else if r != null {
      ghost var n: Val := r;
      MakeChild(st, v, ready, Name(key), n, v.content);
      BuiltAmple(st, v, Name(key), Made(st, v, v.content, n), n, ample);
      world' := world + {n};
      assert Snapshot(world') == Made(st, v, v.content, n);
    } else {
      MakeNothing(st, v, ready, Name(key), ample);
    }
  }

  lemma BuiltAmple(st: State, v: Val, token: Token, st': State, r: Val, ample: bool)
    requires Built(st, v, token, st', r, true)
    ensures Built(st, v, token, st', r, ample)
  {
  }

  lemma ChildBuilt(st: State, v: Val, token: Token, ample: bool)
    requires Closed(st) && v in st && Child(st[v], token) != null
    ensures Built(st, v, token, st, Child(st[v], token), ample)
  {
    ChildInside(st, v, token);
  }

  /** value_path_ex on a component between brackets, in read-only mode. */
  method ReadIndexed(v: Val?, sign: int, index: nat, ghost token: Token, ghost world: set<Val>) returns (r: Val?)
    requires v != null ==> v in world
    requires token == if sign < 0 then FromEnd(index) else if sign == 0 then Append else Index(index)
    ensures r == ChildOf(Snapshot(world), v, token)
  {
    if sign < 0 {
      var size := ArraySize(v);
      if !(0 < index <= size) {
        return null;
      }
    }
    if sign == 0 {
      return null;
    }
    r := ArrayGet(v, Resolve(sign, index, ArraySize(v)));
  }

  lemma NoContainer(st: State, token: Token, ample: bool)
    requires Closed(st)
    ensures Built(st, null, token, st, null, ample)
  {
  }

  // ---------- whole paths ----------

  /** A call: the heap it starts from, its arguments, and whether every allocation succeeds. */
  datatype Job = Job(st: State, root: Val?, tokens: seq<Token>, build: bool, ample: bool)

  ghost function Target(job: Job): Val? {
    Follow(job.st, job.root, job.tokens)
  }

  /** The call has made v: it did not exist before and still is new. */
  ghost predicate Created(job: Job, st: State, v: Val?) {
    v != null && v in st && v !in job.st && st[v] == Null(true)
  }

  /** What value_path and value_build_path promise together. */
  ghost predicate Delivered(job: Job, st': State, v: Val?) {
    && Closed(st') && Extends(job.st, st') && (v != null ==> v in st')
    && (!job.build ==> st' == job.st && v == Target(job))
    && (Target(job) != null ==> st' == job.st && v == Target(job))
    && (v != null && Target(job) == null ==> Created(job, st', v))
    && (v != null && NoAppend(job.tokens) ==> Follow(st', job.root, job.tokens) == v)
    && (job.build && job.ample ==> (v != null <==> Buildable(job.st, job.root, job.tokens)))
  }

  ghost predicate Progress(job: Job, past: seq<Token>, rest: seq<Token>, st: State, v: Val?) {
    && job.tokens == past + rest
    && Closed(st) && Extends(job.st, st) && (v != null ==> v in st)
    && (!job.build ==> st == job.st)
    && (!job.build || Target(job) != null ==> st == job.st && Follow(st, v, rest) == Target(job))
    && ((NoAppend(past) && st == job.st) || !job.build || Created(job, st, v))
    && (NoAppend(past) ==> Follow(st, job.root, past) == v)
    && (job.build && job.ample ==> (Buildable(st, v, rest) <==> Buildable(job.st, job.root, job.tokens)))
  }

  lemma Starts(job: Job)
    requires Closed(job.st) && (job.root != null ==> job.root in job.st)
    ensures Progress(job, [], job.tokens, job.st, job.root)
  {
    assert job.tokens == [] + job.tokens;
  }

  lemma Ends(job: Job, past: seq<Token>, st: State, v: Val?)
    requires Progress(job, past, [], st, v)
    ensures Delivered(job, st, v)
  {
    assert past == job.tokens;
  }

  lemma StepRead(job: Job, past: seq<Token>, token: Token, rest: seq<Token>, st: State, v: Val?, r: Val?)
    requires !job.build && Progress(job, past, [token] + rest, st, v) && r == ChildOf(st, v, token)
    ensures r != null ==> Progress(job, past + [token], rest, st, r)
    ensures r == null ==> Delivered(job, st, null)
  {
    assert job.tokens == (past + [token]) + rest;
    FollowCons(st, v, token, rest);
    FollowSnoc(st, job.root, past, token);
    if r != null {
      ChildInside(st, v, token);
    }
    assert NoAppend(past + [token]) ==> NoAppend(past);
  }

  lemma StepBuilt(job: Job, past: seq<Token>, token: Token, rest: seq<Token>, st: State, v: Val?, st': State, r: Val?,
                  ample: bool)
    requires job.build && Progress(job, past, [token] + rest, st, v)
    requires Built(st, v, token, st', r, ample) && (job.ample ==> ample)
    ensures r != null ==> Progress(job, past + [token], rest, st', r)
    ensures r == null ==> Delivered(job, st', null)
  {
    hide Closed, Grown, Accepts, Quiet, Makeable;
    assert job.tokens == (past + [token]) + rest;
    FollowCons(st, v, token, rest);
    BuildableCons(st, v, token, rest);
    ExtendsTransitive(job.st, st, st');
    if r != null {
      if NoAppend(past + [token]) {
        StepStays(past, token, st, job.root, v, st', r);
      }
      if ChildOf(st, v, token) == null {
        BuildableNew(st', r, rest);
      }
    }
  }

  lemma StepStays(past: seq<Token>, token: Token, st: State, root: Val?, v: Val?, st': State, r: Val)
    requires NoAppend(past + [token]) && (NoAppend(past) ==> Follow(st, root, past) == v) && v != null
    requires Extends(st, st') && (token != Append ==> Quiet(st, st') && ChildOf(st', v, token) == r) && r in st'
    ensures Follow(st', root, past + [token]) == r
  {
    assert token in past + [token];
    assert forall t :: t in past ==> t in past + [token];
    FollowGrows(st, st', root, past);
    FollowSnoc(st', root, past, token);
  }

  lemma ClassifiedAt(path: Key, beg: nat, end: nat)
    requires beg < end <= |path|
    ensures HasBrackets(path[beg..end]) <==> end - beg >= 2 && path[beg] == OPEN && path[end - 1] == CLOSE
    ensures HasBrackets(path[beg..end]) ==> Classify(path[beg..end]) == Bracketed(path[beg + 1..end])
    ensures !HasBrackets(path[beg..end]) ==> Classify(path[beg..end]) == Name(path[beg..end])
  {
    hide Bracketed;
    assert path[beg..end][1..] == path[beg + 1..end];
  }

  /** A malformed component ends both modes before anything is changed. */
  lemma Rejected(st: State, v: Val?, ample: bool)
    requires Closed(st)
    ensures ChildOf(st, v, Malformed) == null && Built(st, v, Malformed, st, null, ample)
    ensures forall okInit, okAdd :: Exact(st, v, Malformed, st, null, okInit, okAdd)
  {
  }

  /** value_path_ex, the work on one component. */
  method Component(v: Val?, path: Key, beg: nat, end: nat, allowBuild: bool, okInit: bool, okAdd: bool,
                   ghost world: set<Val>)
    returns (r: Val?, ghost world': set<Val>)
    requires Closed(Snapshot(world)) && (v != null ==> v in world) && beg < end <= |path|
    modifies if !allowBuild || v == null then {} else {v}
    ensures world <= world' && fresh(world' - world)
    ensures !allowBuild ==> world' == world && r == ChildOf(Snapshot(world), v, Classify(path[beg..end]))
    ensures allowBuild ==>
              Built(old(Snapshot(world)), v, Classify(path[beg..end]), Snapshot(world'), r, okInit && okAdd)
    ensures allowBuild ==>
              Exact(old(Snapshot(world)), v, Classify(path[beg..end]), Snapshot(world'), r, okInit, okAdd)
  {
    hide Built, Exact, Closed, Classify, Bracketed, HasBrackets;
    ClassifiedAt(path, beg, end);
    world' := world;
    if end - beg >= 2 && path[beg] == OPEN && path[end - 1] == CLOSE {
      var ok, sign, index := ParseIndex(path, beg + 1, end);
      if !ok {
        Rejected(Snapshot(world), v, okInit && okAdd);
        return null, world';
      }
      ghost var token := Bracketed(path[beg + 1..end]);
      if allowBuild {
        r, world' := BuildIndexed(v, sign, index, token, okInit, okAdd, world);
      } else {
        r := ReadIndexed(v, sign, index, token, world);
      }
    } else {
      if allowBuild {
        r, world' := BuildNamed(v, path[beg..end], okInit, okAdd, world);
      } else {
        r := DictGet(v, path[beg..end]);
      }
    }
  }

  /** The rounds so far, from the start of the job to where the call stands. */
  ghost predicate Standing(past: seq<Token>, memory: nat -> bool, stops: seq<Stop>, job: Job, last: Stop) {
    && Played(past, memory, stops) && stops[0] == Stop(job.st, job.root) && stops[|stops| - 1] == last
  }

  lemma PlayedMore(past: seq<Token>, token: Token, memory: nat -> bool, stops: seq<Stop>, job: Job,
                   s: Stop, s': Stop)
    requires Standing(past, memory, stops, job, s) && s.v != null
    requires Exact(s.st, s.v, token, s'.st, s'.v, memory(2 * |past|), memory(2 * |past| + 1))
    ensures Standing(past + [token], memory, stops + [s'], job, s')
  {
    hide Exact;
    var tokens, all := past + [token], stops + [s'];
    forall k: nat | k < |tokens|
      ensures Round(tokens, memory, all, k)
    {
      if k < |past| {
        assert Round(past, memory, stops, k);
      }
    }
  }

  lemma NullStays(s: State, token: Token, st': State, v: Val?, okInit: bool, okAdd: bool)
    requires Exact(s, null, token, st', v, okInit, okAdd)
    ensures st' == s && v == null
  {
  }

  lemma StandsAtStart(job: Job, memory: nat -> bool)
    ensures Standing([], memory, [Stop(job.st, job.root)], job, Stop(job.st, job.root))
  {
  }

  lemma AllTokens(job: Job, past: seq<Token>, rest: seq<Token>, st: State, v: Val?)
    requires Progress(job, past, rest, st, v)
    ensures job.tokens == past + rest && Closed(st) && (v != null ==> v in st)
  {
  }

  /** One more round in building mode. */
  lemma Advance(job: Job, past: seq<Token>, token: Token, rest: seq<Token>, memory: nat -> bool, stops: seq<Stop>,
                s: Stop, s': Stop)
    requires job.build && Progress(job, past, [token] + rest, s.st, s.v) && Standing(past, memory, stops, job, s)
    requires job.ample ==> forall k: nat :: memory(k)
    requires
      var okInit, okAdd := memory(2 * |past|), memory(2 * |past| + 1);
      Built(s.st, s.v, token, s'.st, s'.v, okInit && okAdd) && Exact(s.st, s.v, token, s'.st, s'.v, okInit, okAdd)
    ensures s'.v != null ==>
              && s.v != null && Progress(job, past + [token], rest, s'.st, s'.v)
              && Standing(past + [token], memory, stops + [s'], job, s')
    ensures s'.v == null ==>
              && Delivered(job, s'.st, null)
              && Outcome(job.tokens, memory, if s.v == null then stops else stops + [s'], Stop(job.st, job.root), s')
  {
    hide Built, Exact, Standing, Progress, Outcome, Delivered;
    var okInit, okAdd := memory(2 * |past|), memory(2 * |past| + 1);
    AllTokens(job, past, [token] + rest, s.st, s.v);
    StepBuilt(job, past, token, rest, s.st, s.v, s'.st, s'.v, okInit && okAdd);
    if s.v == null {
      NullStays(s.st, token, s'.st, s'.v, okInit, okAdd);
      OutcomeAfter(past, [token] + rest, memory, stops, job, s');
    } else {
      PlayedMore(past, token, memory, stops, job, s, s');
      OutcomeAfter(past + [token], rest, memory, stops + [s'], job, s');
      assert past + [token] + rest == past + ([token] + rest);
    }
  }

  lemma OutcomeAfter(past: seq<Token>, rest: seq<Token>, memory: nat -> bool, stops: seq<Stop>, job: Job, last: Stop)
    requires Standing(past, memory, stops, job, last)
    ensures rest == [] || last.v == null ==>
              Outcome(past + rest, memory, stops, Stop(job.st, job.root), last)
  {
    hide Exact;
    assert (past + rest)[..|past|] == past;
  }

  /** value_path_ex, one round: the component path[beg..end] and what the call knows afterwards. */
  method NextRound(v: Val?, path: Key, beg: nat, end: nat, allowBuild: bool, count: nat, memory: nat -> bool,
                   ghost job: Job, ghost past: seq<Token>, ghost rest: seq<Token>, ghost stops: seq<Stop>,
                   ghost world: set<Val>)
    returns (r: Val?, ghost world': set<Val>, ghost stops': seq<Stop>)
    requires beg < end <= |path| && count == 2 * |past| && allowBuild == job.build
    requires job.ample ==> forall k: nat :: memory(k)
    requires Progress(job, past, [Classify(path[beg..end])] + rest, Snapshot(world), v)
    requires allowBuild ==> Standing(past, memory, stops, job, Stop(Snapshot(world), v))
    modifies if !allowBuild || v == null then {} else {v}
    ensures world <= world' && fresh(world' - world) && (!allowBuild ==> world' == world)
    ensures v != null ==> v in world
    ensures
      var now := Stop(Snapshot(world'), r);
      && (r != null ==>
            && Progress(job, past + [Classify(path[beg..end])], rest, now.st, r)
            && (allowBuild ==> Standing(past + [Classify(path[beg..end])], memory, stops', job, now)))
      && (r == null ==>
            && Delivered(job, now.st, null)
            && (allowBuild ==> Outcome(job.tokens, memory, stops', Stop(job.st, job.root), now)))
  {
    hide Delivered, Built, Exact, Standing, Progress, Outcome, Closed, Classify;
    ghost var token, st := Classify(path[beg..end]), Snapshot(world);
    AllTokens(job, past, [token] + rest, st, v);
    r, world' := Component(v, path, beg, end, allowBuild, memory(count), memory(count + 1), world);
    stops' := stops;
    if allowBuild {
      Advance(job, past, token, rest, memory, stops, Stop(st, v), Stop(Snapshot(world'), r));
      stops' := if v == null then stops else stops + [Stop(Snapshot(world'), r)];
    } else {
      StepRead(job, past, token, rest, st, v, r);
    }
  }

  lemma TokensStep(path: Key, beg: nat, i: nat)
    requires beg <= |path| && i == Skipped(path, beg)
    ensures if CharAt(path, i) == 0 then TokensFrom(path, beg) == []
            else TokensFrom(path, beg) == [Classify(path[i..TokenEnd(path, i)])] + TokensFrom(path, TokenEnd(path, i))
  {
    hide Classify, TokenEnd;
  }

  /** value_path_ex.  `memory(k)` tells whether the k-th allocation would succeed. */
  method PathEx(root: Val?, path: Key, allowBuild: bool, memory: nat -> bool, ghost world: set<Val>)
    returns (v: Val?, ghost world': set<Val>, ghost stops: seq<Stop>)
    requires Closed(Snapshot(world)) && (root != null ==> root in world)
    modifies if allowBuild then world else {}
    ensures world <= world' && fresh(world' - world) && (!allowBuild ==> world' == world)
    ensures Delivered(Job(old(Snapshot(world)), root, Tokens(path), allowBuild, forall k: nat :: memory(k)),
                      Snapshot(world'), v)
    ensures allowBuild ==>
              Outcome(Tokens(path), memory, stops, Stop(old(Snapshot(world)), root), Stop(Snapshot(world'), v))
  {
    hide Delivered, Standing, Progress, Outcome, Closed, Classify, TokensFrom, Skipped, TokenEnd;
    ghost var job := Job(Snapshot(world), root, Tokens(path), allowBuild, forall k: nat :: memory(k));
    ghost var past: seq<Token>, rest := [], Tokens(path);
    v, world' := root, world;
    var beg, count := 0, 0;
    stops := [Stop(job.st, root)];
    Starts(job);
    StandsAtStart(job, memory);
    while true
      invariant beg <= |path| && rest == TokensFrom(path, beg)
      invariant world <= world' && fresh(world' - world) && (!allowBuild ==> world' == world)
      invariant Progress(job, past, rest, Snapshot(world'), v)
      invariant allowBuild ==> Standing(past, memory, stops, job, Stop(Snapshot(world'), v))
      invariant count == 2 * |past|
      decreases |path| - beg
    {
      ghost var from := beg;
      beg := SkipSlashes(path, beg);
      TokensStep(path, from, beg);
      if CharAt(path, beg) == 0 {
        Ends(job, past, Snapshot(world'), v);
        AllTokens(job, past, [], Snapshot(world'), v);
        if allowBuild {
          OutcomeAfter(past, [], memory, stops, job, Stop(Snapshot(world'), v));
        }
        return;
      }
      var end := ScanToken(path, beg);
      rest := TokensFrom(path, end);
      AllTokens(job, past, [Classify(path[beg..end])] + rest, Snapshot(world'), v);
      v, world', stops := NextRound(v, path, beg, end, allowBuild, count, memory, job, past, rest, stops, world');
      if v == null {
        return;
      }
      past := past + [Classify(path[beg..end])];
      beg, count := end, count + 2;
    }
  }

  /** value_path. */
  method Path(root: Val?, path: Key, ghost world: set<Val>) returns (v: Val?)
    requires Closed(Snapshot(world)) && (root != null ==> root in world)
    ensures v == Follow(Snapshot(world), root, Tokens(path))
  {
    ghost var world', stops;
    v, world', stops := PathEx(root, path, false, k => true, world);
  }

  /** value_build_path. */
  method BuildPath(root: Val?, path: Key, memory: nat -> bool, ghost world: set<Val>)
    returns (v: Val?, ghost world': set<Val>, ghost stops: seq<Stop>)
    requires Closed(Snapshot(world)) && (root != null ==> root in world)
    modifies world
    ensures world <= world' && fresh(world' - world)
    ensures Delivered(Job(old(Snapshot(world)), root, Tokens(path), true, forall k: nat :: memory(k)),
                      Snapshot(world'), v)
    ensures Outcome(Tokens(path), memory, stops, Stop(old(Snapshot(world)), root), Stop(Snapshot(world'), v))
  {
    v, world', stops := PathEx(root, path, true, memory, world);
  }

  /** Building and then reading the same path, when nothing on it asks for a new array element. */
  method BuildThenRead(root: Val?, path: Key, memory: nat -> bool, ghost world: set<Val>)
    returns (built: Val?, found: Val?, ghost world': set<Val>)
    requires Closed(Snapshot(world)) && (root != null ==> root in world) && NoAppend(Tokens(path))
    modifies world
    ensures built != null ==> found == built
    ensures old(Follow(Snapshot(world), root, Tokens(path))) != null ==>
              && built == old(Follow(Snapshot(world), root, Tokens(path)))
              && Snapshot(world') == old(Snapshot(world))
  {
    hide Closed, Extends, Follow, Buildable, NoAppend, Tokens;
    ghost var stops;
    built, world', stops := BuildPath(root, path, memory, world);
    found := Path(root, path, world');
  }
}
