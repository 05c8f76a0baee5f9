/** The default key order of the dictionaries in data/value.c. */
module DictOrder {
  import opened Keys

  /** memcmp on the first n bytes: the first difference decides. */
  function Memcmp(a: Key, b: Key, n: nat): int
    requires n <= |a| && n <= |b|
    decreases n
  {
    if n == 0 then 0
    else if a[0] != b[0] then a[0] - b[0]
    else Memcmp(a[1..], b[1..], n - 1)
  }

  /** value_dict_default_cmp. */
  function DefaultCmp(a: Key, b: Key): int {
    var minLen := if |a| < |b| then |a| else |b|;
    var cmp := Memcmp(a, b, minLen);
    if cmp == 0 && |a| != |b| then (if |a| < |b| then -1 else 1) else cmp
  }

  /** Reading one byte at a time: the recursive law of the order. */
  lemma DefaultCmpHead(a: Key, b: Key)
    ensures a == [] || b == [] ==> DefaultCmp(a, b) == if a == b then 0 else if a == [] then -1 else 1
    ensures a != [] && b != [] && a[0] != b[0] ==> DefaultCmp(a, b) == a[0] as int - b[0] as int
    ensures a != [] && b != [] && a[0] == b[0] ==> DefaultCmp(a, b) == DefaultCmp(a[1..], b[1..])
  {
  }

  lemma {:induction false} DefaultCmpSwap(a: Key, b: Key)
    ensures DefaultCmp(a, b) < 0 <==> DefaultCmp(b, a) > 0
    ensures DefaultCmp(a, b) == 0 <==> a == b
    decreases |a|
  {
    DefaultCmpHead(a, b);
    DefaultCmpHead(b, a);
    if a != [] && b != [] && a[0] == b[0] {
      DefaultCmpSwap(a[1..], b[1..]);
      assert a == [a[0]] + a[1..] && b == [b[0]] + b[1..];
    }
  }

  lemma {:induction false} DefaultCmpTransitive(a: Key, b: Key, c: Key)
    requires DefaultCmp(a, b) <= 0 && DefaultCmp(b, c) <= 0
    ensures DefaultCmp(a, c) <= 0
    decreases |a|
  {
    DefaultCmpHead(a, b);
    DefaultCmpHead(b, c);
    DefaultCmpHead(a, c);
    if a != [] && b != [] && c != [] && a[0] == b[0] == c[0] {
      DefaultCmpTransitive(a[1..], b[1..], c[1..]);
    }
  }

  /** The default comparator is a total order whose classes are single keys. */
  lemma DefaultCmpTotal()
    ensures TotalOrder(DefaultCmp)
    ensures forall a, b :: DefaultCmp(a, b) == 0 <==> a == b
  {
    forall a, b
      ensures DefaultCmp(a, b) < 0 <==> DefaultCmp(b, a) > 0
      ensures DefaultCmp(a, b) == 0 <==> a == b
    {
      DefaultCmpSwap(a, b);
    }
    forall a, b, c | DefaultCmp(a, b) <= 0 && DefaultCmp(b, c) <= 0
      ensures DefaultCmp(a, c) <= 0
    {
      DefaultCmpTransitive(a, b, c);
    }
  }

  /** Lexicographic order, defined without recursion: a proper prefix is smaller, and otherwise the first
      differing byte decides. */
  ghost predicate LexLess(a: Key, b: Key) {
    (|a| < |b| && a <= b) || exists i: nat :: DiffersAt(a, b, i) && a[i] < b[i]
  }

  ghost predicate DiffersAt(a: Key, b: Key, i: nat) {
    i < |a| && i < |b| && a[..i] == b[..i] && a[i] != b[i]
  }

  lemma {:induction false} DefaultCmpLex(a: Key, b: Key)
    ensures DefaultCmp(a, b) < 0 <==> LexLess(a, b)
    decreases |a|
  {
    DefaultCmpHead(a, b);
    if a == [] || b == [] {
      assert LexLess(a, b) <==> a == [] && b != [];
    } else {
      if a[0] != b[0] {
        assert DiffersAt(a, b, 0);
        DiffersFirst(a, b);
      } else {
        DefaultCmpLex(a[1..], b[1..]);
        LexTail(a, b);
      }
    }
  }

  lemma DiffersFirst(a: Key, b: Key)
    ensures forall i: nat :: DiffersAt(a, b, i) && i > 0 ==> a[0] == b[0]
  {
    forall i: nat | DiffersAt(a, b, i) && i > 0
      ensures a[0] == b[0]
    {
      assert a[..i][0] == a[0] && b[..i][0] == b[0];
    }
  }

  lemma LexTail(a: Key, b: Key)
    requires a != [] && b != [] && a[0] == b[0]
    ensures LexLess(a, b) <==> LexLess(a[1..], b[1..])
  {
    assert a <= b <==> a[1..] <= b[1..];
    forall i: nat | DiffersAt(a[1..], b[1..], i)
      ensures DiffersAt(a, b, i + 1)
    {
      assert a[..i + 1] == [a[0]] + a[1..][..i];
      assert b[..i + 1] == [b[0]] + b[1..][..i];
    }
    forall i: nat | DiffersAt(a, b, i)
      ensures i > 0 && DiffersAt(a[1..], b[1..], i - 1)
    {
      assert a[1..][..i - 1] == a[..i][1..];
      assert b[1..][..i - 1] == b[..i][1..];
    }
  }
}
