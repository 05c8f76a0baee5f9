/** Payload bytes and the comparators that order them.

    The C containers order nodes by a caller-supplied comparator over the payload that encloses each
    node.  A payload is modelled as its byte string, and the comparator as any function on byte strings
    that is a total order up to the classes it calls equal. */
module Keys {
  type Byte = x: int | 0 <= x < 256
  type Key = seq<Byte>
  type Comparator = (Key, Key) -> int

  ghost predicate TotalOrder(cmp: Comparator) {
    && (forall a, b :: cmp(a, b) < 0 <==> cmp(b, a) > 0)
    && (forall a, b, c :: cmp(a, b) <= 0 && cmp(b, c) <= 0 ==> cmp(a, c) <= 0)
  }

  lemma Less(cmp: Comparator, a: Key, b: Key, c: Key)
    requires TotalOrder(cmp)
    ensures cmp(a, b) < 0 && cmp(b, c) <= 0 ==> cmp(a, c) < 0
    ensures cmp(a, b) <= 0 && cmp(b, c) < 0 ==> cmp(a, c) < 0
    ensures cmp(a, a) == 0
    ensures cmp(a, b) == 0 <==> cmp(b, a) == 0
  {
    if cmp(a, b) <= 0 && cmp(b, c) <= 0 && cmp(a, c) >= 0 {
      assert cmp(c, a) <= 0;
      assert cmp(c, b) <= 0 && cmp(b, a) <= 0;
    }
  }

  /** The bytes of an ASCII string. */
  function Ascii(s: string): (k: Key)
    ensures |k| == |s| && forall i :: 0 <= i < |s| ==> k[i] == s[i] as int % 256
  {
    seq(|s|, i requires 0 <= i < |s| => s[i] as int % 256)
  }
}
