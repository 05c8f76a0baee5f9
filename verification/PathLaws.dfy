/** What the path language means, law by law, in terms of the path text alone: together the laws take every path
    apart, character by character, without the scanner of data/value.c. */
module PathLaws {
  import opened Keys
  import opened PathSyntax

  /** Bytes that end a component. */
  ghost predicate Ends(b: Byte) {
    b == 0 || b == '/' as int || b == '[' as int
  }

  /** The whole of s is one component, or the inside of one. */
  ghost predicate Plain(s: Key) {
    forall i :: 0 <= i < |s| ==> !Ends(s[i])
  }

  // ---------- taking a path apart ----------

  lemma EmptyPath()
    ensures Tokens(Ascii("")) == []
  {
  }

  /** A leading slash means nothing. */
  lemma LeadingSlash(q: Key)
    ensures Tokens(['/' as int] + q) == Tokens(q)
  {
    hide Classify;
    var x := ['/' as int] + q;
    assert Skipped(x, 0) == Skipped(x, 1);
    assert TokensFrom(x, 0) == TokensFrom(x, 1);
    Shifted(['/' as int], q, 0);
  }

  /** A zero byte ends the path. */
  lemma ZeroEnds(q: Key)
    ensures Tokens([0] + q) == []
  {
  }

  /** A path splits before every byte that ends a component. */
  lemma Splits(p: Key, q: Key)
    requires 0 !in p && (q == [] || Ends(q[0]))
    ensures Tokens(p + q) == Tokens(p) + Tokens(q)
  {
    SplitFrom(p, q, 0);
  }

  lemma {:induction false} SkippedShift(p: Key, q: Key, i: nat)
    requires i <= |q|
    ensures Skipped(p + q, |p| + i) == |p| + Skipped(q, i)
    decreases |q| - i
  {
    if CharAt(q, i) == SLASH {
      SkippedShift(p, q, i + 1);
    }
  }

  lemma {:induction false} ScannedShift(p: Key, q: Key, i: nat)
    requires i <= |q|
    ensures Scanned(p + q, |p| + i) == |p| + Scanned(q, i)
    decreases |q| - i
  {
    if !Stops(CharAt(q, i)) {
      ScannedShift(p, q, i + 1);
    }
  }

  /** What is read from a place in the path depends only on what follows. */
  lemma {:induction false} Shifted(p: Key, q: Key, i: nat)
    requires i <= |q|
    ensures TokensFrom(p + q, |p| + i) == TokensFrom(q, i)
    decreases |q| - i
  {
    hide Classify, Skipped, Scanned, TokenEnd;
    SkippedShift(p, q, i);
    var j := Skipped(q, i);
    assert CharAt(p + q, |p| + j) == CharAt(q, j);
    if CharAt(q, j) != 0 {
      EndShift(p, q, j);
      var e := TokenEnd(q, j);
      assert (p + q)[|p| + j..|p| + e] == q[j..e];
      Shifted(p, q, e);
    }
  }

  lemma EndShift(p: Key, q: Key, j: nat)
    requires j < |q| && q[j] != 0 && q[j] != SLASH
    ensures (p + q)[|p| + j] == q[j] && TokenEnd(p + q, |p| + j) == |p| + TokenEnd(q, j)
  {
    hide Scanned;
    ScannedShift(p, q, if q[j] == OPEN then j + 1 else j);
  }

  /** Skipping slashes inside p stops in p, or goes on in what follows. */
  lemma {:induction false} SkippedIn(p: Key, q: Key, i: nat)
    requires i <= |p|
    ensures Skipped(p, i) < |p| ==> Skipped(p + q, i) == Skipped(p, i)
    ensures Skipped(p, i) == |p| ==> Skipped(p + q, i) == Skipped(p + q, |p|)
    decreases |p| - i
  {
    if i < |p| && p[i] == SLASH {
      SkippedIn(p, q, i + 1);
    }
  }

  lemma {:induction false} ScannedIn(p: Key, q: Key, i: nat)
    requires i <= |p| && (q == [] || Stops(q[0]))
    ensures Scanned(p + q, i) == Scanned(p, i)
    decreases |p| - i
  {
    if i < |p| && !Stops(p[i]) {
      ScannedIn(p, q, i + 1);
    }
  }

  lemma {:induction false} SplitFrom(p: Key, q: Key, i: nat)
    requires i <= |p| && 0 !in p && (q == [] || Stops(q[0]))
    ensures TokensFrom(p + q, i) == TokensFrom(p, i) + Tokens(q)
    decreases |p| - i
  {
    hide Classify, Skipped, Scanned;
    SkippedIn(p, q, i);
    var j := Skipped(p, i);
    if j == |p| {
      Shifted(p, q, 0);
    } else {
      assert p[j] in p;
      var e := TokenEnd(p, j);
      ScannedIn(p, q, if p[j] == OPEN then j + 1 else j);
      assert (p + q)[j..e] == p[j..e];
      SplitFrom(p, q, e);
    }
  }

  // ---------- one component ----------

  /** Text without special bytes is a name. */
  lemma NameComponent(name: Key)
    requires name != [] && Plain(name)
    ensures Tokens(name) == [Name(name)]
  {
    hide Scanned;
    assert name[0] != OPEN;
    ScannedTo(name, 0, |name|);
    assert name[0..|name|] == name && TokensFrom(name, |name|) == [];
    assert Tokens(name) == [Classify(name)];
  }

  /** Text after an opening bracket, up to the next special byte. */
  lemma BracketComponent(inner: Key)
    requires Plain(inner)
    ensures Tokens(['[' as int] + inner) ==
            [if inner != [] && inner[|inner| - 1] == ']' as int then Bracketed(inner) else Name(['[' as int] + inner)]
  {
    hide Scanned, Bracketed;
    var x := ['[' as int] + inner;
    assert forall k :: 1 <= k < |x| ==> x[k] == inner[k - 1];
    ScannedTo(x, 1, |x|);
    assert x[0..|x|] == x && x[1..] == inner && TokensFrom(x, |x|) == [];
    assert Tokens(x) == [Classify(x)];
  }

  ghost predicate Decimals(s: Key) {
    forall i :: 0 <= i < |s| ==> '0' as int <= s[i] <= '9' as int
  }

  ghost predicate Sign(sign: Key) {
    sign == [] || sign == ['-' as int] || sign == ['+' as int]
  }

  /** A sign, digits and a closing bracket make an index; nothing at all between the brackets asks for an append.
      What follows the first closing bracket is ignored, and missing digits count as zero. */
  lemma IndexInside(sign: Key, digits: Key, junk: Key)
    requires Sign(sign) && Decimals(digits) && (junk == [] || junk[|junk| - 1] == ']' as int)
    ensures
      var n := Worth(digits) % 0x1_0000_0000_0000_0000;
      Bracketed(sign + (digits + ([']' as int] + junk))) ==
      if sign == ['-' as int] then FromEnd(n)
      else if sign == [] && digits == [] && junk == [] then Append
      else Index(n)
  {
    hide DigitRun, Number, Worth;
    NumberMeans(digits);
    var rest := digits + ([']' as int] + junk);
    var inner := sign + rest;
    DigitRunEnds(digits, [']' as int] + junk);
    assert rest[..|digits|] == digits && rest[|digits|] == CLOSE;
    assert if sign == [] then inner == rest else inner[1..] == rest && inner[0] == sign[0];
    assert sign == [] ==> inner[0] != MINUS && inner[0] != PLUS;
  }

  /** Anything else between brackets is malformed. */
  lemma MalformedInside(sign: Key, digits: Key, rest: Key)
    requires Sign(sign) && Decimals(digits) && rest != [] && rest[|rest| - 1] == ']' as int
    requires !('0' as int <= rest[0] <= '9' as int) && rest[0] != ']' as int
    requires sign == [] && digits == [] ==> rest[0] != '-' as int && rest[0] != '+' as int
    ensures Bracketed(sign + (digits + rest)) == Malformed
  {
    hide DigitRun, Number;
    var tail := digits + rest;
    var inner := sign + tail;
    DigitRunEnds(digits, rest);
    assert tail[|digits|] == rest[0] && tail[|tail| - 1] == rest[|rest| - 1];
    assert inner[|inner| - 1] == tail[|tail| - 1];
    if sign == [] {
      assert inner == tail && inner[0] != MINUS && inner[0] != PLUS;
    } else {
      assert inner[1..] == tail && inner[0] == sign[0];
    }
  }

  // ---------- numbers ----------

  function Pow10(n: nat): nat {
    if n == 0 then 1 else 10 * Pow10(n - 1)
  }

  /** The value of decimal digits: each one counts for its place. */
  function Worth(digits: Key): nat
    requires Decimals(digits)
  {
    if digits == [] then 0
    else (digits[0] - '0' as int) * Pow10(|digits| - 1) + Worth(digits[1..])
  }

  lemma {:induction false} WorthSnoc(digits: Key, d: Byte)
    requires Decimals(digits) && '0' as int <= d <= '9' as int
    ensures Decimals(digits + [d]) && Worth(digits + [d]) == 10 * Worth(digits) + (d - '0' as int)
  {
    var all := digits + [d];
    if digits == [] {
      assert all[1..] == [];
      assert Worth(all) == (d - '0' as int) * Pow10(0);
    } else {
      WorthSnoc(digits[1..], d);
      assert all[1..] == digits[1..] + [d] && all[0] == digits[0];
      Tenfold(digits[0] - '0' as int, Pow10(|digits| - 1));
    }
  }

  lemma Tenfold(a: nat, p: nat)
    ensures a * (10 * p) == 10 * (a * p)
  {
  }

  /** An index is the number its digits spell, modulo 2 to the 64. */
  lemma {:induction false} NumberMeans(digits: Key)
    requires Decimals(digits)
    ensures Number(digits) == Worth(digits) % 0x1_0000_0000_0000_0000
  {
    if digits != [] {
      var front, d := digits[..|digits| - 1], digits[|digits| - 1];
      NumberMeans(front);
      assert digits == front + [d];
      WorthSnoc(front, d);
      WrapAround(Worth(front), d - '0' as int);
    }
  }

  lemma WrapAround(w: nat, d: nat)
    ensures (w % 0x1_0000_0000_0000_0000 * 10 + d) % 0x1_0000_0000_0000_0000 ==
            (10 * w + d) % 0x1_0000_0000_0000_0000
  {
    Turns(w % 0x1_0000_0000_0000_0000 * 10 + d, 10 * (w / 0x1_0000_0000_0000_0000));
  }

  lemma Turns(a: nat, q: nat)
    ensures (a + 0x1_0000_0000_0000_0000 * q) % 0x1_0000_0000_0000_0000 == a % 0x1_0000_0000_0000_0000
  {
  }
}
