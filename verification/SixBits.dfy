/** The regrouping at the heart of RFC 4648, section 4: bytes into groups of six bits and back. */
module SixBits {
  import opened Keys
  import opened Powers

  ghost predicate AllSextets(vs: seq<nat>) {
    forall i :: 0 <= i < |vs| ==> vs[i] < 64
  }

  function Triple(a: Byte, b: Byte, c: Byte): nat {
    a * 0x10000 + b * 0x100 + c
  }

  /** The four base-64 digits of a number, highest first. */
  function Four(v: nat): (vs: seq<nat>)
    ensures |vs| == 4 && AllSextets(vs)
  {
    [v / 0x40000 % 64, v / 0x1000 % 64, v / 64 % 64, v % 64]
  }

  /** The three low bytes of a number, highest first. */
  function Three(v: nat): (data: seq<Byte>)
    ensures |data| == 3
  {
    [v / 0x10000 % 256, v / 256 % 256, v % 256]
  }

  /** Every three bytes are four sextets; a tail of one or two bytes is two or three. */
  function Sextets(data: seq<Byte>): (vs: seq<nat>)
    ensures AllSextets(vs)
    ensures |vs| == |data| / 3 * 4 + (if |data| % 3 == 0 then 0 else |data| % 3 + 1)
  {
    if data == [] then []
    else if |data| == 1 then Four(Triple(data[0], 0, 0))[..2]
    else if |data| == 2 then Four(Triple(data[0], data[1], 0))[..3]
    else Four(Triple(data[0], data[1], data[2])) + Sextets(data[3..])
  }

  function Quad(a: nat, b: nat, c: nat, d: nat): nat {
    a * 0x40000 + b * 0x1000 + c * 64 + d
  }

  /** The bytes that sextets stand for; the bits of a tail that fill no byte are dropped. */
  function Octets(vs: seq<nat>): (data: seq<Byte>)
    requires AllSextets(vs)
    ensures |data| == |vs| / 4 * 3 + (if |vs| % 4 == 0 then 0 else |vs| % 4 - 1)
  {
    if |vs| < 2 then []
    else if |vs| == 2 then Three(Quad(vs[0], vs[1], 0, 0))[..1]
    else if |vs| == 3 then Three(Quad(vs[0], vs[1], vs[2], 0))[..2]
    else Three(Quad(vs[0], vs[1], vs[2], vs[3])) + Octets(vs[4..])
  }

  /** Only lengths and last sextets that some byte string produces. */
  ghost predicate Whole(vs: seq<nat>) {
    && AllSextets(vs) && |vs| % 4 != 1
    && (|vs| % 4 == 2 ==> vs[|vs| - 1] % 16 == 0)
    && (|vs| % 4 == 3 ==> vs[|vs| - 1] % 4 == 0)
  }

  /** Reading off the four base-64 digits of a number, and its three base-256 digits. */
  lemma Digits64(s0: nat, s1: nat, s2: nat, s3: nat)
    requires s0 < 64 && s1 < 64 && s2 < 64 && s3 < 64
    ensures
      var v := Quad(s0, s1, s2, s3);
      v / 0x40000 % 64 == s0 && v / 0x1000 % 64 == s1 && v / 64 % 64 == s2 && v % 64 == s3
  {
    var v := Quad(s0, s1, s2, s3);
    assert v == (s0 * 0x1000 + s1 * 64 + s2) * 64 + s3;
    assert v == (s0 * 64 + s1) * 0x1000 + (s2 * 64 + s3);
    assert v / 0x40000 == s0;
    assert v / 0x1000 == s0 * 64 + s1;
    assert v / 64 == s0 * 0x1000 + s1 * 64 + s2;
    Remainder(s0 * 64 + s1, s2);
    Remainder(s0, s1);
    Remainder(s0 * 0x1000 + s1 * 64 + s2, s3);
  }

  lemma Remainder(q: nat, r: nat)
    requires r < 64
    ensures (q * 64 + r) % 64 == r
  {
  }

  lemma Digits256(a: Byte, b: Byte, c: Byte)
    ensures var v := Triple(a, b, c); v / 0x10000 % 256 == a && v / 256 % 256 == b && v % 256 == c
  {
    var v := Triple(a, b, c);
    assert v / 0x10000 == a;
    assert v / 256 == a * 256 + b;
  }

  lemma FourOf(a: Byte, b: Byte, c: Byte)
    ensures Four(Triple(a, b, c)) == [a / 4, a % 4 * 16 + b / 16, b % 16 * 4 + c / 64, c % 64]
  {
    var s0, s1, s2, s3 := a / 4, a % 4 * 16 + b / 16, b % 16 * 4 + c / 64, c % 64;
    assert Quad(s0, s1, s2, s3) == Triple(a, b, c);
    Digits64(s0, s1, s2, s3);
  }

  lemma GroupOctets(a: Byte, b: Byte, c: Byte)
    ensures
      var f := Four(Triple(a, b, c));
      && Three(Quad(f[0], f[1], f[2], f[3])) == [a, b, c]
      && (c == 0 ==> f[3] == 0 && f[2] % 4 == 0)
      && (b == c == 0 ==> f[2] == 0 && f[1] % 16 == 0)
  {
    hide Four;
    FourOf(a, b, c);
    Digits256(a, b, c);
    assert Quad(a / 4, a % 4 * 16 + b / 16, b % 16 * 4 + c / 64, c % 64) == Triple(a, b, c);
  }

  lemma GroupSextets(a: nat, b: nat, c: nat, d: nat)
    requires a < 64 && b < 64 && c < 64 && d < 64
    ensures
      var t := Three(Quad(a, b, c, d));
      && Four(Triple(t[0], t[1], t[2])) == [a, b, c, d]
      && (d == 0 && c % 4 == 0 ==> t[2] == 0)
      && (d == c == 0 && b % 16 == 0 ==> t[1] == 0)
  {
    var w := Quad(a, b, c, d);
    var x, y, z := a * 4 + b / 16, b % 16 * 16 + c / 4, c % 4 * 64 + d;
    assert Triple(x, y, z) == w;
    Digits256(x, y, z);
    Digits64(a, b, c, d);
  }

  lemma {:induction false} SextetsWhole(data: seq<Byte>)
    ensures Whole(Sextets(data))
  {
    hide Triple, Quad, Four, Three;
    if |data| == 1 {
      GroupOctets(data[0], 0, 0);
    } else if |data| == 2 {
      GroupOctets(data[0], data[1], 0);
    } else if |data| >= 3 {
      SextetsWhole(data[3..]);
      WholeStep(Four(Triple(data[0], data[1], data[2])), Sextets(data[3..]));
    }
  }

  lemma WholeStep(f: seq<nat>, rest: seq<nat>)
    requires |f| == 4 && AllSextets(f) && Whole(rest)
    ensures Whole(f + rest)
  {
    var vs := f + rest;
    assert |vs| % 4 == |rest| % 4;
    assert rest != [] ==> vs[|vs| - 1] == rest[|rest| - 1];
  }

  /** What was split into sextets comes back. */
  lemma {:induction false} SextetsBack(data: seq<Byte>)
    ensures Octets(Sextets(data)) == data
  {
    hide Triple, Quad, Four, Three;
    if |data| == 1 {
      GroupOctets(data[0], 0, 0);
    } else if |data| == 2 {
      GroupOctets(data[0], data[1], 0);
    } else if |data| >= 3 {
      GroupOctets(data[0], data[1], data[2]);
      SextetsBack(data[3..]);
      var vs := Sextets(data);
      assert vs[4..] == Sextets(data[3..]);
      assert Octets(vs) == [data[0], data[1], data[2]] + Octets(vs[4..]);
    }
  }

  /** Every acceptable list of sextets is the split of the bytes it stands for. */
  lemma {:induction false} OctetsBack(vs: seq<nat>)
    requires Whole(vs)
    ensures Sextets(Octets(vs)) == vs
  {
    hide Triple, Quad, Four, Three;
    if |vs| == 2 {
      GroupSextets(vs[0], vs[1], 0, 0);
    } else if |vs| == 3 {
      GroupSextets(vs[0], vs[1], vs[2], 0);
    } else if |vs| >= 4 {
      hide Octets, Sextets, Whole;
      WholeRest(vs);
      OctetsBack(vs[4..]);
      SextetsGroup(vs);
      assert vs == [vs[0], vs[1], vs[2], vs[3]] + vs[4..];
    }
  }

  lemma WholeRest(vs: seq<nat>)
    requires Whole(vs) && |vs| >= 4
    ensures Whole(vs[4..])
  {
    var rest := vs[4..];
    assert |rest| % 4 == |vs| % 4;
    assert AllSextets(rest);
    if rest != [] {
      assert rest[|rest| - 1] == vs[|vs| - 1];
    }
  }

  lemma SextetsGroup(vs: seq<nat>)
    requires AllSextets(vs) && |vs| >= 4
    ensures Sextets(Octets(vs)) == [vs[0], vs[1], vs[2], vs[3]] + Sextets(Octets(vs[4..]))
  {
    hide Triple, Quad, Four, Three, Octets, Sextets;
    var t := Three(Quad(vs[0], vs[1], vs[2], vs[3]));
    assert Four(Triple(t[0], t[1], t[2])) == [vs[0], vs[1], vs[2], vs[3]] by {
      GroupSextets(vs[0], vs[1], vs[2], vs[3]);
    }
    OctetsGroup(vs);
    SextetsAppend(t, Octets(vs[4..]));
  }

  lemma OctetsGroup(vs: seq<nat>)
    requires AllSextets(vs) && |vs| >= 4
    ensures Octets(vs) == Three(Quad(vs[0], vs[1], vs[2], vs[3])) + Octets(vs[4..])
  {
    hide Quad, Three;
  }

  lemma SextetsAppend(t: seq<Byte>, rest: seq<Byte>)
    requires |t| == 3
    ensures Sextets(t + rest) == Four(Triple(t[0], t[1], t[2])) + Sextets(rest)
  {
    hide Triple, Four;
    assert (t + rest)[3..] == rest;
  }

  // ---------- what the sextets mean ----------

  /** The n low bits of a number, highest first. */
  function Expand(v: nat, n: nat): (bits: seq<nat>)
    ensures |bits| == n
  {
    if n == 0 then [] else Expand(v / 2, n - 1) + [v % 2]
  }

  function BitString(digits: seq<nat>, n: nat): seq<nat> {
    if digits == [] then [] else Expand(digits[0], n) + BitString(digits[1..], n)
  }

  function Zeros(n: nat): seq<nat> {
    seq(n, _ => 0)
  }

  lemma {:induction false} ExpandJoin(a: nat, b: nat, m: nat, n: nat, p: nat)
    requires p == Pow2(n) && b < p
    ensures Expand(a * p + b, m + n) == Expand(a, m) + Expand(b, n)
  {
    if n > 0 {
      var q := Pow2(n - 1);
      Halves(a, q, b);
      ExpandJoin(a, b / 2, m, n - 1, q);
      assert Expand(a * p + b, m + n) == Expand(a * q + b / 2, m + n - 1) + [b % 2];
    } else {
      assert a * p == a;
    }
  }

  lemma Halves(a: nat, q: nat, b: nat)
    ensures a * (2 * q) + b >= 0
    ensures (a * (2 * q) + b) / 2 == a * q + b / 2 && (a * (2 * q) + b) % 2 == b % 2
  {
    var x := a * q;
    assert a * (2 * q) == 2 * x;
  }

  lemma SpellFour(a: nat, b: nat, c: nat, d: nat)
    requires a < 64 && b < 64 && c < 64 && d < 64
    ensures Expand(((a * 64 + b) * 64 + c) * 64 + d, 24) == Expand(a, 6) + Expand(b, 6) + Expand(c, 6) + Expand(d, 6)
  {
    hide Expand, Pow2;
    GroupSizes();
    ExpandJoin(a, b, 6, 6, 64);
    ExpandJoin(a * 64 + b, c, 12, 6, 64);
    ExpandJoin((a * 64 + b) * 64 + c, d, 18, 6, 64);
  }

  lemma SpellThree(a: Byte, b: Byte, c: Byte)
    ensures Expand((a * 256 + b) * 256 + c, 24) == Expand(a, 8) + Expand(b, 8) + Expand(c, 8)
  {
    hide Expand, Pow2;
    GroupSizes();
    ExpandJoin(a, b, 8, 8, 256);
    ExpandJoin(a * 256 + b, c, 16, 8, 256);
  }

  /** Three bytes and their four sextets spell the same 24 bits. */
  lemma GroupBits(a: Byte, b: Byte, c: Byte)
    ensures
      var f := Four(Triple(a, b, c));
      Expand(f[0], 6) + Expand(f[1], 6) + Expand(f[2], 6) + Expand(f[3], 6)
      == Expand(a, 8) + Expand(b, 8) + Expand(c, 8)
  {
    hide Expand, Four, Triple;
    var f := Four(Triple(a, b, c));
    FourJoins(a, b, c);
    SpellFour(f[0], f[1], f[2], f[3]);
    SpellThree(a, b, c);
  }

  lemma FourJoins(a: Byte, b: Byte, c: Byte)
    ensures var f := Four(Triple(a, b, c)); ((f[0] * 64 + f[1]) * 64 + f[2]) * 64 + f[3] == (a * 256 + b) * 256 + c
  {
    hide Four, Triple;
    FourOf(a, b, c);
  }

  lemma GroupSizes()
    ensures Pow2(6) == 64 && Pow2(8) == 256
  {
  }

  lemma ExpandZero()
    ensures Expand(0, 6) == Zeros(6) && Expand(0, 8) == Zeros(8)
  {
    assert Expand(0, 4) == Zeros(4);
  }

  /** The sextets spell the bits of the bytes, filled up with fewer than six zero bits. */
  lemma {:induction false} SextetsMean(data: seq<Byte>)
    ensures BitString(Sextets(data), 6) == BitString(data, 8) + Zeros((3 - |data| % 3) % 3 * 2)
  {
    hide Expand, Four, Triple, Zeros, BitString;
    var vs := Sextets(data);
    if |data| == 1 {
      OneByteBits(data[0]);
      assert vs == [vs[0], vs[1]] && data == [data[0]];
      BitStringTwo(vs[0], vs[1], 6);
      BitStringOne(data[0], 8);
    } else if |data| == 2 {
      TwoByteBits(data[0], data[1]);
      assert vs == [vs[0], vs[1], vs[2]] && data == [data[0], data[1]];
      BitStringThree(vs[0], vs[1], vs[2], 6);
      BitStringTwo(data[0], data[1], 8);
    } else if |data| >= 3 {
      var f, rest := Four(Triple(data[0], data[1], data[2])), Sextets(data[3..]);
      GroupBits(data[0], data[1], data[2]);
      SextetsMean(data[3..]);
      BitStringConcat(f, rest, 6);
      BitStringFour(f, 6);
      assert data == [data[0], data[1], data[2]] + data[3..];
      BitStringConcat([data[0], data[1], data[2]], data[3..], 8);
      BitStringThree(data[0], data[1], data[2], 8);
    } else {
      NoBits();
    }
  }

  lemma NoBits()
    ensures Zeros(0) == [] && BitString([], 6) == [] && BitString([], 8) == []
  {
  }

  lemma OneByteBits(a: Byte)
    ensures var f := Four(Triple(a, 0, 0)); Expand(f[0], 6) + Expand(f[1], 6) == Expand(a, 8) + Zeros(4)
  {
    hide Expand, Four;
    var f := Four(Triple(a, 0, 0));
    GroupBits(a, 0, 0);
    ExpandZero();
    var l := Expand(f[0], 6) + Expand(f[1], 6) + Expand(f[2], 6) + Expand(f[3], 6);
    var r := Expand(a, 8) + Zeros(8) + Zeros(8);
    assert l[..12] == Expand(f[0], 6) + Expand(f[1], 6);
    assert r[..12] == Expand(a, 8) + Zeros(4);
  }

  lemma TwoByteBits(a: Byte, b: Byte)
    ensures
      var f := Four(Triple(a, b, 0));
      Expand(f[0], 6) + Expand(f[1], 6) + Expand(f[2], 6) == Expand(a, 8) + Expand(b, 8) + Zeros(2)
  {
    hide Expand, Four;
    var f := Four(Triple(a, b, 0));
    GroupBits(a, b, 0);
    ExpandZero();
    var l := Expand(f[0], 6) + Expand(f[1], 6) + Expand(f[2], 6) + Expand(f[3], 6);
    var r := Expand(a, 8) + Expand(b, 8) + Zeros(8);
    assert l[..18] == Expand(f[0], 6) + Expand(f[1], 6) + Expand(f[2], 6);
    assert r[..18] == Expand(a, 8) + Expand(b, 8) + Zeros(2);
  }

  lemma {:induction false} BitStringConcat(x: seq<nat>, y: seq<nat>, n: nat)
    ensures BitString(x + y, n) == BitString(x, n) + BitString(y, n)
  {
    hide Expand;
    if x == [] {
      assert x + y == y;
    } else {
      assert (x + y)[1..] == x[1..] + y;
      BitStringConcat(x[1..], y, n);
    }
  }

  lemma BitStringOne(v: nat, n: nat)
    ensures BitString([v], n) == Expand(v, n)
  {
  }

  lemma BitStringTwo(v: nat, w: nat, n: nat)
    ensures BitString([v, w], n) == Expand(v, n) + Expand(w, n)
  {
    hide Expand, BitString;
    assert [v, w] == [v] + [w];
    BitStringConcat([v], [w], n);
    BitStringOne(v, n);
    BitStringOne(w, n);
  }

  lemma BitStringThree(u: nat, v: nat, w: nat, n: nat)
    ensures BitString([u, v, w], n) == Expand(u, n) + Expand(v, n) + Expand(w, n)
  {
    hide Expand, BitString;
    assert [u, v, w] == [u, v] + [w];
    BitStringConcat([u, v], [w], n);
    BitStringTwo(u, v, n);
    BitStringOne(w, n);
  }

  lemma BitStringFour(f: seq<nat>, n: nat)
    requires |f| == 4
    ensures BitString(f, n) == Expand(f[0], n) + Expand(f[1], n) + Expand(f[2], n) + Expand(f[3], n)
  {
    hide Expand, BitString;
    assert f == [f[0], f[1], f[2]] + [f[3]];
    BitStringConcat([f[0], f[1], f[2]], [f[3]], n);
    BitStringThree(f[0], f[1], f[2], n);
    BitStringOne(f[3], n);
  }
}
