/** encode/base64.c: the Base64 encoding of RFC 4648, sections 4 and 5, with a configurable alphabet. */
module Base64 {
  import opened Keys
  import opened SixBits

  const ENOBUFS := 105
  const EINVAL := 22

  datatype Options = Options(ch62: Byte, ch63: Byte, pad: Byte)

  /** The options argument, which may be NULL. */
  datatype OptionsArg = Default | Given(options: Options)

  function Effective(arg: OptionsArg): Options {
    if arg.Default? then Options(43, 47, 61) else arg.options
  }

  // ---------- the alphabet ----------

  /** base64_table_core: the capital letters, the small letters and the digits. */
  function Core(i: nat): Byte
    requires i < 62
  {
    if i < 26 then 65 + i else if i < 52 then 97 + (i - 26) else 48 + (i - 52)
  }

  /** The place of a character in the core table, or 255. */
  function CoreIndex(ch: Byte): (i: Byte)
    ensures i < 62 ==> Core(i) == ch
    ensures i >= 62 ==> i == 255 && forall k: nat :: k < 62 ==> Core(k) != ch
    ensures forall k: nat :: k < 62 && Core(k) == ch ==> i == k
  {
    if 65 <= ch < 91 then ch - 65
    else if 97 <= ch < 123 then ch - 97 + 26
    else if 48 <= ch < 58 then ch - 48 + 52
    else 255
  }

  function Symbol(o: Options, v: nat): Byte
    requires v < 64
  {
    if v < 62 then Core(v) else if v == 62 then o.ch62 else o.ch63
  }

  /** What the decoding table holds for a character: later entries overwrite earlier ones. */
  function Value(o: Options, ch: Byte): (v: Byte)
    ensures v < 64 || v == 255
    ensures v < 64 ==> Symbol(o, v) == ch
    ensures v == 255 ==> forall k: nat :: k < 64 ==> Symbol(o, k) != ch
  {
    if ch == o.ch63 then 63 else if ch == o.ch62 then 62 else CoreIndex(ch)
  }

  /** The 62nd and 63rd characters differ from each other and from the core. */
  ghost predicate Unambiguous(o: Options) {
    o.ch62 != o.ch63 && CoreIndex(o.ch62) == 255 && CoreIndex(o.ch63) == 255
  }

  /** Padding is off, or the pad character is not in the alphabet. */
  ghost predicate PadApart(o: Options) {
    o.pad != 0 ==> Value(o, o.pad) == 255
  }

  lemma UnambiguousValues(o: Options)
    ensures Unambiguous(o) <==> forall v: nat :: v < 64 ==> Value(o, Symbol(o, v)) == v
  {
    if !Unambiguous(o) {
      var v := if o.ch62 == o.ch63 then 62
               else if CoreIndex(o.ch62) != 255 then CoreIndex(o.ch62)
               else CoreIndex(o.ch63);
      assert Value(o, Symbol(o, v)) != v;
    }
  }

  // ---------- texts ----------

  function Text(o: Options, vs: seq<nat>): (text: seq<Byte>)
    requires AllSextets(vs)
    ensures |text| == |vs|
  {
    seq(|vs|, i requires 0 <= i < |vs| => Symbol(o, vs[i]))
  }

  function Values(o: Options, text: seq<Byte>): (vs: seq<nat>)
    ensures |vs| == |text|
  {
    seq(|text|, i requires 0 <= i < |text| => Value(o, text[i]))
  }

  function Padding(o: Options, n: nat): seq<Byte> {
    if o.pad == 0 || n % 3 == 0 then [] else if n % 3 == 1 then [o.pad, o.pad] else [o.pad]
  }

  function Encoded(o: Options, data: seq<Byte>): seq<Byte> {
    Text(o, Sextets(data)) + Padding(o, |data|)
  }

  /** The text without the padding a decoder ignores: at most two pad characters that fill a group of four. */
  function Stripped(o: Options, text: seq<Byte>): (s: seq<Byte>)
    ensures s <= text && |text| <= |s| + 2
  {
    if o.pad == 0 || text == [] || |text| % 4 != 0 || text[|text| - 1] != o.pad then text
    else if text[|text| - 2] != o.pad then text[..|text| - 1]
    else text[..|text| - 2]
  }

  datatype Decoding = Bytes(data: seq<Byte>) | Invalid

  ghost function Decoded(o: Options, text: seq<Byte>): Decoding {
    var vs := Values(o, Stripped(o, text));
    if Whole(vs) then Bytes(Octets(vs)) else Invalid
  }

  ghost predicate RoundTrips(o: Options) {
    forall data :: Decoded(o, Encoded(o, data)) == Bytes(data)
  }

  function Unpadded(o: Options): Options {
    o.(pad := 0)
  }

  // ---------- round trips ----------

  lemma TextValues(o: Options, vs: seq<nat>)
    requires Unambiguous(o) && AllSextets(vs)
    ensures Values(o, Text(o, vs)) == vs
  {
    UnambiguousValues(o);
  }

  lemma ValuesText(o: Options, text: seq<Byte>)
    requires AllSextets(Values(o, text))
    ensures Text(o, Values(o, text)) == text
  {
    assert forall i :: 0 <= i < |text| ==> Values(o, text)[i] == Value(o, text[i]);
  }

  lemma NoPadInside(o: Options, vs: seq<nat>)
    requires PadApart(o) && o.pad != 0 && AllSextets(vs)
    ensures o.pad !in Text(o, vs)
  {
    assert forall i :: 0 <= i < |vs| ==> Text(o, vs)[i] == Symbol(o, vs[i]);
  }

  lemma StripNothing(o: Options, text: seq<Byte>)
    requires o.pad != 0 ==> o.pad !in text
    ensures Stripped(o, text) == text
  {
  }

  lemma StripTail(o: Options, text: seq<Byte>, n: nat)
    requires o.pad != 0 && o.pad !in text && |text| % 4 == (if n % 3 == 0 then 0 else n % 3 + 1)
    ensures Stripped(o, text + Padding(o, n)) == text
  {
    hide Stripped;
    if n % 3 == 1 {
      StripTwo(o, text);
    } else if n % 3 == 2 {
      StripOne(o, text);
    } else {
      assert text + [] == text;
      StripNone(o, text);
    }
  }

  lemma StripTwo(o: Options, text: seq<Byte>)
    requires o.pad != 0 && |text| % 4 == 2
    ensures Stripped(o, text + [o.pad, o.pad]) == text
  {
    var t := text + [o.pad, o.pad];
    assert |t| % 4 == 0;
    assert t[|t| - 1] == t[|t| - 2] == o.pad;
  }

  lemma StripOne(o: Options, text: seq<Byte>)
    requires o.pad != 0 && o.pad !in text && |text| % 4 == 3
    ensures Stripped(o, text + [o.pad]) == text
  {
    var t := text + [o.pad];
    assert |t| % 4 == 0;
    assert t[|t| - 1] == o.pad && t[|t| - 2] == text[|text| - 1];
  }

  lemma StripNone(o: Options, text: seq<Byte>)
    requires o.pad !in text
    ensures Stripped(o, text) == text
  {
  }

  lemma ModFour(q: nat, r: nat)
    requires r < 4
    ensures (q * 4 + r) % 4 == r
  {
  }

  lemma NoPadding(o: Options, n: nat)
    requires o.pad == 0
    ensures Padding(o, n) == []
  {
  }

  /** Stripping removes exactly the padding, because the pad character stands for no sextet. */
  lemma StripsPadding(o: Options, data: seq<Byte>)
    requires PadApart(o)
    ensures Stripped(o, Encoded(o, data)) == Text(o, Sextets(data))
    ensures Stripped(o, Text(o, Sextets(data))) == Text(o, Sextets(data))
  {
    hide Sextets, Stripped, Text, Padding, PadApart;
    var text := Text(o, Sextets(data));
    if o.pad != 0 {
      NoPadInside(o, Sextets(data));
      ModFour(|data| / 3, if |data| % 3 == 0 then 0 else |data| % 3 + 1);
      StripTail(o, text, |data|);
    } else {
      NoPadding(o, |data|);
      assert Encoded(o, data) == text;
    }
    StripNothing(o, text);
  }

  /** With an unambiguous alphabet decoding undoes encoding, whether or not the text was padded. */
  lemma DecodeEncode(o: Options, data: seq<Byte>)
    requires Unambiguous(o) && PadApart(o)
    ensures Decoded(o, Encoded(o, data)) == Bytes(data)
    ensures Decoded(o, Encoded(Unpadded(o), data)) == Bytes(data)
  {
    hide Sextets, Octets, Stripped, Value, Symbol;
    StripsPadding(o, data);
    TextValues(o, Sextets(data));
    SextetsWhole(data);
    SextetsBack(data);
    SameText(o, data);
  }

  lemma SameText(o: Options, data: seq<Byte>)
    ensures Encoded(Unpadded(o), data) == Text(o, Sextets(data))
  {
  }

  /** A text that spells three bytes but does not decode to them. */
  lemma Ambiguous(o: Options, k: nat) returns (data: seq<Byte>)
    requires k < 64 && Value(o, Symbol(o, k)) != k
    ensures Decoded(o, Encoded(o, data)) != Bytes(data)
  {
    hide Sextets, Octets, Value, Symbol;
    var j := OtherThanPad(o);
    var vs := [k, j, j, j];
    data := Octets(vs);
    OctetsBack(vs);
    var text := Text(o, vs);
    assert Encoded(o, data) == text && Stripped(o, text) == text;
    var read := Values(o, text);
    forall i | 0 <= i < 4
      ensures read[i] < 64
    {
      ReadsSomething(o, vs[i]);
      assert read[i] == Value(o, text[i]) && text[i] == Symbol(o, vs[i]);
    }
    assert read[0] == Value(o, text[0]) && text[0] == Symbol(o, k);
    OctetsBack(read);
    assert Decoded(o, text) == Bytes(Octets(read));
  }

  lemma ReadsSomething(o: Options, k: nat)
    requires k < 64
    ensures Value(o, Symbol(o, k)) < 64
  {
  }

  lemma OtherThanPad(o: Options) returns (j: nat)
    ensures j < 64 && Symbol(o, j) != o.pad
  {
    j := if o.pad == 65 then 1 else 0;
  }

  /** A text whose last symbol is taken for padding. */
  lemma PadMistaken(o: Options) returns (data: seq<Byte>)
    requires !PadApart(o)
    ensures Decoded(o, Encoded(o, data)) != Bytes(data)
  {
    hide Sextets, Octets;
    var vs := [0, 0, 0, Value(o, o.pad)];
    data := Octets(vs);
    OctetsBack(vs);
    var text := Text(o, vs);
    assert Encoded(o, data) == text && text[3] == o.pad;
    assert |Stripped(o, text)| < 4;
  }

  /** Exactly the alphabets that make every round trip work. */
  lemma RoundTripExactly(o: Options)
    ensures RoundTrips(o) <==> Unambiguous(o) && PadApart(o)
  {
    hide Encoded, Decoded, PadApart, Unambiguous;
    if Unambiguous(o) && PadApart(o) {
      forall data
        ensures Decoded(o, Encoded(o, data)) == Bytes(data)
      {
        DecodeEncode(o, data);
      }
    } else if !PadApart(o) {
      var data := PadMistaken(o);
    } else {
      UnambiguousValues(o);
      var k: nat :| k < 64 && Value(o, Symbol(o, k)) != k;
      var data := Ambiguous(o, k);
    }
  }

  /** Only canonical texts are accepted: apart from padding, an accepted text is the encoding of what it
      decodes to, whatever the alphabet. */
  lemma Canonical(o: Options, text: seq<Byte>, data: seq<Byte>)
    requires Decoded(o, text) == Bytes(data)
    ensures Encoded(Unpadded(o), data) == Stripped(o, text)
  {
    hide Sextets, Octets, Stripped, Value, Symbol;
    var s := Stripped(o, text);
    OctetsBack(Values(o, s));
    ValuesText(o, s);
    SameText(o, data);
  }

  /** Two accepted texts with the same meaning differ only in padding. */
  lemma MeaningDecidesText(o: Options, a: seq<Byte>, b: seq<Byte>)
    requires Decoded(o, a).Bytes? && Decoded(o, a) == Decoded(o, b)
    ensures Stripped(o, a) == Stripped(o, b)
  {
    hide Stripped, Encoded, Decoded;
    Canonical(o, a, Decoded(o, a).data);
    Canonical(o, b, Decoded(o, b).data);
  }

  /** With an unambiguous alphabet the accepted texts are exactly the encodings, padded or not. */
  lemma AcceptedExactly(o: Options, text: seq<Byte>, data: seq<Byte>)
    requires Unambiguous(o)
    ensures Decoded(o, text) == Bytes(data) <==> Stripped(o, text) == Encoded(Unpadded(o), data)
  {
    hide Sextets, Octets, Stripped, Value, Symbol;
    if Decoded(o, text) == Bytes(data) {
      Canonical(o, text, data);
    }
    if Stripped(o, text) == Encoded(Unpadded(o), data) {
      SameText(o, data);
      TextValues(o, Sextets(data));
      SextetsWhole(data);
      SextetsBack(data);
    }
  }

  // ---------- base64_encode ----------

  /** A write of the given bytes at the start of out, followed by a zero byte where there is room. */
  twostate predicate Wrote(out: array<Byte>, bytes: seq<Byte>, terminated: bool)
    reads out
  {
    var end := |bytes| + if terminated && |bytes| < out.Length then 1 else 0;
    && |bytes| <= out.Length && out[..|bytes|] == bytes
    && (end > |bytes| ==> out[|bytes|] == 0)
    && out[end..] == old(out[end..])
  }

  method EncodeTable(o: Options) returns (table: array<Byte>)
    ensures fresh(table) && table.Length == 64 && forall v: nat :: v < 64 ==> table[v] == Symbol(o, v)
  {
    table := new Byte[64](i => if 0 <= i < 62 then Core(i) else 0);
    table[62] := o.ch62;
    table[63] := o.ch63;
  }

  lemma TextFour(o: Options, v: nat)
    ensures Text(o, Four(v)) ==
            [Symbol(o, Four(v)[0]), Symbol(o, Four(v)[1]), Symbol(o, Four(v)[2]), Symbol(o, Four(v)[3])]
  {
    hide Symbol;
  }

  lemma TextConcat(o: Options, a: seq<nat>, b: seq<nat>)
    requires AllSextets(a) && AllSextets(b)
    ensures Text(o, a + b) == Text(o, a) + Text(o, b)
  {
    hide Symbol;
  }

  lemma SextetsStep(data: seq<Byte>, i: nat)
    requires i + 3 <= |data|
    ensures Sextets(data[i..]) == Four(Triple(data[i], data[i + 1], data[i + 2])) + Sextets(data[i + 3..])
  {
    hide Four, Triple;
    assert data[i..][3..] == data[i + 3..];
  }

  method PutFour(v: nat, out: array<Byte>, off: nat, table: array<Byte>, o: Options)
    requires table != out && table.Length == 64 && forall k: nat :: k < 64 ==> table[k] == Symbol(o, k)
    requires off + 4 <= out.Length
    modifies out
    ensures out[..off + 4] == old(out[..off]) + Text(o, Four(v)) && out[off + 4..] == old(out[off + 4..])
  {
    hide Symbol;
    TextFour(o, v);
    out[off] := table[v / 0x40000 % 64];
    out[off + 1] := table[v / 0x1000 % 64];
    out[off + 2] := table[v / 64 % 64];
    out[off + 3] := table[v % 64];
  }

  /** base64_encode, the main loop over whole groups. */
  method EncodeGroups(data: seq<Byte>, out: array<Byte>, table: array<Byte>, o: Options)
    returns (inOff: nat, outOff: nat)
    requires table != out && table.Length == 64 && forall v: nat :: v < 64 ==> table[v] == Symbol(o, v)
    requires |Sextets(data)| <= out.Length
    modifies out
    ensures |data| - 3 < inOff <= |data| && Threes(inOff)
    ensures outOff + |Sextets(data[inOff..])| == |Sextets(data)|
    ensures out[..outOff] + Text(o, Sextets(data[inOff..])) == Text(o, Sextets(data))
    ensures out[outOff..] == old(out[outOff..])
  {
    hide Sextets, Symbol, Triple, Text, Four, Threes;
    inOff, outOff := 0, 0;
    NextThree(0);
    assert data[0..] == data;
    while inOff + 3 <= |data|
      invariant inOff <= |data| && Threes(inOff) && outOff + |Sextets(data[inOff..])| == |Sextets(data)|
      invariant out[..outOff] + Text(o, Sextets(data[inOff..])) == Text(o, Sextets(data))
      invariant out[outOff..] == old(out[outOff..])
      invariant forall v: nat :: v < 64 ==> table[v] == Symbol(o, v)
    {
      var v := Triple(data[inOff], data[inOff + 1], data[inOff + 2]);
      SextetsStep(data, inOff);
      TextConcat(o, Four(v), Sextets(data[inOff + 3..]));
      NextThree(inOff);
      PutFour(v, out, outOff, table, o);
      inOff, outOff := inOff + 3, outOff + 4;
    }
  }

  /** base64_encode. */
  method Encode(data: seq<Byte>, out: array?<Byte>, arg: OptionsArg) returns (r: int)
    modifies if out == null then {} else {out}
    ensures out == null ==> r == |Encoded(Effective(arg), data)| + 1
    ensures out != null && out.Length < |Encoded(Effective(arg), data)| ==> r == -ENOBUFS && out[..] == old(out[..])
    ensures out != null && out.Length >= |Encoded(Effective(arg), data)| ==>
              r == |Encoded(Effective(arg), data)| && Wrote(out, Encoded(Effective(arg), data), true)
  {
    hide Sextets, Symbol, Triple, Text, Encoded;
    var o := Effective(arg);
    EncodedSize(o, data);
    var needed := (|data| + 2) / 3 * 4;
    if o.pad == 0 {
      if |data| % 3 == 1 {
        needed := needed - 2;
      } else if |data| % 3 == 2 {
        needed := needed - 1;
      }
    }
    if out == null {
      return needed + 1;
    }
    if out.Length < needed {
      return -ENOBUFS;
    }
    r := EncodeAll(data, out, o);
    if r < out.Length {
      assert old(out[r..])[1..] == old(out[r + 1..]) && out[r..][1..] == out[r + 1..];
      out[r] := 0;
      assert out[..r] == Encoded(o, data);
    }
  }

  /** base64_encode, the writing of the characters. */
  method EncodeAll(data: seq<Byte>, out: array<Byte>, o: Options) returns (r: nat)
    requires |Encoded(o, data)| <= out.Length
    modifies out
    ensures r == |Encoded(o, data)| && out[..r] == Encoded(o, data) && out[r..] == old(out[r..])
  {
    hide Sextets, Symbol, Triple, Text;
    var table := EncodeTable(o);
    var inOff, outOff := EncodeGroups(data, out, table, o);
    hide Encoded;
    r := EncodeTail(data, inOff, out, outOff, table, o);
    assert out[r..] == old(out[r..]);
  }

  lemma EncodedSize(o: Options, data: seq<Byte>)
    ensures
      |Encoded(o, data)| ==
      (|data| + 2) / 3 * 4 - if o.pad != 0 || |data| % 3 == 0 then 0 else if |data| % 3 == 1 then 2 else 1
  {
    hide Sextets, Symbol;
  }

  /** base64_encode, the tail of one or two bytes. */
  method EncodeTail(data: seq<Byte>, inOff: nat, out: array<Byte>, outOff0: nat, table: array<Byte>, o: Options)
    returns (outOff: nat)
    requires table != out && table.Length == 64 && forall v: nat :: v < 64 ==> table[v] == Symbol(o, v)
    requires |data| - 3 < inOff <= |data| && inOff % 3 == 0 && outOff0 + |Sextets(data[inOff..])| == |Sextets(data)|
    requires outOff0 <= out.Length && |Encoded(o, data)| <= out.Length
    requires out[..outOff0] + Text(o, Sextets(data[inOff..])) == Text(o, Sextets(data))
    modifies out
    ensures outOff0 <= outOff == |Encoded(o, data)| && out[..outOff] == Encoded(o, data)
    ensures out[outOff..] == old(out[outOff..])
  {
    hide Symbol, Triple, Text, Encoded, Sextets, Padding, Four;
    outOff := outOff0;
    ghost var done := out[..outOff0];
    TailEncoded(o, data, inOff, done);
    if inOff + 1 == |data| {
      outOff := EncodeTwo(data[inOff], out, outOff0, table, o);
    } else if inOff + 2 == |data| {
      outOff := EncodeThree(data[inOff], data[inOff + 1], out, outOff0, table, o);
    }
  }

  /** base64_encode, one byte left over. */
  method EncodeTwo(a: Byte, out: array<Byte>, outOff0: nat, table: array<Byte>, o: Options)
    returns (outOff: nat)
    requires table != out && table.Length == 64 && forall v: nat :: v < 64 ==> table[v] == Symbol(o, v)
    requires outOff0 + (if o.pad == 0 then 2 else 4) <= out.Length
    modifies out
    ensures outOff == outOff0 + if o.pad == 0 then 2 else 4
    ensures out[..outOff] ==
            old(out[..outOff0]) + Text(o, Four(Triple(a, 0, 0))[..2]) + if o.pad == 0 then [] else [o.pad, o.pad]
    ensures out[outOff..] == old(out[outOff..])
  {
    hide Symbol, Triple, Text;
    var v := Triple(a, 0, 0);
    TextTwo(o, v);
    out[outOff0] := table[v / 0x40000 % 64];
    out[outOff0 + 1] := table[v / 0x1000 % 64];
    outOff := outOff0 + 2;
    assert out[..outOff] == old(out[..outOff0]) + Text(o, Four(v)[..2]);
    if o.pad != 0 {
      out[outOff] := o.pad;
      out[outOff + 1] := o.pad;
      outOff := outOff + 2;
    }
  }

  /** base64_encode, two bytes left over. */
  method EncodeThree(a: Byte, b: Byte, out: array<Byte>, outOff0: nat, table: array<Byte>, o: Options)
    returns (outOff: nat)
    requires table != out && table.Length == 64 && forall v: nat :: v < 64 ==> table[v] == Symbol(o, v)
    requires outOff0 + (if o.pad == 0 then 3 else 4) <= out.Length
    modifies out
    ensures outOff == outOff0 + if o.pad == 0 then 3 else 4
    ensures out[..outOff] ==
            old(out[..outOff0]) + Text(o, Four(Triple(a, b, 0))[..3]) + if o.pad == 0 then [] else [o.pad]
    ensures out[outOff..] == old(out[outOff..])
  {
    hide Symbol, Triple, Text;
    var v := Triple(a, b, 0);
    TextThree(o, v);
    out[outOff0] := table[v / 0x40000 % 64];
    out[outOff0 + 1] := table[v / 0x1000 % 64];
    out[outOff0 + 2] := table[v / 64 % 64];
    outOff := outOff0 + 3;
    assert out[..outOff] == old(out[..outOff0]) + Text(o, Four(v)[..3]);
    if o.pad != 0 {
      out[outOff] := o.pad;
      outOff := outOff + 1;
    }
  }

  /** What is left to write after the last whole group. */
  lemma TailEncoded(o: Options, data: seq<Byte>, inOff: nat, done: seq<Byte>)
    requires |data| - 3 < inOff <= |data| && inOff % 3 == 0
    requires done + Text(o, Sextets(data[inOff..])) == Text(o, Sextets(data))
    ensures
      var n := |data| - inOff;
      Encoded(o, data) ==
      if n == 0 then done
      else if n == 1 then
        done + Text(o, Four(Triple(data[inOff], 0, 0))[..2]) + (if o.pad == 0 then [] else [o.pad, o.pad])
      else done + Text(o, Four(Triple(data[inOff], data[inOff + 1], 0))[..3]) + (if o.pad == 0 then [] else [o.pad])
  {
    hide Four, Triple, Symbol, Text, Sextets, Padding;
    TailPadding(o, |data|, inOff);
    if inOff == |data| {
      NoSextets(o);
      assert data[inOff..] == [] && done + [] == done;
    } else {
      TailSextets(data[inOff..]);
    }
  }

  lemma TailPadding(o: Options, n: nat, i: nat)
    requires n - 3 < i <= n && i % 3 == 0
    ensures Padding(o, n) == if o.pad == 0 || n == i then [] else if n == i + 1 then [o.pad, o.pad] else [o.pad]
  {
    assert n % 3 == n - i;
  }

  lemma NoSextets(o: Options)
    ensures Text(o, Sextets([])) == []
  {
  }

  lemma TailSextets(rest: seq<Byte>)
    ensures |rest| == 1 ==> Sextets(rest) == Four(Triple(rest[0], 0, 0))[..2]
    ensures |rest| == 2 ==> Sextets(rest) == Four(Triple(rest[0], rest[1], 0))[..3]
  {
  }

  lemma TextTwo(o: Options, v: nat)
    ensures Text(o, Four(v)[..2]) == [Symbol(o, Four(v)[0]), Symbol(o, Four(v)[1])]
  {
    hide Symbol;
  }

  lemma TextThree(o: Options, v: nat)
    ensures Text(o, Four(v)[..3]) == [Symbol(o, Four(v)[0]), Symbol(o, Four(v)[1]), Symbol(o, Four(v)[2])]
  {
    hide Symbol;
  }

  // ---------- base64_decode ----------

  /** base64_decode, the table: 0xff everywhere, then the core, then the two optional characters. */
  method DecodeTable(o: Options) returns (table: array<Byte>)
    ensures fresh(table) && table.Length == 256 && forall ch: Byte :: table[ch] == Value(o, ch)
  {
    table := new Byte[256](_ => 255);
    for i := 0 to 62
      invariant forall ch: Byte :: table[ch] == if CoreIndex(ch) < i then CoreIndex(ch) else 255
    {
      table[Core(i)] := i;
    }
    table[o.ch62] := 62;
    table[o.ch63] := 63;
  }

  /** base64_decode ignores at most two pad characters. */
  method StripPadding(text: seq<Byte>, o: Options) returns (size: nat)
    ensures size <= |text| && text[..size] == Stripped(o, text)
  {
    size := |text|;
    if o.pad != 0 && size > 0 && size % 4 == 0 {
      if text[size - 1] == o.pad {
        size := size - 1;
      }
      if text[size - 1] == o.pad {
        size := size - 1;
      }
    }
  }

  /** base64_decode, validation: every character known, a length and last bits that encoding can produce. */
  method Validate(s: seq<Byte>, table: array<Byte>, o: Options) returns (ok: bool, needed: nat)
    requires table.Length == 256 && forall ch: Byte :: table[ch] == Value(o, ch)
    ensures ok <==> Whole(Values(o, s))
    ensures ok ==> needed == |Octets(Values(o, s))|
  {
    needed := |s| / 4 * 3;
    var i := 0;
    while i < |s|
      invariant i <= |s| && forall k :: 0 <= k < i ==> Values(o, s)[k] < 64
    {
      if table[s[i]] == 0xff {
        assert Values(o, s)[i] == 255;
        return false, needed;
      }
      i := i + 1;
    }
    ok := true;
    if |s| % 4 == 1 {
      ok := false;
    } else if |s| % 4 == 2 {
      // The mask 0x4f: the low four bits of a value below 64.
      ok := table[s[|s| - 1]] % 16 == 0;
      needed := needed + 1;
    } else if |s| % 4 == 3 {
      // The mask 0xc3: the low two bits of a value below 64.
      ok := table[s[|s| - 1]] % 4 == 0;
      needed := needed + 2;
    }
  }

  lemma OctetsStep(vs: seq<nat>, i: nat)
    requires AllSextets(vs) && i + 4 <= |vs|
    ensures Octets(vs[i..]) == Three(Quad(vs[i], vs[i + 1], vs[i + 2], vs[i + 3])) + Octets(vs[i + 4..])
  {
    hide Three, Quad;
    assert vs[i..][4..] == vs[i + 4..];
  }

  /** So many bytes are whole groups of three. */
  ghost predicate Threes(i: nat) {
    i % 3 == 0
  }

  /** So many characters are whole groups of four. */
  ghost predicate Fours(i: nat) {
    i % 4 == 0
  }

  lemma NextThree(i: nat)
    ensures Threes(0) && (Threes(i) ==> Threes(i + 3))
  {
  }

  lemma NextFour(i: nat)
    ensures Fours(0) && (Fours(i) ==> Fours(i + 4))
  {
  }

  lemma Regrouped(a: seq<Byte>, b: seq<Byte>, c: seq<Byte>)
    ensures a + b + c == a + (b + c)
  {
  }

  lemma OctetsTail(vs: seq<nat>, i: nat)
    requires AllSextets(vs) && |vs| - 4 < i <= |vs| && i % 4 == 0
    ensures Octets(vs[i..]) ==
            if i + 2 == |vs| then Three(Quad(vs[i], vs[i + 1], 0, 0))[..1]
            else if i + 3 == |vs| then Three(Quad(vs[i], vs[i + 1], vs[i + 2], 0))[..2]
            else []
  {
    hide Three, Quad;
  }

  method PutThree(v: nat, out: array<Byte>, off: nat, ghost rest: seq<Byte>)
    requires off + 3 <= out.Length
    modifies out
    ensures out[..off + 3] + rest == old(out[..off]) + (Three(v) + rest) && out[off + 3..] == old(out[off + 3..])
  {
    ghost var done := out[..off];
    out[off] := v / 0x10000 % 256;
    out[off + 1] := v / 256 % 256;
    out[off + 2] := v % 256;
    assert out[..off + 3] == done + Three(v);
    Regrouped(done, Three(v), rest);
  }

  /** base64_decode, the main loop over whole groups. */
  method DecodeGroups(s: seq<Byte>, out: array<Byte>, table: array<Byte>, o: Options)
    returns (inOff: nat, outOff: nat)
    requires table != out && table.Length == 256 && forall ch: Byte :: table[ch] == Value(o, ch)
    requires Whole(Values(o, s)) && |Octets(Values(o, s))| <= out.Length
    modifies out
    ensures |s| - 4 < inOff <= |s| && Fours(inOff)
    ensures outOff + |Octets(Values(o, s)[inOff..])| == |Octets(Values(o, s))|
    ensures out[..outOff] + Octets(Values(o, s)[inOff..]) == Octets(Values(o, s))
    ensures out[outOff..] == old(out[outOff..])
  {
    hide Octets, Quad, Value, Three, Fours, Left, Whole;
    ghost var vs := Values(o, s);
    inOff, outOff := 0, 0;
    NextFour(0);
    LeftStart(vs);
    while inOff + 4 <= |s|
      invariant inOff <= |s| && Fours(inOff) && outOff + |Left(vs, inOff)| == |Left(vs, 0)|
      invariant out[..outOff] + Left(vs, inOff) == Left(vs, 0)
      invariant out[outOff..] == old(out[outOff..])
      invariant forall ch: Byte :: table[ch] == Value(o, ch)
    {
      var v := Quad(table[s[inOff]], table[s[inOff + 1]], table[s[inOff + 2]], table[s[inOff + 3]]);
      LeftStep(vs, inOff);
      NextFour(inOff);
      PutThree(v, out, outOff, Left(vs, inOff + 4));
      inOff, outOff := inOff + 4, outOff + 3;
    }
    LeftEnd(vs, inOff);
  }

  /** What is left to write from character i on. */
  ghost function Left(vs: seq<nat>, i: nat): seq<Byte>
    requires AllSextets(vs)
  {
    if i <= |vs| then Octets(vs[i..]) else []
  }

  lemma LeftStart(vs: seq<nat>)
    requires Whole(vs)
    ensures AllSextets(vs) && Left(vs, 0) == Octets(vs)
  {
    hide Octets;
    assert vs[0..] == vs;
  }

  lemma LeftStep(vs: seq<nat>, i: nat)
    requires AllSextets(vs) && i + 4 <= |vs|
    ensures Left(vs, i) == Three(Quad(vs[i], vs[i + 1], vs[i + 2], vs[i + 3])) + Left(vs, i + 4)
  {
    hide Octets, Three, Quad;
    OctetsStep(vs, i);
  }

  lemma LeftEnd(vs: seq<nat>, i: nat)
    requires AllSextets(vs) && i <= |vs|
    ensures AllSextets(vs[i..]) && Left(vs, i) == Octets(vs[i..])
  {
  }

  /** base64_decode, the tail of two or three characters. */
  method DecodeTail(s: seq<Byte>, inOff: nat, out: array<Byte>, outOff0: nat, table: array<Byte>, o: Options)
    returns (outOff: nat)
    requires table != out && table.Length == 256 && forall ch: Byte :: table[ch] == Value(o, ch)
    requires Whole(Values(o, s)) && |Octets(Values(o, s))| <= out.Length && outOff0 <= out.Length
    requires |s| - 4 < inOff <= |s| && inOff % 4 == 0
    requires outOff0 + |Octets(Values(o, s)[inOff..])| == |Octets(Values(o, s))|
    requires out[..outOff0] + Octets(Values(o, s)[inOff..]) == Octets(Values(o, s))
    modifies out
    ensures outOff == |Octets(Values(o, s))| && out[..outOff] == Octets(Values(o, s))
    ensures out[outOff..] == old(out[outOff..])
  {
    hide Octets, Quad, Value;
    ghost var vs := Values(o, s);
    outOff := outOff0;
    OctetsTail(vs, inOff);
    ghost var done := out[..outOff];
    if inOff + 2 == |s| {
      var v := Quad(table[s[inOff]], table[s[inOff + 1]], 0, 0);
      out[outOff] := v / 0x10000 % 256;
      outOff := outOff + 1;
      assert out[..outOff] == done + Three(v)[..1];
    } else if inOff + 3 == |s| {
      var v := Quad(table[s[inOff]], table[s[inOff + 1]], table[s[inOff + 2]], 0);
      out[outOff] := v / 0x10000 % 256;
      out[outOff + 1] := v / 256 % 256;
      outOff := outOff + 2;
      assert out[..outOff] == done + Three(v)[..2];
    }
  }

  /** base64_decode. */
  method Decode(text: seq<Byte>, out: array?<Byte>, arg: OptionsArg) returns (r: int)
    modifies if out == null then {} else {out}
    ensures Decoded(Effective(arg), text).Invalid? ==> r == -EINVAL && (out != null ==> out[..] == old(out[..]))
    ensures Decoded(Effective(arg), text).Bytes? ==>
              var data := Decoded(Effective(arg), text).data;
              && (out == null ==> r == |data|)
              && (out != null && out.Length < |data| ==> r == -ENOBUFS && out[..] == old(out[..]))
              && (out != null && out.Length >= |data| ==> r == |data| && Wrote(out, data, false))
  {
    hide Octets, Value, Stripped;
    var o := Effective(arg);
    var size := StripPadding(text, o);
    var table := DecodeTable(o);
    var ok, needed := Validate(text[..size], table, o);
    if !ok {
      return -EINVAL;
    }
    if out == null {
      return needed;
    }
    if out.Length < needed {
      return -ENOBUFS;
    }
    r := DecodeAll(text[..size], out, table, o);
  }

  /** base64_decode, the writing of the bytes. */
  method DecodeAll(s: seq<Byte>, out: array<Byte>, table: array<Byte>, o: Options) returns (r: nat)
    requires table != out && table.Length == 256 && forall ch: Byte :: table[ch] == Value(o, ch)
    requires Whole(Values(o, s)) && |Octets(Values(o, s))| <= out.Length
    modifies out
    ensures r == |Octets(Values(o, s))| && Wrote(out, Octets(Values(o, s)), false)
  {
    hide Octets, Value;
    var inOff, outOff := DecodeGroups(s, out, table, o);
    r := DecodeTail(s, inOff, out, outOff, table, o);
    assert old(out[outOff..])[r - outOff..] == old(out[r..]);
  }
}
