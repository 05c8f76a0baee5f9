/** encode/base64.c against the text of RFC 4648: the alphabet letter by letter, and the test vectors. */
module Base64Text {
  import opened Keys
  import opened SixBits
  import opened Base64

  // Table 1 of RFC 4648: the 64 characters in the order of their values.

  lemma FirstLetters()
    ensures Text(Effective(Default), [0, 1, 2, 3, 4, 5, 6, 7, 8, 9, 10, 11, 12, 13, 14, 15]) ==
            Ascii("ABCDEFGHIJKLMNOP")
  {
  }

  lemma SecondLetters()
    ensures Text(Effective(Default), [16, 17, 18, 19, 20, 21, 22, 23, 24, 25, 26, 27, 28, 29, 30, 31]) ==
            Ascii("QRSTUVWXYZabcdef")
  {
  }

  lemma ThirdLetters()
    ensures Text(Effective(Default), [32, 33, 34, 35, 36, 37, 38, 39, 40, 41, 42, 43, 44, 45, 46, 47]) ==
            Ascii("ghijklmnopqrstuv")
  {
  }

  lemma LastLetters()
    ensures Text(Effective(Default), [48, 49, 50, 51, 52, 53, 54, 55, 56, 57, 58, 59, 60, 61, 62, 63]) ==
            Ascii("wxyz0123456789+/")
    ensures Effective(Default).pad == '=' as int
  {
  }


  /** The options decide only the last two characters and the padding. */
  lemma OptionsDecide(o: Options, v: nat)
    requires v < 64
    ensures Symbol(o, v) ==
            if v == 62 then o.ch62 else if v == 63 then o.ch63 else Symbol(Effective(Default), v)
  {
  }

  // ---------- what a group of bytes is written as ----------

  lemma OneByte(o: Options, a: Byte)
    ensures Encoded(o, [a]) ==
            [Symbol(o, a / 4), Symbol(o, a % 4 * 16)] + if o.pad == 0 then [] else [o.pad, o.pad]
  {
    hide Triple, Four, Symbol;
    FourOf(a, 0, 0);
    TextTwo(o, Triple(a, 0, 0));
  }

  lemma TwoBytes(o: Options, a: Byte, b: Byte)
    ensures Encoded(o, [a, b]) ==
            [Symbol(o, a / 4), Symbol(o, a % 4 * 16 + b / 16), Symbol(o, b % 16 * 4)]
              + if o.pad == 0 then [] else [o.pad]
  {
    hide Triple, Four, Symbol;
    FourOf(a, b, 0);
    TextThree(o, Triple(a, b, 0));
  }

  lemma ThreeBytes(o: Options, a: Byte, b: Byte, c: Byte)
    ensures Encoded(o, [a, b, c]) ==
            [Symbol(o, a / 4), Symbol(o, a % 4 * 16 + b / 16), Symbol(o, b % 16 * 4 + c / 64), Symbol(o, c % 64)]
  {
    hide Triple, Four, Symbol;
    FourOf(a, b, c);
    TextFour(o, Triple(a, b, c));
    assert Sextets([a, b, c]) == Four(Triple(a, b, c)) + Sextets([]);
  }

  /** Three bytes at a time: what follows a group does not change its characters. */
  lemma GroupByGroup(o: Options, group: seq<Byte>, rest: seq<Byte>)
    requires |group| == 3
    ensures Encoded(o, group + rest) == Encoded(o, group) + Encoded(o, rest)
  {
    hide Four, Triple, Symbol;
    assert (group + rest)[3..] == rest;
    assert Sextets(group + rest) == Sextets(group) + Sextets(rest);
    TextConcat(o, Sextets(group), Sextets(rest));
    assert Padding(o, 3) == [] && Padding(o, |rest| + 3) == Padding(o, |rest|);
  }

  /** The test vectors of section 10 of RFC 4648. */
  lemma Vectors()
    ensures Encoded(Effective(Default), Ascii("")) == Ascii("")
    ensures Encoded(Effective(Default), Ascii("f")) == Ascii("Zg==")
    ensures Encoded(Effective(Default), Ascii("fo")) == Ascii("Zm8=")
    ensures Encoded(Effective(Default), Ascii("foo")) == Ascii("Zm9v")
    ensures Encoded(Effective(Default), Ascii("foob")) == Ascii("Zm9vYg==")
    ensures Encoded(Effective(Default), Ascii("fooba")) == Ascii("Zm9vYmE=")
    ensures Encoded(Effective(Default), Ascii("foobar")) == Ascii("Zm9vYmFy")
  {
    hide Encoded;
    Vector0();
    Vector1();
    Vector2();
    Vector3();
    Vector4();
    Vector5();
    Vector6();
  }

  lemma Vector0()
    ensures Encoded(Effective(Default), Ascii("")) == Ascii("")
  {
  }

  lemma Vector1()
    ensures Encoded(Effective(Default), Ascii("f")) == Ascii("Zg==")
  {
    hide Encoded;
    OneByte(Effective(Default), 0x66);
    assert Ascii("f") == [0x66];
  }

  lemma Vector2()
    ensures Encoded(Effective(Default), Ascii("fo")) == Ascii("Zm8=")
  {
    hide Encoded;
    TwoBytes(Effective(Default), 0x66, 0x6f);
    assert Ascii("fo") == [0x66, 0x6f];
  }

  lemma Vector3()
    ensures Encoded(Effective(Default), Ascii("foo")) == Ascii("Zm9v")
  {
    hide Encoded;
    ThreeBytes(Effective(Default), 0x66, 0x6f, 0x6f);
    assert Ascii("foo") == [0x66, 0x6f, 0x6f];
  }

  lemma Vector4()
    ensures Encoded(Effective(Default), Ascii("foob")) == Ascii("Zm9vYg==")
  {
    hide Encoded;
    GroupByGroup(Effective(Default), Ascii("foo"), Ascii("b"));
    Vector3();
    VectorB();
    assert Ascii("foob") == Ascii("foo") + Ascii("b");
    assert Ascii("Zm9vYg==") == Ascii("Zm9v") + Ascii("Yg==");
  }

  lemma Vector5()
    ensures Encoded(Effective(Default), Ascii("fooba")) == Ascii("Zm9vYmE=")
  {
    hide Encoded;
    GroupByGroup(Effective(Default), Ascii("foo"), Ascii("ba"));
    Vector3();
    VectorBa();
    assert Ascii("fooba") == Ascii("foo") + Ascii("ba");
    assert Ascii("Zm9vYmE=") == Ascii("Zm9v") + Ascii("YmE=");
  }

  lemma Vector6()
    ensures Encoded(Effective(Default), Ascii("foobar")) == Ascii("Zm9vYmFy")
  {
    hide Encoded;
    GroupByGroup(Effective(Default), Ascii("foo"), Ascii("bar"));
    Vector3();
    VectorBar();
    assert Ascii("foobar") == Ascii("foo") + Ascii("bar");
    assert Ascii("Zm9vYmFy") == Ascii("Zm9v") + Ascii("YmFy");
  }

  lemma VectorB()
    ensures Encoded(Effective(Default), Ascii("b")) == Ascii("Yg==")
  {
    hide Encoded;
    OneByte(Effective(Default), 0x62);
    assert Ascii("b") == [0x62];
  }

  lemma VectorBa()
    ensures Encoded(Effective(Default), Ascii("ba")) == Ascii("YmE=")
  {
    hide Encoded;
    TwoBytes(Effective(Default), 0x62, 0x61);
    assert Ascii("ba") == [0x62, 0x61];
  }

  lemma VectorBar()
    ensures Encoded(Effective(Default), Ascii("bar")) == Ascii("YmFy")
  {
    hide Encoded;
    ThreeBytes(Effective(Default), 0x62, 0x61, 0x72);
    assert Ascii("bar") == [0x62, 0x61, 0x72];
  }

  // ---------- which texts are accepted ----------

  /** What the decoder ignores at the end of a text, in terms of the text alone. */
  lemma IgnoredTail(o: Options, text: seq<Byte>)
    ensures
      var s := Stripped(o, text);
      text == s || (o.pad != 0 && |text| % 4 == 0 && (text == s + [o.pad] || text == s + [o.pad, o.pad]))
  {
    var s := Stripped(o, text);
    if |s| == |text| - 1 {
      assert text == s + [o.pad];
    } else if |s| == |text| - 2 {
      assert text == s + [o.pad, o.pad];
    }
  }

  /** For every alphabet: an accepted text is the encoding of its bytes, without padding or with pad characters that
      fill the last group of four. */
  lemma AcceptedShape(o: Options, text: seq<Byte>, data: seq<Byte>)
    requires Decoded(o, text) == Bytes(data)
    ensures
      var s := Encoded(Unpadded(o), data);
      text == s || (o.pad != 0 && |text| % 4 == 0 && (text == s + [o.pad] || text == s + [o.pad, o.pad]))
  {
    hide Decoded, Encoded, Stripped;
    Canonical(o, text, data);
    IgnoredTail(o, text);
  }

  lemma PaddingFits(o: Options, data: seq<Byte>, tail: seq<Byte>)
    requires o.pad != 0 && (tail == [o.pad] || tail == [o.pad, o.pad])
    requires |Sextets(data)| % 4 + |tail| == 4
    ensures Padding(o, |data|) == tail
  {
    hide Sextets;
    ModFour(|data| / 3, if |data| % 3 == 0 then 0 else |data| % 3 + 1);
  }

  /** What base64_decode answers, in terms of the texts alone: with an alphabet that works, exactly the encoding with
      its padding and the encoding without padding give the bytes back. */
  lemma DecodedExactly(o: Options, text: seq<Byte>, data: seq<Byte>)
    requires Unambiguous(o) && PadApart(o)
    ensures Decoded(o, text) == Bytes(data) <==> text == Encoded(o, data) || text == Encoded(Unpadded(o), data)
  {
    hide Decoded, Sextets, Text, Padding, Unambiguous, PadApart;
    DecodeEncode(o, data);
    if Decoded(o, text) == Bytes(data) {
      AcceptedShape(o, text, data);
      SameText(o, data);
      var s := Text(o, Sextets(data));
      if text != s {
        var tail := text[|s|..];
        assert text == s + tail && (tail == [o.pad] || tail == [o.pad, o.pad]);
        FourthsLeft(|s|, |tail|);
        PaddingFits(o, data, tail);
      }
    }
  }

  lemma FourthsLeft(s: nat, tail: nat)
    requires (s + tail) % 4 == 0 && (tail == 1 || tail == 2)
    ensures s % 4 + tail == 4
  {
  }

  /** The refusals: three characters are no padded text, and a character outside the alphabet is none. */
  method Refusals() returns (odd: int, foreign: int, small: int)
    ensures odd == -22 && foreign == -22 && small == -105
  {
    hide Encoded;
    var out := new Byte[3];
    NoPaddedThree();
    odd := Decode(Ascii("QQ="), null, Default);
    NoStar();
    foreign := Decode(Ascii("Zm9*"), null, Default);
    Vector1();
    small := Encode(Ascii("f"), out, Default);
  }

  lemma NoPaddedThree()
    ensures Decoded(Effective(Default), Ascii("QQ=")).Invalid?
  {
    hide Octets;
    var o, text := Effective(Default), Ascii("QQ=");
    assert Values(o, Stripped(o, text))[2] == 255;
  }

  lemma NoStar()
    ensures Decoded(Effective(Default), Ascii("Zm9*")).Invalid?
  {
    hide Octets;
    var o, text := Effective(Default), Ascii("Zm9*");
    assert Values(o, Stripped(o, text))[3] == 255;
  }

  /** Encoding ends with a zero byte where there is room, decoding does not, and neither touches what lies behind. */
  method Terminators() returns (text: array<Byte>, data: array<Byte>, n: int, k: int)
    ensures fresh(text) && text[..] == Ascii("Zg==") + [0, 7] && n == 4
    ensures fresh(data) && data[..] == Ascii("f") + [7, 7] && k == 1
  {
    hide Encoded, Decoded;
    text := new Byte[6](_ => 7);
    data := new Byte[3](_ => 7);
    Vector1();
    assert text[5..] == [7];
    n := Encode(Ascii("f"), text, Default);
    assert text[5..] == [7];
    assert text[..] == text[..4] + [text[4]] + text[5..];
    DefaultWorks();
    DecodedExactly(Effective(Default), Ascii("Zg=="), Ascii("f"));
    assert data[1..] == [7, 7];
    k := Decode(Ascii("Zg=="), data, Default);
    assert data[1..] == [7, 7];
    assert data[..] == data[..1] + data[1..];
  }

  lemma DefaultWorks()
    ensures Unambiguous(Effective(Default)) && PadApart(Effective(Default))
  {
  }
}
