/** hash/crc32.c: the table-driven loop is the bit-at-a-time register, and what that register detects. */
module Crc32 {
  import opened Crc32Table

  const INIT_XOR: bv32 := 0xffffffff
  const FINAL_XOR: bv32 := 0xffffffff

  // ---------- single operations on a word ----------

  function Odd(w: bv32): bool {
    w & 1 == 1
  }

  function Half(w: bv32): bv32 {
    w >> 1
  }

  function Push(w: bv32, bit: bool): bv32 {
    (w << 1) | if bit then 1 else 0
  }

  predicate AtLeast(a: bv32, b: bv32) {
    a >= b
  }

  // ---------- the reference: one message bit at a time ----------

  /** The reflected shift register takes one message bit. */
  function FeedBit(c: bv32, bit: bool): bv32 {
    if (c & 1 == 1) != bit then (c >> 1) ^ POLY else c >> 1
  }

  function FeedBits(c: bv32, bits: seq<bool>): bv32
    decreases bits
  {
    if bits == [] then c else FeedBits(FeedBit(c, bits[0]), bits[1..])
  }

  /** The n low bits of a word, lowest first. */
  function BitsOf(w: bv32, n: nat): (bits: seq<bool>)
    ensures |bits| == n
    decreases n
  {
    if n == 0 then [] else [Odd(w)] + BitsOf(Half(w), n - 1)
  }

  function Bits(data: seq<bv8>): seq<bool> {
    if data == [] then [] else BitsOf(data[0] as bv32, 8) + Bits(data[1..])
  }

  function Checksum(bits: seq<bool>): bv32 {
    Xor(FeedBits(INIT_XOR, bits), FINAL_XOR)
  }

  lemma {:induction false} FeedConcat(c: bv32, x: seq<bool>, y: seq<bool>)
    ensures FeedBits(c, x + y) == FeedBits(FeedBits(c, x), y)
    decreases x
  {
    hide FeedBit;
    if x == [] {
      assert x + y == y;
    } else {
      assert (x + y)[1..] == x[1..] + y;
      FeedConcat(FeedBit(c, x[0]), x[1..], y);
    }
  }

  lemma {:induction false} BitsConcat(a: seq<bv8>, b: seq<bv8>)
    ensures Bits(a + b) == Bits(a) + Bits(b)
  {
    if a == [] {
      assert a + b == b;
    } else {
      assert (a + b)[1..] == a[1..] + b;
      BitsConcat(a[1..], b);
      var first := BitsOf(a[0] as bv32, 8);
      assert first + (Bits(a[1..]) + Bits(b)) == (first + Bits(a[1..])) + Bits(b);
    }
  }

  // ---------- a word at a time ----------

  function Drop(w: bv32, n: nat): bv32
    decreases n
  {
    if n == 0 then w else Drop(Half(w), n - 1)
  }

  lemma FeedLow(c: bv32, w: bv32)
    ensures Xor(FeedBit(c, Odd(w)), Half(w)) == Step(Xor(c, w))
  {
    hide FeedBit, Step, Odd, Half;
    FeedLowBits(c, w);
  }

  lemma FeedLowBits(c: bv32, w: bv32)
    ensures FeedBit(c, Odd(w)) ^ Half(w) == Step(c ^ w)
  {
    ShiftXor(c, w);
    LowXor(c, w);
    LowBit(c);
    LowBit(w);
    XorMoves(c >> 1, w >> 1, POLY);
  }

  /** Feeding n bits is xoring them in at once and shifting n times. */
  lemma {:induction false} FeedWord(c: bv32, w: bv32, n: nat)
    ensures Xor(FeedBits(c, BitsOf(w, n)), Drop(w, n)) == Steps(Xor(c, w), n)
    decreases n
  {
    hide FeedBit, Step, Xor, Odd, Half;
    if n > 0 {
      FeedLow(c, w);
      FeedWord(FeedBit(c, Odd(w)), Half(w), n - 1);
      assert BitsOf(w, n)[1..] == BitsOf(Half(w), n - 1);
    }
  }

  lemma DropByte(w: bv32)
    requires w < 256
    ensures Drop(w, 8) == 0
  {
    assert Drop(w, 8) == Drop(w >> 1 >> 1 >> 1 >> 1, 4);
  }

  lemma FeedByte(c: bv32, b: bv8)
    ensures FeedBits(c, BitsOf(b as bv32, 8)) == Steps8(Xor(c, b as bv32))
  {
    hide FeedBits, BitsOf, Drop, Steps8, Steps;
    FeedWord(c, b as bv32, 8);
    DropByte(b as bv32);
    StepsEight(Xor(c, b as bv32));
    assert Xor(FeedBits(c, BitsOf(b as bv32, 8)), 0) == FeedBits(c, BitsOf(b as bv32, 8));
  }

  // ---------- the table-driven step ----------

  function Low(c: bv32): (l: bv32)
    ensures l < 256
  {
    c & 0xff
  }

  function High(c: bv32): bv32 {
    c & 0xffffff00
  }

  function Shift8(c: bv32): bv32 {
    c >> 8
  }

  lemma HighShift(c: bv32)
    ensures Steps8(High(c)) == Shift8(c)
  {
  }

  lemma SplitByte(c: bv32, b: bv8)
    ensures Xor(High(c), Low(c)) == c
    ensures Shift8(Xor(c, b as bv32)) == Shift8(c)
  {
  }

  /** The body of the loop in crc32. */
  function Update(c: bv32, b: bv8): bv32 {
    Xor(Shift8(c), Entry(Low(Xor(c, b as bv32))))
  }

  /** One table lookup replaces eight shifts, because they distribute over exclusive or. */
  lemma TableStep(c: bv32, b: bv8)
    ensures Update(c, b) == FeedBits(c, BitsOf(b as bv32, 8))
  {
    hide Xor, Steps8, FeedBits, BitsOf, Entry, Low, High, Shift8;
    var x := Xor(c, b as bv32);
    HighShift(x);
    SplitByte(x, 0);
    SplitByte(c, b);
    EntryCorrect(Low(x));
    Steps8Xor(High(x), Low(x));
    FeedByte(c, b);
  }

  /** crc32. */
  method Crc32(data: seq<bv8>) returns (crc: bv32)
    ensures crc == Checksum(Bits(data))
  {
    hide FeedBits, BitsOf, Update, Xor, Bits;
    var crcreg := INIT_XOR;
    assert crcreg == FeedBits(INIT_XOR, Bits([])) by {
      FeedNone(INIT_XOR);
    }
    for i := 0 to |data|
      invariant crcreg == FeedBits(INIT_XOR, Bits(data[..i]))
    {
      TableStep(crcreg, data[i]);
      OneMore(data, i);
      crcreg := Update(crcreg, data[i]);
    }
    assert data[..|data|] == data;
    crc := Xor(crcreg, FINAL_XOR);
  }

  lemma FeedNone(c: bv32)
    ensures FeedBits(c, Bits([])) == c
  {
  }

  lemma OneMore(data: seq<bv8>, i: nat)
    requires i < |data|
    ensures FeedBits(INIT_XOR, Bits(data[..i + 1]))
         == FeedBits(FeedBits(INIT_XOR, Bits(data[..i])), BitsOf(data[i] as bv32, 8))
  {
    hide FeedBits, BitsOf;
    assert data[..i + 1] == data[..i] + [data[i]];
    BitsConcat(data[..i], [data[i]]);
    BitsSingle(data[i]);
    FeedConcat(INIT_XOR, Bits(data[..i]), BitsOf(data[i] as bv32, 8));
  }

  lemma BitsSingle(b: bv8)
    ensures Bits([b]) == BitsOf(b as bv32, 8)
  {
  }

  // ---------- every burst of at most 32 bits is detected ----------

  function Unstep(d: bv32): bv32 {
    if d >> 31 == 1 then ((d ^ POLY) << 1) | 1 else d << 1
  }

  lemma StepBack(c: bv32)
    ensures Unstep(Step(c)) == c
  {
    if c & 1 == 1 {
      OddBack(c);
    } else {
      EvenBack(c);
    }
  }

  lemma OddBack(c: bv32)
    requires c & 1 == 1
    ensures ((c >> 1) ^ POLY) >> 31 == 1
    ensures ((((c >> 1) ^ POLY) ^ POLY) << 1) | 1 == c
  {
  }

  lemma EvenBack(c: bv32)
    requires c & 1 != 1
    ensures (c >> 1) >> 31 == 0
    ensures (c >> 1) << 1 == c
  {
  }

  lemma {:induction false} StepsInjective(a: bv32, b: bv32, n: nat)
    requires Steps(a, n) == Steps(b, n)
    ensures a == b
    decreases n
  {
    hide Step, Unstep;
    if n > 0 {
      StepsInjective(Step(a), Step(b), n - 1);
      StepBack(a);
      StepBack(b);
    }
  }

  function BitWord(bit: bool): bv32 {
    if bit then 1 else 0
  }

  lemma FeedIsStep(c: bv32, bit: bool)
    ensures FeedBit(c, bit) == Step(Xor(c, BitWord(bit)))
  {
    hide Step, FeedBit, Xor, Odd, Half;
    FeedParts(c, bit);
    if bit {
      FlipLow(c);
      StepParts(Xor(c, 1));
    } else {
      XorNothing(c);
      StepParts(c);
    }
  }

  lemma FeedParts(c: bv32, bit: bool)
    ensures FeedBit(c, bit) == if Odd(c) != bit then Xor(Half(c), POLY) else Half(c)
  {
  }

  lemma StepParts(c: bv32)
    ensures Step(c) == if Odd(c) then Xor(Half(c), POLY) else Half(c)
  {
  }

  lemma XorNothing(c: bv32)
    ensures Xor(c, 0) == c
  {
  }

  lemma FlipLow(c: bv32)
    ensures Half(Xor(c, 1)) == Half(c) && Odd(Xor(c, 1)) == !Odd(c)
  {
    ShiftFlip(c);
  }

  lemma ShiftFlip(c: bv32)
    ensures (c ^ 1) >> 1 == c >> 1
    ensures (c ^ 1) & 1 == 1 <==> c & 1 != 1
  {
  }

  /** The register never forgets a difference, whatever equal bits follow. */
  lemma {:induction false} FeedInjective(c: bv32, d: bv32, bits: seq<bool>)
    requires FeedBits(c, bits) == FeedBits(d, bits)
    ensures c == d
    decreases bits
  {
    hide FeedBit, Step, Unstep, Xor, BitWord;
    if bits != [] {
      FeedInjective(FeedBit(c, bits[0]), FeedBit(d, bits[0]), bits[1..]);
      var w := BitWord(bits[0]);
      FeedIsStep(c, bits[0]);
      FeedIsStep(d, bits[0]);
      StepBack(Xor(c, w));
      StepBack(Xor(d, w));
      XorSame(c, d, w);
    }
  }

  /** The word whose low bits are the given ones. */
  function Word(bits: seq<bool>): bv32 {
    if bits == [] then 0 else Push(Word(bits[1..]), bits[0])
  }

  /** The top bit after k shifts. */
  function Threshold(k: nat): bv32 {
    if k == 0 then 0x80000000 else Half(Threshold(k - 1))
  }

  lemma {:induction false} DropAbove(w: bv32, k: nat, n: nat)
    requires AtLeast(w, Threshold(k))
    ensures AtLeast(Drop(w, n), Threshold(k + n))
    decreases n
  {
    hide AtLeast, Half;
    if n > 0 {
      HalfMonotone(w, Threshold(k));
      DropAbove(Half(w), k + 1, n - 1);
    }
  }

  lemma HalfMonotone(a: bv32, b: bv32)
    requires AtLeast(a, b)
    ensures AtLeast(Half(a), Half(b))
  {
  }

  lemma {:induction false} ThresholdFalls(k: nat, n: nat)
    ensures Threshold(k + n) == Drop(Threshold(k), n)
    decreases n
  {
    hide Half;
    if n > 0 {
      ThresholdFalls(k + 1, n - 1);
    }
  }

  lemma {:induction false} DropZero(n: nat)
    ensures Drop(0, n) == 0
    decreases n
  {
    if n > 0 {
      DropZero(n - 1);
    }
  }

  lemma ThresholdPositive(k: nat)
    requires k <= 31
    ensures Threshold(k) != 0
  {
    ThresholdFalls(k, 31 - k);
    if Threshold(k) == 0 {
      DropZero(31 - k);
    }
    ThresholdEnd();
  }

  lemma ThresholdEnd()
    ensures Threshold(31) == 1
  {
    assert Threshold(8) == 0x800000;
    assert Threshold(16) == 0x8000;
    assert Threshold(24) == 0x80;
  }

  /** Fewer than 32 bits leave the top bit of their word clear. */
  lemma WordClear(w: bv32, n: nat)
    requires n <= 31 && Drop(w, n) == 0
    ensures !AtLeast(w, 0x80000000)
  {
    hide AtLeast, Half, Drop;
    if AtLeast(w, 0x80000000) {
      DropAbove(w, 0, n);
      ThresholdPositive(n);
      NoneAtLeast(Threshold(n));
    }
  }

  lemma NoneAtLeast(b: bv32)
    ensures AtLeast(0, b) <==> b == 0
  {
  }

  lemma {:induction false} WordBits(bits: seq<bool>)
    requires |bits| <= 32
    ensures BitsOf(Word(bits), |bits|) == bits && Drop(Word(bits), |bits|) == 0
  {
    hide Odd, Half, Push, AtLeast;
    if bits != [] {
      var w := Word(bits[1..]);
      WordBits(bits[1..]);
      WordClear(w, |bits| - 1);
      PushBack(w, bits[0]);
      assert bits == [bits[0]] + bits[1..];
    }
  }

  lemma PushBack(w: bv32, bit: bool)
    requires !AtLeast(w, 0x80000000)
    ensures Half(Push(w, bit)) == w && Odd(Push(w, bit)) == bit
  {
  }

  /** A register that takes two different windows of at most 32 bits ends in two different states. */
  lemma WindowInjective(c: bv32, x: seq<bool>, y: seq<bool>)
    requires |x| == |y| <= 32 && FeedBits(c, x) == FeedBits(c, y)
    ensures x == y
  {
    hide FeedBits, BitsOf, Drop, Word, Steps;
    WordBits(x);
    WordBits(y);
    FeedWord(c, Word(x), |x|);
    FeedWord(c, Word(y), |y|);
    StepsInjective(Xor(c, Word(x)), Xor(c, Word(y)), |x|);
    XorCancels(c, Word(x), Word(y));
  }

  lemma XorSame(a: bv32, b: bv32, w: bv32)
    requires Xor(a, w) == Xor(b, w)
    ensures a == b
  {
    assert (a ^ w) ^ w == a;
    assert (b ^ w) ^ w == b;
  }

  lemma XorCancels(c: bv32, a: bv32, b: bv32)
    requires Xor(c, a) == Xor(c, b)
    ensures a == b
  {
    assert c ^ (c ^ a) == a;
    assert c ^ (c ^ b) == b;
  }

  /** Two messages of equal length that differ only inside a window of 32 bits never share a checksum. */
  lemma BurstDetected(a: seq<bool>, x: seq<bool>, y: seq<bool>, z: seq<bool>)
    requires |x| == |y| <= 32 && x != y
    ensures Checksum(a + x + z) != Checksum(a + y + z)
  {
    hide FeedBits;
    if Checksum(a + x + z) == Checksum(a + y + z) {
      XorCancels(FINAL_XOR, FeedBits(INIT_XOR, a + x + z), FeedBits(INIT_XOR, a + y + z));
      FeedConcat(INIT_XOR, a + x, z);
      FeedConcat(INIT_XOR, a + y, z);
      FeedInjective(FeedBits(INIT_XOR, a + x), FeedBits(INIT_XOR, a + y), z);
      FeedConcat(INIT_XOR, a, x);
      FeedConcat(INIT_XOR, a, y);
      WindowInjective(FeedBits(INIT_XOR, a), x, y);
    }
  }

  lemma ByteBits(a: bv8, b: bv8)
    requires BitsOf(a as bv32, 8) == BitsOf(b as bv32, 8)
    ensures a == b
  {
    hide FeedBits, BitsOf, Drop, Steps;
    DropByte(a as bv32);
    DropByte(b as bv32);
    FeedWord(0, a as bv32, 8);
    FeedWord(0, b as bv32, 8);
    StepsInjective(Xor(0, a as bv32), Xor(0, b as bv32), 8);
    XorCancels(0, a as bv32, b as bv32);
    SameByte(a, b);
  }

  lemma SameByte(a: bv8, b: bv8)
    requires a as bv32 == b as bv32
    ensures a == b
  {
    assert (a as bv32) as bv8 == a;
  }

  lemma {:induction false} BitsInjective(x: seq<bv8>, y: seq<bv8>)
    requires |x| == |y| && Bits(x) == Bits(y)
    ensures x == y
  {
    hide BitsOf;
    if x != [] {
      assert BitsOf(x[0] as bv32, 8) == Bits(x)[..8] == Bits(y)[..8] == BitsOf(y[0] as bv32, 8);
      assert Bits(x[1..]) == Bits(x)[8..] == Bits(y)[8..] == Bits(y[1..]);
      ByteBits(x[0], y[0]);
      BitsInjective(x[1..], y[1..]);
    }
  }

  lemma {:induction false} BitsLength(x: seq<bv8>)
    ensures |Bits(x)| == 8 * |x|
  {
    hide BitsOf;
    if x != [] {
      BitsLength(x[1..]);
    }
  }

  /** Changing up to four consecutive bytes always changes the checksum. */
  lemma ChangeDetected(p: seq<bv8>, x: seq<bv8>, y: seq<bv8>, s: seq<bv8>)
    requires |x| == |y| <= 4 && x != y
    ensures Checksum(Bits(p + x + s)) != Checksum(Bits(p + y + s))
  {
    hide Checksum, Bits;
    BitsConcat(p + x, s);
    BitsConcat(p, x);
    BitsConcat(p + y, s);
    BitsConcat(p, y);
    BitsLength(x);
    BitsLength(y);
    if Bits(x) == Bits(y) {
      BitsInjective(x, y);
    }
    BurstDetected(Bits(p), Bits(x), Bits(y), Bits(s));
  }

  // ---------- the preset and the final complement ----------

  lemma {:induction false} DropConcat(w: bv32, m: nat, n: nat)
    ensures Drop(w, m + n) == Drop(Drop(w, m), n)
    decreases m
  {
    hide Half;
    if m > 0 {
      DropConcat(Half(w), m - 1, n);
    }
  }

  lemma DropHalves(w: bv32)
    ensures Drop(w, 4) == Half(Half(Half(Half(w))))
  {
    hide Half;
    assert Drop(w, 4) == Drop(Half(w), 3) == Drop(Half(Half(w)), 2) == Drop(Half(Half(Half(w))), 1);
  }

  function Shift4(w: bv32): bv32 {
    w >> 4
  }

  lemma HalfFour(w: bv32)
    ensures Half(Half(Half(Half(w)))) == Shift4(w)
  {
  }

  lemma DropEight(w: bv32)
    ensures Drop(w, 8) == Shift4(Shift4(w))
  {
    hide Half, Drop, Shift4;
    DropConcat(w, 4, 4);
    DropHalves(w);
    HalfFour(w);
    DropHalves(Shift4(w));
    HalfFour(Shift4(w));
  }

  lemma ShiftedOut(w: bv32)
    ensures Shift4(Shift4(Shift4(Shift4(Shift4(Shift4(Shift4(Shift4(w)))))))) == 0
  {
  }

  lemma DropAll(w: bv32)
    ensures Drop(w, 32) == 0
  {
    hide Drop, Shift4;
    DropConcat(w, 8, 24);
    DropEight(w);
    var w1 := Drop(w, 8);
    DropConcat(w1, 8, 16);
    DropEight(w1);
    var w2 := Drop(w1, 8);
    DropConcat(w2, 8, 8);
    DropEight(w2);
    DropEight(Drop(w2, 8));
    ShiftedOut(w);
  }

  /** Starting from all ones is complementing the first 32 bits of the message, and the result is complemented. */
  lemma Complemented(w: bv32, z: seq<bool>)
    ensures Checksum(BitsOf(w, 32) + z) ==
            Xor(FeedBits(0, BitsOf(Xor(w, 0xffffffff), 32) + z), 0xffffffff)
  {
    hide FeedBits, BitsOf, Drop, Steps;
    FeedConcat(0xffffffff, BitsOf(w, 32), z);
    FeedConcat(0, BitsOf(Xor(w, 0xffffffff), 32), z);
    FeedWord(0xffffffff, w, 32);
    FeedWord(0, Xor(w, 0xffffffff), 32);
    DropAll(w);
    DropAll(Xor(w, 0xffffffff));
    XorSides(w);
    XorNothing(FeedBits(0xffffffff, BitsOf(w, 32)));
    XorNothing(FeedBits(0, BitsOf(Xor(w, 0xffffffff), 32)));
  }

  lemma XorSides(w: bv32)
    ensures Xor(0xffffffff, w) == Xor(0, Xor(w, 0xffffffff))
  {
  }

  /** The empty message has checksum zero. */
  lemma EmptyChecksum()
    ensures Checksum(Bits([])) == 0
  {
  }

  /** Feeding byte i of a message, when its effect on the register is known. */
  lemma ByteAt(m: seq<bv8>, i: nat, c: bv32, d: bv32)
    requires i < |m| && Steps8(Xor(c, m[i] as bv32)) == d
    ensures FeedBits(c, Bits(m[i..])) == FeedBits(d, Bits(m[i + 1..]))
  {
    hide FeedBits, BitsOf, Steps8, Xor;
    FeedByte(c, m[i]);
    assert m[i..][1..] == m[i + 1..];
    FeedConcat(c, BitsOf(m[i] as bv32, 8), Bits(m[i + 1..]));
  }

  /** The check value of the algorithm: the checksum of "123456789". */
  lemma CheckValue()
    ensures Checksum(Bits([0x31, 0x32, 0x33, 0x34, 0x35, 0x36, 0x37, 0x38, 0x39])) == 0xcbf43926
  {
    hide FeedBits, Bits;
    var m: seq<bv8> := [0x31, 0x32, 0x33, 0x34, 0x35, 0x36, 0x37, 0x38, 0x39];
    assert m[0..] == m && m[9..] == [];
    ByteAt(m, 0, 0xffffffff, 0x7c231048);
    ByteAt(m, 1, 0x7c231048, 0xb0acbb32);
    ByteAt(m, 2, 0xb0acbb32, 0x77b79c2d);
    ByteAt(m, 3, 0x77b79c2d, 0x641c1f5c);
    ByteAt(m, 4, 0x641c1f5c, 0x340ac5e3);
    ByteAt(m, 5, 0x340ac5e3, 0xf68d2c9e);
    ByteAt(m, 6, 0xf68d2c9e, 0xaffc9660);
    ByteAt(m, 7, 0xaffc9660, 0x651f2550);
    ByteAt(m, 8, 0x651f2550, 0x340bc6d9);
    FeedNone(0x340bc6d9);
  }
}
