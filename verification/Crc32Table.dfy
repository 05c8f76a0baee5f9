/** The precomputed table of hash/crc32.c, and the program that computes it. */
module Crc32Table {
  const POLY: bv32 := 0xedb88320

  function Xor(a: bv32, b: bv32): bv32 {
    a ^ b
  }

  /** One shift of the reflected register. */
  function Step(c: bv32): bv32 {
    if c & 1 == 1 then (c >> 1) ^ POLY else c >> 1
  }

  function Steps8(c: bv32): bv32 {
    Step(Step(Step(Step(Step(Step(Step(Step(c))))))))
  }

  function Block0(k: bv32): (row: seq<bv32>)
    ensures |row| == 8
  {
    match k
    case 0 => [0x00000000, 0x77073096, 0xee0e612c, 0x990951ba, 0x076dc419, 0x706af48f, 0xe963a535, 0x9e6495a3]
    case 1 => [0x0edb8832, 0x79dcb8a4, 0xe0d5e91e, 0x97d2d988, 0x09b64c2b, 0x7eb17cbd, 0xe7b82d07, 0x90bf1d91]
    case 2 => [0x1db71064, 0x6ab020f2, 0xf3b97148, 0x84be41de, 0x1adad47d, 0x6ddde4eb, 0xf4d4b551, 0x83d385c7]
    case _ => [0x136c9856, 0x646ba8c0, 0xfd62f97a, 0x8a65c9ec, 0x14015c4f, 0x63066cd9, 0xfa0f3d63, 0x8d080df5]
  }

  function Block1(k: bv32): (row: seq<bv32>)
    ensures |row| == 8
  {
    match k
    case 0 => [0x3b6e20c8, 0x4c69105e, 0xd56041e4, 0xa2677172, 0x3c03e4d1, 0x4b04d447, 0xd20d85fd, 0xa50ab56b]
    case 1 => [0x35b5a8fa, 0x42b2986c, 0xdbbbc9d6, 0xacbcf940, 0x32d86ce3, 0x45df5c75, 0xdcd60dcf, 0xabd13d59]
    case 2 => [0x26d930ac, 0x51de003a, 0xc8d75180, 0xbfd06116, 0x21b4f4b5, 0x56b3c423, 0xcfba9599, 0xb8bda50f]
    case _ => [0x2802b89e, 0x5f058808, 0xc60cd9b2, 0xb10be924, 0x2f6f7c87, 0x58684c11, 0xc1611dab, 0xb6662d3d]
  }

  function Block2(k: bv32): (row: seq<bv32>)
    ensures |row| == 8
  {
    match k
    case 0 => [0x76dc4190, 0x01db7106, 0x98d220bc, 0xefd5102a, 0x71b18589, 0x06b6b51f, 0x9fbfe4a5, 0xe8b8d433]
    case 1 => [0x7807c9a2, 0x0f00f934, 0x9609a88e, 0xe10e9818, 0x7f6a0dbb, 0x086d3d2d, 0x91646c97, 0xe6635c01]
    case 2 => [0x6b6b51f4, 0x1c6c6162, 0x856530d8, 0xf262004e, 0x6c0695ed, 0x1b01a57b, 0x8208f4c1, 0xf50fc457]
    case _ => [0x65b0d9c6, 0x12b7e950, 0x8bbeb8ea, 0xfcb9887c, 0x62dd1ddf, 0x15da2d49, 0x8cd37cf3, 0xfbd44c65]
  }

  function Block3(k: bv32): (row: seq<bv32>)
    ensures |row| == 8
  {
    match k
    case 0 => [0x4db26158, 0x3ab551ce, 0xa3bc0074, 0xd4bb30e2, 0x4adfa541, 0x3dd895d7, 0xa4d1c46d, 0xd3d6f4fb]
    case 1 => [0x4369e96a, 0x346ed9fc, 0xad678846, 0xda60b8d0, 0x44042d73, 0x33031de5, 0xaa0a4c5f, 0xdd0d7cc9]
    case 2 => [0x5005713c, 0x270241aa, 0xbe0b1010, 0xc90c2086, 0x5768b525, 0x206f85b3, 0xb966d409, 0xce61e49f]
    case _ => [0x5edef90e, 0x29d9c998, 0xb0d09822, 0xc7d7a8b4, 0x59b33d17, 0x2eb40d81, 0xb7bd5c3b, 0xc0ba6cad]
  }

  function Block4(k: bv32): (row: seq<bv32>)
    ensures |row| == 8
  {
    match k
    case 0 => [0xedb88320, 0x9abfb3b6, 0x03b6e20c, 0x74b1d29a, 0xead54739, 0x9dd277af, 0x04db2615, 0x73dc1683]
    case 1 => [0xe3630b12, 0x94643b84, 0x0d6d6a3e, 0x7a6a5aa8, 0xe40ecf0b, 0x9309ff9d, 0x0a00ae27, 0x7d079eb1]
    case 2 => [0xf00f9344, 0x8708a3d2, 0x1e01f268, 0x6906c2fe, 0xf762575d, 0x806567cb, 0x196c3671, 0x6e6b06e7]
    case _ => [0xfed41b76, 0x89d32be0, 0x10da7a5a, 0x67dd4acc, 0xf9b9df6f, 0x8ebeeff9, 0x17b7be43, 0x60b08ed5]
  }

  function Block5(k: bv32): (row: seq<bv32>)
    ensures |row| == 8
  {
    match k
    case 0 => [0xd6d6a3e8, 0xa1d1937e, 0x38d8c2c4, 0x4fdff252, 0xd1bb67f1, 0xa6bc5767, 0x3fb506dd, 0x48b2364b]
    case 1 => [0xd80d2bda, 0xaf0a1b4c, 0x36034af6, 0x41047a60, 0xdf60efc3, 0xa867df55, 0x316e8eef, 0x4669be79]
    case 2 => [0xcb61b38c, 0xbc66831a, 0x256fd2a0, 0x5268e236, 0xcc0c7795, 0xbb0b4703, 0x220216b9, 0x5505262f]
    case _ => [0xc5ba3bbe, 0xb2bd0b28, 0x2bb45a92, 0x5cb36a04, 0xc2d7ffa7, 0xb5d0cf31, 0x2cd99e8b, 0x5bdeae1d]
  }

  function Block6(k: bv32): (row: seq<bv32>)
    ensures |row| == 8
  {
    match k
    case 0 => [0x9b64c2b0, 0xec63f226, 0x756aa39c, 0x026d930a, 0x9c0906a9, 0xeb0e363f, 0x72076785, 0x05005713]
    case 1 => [0x95bf4a82, 0xe2b87a14, 0x7bb12bae, 0x0cb61b38, 0x92d28e9b, 0xe5d5be0d, 0x7cdcefb7, 0x0bdbdf21]
    case 2 => [0x86d3d2d4, 0xf1d4e242, 0x68ddb3f8, 0x1fda836e, 0x81be16cd, 0xf6b9265b, 0x6fb077e1, 0x18b74777]
    case _ => [0x88085ae6, 0xff0f6a70, 0x66063bca, 0x11010b5c, 0x8f659eff, 0xf862ae69, 0x616bffd3, 0x166ccf45]
  }

  function Block7(k: bv32): (row: seq<bv32>)
    ensures |row| == 8
  {
    match k
    case 0 => [0xa00ae278, 0xd70dd2ee, 0x4e048354, 0x3903b3c2, 0xa7672661, 0xd06016f7, 0x4969474d, 0x3e6e77db]
    case 1 => [0xaed16a4a, 0xd9d65adc, 0x40df0b66, 0x37d83bf0, 0xa9bcae53, 0xdebb9ec5, 0x47b2cf7f, 0x30b5ffe9]
    case 2 => [0xbdbdf21c, 0xcabac28a, 0x53b39330, 0x24b4a3a6, 0xbad03605, 0xcdd70693, 0x54de5729, 0x23d967bf]
    case _ => [0xb3667a2e, 0xc4614ab8, 0x5d681b02, 0x2a6f2b94, 0xb40bbe37, 0xc30c8ea1, 0x5a05df1b, 0x2d02ef8d]
  }

  /** crc32_table, eight entries a row, as the source lays it out. */
  function Row(r: bv32): (row: seq<bv32>)
    ensures |row| == 8
  {
    if r < 16 then
      if r < 8 then if r < 4 then Block0(r) else Block1(r - 4)
      else if r < 12 then Block2(r - 8) else Block3(r - 12)
    else
      if r < 24 then if r < 20 then Block4(r - 16) else Block5(r - 20)
      else if r < 28 then Block6(r - 24) else Block7(r - 28)
  }

  /** crc32_table[x]. */
  function Entry(x: bv32): bv32
    requires x < 256
  {
    Row(x >> 3)[(x & 7) as nat]
  }

  function Octet(b: bv32): seq<bv32> {
    [Steps8(b), Steps8(Xor(b, 1)), Steps8(Xor(b, 2)), Steps8(Xor(b, 3)),
     Steps8(Xor(b, 4)), Steps8(Xor(b, 5)), Steps8(Xor(b, 6)), Steps8(Xor(b, 7))]
  }

  function Steps(c: bv32, k: nat): bv32
    decreases k
  {
    if k == 0 then c else Steps(Step(c), k - 1)
  }

  lemma {:induction false} StepsSnoc(c: bv32, k: nat)
    ensures Steps(c, k + 1) == Step(Steps(c, k))
    decreases k
  {
    hide Step;
    if k > 0 {
      StepsSnoc(Step(c), k - 1);
    }
  }

  lemma StepsEight(c: bv32)
    ensures Steps(c, 8) == Steps8(c)
  {
    hide Step;
    StepsSnoc(c, 7);
    StepsSnoc(c, 6);
    StepsSnoc(c, 5);
    StepsSnoc(c, 4);
    StepsSnoc(c, 3);
    StepsSnoc(c, 2);
    StepsSnoc(c, 1);
    StepsSnoc(c, 0);
  }

  /** The register is linear over exclusive or: the reason why a table can work at all. */
  lemma StepXor(a: bv32, b: bv32)
    ensures Step(Xor(a, b)) == Xor(Step(a), Step(b))
  {
    hide Step;
    StepBits(a, b);
  }

  lemma StepBits(a: bv32, b: bv32)
    ensures Step(a ^ b) == Step(a) ^ Step(b)
  {
    ShiftXor(a, b);
    LowXor(a, b);
    LowBit(a);
    LowBit(b);
    XorMoves(a >> 1, b >> 1, POLY);
  }

  lemma ShiftXor(a: bv32, b: bv32)
    ensures (a ^ b) >> 1 == (a >> 1) ^ (b >> 1)
  {
  }

  lemma LowXor(a: bv32, b: bv32)
    ensures (a ^ b) & 1 == (a & 1) ^ (b & 1)
  {
  }

  lemma LowBit(a: bv32)
    ensures a & 1 == 0 || a & 1 == 1
  {
  }

  lemma XorMoves(a: bv32, b: bv32, p: bv32)
    ensures (a ^ p) ^ b == (a ^ b) ^ p
    ensures a ^ (b ^ p) == (a ^ b) ^ p
    ensures (a ^ p) ^ (b ^ p) == a ^ b
  {
  }

  lemma {:induction false} StepsXor(a: bv32, b: bv32, k: nat)
    ensures Steps(Xor(a, b), k) == Xor(Steps(a, k), Steps(b, k))
    decreases k
  {
    hide Step, Xor;
    if k > 0 {
      StepXor(a, b);
      StepsXor(Step(a), Step(b), k - 1);
    }
  }

  lemma Steps8Xor(a: bv32, b: bv32)
    ensures Steps8(Xor(a, b)) == Xor(Steps8(a), Steps8(b))
  {
    hide Steps8, Steps, Xor;
    StepsXor(a, b, 8);
    StepsEight(a);
    StepsEight(b);
    StepsEight(Xor(a, b));
  }

  /** The first row by computation; it and linearity give every other row from its first entry. */
  lemma FirstRow()
    ensures Octet(0) == Block0(0)
  {
  }

  lemma OctetFrom(b: bv32, s: bv32)
    requires Steps8(b) == s
    ensures Octet(b) == [s, Xor(s, Block0(0)[1]), Xor(s, Block0(0)[2]), Xor(s, Block0(0)[3]),
                         Xor(s, Block0(0)[4]), Xor(s, Block0(0)[5]),
                         Xor(s, Block0(0)[6]), Xor(s, Block0(0)[7])]
  {
    hide Steps8, Step, Block0, Xor;
    FirstRow();
    Steps8Xor(b, 1);
    Steps8Xor(b, 2);
    Steps8Xor(b, 3);
    Steps8Xor(b, 4);
    Steps8Xor(b, 5);
    Steps8Xor(b, 6);
    Steps8Xor(b, 7);
    var o := Octet(0);
    XorZero();
    assert o[1] == Steps8(1) && o[2] == Steps8(2) && o[3] == Steps8(3) && o[4] == Steps8(4);
    assert o[5] == Steps8(5) && o[6] == Steps8(6) && o[7] == Steps8(7);
  }

  lemma XorZero()
    ensures Xor(0, 1) == 1 && Xor(0, 2) == 2 && Xor(0, 3) == 3 && Xor(0, 4) == 4
    ensures Xor(0, 5) == 5 && Xor(0, 6) == 6 && Xor(0, 7) == 7
  {
  }

  /** Within a row of the table, the entries differ from the first one as in the first row. */
  lemma RowPattern(r: bv32)
    requires r < 32
    ensures
      var s := Row(r)[0];
      Row(r) == [s, Xor(s, Block0(0)[1]), Xor(s, Block0(0)[2]), Xor(s, Block0(0)[3]),
                 Xor(s, Block0(0)[4]), Xor(s, Block0(0)[5]),
                 Xor(s, Block0(0)[6]), Xor(s, Block0(0)[7])]
  {
  }

  lemma RowStart(r: bv32)
    requires r < 32
    ensures Row(r)[0] == Steps8(r << 3)
  {
  }

  lemma OctetAt(b: bv32, k: bv32)
    requires k < 8
    ensures Octet(b)[k as nat] == Steps8(Xor(b, k))
  {
    hide Steps8, Step;
    assert Xor(b, 0) == b;
    if k == 0 {
    } else if k == 1 {
    } else if k == 2 {
    } else if k == 3 {
    } else if k == 4 {
    } else if k == 5 {
    } else if k == 6 {
    } else {
      assert k == 7;
    }
  }

  lemma SplitIndex(x: bv32)
    requires x < 256
    ensures Xor(x & 0xf8, x & 7) == x && x & 7 < 8 && x >> 5 < 8
  {
  }

  lemma RowAt(x: bv32)
    requires x >> 5 < 8
    ensures Row(x >> 3) == Octet(x & 0xf8)
  {
    hide Row, Octet, Steps8;
    assert (x >> 3) < 32 && (x >> 3) << 3 == x & 0xf8;
    RowPattern(x >> 3);
    RowStart(x >> 3);
    OctetFrom(x & 0xf8, Row(x >> 3)[0]);
  }

  /** Every entry of the table is its index after eight shifts of the register. */
  lemma EntryCorrect(x: bv32)
    requires x < 256
    ensures Entry(x) == Steps8(x)
  {
    hide Steps8, Step, Row, Octet, Xor;
    SplitIndex(x);
    RowAt(x);
    OctetAt(x & 0xf8, x & 7);
  }

  /** crc32_build_table, the inner loop. */
  method TableEntry(n: bv32) returns (c: bv32)
    ensures c == Steps8(n)
  {
    hide Steps8;
    c := n;
    for k := 0 to 8
      invariant c == Steps(n, k)
    {
      StepsSnoc(n, k);
      assert c & 1 == 0 || c & 1 == 1;
      if c & 1 != 0 {
        c := (c >> 1) ^ POLY;
      } else {
        c := c >> 1;
      }
    }
    StepsEight(n);
  }

  /** crc32_build_table computes exactly the table in the source. */
  method BuildTable(table: array<bv32>)
    requires table.Length == 256
    modifies table
    ensures forall n: nat :: n < 256 ==> n as bv32 < 256 && table[n] == Entry(n as bv32)
  {
    hide Steps8, Step, Row, Entry;
    for n := 0 to 256
      invariant forall m: nat :: m < n ==> m as bv32 < 256 && table[m] == Entry(m as bv32)
    {
      SmallIndex(n);
      EntryCorrect(n as bv32);
      table[n] := TableEntry(n as bv32);
    }
  }

  lemma SmallIndex(n: nat)
    requires n < 256
    ensures n as bv32 < 256
  {
  }
}
