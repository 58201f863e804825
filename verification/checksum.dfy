/**
 The table-driven CRC32C of lib/tst_checksum.c, proved equal to the bit-serial CRC of section 12.1 of RFC 3720:
 reflected polynomial 0x82f63b78, all-ones start, final complement.
 */
module Checksum {
  const POLY: bv32 := 0x82f6_3b78

  // ----- Bit-serial definition -----

  /** Shifts one message bit into the remainder. */
  function ShiftIn(crc: bv32, bit: bv32): bv32 {
    if (crc ^ bit) & 1 == 1 then (crc >> 1) ^ POLY else crc >> 1
  }

  /** Shifts in the n low bits of v, least significant first. */
  function ShiftBits(crc: bv32, v: bv32, n: nat): bv32
    decreases n
  {
    if n == 0 then crc else ShiftBits(ShiftIn(crc, v & 1), v >> 1, n - 1)
  }

  function Remainder(crc: bv32, buf: seq<bv8>): bv32
    decreases |buf|
  {
    if buf == [] then crc else Remainder(ShiftBits(crc, buf[0] as bv32, 8), buf[1..])
  }

  /** CRC32C of a buffer, a bit at a time. */
  function Crc32c(buf: seq<bv8>): bv32 {
    !Remainder(0xffff_ffff, buf)
  }

  // ----- The table -----

  const ROW_0: seq<bv32> := [
    0x00000000, 0xf26b8303, 0xe13b70f7, 0x1350f3f4,
    0xc79a971f, 0x35f1141c, 0x26a1e7e8, 0xd4ca64eb,
    0x8ad958cf, 0x78b2dbcc, 0x6be22838, 0x9989ab3b,
    0x4d43cfd0, 0xbf284cd3, 0xac78bf27, 0x5e133c24
  ]
  const ROW_1: seq<bv32> := [
    0x105ec76f, 0xe235446c, 0xf165b798, 0x030e349b,
    0xd7c45070, 0x25afd373, 0x36ff2087, 0xc494a384,
    0x9a879fa0, 0x68ec1ca3, 0x7bbcef57, 0x89d76c54,
    0x5d1d08bf, 0xaf768bbc, 0xbc267848, 0x4e4dfb4b
  ]
  const ROW_2: seq<bv32> := [
    0x20bd8ede, 0xd2d60ddd, 0xc186fe29, 0x33ed7d2a,
    0xe72719c1, 0x154c9ac2, 0x061c6936, 0xf477ea35,
    0xaa64d611, 0x580f5512, 0x4b5fa6e6, 0xb93425e5,
    0x6dfe410e, 0x9f95c20d, 0x8cc531f9, 0x7eaeb2fa
  ]
  const ROW_3: seq<bv32> := [
    0x30e349b1, 0xc288cab2, 0xd1d83946, 0x23b3ba45,
    0xf779deae, 0x05125dad, 0x1642ae59, 0xe4292d5a,
    0xba3a117e, 0x4851927d, 0x5b016189, 0xa96ae28a,
    0x7da08661, 0x8fcb0562, 0x9c9bf696, 0x6ef07595
  ]
  const ROW_4: seq<bv32> := [
    0x417b1dbc, 0xb3109ebf, 0xa0406d4b, 0x522bee48,
    0x86e18aa3, 0x748a09a0, 0x67dafa54, 0x95b17957,
    0xcba24573, 0x39c9c670, 0x2a993584, 0xd8f2b687,
    0x0c38d26c, 0xfe53516f, 0xed03a29b, 0x1f682198
  ]
  const ROW_5: seq<bv32> := [
    0x5125dad3, 0xa34e59d0, 0xb01eaa24, 0x42752927,
    0x96bf4dcc, 0x64d4cecf, 0x77843d3b, 0x85efbe38,
    0xdbfc821c, 0x2997011f, 0x3ac7f2eb, 0xc8ac71e8,
    0x1c661503, 0xee0d9600, 0xfd5d65f4, 0x0f36e6f7
  ]
  const ROW_6: seq<bv32> := [
    0x61c69362, 0x93ad1061, 0x80fde395, 0x72966096,
    0xa65c047d, 0x5437877e, 0x4767748a, 0xb50cf789,
    0xeb1fcbad, 0x197448ae, 0x0a24bb5a, 0xf84f3859,
    0x2c855cb2, 0xdeeedfb1, 0xcdbe2c45, 0x3fd5af46
  ]
  const ROW_7: seq<bv32> := [
    0x7198540d, 0x83f3d70e, 0x90a324fa, 0x62c8a7f9,
    0xb602c312, 0x44694011, 0x5739b3e5, 0xa55230e6,
    0xfb410cc2, 0x092a8fc1, 0x1a7a7c35, 0xe811ff36,
    0x3cdb9bdd, 0xceb018de, 0xdde0eb2a, 0x2f8b6829
  ]
  const ROW_8: seq<bv32> := [
    0x82f63b78, 0x709db87b, 0x63cd4b8f, 0x91a6c88c,
    0x456cac67, 0xb7072f64, 0xa457dc90, 0x563c5f93,
    0x082f63b7, 0xfa44e0b4, 0xe9141340, 0x1b7f9043,
    0xcfb5f4a8, 0x3dde77ab, 0x2e8e845f, 0xdce5075c
  ]
  const ROW_9: seq<bv32> := [
    0x92a8fc17, 0x60c37f14, 0x73938ce0, 0x81f80fe3,
    0x55326b08, 0xa759e80b, 0xb4091bff, 0x466298fc,
    0x1871a4d8, 0xea1a27db, 0xf94ad42f, 0x0b21572c,
    0xdfeb33c7, 0x2d80b0c4, 0x3ed04330, 0xccbbc033
  ]
  const ROW_A: seq<bv32> := [
    0xa24bb5a6, 0x502036a5, 0x4370c551, 0xb11b4652,
    0x65d122b9, 0x97baa1ba, 0x84ea524e, 0x7681d14d,
    0x2892ed69, 0xdaf96e6a, 0xc9a99d9e, 0x3bc21e9d,
    0xef087a76, 0x1d63f975, 0x0e330a81, 0xfc588982
  ]
  const ROW_B: seq<bv32> := [
    0xb21572c9, 0x407ef1ca, 0x532e023e, 0xa145813d,
    0x758fe5d6, 0x87e466d5, 0x94b49521, 0x66df1622,
    0x38cc2a06, 0xcaa7a905, 0xd9f75af1, 0x2b9cd9f2,
    0xff56bd19, 0x0d3d3e1a, 0x1e6dcdee, 0xec064eed
  ]
  const ROW_C: seq<bv32> := [
    0xc38d26c4, 0x31e6a5c7, 0x22b65633, 0xd0ddd530,
    0x0417b1db, 0xf67c32d8, 0xe52cc12c, 0x1747422f,
    0x49547e0b, 0xbb3ffd08, 0xa86f0efc, 0x5a048dff,
    0x8ecee914, 0x7ca56a17, 0x6ff599e3, 0x9d9e1ae0
  ]
  const ROW_D: seq<bv32> := [
    0xd3d3e1ab, 0x21b862a8, 0x32e8915c, 0xc083125f,
    0x144976b4, 0xe622f5b7, 0xf5720643, 0x07198540,
    0x590ab964, 0xab613a67, 0xb831c993, 0x4a5a4a90,
    0x9e902e7b, 0x6cfbad78, 0x7fab5e8c, 0x8dc0dd8f
  ]
  const ROW_E: seq<bv32> := [
    0xe330a81a, 0x115b2b19, 0x020bd8ed, 0xf0605bee,
    0x24aa3f05, 0xd6c1bc06, 0xc5914ff2, 0x37faccf1,
    0x69e9f0d5, 0x9b8273d6, 0x88d28022, 0x7ab90321,
    0xae7367ca, 0x5c18e4c9, 0x4f48173d, 0xbd23943e
  ]
  const ROW_F: seq<bv32> := [
    0xf36e6f75, 0x0105ec76, 0x12551f82, 0xe03e9c81,
    0x34f4f86a, 0xc69f7b69, 0xd5cf889d, 0x27a40b9e,
    0x79b737ba, 0x8bdcb4b9, 0x988c474d, 0x6ae7c44e,
    0xbe2da0a5, 0x4c4623a6, 0x5f16d052, 0xad7d5351
  ]

  const ROWS: seq<seq<bv32>> := [
    ROW_0, ROW_1, ROW_2, ROW_3, ROW_4, ROW_5, ROW_6, ROW_7,
    ROW_8, ROW_9, ROW_A, ROW_B, ROW_C, ROW_D, ROW_E, ROW_F
  ]

  function Join(rows: seq<seq<bv32>>): seq<bv32> {
    if rows == [] then [] else rows[0] + Join(rows[1..])
  }

  /** crc32c_table */
  const TABLE: seq<bv32> := Join(ROWS)

  // ----- Eight steps at once -----

  /** One step with a zero message bit. */
  function Step(x: bv32): bv32 {
    if x & 1 == 1 then (x >> 1) ^ POLY else x >> 1
  }

  function Steps(x: bv32, n: nat): bv32
    decreases n
  {
    if n == 0 then x else Steps(Step(x), n - 1)
  }

  // The operations on words under names of their own: the lemmas below either look inside them or do not.

  function Xor(x: bv32, y: bv32): bv32 {
    x ^ y
  }

  function Half(x: bv32): bv32 {
    x >> 1
  }

  predicate Odd(x: bv32) {
    x & 1 == 1
  }

  lemma StepMeans(x: bv32)
    ensures Step(x) == if Odd(x) then Xor(Half(x), POLY) else Half(x)
  {
  }

  lemma ShiftInMeans(crc: bv32, v: bv32)
    ensures ShiftIn(crc, v & 1) == if Odd(Xor(crc, v)) then Xor(Half(crc), POLY) else Half(crc)
  {
    assert (crc ^ (v & 1)) & 1 == (crc ^ v) & 1;
  }

  lemma OddXor(x: bv32, y: bv32)
    ensures Odd(Xor(x, y)) <==> Odd(x) != Odd(y)
  {
    assert (x ^ y) & 1 == (x & 1) ^ (y & 1);
    assert x & 1 == 0 || x & 1 == 1;
    assert y & 1 == 0 || y & 1 == 1;
  }

  lemma HalfXor(x: bv32, y: bv32)
    ensures Half(Xor(x, y)) == Xor(Half(x), Half(y))
  {
  }

  lemma BitsSwap(a: bv32, b: bv32, p: bv32)
    ensures (a ^ p) ^ b == (a ^ b) ^ p
  {
  }

  lemma BitsAssociate(a: bv32, b: bv32, p: bv32)
    ensures a ^ (b ^ p) == (a ^ b) ^ p
  {
  }

  lemma BitsCancel(a: bv32, b: bv32, p: bv32)
    ensures (a ^ p) ^ (b ^ p) == a ^ b
  {
  }

  lemma XorSwaps(a: bv32, b: bv32, p: bv32)
    ensures Xor(Xor(a, p), b) == Xor(Xor(a, b), p)
  {
    calc {
      Xor(Xor(a, p), b);
      { assert Xor(a, p) == a ^ p; }
      Xor(a ^ p, b);
      (a ^ p) ^ b;
      { BitsSwap(a, b, p); }
      (a ^ b) ^ p;
      Xor(a ^ b, p);
      { assert Xor(a, b) == a ^ b; }
      Xor(Xor(a, b), p);
    }
  }

  lemma XorAssociates(a: bv32, b: bv32, p: bv32)
    ensures Xor(a, Xor(b, p)) == Xor(Xor(a, b), p)
  {
    calc {
      Xor(a, Xor(b, p));
      { assert Xor(b, p) == b ^ p; }
      Xor(a, b ^ p);
      a ^ (b ^ p);
      { BitsAssociate(a, b, p); }
      (a ^ b) ^ p;
      Xor(a ^ b, p);
      { assert Xor(a, b) == a ^ b; }
      Xor(Xor(a, b), p);
    }
  }

  lemma XorTwice(a: bv32, b: bv32, p: bv32)
    ensures Xor(Xor(a, p), Xor(b, p)) == Xor(a, b)
  {
    calc {
      Xor(Xor(a, p), Xor(b, p));
      { assert Xor(a, p) == a ^ p && Xor(b, p) == b ^ p; }
      Xor(a ^ p, b ^ p);
      (a ^ p) ^ (b ^ p);
      { BitsCancel(a, b, p); }
      a ^ b;
    }
  }

  lemma StepIsLinear(x: bv32, y: bv32)
    ensures Step(Xor(x, y)) == Xor(Step(x), Step(y))
  {
    hide Step, Xor, Half, Odd;
    StepMeans(x);
    StepMeans(y);
    StepMeans(Xor(x, y));
    OddXor(x, y);
    HalfXor(x, y);
    XorSwaps(Half(x), Half(y), POLY);
    XorAssociates(Half(x), Half(y), POLY);
    XorTwice(Half(x), Half(y), POLY);
  }

  lemma {:induction false} StepsAreLinear(x: bv32, y: bv32, n: nat)
    ensures Steps(Xor(x, y), n) == Xor(Steps(x, n), Steps(y, n))
    decreases n
  {
    hide Step, Xor;
    if n > 0 {
      StepIsLinear(x, y);
      StepsAreLinear(Step(x), Step(y), n - 1);
    }
  }

  /** A message bit may be shifted in, or xor-ed in before a plain step along with the bits that follow it. */
  lemma AbsorbBit(crc: bv32, v: bv32)
    ensures Step(Xor(crc, v)) == Xor(ShiftIn(crc, v & 1), v >> 1)
  {
    ShiftInMeans(crc, v);
    StepMeans(Xor(crc, v));
    HalfXor(crc, v);
    XorSwaps(Half(crc), Half(v), POLY);
    assert Half(v) == v >> 1;
    hide Step, ShiftIn, Xor, Half, Odd;
  }

  /** What is left of v after n bits. */
  function Drop(v: bv32, n: nat): bv32
    decreases n
  {
    if n == 0 then v else Drop(v >> 1, n - 1)
  }

  lemma {:induction false} AbsorbBits(crc: bv32, v: bv32, n: nat)
    ensures Steps(Xor(crc, v), n) == Xor(ShiftBits(crc, v, n), Drop(v, n))
    decreases n
  {
    hide Step, ShiftIn, Xor;
    if n > 0 {
      AbsorbBit(crc, v);
      AbsorbBits(ShiftIn(crc, v & 1), v >> 1, n - 1);
    }
  }

  lemma ByteIsUsedUp(b: bv8)
    ensures Drop(b as bv32, 8) == 0
  {
  }

  lemma XorZero(x: bv32)
    ensures Xor(x, 0) == x
  {
  }

  /** Eight message bits shifted in one by one are eight plain steps after one xor. */
  lemma ByteAtOnce(crc: bv32, b: bv8)
    ensures ShiftBits(crc, b as bv32, 8) == Steps(Xor(crc, b as bv32), 8)
  {
    hide Steps, ShiftBits, Drop, Xor;
    AbsorbBits(crc, b as bv32, 8);
    ByteIsUsedUp(b);
    XorZero(ShiftBits(crc, b as bv32, 8));
  }

  function Low(x: bv32): bv32 {
    x & 0xff
  }

  function High(x: bv32): bv32 {
    x & 0xffff_ff00
  }

  function Shr8(x: bv32): bv32 {
    x >> 8
  }

  function Shl8(x: bv32): bv32 {
    x << 8
  }

  lemma SplitLow(x: bv32)
    ensures x == Xor(Low(x), High(x))
  {
  }

  /** The bits above the low eight are only shifted. */
  lemma HighBitsShift(x: bv32)
    ensures Steps(High(x), 8) == Shr8(x)
  {
  }

  lemma ByteByTable(x: bv32)
    ensures Steps(x, 8) == Xor(Steps(Low(x), 8), Shr8(x))
  {
    hide Steps, Xor, Low, High, Shr8;
    SplitLow(x);
    StepsAreLinear(Low(x), High(x), 8);
    HighBitsShift(x);
  }

  // ----- Every entry of the table -----

  function Step8(x: bv32): bv32 {
    Step(Step(Step(Step(Step(Step(Step(Step(x))))))))
  }

  lemma Step8IsSteps(x: bv32)
    ensures Step8(x) == Steps(x, 8)
  {
    hide Step;
  }

  lemma Row0From0()
    ensures ROW_0[0] == Step8(0) && ROW_0[1] == Step8(1)
  {
  }

  lemma Row0From2()
    ensures ROW_0[2] == Step8(2) && ROW_0[3] == Step8(3)
  {
  }

  lemma Row0From4()
    ensures ROW_0[4] == Step8(4) && ROW_0[5] == Step8(5) && ROW_0[6] == Step8(6) && ROW_0[7] == Step8(7)
  {
  }

  lemma Row0From8()
    ensures ROW_0[8] == Step8(8) && ROW_0[9] == Step8(9) && ROW_0[10] == Step8(10) && ROW_0[11] == Step8(11)
  {
  }

  lemma Row0From12()
    ensures ROW_0[12] == Step8(12) && ROW_0[13] == Step8(13) && ROW_0[14] == Step8(14) && ROW_0[15] == Step8(15)
  {
  }

  /** A row differs from the first row by its own first entry throughout. */
  predicate Parallel(row: seq<bv32>, zero: seq<bv32>) {
    && |row| == |zero| == 16 && row[0] == Xor(row[0], zero[0])
    && row[1] == Xor(row[0], zero[1]) && row[2] == Xor(row[0], zero[2]) && row[3] == Xor(row[0], zero[3])
    && row[4] == Xor(row[0], zero[4]) && row[5] == Xor(row[0], zero[5]) && row[6] == Xor(row[0], zero[6])
    && row[7] == Xor(row[0], zero[7]) && row[8] == Xor(row[0], zero[8]) && row[9] == Xor(row[0], zero[9])
    && row[10] == Xor(row[0], zero[10]) && row[11] == Xor(row[0], zero[11]) && row[12] == Xor(row[0], zero[12])
    && row[13] == Xor(row[0], zero[13]) && row[14] == Xor(row[0], zero[14]) && row[15] == Xor(row[0], zero[15])
  }

  predicate RowIs(row: seq<bv32>, base: bv32) {
    Parallel(row, ROW_0) && row[0] == Step8(base)
  }

  lemma Row0()
    ensures RowIs(ROW_0, 0x00)
  {
  }

  lemma Row1()
    ensures RowIs(ROW_1, 0x10)
  {
  }

  lemma Row2()
    ensures RowIs(ROW_2, 0x20)
  {
  }

  lemma Row3()
    ensures RowIs(ROW_3, 0x30)
  {
  }

  lemma Row4()
    ensures RowIs(ROW_4, 0x40)
  {
  }

  lemma Row5()
    ensures RowIs(ROW_5, 0x50)
  {
  }

  lemma Row6()
    ensures RowIs(ROW_6, 0x60)
  {
  }

  lemma Row7()
    ensures RowIs(ROW_7, 0x70)
  {
  }

  lemma Row8()
    ensures RowIs(ROW_8, 0x80)
  {
  }

  lemma Row9()
    ensures RowIs(ROW_9, 0x90)
  {
  }

  lemma RowA()
    ensures RowIs(ROW_A, 0xA0)
  {
  }

  lemma RowB()
    ensures RowIs(ROW_B, 0xB0)
  {
  }

  lemma RowC()
    ensures RowIs(ROW_C, 0xC0)
  {
  }

  lemma RowD()
    ensures RowIs(ROW_D, 0xD0)
  {
  }

  lemma RowE()
    ensures RowIs(ROW_E, 0xE0)
  {
  }

  lemma RowF()
    ensures RowIs(ROW_F, 0xF0)
  {
  }

  lemma ParallelAt(row: seq<bv32>, zero: seq<bv32>, k: int)
    requires Parallel(row, zero) && 0 <= k < 16
    ensures row[k] == Xor(row[0], zero[k])
  {
    hide Xor;
    assert Nibble(k);
  }

  predicate Nibble(k: int) {
    k == 0 || k == 1 || k == 2 || k == 3 || k == 4 || k == 5 || k == 6 || k == 7 ||
    k == 8 || k == 9 || k == 10 || k == 11 || k == 12 || k == 13 || k == 14 || k == 15
  }

  predicate NibbleBits(k: bv8) {
    k == 0 || k == 1 || k == 2 || k == 3 || k == 4 || k == 5 || k == 6 || k == 7 ||
    k == 8 || k == 9 || k == 10 || k == 11 || k == 12 || k == 13 || k == 14 || k == 15
  }

  lemma Row0At(k: bv8)
    requires k < 16
    ensures ROW_0[k as int] == Step8(k as bv32)
  {
    Row0From0();
    Row0From2();
    Row0From4();
    Row0From8();
    Row0From12();
    hide Step8;
    assert NibbleBits(k);
  }

  lemma RowAt(row: seq<bv32>, base: bv32, k: bv8)
    requires RowIs(row, base) && k < 16
    ensures |row| == 16 && row[k as int] == Step8(Xor(base, k as bv32))
  {
    Row0At(k);
    ParallelAt(row, ROW_0, k as int);
    Step8IsSteps(base);
    Step8IsSteps(k as bv32);
    Step8IsSteps(Xor(base, k as bv32));
    StepsAreLinear(base, k as bv32, 8);
    hide Step8, Steps, Xor, Parallel;
  }

  lemma RowsAreRight(hi: bv8)
    requires hi < 16
    ensures RowIs(ROWS[hi as int], (hi as bv32) << 4)
  {
    hide RowIs;
    if hi == 0 { Row0(); }
    else if hi == 1 { Row1(); }
    else if hi == 2 { Row2(); }
    else if hi == 3 { Row3(); }
    else if hi == 4 { Row4(); }
    else if hi == 5 { Row5(); }
    else if hi == 6 { Row6(); }
    else if hi == 7 { Row7(); }
    else if hi == 8 { Row8(); }
    else if hi == 9 { Row9(); }
    else if hi == 10 { RowA(); }
    else if hi == 11 { RowB(); }
    else if hi == 12 { RowC(); }
    else if hi == 13 { RowD(); }
    else if hi == 14 { RowE(); }
    else { assert hi == 15; RowF(); }
  }

  lemma {:induction false} JoinAt(rows: seq<seq<bv32>>, r: nat, k: nat)
    requires r < |rows| && k < 16 && forall i | 0 <= i < |rows| :: |rows[i]| == 16
    ensures 16 * r + k < |Join(rows)| && Join(rows)[16 * r + k] == rows[r][k]
    decreases |rows|
  {
    if r > 0 {
      JoinAt(rows[1..], r - 1, k);
    }
  }

  lemma RowsAreFull()
    ensures |ROWS| == 16 && forall i | 0 <= i < 16 :: |ROWS[i]| == 16
  {
  }

  lemma SplitByte(b: bv8)
    ensures (b >> 4) < 16 && (b & 15) < 16
    ensures b as int == 16 * ((b >> 4) as int) + ((b & 15) as int)
    ensures b as bv32 == Xor(((b >> 4) as bv32) << 4, (b & 15) as bv32)
  {
  }

  /** Every one of the 256 entries is eight steps of its index. */
  lemma TableIsRight(b: bv8)
    ensures b as int < |TABLE| && TABLE[b as int] == Steps(b as bv32, 8)
  {
    hide *;
    var hi, lo := b >> 4, b & 15;
    SplitByte(b);
    RowEntry(hi, lo);
    TableAt(hi as int, lo as int);
    Step8IsSteps(b as bv32);
  }

  lemma RowEntry(hi: bv8, lo: bv8)
    requires hi < 16 && lo < 16
    ensures |ROWS| == 16 && |ROWS[hi as int]| == 16
    ensures ROWS[hi as int][lo as int] == Step8(Xor((hi as bv32) << 4, lo as bv32))
  {
    hide *;
    RowsAreFull();
    RowsAreRight(hi);
    RowAt(ROWS[hi as int], (hi as bv32) << 4, lo);
  }

  lemma TableAt(hi: int, lo: int)
    requires 0 <= hi < 16 && 0 <= lo < 16
    ensures |ROWS| == 16 && |ROWS[hi]| == 16
    ensures 16 * hi + lo < |TABLE| && TABLE[16 * hi + lo] == ROWS[hi][lo]
  {
    RowsAreFull();
    hide Join;
    JoinAt(ROWS, hi, lo);
  }

  // ----- The table-driven loop -----

  lemma LowByte(x: bv32)
    ensures Low(x) as int == (Low(x) as bv8) as int && (Low(x) as bv8) as bv32 == Low(x)
  {
  }

  lemma ByteLeavesHigh(crc: bv32, b: bv8)
    ensures Shr8(Xor(crc, b as bv32)) == Shr8(crc)
  {
  }

  lemma TableEntry(x: bv32)
    ensures Low(x) as int < |TABLE| && TABLE[Low(x) as int] == Steps(Low(x), 8)
  {
    LowByte(x);
    TableIsRight(Low(x) as bv8);
    hide *;
  }

  /** crc32c_table[(crc ^ b) & 0xff] ^ (crc >> 8) */
  function TableNext(crc: bv32, b: bv8): bv32 {
    TableEntry(Xor(crc, b as bv32));
    Xor(TABLE[Low(Xor(crc, b as bv32)) as int], Shr8(crc))
  }

  lemma TableNextIsRight(crc: bv32, b: bv8)
    ensures TableNext(crc, b) == ShiftBits(crc, b as bv32, 8)
  {
    hide Steps, ShiftBits, Xor, Low, Shr8;
    var x := Xor(crc, b as bv32);
    TableEntry(x);
    ByteLeavesHigh(crc, b);
    ByteByTable(x);
    ByteAtOnce(crc, b);
  }

  /** tst_crc32c: the loop over the table computes the bit-serial CRC of every buffer. */
  method TableCrc32c(buf: array<bv8>) returns (crc: bv32)
    ensures crc == Crc32c(buf[..])
  {
    hide ShiftBits, TableNext;
    crc := 0xffff_ffff;
    assert buf[0..] == buf[..];
    for i := 0 to buf.Length
      invariant Remainder(0xffff_ffff, buf[..]) == Remainder(crc, buf[i..])
    {
      assert buf[i..][1..] == buf[i + 1..];
      TableNextIsRight(crc, buf[i]);
      crc := TableNext(crc, buf[i]);
    }
    crc := !crc;
  }

  // ----- What the checksum detects -----

  lemma StepIsInjective(x: bv32, y: bv32)
    requires Step(x) == Step(y)
    ensures x == y
  {
  }

  lemma {:induction false} StepsAreInjective(x: bv32, y: bv32, n: nat)
    requires Steps(x, n) == Steps(y, n)
    ensures x == y
    decreases n
  {
    hide Step;
    if n > 0 {
      StepsAreInjective(Step(x), Step(y), n - 1);
      StepIsInjective(x, y);
    }
  }

  lemma {:induction false} RemainderIsInjective(c: bv32, d: bv32, buf: seq<bv8>)
    requires Remainder(c, buf) == Remainder(d, buf)
    ensures c == d
    decreases |buf|
  {
    hide Steps, ShiftBits;
    if buf != [] {
      RemainderIsInjective(ShiftBits(c, buf[0] as bv32, 8), ShiftBits(d, buf[0] as bv32, 8), buf[1..]);
      ByteAtOnce(c, buf[0]);
      ByteAtOnce(d, buf[0]);
      StepsAreInjective(Xor(c, buf[0] as bv32), Xor(d, buf[0] as bv32), 8);
      XorIsInjective(c, d, buf[0] as bv32);
    }
  }

  lemma XorIsInjective(a: bv32, b: bv32, p: bv32)
    ensures Xor(a, p) == Xor(b, p) ==> a == b
    ensures Xor(p, a) == Xor(p, b) ==> a == b
  {
  }

  lemma {:induction false} RemainderConcat(c: bv32, a: seq<bv8>, b: seq<bv8>)
    ensures Remainder(c, a + b) == Remainder(Remainder(c, a), b)
    decreases |a|
  {
    hide ShiftBits;
    if a == [] {
      assert a + b == b;
    } else {
      assert (a + b)[1..] == a[1..] + b;
      RemainderConcat(ShiftBits(c, a[0] as bv32, 8), a[1..], b);
    }
  }

  function ToWord(b: bv8): bv32 {
    b as bv32
  }

  /** Up to four bytes as one word, the first the least significant. */
  function Word(u: seq<bv8>): bv32 {
    if u == [] then 0 else Xor(ToWord(u[0]), Shl8(Word(u[1..])))
  }

  predicate Small(w: bv32) {
    w < 0x100_0000
  }

  predicate WordFits(w: bv32, n: nat) {
    match n case 0 => w == 0 case 1 => w < 0x100 case 2 => w < 0x1_0000 case 3 => Small(w) case _ => true
  }

  lemma FitsNext(b: bv8, w: bv32, n: nat)
    requires n < 4 && WordFits(w, n)
    ensures WordFits(Xor(ToWord(b), Shl8(w)), n + 1) && Small(w)
  {
  }

  lemma {:induction false} WordIsSmall(u: seq<bv8>)
    requires |u| <= 4
    ensures WordFits(Word(u), |u|) && (u != [] ==> Small(Word(u[1..])))
  {
    if u != [] {
      WordIsSmall(u[1..]);
      FitsNext(u[0], Word(u[1..]), |u| - 1);
      hide *;
    }
  }

  /** A byte put below a small word can be read back, and so can the word. */
  lemma PutByte(b: bv8, w: bv32)
    requires Small(w)
    ensures Low(Xor(ToWord(b), Shl8(w))) == ToWord(b) && Shr8(Xor(ToWord(b), Shl8(w))) == w
  {
  }

  lemma ToWordIsInjective(a: bv8, b: bv8)
    requires ToWord(a) == ToWord(b)
    ensures a == b
  {
  }

  lemma {:induction false} WordIsInjective(u: seq<bv8>, v: seq<bv8>)
    requires |u| == |v| <= 4 && Word(u) == Word(v)
    ensures u == v
    decreases |u|
  {
    hide Xor, ToWord, Shl8, Low, Shr8, Small, WordFits;
    if u != [] {
      WordIsSmall(u);
      WordIsSmall(v);
      PutByte(u[0], Word(u[1..]));
      PutByte(v[0], Word(v[1..]));
      WordIsInjective(u[1..], v[1..]);
      ToWordIsInjective(u[0], v[0]);
      assert u == [u[0]] + u[1..] && v == [v[0]] + v[1..];
    }
  }

  lemma HighWord(w: bv32)
    requires Small(w)
    ensures High(Shl8(w)) == Shl8(w) && Shr8(Shl8(w)) == w
  {
  }

  lemma XorInTwo(c: bv32, b: bv32, high: bv32, n: nat)
    ensures Steps(Xor(c, Xor(b, high)), n) == Xor(Steps(Xor(c, b), n), Steps(high, n))
  {
    hide Steps, Xor;
    XorAssociates(c, b, high);
    StepsAreLinear(Xor(c, b), high, n);
  }

  /** A byte and the word after it can be xor-ed in together. */
  lemma ByteAndRest(c: bv32, b: bv8, w: bv32)
    requires Small(w)
    ensures Steps(Xor(c, Xor(ToWord(b), Shl8(w))), 8) == Xor(ShiftBits(c, b as bv32, 8), w)
  {
    hide Steps, Xor, ShiftBits, Shl8, High, Shr8, Small;
    HighWord(w);
    HighBitsShift(Shl8(w));
    XorInTwo(c, ToWord(b), Shl8(w), 8);
    ByteAtOnce(c, b);
  }

  lemma {:induction false} StepsAdd(x: bv32, m: nat, n: nat)
    ensures Steps(x, m + n) == Steps(Steps(x, m), n)
    decreases m
  {
    hide Step;
    if m > 0 {
      StepsAdd(Step(x), m - 1, n);
    }
  }

  lemma {:induction false} WordAtOnce(c: bv32, u: seq<bv8>)
    requires |u| <= 4
    ensures Remainder(c, u) == Steps(Xor(c, Word(u)), 8 * |u|)
    decreases |u|
  {
    hide ShiftBits, Steps, Xor, ToWord, Shl8, Small, WordFits;
    if u == [] {
      XorZero(c);
      NoSteps(c);
    } else {
      WordIsSmall(u);
      WordAtOnce(ShiftBits(c, u[0] as bv32, 8), u[1..]);
      ByteAndRest(c, u[0], Word(u[1..]));
      StepsAdd(Xor(c, Word(u)), 8, 8 * |u[1..]|);
    }
  }

  lemma NoSteps(x: bv32)
    ensures Steps(x, 0) == x
  {
  }

  /** Any change confined to four consecutive bytes changes the checksum, whatever stands around it. */
  lemma BurstsAreDetected(p: seq<bv8>, u: seq<bv8>, v: seq<bv8>, s: seq<bv8>)
    requires |u| == |v| <= 4 && u != v
    ensures Crc32c(p + u + s) != Crc32c(p + v + s)
  {
    hide Crc32c, Remainder, Steps, Xor, Word;
    var c := Remainder(0xffff_ffff, p);
    RemainderConcat(0xffff_ffff, p + u, s);
    RemainderConcat(0xffff_ffff, p, u);
    RemainderConcat(0xffff_ffff, p + v, s);
    RemainderConcat(0xffff_ffff, p, v);
    if Crc32c(p + u + s) == Crc32c(p + v + s) {
      CrcDeterminesRemainder(p + u + s, p + v + s);
      RemainderIsInjective(Remainder(c, u), Remainder(c, v), s);
      WordAtOnce(c, u);
      WordAtOnce(c, v);
      StepsAreInjective(Xor(c, Word(u)), Xor(c, Word(v)), 8 * |u|);
      XorIsInjective(Word(u), Word(v), c);
      WordIsInjective(u, v);
    }
  }

  lemma CrcDeterminesRemainder(a: seq<bv8>, b: seq<bv8>)
    requires Crc32c(a) == Crc32c(b)
    ensures Remainder(0xffff_ffff, a) == Remainder(0xffff_ffff, b)
  {
    hide Remainder;
    var x, y := Remainder(0xffff_ffff, a), Remainder(0xffff_ffff, b);
    assert !(!x) == x && !(!y) == y;
  }
}
