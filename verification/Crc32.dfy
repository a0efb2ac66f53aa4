/**
 CRC-32: the bit-at-a-time form of the boot stage and the installer
 (limine/stage1/decompressor.asm, limine/host/limine.c) and the nibble-table form of the packer
 (limine/tools/limlzpack.c).
 */
module Crc32 {
  import opened Bytes

  const POLY: bv32 := 0xedb8_8320

  /** One bit of the reflected polynomial division. */
  function BitStep(crc: bv32): bv32 {
    if crc & 1 == 1 then (crc >> 1) ^ POLY else crc >> 1
  }

  function BitSteps(crc: bv32, n: nat): bv32
    decreases n
  {
    if n == 0 then crc else BitSteps(BitStep(crc), n - 1)
  }

  function ByteStep(crc: bv32, b: byte): bv32 {
    BitSteps(crc ^ (b as bv32), 8)
  }

  /** `crc32_update`: the running remainder after more bytes. */
  function Update(crc: bv32, data: seq<byte>): bv32
    decreases |data|
  {
    if data == [] then crc else Update(ByteStep(crc, data[0]), data[1..])
  }

  /** The CRC-32 of a byte string. */
  function Crc(data: seq<byte>): bv32 {
    !Update(0xffff_ffff, data)
  }

  /** The remainder of a concatenation continues from the remainder of the front. */
  lemma {:induction false} UpdateConcat(crc: bv32, a: seq<byte>, b: seq<byte>)
    ensures Update(crc, a + b) == Update(Update(crc, a), b)
    decreases |a|
  {
    if a == [] {
      assert a + b == b;
    } else {
      assert (a + b)[0] == a[0] && (a + b)[1..] == a[1..] + b;
      UpdateConcat(ByteStep(crc, a[0]), a[1..], b);
    }
  }

  /** The inner loop: eight bit steps. */
  method ByteLoop(crc: bv32, b: byte) returns (r: bv32)
    ensures r == ByteStep(crc, b)
  {
    r := crc ^ (b as bv32);
    ghost var start := r;
    var bit := 0;
    while bit < 8
      invariant 0 <= bit <= 8
      invariant BitSteps(r, 8 - bit) == BitSteps(start, 8)
    {
      r := BitStep(r);
      bit := bit + 1;
    }
  }

  /** `crc32_update` as the doubly nested loop it is. */
  method UpdateLoop(crc: bv32, bytes: seq<byte>) returns (r: bv32)
    ensures r == Update(crc, bytes)
  {
    r := crc;
    for i := 0 to |bytes|
      invariant Update(r, bytes[i..]) == Update(crc, bytes)
    {
      r := ByteLoop(r, bytes[i]);
      assert bytes[i..][1..] == bytes[i + 1..];
    }
  }

  // ---- The nibble table ------------------------------------------------------------------

  /** The packer's 16-entry table, indexed by a nibble. */
  function Table(x: bv32): bv32 {
    if x == 0x0 then 0x0000_0000 else if x == 0x1 then 0x1DB7_1064
    else if x == 0x2 then 0x3B6E_20C8 else if x == 0x3 then 0x26D9_30AC
    else if x == 0x4 then 0x76DC_4190 else if x == 0x5 then 0x6B6B_51F4
    else if x == 0x6 then 0x4DB2_6158 else if x == 0x7 then 0x5005_713C
    else if x == 0x8 then 0xEDB8_8320 else if x == 0x9 then 0xF00F_9344
    else if x == 0xA then 0xD6D6_A3E8 else if x == 0xB then 0xCB61_B38C
    else if x == 0xC then 0x9B64_C2B0 else if x == 0xD then 0x86D3_D2D4
    else if x == 0xE then 0xA00A_E278 else 0xBDBD_F21C
  }

  function NibbleStep(crc: bv32): bv32 {
    (crc >> 4) ^ Table(crc & 0x0f)
  }

  // A bit step is linear. The operators have names so that the argument is about them, not about bits.

  function Xor(a: bv32, b: bv32): bv32 { a ^ b }
  function Half(x: bv32): bv32 { x >> 1 }
  function Low(x: bv32): bv32 { x & 1 }
  function Nibble(x: bv32): bv32 { x & 0x0f }

  /** What a bit shifted out brings in. */
  function Feedback(bit: bv32): bv32 {
    if bit == 1 then POLY else 0
  }

  lemma StepIs(crc: bv32)
    ensures BitStep(crc) == Xor(Half(crc), Feedback(Low(crc)))
  {
  }

  lemma XorShifts(x: bv32, y: bv32)
    ensures Half(Xor(x, y)) == Xor(Half(x), Half(y))
  {
  }

  lemma XorLow(x: bv32, y: bv32)
    requires Low(y) == 0
    ensures Low(Xor(x, y)) == Low(x)
  {
  }

  lemma XorCommutes(a: bv32, b: bv32)
    ensures Xor(a, b) == Xor(b, a)
  {
  }

  lemma XorSwap(a: bv32, b: bv32, c: bv32)
    ensures Xor(Xor(a, b), c) == Xor(Xor(a, c), b)
  {
    hide Xor;
    XorAssociates(a, b, c);
    XorAssociates(a, c, b);
    XorCommutes(b, c);
  }

  lemma XorAssociates(a: bv32, b: bv32, c: bv32)
    ensures Xor(Xor(a, b), c) == Xor(a, Xor(b, c))
  {
  }

  /** An even part goes through a bit step with no more than a shift. */
  lemma StepOfXor(x: bv32, y: bv32)
    requires Low(y) == 0
    ensures BitStep(Xor(x, y)) == Xor(BitStep(x), Half(y))
  {
    hide BitStep, Xor, Half, Low, Feedback;
    XorShifts(x, y);
    XorLow(x, y);
    StepIs(x);
    StepIs(Xor(x, y));
    XorSwap(Half(x), Half(y), Feedback(Low(x)));
  }

  /** The feedback of four bits, the lowest of them shifted along the furthest. */
  function Feedback4(b0: bv32, b1: bv32, b2: bv32, b3: bv32): bv32 {
    Xor(Xor(Xor(Feedback(b3), Half(Feedback(b2))), Half(Half(Feedback(b1)))), Half(Half(Half(Feedback(b0)))))
  }

  lemma FeedbackEven(bit: bv32)
    ensures Low(Feedback(bit)) == 0 && Low(Half(Feedback(bit))) == 0 && Low(Half(Half(Feedback(bit)))) == 0
  {
  }

  /** Each table entry is the feedback of its index's bits. */
  lemma TableIsFeedback(n: bv32)
    requires n < 16
    ensures Table(n) == Feedback4(Low(n), Low(Half(n)), Low(Half(Half(n))), Low(Half(Half(Half(n)))))
  {
    if n < 4 { FirstQuarter(n); } else if n < 8 { SecondQuarter(n); } else if n < 12 { ThirdQuarter(n); } else { LastQuarter(n); }
  }

  lemma FirstQuarter(n: bv32)
    requires n < 4
    ensures Table(n) == Feedback4(Low(n), Low(Half(n)), Low(Half(Half(n))), Low(Half(Half(Half(n)))))
  {
  }

  lemma SecondQuarter(n: bv32)
    requires 4 <= n < 8
    ensures Table(n) == Feedback4(Low(n), Low(Half(n)), Low(Half(Half(n))), Low(Half(Half(Half(n)))))
  {
  }

  lemma ThirdQuarter(n: bv32)
    requires 8 <= n < 12
    ensures Table(n) == Feedback4(Low(n), Low(Half(n)), Low(Half(Half(n))), Low(Half(Half(Half(n)))))
  {
  }

  lemma LastQuarter(n: bv32)
    requires 12 <= n < 16
    ensures Table(n) == Feedback4(Low(n), Low(Half(n)), Low(Half(Half(n))), Low(Half(Half(Half(n)))))
  {
  }

  lemma NibbleLow(crc: bv32)
    ensures Nibble(crc) < 16 && Low(Nibble(crc)) == Low(crc) && Low(Half(Nibble(crc))) == Low(Half(crc))
  {
  }

  lemma NibbleHigh(crc: bv32)
    ensures Low(Half(Half(Nibble(crc)))) == Low(Half(Half(crc)))
    ensures Low(Half(Half(Half(Nibble(crc))))) == Low(Half(Half(Half(crc))))
  {
  }

  lemma FourHalves(crc: bv32)
    ensures Half(Half(Half(Half(crc)))) == crc >> 4
  {
  }

  lemma NibbleStepIs(crc: bv32)
    ensures NibbleStep(crc) == Xor(Half(Half(Half(Half(crc)))), Table(Nibble(crc)))
  {
    hide Table, Half;
    FourHalves(crc);
  }

  /** The remainder so far and what two bits have fed back, one step on. */
  lemma ThreeSteps(c0: bv32)
    ensures var c1, c2, c3 := Half(c0), Half(Half(c0)), Half(Half(Half(c0)));
            BitStep(BitStep(BitStep(c0)))
            == Xor(Xor(Xor(c3, Feedback(Low(c2))), Half(Feedback(Low(c1)))), Half(Half(Feedback(Low(c0)))))
  {
    hide BitStep, Xor, Half, Low, Feedback;
    var c1, c2 := Half(c0), Half(Half(c0));
    var f0, f1 := Feedback(Low(c0)), Feedback(Low(c1));
    StepIs(c0);
    StepIs(c1);
    StepIs(c2);
    FeedbackEven(Low(c0));
    FeedbackEven(Low(c1));
    StepOfXor(c1, f0);
    StepOfXor(Xor(c2, f1), Half(f0));
    StepOfXor(c2, f1);
  }

  lemma FourSteps(c0: bv32)
    ensures var c1, c2, c3 := Half(c0), Half(Half(c0)), Half(Half(Half(c0)));
            BitStep(BitStep(BitStep(BitStep(c0)))) == Xor(Half(c3), Feedback4(Low(c0), Low(c1), Low(c2), Low(c3)))
  {
    hide BitStep, Xor, Half, Low, Feedback;
    var c1, c2, c3 := Half(c0), Half(Half(c0)), Half(Half(Half(c0)));
    var f0, f1, f2, f3 := Feedback(Low(c0)), Feedback(Low(c1)), Feedback(Low(c2)), Feedback(Low(c3));
    ThreeSteps(c0);
    StepIs(c3);
    FeedbackEven(Low(c0));
    FeedbackEven(Low(c1));
    FeedbackEven(Low(c2));
    StepOfXor(Xor(Xor(c3, f2), Half(f1)), Half(Half(f0)));
    StepOfXor(Xor(c3, f2), Half(f1));
    StepOfXor(c3, f2);
    var g2, g1, g0 := Half(f2), Half(Half(f1)), Half(Half(Half(f0)));
    XorAssociates(Half(c3), f3, g2);
    XorAssociates(Half(c3), Xor(f3, g2), g1);
    XorAssociates(Half(c3), Xor(Xor(f3, g2), g1), g0);
  }

  /** A table step is four bit steps. */
  lemma NibbleIsFourBits(crc: bv32)
    ensures NibbleStep(crc) == BitStep(BitStep(BitStep(BitStep(crc))))
  {
    hide BitStep, NibbleStep, Xor, Half, Low, Nibble, Table, Feedback4;
    FourSteps(crc);
    NibbleLow(crc);
    NibbleHigh(crc);
    NibbleStepIs(crc);
    TableIsFeedback(Nibble(crc));
  }

  lemma TwoNibblesAreAByte(crc: bv32)
    ensures NibbleStep(NibbleStep(crc)) == BitSteps(crc, 8)
  {
    NibbleIsFourBits(crc);
    var mid := BitStep(BitStep(BitStep(BitStep(crc))));
    NibbleIsFourBits(mid);
    FourMore(crc, 4);
    FourMore(mid, 0);
  }

  lemma FourMore(crc: bv32, n: nat)
    ensures BitSteps(crc, n + 4) == BitSteps(BitStep(BitStep(BitStep(BitStep(crc)))), n)
  {
    var a := BitStep(crc);
    var b := BitStep(a);
    var c := BitStep(b);
    assert BitSteps(crc, n + 4) == BitSteps(a, n + 3);
    assert BitSteps(a, n + 3) == BitSteps(b, n + 2);
    assert BitSteps(b, n + 2) == BitSteps(c, n + 1);
    assert BitSteps(c, n + 1) == BitSteps(BitStep(c), n);
  }

  /** One byte by two table lookups. */
  method NibbleByte(crc: bv32, b: byte) returns (r: bv32)
    ensures r == ByteStep(crc, b)
  {
    var x := crc ^ (b as bv32);
    TwoNibblesAreAByte(x);
    r := NibbleStep(NibbleStep(x));
  }

  /** `crc32_nibble`: the table form computes the bitwise CRC of every byte string. */
  method CrcNibble(data: seq<byte>) returns (r: bv32)
    ensures r == Crc(data)
  {
    var crc: bv32 := 0xffff_ffff;
    for i := 0 to |data|
      invariant Update(crc, data[i..]) == Update(0xffff_ffff, data)
    {
      crc := NibbleByte(crc, data[i]);
      assert data[i..][1..] == data[i + 1..];
    }
    r := !crc;
  }

  // ---- A check value -----------------------------------------------------------------------------------

  /** Two table steps decide a byte step. */
  lemma StepOn(crc: bv32, b: byte, next: bv32)
    requires NibbleStep(NibbleStep(crc ^ (b as bv32))) == next
    ensures ByteStep(crc, b) == next
  {
    TwoNibblesAreAByte(crc ^ (b as bv32));
  }

  lemma OneByte(crc: bv32, a: byte, rest: seq<byte>)
    ensures Update(crc, [a] + rest) == Update(ByteStep(crc, a), rest)
  {
    hide ByteStep;
    assert ([a] + rest)[1..] == rest;
  }

  lemma ThreeBytes(crc: bv32, a: byte, b: byte, c: byte, rest: seq<byte>)
    ensures Update(crc, [a, b, c] + rest) == Update(ByteStep(ByteStep(ByteStep(crc, a), b), c), rest)
  {
    hide ByteStep, Update;
    assert [a, b, c] + rest == [a] + ([b] + ([c] + rest));
    OneByte(crc, a, [b] + ([c] + rest));
    OneByte(ByteStep(crc, a), b, [c] + rest);
    OneByte(ByteStep(ByteStep(crc, a), b), c, rest);
  }

  lemma FirstThree()
    ensures ByteStep(ByteStep(ByteStep(0xffff_ffff, 49), 50), 51) == 0x77b7_9c2d
  {
    hide ByteStep;
    StepOn(0xffff_ffff, 49, 0x7c23_1048);
    StepOn(0x7c23_1048, 50, 0xb0ac_bb32);
    StepOn(0xb0ac_bb32, 51, 0x77b7_9c2d);
  }

  lemma NextThree()
    ensures ByteStep(ByteStep(ByteStep(0x77b7_9c2d, 52), 53), 54) == 0xf68d_2c9e
  {
    hide ByteStep;
    StepOn(0x77b7_9c2d, 52, 0x641c_1f5c);
    StepOn(0x641c_1f5c, 53, 0x340a_c5e3);
    StepOn(0x340a_c5e3, 54, 0xf68d_2c9e);
  }

  lemma LastThree()
    ensures ByteStep(ByteStep(ByteStep(0xf68d_2c9e, 55), 56), 57) == 0x340b_c6d9
  {
    hide ByteStep;
    StepOn(0xf68d_2c9e, 55, 0xaffc_9660);
    StepOn(0xaffc_9660, 56, 0x651f_2550);
    StepOn(0x651f_2550, 57, 0x340b_c6d9);
  }

  /** The published check value of this CRC: that of the nine digits "123456789". */
  lemma CheckValue()
    ensures Crc([49, 50, 51] + ([52, 53, 54] + ([55, 56, 57] + []))) == 0xcbf4_3926
  {
    hide ByteStep;
    ThreeBytes(0xffff_ffff, 49, 50, 51, [52, 53, 54] + ([55, 56, 57] + []));
    ThreeBytes(0x77b7_9c2d, 52, 53, 54, [55, 56, 57] + []);
    ThreeBytes(0xf68d_2c9e, 55, 56, 57, []);
    FirstThree();
    NextThree();
    LastThree();
  }
}
