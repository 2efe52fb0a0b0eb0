/** The CRC-32 of RFC 1952: the checksum driven by a table of bytes, the one computed bit by bit for partition
    tables, and the shift register that both stand for. */
module Crc {
  const POLYNOMIAL: bv32 := 0xedb88320
  const ONES: bv32 := 0xffffffff

  function Xor(x: bv32, y: bv32): bv32 { x ^ y }

  function Complement(x: bv32): bv32 { !x }

  predicate Odd(x: bv32) { x & 1 == 1 }

  function Half(x: bv32): bv32 { x >> 1 }

  /** One step of the shift register, which takes in one bit of the message. */
  function ShiftIn(crc: bv32, bit: bool): bv32 {
    if Odd(crc) != bit then Xor(POLYNOMIAL, Half(crc)) else Half(crc)
  }

  function ShiftAll(crc: bv32, bits: seq<bool>): bv32
    decreases |bits|
  {
    if bits == [] then crc else ShiftAll(ShiftIn(crc, bits[0]), bits[1..])
  }

  /** The bits of a byte as they are sent, the least significant first. */
  function BitsOf(b: bv8): seq<bool> {
    [b & 1 != 0, b & 2 != 0, b & 4 != 0, b & 8 != 0, b & 16 != 0, b & 32 != 0, b & 64 != 0, b & 128 != 0]
  }

  function Message(block: seq<bv8>): seq<bool> {
    if block == [] then [] else BitsOf(block[0]) + Message(block[1..])
  }

  /** The checksum of section 8 of RFC 1952. */
  function Crc32Of(block: seq<bv8>): bv32 {
    Xor(ONES, ShiftAll(ONES, Message(block)))
  }

  function Step(c: bv32): bv32 {
    if Odd(c) then Xor(POLYNOMIAL, Half(c)) else Half(c)
  }

  function Steps(c: bv32, n: nat): bv32
    decreases n
  {
    if n == 0 then c else Steps(Step(c), n - 1)
  }

  /** The table holds the eight steps of each byte. */
  ghost predicate TableOk(table: seq<bv32>) {
    |table| == 256 && forall n {:trigger table[n]} :: 0 <= n < 256 ==> table[n] == Steps(n as bv32, 8)
  }

  /** `InitTable` */
  method InitTable() returns (table: seq<bv32>)
    ensures TableOk(table)
  {
    hide Odd, Xor, Half;
    table := [];
    for n := 0 to 256
      invariant |table| == n
      invariant forall i {:trigger table[i]} :: 0 <= i < n ==> table[i] == Steps(i as bv32, 8)
    {
      var c := n as bv32;
      ghost var start := c;
      for k := 0 to 8
        invariant Steps(c, 8 - k) == Steps(start, 8)
      {
        c := if Odd(c) then Xor(POLYNOMIAL, Half(c)) else Half(c);
      }
      table := table + [c];
    }
  }

  /** Where in the table the next byte leads. */
  function Index(crc: bv32, b: bv8): int { LowByteOf(crc, b) as int }

  function LowByteOf(crc: bv32, b: bv8): bv32 { ((crc & 0xff) as bv8 ^ b) as bv32 }

  class Crc32 {
    const table: seq<bv32>
    var crc: bv32
    ghost var message: seq<bv8>

    ghost predicate Valid()
      reads this
    {
      TableOk(table) && crc == ShiftAll(ONES, Message(message))
    }

    constructor (t: seq<bv32>)
      requires TableOk(t)
      ensures Valid() && message == []
    {
      table, crc, message := t, ONES, [];
    }

    /** `Update`: the checksum goes on as if all the pieces were one block. */
    method Update(block: seq<bv8>)
      requires Valid()
      modifies this
      ensures Valid() && message == old(message) + block
    {
      hide ShiftAll, BitsOf, TableOk, Message, Xor, Index;
      for n := 0 to |block|
        invariant Valid() && message == old(message) + block[..n]
      {
        TableStep(table, crc, block[n]);
        Sent(message, block[n]);
        assert block[..n + 1] == block[..n] + [block[n]];
        crc := Xor(table[Index(crc, block[n])], crc >> 8);
        message := message + [block[n]];
      }
      assert block[..|block|] == block;
    }

    /** `GetValue` */
    method GetValue() returns (v: bv32)
      requires Valid()
      ensures v == Crc32Of(message)
    {
      hide ShiftAll, Xor, Complement;
      Inverted(crc);
      v := Complement(crc);
    }
  }

  /** `Checksum` */
  method Checksum(block: seq<bv8>) returns (v: bv32)
    ensures v == Crc32Of(block)
  {
    hide Crc32Of, TableOk, ShiftAll;
    var table := InitTable();
    var c := new Crc32(table);
    c.Update(block);
    assert c.message == block;
    v := c.GetValue();
  }

  /** The checksum of a block in pieces is that of the block. */
  method ChecksumOfPieces(pieces: seq<seq<bv8>>) returns (v: bv32)
    ensures v == Crc32Of(Joined(pieces))
  {
    hide Crc32Of, TableOk, ShiftAll;
    var table := InitTable();
    var c := new Crc32(table);
    for i := 0 to |pieces|
      invariant c.Valid() && fresh(c) && c.message + Joined(pieces[i..]) == Joined(pieces)
    {
      assert pieces[i..][1..] == pieces[i + 1..];
      c.Update(pieces[i]);
    }
    assert c.message == Joined(pieces);
    v := c.GetValue();
  }

  function Joined(pieces: seq<seq<bv8>>): seq<bv8> {
    if pieces == [] then [] else pieces[0] + Joined(pieces[1..])
  }

  /** The `crc32` of the partition table code, whose step has no branch. */
  method BitwiseCrc32(data: seq<bv8>) returns (v: bv32)
    ensures v == Crc32Of(data)
  {
    hide ShiftAll, BitsOf, Message, Xor, Step, Complement, Branchless;
    var crc := ONES;
    EmptyMessage();
    for i := 0 to |data|
      invariant crc == ShiftAll(ONES, Message(data[..i]))
    {
      Sent(data[..i], data[i]);
      ByteIn(crc, data[i]);
      assert data[..i + 1] == data[..i] + [data[i]];
      crc := Xor(crc, data[i] as bv32);
      ghost var start := crc;
      for j := 0 to 8
        invariant Steps(crc, 8 - j) == Steps(start, 8)
      {
        NoBranch(crc);
        crc := Branchless(crc);
      }
    }
    assert data[..|data|] == data;
    Inverted(crc);
    v := Complement(crc);
  }

  lemma EmptyMessage()
    ensures ShiftAll(ONES, Message([])) == ONES
  {}

  lemma Inverted(c: bv32)
    ensures Complement(c) == Xor(ONES, c)
  {}

  lemma LastBit(c: bv32)
    ensures c & 1 == 0 || c & 1 == 1
  {}

  function Branchless(c: bv32): bv32 { (c >> 1) ^ (0xedb88320 & (0 - (c & 1))) }

  lemma OddStep(c: bv32)
    requires c & 1 == 1
    ensures Branchless(c) == Xor(POLYNOMIAL, Half(c))
  {
    assert (c >> 1) ^ (0xedb88320 & (0 - 1)) == 0xedb88320 ^ (c >> 1);
  }

  lemma EvenStep(c: bv32)
    requires c & 1 == 0
    ensures Branchless(c) == Half(c)
  {
    assert (c >> 1) ^ (0xedb88320 & (0 - 0)) == c >> 1;
  }

  /** The step without a branch is the step. */
  lemma NoBranch(c: bv32)
    ensures Branchless(c) == Step(c)
  {
    hide Branchless, Xor, Half;
    LastBit(c);
    if c & 1 == 1 {
      OddStep(c);
    } else {
      EvenStep(c);
    }
  }

  lemma {:induction false} Sent(message: seq<bv8>, b: bv8)
    ensures ShiftAll(ONES, Message(message + [b])) == ShiftAll(ShiftAll(ONES, Message(message)), BitsOf(b))
  {
    hide BitsOf, ShiftAll;
    MessageJoins(message, [b]);
    assert [b][1..] == [];
    assert Message([b]) == BitsOf(b) + [] == BitsOf(b);
    ShiftJoins(ONES, Message(message), BitsOf(b));
  }

  lemma {:induction false} MessageJoins(x: seq<bv8>, y: seq<bv8>)
    ensures Message(x + y) == Message(x) + Message(y)
  {
    hide BitsOf;
    if x == [] {
      assert x + y == y;
    } else {
      MessageJoins(x[1..], y);
      assert (x + y)[1..] == x[1..] + y && (x + y)[0] == x[0];
      Regrouped(BitsOf(x[0]), Message(x[1..]), Message(y));
    }
  }

  lemma Regrouped(a: seq<bool>, b: seq<bool>, c: seq<bool>)
    ensures a + (b + c) == (a + b) + c
  {}

  lemma {:induction false} ShiftJoins(crc: bv32, x: seq<bool>, y: seq<bool>)
    ensures ShiftAll(crc, x + y) == ShiftAll(ShiftAll(crc, x), y)
    decreases |x|
  {
    hide ShiftIn;
    if x == [] {
      assert x + y == y;
    } else {
      ShiftJoins(ShiftIn(crc, x[0]), x[1..], y);
      assert (x + y)[1..] == x[1..] + y;
    }
  }

  lemma XorMoves(x: bv32, y: bv32, z: bv32)
    ensures Xor(x, Xor(y, z)) == Xor(Xor(x, y), z)
  {}

  lemma XorZero(x: bv32)
    ensures Xor(x, 0) == x == Xor(0, x)
  {}

  lemma HalfXor(x: bv32, y: bv32)
    ensures Half(Xor(x, y)) == Xor(Half(x), Half(y))
  {}

  lemma OddBits(x: bv32, y: bv32)
    ensures (x ^ y) & 1 == (x & 1) ^ (y & 1)
  {}

  lemma OddXor(x: bv32, y: bv32)
    ensures Odd(Xor(x, y)) <==> Odd(x) != Odd(y)
  {
    OddBits(x, y);
    LastBit(x);
    LastBit(y);
  }

  /** Of what is added to the register at once, the first bit goes in, and the others stay to be added. */
  lemma OneBit(crc: bv32, d: bv32)
    ensures Step(Xor(crc, d)) == Xor(ShiftIn(crc, Odd(d)), Half(d))
  {
    hide Odd, Xor, Half;
    OddXor(crc, d);
    HalfXor(crc, d);
    XorMoves(POLYNOMIAL, Half(crc), Half(d));
  }

  function BitsFrom(d: bv32, n: nat): seq<bool>
    decreases n
  {
    if n == 0 then [] else [Odd(d)] + BitsFrom(Half(d), n - 1)
  }

  function Halved(d: bv32, n: nat): bv32
    decreases n
  {
    if n == 0 then d else Halved(Half(d), n - 1)
  }

  /** What is added at once goes in bit by bit. */
  lemma {:induction false} AllBits(crc: bv32, d: bv32, n: nat)
    ensures Steps(Xor(crc, d), n) == Xor(ShiftAll(crc, BitsFrom(d, n)), Halved(d, n))
    decreases n
  {
    hide Odd, Xor, Half, Step, ShiftIn;
    if n > 0 {
      OneBit(crc, d);
      AllBits(ShiftIn(crc, Odd(d)), Half(d), n - 1);
      assert BitsFrom(d, n)[1..] == BitsFrom(Half(d), n - 1);
    }
  }

  function Down(d: bv32, k: nat): bv32
    requires k <= 8
    decreases k
  {
    if k == 0 then d else Half(Down(d, k - 1))
  }

  lemma DownMore(d: bv32, k: nat)
    requires k < 8
    ensures Half(Down(d, k)) == Down(d, k + 1)
  {}

  predicate Bit(d: bv32, k: nat)
    requires k < 8
  {
    Odd(Down(d, k))
  }

  function BitRange(d: bv32, k: nat): seq<bool>
    requires k <= 8
  {
    seq(8 - k, i requires 0 <= i < 8 - k => Bit(d, k + i))
  }

  lemma {:induction false} BitsAt(d: bv32, k: nat)
    requires k <= 8
    ensures BitsFrom(Down(d, k), 8 - k) == BitRange(d, k) && Halved(Down(d, k), 8 - k) == Down(d, 8)
    decreases 8 - k
  {
    hide Odd, Half, Down;
    if k < 8 {
      DownMore(d, k);
      BitsAt(d, k + 1);
      Onward(Down(d, k), Down(d, k + 1), 8 - k);
      assert BitRange(d, k) == [Bit(d, k)] + BitRange(d, k + 1);
    }
  }

  lemma Onward(x: bv32, h: bv32, n: nat)
    requires n > 0 && Half(x) == h
    ensures BitsFrom(x, n) == [Odd(x)] + BitsFrom(h, n - 1) && Halved(x, n) == Halved(h, n - 1)
  {}

  lemma ShiftsAdd(d: bv32)
    ensures (d >> 1) >> 1 == d >> 2 && (d >> 2) >> 1 == d >> 3 && (d >> 3) >> 1 == d >> 4
    ensures (d >> 4) >> 1 == d >> 5 && (d >> 5) >> 1 == d >> 6 && (d >> 6) >> 1 == d >> 7 && (d >> 7) >> 1 == d >> 8
  {}

  lemma DownIs(d: bv32)
    ensures Down(d, 0) == d && Down(d, 1) == d >> 1 && Down(d, 2) == d >> 2 && Down(d, 3) == d >> 3 && Down(d, 4) == d >> 4
    ensures Down(d, 5) == d >> 5 && Down(d, 6) == d >> 6 && Down(d, 7) == d >> 7 && Down(d, 8) == d >> 8
  {
    ShiftsAdd(d);
    assert Down(d, 1) == d >> 1;
    assert Down(d, 2) == d >> 2;
    assert Down(d, 3) == d >> 3;
    assert Down(d, 4) == d >> 4;
    assert Down(d, 5) == d >> 5;
    assert Down(d, 6) == d >> 6;
    assert Down(d, 7) == d >> 7;
  }

  /** The first eight bits of a word depend on its low byte. */
  lemma LowBits(x: bv32)
    ensures BitsFrom(x, 8) == BitsFrom(x & 0xff, 8) && Halved(x, 8) == x >> 8 && Halved(x & 0xff, 8) == 0
  {
    hide Odd, Half, BitsFrom, Halved, Bit, Down;
    DownIs(x);
    DownIs(x & 0xff);
    BitsAt(x, 0);
    BitsAt(x & 0xff, 0);
    Cleared(x);
    forall i: nat | i < 8
      ensures Bit(x, i) == Bit(x & 0xff, i)
    {
      SameBit(x, i);
    }
  }

  lemma Cleared(x: bv32)
    ensures (x & 0xff) >> 8 == 0
  {}

  lemma SameBit(x: bv32, k: nat)
    requires k < 8
    ensures Bit(x, k) == Bit(x & 0xff, k)
  {
    DownIs(x);
    DownIs(x & 0xff);
    SameLowBits(x);
  }

  lemma SameLowBits(x: bv32)
    ensures var y := x & 0xff;
      && x & 1 == y & 1 && (x >> 1) & 1 == (y >> 1) & 1 && (x >> 2) & 1 == (y >> 2) & 1 && (x >> 3) & 1 == (y >> 3) & 1
      && (x >> 4) & 1 == (y >> 4) & 1 && (x >> 5) & 1 == (y >> 5) & 1 && (x >> 6) & 1 == (y >> 6) & 1 && (x >> 7) & 1 == (y >> 7) & 1
  {}

  lemma ByteBits(b: bv8)
    ensures BitsFrom(b as bv32, 8) == BitsOf(b) && Halved(b as bv32, 8) == 0
  {
    hide Odd, Half, BitsFrom, Halved, Bit, BitsOf, Down;
    var d := b as bv32;
    DownIs(d);
    BitsAt(d, 0);
    BitsOfByte(b);
    assert BitRange(d, 0) == BitsOf(b);
  }

  lemma BitsOfByte(b: bv8)
    ensures |BitsOf(b)| == 8 && (b as bv32) >> 8 == 0
    ensures forall k :: 0 <= k < 8 ==> BitsOf(b)[k] == Bit(b as bv32, k)
  {
    var d := b as bv32;
    DownIs(d);
    ByteShifted(b);
  }

  lemma ByteShifted(b: bv8)
    ensures var d := b as bv32;
      && (d & 1 == 1 <==> b & 1 != 0) && ((d >> 1) & 1 == 1 <==> b & 2 != 0) && ((d >> 2) & 1 == 1 <==> b & 4 != 0)
      && ((d >> 3) & 1 == 1 <==> b & 8 != 0) && ((d >> 4) & 1 == 1 <==> b & 16 != 0) && ((d >> 5) & 1 == 1 <==> b & 32 != 0)
      && ((d >> 6) & 1 == 1 <==> b & 64 != 0) && ((d >> 7) & 1 == 1 <==> b & 128 != 0) && d >> 8 == 0
  {}

  /** Eight steps on the register with a byte added take in the bits of the byte. */
  lemma ByteIn(crc: bv32, b: bv8)
    ensures Steps(Xor(crc, b as bv32), 8) == ShiftAll(crc, BitsOf(b))
  {
    hide Steps, ShiftAll, BitsFrom, BitsOf, Halved, Xor;
    AllBits(crc, b as bv32, 8);
    ByteBits(b);
    XorZero(ShiftAll(crc, BitsOf(b)));
  }

  /** The low byte goes through eight steps by itself; the rest is only shifted. */
  lemma LowByte(x: bv32)
    ensures Steps(x, 8) == Xor(Steps(x & 0xff, 8), x >> 8)
  {
    hide Steps, ShiftAll, BitsFrom, Halved, Xor;
    XorZero(x);
    XorZero(x & 0xff);
    AllBits(0, x, 8);
    AllBits(0, x & 0xff, 8);
    LowBits(x);
    XorZero(ShiftAll(0, BitsFrom(x, 8)));
  }

  lemma Same(x: bv32)
    ensures (x as int) as bv32 == x
  {}

  lemma Small(p: bv32)
    ensures p <= 0xff ==> 0 <= p as int < 256
  {}

  lemma Masked(crc: bv32, b: bv8)
    ensures ((crc & 0xff) as bv8 ^ b) as bv32 == (crc ^ (b as bv32)) & 0xff
    ensures ((crc & 0xff) as bv8 ^ b) as bv32 <= 0xff && (crc ^ (b as bv32)) >> 8 == crc >> 8
  {}

  lemma LowByteIs(crc: bv32, b: bv8)
    ensures LowByteOf(crc, b) == Xor(crc, b as bv32) & 0xff && LowByteOf(crc, b) <= 0xff
    ensures Xor(crc, b as bv32) >> 8 == crc >> 8
  {
    Masked(crc, b);
  }

  lemma IndexIs(crc: bv32, b: bv8)
    ensures 0 <= Index(crc, b) < 256 && Index(crc, b) as bv32 == Xor(crc, b as bv32) & 0xff
    ensures Xor(crc, b as bv32) >> 8 == crc >> 8
  {
    hide LowByteOf, Xor;
    LowByteIs(crc, b);
    Same(LowByteOf(crc, b));
    Small(LowByteOf(crc, b));
  }

  /** The table takes in a byte at once. */
  lemma TableStep(table: seq<bv32>, crc: bv32, b: bv8)
    requires TableOk(table)
    ensures |table| == 256 && 0 <= Index(crc, b) < 256
    ensures Xor(table[Index(crc, b)], crc >> 8) == ShiftAll(crc, BitsOf(b))
  {
    hide Steps, ShiftAll, Xor, Index, BitsOf;
    IndexIs(crc, b);
    ByteIn(crc, b);
    LowByte(Xor(crc, b as bv32));
  }

  // ---------------------------------------------------------------- the polynomial, and the check value

  /** The coefficient of x^k in a register, which holds that of x^31 in its lowest bit */
  function Term(k: nat): bv32
    requires k <= 31
    decreases 31 - k
  {
    if k == 31 then 1 else Term(k + 1) << 1
  }

  /** The terms below x^32 of the generator polynomial */
  lemma PolynomialTerms()
    ensures POLYNOMIAL == Term(26) | Term(23) | Term(22) | Term(16) | Term(12) | Term(11) | Term(10) | Term(8) | Term(7)
                          | Term(5) | Term(4) | Term(2) | Term(1) | Term(0)
  {}

  lemma OneShift(c: bv32, bit: bool, rest: seq<bool>)
    ensures ShiftAll(c, [bit] + rest) == ShiftAll(ShiftIn(c, bit), rest)
  {
    assert ([bit] + rest)[1..] == rest;
  }

  function FourShifts(c: bv32, b0: bool, b1: bool, b2: bool, b3: bool): bv32 {
    ShiftIn(ShiftIn(ShiftIn(ShiftIn(c, b0), b1), b2), b3)
  }

  lemma FourBits(c: bv32, b0: bool, b1: bool, b2: bool, b3: bool, rest: seq<bool>)
    ensures ShiftAll(c, [b0, b1, b2, b3] + rest) == ShiftAll(FourShifts(c, b0, b1, b2, b3), rest)
  {
    hide ShiftAll;
    var c1 := ShiftIn(c, b0);
    var c2 := ShiftIn(c1, b1);
    OneShift(c, b0, [b1, b2, b3] + rest);
    OneShift(c1, b1, [b2, b3] + rest);
    OneShift(c2, b2, [b3] + rest);
    OneShift(ShiftIn(c2, b2), b3, rest);
    assert [b0, b1, b2, b3] + rest == [b0] + ([b1, b2, b3] + rest);
    assert [b1, b2, b3] + rest == [b1] + ([b2, b3] + rest);
    assert [b2, b3] + rest == [b2] + ([b3] + rest);
  }

  /** The bits of one more byte go in. */
  lemma OneMoreByte(message: seq<bv8>, i: nat, c: bv32, b: bv8)
    requires i < |message| && message[i] == b && ShiftAll(ONES, Message(message[..i])) == c
    ensures ShiftAll(ONES, Message(message[..i + 1])) ==
      FourShifts(FourShifts(c, b & 1 != 0, b & 2 != 0, b & 4 != 0, b & 8 != 0), b & 16 != 0, b & 32 != 0, b & 64 != 0, b & 128 != 0)
  {
    hide FourShifts, Message, ShiftAll;
    assert message[..i + 1] == message[..i] + [b];
    Sent(message[..i], b);
    var upper := [b & 16 != 0, b & 32 != 0, b & 64 != 0, b & 128 != 0];
    FourBits(c, b & 1 != 0, b & 2 != 0, b & 4 != 0, b & 8 != 0, upper);
    var c4 := FourShifts(c, b & 1 != 0, b & 2 != 0, b & 4 != 0, b & 8 != 0);
    FourBits(c4, b & 16 != 0, b & 32 != 0, b & 64 != 0, b & 128 != 0, []);
    assert upper + [] == upper;
    assert BitsOf(b) == [b & 1 != 0, b & 2 != 0, b & 4 != 0, b & 8 != 0] + upper;
    NoBitsLeft(FourShifts(c4, b & 16 != 0, b & 32 != 0, b & 64 != 0, b & 128 != 0));
  }

  lemma NoBitsLeft(c: bv32)
    ensures ShiftAll(c, []) == c
  {}

  const DIGITS: seq<bv8> := [0x31, 0x32, 0x33, 0x34, 0x35, 0x36, 0x37, 0x38, 0x39]

  /** The check value, of the digits from 1 to 9 */
  lemma CheckValue()
    ensures Crc32Of(DIGITS) == 0xcbf43926
  {
    hide ShiftAll, Message;
    EmptyMessage();
    assert DIGITS[..0] == [] && DIGITS[..9] == DIGITS;
    OneMoreByte(DIGITS, 0, 0xffffffff, 0x31);
    OneMoreByte(DIGITS, 1, 0x7c231048, 0x32);
    OneMoreByte(DIGITS, 2, 0xb0acbb32, 0x33);
    OneMoreByte(DIGITS, 3, 0x77b79c2d, 0x34);
    OneMoreByte(DIGITS, 4, 0x641c1f5c, 0x35);
    OneMoreByte(DIGITS, 5, 0x340ac5e3, 0x36);
    OneMoreByte(DIGITS, 6, 0xf68d2c9e, 0x37);
    OneMoreByte(DIGITS, 7, 0xaffc9660, 0x38);
    OneMoreByte(DIGITS, 8, 0x651f2550, 0x39);
  }
}
